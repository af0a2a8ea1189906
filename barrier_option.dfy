/**
 * Barrier option contracts: the three enumerations, construction of an
 * option from loosely typed arguments (with its validation errors), the
 * barrier payoff dispatch on option kind x barrier kind, and the revenue of
 * a long or short position.
 */
module BarrierOptions {
  import opened Wrappers

  datatype OptionType = Call | Put
  datatype PositionType = Long | Short
  datatype BarrierType = UpAndOut | DownAndOut | UpAndIn | DownAndIn

  /** The string value each option type member carries. */
  function OptionTypeValue(t: OptionType): string
  {
    match t
    case Call => "call"
    case Put => "put"
  }

  /** Look-up of an option type member by its value; None where the enumeration raises. */
  function OptionTypeByValue(s: string): (t: Option<OptionType>)
    ensures t.Some? <==> s == "call" || s == "put"
    ensures t.Some? ==> OptionTypeValue(t.value) == s
  {
    if s == "call" then Some(Call)
    else if s == "put" then Some(Put)
    else None
  }

  /** Every member is found again from its own value. */
  lemma OptionTypeValueRoundTrip(t: OptionType)
    ensures OptionTypeByValue(OptionTypeValue(t)) == Some(t)
  {
  }

  /** Lower-casing of one character; only 'A'..'Z' change. */
  function LowerChar(c: char): (d: char)
    ensures 'A' <= c <= 'Z' ==> d as int == c as int + 32
    ensures !('A' <= c <= 'Z') ==> d == c
  {
    if 'A' <= c <= 'Z' then (c as int + 32) as char else c
  }

  /** Lower-casing of a string, character by character. */
  function Lower(s: string): (t: string)
    ensures |t| == |s|
    ensures forall i :: 0 <= i < |s| ==> t[i] == LowerChar(s[i])
  {
    if s == [] then [] else [LowerChar(s[0])] + Lower(s[1..])
  }

  /** Values a caller may pass for the loosely typed constructor arguments and keyword arguments. */
  datatype PyValue =
    | Str(s: string)
    | Num(x: real)
    | Position(p: PositionType)
    | Barrier(b: BarrierType)
    | Other

  /** The ValueError and AttributeError cases of construction. */
  datatype OptionError =
    | TypeNotString
    | InvalidType(given: string)
    | InvalidPosition
    | ReadOnlyAttribute(name: string)

  /**
   * An option: typed fields for the named constructor parameters, and the
   * remaining instance attributes (its class name under "name", and every
   * keyword argument) as a dictionary.
   */
  datatype Contract = Contract(
    kind: OptionType,
    K: real,
    T: real,
    premium: real,
    position: PositionType,
    attrs: map<string, PyValue>)

  /** The attribute that is a read-only property: assigning it raises. */
  const ReadOnlyProperty: string := "is_trajectory_dependent"

  /** Names bound to the named parameters, which therefore never arrive as keyword arguments. */
  const NamedParameters: set<string> := {"self", "type", "K", "T", "premium", "position"}

  function KeywordNames(kwargs: seq<(string, PyValue)>): set<string>
  {
    set i | 0 <= i < |kwargs| :: kwargs[i].0
  }

  predicate DistinctKeywords(kwargs: seq<(string, PyValue)>)
  {
    forall i, j :: 0 <= i < j < |kwargs| ==> kwargs[i].0 != kwargs[j].0
  }

  /** The option type a constructor argument names, if it is a string naming one in any letter case. */
  function ParseOptionType(typeArg: PyValue): (t: Option<OptionType>)
    ensures t.Some? <==> typeArg.Str? && (Lower(typeArg.s) == "call" || Lower(typeArg.s) == "put")
  {
    if typeArg.Str? then OptionTypeByValue(Lower(typeArg.s)) else None
  }

  /**
   * Construction: checks the option type (a string, case-insensitively "call"
   * or "put"), then the position (a PositionType member), stores the named
   * fields and the class name, and finally sets one attribute per keyword
   * argument in order.
   */
  method NewOption(
    typeArg: PyValue, K: real, T: real, premium: real, position: PyValue,
    className: string, kwargs: seq<(string, PyValue)>)
    returns (r: Result<Contract, OptionError>)
    requires DistinctKeywords(kwargs)
    requires forall i :: 0 <= i < |kwargs| ==> kwargs[i].0 !in NamedParameters
    ensures !typeArg.Str? ==> r == Failure(TypeNotString)
    ensures typeArg.Str? && ParseOptionType(typeArg).None? ==> r == Failure(InvalidType(typeArg.s))
    ensures ParseOptionType(typeArg).Some? && !position.Position? ==> r == Failure(InvalidPosition)
    ensures ParseOptionType(typeArg).Some? && position.Position? && ReadOnlyProperty in KeywordNames(kwargs)
      ==> r == Failure(ReadOnlyAttribute(ReadOnlyProperty))
    ensures r.Success? <==>
      ParseOptionType(typeArg).Some? && position.Position? && ReadOnlyProperty !in KeywordNames(kwargs)
    ensures r.Success? ==>
      && r.value.kind == ParseOptionType(typeArg).value
      && r.value.K == K && r.value.T == T && r.value.premium == premium
      && r.value.position == position.p
      && r.value.attrs.Keys == {"name"} + KeywordNames(kwargs)
      && (forall i :: 0 <= i < |kwargs| ==> r.value.attrs[kwargs[i].0] == kwargs[i].1)
      && ("name" !in KeywordNames(kwargs) ==> r.value.attrs["name"] == Str(className))
  {
    if !typeArg.Str? {
      return Failure(TypeNotString);
    }
    var kind := OptionTypeByValue(Lower(typeArg.s));
    if kind.None? {
      return Failure(InvalidType(typeArg.s));
    }
    if !position.Position? {
      return Failure(InvalidPosition);
    }
    var attrs: map<string, PyValue> := map["name" := Str(className)];
    var i := 0;
    while i < |kwargs|
      invariant 0 <= i <= |kwargs|
      invariant attrs.Keys == {"name"} + KeywordNames(kwargs[..i])
      invariant forall j :: 0 <= j < i ==> attrs[kwargs[j].0] == kwargs[j].1
      invariant "name" !in KeywordNames(kwargs[..i]) ==> attrs["name"] == Str(className)
      invariant ReadOnlyProperty !in KeywordNames(kwargs[..i])
    {
      var (key, value) := kwargs[i];
      if key == ReadOnlyProperty {
        assert ReadOnlyProperty in KeywordNames(kwargs);
        return Failure(ReadOnlyAttribute(key));
      }
      assert KeywordNames(kwargs[..i + 1]) == KeywordNames(kwargs[..i]) + {key} by {
        assert kwargs[..i + 1] == kwargs[..i] + [kwargs[i]];
      }
      attrs := attrs[key := value];
      i := i + 1;
    }
    assert kwargs[..i] == kwargs;
    r := Success(Contract(kind.value, K, T, premium, position.p, attrs));
  }

  /** True when x lies on the barrier's side of H, the barrier itself included. */
  predicate OnBarrierSide(barrier: BarrierType, H: real, x: real)
  {
    if barrier.UpAndOut? || barrier.UpAndIn? then x >= H else x <= H
  }

  /** Some point of the trajectory reaches the barrier (Python's any over the comparison). */
  predicate AnyOnBarrierSide(barrier: BarrierType, H: real, trajectory: seq<real>)
  {
    exists i :: 0 <= i < |trajectory| && OnBarrierSide(barrier, H, trajectory[i])
  }

  /** Every point of the trajectory is on the barrier's side (Python's all over the comparison). */
  predicate AllOnBarrierSide(barrier: BarrierType, H: real, trajectory: seq<real>)
  {
    forall i :: 0 <= i < |trajectory| ==> OnBarrierSide(barrier, H, trajectory[i])
  }

  predicate IsOut(barrier: BarrierType)
  {
    barrier.UpAndOut? || barrier.DownAndOut?
  }

  /** The payoff of the plain option at maturity price sT. */
  function Intrinsic(kind: OptionType, K: real, sT: real): (v: real)
    ensures v >= 0.0
    ensures kind.Call? ==> v >= sT - K && (v == 0.0 || v == sT - K)
    ensures kind.Put? ==> v >= K - sT && (v == 0.0 || v == K - sT)
  {
    match kind
    case Call => if sT - K > 0.0 then sT - K else 0.0
    case Put => if K - sT > 0.0 then K - sT else 0.0
  }

  /** Call minus put at the same strike and maturity price is sT - K. */
  lemma IntrinsicParity(K: real, sT: real)
    ensures Intrinsic(Call, K, sT) - Intrinsic(Put, K, sT) == sT - K
  {
  }

  function Max0(x: real): real
  {
    if x > 0.0 then x else 0.0
  }

  /**
   * The payoff dispatch exactly as the barrier option class writes it: an
   * "out" barrier pays nothing when any point reaches the barrier, and an
   * "in" barrier pays nothing when every point is on the barrier's side.
   */
  function PayoffAsWritten(kind: OptionType, barrier: BarrierType, H: real, K: real, sT: real, trajectory: seq<real>): (v: real)
    ensures v >= 0.0
    ensures IsOut(barrier) ==>
      v == (if AnyOnBarrierSide(barrier, H, trajectory) then 0.0 else Intrinsic(kind, K, sT))
    ensures !IsOut(barrier) ==>
      v == (if AllOnBarrierSide(barrier, H, trajectory) then 0.0 else Intrinsic(kind, K, sT))
  {
    var anyUp := exists i :: 0 <= i < |trajectory| && trajectory[i] >= H;
    var anyDown := exists i :: 0 <= i < |trajectory| && trajectory[i] <= H;
    var allUp := forall i :: 0 <= i < |trajectory| ==> trajectory[i] >= H;
    var allDown := forall i :: 0 <= i < |trajectory| ==> trajectory[i] <= H;
    if kind == Call then
      match barrier
      case UpAndOut => if anyUp then 0.0 else Max0(sT - K)
      case DownAndOut => if anyDown then 0.0 else Max0(sT - K)
      case UpAndIn => if allUp then 0.0 else Max0(sT - K)
      case DownAndIn => if allDown then 0.0 else Max0(sT - K)
    else
      match barrier
      case UpAndOut => if anyUp then 0.0 else Max0(K - sT)
      case DownAndOut => if anyDown then 0.0 else Max0(K - sT)
      case UpAndIn => if allUp then 0.0 else Max0(K - sT)
      case DownAndIn => if allDown then 0.0 else Max0(K - sT)
  }

  /**
   * As written, an "in" option pays on a path that never reaches its barrier:
   * an up-and-in call with barrier 110, strike 90, on the constant path 100
   * pays 10, and so does the up-and-out call on the same path, so the two
   * together pay twice the plain call.
   */
  lemma InPaysWithoutReachingBarrier()
    ensures !AnyOnBarrierSide(UpAndIn, 110.0, [100.0])
    ensures PayoffAsWritten(Call, UpAndIn, 110.0, 90.0, 100.0, [100.0]) == 10.0
    ensures PayoffAsWritten(Call, UpAndIn, 110.0, 90.0, 100.0, [100.0])
          + PayoffAsWritten(Call, UpAndOut, 110.0, 90.0, 100.0, [100.0])
         != Intrinsic(Call, 90.0, 100.0)
  {
    assert !AllOnBarrierSide(UpAndIn, 110.0, [100.0]) by {
      assert !OnBarrierSide(UpAndIn, 110.0, [100.0][0]);
    }
  }

  /** Whether a path knocks the option out: reaching an "out" barrier, or never reaching an "in" barrier. */
  predicate KnockedOut(barrier: BarrierType, H: real, trajectory: seq<real>)
  {
    if IsOut(barrier) then AnyOnBarrierSide(barrier, H, trajectory)
    else !AnyOnBarrierSide(barrier, H, trajectory)
  }

  /** The barrier payoff: zero when the path knocks the option out, the plain payoff otherwise. */
  function BarrierPayoff(kind: OptionType, barrier: BarrierType, H: real, K: real, sT: real, trajectory: seq<real>): (v: real)
    ensures v >= 0.0
    ensures KnockedOut(barrier, H, trajectory) ==> v == 0.0
    ensures !KnockedOut(barrier, H, trajectory) ==> v == Intrinsic(kind, K, sT)
  {
    if KnockedOut(barrier, H, trajectory) then 0.0 else Intrinsic(kind, K, sT)
  }

  /** The "out" barriers are paid exactly as the class writes them. */
  lemma OutBarriersAsWritten(kind: OptionType, barrier: BarrierType, H: real, K: real, sT: real, trajectory: seq<real>)
    requires IsOut(barrier)
    ensures BarrierPayoff(kind, barrier, H, K, sT, trajectory) == PayoffAsWritten(kind, barrier, H, K, sT, trajectory)
  {
  }

  /** In-out parity: the "in" and the "out" option on the same barrier together pay the plain option. */
  lemma InOutParity(kind: OptionType, H: real, K: real, sT: real, trajectory: seq<real>)
    ensures BarrierPayoff(kind, UpAndIn, H, K, sT, trajectory) + BarrierPayoff(kind, UpAndOut, H, K, sT, trajectory)
         == Intrinsic(kind, K, sT)
    ensures BarrierPayoff(kind, DownAndIn, H, K, sT, trajectory) + BarrierPayoff(kind, DownAndOut, H, K, sT, trajectory)
         == Intrinsic(kind, K, sT)
  {
    assert AnyOnBarrierSide(UpAndIn, H, trajectory) == AnyOnBarrierSide(UpAndOut, H, trajectory);
    assert AnyOnBarrierSide(DownAndIn, H, trajectory) == AnyOnBarrierSide(DownAndOut, H, trajectory);
  }

  /** On a path that is not knocked out, a call minus a put pays sT - K. */
  lemma BarrierParity(barrier: BarrierType, H: real, K: real, sT: real, trajectory: seq<real>)
    requires !KnockedOut(barrier, H, trajectory)
    ensures BarrierPayoff(Call, barrier, H, K, sT, trajectory) - BarrierPayoff(Put, barrier, H, K, sT, trajectory) == sT - K
  {
    IntrinsicParity(K, sT);
  }

  /** What the payoff method can raise or return besides a number. */
  datatype PayoffError =
    | MissingAttribute(name: string)
    | BarrierNotComparable
    /** The barrier type is none of the four members: no branch is taken and nothing is returned. */
    | NoBranchTaken

  /**
   * The payoff method of a barrier option: reads the barrier type and the
   * barrier level H from the option's attributes and dispatches.
   */
  function Payoff(c: Contract, sT: real, trajectory: seq<real>): (r: Result<real, PayoffError>)
    ensures "barrier_type" !in c.attrs ==> r == Failure(MissingAttribute("barrier_type"))
    ensures r.Success? <==>
      "barrier_type" in c.attrs && c.attrs["barrier_type"].Barrier? && "H" in c.attrs && c.attrs["H"].Num?
    ensures r.Success? ==>
      r.value == BarrierPayoff(c.kind, c.attrs["barrier_type"].b, c.attrs["H"].x, c.K, sT, trajectory)
  {
    if "barrier_type" !in c.attrs then Failure(MissingAttribute("barrier_type"))
    else if !c.attrs["barrier_type"].Barrier? then Failure(NoBranchTaken)
    else if "H" !in c.attrs then Failure(MissingAttribute("H"))
    else if !c.attrs["H"].Num? then Failure(BarrierNotComparable)
    else Success(BarrierPayoff(c.kind, c.attrs["barrier_type"].b, c.attrs["H"].x, c.K, sT, trajectory))
  }

  /** Whether the payoff method fails does not depend on the path it is given. */
  lemma PayoffFailureIndependentOfPath(c: Contract, sT: real, trajectory: seq<real>, sT': real, trajectory': seq<real>)
    ensures Payoff(c, sT, trajectory).Failure? ==> Payoff(c, sT, trajectory) == Payoff(c, sT', trajectory')
  {
  }

  /** Revenue of a position: payoff less the premium when long, plus the premium when short. */
  function Revenue(c: Contract, sT: real, trajectory: seq<real>): (r: Result<real, PayoffError>)
    ensures Payoff(c, sT, trajectory).Failure? ==> r == Payoff(c, sT, trajectory)
    ensures r.Success? <==> Payoff(c, sT, trajectory).Success?
    ensures r.Success? && c.position == Long ==> r.value == Payoff(c, sT, trajectory).value - c.premium
    ensures r.Success? && c.position == Short ==> r.value == Payoff(c, sT, trajectory).value + c.premium
  {
    match Payoff(c, sT, trajectory)
    case Failure(e) => Failure(e)
    case Success(v) => if c.position == Long then Success(v - c.premium) else Success(v + c.premium)
  }

  /** A long and a short position on the same option differ by twice the premium, and a long one never loses more than the premium. */
  lemma LongShortRevenue(c: Contract, sT: real, trajectory: seq<real>)
    requires Payoff(c, sT, trajectory).Success?
    ensures Revenue(c.(position := Short), sT, trajectory).value - Revenue(c.(position := Long), sT, trajectory).value
         == 2.0 * c.premium
    ensures Revenue(c.(position := Long), sT, trajectory).value >= -c.premium
  {
  }
}
