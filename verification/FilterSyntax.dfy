/**
 The trees and parser outcomes of the filter language
 (crates/filter-parser/src/lib.rs and condition.rs).

 A token is modelled by the string its `value()` method returns; positions in the input are not
 modelled.
 */
module FilterSyntax {

  datatype Condition =
    | GreaterThan(value: string)
    | GreaterThanOrEqual(value: string)
    | Equal(value: string)
    | NotEqual(value: string)
    | Null
    | Empty
    | Exists
    | LowerThan(value: string)
    | LowerThanOrEqual(value: string)
    | Between(from: string, to: string)
    | Contains(word: string)
    | StartsWith(word: string)

  datatype Filter =
    | Not(inner: Filter)
    | Condition(fid: string, op: Condition)
    | In(fid: string, els: seq<string>)
    | Or(subs: seq<Filter>)
    | And(subs: seq<Filter>)
    | GeoLowerThan(lat: string, lng: string, radius: string)
    | GeoBoundingBox(top: string, right: string, bottom: string, left: string)

  /** The error kinds that influence how parsing goes on, plus the depth limit. */
  datatype Kind =
    | DepthLimitReached
    | ReservedKeyword
    | ExpectedValue(reserved: bool)
    | InvalidPrimary
    | OtherKind

  /** nom's result: `Error` lets an alternative be tried, `Failure` and `Incomplete` are final. */
  datatype IResult<+T> = Ok(rem: string, out: T) | Error(kind: Kind) | Failure(kind: Kind) | Incomplete {

    predicate IsFailure() {
      !Ok?
    }

    function PropagateFailure<U>(): IResult<U>
      requires !Ok?
    {
      match this
      case Error(k) => IResult.Error(k)
      case Failure(k) => IResult.Failure(k)
      case Incomplete => IResult.Incomplete
    }

    function Extract(): (string, T)
      requires Ok?
    {
      (rem, out)
    }

    /** The `cut` combinator: a backtrackable error becomes final. */
    function Cut(): IResult<T> {
      if Error? then IResult.Failure(kind) else this
    }

    /** One step of the `alt` combinator; the error of the last alternative is kept. */
    function Else(other: IResult<T>): IResult<T> {
      if Error? then other else this
    }

    /** `NomErrorExt::map_err`: changes the kind of a backtrackable error only. */
    function MapErr(k: Kind): IResult<T> {
      if Error? then IResult.Error(k) else this
    }

    /** The parse stopped because the depth limit was reached, finally or not. */
    predicate DepthError() {
      this == IResult.Error(DepthLimitReached) || this == IResult.Failure(DepthLimitReached)
    }
  }

  // ---------- Trees ----------

  predicate IsLeaf(f: Filter) {
    !f.Not? && !f.Or? && !f.And?
  }

  /** No double negation, and every conjunction and disjunction has at least two members. */
  predicate NormalForm(f: Filter)
    decreases f
  {
    match f
    case Not(g) => !g.Not? && NormalForm(g)
    case Or(fs) => |fs| >= 2 && AllNormal(fs)
    case And(fs) => |fs| >= 2 && AllNormal(fs)
    case _ => true
  }

  predicate AllNormal(fs: seq<Filter>)
    decreases fs
  {
    fs == [] || (NormalForm(fs[0]) && AllNormal(fs[1..]))
  }

  /** Truth value of a tree when `v` gives the truth value of every leaf. */
  function Eval(v: Filter -> bool, f: Filter): bool
    decreases f
  {
    match f
    case Not(g) => !Eval(v, g)
    case Or(fs) => EvalAny(v, fs)
    case And(fs) => EvalAll(v, fs)
    case _ => v(f)
  }

  function EvalAny(v: Filter -> bool, fs: seq<Filter>): bool
    decreases fs
  {
    fs != [] && (Eval(v, fs[0]) || EvalAny(v, fs[1..]))
  }

  function EvalAll(v: Filter -> bool, fs: seq<Filter>): bool
    decreases fs
  {
    fs == [] || (Eval(v, fs[0]) && EvalAll(v, fs[1..]))
  }

  function Max(a: int, b: int): int {
    if a < b then b else a
  }

  function Height(f: Filter): (h: nat)
    ensures h >= 1
    decreases f
  {
    match f
    case Not(g) => 1 + Height(g)
    case Or(fs) => 1 + MaxHeight(fs)
    case And(fs) => 1 + MaxHeight(fs)
    case _ => 1
  }

  function MaxHeight(fs: seq<Filter>): nat
    decreases fs
  {
    if fs == [] then 0 else Max(Height(fs[0]), MaxHeight(fs[1..]))
  }

  // ---------- Field names ----------

  /** `FilterCondition::fids`: stops descending when the depth is used up. */
  function Fids(f: Filter, depth: nat): seq<string>
    decreases f
  {
    if depth == 0 then []
    else match f
      case Condition(fid, _) => [fid]
      case In(fid, _) => [fid]
      case Not(g) => Fids(g, depth - 1)
      case Or(fs) => FidsOf(fs, depth - 1)
      case And(fs) => FidsOf(fs, depth - 1)
      case _ => []
  }

  function FidsOf(fs: seq<Filter>, depth: nat): seq<string>
    decreases fs
  {
    if fs == [] then [] else Fids(fs[0], depth) + FidsOf(fs[1..], depth)
  }

  /** Every field named by a condition or an `IN`, from left to right, without any cut-off. */
  function AllFids(f: Filter): seq<string>
    decreases f
  {
    match f
    case Condition(fid, _) => [fid]
    case In(fid, _) => [fid]
    case Not(g) => AllFids(g)
    case Or(fs) => AllFidsOf(fs)
    case And(fs) => AllFidsOf(fs)
    case _ => []
  }

  function AllFidsOf(fs: seq<Filter>): seq<string>
    decreases fs
  {
    if fs == [] then [] else AllFids(fs[0]) + AllFidsOf(fs[1..])
  }

  /** A tree no higher than the depth is traversed completely. */
  lemma {:induction false} FidsComplete(f: Filter, depth: nat)
    requires Height(f) <= depth
    ensures Fids(f, depth) == AllFids(f)
    decreases f
  {
    match f
    case Not(g) => FidsComplete(g, depth - 1);
    case Or(fs) => FidsOfComplete(fs, depth - 1);
    case And(fs) => FidsOfComplete(fs, depth - 1);
    case _ =>
  }

  lemma {:induction false} FidsOfComplete(fs: seq<Filter>, depth: nat)
    requires MaxHeight(fs) <= depth
    ensures FidsOf(fs, depth) == AllFidsOf(fs)
    decreases fs
  {
    if fs != [] {
      FidsComplete(fs[0], depth);
      FidsOfComplete(fs[1..], depth);
    }
  }
}
