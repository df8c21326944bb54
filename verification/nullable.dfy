/** Missing values with the semantics of pandas' nullable dtypes (`Int64`,
    `boolean`): a comparison on a missing value is missing, `|` is Kleene OR,
    `astype('Int64')` and `+` propagate missing, `.any(axis=1)` skips missing
    and `where` treats a missing condition as false. */
module Nullable {

  datatype Option<+T> = None | Some(value: T)

  /** Kleene OR, the `|` of two nullable boolean series. */
  function Or(a: Option<bool>, b: Option<bool>): (r: Option<bool>)
    ensures r == Some(true) <==> a == Some(true) || b == Some(true)
    ensures r == Some(false) <==> a == Some(false) && b == Some(false)
  {
    match (a, b)
    case (Some(true), _) => Some(true)
    case (_, Some(true)) => Some(true)
    case (Some(false), Some(false)) => Some(false)
    case _ => None
  }

  /** `x < bound` on a nullable integer. */
  function Less(x: Option<int>, bound: int): (r: Option<bool>)
    ensures r.None? <==> x.None?
    ensures r == Some(true) <==> x.Some? && x.value < bound
  {
    match x
    case None => None
    case Some(v) => Some(v < bound)
  }

  /** `x <= bound` on a nullable integer. */
  function AtMost(x: Option<int>, bound: int): (r: Option<bool>)
    ensures r.None? <==> x.None?
    ensures r == Some(true) <==> x.Some? && x.value <= bound
  {
    match x
    case None => None
    case Some(v) => Some(v <= bound)
  }

  /** `x == v` on a nullable integer. */
  function Equals(x: Option<int>, v: int): (r: Option<bool>)
    ensures r.None? <==> x.None?
    ensures r == Some(true) <==> x == Some(v)
  {
    match x
    case None => None
    case Some(y) => Some(y == v)
  }

  /** `.any(axis=1)` over a row of nullable booleans: missing entries are
      skipped, so the result is never missing. */
  function AnySkipNa(xs: seq<Option<bool>>): (r: bool)
    ensures r <==> exists i :: 0 <= i < |xs| && xs[i] == Some(true)
  {
    if xs == [] then false
    else xs[0] == Some(true) || AnySkipNa(xs[1..])
  }

  lemma AnyOfTwo(a: Option<bool>, b: Option<bool>)
    ensures AnySkipNa([a, b]) <==> a == Some(true) || b == Some(true)
  {
    assert [a, b][1..] == [b];
    assert [b][1..] == [];
  }

  lemma AnyOfThree(a: Option<bool>, b: Option<bool>, c: Option<bool>)
    ensures AnySkipNa([a, b, c]) <==> a == Some(true) || b == Some(true) || c == Some(true)
  {
    assert [a, b, c][1..] == [b, c];
    AnyOfTwo(b, c);
  }

  /** `astype('Int64')` of a nullable boolean. */
  function AsInt(b: Option<bool>): (r: Option<int>)
    ensures r.None? <==> b.None?
    ensures r.Some? ==> (r.value == 1 <==> b.value) && (r.value == 0 <==> !b.value)
  {
    match b
    case None => None
    case Some(x) => Some(if x then 1 else 0)
  }

  /** `+` on nullable integers. */
  function Add(a: Option<int>, b: Option<int>): (r: Option<int>)
    ensures r.Some? <==> a.Some? && b.Some?
    ensures r.Some? ==> r.value - a.value == b.value
  {
    if a.Some? && b.Some? then Some(a.value + b.value) else None
  }

  /** `*` by a constant on a nullable integer. */
  function Scale(a: Option<int>, k: int): (r: Option<int>)
    ensures r.Some? <==> a.Some?
    ensures r.Some? ==> r.value == a.value * k
  {
    match a
    case None => None
    case Some(v) => Some(v * k)
  }

  /** `x.where(cond, other)`: keeps `x` where `cond` is true and takes
      `other` where it is false or missing. */
  function Where(cond: Option<bool>, x: Option<int>, other: Option<int>): (r: Option<int>)
    ensures cond == Some(true) ==> r == x
    ensures cond != Some(true) ==> r == other
  {
    if cond == Some(true) then x else other
  }
}
