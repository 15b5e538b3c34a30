/** Optional values, minima, the error numbers the sources return, and calls that may fail. */
module Common {
  datatype Option<+T> = None | Some(value: T)

  function Min(a: nat, b: nat): nat {
    if a < b then a else b
  }

  const EPERM: int := -1
  const ENOENT: int := -2
  const EIO: int := -5
  const E2BIG: int := -7
  const EEXIST: int := -17
  const EINVAL: int := -22
  const ENOSPC: int := -28
  const ENODATA: int := -61
  const EOVERFLOW: int := -75
  const EALREADY: int := -114
  const ESTALE: int := -116

  /** Whether a call fails; never where nothing does. */
  method Fault(quiet: bool) returns (f: bool)
    ensures quiet ==> !f
  {
    f := *;
    f := f && !quiet;
  }

  /** The error of a failed call. */
  method Errno() returns (e: int)
    ensures e < 0
  {
    e := *;
    e := if e < 0 then e else EIO;
  }

  // ----- counting and picking

  /** The positions of the elements with a property. */
  function Where<T>(s: seq<T>, p: T -> bool): set<int> {
    set i | 0 <= i < |s| && p(s[i])
  }

  lemma WhereSame<T>(s: seq<T>, p: T -> bool, q: T -> bool)
    requires forall x :: p(x) == q(x)
    ensures Where(s, p) == Where(s, q)
  {}

  lemma WhereNone<T>(s: seq<T>, p: T -> bool)
    requires s == []
    ensures Where(s, p) == {}
  {}

  lemma WhereLast<T>(s: seq<T>, p: T -> bool)
    requires s != []
    ensures |Where(s, p)| == |Where(s[..|s| - 1], p)| + if p(s[|s| - 1]) then 1 else 0
  {
    var n, front := |s| - 1, s[..|s| - 1];
    assert forall i :: 0 <= i < n ==> front[i] == s[i];
    OneMore(Where(front, p), Where(s, p), n, p(s[n]));
  }

  /** `to` are the results for just those elements of `from` that have one, in their order; they stand at `at`. */
  ghost predicate Picks<S, T>(from: seq<S>, to: seq<T>, at: seq<nat>, f: S -> Option<T>) {
    && |at| == |to| && (forall i :: 0 <= i < |at| ==> at[i] < |from| && f(from[at[i]]) == Some(to[i]))
    && (forall i, j :: 0 <= i < j < |at| ==> at[i] < at[j])
    && (forall k: nat :: k < |from| && f(from[k]).Some? ==> k in at)
  }

  lemma PicksNone<S, T>(from: seq<S>, to: seq<T>, f: S -> Option<T>)
    requires from == [] && to == []
    ensures Picks(from, to, [], f)
  {}

  /** One element more, with a result or without. */
  lemma PicksNext<S, T>(from: seq<S>, to: seq<T>, at: seq<nat>, f: S -> Option<T>, x: S)
    requires Picks(from, to, at, f)
    ensures f(x).Some? ==> Picks(from + [x], to + [f(x).value], at + [|from|], f)
    ensures f(x).None? ==> Picks(from + [x], to, at, f)
  {
    var more := from + [x];
    assert more[|from|] == x && forall k :: 0 <= k < |from| ==> more[k] == from[k];
    forall k: nat | k < |more| && f(more[k]).Some?
      ensures k in at + [|from|] && (f(x).None? ==> k in at)
    {
      if k < |from| {
        assert k in at;
      } else {
        assert (at + [|from|])[|at|] == k;
      }
    }
  }

  // ----- sets and division

  lemma OneMore(s: set<int>, t: set<int>, n: int, more: bool)
    requires n !in s && t == if more then s + {n} else s
    ensures |t| == |s| + if more then 1 else 0
  {}

  lemma MultipleSize(b: int, d: int)
    requires b > 0
    ensures d > 0 ==> b * d >= b
    ensures d < 0 ==> b * d <= -b
  {}

  lemma DivUnique(x: int, b: int, q: int, r: int)
    requires 0 <= r < b && x == b * q + r
    ensures x / b == q
  {
    var d := q - x / b;
    assert x == b * (x / b) + x % b;
    assert b * d == x % b - r;
    MultipleSize(b, d);
  }
}
