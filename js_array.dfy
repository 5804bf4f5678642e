/** The two JavaScript array operations the process detector uses:
    `Array.prototype.filter` and `Array.prototype.find`, each with a
    callback that only inspects the element. */
module JsArray {
  import opened Wrappers

  /** `s.filter(p)`: the elements of `s` that satisfy `p`, in order. */
  function Filter<T(!new)>(s: seq<T>, p: T -> bool): (r: seq<T>)
    ensures |r| <= |s|
    ensures forall x :: x in r <==> x in s && p(x)
    decreases |s|
  {
    if s == [] then []
    else
      assert s == [s[0]] + s[1..];
      (if p(s[0]) then [s[0]] else []) + Filter(s[1..], p)
  }

  /** Filtering a concatenation filters each side. */
  lemma {:induction false} FilterConcat<T(!new)>(a: seq<T>, b: seq<T>, p: T -> bool)
    ensures Filter(a + b, p) == Filter(a, p) + Filter(b, p)
    decreases |a|
  {
    if a != [] {
      assert (a + b)[0] == a[0] && (a + b)[1..] == a[1..] + b;
      FilterConcat(a[1..], b, p);
    } else {
      assert a + b == b;
    }
  }

  /** The indices of `s` whose elements satisfy `p`, in increasing order:
      the reference that `FilterIsPositions` proves `Filter` equal to. */
  ghost function Positions<T>(s: seq<T>, p: T -> bool): (idx: seq<nat>)
    ensures forall k :: 0 <= k < |idx| ==> idx[k] < |s| && p(s[idx[k]])
    ensures forall k, l :: 0 <= k < l < |idx| ==> idx[k] < idx[l]
    ensures forall i :: 0 <= i < |s| && p(s[i]) ==> i in idx
    decreases |s|
  {
    if s == [] then []
    else
      var n := |s| - 1;
      Positions(s[..n], p) + (if p(s[n]) then [n] else [])
  }

  /** `Filter` keeps exactly the elements at the positions that satisfy `p`,
      and keeps them in their original order. */
  lemma {:induction false} FilterIsPositions<T(!new)>(s: seq<T>, p: T -> bool)
    ensures |Filter(s, p)| == |Positions(s, p)|
    ensures forall k :: 0 <= k < |Filter(s, p)| ==> Filter(s, p)[k] == s[Positions(s, p)[k]]
    decreases |s|
  {
    if s != [] {
      var n := |s| - 1;
      assert s == s[..n] + [s[n]];
      FilterIsPositions(s[..n], p);
      FilterConcat(s[..n], [s[n]], p);
      assert [s[n]][1..] == [];
    }
  }

  /** `i` is the first index of `s` whose element satisfies `p`. */
  ghost predicate FirstAt<T>(s: seq<T>, p: T -> bool, i: int)
  {
    0 <= i < |s| && p(s[i]) && forall j :: 0 <= j < i ==> !p(s[j])
  }

  /** `s.find(p)`: the first element of `s` that satisfies `p`, if any. */
  function FindFirst<T(!new)>(s: seq<T>, p: T -> bool): (r: Option<T>)
    ensures r.None? <==> forall x :: x in s ==> !p(x)
    ensures r.Some? ==> r.value in s && p(r.value)
    decreases |s|
  {
    if s == [] then None
    else if p(s[0]) then Some(s[0])
    else
      assert s == [s[0]] + s[1..];
      FindFirst(s[1..], p)
  }

  /** The element `FindFirst` returns is the one at the first index that
      satisfies `p`. */
  lemma {:induction false} FindFirstIsFirst<T(!new)>(s: seq<T>, p: T -> bool, i: int)
    requires FirstAt(s, p, i)
    ensures FindFirst(s, p) == Some(s[i])
    decreases i
  {
    if i > 0 {
      assert !p(s[0]);
      assert FirstAt(s[1..], p, i - 1);
      FindFirstIsFirst(s[1..], p, i - 1);
    }
  }

  /** Finding in a filtered sequence is finding, in the unfiltered one, an
      element that satisfies both the filter and the search callback
      (`pq` is their conjunction). */
  lemma {:induction false} FindFirstFilter<T(!new)>(s: seq<T>, p: T -> bool, q: T -> bool, pq: T -> bool)
    requires forall x :: pq(x) == (p(x) && q(x))
    ensures FindFirst(Filter(s, p), q) == FindFirst(s, pq)
    decreases |s|
  {
    if s != [] {
      FindFirstFilter(s[1..], p, q, pq);
      var rest := Filter(s[1..], p);
      if p(s[0]) {
        var f := [s[0]] + rest;
        assert Filter(s, p) == f;
        assert f[0] == s[0] && f[1..] == rest;
        if q(s[0]) {
          assert FindFirst(f, q) == Some(s[0]);
          assert FindFirst(s, pq) == Some(s[0]);
        } else {
          assert FindFirst(f, q) == FindFirst(rest, q);
          assert FindFirst(s, pq) == FindFirst(s[1..], pq);
        }
      } else {
        assert Filter(s, p) == rest;
        assert FindFirst(s, pq) == FindFirst(s[1..], pq);
      }
    }
  }

  /** Filtering with a callback implied by the search callback does not
      change what is found. */
  lemma FindFirstFilterImplied<T(!new)>(s: seq<T>, p: T -> bool, q: T -> bool)
    requires forall x :: q(x) ==> p(x)
    ensures FindFirst(Filter(s, p), q) == FindFirst(s, q)
  {
    FindFirstFilter(s, p, q, q);
  }
}
