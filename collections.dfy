/** Order-preserving filtering (`Array.prototype.filter`) and the
    first-insertion-order deduplication of a JavaScript `Set` read back with
    `Array.from`. */
module Collections {

  // ---------------------------------------------------------------------------
  // Subsequences and filter
  // ---------------------------------------------------------------------------

  /** `a` is obtained from `b` by deleting elements, keeping the order. */
  predicate IsSubsequence<T(==)>(a: seq<T>, b: seq<T>)
    decreases |b|
  {
    a == [] || (b != [] && ((a[0] == b[0] && IsSubsequence(a[1..], b[1..])) || IsSubsequence(a, b[1..])))
  }

  /** `s.filter(p)`: the elements of `s` that satisfy `p`, in their order. */
  function Filter<T>(p: T -> bool, s: seq<T>): (r: seq<T>)
    ensures |r| <= |s|
    ensures forall i :: 0 <= i < |r| ==> p(r[i])
  {
    if s == [] then [] else (if p(s[0]) then [s[0]] else []) + Filter(p, s[1..])
  }

  /** An element is kept exactly when it is in the input and satisfies `p`. */
  lemma {:induction false} FilterMembership<T>(p: T -> bool, s: seq<T>, x: T)
    ensures x in Filter(p, s) <==> x in s && p(x)
  {
    if s != [] {
      FilterMembership(p, s[1..], x);
      assert s == [s[0]] + s[1..];
    }
  }

  /** Each value occurs in the result as often as in the input when it
      satisfies `p`, and not at all otherwise. */
  lemma {:induction false} FilterMultiplicity<T>(p: T -> bool, s: seq<T>, x: T)
    ensures multiset(Filter(p, s))[x] == if p(x) then multiset(s)[x] else 0
  {
    if s != [] {
      FilterMultiplicity(p, s[1..], x);
      assert s == [s[0]] + s[1..];
    }
  }

  lemma {:induction false} SubsequenceOfTail<T>(a: seq<T>, b: seq<T>)
    requires b != [] && IsSubsequence(a, b[1..])
    ensures IsSubsequence(a, b)
  {
  }

  /** The kept elements are in the input's order. */
  lemma {:induction false} FilterIsSubsequence<T>(p: T -> bool, s: seq<T>)
    ensures IsSubsequence(Filter(p, s), s)
  {
    if s != [] {
      FilterIsSubsequence(p, s[1..]);
      var r := Filter(p, s);
      if p(s[0]) {
        assert r[0] == s[0] && r[1..] == Filter(p, s[1..]);
      } else {
        assert r == Filter(p, s[1..]);
        if r != [] {
          SubsequenceOfTail(r, s);
        }
      }
    }
  }

  /** Filtering distributes over concatenation. */
  lemma {:induction false} FilterConcat<T>(p: T -> bool, a: seq<T>, b: seq<T>)
    ensures Filter(p, a + b) == Filter(p, a) + Filter(p, b)
  {
    if a != [] {
      assert (a + b)[0] == a[0] && (a + b)[1..] == a[1..] + b;
      FilterConcat(p, a[1..], b);
    } else {
      assert a + b == b;
    }
  }

  /** A sequence whose elements all satisfy `p` is left as it is. */
  lemma {:induction false} FilterKeepsAll<T>(p: T -> bool, s: seq<T>)
    requires forall i :: 0 <= i < |s| ==> p(s[i])
    ensures Filter(p, s) == s
  {
    if s != [] {
      FilterKeepsAll(p, s[1..]);
    }
  }

  /** Filtering twice by the same predicate is filtering once. */
  lemma FilterIdempotent<T>(p: T -> bool, s: seq<T>)
    ensures Filter(p, Filter(p, s)) == Filter(p, s)
  {
    FilterKeepsAll(p, Filter(p, s));
  }

  // ---------------------------------------------------------------------------
  // Deduplication in first-insertion order
  // ---------------------------------------------------------------------------

  predicate NoDuplicates<T(==)>(s: seq<T>) {
    forall i, j :: 0 <= i < j < |s| ==> s[i] != s[j]
  }

  /** The position of the first occurrence of `x` in `s`. */
  function FirstIndex<T(==)>(s: seq<T>, x: T): (k: nat)
    requires x in s
    ensures k < |s| && s[k] == x && x !in s[..k]
  {
    if s[0] == x then 0
    else
      var k := 1 + FirstIndex(s[1..], x);
      assert s[..k] == [s[0]] + s[1..][..k - 1];
      k
  }

  /** `Array.from(set)` for a `Set` filled by adding the elements of `s` in
      order: adding an element already present leaves the set unchanged, so
      each value appears once, where it was first added. */
  function Dedup<T(==)>(s: seq<T>): (r: seq<T>)
    ensures forall i :: 0 <= i < |r| ==> r[i] in s
    ensures forall i :: 0 <= i < |s| ==> s[i] in r
    ensures NoDuplicates(r)
  {
    if s == [] then []
    else
      var d := Dedup(s[..|s| - 1]);
      var x := s[|s| - 1];
      assert s == s[..|s| - 1] + [x];
      if x in d then d else d + [x]
  }

  lemma {:induction false} FirstIndexInPrefix<T>(s: seq<T>, x: T, y: T)
    requires y in s
    ensures FirstIndex(s + [x], y) == FirstIndex(s, y)
  {
    if s[0] != y {
      assert (s + [x])[1..] == s[1..] + [x];
      FirstIndexInPrefix(s[1..], x, y);
    }
  }

  /** Deduplication keeps the first-insertion order: values come out in the
      order in which they first occur in the input. */
  lemma {:induction false} DedupFirstInsertionOrder<T>(s: seq<T>)
    ensures forall i, j :: 0 <= i < j < |Dedup(s)| ==>
      FirstIndex(s, Dedup(s)[i]) < FirstIndex(s, Dedup(s)[j])
  {
    if s != [] {
      var init := s[..|s| - 1];
      var x := s[|s| - 1];
      var d := Dedup(init);
      assert s == init + [x];
      DedupFirstInsertionOrder(init);
      forall y | y in d
        ensures FirstIndex(s, y) == FirstIndex(init, y)
      {
        FirstIndexInPrefix(init, x, y);
      }
      if x !in d {
        assert x !in init;
        assert FirstIndex(s, x) == |init| by {
          assert s[|init|] == x;
          assert x !in s[..|init|] by { assert s[..|init|] == init; }
        }
        forall i, j | 0 <= i < j < |Dedup(s)|
          ensures FirstIndex(s, Dedup(s)[i]) < FirstIndex(s, Dedup(s)[j])
        {
          assert Dedup(s)[i] == d[i];
          if j < |d| {
            assert Dedup(s)[j] == d[j];
          }
        }
      }
    }
  }

  /** A sequence that already has no duplicates is left as it is. */
  lemma {:induction false} DedupOfDistinct<T>(s: seq<T>)
    requires NoDuplicates(s)
    ensures Dedup(s) == s
  {
    if s != [] {
      var init := s[..|s| - 1];
      assert NoDuplicates(init);
      DedupOfDistinct(init);
      assert s[|s| - 1] !in init;
      assert init + [s[|s| - 1]] == s;
    }
  }
}
