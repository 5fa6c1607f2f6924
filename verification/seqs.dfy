/** Generic sequence helpers: subsequences, filtering, deduplication and
    prefixes, as used by the crawler's classifier, the tag generator and the
    per-run caps. */
module Seqs {
  import opened Wrappers

  /** `a` can be obtained from `b` by deleting elements (order is kept). */
  predicate IsSubseq<T(==)>(a: seq<T>, b: seq<T>)
    decreases |b|
  {
    |a| == 0 || (|b| > 0 && ((a[0] == b[0] && IsSubseq(a[1..], b[1..])) || IsSubseq(a, b[1..])))
  }

  /** No element occurs twice. */
  predicate Unique<T(==)>(s: seq<T>) {
    forall i, j :: 0 <= i < j < |s| ==> s[i] != s[j]
  }

  lemma {:induction false} SubseqLength<T>(a: seq<T>, b: seq<T>)
    requires IsSubseq(a, b)
    ensures |a| <= |b|
    decreases |b|
  {
    if |a| > 0 {
      if a[0] == b[0] && IsSubseq(a[1..], b[1..]) {
        SubseqLength(a[1..], b[1..]);
      } else {
        SubseqLength(a, b[1..]);
      }
    }
  }

  lemma {:induction false} SubseqMember<T>(a: seq<T>, b: seq<T>, x: T)
    requires IsSubseq(a, b) && x in a
    ensures x in b
    decreases |b|
  {
    if a[0] == b[0] && IsSubseq(a[1..], b[1..]) {
      if x != a[0] {
        SubseqMember(a[1..], b[1..], x);
      }
    } else {
      SubseqMember(a, b[1..], x);
    }
  }

  lemma {:induction false} SubseqTrans<T>(a: seq<T>, b: seq<T>, c: seq<T>)
    requires IsSubseq(a, b) && IsSubseq(b, c)
    ensures IsSubseq(a, c)
    decreases |c|
  {
    if |a| > 0 {
      SubseqLength(a, b);
      if b[0] == c[0] && IsSubseq(b[1..], c[1..]) {
        if a[0] == b[0] && IsSubseq(a[1..], b[1..]) {
          SubseqTrans(a[1..], b[1..], c[1..]);
        } else {
          SubseqTrans(a, b[1..], c[1..]);
        }
      } else {
        SubseqTrans(a, b, c[1..]);
      }
    }
  }

  lemma {:induction false} PrefixIsSubseq<T>(s: seq<T>, n: nat)
    requires n <= |s|
    ensures IsSubseq(s[..n], s)
    decreases |s|
  {
    if n > 0 {
      PrefixIsSubseq(s[1..], n - 1);
      assert s[..n][1..] == s[1..][..n - 1];
    }
  }

  /** A sequence is the concatenation of its three slices at `i` and `j`. */
  lemma SliceThree<T>(s: seq<T>, i: nat, j: nat)
    requires i <= j <= |s|
    ensures s == s[..i] + (s[i..j] + s[j..])
  {
    assert s[i..] == s[i..j] + s[j..];
    assert s == s[..i] + s[i..];
  }

  lemma AppendAssoc<T>(a: seq<T>, b: seq<T>, c: seq<T>)
    ensures a + (b + c) == (a + b) + c
  {
  }

  /** The elements of `s` that are not in `seen`, each kept at its first
      occurrence (JavaScript's `Array.from(new Set(s))` when `seen` is empty). */
  function DistinctFrom<T(==,!new)>(s: seq<T>, seen: set<T>): (r: seq<T>)
    ensures Unique(r)
    ensures IsSubseq(r, s)
    ensures forall x :: x in r <==> x in s && x !in seen
    decreases |s|
  {
    if |s| == 0 then []
    else if s[0] in seen then DistinctFrom(s[1..], seen)
    else [s[0]] + DistinctFrom(s[1..], seen + {s[0]})
  }

  function Distinct<T(==,!new)>(s: seq<T>): (r: seq<T>)
    ensures Unique(r)
    ensures IsSubseq(r, s)
    ensures forall x :: x in r <==> x in s
  {
    DistinctFrom(s, {})
  }

  /** The position of the first occurrence of `x` in `s`. */
  function FirstIndex<T(==)>(s: seq<T>, x: T): (i: nat)
    requires x in s
    ensures i < |s| && s[i] == x
    ensures forall j :: 0 <= j < i ==> s[j] != x
    decreases |s|
  {
    if s[0] == x then 0 else 1 + FirstIndex(s[1..], x)
  }

  /** Past a different head, the first occurrence is one further on. */
  lemma FirstIndexTail<T>(s: seq<T>, x: T)
    requires x in s && s[0] != x
    ensures x in s[1..] && FirstIndex(s, x) == 1 + FirstIndex(s[1..], x)
  {
    assert s == [s[0]] + s[1..];
  }

  /** Prepending an element different from both keeps the order of their
      first occurrences. */
  lemma FirstIndexConsOrder<T>(s: seq<T>, x: T, y: T)
    requires |s| > 0 && x in s[1..] && y in s[1..] && s[0] != x && s[0] != y
    requires FirstIndex(s[1..], x) < FirstIndex(s[1..], y)
    ensures x in s && y in s && FirstIndex(s, x) < FirstIndex(s, y)
  {
    assert x in s && y in s by {
      assert s == [s[0]] + s[1..];
    }
    FirstIndexTail(s, x);
    FirstIndexTail(s, y);
  }

  /** In a sequence without repeats, an element's first position is its
      position. */
  lemma FirstIndexUnique<T>(s: seq<T>, i: nat)
    requires Unique(s) && i < |s|
    ensures FirstIndex(s, s[i]) == i
  {
    var k := FirstIndex(s, s[i]);
    assert !(k < i) && !(i < k);
  }

  /** Two elements kept by deduplication first occur in `s` in the order
      they are listed. */
  lemma {:induction false} DistinctFromFirstOrder<T(!new)>(s: seq<T>, seen: set<T>, x: T, y: T)
    requires x in DistinctFrom(s, seen) && y in DistinctFrom(s, seen)
    requires FirstIndex(DistinctFrom(s, seen), x) < FirstIndex(DistinctFrom(s, seen), y)
    ensures x in s && y in s && FirstIndex(s, x) < FirstIndex(s, y)
    decreases |s|
  {
    var r := DistinctFrom(s, seen);
    if s[0] in seen {
      assert r == DistinctFrom(s[1..], seen);
      DistinctFromFirstOrder(s[1..], seen, x, y);
      FirstIndexConsOrder(s, x, y);
    } else {
      var r' := DistinctFrom(s[1..], seen + {s[0]});
      assert r == [s[0]] + r';
      if x == s[0] {
        assert y != s[0];
        FirstIndexTail(s, y);
      } else {
        assert y != s[0];
        FirstIndexTail(r, x);
        FirstIndexTail(r, y);
        DistinctFromFirstOrder(s[1..], seen + {s[0]}, x, y);
        FirstIndexConsOrder(s, x, y);
      }
    }
  }

  /** Deduplication lists the elements in the order of their first
      occurrences. */
  lemma DistinctFromOrder<T(!new)>(s: seq<T>, seen: set<T>, i: nat, j: nat)
    requires i < j < |DistinctFrom(s, seen)|
    ensures DistinctFrom(s, seen)[i] in s && DistinctFrom(s, seen)[j] in s
    ensures FirstIndex(s, DistinctFrom(s, seen)[i]) < FirstIndex(s, DistinctFrom(s, seen)[j])
  {
    var r := DistinctFrom(s, seen);
    FirstIndexUnique(r, i);
    FirstIndexUnique(r, j);
    DistinctFromFirstOrder(s, seen, r[i], r[j]);
  }

  /** The first `n` elements, or all of them when there are fewer
      (JavaScript's `slice(0, n)` and `substring(0, n)`). */
  function Take<T>(s: seq<T>, n: nat): (r: seq<T>)
    ensures |r| == if n < |s| then n else |s|
    ensures r == s[..|r|]
  {
    if n < |s| then s[..n] else s
  }

  /** The values carried by the `Some` entries of `s`, in order. */
  function Somes<T(==,!new)>(s: seq<Option<T>>): (r: seq<T>)
    ensures |r| <= |s|
    ensures forall x :: x in r <==> Some(x) in s
    decreases |s|
  {
    if |s| == 0 then []
    else
      assert s == [s[0]] + s[1..];
      (if s[0].Some? then [s[0].value] else []) + Somes(s[1..])
  }
}
