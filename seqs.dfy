/** Facts about sequences shared by the collection, the sidebar lists and the quiz. */
module Seqs {

  /** No element occurs twice. */
  ghost predicate Distinct<T>(s: seq<T>)
  {
    forall i, j :: 0 <= i < j < |s| ==> s[i] != s[j]
  }

  /** `a` is `b` with some elements left out, the rest in their original order. */
  ghost predicate IsSubsequence<T>(a: seq<T>, b: seq<T>)
    decreases |b|
  {
    a == [] || (b != [] && ((a[0] == b[0] && IsSubsequence(a[1..], b[1..])) || IsSubsequence(a, b[1..])))
  }

  lemma {:induction false} SubsequenceOfSelf<T>(s: seq<T>)
    ensures IsSubsequence(s, s)
    decreases |s|
  {
    if s != [] {
      SubsequenceOfSelf(s[1..]);
    }
  }

  /** In a sequence without duplicates every value is counted at most once. */
  lemma {:induction false} DistinctCountsAtMostOne<T>(s: seq<T>, x: T)
    requires Distinct(s)
    ensures multiset(s)[x] <= 1
    decreases |s|
  {
    if s != [] {
      assert s == [s[0]] + s[1..];
      DistinctCountsAtMostOne(s[1..], x);
      if x == s[0] {
        assert x !in s[1..];
      }
    }
  }

  /** Two positions holding the same value make it counted twice. */
  lemma RepeatCountsTwice<T>(t: seq<T>, i: int, j: int)
    requires 0 <= i < j < |t| && t[i] == t[j]
    ensures multiset(t)[t[i]] >= 2
  {
    assert t == t[..j] + t[j..];
    assert t[i] in t[..j];
    assert t[j] in t[j..];
  }

  /** A reordering of a sequence without duplicates has no duplicates. */
  lemma {:induction false} DistinctUnderPermutation<T>(s: seq<T>, t: seq<T>)
    requires multiset(s) == multiset(t)
    requires Distinct(s)
    ensures Distinct(t)
  {
    forall i, j | 0 <= i < j < |t|
      ensures t[i] != t[j]
    {
      DistinctCountsAtMostOne(s, t[i]);
      if t[i] == t[j] {
        RepeatCountsTwice(t, i, j);
      }
    }
  }

  /** `[...new Set(xs)]`: each value once, at the position of its first occurrence. */
  function Dedupe<T(==)>(xs: seq<T>): (r: seq<T>)
    ensures Distinct(r)
    ensures forall k :: 0 <= k < |r| ==> r[k] in xs
    ensures forall k :: 0 <= k < |xs| ==> xs[k] in r
    ensures |r| <= |xs|
    decreases |xs|
  {
    if xs == [] then []
    else
      var init := Dedupe(xs[..|xs| - 1]);
      var last := xs[|xs| - 1];
      assert xs == xs[..|xs| - 1] + [last];
      if last in init then init else init + [last]
  }

  /** Deduplicating one more value that is new appends it. */
  lemma DedupeSnocNew<T>(xs: seq<T>, x: T)
    requires x !in xs
    ensures Dedupe(xs + [x]) == Dedupe(xs) + [x]
  {
    assert (xs + [x])[..|xs|] == xs;
  }

  /** Deduplicating one more value that was seen before changes nothing. */
  lemma DedupeSnocSeen<T>(xs: seq<T>, x: T)
    requires x in xs
    ensures Dedupe(xs + [x]) == Dedupe(xs)
  {
    assert (xs + [x])[..|xs|] == xs;
  }

  /** Concatenation is associative; stated on its own, it keeps proofs about long sequences small. */
  lemma Associative<T>(x: seq<T>, y: seq<T>, z: seq<T>)
    ensures x + (y + z) == (x + y) + z
  {
  }

  /** A sequence is its first `i` elements followed by the rest. */
  lemma TakeDrop<T>(s: seq<T>, i: int)
    requires 0 <= i <= |s|
    ensures s == s[..i] + s[i..]
  {
  }

  /** Appending three values at once is appending them one at a time. */
  lemma AppendThree<T>(s: seq<T>, x: T, y: T, z: T)
    ensures s + [x, y, z] == s + [x] + [y] + [z]
  {
  }

  /** Deduplication keeps the order of first occurrences. */
  lemma {:induction false} DedupeIsSubsequence<T>(xs: seq<T>)
    ensures IsSubsequence(Dedupe(xs), xs)
    decreases |xs|
  {
    if xs != [] {
      var init := xs[..|xs| - 1];
      var last := xs[|xs| - 1];
      DedupeIsSubsequence(init);
      SubsequenceAppend(Dedupe(init), init, last);
      assert xs == init + [last];
    }
  }

  /** The position of the first occurrence of `x` in `xs`. */
  function FirstIndex<T(==)>(xs: seq<T>, x: T): (i: nat)
    requires x in xs
    ensures i < |xs| && xs[i] == x && x !in xs[..i]
    decreases |xs|
  {
    if xs[0] == x then 0 else 1 + FirstIndex(xs[1..], x)
  }

  /** A position holding `x` with no `x` before it is the first occurrence. */
  lemma FirstIndexUnique<T>(xs: seq<T>, x: T, i: int)
    requires 0 <= i < |xs| && xs[i] == x && x !in xs[..i]
    ensures FirstIndex(xs, x) == i
  {
  }

  /** Appending never moves the first occurrence of a value already present. */
  lemma FirstIndexAppend<T>(xs: seq<T>, y: T, x: T)
    requires x in xs
    ensures FirstIndex(xs + [y], x) == FirstIndex(xs, x)
  {
    var j := FirstIndex(xs, x);
    assert (xs + [y])[..j] == xs[..j];
    FirstIndexUnique(xs + [y], x, j);
  }

  /**
   * Deduplication keeps the order of first occurrences: of two values in the
   * result, the earlier one first occurs earlier in `xs`.
   */
  lemma {:induction false} DedupeFirstOccurrenceOrder<T>(xs: seq<T>)
    ensures forall i, j :: 0 <= i < j < |Dedupe(xs)| ==> FirstIndex(xs, Dedupe(xs)[i]) < FirstIndex(xs, Dedupe(xs)[j])
    decreases |xs|
  {
    if xs != [] {
      var init := xs[..|xs| - 1];
      var last := xs[|xs| - 1];
      var d := Dedupe(init);
      var r := Dedupe(xs);
      DedupeFirstOccurrenceOrder(init);
      assert xs == init + [last];
      forall k | 0 <= k < |d|
        ensures FirstIndex(xs, d[k]) == FirstIndex(init, d[k])
      {
        FirstIndexAppend(init, last, d[k]);
      }
      if last !in d {
        assert last !in init;
        FirstIndexUnique(xs, last, |init|);
        forall i, j | 0 <= i < j < |r|
          ensures FirstIndex(xs, r[i]) < FirstIndex(xs, r[j])
        {
          if j < |d| {
            assert r[i] == d[i] && r[j] == d[j];
          } else {
            assert r[i] == d[i] && r[j] == last;
          }
        }
      }
    }
  }

  /** Appending to both ends, or only to the longer one, keeps a subsequence. */
  lemma {:induction false} SubsequenceAppend<T>(a: seq<T>, b: seq<T>, x: T)
    requires IsSubsequence(a, b)
    ensures IsSubsequence(a, b + [x])
    ensures IsSubsequence(a + [x], b + [x])
    decreases |b|
  {
    if b == [] {
      assert a == [];
      assert [x] == [x] + [];
      assert ([x] + [])[1..] == [];
    } else {
      assert (b + [x])[1..] == b[1..] + [x];
      if a != [] && a[0] == b[0] && IsSubsequence(a[1..], b[1..]) {
        SubsequenceAppend(a[1..], b[1..], x);
        assert (a + [x])[1..] == a[1..] + [x];
      }
      if IsSubsequence(a, b[1..]) {
        SubsequenceAppend(a, b[1..], x);
      }
      if a == [] {
        SubsequenceOfSelf([x]);
        SubsequenceLeftOut([x], b, x);
      }
    }
  }

  /** A subsequence of a suffix of `b` is a subsequence of `b`. */
  lemma {:induction false} SubsequenceLeftOut<T>(a: seq<T>, b: seq<T>, x: T)
    requires IsSubsequence(a, [x])
    ensures IsSubsequence(a, b + [x])
    decreases |b|
  {
    if b != [] {
      SubsequenceLeftOut(a, b[1..], x);
      assert (b + [x])[1..] == b[1..] + [x];
    } else {
      assert b + [x] == [x];
    }
  }
}
