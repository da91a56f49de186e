/**
 * The order in which the sidebar lists are shown. `Array.prototype.sort`
 * without a comparator orders strings by their characters; here that is
 * lexicographic order on the characters of a string.
 */
module Collation {
  import opened Wrappers
  import opened Seqs

  /** `a` sorts strictly before `b`. */
  predicate Less(a: string, b: string)
    decreases |a|
  {
    if a == [] then b != []
    else if b == [] then false
    else if a[0] != b[0] then a[0] < b[0]
    else Less(a[1..], b[1..])
  }

  lemma {:induction false} LessIrreflexive(a: string)
    ensures !Less(a, a)
    decreases |a|
  {
    if a != [] {
      LessIrreflexive(a[1..]);
    }
  }

  lemma {:induction false} LessTransitive(a: string, b: string, c: string)
    requires Less(a, b) && Less(b, c)
    ensures Less(a, c)
    decreases |a|
  {
    if a != [] && b != [] && c != [] && a[0] == b[0] && b[0] == c[0] {
      LessTransitive(a[1..], b[1..], c[1..]);
    }
  }

  /** Any two different strings are ordered one way or the other. */
  lemma {:induction false} LessTotal(a: string, b: string)
    requires a != b
    ensures Less(a, b) || Less(b, a)
    decreases |a|
  {
    if a != [] && b != [] && a[0] == b[0] {
      assert a == [a[0]] + a[1..] && b == [b[0]] + b[1..];
      LessTotal(a[1..], b[1..]);
    }
  }

  lemma {:induction false} LessAsymmetric(a: string, b: string)
    ensures Less(a, b) ==> !Less(b, a)
    decreases |a|
  {
    if a != [] && b != [] && a[0] == b[0] {
      LessAsymmetric(a[1..], b[1..]);
    }
  }

  /** Every element sorts strictly before every later one. */
  ghost predicate StrictlySorted(s: seq<string>)
  {
    forall i, j :: 0 <= i < j < |s| ==> Less(s[i], s[j])
  }

  /** A strictly sorted list has no duplicates. */
  lemma StrictlySortedIsDistinct(s: seq<string>)
    requires StrictlySorted(s)
    ensures Distinct(s)
  {
    forall i, j | 0 <= i < j < |s|
      ensures s[i] != s[j]
    {
      LessIrreflexive(s[i]);
    }
  }

  /** The head of a strictly sorted list sorts before every other element of it. */
  lemma HeadIsLeast(s: seq<string>, x: string)
    requires StrictlySorted(s) && s != []
    ensures x in s ==> x == s[0] || Less(s[0], x)
    ensures x in s[1..] ==> Less(s[0], x) && x != s[0]
  {
    LessIrreflexive(s[0]);
  }

  /** A strictly sorted list is determined by its elements. */
  lemma {:induction false} StrictlySortedUnique(s: seq<string>, t: seq<string>)
    requires StrictlySorted(s) && StrictlySorted(t)
    requires forall x :: x in s <==> x in t
    ensures s == t
    decreases |s|
  {
    assert s != [] ==> s[0] in t;
    assert t != [] ==> t[0] in s;
    if s != [] && t != [] {
      HeadIsLeast(s, t[0]);
      HeadIsLeast(t, s[0]);
      LessAsymmetric(s[0], t[0]);
      assert s[0] == t[0];
      assert s == [s[0]] + s[1..] && t == [t[0]] + t[1..];
      forall x
        ensures x in s[1..] <==> x in t[1..]
      {
        HeadIsLeast(s, x);
        HeadIsLeast(t, x);
        assert x in s <==> x == s[0] || x in s[1..];
        assert x in t <==> x == t[0] || x in t[1..];
      }
      StrictlySortedUnique(s[1..], t[1..]);
    }
  }

  /** Puts `x` in its place in a strictly sorted list, unless it is already there. */
  function Insert(s: seq<string>, x: string): (r: seq<string>)
    requires StrictlySorted(s)
    ensures StrictlySorted(r)
    ensures forall y :: y in r <==> y in s || y == x
    ensures |r| == if x in s then |s| else |s| + 1
    decreases |s|
  {
    if s == [] then [x]
    else if x == s[0] then s
    else if Less(x, s[0]) then
      BelowHeadIsBelowAll(s, x);
      [x] + s
    else
      LessTotal(x, s[0]);
      var rest := Insert(s[1..], x);
      assert forall y :: y in rest ==> Less(s[0], y);
      assert x in s <==> x in s[1..];
      [s[0]] + rest
  }

  /** What sorts before the head of a strictly sorted list sorts before all of it. */
  lemma BelowHeadIsBelowAll(s: seq<string>, x: string)
    requires StrictlySorted(s) && s != [] && Less(x, s[0])
    ensures forall k :: 0 <= k < |s| ==> Less(x, s[k])
    ensures x !in s
  {
    forall k | 0 < k < |s|
      ensures Less(x, s[k])
    {
      LessTransitive(x, s[0], s[k]);
    }
    LessIrreflexive(x);
  }

  /** `Array.from(items).sort()` on distinct strings: the strictly sorted list of the same strings. */
  function SortStrings(items: seq<string>): (r: seq<string>)
    ensures StrictlySorted(r)
    ensures forall y :: y in r <==> y in items
    ensures Distinct(items) ==> |r| == |items|
    decreases |items|
  {
    if items == [] then []
    else
      var init := items[..|items| - 1];
      var last := items[|items| - 1];
      assert items == init + [last];
      Insert(SortStrings(init), last)
  }

  /** A sidebar entry is highlighted when the URL parameter names it. */
  predicate IsActive(param: Option<string>, item: string)
  {
    param == Some(item)
  }

  /** In a strictly sorted list at most one entry is highlighted, and one is exactly when the parameter is in the list. */
  lemma ActiveEntry(list: seq<string>, param: Option<string>)
    requires StrictlySorted(list)
    ensures forall i, j :: 0 <= i < |list| && 0 <= j < |list| && IsActive(param, list[i]) && IsActive(param, list[j]) ==> i == j
    ensures (exists i :: 0 <= i < |list| && IsActive(param, list[i])) <==> param.Some? && param.value in list
  {
    StrictlySortedIsDistinct(list);
  }
}
