/** The tag list of the sidebar: every tag of every quote, lower-cased, once each, sorted. */
module TagList {
  import opened Wrappers
  import opened Strings
  import opened Seqs
  import opened Collation
  import opened Types
  import opened Vault

  /** The lower-case forms of some tags. */
  ghost function LowerTagsOf(tags: seq<string>): set<string>
    decreases |tags|
  {
    if tags == [] then {} else LowerTagsOf(tags[..|tags| - 1]) + {ToLower(tags[|tags| - 1])}
  }

  /** The lower-case forms of all tags of some quotes. */
  ghost function LowerTags(quotes: seq<Quote>): set<string>
    decreases |quotes|
  {
    if quotes == [] then {} else LowerTags(quotes[..|quotes| - 1]) + LowerTagsOf(quotes[|quotes| - 1].tags)
  }

  lemma {:induction false} LowerTagsOfMembership(tags: seq<string>, x: string)
    ensures x in LowerTagsOf(tags) <==> exists j :: 0 <= j < |tags| && ToLower(tags[j]) == x
    decreases |tags|
  {
    if tags != [] {
      var init := tags[..|tags| - 1];
      LowerTagsOfMembership(init, x);
      assert forall j :: 0 <= j < |init| ==> init[j] == tags[j];
    }
  }

  /** A string is listed exactly when it is the lower-case form of some tag of some quote. */
  lemma {:induction false} LowerTagsMembership(quotes: seq<Quote>, x: string)
    ensures x in LowerTags(quotes) <==> exists i, j :: 0 <= i < |quotes| && 0 <= j < |quotes[i].tags| && ToLower(quotes[i].tags[j]) == x
    decreases |quotes|
  {
    if quotes != [] {
      var init := quotes[..|quotes| - 1];
      var last := quotes[|quotes| - 1];
      LowerTagsMembership(init, x);
      LowerTagsOfMembership(last.tags, x);
      assert forall i :: 0 <= i < |init| ==> init[i] == quotes[i];
    }
  }

  /** The `tags` memo: fills a `Set` with the lower-cased tags quote by quote, then sorts it. */
  method DeriveTags(quotes: seq<Quote>) returns (tags: seq<string>)
    ensures StrictlySorted(tags)
    ensures forall t :: t in tags <==> t in LowerTags(quotes)
  {
    var tagSet: seq<string> := [];
    var i := 0;
    while i < |quotes|
      invariant 0 <= i <= |quotes|
      invariant forall t :: t in tagSet <==> t in LowerTags(quotes[..i])
    {
      var quoteTags := quotes[i].tags;
      var j := 0;
      while j < |quoteTags|
        invariant 0 <= j <= |quoteTags|
        invariant forall t :: t in tagSet <==> t in LowerTags(quotes[..i]) + LowerTagsOf(quoteTags[..j])
      {
        var t := ToLower(quoteTags[j]);
        if t !in tagSet {
          tagSet := tagSet + [t];
        }
        assert quoteTags[..j + 1][..j] == quoteTags[..j];
        j := j + 1;
      }
      assert quoteTags[..j] == quoteTags;
      assert quotes[..i + 1][..i] == quotes[..i];
      i := i + 1;
    }
    assert quotes[..i] == quotes;
    tags := SortStrings(tagSet);
  }

  /**
   * The sidebar links use the lower-cased tag while the collection filter
   * compares tags exactly: a quote whose stored tag has upper-case letters
   * has that tag listed, yet following the link does not select the quote
   * unless it also carries the lower-case form.
   */
  lemma TagLinkMissesMixedCase(quotes: seq<Quote>, i: int, j: int)
    requires 0 <= i < |quotes| && 0 <= j < |quotes[i].tags|
    requires ToLower(quotes[i].tags[j]) !in quotes[i].tags
    ensures ToLower(quotes[i].tags[j]) in LowerTags(quotes)
    ensures quotes[i].tags[j] != ToLower(quotes[i].tags[j])
    ensures quotes[i] !in Filter(quotes, None, Some(ToLower(quotes[i].tags[j])), "")
  {
    LowerTagsMembership(quotes, ToLower(quotes[i].tags[j]));
    FilterMembership(quotes, None, Some(ToLower(quotes[i].tags[j])), "");
  }

  /**
   * When no stored tag has upper-case letters (as in the seed data), the
   * link of a listed tag selects exactly the quotes carrying that tag.
   */
  lemma TagLinksAgreeWhenLowerCase(quotes: seq<Quote>, link: string)
    requires forall i, j :: 0 <= i < |quotes| && 0 <= j < |quotes[i].tags| ==> NoUpper(quotes[i].tags[j])
    requires link in LowerTags(quotes)
    ensures link != ""  ==> forall q :: q in Filter(quotes, None, Some(link), "") <==> q in quotes && link in q.tags
    ensures exists i :: 0 <= i < |quotes| && quotes[i] in Filter(quotes, None, Some(link), "")
  {
    LowerTagsMembership(quotes, link);
    var i, j :| 0 <= i < |quotes| && 0 <= j < |quotes[i].tags| && ToLower(quotes[i].tags[j]) == link;
    ToLowerOfLower(quotes[i].tags[j]);
    FilterMembership(quotes, None, Some(link), "");
  }
}
