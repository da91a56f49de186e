/** The author list of the sidebar: every author as written, once each, sorted. */
module AuthorList {
  import opened Seqs
  import opened Collation
  import opened Types

  /** The `authors` memo: fills a `Set` with the authors quote by quote, then sorts it. */
  method DeriveAuthors(quotes: seq<Quote>) returns (authors: seq<string>)
    ensures StrictlySorted(authors)
    ensures forall a :: a in authors <==> exists k :: 0 <= k < |quotes| && quotes[k].author == a
    ensures |authors| <= |quotes|
  {
    var authorSet: seq<string> := [];
    var i := 0;
    while i < |quotes|
      invariant 0 <= i <= |quotes|
      invariant Distinct(authorSet)
      invariant |authorSet| <= i
      invariant forall a :: a in authorSet <==> exists k :: 0 <= k < i && quotes[k].author == a
    {
      if quotes[i].author !in authorSet {
        authorSet := authorSet + [quotes[i].author];
      }
      i := i + 1;
    }
    authors := SortStrings(authorSet);
  }
}
