/**
 * The quote collection held by the vault page: the filtered view and the
 * three handlers that replace the list (add, delete, add a tag).
 */
module Vault {
  import opened Wrappers
  import opened Strings
  import opened Seqs
  import opened Types
  import opened SeedData

  // ---------------------------------------------------------------------
  // The filtered view

  /** `!authorFilter || quote.author === authorFilter`: exact, case-sensitive. */
  predicate MatchesAuthor(q: Quote, authorFilter: Option<string>)
  {
    !Truthy(authorFilter) || q.author == authorFilter.value
  }

  /** `!tagFilter || quote.tags.includes(tagFilter)`: exact, case-sensitive membership. */
  predicate MatchesTag(q: Quote, tagFilter: Option<string>)
  {
    !Truthy(tagFilter) || tagFilter.value in q.tags
  }

  /** Case-insensitive substring search over the text, the author and every tag. */
  predicate MatchesSearch(q: Quote, searchQuery: string)
  {
    var needle := ToLower(searchQuery);
    || searchQuery == ""
    || Contains(ToLower(q.text), needle)
    || Contains(ToLower(q.author), needle)
    || exists k :: 0 <= k < |q.tags| && Contains(ToLower(q.tags[k]), needle)
  }

  predicate Matches(q: Quote, authorFilter: Option<string>, tagFilter: Option<string>, searchQuery: string)
  {
    MatchesAuthor(q, authorFilter) && MatchesTag(q, tagFilter) && MatchesSearch(q, searchQuery)
  }

  /** `filteredQuotes`: the quotes passing all three tests. */
  function Filter(quotes: seq<Quote>, authorFilter: Option<string>, tagFilter: Option<string>, searchQuery: string): (r: seq<Quote>)
    ensures |r| <= |quotes|
    decreases |quotes|
  {
    if quotes == [] then []
    else
      var rest := Filter(quotes[1..], authorFilter, tagFilter, searchQuery);
      if Matches(quotes[0], authorFilter, tagFilter, searchQuery) then [quotes[0]] + rest else rest
  }

  /** A quote is shown exactly when it is in the collection and passes the three tests. */
  lemma {:induction false} FilterMembership(quotes: seq<Quote>, authorFilter: Option<string>, tagFilter: Option<string>, searchQuery: string)
    ensures forall q :: q in Filter(quotes, authorFilter, tagFilter, searchQuery) <==> q in quotes && Matches(q, authorFilter, tagFilter, searchQuery)
    decreases |quotes|
  {
    if quotes != [] {
      FilterMembership(quotes[1..], authorFilter, tagFilter, searchQuery);
      assert forall q :: q in quotes <==> q == quotes[0] || q in quotes[1..];
    }
  }

  /** Filtering keeps the surviving quotes in their original order. */
  lemma {:induction false} FilterIsSubsequence(quotes: seq<Quote>, authorFilter: Option<string>, tagFilter: Option<string>, searchQuery: string)
    ensures IsSubsequence(Filter(quotes, authorFilter, tagFilter, searchQuery), quotes)
    decreases |quotes|
  {
    if quotes != [] {
      FilterIsSubsequence(quotes[1..], authorFilter, tagFilter, searchQuery);
    }
  }

  /** With a null or empty author filter, a null or empty tag filter and an empty query every quote is shown. */
  lemma {:induction false} FilterWithoutCriteria(quotes: seq<Quote>, authorFilter: Option<string>, tagFilter: Option<string>)
    requires !Truthy(authorFilter) && !Truthy(tagFilter)
    ensures Filter(quotes, authorFilter, tagFilter, "") == quotes
    decreases |quotes|
  {
    if quotes != [] {
      FilterWithoutCriteria(quotes[1..], authorFilter, tagFilter);
      assert quotes == [quotes[0]] + quotes[1..];
    }
  }

  /** The three tests are independent: filtering by all of them is filtering by author, then by tag, then by search. */
  lemma {:induction false} FilterConjunction(quotes: seq<Quote>, authorFilter: Option<string>, tagFilter: Option<string>, searchQuery: string)
    ensures Filter(quotes, authorFilter, tagFilter, searchQuery)
         == Filter(Filter(Filter(quotes, authorFilter, None, ""), None, tagFilter, ""), None, None, searchQuery)
    decreases |quotes|
  {
    if quotes != [] {
      FilterConjunction(quotes[1..], authorFilter, tagFilter, searchQuery);
    }
  }

  /** The search ignores the case of the query. */
  lemma SearchIgnoresQueryCase(q: Quote, searchQuery: string)
    ensures MatchesSearch(q, searchQuery) <==> MatchesSearch(q, ToLower(searchQuery))
  {
    ToLowerIdempotent(searchQuery);
  }

  /** The search ignores the case of the quote: quotes equal up to case match the same queries. */
  lemma SearchIgnoresQuoteCase(q: Quote, q': Quote, searchQuery: string)
    requires ToLower(q.text) == ToLower(q'.text) && ToLower(q.author) == ToLower(q'.author)
    requires |q.tags| == |q'.tags| && forall k :: 0 <= k < |q.tags| ==> ToLower(q.tags[k]) == ToLower(q'.tags[k])
    ensures MatchesSearch(q, searchQuery) <==> MatchesSearch(q', searchQuery)
  {
  }

  // ---------------------------------------------------------------------
  // Identity of quotes

  /** No two quotes share an id. */
  ghost predicate DistinctIds(quotes: seq<Quote>)
  {
    forall i, j :: 0 <= i < j < |quotes| ==> quotes[i].id != quotes[j].id
  }

  /** `Math.max(0, ...quotes.map(q => q.id))` */
  function MaxId(quotes: seq<Quote>): (m: int)
    ensures m >= 0
    ensures forall k :: 0 <= k < |quotes| ==> quotes[k].id <= m
    ensures m == 0 || exists k :: 0 <= k < |quotes| && quotes[k].id == m
    decreases |quotes|
  {
    if quotes == [] then 0
    else
      var rest := MaxId(quotes[1..]);
      assert forall k :: 1 <= k < |quotes| ==> quotes[k] == quotes[1..][k - 1];
      if quotes[0].id > rest then quotes[0].id else rest
  }

  /** The id `handleAddQuote` gives a new quote. */
  function NextId(quotes: seq<Quote>): int
  {
    MaxId(quotes) + 1
  }

  /** An empty collection gives id 1; the seed collection gives id 10. */
  lemma NextIdExamples()
    ensures NextId([]) == 1
    ensures NextId(QuotesData) == 10
  {
    SeedIds();
    var m := MaxId(QuotesData);
    assert QuotesData[8].id == 9;
  }

  /** `[newQuote, ...prev]`: the new quote, with a fresh id and no exploration, in front of the old list. */
  function Added(quotes: seq<Quote>, text: string, author: string, tags: seq<string>): (r: seq<Quote>)
    ensures |r| == |quotes| + 1 && r[1..] == quotes
    ensures r[0].id == NextId(quotes)
    ensures forall k :: 0 <= k < |quotes| ==> quotes[k].id < r[0].id
    ensures r[0].text == text && r[0].author == author && r[0].tags == tags
    ensures r[0].meaning == None && r[0].origin == None && r[0].trivia == None
  {
    [Quote(NextId(quotes), text, author, tags, None, None, None)] + quotes
  }

  /** Adding keeps ids distinct. */
  lemma AddedKeepsDistinctIds(quotes: seq<Quote>, text: string, author: string, tags: seq<string>)
    requires DistinctIds(quotes)
    ensures DistinctIds(Added(quotes, text, author, tags))
  {
    var r := Added(quotes, text, author, tags);
    forall i, j | 0 <= i < j < |r|
      ensures r[i].id != r[j].id
    {
      assert r[j] == quotes[j - 1];
      if i > 0 {
        assert r[i] == quotes[i - 1];
      }
    }
  }

  /** `prev.filter((quote) => quote.id !== id)` */
  function Without(quotes: seq<Quote>, id: int): (r: seq<Quote>)
    ensures |r| <= |quotes|
    ensures forall q :: q in r <==> q in quotes && q.id != id
    decreases |quotes|
  {
    if quotes == [] then []
    else
      var rest := Without(quotes[1..], id);
      assert forall q :: q in quotes <==> q == quotes[0] || q in quotes[1..];
      if quotes[0].id != id then [quotes[0]] + rest else rest
  }

  /** Deleting keeps the other quotes in their order. */
  lemma {:induction false} WithoutIsSubsequence(quotes: seq<Quote>, id: int)
    ensures IsSubsequence(Without(quotes, id), quotes)
    decreases |quotes|
  {
    if quotes != [] {
      WithoutIsSubsequence(quotes[1..], id);
    }
  }

  /** Deleting an id no quote has changes nothing. */
  lemma {:induction false} WithoutAbsent(quotes: seq<Quote>, id: int)
    requires forall k :: 0 <= k < |quotes| ==> quotes[k].id != id
    ensures Without(quotes, id) == quotes
    decreases |quotes|
  {
    if quotes != [] {
      assert forall k :: 0 <= k < |quotes| - 1 ==> quotes[1..][k] == quotes[k + 1];
      WithoutAbsent(quotes[1..], id);
      assert Without(quotes, id) == [quotes[0]] + Without(quotes[1..], id);
      assert quotes == [quotes[0]] + quotes[1..];
    }
  }

  /** Deleting keeps ids distinct. */
  lemma {:induction false} WithoutKeepsDistinctIds(quotes: seq<Quote>, id: int)
    requires DistinctIds(quotes)
    ensures DistinctIds(Without(quotes, id))
    decreases |quotes|
  {
    if quotes != [] {
      WithoutKeepsDistinctIds(quotes[1..], id);
      var rest := Without(quotes[1..], id);
      if quotes[0].id != id {
        forall k | 0 <= k < |rest|
          ensures quotes[0].id != rest[k].id
        {
          assert rest[k] in quotes[1..];
        }
      }
    }
  }

  /**
   * Deleting the quote just added restores the list, so the next add
   * hands out the same id again: ids are reused.
   */
  lemma DeleteUndoesAdd(quotes: seq<Quote>, text: string, author: string, tags: seq<string>)
    ensures Without(Added(quotes, text, author, tags), NextId(quotes)) == quotes
    ensures NextId(Without(Added(quotes, text, author, tags), NextId(quotes))) == NextId(quotes)
  {
    var r := Added(quotes, text, author, tags);
    WithoutAbsent(quotes, NextId(quotes));
    assert r == [r[0]] + quotes;
  }

  // ---------------------------------------------------------------------
  // Tags

  /** One quote after `handleAddTagToQuote`: the tag is appended if the ids match and it is not there yet. */
  function TagAdded(q: Quote, quoteId: int, tag: string): (r: Quote)
    ensures r.(tags := q.tags) == q
    ensures q.id == quoteId ==> tag in r.tags
    ensures q.id != quoteId || tag in q.tags ==> r == q
    ensures |q.tags| <= |r.tags| <= |q.tags| + 1 && r.tags[..|q.tags|] == q.tags
  {
    if q.id == quoteId && tag !in q.tags then q.(tags := q.tags + [tag]) else q
  }

  /** `prev.map(...)`: every quote goes through `TagAdded`, in place. */
  function WithTagAdded(quotes: seq<Quote>, quoteId: int, tag: string): (r: seq<Quote>)
    ensures |r| == |quotes|
    ensures forall k :: 0 <= k < |quotes| ==> r[k] == TagAdded(quotes[k], quoteId, tag)
    decreases |quotes|
  {
    if quotes == [] then [] else [TagAdded(quotes[0], quoteId, tag)] + WithTagAdded(quotes[1..], quoteId, tag)
  }

  /** Adding the same tag twice is adding it once. */
  lemma TagAddedIdempotent(quotes: seq<Quote>, quoteId: int, tag: string)
    ensures WithTagAdded(WithTagAdded(quotes, quoteId, tag), quoteId, tag) == WithTagAdded(quotes, quoteId, tag)
  {
  }

  /** Adding a tag keeps every id in its place, so ids stay distinct. */
  lemma WithTagAddedKeepsIds(quotes: seq<Quote>, quoteId: int, tag: string)
    requires DistinctIds(quotes)
    ensures forall k :: 0 <= k < |quotes| ==> WithTagAdded(quotes, quoteId, tag)[k].id == quotes[k].id
    ensures DistinctIds(WithTagAdded(quotes, quoteId, tag))
  {
  }

  // ---------------------------------------------------------------------
  // The page state

  /** The `quotes` state of the vault page, and the notifications it shows. */
  class QuoteVault {
    var quotes: seq<Quote>
    var toasts: seq<Toast>

    ghost predicate Valid()
      reads this
    {
      DistinctIds(quotes)
    }

    /** `useState<Quote[]>(quotesData)` */
    constructor ()
      ensures Valid()
      ensures quotes == QuotesData && toasts == []
    {
      quotes := QuotesData;
      toasts := [];
      SeedIds();
    }

    /** `handleAddQuote`: prepends a quote with id one above the largest. */
    method AddQuote(text: string, author: string, tags: seq<string>)
      requires Valid()
      modifies this
      ensures Valid()
      ensures quotes == Added(old(quotes), text, author, tags)
      ensures toasts == old(toasts)
    {
      AddedKeepsDistinctIds(quotes, text, author, tags);
      quotes := Added(quotes, text, author, tags);
    }

    /** `handleDeleteQuote`: removes the quotes with that id and always confirms with a notification. */
    method DeleteQuote(id: int)
      requires Valid()
      modifies this
      ensures Valid()
      ensures quotes == Without(old(quotes), id)
      ensures toasts == old(toasts) + [Toast(false, "Quote Deleted", Some("The quote has been removed from your vault."))]
    {
      WithoutKeepsDistinctIds(quotes, id);
      quotes := Without(quotes, id);
      toasts := toasts + [Toast(false, "Quote Deleted", Some("The quote has been removed from your vault."))];
    }

    /** `handleAddTagToQuote`: appends the tag to the quote with that id unless it already carries it. */
    method AddTagToQuote(quoteId: int, tag: string)
      requires Valid()
      modifies this
      ensures Valid()
      ensures quotes == WithTagAdded(old(quotes), quoteId, tag)
      ensures toasts == old(toasts)
    {
      WithTagAddedKeepsIds(quotes, quoteId, tag);
      quotes := WithTagAdded(quotes, quoteId, tag);
    }
  }
}
