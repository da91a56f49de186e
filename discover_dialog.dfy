/** The "Discover Quote" dialog: a gist goes to the discovery action, the found text is completed with an author and tags and added to the vault. */
module DiscoverDialog {
  import opened Wrappers
  import opened Strings
  import opened Seqs
  import opened Types
  import opened Actions

  /** A tag as the dialog hands it on: non-empty, no whitespace at either end, no comma. */
  predicate WellFormedTag(t: string)
  {
    t != "" && IsTrimmed(t) && ',' !in t
  }

  /** `.map(t => t.trim()).filter(Boolean)` */
  function KeepTrimmed(pieces: seq<string>): (r: seq<string>)
    ensures |r| <= |pieces|
    ensures forall k :: 0 <= k < |r| ==> r[k] != "" && IsTrimmed(r[k])
    decreases |pieces|
  {
    if pieces == [] then []
    else
      var t := Trim(pieces[0]);
      var rest := KeepTrimmed(pieces[1..]);
      TrimIsTrimmed(pieces[0]);
      if t == "" then rest else [t] + rest
  }

  /** One piece is kept as its trimmed form, or dropped when that is empty. */
  lemma KeepTrimmedOne(p: string)
    ensures KeepTrimmed([p]) == if Trim(p) == "" then [] else [Trim(p)]
  {
    assert [p][1..] == [];
  }

  /** The first piece is handled on its own, before the rest. */
  lemma KeepTrimmedCons(p: string, rest: seq<string>)
    ensures KeepTrimmed([p] + rest) == (if Trim(p) == "" then [] else [Trim(p)]) + KeepTrimmed(rest)
  {
    assert ([p] + rest)[1..] == rest;
  }

  /** Pieces are kept one by one, in input order: the result for a concatenation is the concatenation of the results. */
  lemma {:induction false} KeepTrimmedAppend(a: seq<string>, b: seq<string>)
    ensures KeepTrimmed(a + b) == KeepTrimmed(a) + KeepTrimmed(b)
    decreases |a|
  {
    if a == [] {
      assert a + b == b;
    } else {
      var rest := a[1..];
      var head := if Trim(a[0]) == "" then [] else [Trim(a[0])];
      assert a + b == [a[0]] + (rest + b);
      KeepTrimmedAppend(rest, b);
      KeepTrimmedCons(a[0], rest + b);
      KeepTrimmedCons(a[0], rest);
      Associative(head, KeepTrimmed(rest), KeepTrimmed(b));
    }
  }

  /** Trimming only cuts a string down: it adds no character. */
  lemma TrimAddsNothing(s: string, c: char)
    requires c !in s
    ensures c !in Trim(s)
  {
    var t := TrimStart(s);
    forall k | 0 <= k < |t|
      ensures t[k] != c
    {
      assert t[k] == s[|s| - |t| + k];
    }
    var r := TrimEnd(t);
    forall k | 0 <= k < |r|
      ensures r[k] != c
    {
      assert r[k] == t[k];
    }
  }

  lemma {:induction false} KeepTrimmedAvoids(pieces: seq<string>, c: char)
    requires forall k :: 0 <= k < |pieces| ==> c !in pieces[k]
    ensures forall k :: 0 <= k < |KeepTrimmed(pieces)| ==> c !in KeepTrimmed(pieces)[k]
    decreases |pieces|
  {
    if pieces != [] {
      TrimAddsNothing(pieces[0], c);
      KeepTrimmedAvoids(pieces[1..], c);
    }
  }

  /** Every piece trims to itself and is kept. */
  lemma {:induction false} KeepTrimmedOfTrimmed(pieces: seq<string>)
    requires forall k :: 0 <= k < |pieces| ==> pieces[k] != "" && Trim(pieces[k]) == pieces[k]
    ensures KeepTrimmed(pieces) == pieces
    decreases |pieces|
  {
    if pieces != [] {
      KeepTrimmedOfTrimmed(pieces[1..]);
      assert pieces == [pieces[0]] + pieces[1..];
    }
  }

  /** `tags.split(',').map(t => t.trim()).filter(Boolean)`: the tags typed in the dialog. */
  function ParseTags(s: string): seq<string>
  {
    KeepTrimmed(Split(s, ','))
  }

  /** Every parsed tag is non-empty, has no whitespace at either end and no comma. */
  lemma ParseTagsWellFormed(s: string)
    ensures forall k :: 0 <= k < |ParseTags(s)| ==> WellFormedTag(ParseTags(s)[k])
  {
    KeepTrimmedAvoids(Split(s, ','), ',');
  }

  /** The comma-separated text of some tags; no text for no tags. */
  function JoinTags(tags: seq<string>): string
  {
    if tags == [] then "" else Join(tags, ',')
  }

  /** An empty tags field gives no tags. */
  lemma ParseNoTags()
    ensures ParseTags("") == []
  {
    var pieces := Split("", ',');
    assert pieces == [""];
    assert KeepTrimmed(pieces) == [] by {
      KeepTrimmedOne("");
    }
  }

  /** Well-formed tags survive being written out comma-separated and read back. */
  lemma ParseJoinedTags(tags: seq<string>)
    requires forall k :: 0 <= k < |tags| ==> WellFormedTag(tags[k])
    ensures ParseTags(JoinTags(tags)) == tags
  {
    if tags == [] {
      ParseNoTags();
    } else {
      assert Split(Join(tags, ','), ',') == tags by {
        SplitJoin(tags, ',');
      }
      assert KeepTrimmed(tags) == tags by {
        forall k | 0 <= k < |tags|
          ensures Trim(tags[k]) == tags[k]
        {
          TrimOfTrimmed(tags[k]);
        }
        KeepTrimmedOfTrimmed(tags);
      }
    }
  }

  /** The arguments of one `onQuoteAdd` call. */
  datatype QuoteDraft = QuoteDraft(text: string, author: string, tags: seq<string>)

  /**
   * What "Add to Vault" hands to `onQuoteAdd`: nothing without a discovered
   * quote or an author that trims to something; otherwise the quote, the
   * author as typed and the parsed tags.
   */
  function Submission(discovered: Option<string>, author: string, tags: string): (r: Option<QuoteDraft>)
    ensures r.Some? <==> Truthy(discovered) && Trim(author) != ""
    ensures r.Some? ==> r.value == QuoteDraft(discovered.value, author, ParseTags(tags))
  {
    if !Truthy(discovered) || Trim(author) == "" then None
    else Some(QuoteDraft(discovered.value, author, ParseTags(tags)))
  }

  const MissingTitle := "Missing Information"
  const MissingDescription := "Please provide an author before adding the quote."
  const AddedTitle := "Quote Added!"
  const AddedDescription := "The new quote has been added to your vault."
  const FailedTitle := "Discovery Failed"

  class DiscoverQuoteDialog {
    var isOpen: bool
    var isLoading: bool
    var gist: string
    var discoveredQuote: Option<string>
    var author: string
    var tags: string
    /** The toasts this dialog has raised, oldest first. */
    var toasts: seq<Toast>

    /** A discovered quote is never empty, so the result panel shows exactly when one is present. */
    ghost predicate Valid()
      reads this
    {
      discoveredQuote.Some? ==> discoveredQuote.value != ""
    }

    constructor ()
      ensures Valid()
      ensures !isOpen && !isLoading && gist == "" && discoveredQuote == None && author == "" && tags == ""
      ensures toasts == []
    {
      isOpen := false;
      isLoading := false;
      gist := "";
      discoveredQuote := None;
      author := "";
      tags := "";
      toasts := [];
    }

    /** `resetState`: clears the form; the dialog's visibility and the toasts stay. */
    method ResetState()
      requires Valid()
      modifies this
      ensures Valid()
      ensures !isLoading && gist == "" && discoveredQuote == None && author == "" && tags == ""
      ensures isOpen == old(isOpen) && toasts == old(toasts)
    {
      isLoading := false;
      gist := "";
      discoveredQuote := None;
      author := "";
      tags := "";
    }

    /** `onOpenChange`: shows or hides the dialog; hiding it also resets the form. */
    method OpenChange(open: bool)
      requires Valid()
      modifies this
      ensures Valid()
      ensures isOpen == open && toasts == old(toasts)
      ensures open ==>
        isLoading == old(isLoading) && gist == old(gist) && discoveredQuote == old(discoveredQuote) && author == old(author) && tags == old(tags)
      ensures !open ==> !isLoading && gist == "" && discoveredQuote == None && author == "" && tags == ""
    {
      isOpen := open;
      if !open {
        ResetState();
      }
    }

    /** Typing in the gist box. */
    method EditGist(s: string)
      requires Valid()
      modifies this
      ensures Valid()
      ensures gist == s
      ensures isOpen == old(isOpen) && isLoading == old(isLoading) && discoveredQuote == old(discoveredQuote)
      ensures author == old(author) && tags == old(tags) && toasts == old(toasts)
    {
      gist := s;
    }

    /** Typing in the author box. */
    method EditAuthor(s: string)
      requires Valid()
      modifies this
      ensures Valid()
      ensures author == s
      ensures isOpen == old(isOpen) && isLoading == old(isLoading) && discoveredQuote == old(discoveredQuote)
      ensures gist == old(gist) && tags == old(tags) && toasts == old(toasts)
    {
      author := s;
    }

    /** Typing in the tags box. */
    method EditTags(s: string)
      requires Valid()
      modifies this
      ensures Valid()
      ensures tags == s
      ensures isOpen == old(isOpen) && isLoading == old(isLoading) && discoveredQuote == old(discoveredQuote)
      ensures gist == old(gist) && author == old(author) && toasts == old(toasts)
    {
      tags := s;
    }

    /**
     * The synchronous start of `handleDiscover`: a gist that trims to nothing
     * is ignored; otherwise the dialog starts loading, forgets any earlier
     * result and sends the gist (untrimmed) to the action.
     */
    method BeginDiscover() returns (request: Option<string>)
      requires Valid()
      modifies this
      ensures Valid()
      ensures Trim(old(gist)) == "" ==> request == None && isLoading == old(isLoading) && discoveredQuote == old(discoveredQuote)
      ensures Trim(old(gist)) != "" ==> request == Some(old(gist)) && isLoading && discoveredQuote == None
      ensures isOpen == old(isOpen) && gist == old(gist) && author == old(author) && tags == old(tags)
      ensures toasts == old(toasts)
    {
      if Trim(gist) == "" {
        return None;
      }
      isLoading := true;
      discoveredQuote := None;
      request := Some(gist);
    }

    /**
     * The continuation of `handleDiscover` once the action answers: loading
     * stops; a successful result is shown, any other raises a destructive
     * toast carrying the action's error.
     */
    method CompleteDiscover(result: DiscoverResult)
      requires Valid()
      modifies this
      ensures Valid()
      ensures !isLoading
      ensures result.success && Truthy(result.quote) ==> discoveredQuote == result.quote && toasts == old(toasts)
      ensures !(result.success && Truthy(result.quote)) ==>
        discoveredQuote == old(discoveredQuote) && toasts == old(toasts) + [Toast(true, FailedTitle, result.error)]
      ensures isOpen == old(isOpen) && gist == old(gist) && author == old(author) && tags == old(tags)
    {
      isLoading := false;
      if result.success && Truthy(result.quote) {
        discoveredQuote := result.quote;
      } else {
        toasts := toasts + [Toast(true, FailedTitle, result.error)];
      }
    }

    /**
     * `handleDiscover` run to completion against the discovery flow: the
     * dialog ends up showing the flow's quote exactly when the flow found a
     * non-empty one, and otherwise reports which of the two failures occurred.
     */
    method Discover(discoverQuote: DiscoverQuoteInput -> DiscoverOutcome)
      requires Valid()
      modifies this
      ensures Valid()
      ensures Trim(old(gist)) == "" ==> isLoading == old(isLoading) && discoveredQuote == old(discoveredQuote) && toasts == old(toasts)
      ensures Trim(old(gist)) != "" ==>
        var outcome := discoverQuote(DiscoverQuoteInput(old(gist)));
        && !isLoading
        && (outcome.Returned? && outcome.fullQuote != "" ==> discoveredQuote == Some(outcome.fullQuote) && toasts == old(toasts))
        && (outcome.Returned? && outcome.fullQuote == "" ==>
              discoveredQuote == None && toasts == old(toasts) + [Toast(true, FailedTitle, Some(NotFoundError))])
        && (outcome.Threw? ==> discoveredQuote == None && toasts == old(toasts) + [Toast(true, FailedTitle, Some(FailedError))])
      ensures isOpen == old(isOpen) && gist == old(gist) && author == old(author) && tags == old(tags)
    {
      var request := BeginDiscover();
      if request.Some? {
        var result := HandleDiscoverQuote(request.value, discoverQuote);
        CompleteDiscover(result);
      }
    }

    /** "Search Again": back to the gist form, keeping what was typed. */
    method SearchAgain()
      requires Valid()
      modifies this
      ensures Valid()
      ensures discoveredQuote == None
      ensures isOpen == old(isOpen) && isLoading == old(isLoading) && gist == old(gist) && author == old(author) && tags == old(tags)
      ensures toasts == old(toasts)
    {
      discoveredQuote := None;
    }

    /**
     * `handleAddQuote`: without a discovered quote or an author that trims
     * to something, a destructive toast and nothing else. Otherwise the
     * dialog calls `onQuoteAdd` (returned here as the call made), a toast
     * confirms it and the dialog closes directly, without resetting the form.
     */
    method AddQuote() returns (onQuoteAdd: Option<QuoteDraft>)
      requires Valid()
      modifies this
      ensures Valid()
      ensures onQuoteAdd == Submission(old(discoveredQuote), old(author), old(tags))
      ensures onQuoteAdd.None? ==> toasts == old(toasts) + [Toast(true, MissingTitle, Some(MissingDescription))] && isOpen == old(isOpen)
      ensures onQuoteAdd.Some? ==> toasts == old(toasts) + [Toast(false, AddedTitle, Some(AddedDescription))] && !isOpen
      ensures isLoading == old(isLoading) && gist == old(gist) && discoveredQuote == old(discoveredQuote)
      ensures author == old(author) && tags == old(tags)
    {
      onQuoteAdd := Submission(discoveredQuote, author, tags);
      Conclude(onQuoteAdd.Some?);
    }

    /** The end of `handleAddQuote`: the warning toast, or the confirmation toast and closing the dialog. */
    method Conclude(added: bool)
      requires Valid()
      modifies this
      ensures Valid()
      ensures !added ==> toasts == old(toasts) + [Toast(true, MissingTitle, Some(MissingDescription))] && isOpen == old(isOpen)
      ensures added ==> toasts == old(toasts) + [Toast(false, AddedTitle, Some(AddedDescription))] && !isOpen
      ensures isLoading == old(isLoading) && gist == old(gist) && discoveredQuote == old(discoveredQuote)
      ensures author == old(author) && tags == old(tags)
    {
      if !added {
        toasts := toasts + [Toast(true, MissingTitle, Some(MissingDescription))];
      } else {
        toasts := toasts + [Toast(false, AddedTitle, Some(AddedDescription))];
        isOpen := false;
      }
    }
  }
}
