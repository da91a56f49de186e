/** The "Explore Quote" dialog: shows a quote's meaning, origin and trivia, fetching them once when they are not stored yet. */
module ExploreDialog {
  import opened Wrappers
  import opened Types
  import opened SeedData

  /** The input of the exploration flow. */
  datatype ExploreQuoteInput = ExploreQuoteInput(text: string, author: string)

  /** The output of the exploration flow. */
  datatype ExploreQuoteOutput = ExploreQuoteOutput(meaning: string, origin: string, trivia: string, isConfirmed: bool)

  /** What the exploration action returns to the dialog. */
  datatype ExploreResponse = ExploreResponse(success: bool, data: Option<ExploreQuoteOutput>, error: Option<string>)

  /** The three texts the dialog shows. */
  datatype Exploration = Exploration(meaning: string, origin: string, trivia: string)

  /** The arguments of one `onUpdateExploration` call. */
  datatype ExplorationUpdate = ExplorationUpdate(quoteId: int, data: ExploreQuoteOutput)

  const UnknownError := "An unknown error occurred."
  const FailedTitle := "Exploration Failed"

  /** `hasCachedData`: meaning, origin and trivia are all present and non-empty. */
  predicate HasCachedData(q: Quote)
  {
    Truthy(q.meaning) && Truthy(q.origin) && Truthy(q.trivia)
  }

  /** `explorationResult`: the stored texts when the quote is cached, nothing otherwise. */
  function ExplorationResult(q: Quote): (r: Option<Exploration>)
    ensures r.Some? <==> HasCachedData(q)
    ensures r.Some? ==> q.meaning == Some(r.value.meaning) && q.origin == Some(r.value.origin) && q.trivia == Some(r.value.trivia)
    ensures r.Some? ==> r.value.meaning != "" && r.value.origin != "" && r.value.trivia != ""
  {
    if HasCachedData(q) then Some(Exploration(q.meaning.value, q.origin.value, q.trivia.value)) else None
  }

  /** Storing an exploration's texts makes the quote cached, unless one of the texts is empty. */
  lemma StoredExplorationIsCached(q: Quote, data: ExploreQuoteOutput)
    ensures var stored := q.(meaning := Some(data.meaning), origin := Some(data.origin), trivia := Some(data.trivia));
      HasCachedData(stored) <==> data.meaning != "" && data.origin != "" && data.trivia != ""
    ensures var stored := q.(meaning := Some(data.meaning), origin := Some(data.origin), trivia := Some(data.trivia));
      data.meaning != "" && data.origin != "" && data.trivia != "" ==>
        ExplorationResult(stored) == Some(Exploration(data.meaning, data.origin, data.trivia))
  {
  }

  /** No seed quote is cached, so opening any of them asks the flow. */
  lemma SeedUncached()
    ensures forall i :: 0 <= i < |QuotesData| ==> !HasCachedData(QuotesData[i]) && ExplorationResult(QuotesData[i]) == None
  {
    SeedUnexplored();
  }

  class ExploreQuoteDialog {
    /** The quote the dialog belongs to; the dialog never changes it. */
    const quote: Quote
    var isOpen: bool
    var isLoading: bool
    var error: Option<string>
    /** The toasts this dialog has raised, oldest first. */
    var toasts: seq<Toast>

    /** While loading, the dialog is open and shows no error. */
    ghost predicate Valid()
      reads this
    {
      isLoading ==> isOpen && error == None
    }

    constructor (q: Quote)
      ensures Valid()
      ensures quote == q && !isOpen && !isLoading && error == None && toasts == []
    {
      quote := q;
      isOpen := false;
      isLoading := false;
      error := None;
      toasts := [];
    }

    /**
     * The synchronous part of `handleOpenChange`. Opening an uncached quote
     * starts loading, clears the error and asks the flow about the quote's
     * text and author (the request returned); opening a cached quote asks
     * nothing; closing clears the error and the loading flag.
     */
    method OpenChange(open: bool) returns (request: Option<ExploreQuoteInput>)
      requires Valid()
      modifies this
      ensures Valid()
      ensures isOpen == open && toasts == old(toasts)
      ensures request.Some? <==> open && !HasCachedData(quote)
      ensures request.Some? ==> request.value == ExploreQuoteInput(quote.text, quote.author) && isLoading && error == None
      ensures open && HasCachedData(quote) ==> isLoading == old(isLoading) && error == old(error)
      ensures !open ==> !isLoading && error == None
    {
      isOpen := open;
      if open && !HasCachedData(quote) {
        isLoading := true;
        error := None;
        request := Some(ExploreQuoteInput(quote.text, quote.author));
      } else {
        if !open {
          error := None;
          isLoading := false;
        }
        request := None;
      }
    }

    /**
     * The continuation of `handleOpenChange` once the action answers. Loading
     * stops. A successful response with data is handed to
     * `onUpdateExploration` with the quote's id (the call returned) and the
     * dialog stays open; any other response sets the error, raises a
     * destructive toast and closes the dialog without clearing the error.
     */
    method ReceiveResponse(response: ExploreResponse) returns (update: Option<ExplorationUpdate>)
      requires Valid()
      modifies this
      ensures Valid()
      ensures !isLoading
      ensures update.Some? <==> response.success && response.data.Some?
      ensures update.Some? ==>
        && update.value == ExplorationUpdate(quote.id, response.data.value)
        && isOpen == old(isOpen) && error == old(error) && toasts == old(toasts)
      ensures update.None? ==>
        && error == Some(response.error.GetOr(UnknownError))
        && toasts == old(toasts) + [Toast(true, FailedTitle, response.error)]
        && !isOpen
    {
      isLoading := false;
      if response.success && response.data.Some? {
        update := Some(ExplorationUpdate(quote.id, response.data.value));
      } else {
        error := Some(response.error.GetOr(UnknownError));
        toasts := toasts + [Toast(true, FailedTitle, response.error)];
        isOpen := false;
        update := None;
      }
    }

    /**
     * `handleOpenChange` run to completion against the exploration action:
     * the action is consulted exactly when an uncached quote is opened, and
     * only then can an update be reported.
     */
    method HandleOpenChange(open: bool, exploreQuote: ExploreQuoteInput -> ExploreResponse) returns (update: Option<ExplorationUpdate>)
      requires Valid()
      modifies this
      ensures Valid()
      ensures !(open && !HasCachedData(quote)) ==> update == None && isOpen == open && toasts == old(toasts)
      ensures open && !HasCachedData(quote) ==>
        var response := exploreQuote(ExploreQuoteInput(quote.text, quote.author));
        && !isLoading
        && (update.Some? <==> response.success && response.data.Some?)
        && (update.Some? ==> update.value == ExplorationUpdate(quote.id, response.data.value) && isOpen && error == None && toasts == old(toasts))
        && (update.None? ==>
              error == Some(response.error.GetOr(UnknownError)) && !isOpen && toasts == old(toasts) + [Toast(true, FailedTitle, response.error)])
      ensures open && HasCachedData(quote) ==> isLoading == old(isLoading) && error == old(error)
      ensures !open ==> !isLoading && error == None
    {
      var request := OpenChange(open);
      update := None;
      if request.Some? {
        var response := exploreQuote(request.value);
        update := ReceiveResponse(response);
      }
    }
  }
}
