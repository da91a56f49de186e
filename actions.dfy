/** The server action behind quote discovery. */
module Actions {
  import opened Wrappers

  /** The input of the discovery flow. */
  datatype DiscoverQuoteInput = DiscoverQuoteInput(quoteGist: string)

  /**
   * What awaiting the discovery flow gives the action: the flow's output, or
   * an exception (a rejected call, or a missing output whose field access
   * throws inside the `try`).
   */
  datatype DiscoverOutcome = Returned(fullQuote: string) | Threw

  /** The object the action returns to the client. */
  datatype DiscoverResult = DiscoverResult(success: bool, quote: Option<string>, error: Option<string>)

  const NotFoundError := "Could not find a quote for the given gist."
  const FailedError := "Failed to discover quote. Please try again."

  /**
   * `handleDiscoverQuote`: asks the flow for the full text of a gist.
   * Success exactly when the flow answers with a non-empty quote; otherwise
   * one of the two error messages, chosen by whether the flow answered.
   */
  function HandleDiscoverQuote(gist: string, discoverQuote: DiscoverQuoteInput -> DiscoverOutcome): (r: DiscoverResult)
    ensures var outcome := discoverQuote(DiscoverQuoteInput(gist));
      r.success <==> outcome.Returned? && outcome.fullQuote != ""
    ensures r.success ==> r.quote == Some(discoverQuote(DiscoverQuoteInput(gist)).fullQuote) && r.error == None
    ensures !r.success ==> r.quote == None && r.error.Some?
    ensures r.error == Some(FailedError) <==> discoverQuote(DiscoverQuoteInput(gist)).Threw?
  {
    match discoverQuote(DiscoverQuoteInput(gist))
    case Returned(fullQuote) =>
      if fullQuote != "" then DiscoverResult(true, Some(fullQuote), None)
      else DiscoverResult(false, None, Some(NotFoundError))
    case Threw => DiscoverResult(false, None, Some(FailedError))
  }

  /** The client's test `result.success && result.quote` accepts exactly the successful results, and every result carries exactly one of a quote and an error. */
  lemma ResultShape(gist: string, discoverQuote: DiscoverQuoteInput -> DiscoverOutcome)
    ensures var r := HandleDiscoverQuote(gist, discoverQuote);
      (r.success && r.quote.Some? && r.quote.value != "") <==> r.success
    ensures var r := HandleDiscoverQuote(gist, discoverQuote);
      r.quote.Some? != r.error.Some?
    ensures var r := HandleDiscoverQuote(gist, discoverQuote);
      r.error.Some? ==> r.error.value == NotFoundError || r.error.value == FailedError
  {
  }
}
