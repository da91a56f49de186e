# Quote vault: a verified model of the collection, the sidebars, the dialogs and the quiz

Quote vault is a Next.js application that keeps a list of quotations. It filters the list by
author, by tag and by a free-text search, and shows sidebars listing every author and every tag.
The vault page defines handlers that add, delete and tag quotes. Only adding is reachable:
the quote list it renders ignores the delete and tag handlers passed to it. A "Discover" dialog asks a language-model flow for the
full text of a remembered gist. An "Explore" dialog asks another flow for a quote's meaning,
origin and trivia. A quiz asks the user to guess the author of each seed quote in a shuffled
order.

This Dafny project models the logic behind those screens:

- **Types** and **SeedData**: the `Quote` record and the nine seed quotes.
- **Vault**: the filtered view, and the `QuoteVault` class whose methods replace the `quotes`
  state (add, delete, add a tag), each modelled as its handler is written.
- **TagList** and **AuthorList**: the sidebar derivations. Each is a method with the loops of
  the source, filling a duplicate-free list and sorting it.
- **Actions**: the server action that turns the discovery flow's outcome into a
  `{success, quote | error}` result.
- **DiscoverDialog**: the dialog's state fields as a class, and the tag parser.
- **ExploreDialog**: the cache test, the displayed exploration and the dialog's state machine.
- **Quiz**: the quiz page's state as a class, and the option builder.
- **VaultClient**: the "Discover" dialog's `onQuoteAdd` call carried out on the vault.
- Supporting modules:
  - **Wrappers**: `Option`.
  - **Strings**: `toLowerCase`, `includes`, `trim`, `split`, `join`.
  - **Seqs**: duplicate-free sequences, subsequences, `[...new Set(xs)]`.
  - **Collation**: the default `sort` order and the sidebar highlight.

Remote calls (the two language-model flows) are function-typed parameters. The shuffle is a
parameter too, required only to return a permutation of its input. Each `await` is split into
the synchronous start, which returns the request made, and the continuation, which takes the
response. A method joins the two against the remote function. The dialogs' methods return
the callback call they make (`onQuoteAdd`, `onUpdateExploration`) as an `Option`. The vault
page passes its `handleAddQuote` as `onQuoteAdd`, and **VaultClient** joins the "Discover"
dialog's call to `QuoteVault.AddQuote`. None of the components modelled here or cited below
renders the "Explore" dialog, so the effect of `onUpdateExploration` is left open.

React re-runs an effect when its dependency changes. The quiz's option effect is therefore
modelled as running exactly when the current question changes value. The seed quotes are
pairwise different, so moving to the next question always runs it. "Play Again" does not run
it when the new first question happens to be the one shown last: the earlier options and
answer stay on screen. `QuizPage.StartNewQuiz` states both cases.

Ids are `max(0, ids) + 1`, so the id of a deleted newest quote is given out again
(`Vault.DeleteUndoesAdd`). Adding a tag compares it exactly with the stored tags. Discovery
yields one quote.

## Model

| member | source | states |
|---|---|---|
| Strings.ToLower | src/app/quote-vault-client.tsx:46-49 | lower-casing keeps the length and leaves no upper-case letter |
| Strings.ToLowerAt | src/app/quote-vault-client.tsx:46-49 | lower-casing changes each character on its own, in place |
| Strings.ToLowerIdempotent | src/components/tag-list.tsx:27 | lower-casing a lower-cased tag changes nothing |
| Strings.Contains | src/app/quote-vault-client.tsx:46-49 | `s.includes(sub)`; characterised by `Strings.ContainsAt` |
| Strings.ContainsAt | src/app/quote-vault-client.tsx:46-49 | `includes` holds exactly when the needle starts at some position of the haystack |
| Strings.Trim | src/components/discover-quote-dialog.tsx:69 | `s.trim()`; characterised by `Strings.TrimIsTrimmedSlice` |
| Strings.TrimIsTrimmedSlice | src/components/discover-quote-dialog.tsx:69 | `trim` keeps a contiguous slice with no whitespace at either end; all it cuts off is whitespace |
| Strings.TrimIdempotent | src/components/discover-quote-dialog.tsx:69 | trimming twice is trimming once |
| Strings.TrimEmptyIffWhitespace | src/components/discover-quote-dialog.tsx:44 | a gist is rejected as empty exactly when it is all whitespace |
| Strings.Split | src/components/discover-quote-dialog.tsx:69 | `split(',')` gives at least one piece and no piece holds a comma |
| Strings.JoinSplit | src/components/discover-quote-dialog.tsx:69 | joining the pieces of a split with the separator restores the string |
| Strings.SplitJoin | src/components/discover-quote-dialog.tsx:69 | splitting separator-free pieces joined by the separator gives the pieces back |
| Seqs.Dedupe | src/app/quiz/page.tsx:55 | `[...new Set(xs)]` has no duplicates and exactly the elements of `xs` |
| Seqs.DedupeIsSubsequence | src/app/quiz/page.tsx:55 | `[...new Set(xs)]` keeps its elements in the order they have in `xs` |
| Seqs.DedupeFirstOccurrenceOrder | src/app/quiz/page.tsx:55 | `[...new Set(xs)]` lists its elements in the order of their first occurrences in `xs` |
| Seqs.DistinctUnderPermutation | src/app/quiz/page.tsx:17-19 | a shuffle of a duplicate-free list is duplicate-free |
| Collation.SortStrings | src/components/tag-list.tsx:28 | sorting distinct strings gives a strictly ascending list of the same strings, as many as before |
| Collation.StrictlySortedUnique | src/components/author-list.tsx:28 | a strictly ascending list is determined by its elements, so the sidebar contracts fix each list exactly |
| Collation.LessTotal | src/components/tag-list.tsx:28 | of two different strings one sorts before the other |
| Collation.ActiveEntry | src/components/tag-list.tsx:43-44 | at most one sidebar entry is highlighted, and one is exactly when the URL parameter is listed |
| SeedData.SeedIds | src/lib/data.ts:3-58 | nine seed quotes with ids 1 to 9, strictly increasing |
| SeedData.SeedWellFormed | src/lib/data.ts:3-58 | every seed quote has text, an author and at least one tag |
| SeedData.SeedUnexplored | src/lib/data.ts:3-58 | no seed quote has meaning, origin or trivia |
| SeedData.SeedTagsLowercase | src/lib/data.ts:8-56 | every seed tag is already lower case |
| SeedData.SeedRepeatedAuthors | src/lib/data.ts:7-43 | Steve Jobs and Albert Einstein have two seed quotes each |
| Vault.MatchesAuthor | src/app/quote-vault-client.tsx:42 | with an author filter, the author must be equal as written |
| Vault.MatchesTag | src/app/quote-vault-client.tsx:43 | with a tag filter, the tag must be one of the quote's tags as written |
| Vault.MatchesSearch | src/app/quote-vault-client.tsx:44-50 | with a query, its lower-cased form must occur in the lower-cased text, author or some tag |
| Vault.Filter | src/app/quote-vault-client.tsx:40-53 | `filteredQuotes` is no longer than the collection; characterised by the lemmas below |
| Vault.FilterMembership | src/app/quote-vault-client.tsx:40-53 | a quote is shown exactly when it is in the collection and passes the author, tag and search tests |
| Vault.FilterIsSubsequence | src/app/quote-vault-client.tsx:41-52 | the shown quotes keep their order in the collection |
| Vault.FilterWithoutCriteria | src/app/quote-vault-client.tsx:42-45 | null or empty author and tag filters and an empty query show every quote |
| Vault.FilterConjunction | src/app/quote-vault-client.tsx:51 | filtering by all three tests is filtering by author, then tag, then search |
| Vault.SearchIgnoresQueryCase | src/app/quote-vault-client.tsx:46-49 | the search does not depend on the case of the query |
| Vault.SearchIgnoresQuoteCase | src/app/quote-vault-client.tsx:46-49 | quotes equal up to case match the same queries |
| Vault.MaxId | src/app/quote-vault-client.tsx:57 | `Math.max(0, ...ids)` is at least every id and is 0 or one of them |
| Vault.NextId | src/app/quote-vault-client.tsx:57 | the new id is `Math.max(0, ...ids) + 1` |
| Vault.NextIdExamples | src/app/quote-vault-client.tsx:57 | an empty collection gives id 1, the seed collection id 10 |
| Vault.Added | src/app/quote-vault-client.tsx:55-62 | the new quote is at the head with id `NextId`, above every old id, and the old list follows unchanged |
| Vault.AddedKeepsDistinctIds | src/app/quote-vault-client.tsx:57 | adding keeps ids pairwise distinct |
| Vault.Without | src/app/quote-vault-client.tsx:70 | deleting keeps exactly the quotes whose id differs |
| Vault.WithoutIsSubsequence | src/app/quote-vault-client.tsx:70 | deleting keeps the other quotes in order |
| Vault.WithoutAbsent | src/app/quote-vault-client.tsx:70 | deleting an id no quote has changes nothing |
| Vault.WithoutKeepsDistinctIds | src/app/quote-vault-client.tsx:70 | deleting keeps ids pairwise distinct |
| Vault.DeleteUndoesAdd | src/app/quote-vault-client.tsx:55-70 | deleting the quote just added restores the list, and the next add reuses its id |
| Vault.TagAdded | src/app/quote-vault-client.tsx:79-86 | only the quote with that id changes; the tag is then present, appended once after the old tags |
| Vault.WithTagAdded | src/app/quote-vault-client.tsx:78-87 | the list keeps its length and order, each quote tagged on its own |
| Vault.TagAddedIdempotent | src/app/quote-vault-client.tsx:77-88 | adding the same tag twice is adding it once |
| Vault.WithTagAddedKeepsIds | src/app/quote-vault-client.tsx:77-88 | tagging keeps every id in its place |
| Vault.QuoteVault.constructor | src/app/quote-vault-client.tsx:33 | the collection starts as the seed, with distinct ids |
| Vault.QuoteVault.AddQuote | src/app/quote-vault-client.tsx:55-63 | the state becomes `Added` of the old state; ids stay distinct |
| Vault.QuoteVault.DeleteQuote | src/app/quote-vault-client.tsx:69-75 | the state becomes `Without` of the old state and a confirmation toast is raised; ids stay distinct |
| Vault.QuoteVault.AddTagToQuote | src/app/quote-vault-client.tsx:77-88 | the state becomes `WithTagAdded` of the old state; ids stay distinct |
| TagList.LowerTagsMembership | src/components/tag-list.tsx:27 | a tag is collected exactly when it is the lower-case form of some tag of some quote |
| TagList.DeriveTags | src/components/tag-list.tsx:25-29 | the tag list is strictly ascending and holds exactly the lower-cased tags of all quotes |
| TagList.TagLinkMissesMixedCase | src/components/tag-list.tsx:40 | a stored tag with upper case is listed lower-cased, and its link does not select the quote |
| TagList.TagLinksAgreeWhenLowerCase | src/app/quote-vault-client.tsx:43 | with lower-case tags, a listed tag's link selects exactly the quotes carrying it, and at least one |
| AuthorList.DeriveAuthors | src/components/author-list.tsx:25-29 | the author list is strictly ascending, holds exactly the authors as written, and is no longer than the collection |
| Actions.HandleDiscoverQuote | src/app/actions.ts:5-17 | the gist goes to the flow unchanged; success exactly with a non-empty quote; otherwise the not-found or the failure message |
| Actions.ResultShape | src/app/actions.ts:5-17 | a result carries exactly one of a quote and an error; the error is one of the two messages |
| DiscoverDialog.KeepTrimmed | src/components/discover-quote-dialog.tsx:69 | every kept piece is non-empty with no whitespace at either end |
| DiscoverDialog.KeepTrimmedOne | src/components/discover-quote-dialog.tsx:69 | one piece is kept as its trimmed form, or dropped when that is empty |
| DiscoverDialog.KeepTrimmedAppend | src/components/discover-quote-dialog.tsx:69 | pieces are handled one at a time and in input order: the result for `a + b` is the result for `a` followed by the result for `b` |
| DiscoverDialog.ParseTags | src/components/discover-quote-dialog.tsx:69 | `tags.split(',').map(t => t.trim()).filter(Boolean)`; characterised by the `KeepTrimmed` lemmas and `Strings.JoinSplit` |
| DiscoverDialog.ParseTagsWellFormed | src/components/discover-quote-dialog.tsx:69 | every parsed tag is non-empty, trimmed and comma-free |
| DiscoverDialog.ParseNoTags | src/components/discover-quote-dialog.tsx:69 | an empty tags field gives no tags, since the one empty piece is dropped |
| DiscoverDialog.ParseJoinedTags | src/components/discover-quote-dialog.tsx:69 | well-formed tags written comma-separated parse back to themselves, in order |
| DiscoverDialog.Submission | src/components/discover-quote-dialog.tsx:60-70 | an add goes ahead exactly with a discovered quote and an author that trims to something; it passes the author untrimmed and the parsed tags |
| DiscoverDialog.DiscoverQuoteDialog.constructor | src/components/discover-quote-dialog.tsx:27-32 | the dialog starts closed, idle and empty |
| DiscoverDialog.DiscoverQuoteDialog.ResetState | src/components/discover-quote-dialog.tsx:35-41 | the form is cleared; visibility stays |
| DiscoverDialog.DiscoverQuoteDialog.OpenChange | src/components/discover-quote-dialog.tsx:79-84 | opening keeps the form, closing clears it |
| DiscoverDialog.DiscoverQuoteDialog.EditGist | src/components/discover-quote-dialog.tsx:105 | typing changes the gist only |
| DiscoverDialog.DiscoverQuoteDialog.EditAuthor | src/components/discover-quote-dialog.tsx:129 | typing changes the author only |
| DiscoverDialog.DiscoverQuoteDialog.EditTags | src/components/discover-quote-dialog.tsx:138 | typing changes the tags text only |
| DiscoverDialog.DiscoverQuoteDialog.BeginDiscover | src/components/discover-quote-dialog.tsx:43-47 | a blank gist changes nothing; otherwise loading starts, the old result goes and the gist is sent as typed |
| DiscoverDialog.DiscoverQuoteDialog.CompleteDiscover | src/components/discover-quote-dialog.tsx:48-57 | loading stops; a successful quote is shown, anything else raises a failure toast with the action's error |
| DiscoverDialog.DiscoverQuoteDialog.Discover | src/components/discover-quote-dialog.tsx:43-58 | against the flow: the quote is shown exactly when the flow found a non-empty one, else the matching error toast |
| DiscoverDialog.DiscoverQuoteDialog.SearchAgain | src/components/discover-quote-dialog.tsx:149 | only the discovered quote is cleared |
| DiscoverDialog.DiscoverQuoteDialog.AddQuote | src/components/discover-quote-dialog.tsx:60-76 | `onQuoteAdd` is called exactly as `Submission` says; then a confirmation toast and the dialog closes, else a warning toast and it stays open |
| DiscoverDialog.DiscoverQuoteDialog.Conclude | src/components/discover-quote-dialog.tsx:61-75 | the warning toast and nothing else, or the confirmation toast and the dialog closes; the form is kept either way |
| VaultClient.AddDiscoveredQuote | src/app/quote-vault-client.tsx:128 | "Add to Vault" adds exactly the quote `Submission` yields to the collection, or leaves it untouched, with the dialog's toast |
| ExploreDialog.HasCachedData | src/components/explore-quote-dialog.tsx:24 | meaning, origin and trivia are all present and non-empty |
| ExploreDialog.ExplorationResult | src/components/explore-quote-dialog.tsx:52 | an exploration is shown exactly when the quote is cached, and it is the stored texts |
| ExploreDialog.StoredExplorationIsCached | src/components/explore-quote-dialog.tsx:24 | storing three texts makes a quote cached exactly when none is empty |
| ExploreDialog.SeedUncached | src/components/explore-quote-dialog.tsx:24 | no seed quote is cached |
| ExploreDialog.ExploreQuoteDialog.constructor | src/components/explore-quote-dialog.tsx:19-21 | the dialog starts closed, idle and without error |
| ExploreDialog.ExploreQuoteDialog.OpenChange | src/components/explore-quote-dialog.tsx:26-49 | the flow is asked about the quote's text and author exactly when an uncached quote is opened; closing clears error and loading |
| ExploreDialog.ExploreQuoteDialog.ReceiveResponse | src/components/explore-quote-dialog.tsx:32-43 | loading stops; success with data reports the update for this quote's id; otherwise the error or the default message, a toast, and the dialog closes |
| ExploreDialog.ExploreQuoteDialog.HandleOpenChange | src/components/explore-quote-dialog.tsx:26-50 | against the flow: an update is reported only for an uncached quote opened with a successful response; opening a cached quote leaves loading and error as they were |
| Quiz.DistinctAuthors | src/app/quiz/page.tsx:55 | `allAuthors` lists every author of the quotes once |
| Quiz.AllAuthorsCount | src/lib/data.ts:3-58 | the seed has seven distinct authors |
| Quiz.Except | src/app/quiz/page.tsx:56 | filtering out the correct author removes it and only it, one fewer in a duplicate-free list |
| Quiz.AuthorOptions | src/app/quiz/page.tsx:54-57 | the options hold the correct author, no author twice, at most four, the rest from `allAuthors`; exactly four when there are enough authors |
| Quiz.SeedOptionsCount | src/app/quiz/page.tsx:54-57 | every seed question offers four options |
| Quiz.SeedSuitsQuiz | src/lib/data.ts:3-58 | the seed quotes are pairwise different and there are nine |
| Quiz.QuizPage.constructor | src/app/quiz/page.tsx:23-40 | mounting gives a shuffle of the seed, the first question, no points and options for it |
| Quiz.QuizPage.CurrentQuestion | src/app/quiz/page.tsx:33-35 | `questions[currentQuestionIndex]`, or nothing when the index is out of range |
| Quiz.QuizPage.RefreshQuestion | src/app/quiz/page.tsx:52-64 | new options for the current question and a cleared answer |
| Quiz.QuizPage.StartNewQuiz | src/app/quiz/page.tsx:66-72 | a permutation of the seed, first question, no points, not finished; the option effect runs only if the first question changed |
| Quiz.QuizPage.SelectAuthor | src/app/quiz/page.tsx:142-146 | an unanswered question records the chosen author and nothing else |
| Quiz.QuizPage.HandleAnswerSubmit | src/app/quiz/page.tsx:74-83 | no author, no change; otherwise answered, correct exactly when the author matches, one point exactly when correct |
| Quiz.QuizPage.HandleNextQuestion | src/app/quiz/page.tsx:85-91 | below the last question it moves on and refreshes the options; on the last it finishes and stays |
| Quiz.ScoreAtMostQuestions | src/app/quiz/page.tsx:156-164 | the score never exceeds the number of questions |
| Quiz.FinishedOnLastQuestion | src/app/quiz/page.tsx:85-91 | a finished quiz stands on its last question, answered |

## Left out

- Rendering, routing and links: all JSX markup, quote-card.tsx, quote-list.tsx, icons.tsx and page.tsx. `useSearchParams` values are plain `Option<string>` inputs.
- Firebase, authentication and firestore: foreign SDK calls and I/O. The quiz result save (page.tsx:43-49) and its floating-point duration are not modelled.
- The language-model flows: only their outcome is modelled, as function parameters. What they answer is left open.
- `Date.now` and `quizStartTime`: clocks are not modelled.
- `setTimeout` delays before a reset: the reset is taken as immediate.
- Overlapping requests and stale closures: each `await` is one atomic step.
- `Math.random`: the shuffle is any permutation.
- Strings.ToLower: only ASCII letters are lowered, whereas `toLowerCase` follows full Unicode case mapping.
- Collation.SortStrings: orders by code point, whereas `sort` compares UTF-16 code units. The two agree below U+10000.
- Vault.MaxId: ids are unbounded integers; JavaScript numbers lose precision above 2^53.
- `handleExploreQuote` is not in actions.ts and is not part of this model: the explore dialog takes its response as a parameter. None of the components modelled here or cited in this section (quote-list.tsx, quote-card.tsx) passes `onUpdateExploration`, so the explore dialog returns the call it makes and its effect is left open.
- Vault.QuoteVault.DeleteQuote and Vault.QuoteVault.AddTagToQuote model `handleDeleteQuote` and `handleAddTagToQuote` as written. quote-vault-client.tsx:143 passes them to `QuoteList` as `onDelete` and `onAddTag`, but quote-list.tsx:4-6 declares only `quotes`, and quote-card.tsx renders no delete or tag control. So no component calls them, and the model does not claim that any user action reaches them.
- Actions.HandleDiscoverQuote: the `console.error` log of a failed discovery (actions.ts:14) is console I/O and not modelled.
- The quiz page's first render, before the mount effect, is not modelled. Then `questions` is empty and nothing is shown. `QuizPage.constructor` runs `startNewQuiz` and the option effect at once.
- Quiz.QuizPage.constructor: takes the quote list as a parameter and requires it duplicate-free and non-empty. The page reads the fixed seed, which `SeedSuitsQuiz` shows meets both. `allAuthors` is computed once, since the seed never changes.
- Quiz.QuizPage.SelectAuthor, HandleAnswerSubmit and HandleNextQuestion: require the state in which the page offers them: options enabled while unanswered, Submit while unanswered, Next once answered, neither after finishing.
