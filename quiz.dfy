/** The quiz page: guess the author of each seed quote in a shuffled order. */
module Quiz {
  import opened Wrappers
  import opened Seqs
  import opened Types
  import opened SeedData

  /**
   * What `shuffleArray` is known to return: some permutation of its input.
   * The order it picks comes from `Math.random` and is left open.
   */
  ghost predicate IsShuffler<T(!new)>(shuffle: seq<T> -> seq<T>)
  {
    forall s :: multiset(shuffle(s)) == multiset(s)
  }

  /** A permutation has the same length and the same elements. */
  lemma PermutationFacts<T>(s: seq<T>, t: seq<T>)
    requires multiset(s) == multiset(t)
    ensures |s| == |t|
    ensures forall x :: x in s <==> x in t
  {
    assert |multiset(s)| == |s| && |multiset(t)| == |t|;
    forall x
      ensures x in s <==> x in t
    {
      assert x in s <==> x in multiset(s);
      assert x in t <==> x in multiset(t);
    }
  }

  /** `quotesData.map(q => q.author)` */
  function AuthorsOf(quotes: seq<Quote>): (r: seq<string>)
    ensures |r| == |quotes|
    ensures forall i :: 0 <= i < |quotes| ==> r[i] == quotes[i].author
  {
    seq(|quotes|, i requires 0 <= i < |quotes| => quotes[i].author)
  }

  /** `[...new Set(quotes.map(q => q.author))]`: each author once, in order of first appearance. */
  function DistinctAuthors(quotes: seq<Quote>): (r: seq<string>)
    ensures Distinct(r)
    ensures forall a :: a in r <==> exists i :: 0 <= i < |quotes| && quotes[i].author == a
  {
    var authors := AuthorsOf(quotes);
    assert forall a :: a in authors <==> exists i :: 0 <= i < |quotes| && quotes[i].author == a by {
      forall a | a in authors
        ensures exists i :: 0 <= i < |quotes| && quotes[i].author == a
      {
        var i :| 0 <= i < |authors| && authors[i] == a;
      }
    }
    Dedupe(authors)
  }

  /** `allAuthors`: the seed authors, each once. */
  function AllAuthors(): seq<string>
  {
    DistinctAuthors(QuotesData)
  }

  /** The seed authors in the order of the seed quotes. */
  const SeedAuthorNames: seq<string> := ["Steve Jobs", "Steve Jobs", "Albert Einstein", "Buddha", "Socrates",
                                         "Thomas A. Edison", "Albert Einstein", "Friedrich Nietzsche", "Ralph Waldo Emerson"]

  lemma SeedAuthors()
    ensures AuthorsOf(QuotesData) == SeedAuthorNames
  {
  }

  /** Two names, the first of which comes twice. */
  lemma DedupeRepeatedFirst(a: string, b: string)
    requires a != b
    ensures Dedupe([a, a, b]) == [a, b]
  {
    assert Dedupe([a]) == [a] by { assert [a][..0] == []; }
    assert Dedupe([a, a]) == [a] by { DedupeSnocSeen([a], a); assert [a] + [a] == [a, a]; }
    DedupeSnocNew([a, a], b);
    assert [a, a] + [b] == [a, a, b];
  }

  /** Three new names after a prefix that yields two. */
  lemma DedupeThreeNew(start: seq<string>, c: string, d: string, e: string)
    requires |Dedupe(start)| == 2 && c !in start && d !in start && e !in start && c != d && c != e && d != e
    ensures |Dedupe(start + [c, d, e])| == 5
  {
    var s1 := start + [c];
    var s2 := s1 + [d];
    assert |Dedupe(s1)| == 3 by { DedupeSnocNew(start, c); }
    assert |Dedupe(s2)| == 4 by { assert d !in s1; DedupeSnocNew(s1, d); }
    assert |Dedupe(s2 + [e])| == 5 by { assert e !in s2; DedupeSnocNew(s2, e); }
    AppendThree(start, c, d, e);
  }

  /** The last three seed authors: one seen before, then two new ones. */
  lemma DedupeSeedEnd(start: seq<string>, b: string, f: string, g: string)
    requires |Dedupe(start)| == 5 && b in start && f !in start && g !in start && f != b && g != b && g != f
    ensures |Dedupe(start + [b, f, g])| == 7
  {
    var s1 := start + [b];
    var s2 := s1 + [f];
    assert |Dedupe(s1)| == 5 by { DedupeSnocSeen(start, b); }
    assert |Dedupe(s2)| == 6 by { assert f !in s1; DedupeSnocNew(s1, f); }
    assert |Dedupe(s2 + [g])| == 7 by { assert g !in s2; DedupeSnocNew(s2, g); }
    AppendThree(start, b, f, g);
  }

  /** Seven of the nine seed authors are new when first met. */
  lemma DedupeSeedNames()
    ensures |Dedupe(SeedAuthorNames)| == 7
  {
    var start := SeedAuthorNames[..6];
    var first := ["Steve Jobs", "Steve Jobs", "Albert Einstein"];
    DedupeRepeatedFirst("Steve Jobs", "Albert Einstein");
    DedupeThreeNew(first, "Buddha", "Socrates", "Thomas A. Edison");
    assert start == first + ["Buddha", "Socrates", "Thomas A. Edison"];
    DedupeSeedEnd(start, "Albert Einstein", "Friedrich Nietzsche", "Ralph Waldo Emerson");
    assert SeedAuthorNames == start + ["Albert Einstein", "Friedrich Nietzsche", "Ralph Waldo Emerson"] by {
      assert SeedAuthorNames[6..] == ["Albert Einstein", "Friedrich Nietzsche", "Ralph Waldo Emerson"];
      TakeDrop(SeedAuthorNames, 6);
    }
  }

  /** The seed has seven distinct authors. */
  lemma AllAuthorsCount()
    ensures |AllAuthors()| == 7
  {
    SeedAuthors();
    DedupeSeedNames();
  }

  /** `.filter(a => a !== x)` */
  function Except(xs: seq<string>, x: string): (r: seq<string>)
    ensures x !in r
    ensures forall a :: a in r <==> a in xs && a != x
    ensures Distinct(xs) ==> Distinct(r)
    ensures x !in xs ==> r == xs
    ensures Distinct(xs) && x in xs ==> |r| == |xs| - 1
    decreases |xs|
  {
    if xs == [] then []
    else
      var rest := Except(xs[1..], x);
      assert xs == [xs[0]] + xs[1..];
      assert Distinct(xs) ==> Distinct(xs[1..]) && xs[0] !in xs[1..];
      if xs[0] == x then rest else [xs[0]] + rest
  }

  /**
   * The option list for a question: the correct author and up to three
   * others, each shuffled. The correct author is always offered, no author
   * twice, at most four in all, and every other option is one of
   * `allAuthors`.
   */
  function AuthorOptions(correctAuthor: string, allAuthors: seq<string>, shuffle: seq<string> -> seq<string>): (options: seq<string>)
    requires Distinct(allAuthors)
    requires IsShuffler(shuffle)
    ensures correctAuthor in options
    ensures Distinct(options)
    ensures |options| <= 4
    ensures forall k :: 0 <= k < |options| && options[k] != correctAuthor ==> options[k] in allAuthors
    ensures correctAuthor in allAuthors && |allAuthors| >= 4 ==> |options| == 4
  {
    var others := Except(allAuthors, correctAuthor);
    var shuffled := shuffle(others);
    var distractors := if |shuffled| <= 3 then shuffled else shuffled[..3];
    var candidates := [correctAuthor] + distractors;
    PermutationFacts(others, shuffled);
    DistinctUnderPermutation(others, shuffled);
    assert Distinct(candidates) by {
      assert forall k :: 0 <= k < |distractors| ==> distractors[k] in shuffled;
    }
    var options := shuffle(candidates);
    PermutationFacts(candidates, options);
    DistinctUnderPermutation(candidates, options);
    forall k | 0 <= k < |options| && options[k] != correctAuthor
      ensures options[k] in allAuthors
    {
      assert options[k] in candidates;
      assert options[k] in distractors;
      assert options[k] in others;
    }
    options
  }

  /** For a seed author there are six others to choose from, so four options are offered. */
  lemma SeedOptionsCount(i: int, shuffle: seq<string> -> seq<string>)
    requires 0 <= i < |QuotesData|
    requires IsShuffler(shuffle)
    ensures |AuthorOptions(QuotesData[i].author, AllAuthors(), shuffle)| == 4
  {
    AllAuthorsCount();
    assert QuotesData[i].author in AllAuthors();
  }

  /** The seed quotes are pairwise different (their ids are) and there are nine of them. */
  lemma SeedSuitsQuiz()
    ensures Distinct(QuotesData) && |QuotesData| == 9
  {
    SeedIds();
  }

  class QuizPage {
    /** `quotesData`, the quotes the quiz asks about. */
    const seed: seq<Quote>
    /** `allAuthors`, the same on every question since the seed never changes. */
    const allAuthors: seq<string>
    var questions: seq<Quote>
    var currentQuestionIndex: int
    var authorOptions: seq<string>
    var selectedAuthor: Option<string>
    var isAnswered: bool
    var isCorrect: Option<bool>
    var score: int
    var quizFinished: bool

    /** `currentQuestion`: `questions[currentQuestionIndex]`, absent when out of range. */
    function CurrentQuestion(): Option<Quote>
      reads this
    {
      if 0 <= currentQuestionIndex < |questions| then Some(questions[currentQuestionIndex]) else None
    }

    /** Options fit for a question by `correctAuthor`. */
    ghost predicate OptionsFor(options: seq<string>, correctAuthor: string)
      reads this
    {
      && correctAuthor in options
      && Distinct(options)
      && |options| <= 4
      && forall k :: 0 <= k < |options| && options[k] != correctAuthor ==> options[k] in allAuthors
    }

    /**
     * The questions are the seed quotes in some order, pairwise different,
     * and the index points at one of them; an answer exists exactly when its verdict does, and the
     * verdict compares the chosen author with the current question's; each
     * question answered so far has added at most one point; a finished quiz
     * stands on its last question, answered; the options fit the current question.
     */
    ghost predicate Valid()
      reads this
    {
      && Distinct(allAuthors)
      && multiset(questions) == multiset(seed)
      && Distinct(questions)
      && 0 <= currentQuestionIndex < |questions|
      && (isAnswered <==> isCorrect.Some?)
      && (isAnswered ==> Truthy(selectedAuthor)
                         && isCorrect == Some(selectedAuthor.value == questions[currentQuestionIndex].author))
      && 0 <= score <= currentQuestionIndex + (if isAnswered then 1 else 0)
      && (quizFinished ==> isAnswered && currentQuestionIndex == |questions| - 1)
      && OptionsFor(authorOptions, questions[currentQuestionIndex].author)
    }

    /**
     * Mounting the page over `quotes` (the seed, see `SeedSuitsQuiz`): the
     * initial state, then `startNewQuiz` and the option effect for the first question.
     */
    constructor (quotes: seq<Quote>, shuffleQuotes: seq<Quote> -> seq<Quote>, shuffleAuthors: seq<string> -> seq<string>)
      requires IsShuffler(shuffleQuotes) && IsShuffler(shuffleAuthors)
      requires Distinct(quotes) && quotes != []
      ensures Valid()
      ensures seed == quotes && allAuthors == DistinctAuthors(quotes)
      ensures questions == shuffleQuotes(seed)
      ensures currentQuestionIndex == 0 && score == 0 && !quizFinished
      ensures authorOptions == AuthorOptions(questions[0].author, allAuthors, shuffleAuthors)
      ensures selectedAuthor == None && !isAnswered && isCorrect == None
    {
      var shuffled := shuffleQuotes(quotes);
      PermutationFacts(quotes, shuffled);
      DistinctUnderPermutation(quotes, shuffled);
      var authors := DistinctAuthors(quotes);
      seed := quotes;
      allAuthors := authors;
      questions := shuffled;
      currentQuestionIndex := 0;
      score := 0;
      quizFinished := false;
      authorOptions := AuthorOptions(shuffled[0].author, authors, shuffleAuthors);
      selectedAuthor := None;
      isAnswered := false;
      isCorrect := None;
    }

    /** The effect keyed on `currentQuestion`: new options for its author and a cleared answer. */
    method RefreshQuestion(shuffleAuthors: seq<string> -> seq<string>)
      requires IsShuffler(shuffleAuthors) && Distinct(allAuthors)
      requires 0 <= currentQuestionIndex < |questions|
      modifies this
      ensures questions == old(questions) && currentQuestionIndex == old(currentQuestionIndex)
      ensures authorOptions == AuthorOptions(questions[currentQuestionIndex].author, allAuthors, shuffleAuthors)
      ensures selectedAuthor == None && !isAnswered && isCorrect == None
      ensures score == old(score) && quizFinished == old(quizFinished)
    {
      authorOptions := AuthorOptions(questions[currentQuestionIndex].author, allAuthors, shuffleAuthors);
      selectedAuthor := None;
      isAnswered := false;
      isCorrect := None;
    }

    /**
     * `startNewQuiz` ("Play Again"): a fresh order of the seed quotes, back
     * to the first question with no points. The option effect runs only when
     * the first question differs from the one shown before; otherwise the
     * earlier options and answer stay.
     */
    method StartNewQuiz(shuffleQuotes: seq<Quote> -> seq<Quote>, shuffleAuthors: seq<string> -> seq<string>)
      requires Valid()
      requires IsShuffler(shuffleQuotes) && IsShuffler(shuffleAuthors)
      modifies this
      ensures Valid()
      ensures questions == shuffleQuotes(seed)
      ensures currentQuestionIndex == 0 && score == 0 && !quizFinished
      ensures CurrentQuestion() != old(CurrentQuestion()) ==>
        && authorOptions == AuthorOptions(questions[0].author, allAuthors, shuffleAuthors)
        && selectedAuthor == None && !isAnswered && isCorrect == None
      ensures CurrentQuestion() == old(CurrentQuestion()) ==>
        && authorOptions == old(authorOptions)
        && selectedAuthor == old(selectedAuthor) && isAnswered == old(isAnswered) && isCorrect == old(isCorrect)
    {
      var before := CurrentQuestion();
      var shuffled := shuffleQuotes(seed);
      PermutationFacts(questions, shuffled);
      DistinctUnderPermutation(questions, shuffled);
      questions := shuffled;
      currentQuestionIndex := 0;
      score := 0;
      quizFinished := false;
      if CurrentQuestion() != before {
        RefreshQuestion(shuffleAuthors);
      }
    }

    /** Choosing an author in the option list, which is disabled once the question is answered. */
    method SelectAuthor(author: string)
      requires Valid() && !isAnswered
      modifies this
      ensures Valid()
      ensures selectedAuthor == Some(author)
      ensures questions == old(questions) && currentQuestionIndex == old(currentQuestionIndex) && authorOptions == old(authorOptions)
      ensures !isAnswered && isCorrect == old(isCorrect) && score == old(score) && quizFinished == old(quizFinished)
    {
      selectedAuthor := Some(author);
    }

    /**
     * `handleAnswerSubmit`, offered while the current question is unanswered:
     * nothing without a chosen author; otherwise the question is answered,
     * correct exactly when the chosen author is the quote's, and a correct
     * answer scores one point.
     */
    method HandleAnswerSubmit()
      requires Valid() && !isAnswered && !quizFinished
      modifies this
      ensures Valid()
      ensures !Truthy(old(selectedAuthor)) ==> !isAnswered && isCorrect == old(isCorrect) && score == old(score)
      ensures Truthy(old(selectedAuthor)) ==>
        var correct := old(selectedAuthor).value == questions[currentQuestionIndex].author;
        isAnswered && isCorrect == Some(correct) && score == old(score) + (if correct then 1 else 0)
      ensures questions == old(questions) && currentQuestionIndex == old(currentQuestionIndex) && authorOptions == old(authorOptions)
      ensures selectedAuthor == old(selectedAuthor) && quizFinished == old(quizFinished)
    {
      if !Truthy(selectedAuthor) {
        return;
      }
      var correct := selectedAuthor.value == questions[currentQuestionIndex].author;
      isAnswered := true;
      isCorrect := Some(correct);
      if correct {
        score := score + 1;
      }
    }

    /**
     * `handleNextQuestion`, offered once the question is answered: moves to
     * the next question, whose options are fresh and whose answer is cleared
     * (the questions are pairwise different, so the effect always runs), or
     * on the last question finishes the quiz and stays there.
     */
    method HandleNextQuestion(shuffleAuthors: seq<string> -> seq<string>)
      requires Valid() && isAnswered && !quizFinished
      requires IsShuffler(shuffleAuthors)
      modifies this
      ensures Valid()
      ensures old(currentQuestionIndex) < |questions| - 1 ==>
        && currentQuestionIndex == old(currentQuestionIndex) + 1 && !quizFinished
        && authorOptions == AuthorOptions(questions[currentQuestionIndex].author, allAuthors, shuffleAuthors)
        && selectedAuthor == None && !isAnswered && isCorrect == None
      ensures old(currentQuestionIndex) >= |questions| - 1 ==>
        && currentQuestionIndex == old(currentQuestionIndex) && quizFinished
        && authorOptions == old(authorOptions) && selectedAuthor == old(selectedAuthor)
        && isAnswered && isCorrect == old(isCorrect)
      ensures questions == old(questions) && score == old(score)
    {
      if currentQuestionIndex < |questions| - 1 {
        var before := CurrentQuestion();
        currentQuestionIndex := currentQuestionIndex + 1;
        assert CurrentQuestion() != before;
        RefreshQuestion(shuffleAuthors);
      } else {
        quizFinished := true;
      }
    }
  }

  /** Every question adds at most one point, so the score never exceeds the number of questions. */
  lemma ScoreAtMostQuestions(page: QuizPage)
    requires page.Valid()
    ensures 0 <= page.score <= |page.questions|
  {
  }

  /** A finished quiz shows the last question, answered, and its score counts at most every question. */
  lemma FinishedOnLastQuestion(page: QuizPage)
    requires page.Valid() && page.quizFinished
    ensures page.CurrentQuestion() == Some(page.questions[|page.questions| - 1])
    ensures page.isAnswered && page.isCorrect.Some?
    ensures page.score <= |page.questions|
  {
  }
}
