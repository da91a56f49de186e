/** The quotes the vault and the quiz start from. */
module SeedData {
  import opened Wrappers
  import opened Strings
  import opened Types

  const QuotesData: seq<Quote> := [
    Quote(1, "The only way to do great work is to love what you do.", "Steve Jobs",
          ["inspiration", "work", "passion"], None, None, None),
    Quote(2, "Innovation distinguishes between a leader and a follower.", "Steve Jobs",
          ["innovation", "leadership"], None, None, None),
    Quote(3, "Strive not to be a success, but rather to be of value.", "Albert Einstein",
          ["success", "value", "inspiration"], None, None, None),
    Quote(4, "The mind is everything. What you think you become.", "Buddha",
          ["mindfulness", "philosophy"], None, None, None),
    Quote(5, "An unexamined life is not worth living.", "Socrates",
          ["philosophy", "life"], None, None, None),
    Quote(6, "I have not failed. I've just found 10,000 ways that won't work.", "Thomas A. Edison",
          ["perseverance", "failure", "inspiration"], None, None, None),
    Quote(7, "The only source of knowledge is experience.", "Albert Einstein",
          ["knowledge", "experience"], None, None, None),
    Quote(8, "That which does not kill us makes us stronger.", "Friedrich Nietzsche",
          ["strength", "philosophy"], None, None, None),
    Quote(9, "To be yourself in a world that is constantly trying to make you something else is the greatest accomplishment.",
          "Ralph Waldo Emerson", ["individuality", "life"], None, None, None)
  ]

  /** Nine quotes whose ids are 1 to 9 in order, so ids increase strictly and never repeat. */
  lemma SeedIds()
    ensures |QuotesData| == 9
    ensures forall i :: 0 <= i < |QuotesData| ==> QuotesData[i].id == i + 1
    ensures forall i, j :: 0 <= i < j < |QuotesData| ==> QuotesData[i].id < QuotesData[j].id
  {
  }

  /** Every seed quote has a text, an author and at least one tag. */
  lemma SeedWellFormed()
    ensures forall i :: 0 <= i < |QuotesData| ==> QuotesData[i].text != "" && QuotesData[i].author != "" && QuotesData[i].tags != []
  {
  }

  /** No seed quote has been explored yet. */
  lemma SeedUnexplored()
    ensures forall i :: 0 <= i < |QuotesData| ==> QuotesData[i].meaning == None && QuotesData[i].origin == None && QuotesData[i].trivia == None
  {
  }

  /** Every seed tag is already in lower case. */
  lemma SeedTagsLowercase()
    ensures forall i, j :: 0 <= i < |QuotesData| && 0 <= j < |QuotesData[i].tags| ==> NoUpper(QuotesData[i].tags[j])
  {
  }

  /** How many quotes are by `author`. */
  function CountBy(quotes: seq<Quote>, author: string): (n: nat)
    ensures n <= |quotes|
    decreases |quotes|
  {
    if quotes == [] then 0
    else (if quotes[0].author == author then 1 else 0) + CountBy(quotes[1..], author)
  }

  /** Steve Jobs and Albert Einstein have two seed quotes each. */
  lemma SeedRepeatedAuthors()
    ensures CountBy(QuotesData, "Steve Jobs") == 2
    ensures CountBy(QuotesData, "Albert Einstein") == 2
  {
    assert QuotesData[8..][1..] == [];
    assert QuotesData[7..][1..] == QuotesData[8..];
    assert QuotesData[6..][1..] == QuotesData[7..];
    assert QuotesData[5..][1..] == QuotesData[6..];
    assert QuotesData[4..][1..] == QuotesData[5..];
    assert QuotesData[3..][1..] == QuotesData[4..];
    assert QuotesData[2..][1..] == QuotesData[3..];
    assert QuotesData[1..][1..] == QuotesData[2..];
  }
}
