/** `classify_review`: a review is about the book's ending, its journey, or
    neither, decided by keywords in the lower-cased text. Ending keywords are
    tried first, so a review mentioning both is an "Ending" review. */
module ReviewCategory {
  import opened Text

  datatype Category = Ending | Journey | General

  /** The string written to the review table's Category column. */
  function Name(c: Category): (s: string)
    ensures s == "Ending" || s == "Journey" || s == "General"
  {
    match c
    case Ending => "Ending"
    case Journey => "Journey"
    case General => "General"
  }

  lemma NameInjective(c: Category, d: Category)
    requires Name(c) == Name(d)
    ensures c == d
  {
  }

  const EndingKeywords: seq<string> :=
    ["ending", "final", "conclusion", "last chapter", "wrap up", "cliffhanger"]

  const JourneyKeywords: seq<string> :=
    ["journey", "plot", "story", "characters", "development"]

  /** Some keyword of the list occurs in the lower-cased text. */
  ghost predicate Mentions(text: string, keywords: seq<string>) {
    exists k :: 0 <= k < |keywords| && Contains(Lower(text), keywords[k])
  }

  /** Python's `any(keyword in lowered for keyword in keywords)`, tried in
      list order and stopping at the first hit. */
  function AnyKeyword(lowered: string, keywords: seq<string>): (b: bool)
    ensures b <==> exists k :: 0 <= k < |keywords| && Contains(lowered, keywords[k])
  {
    if |keywords| == 0 then false
    else if Contains(lowered, keywords[0]) then true
    else
      var rest := AnyKeyword(lowered, keywords[1..]);
      assert forall k :: 1 <= k < |keywords| ==> keywords[k] == keywords[1..][k - 1];
      rest
  }

  /** `classify_review`: the category of one review text. A review is an
      Ending review exactly when it mentions an ending keyword, a Journey
      review exactly when it mentions a journey keyword and no ending keyword,
      and General otherwise. */
  function Classify(content: string): (c: Category)
    ensures c == Ending <==> Mentions(content, EndingKeywords)
    ensures c == Journey <==> !Mentions(content, EndingKeywords) && Mentions(content, JourneyKeywords)
    ensures c == General <==> !Mentions(content, EndingKeywords) && !Mentions(content, JourneyKeywords)
  {
    var lowered := Lower(content);
    if AnyKeyword(lowered, EndingKeywords) then Ending
    else if AnyKeyword(lowered, JourneyKeywords) then Journey
    else General
  }

  /** Classification ignores letter case: a text and its lower-cased form land
      in the same category. */
  lemma ClassifyIgnoresCase(content: string)
    ensures Classify(Lower(content)) == Classify(content)
  {
    LowerIdempotent(content);
  }

  /** An ending keyword wins over any journey keyword. */
  lemma EndingKeywordWins(content: string, k: nat)
    requires k < |EndingKeywords| && Contains(Lower(content), EndingKeywords[k])
    ensures Classify(content) == Ending
  {
  }
}
