/** The two sentiment back-ends and the conventions the repository wraps
    around them. The models themselves (DistilBERT through `transformers`,
    NLTK's VADER) are parameters: an analyser maps a text to a label and a
    confidence, a polarity function maps a text to VADER's compound score. */
module SentimentScore {

  /** One result of the sentiment model: its label and its confidence. */
  datatype ModelOutput = ModelOutput(sentiment: string, score: real)

  /** The number of characters handed to the transformer model. */
  const MaxModelInput: nat := 512

  /** `text[:512]`. */
  function Truncate(text: string): (r: string)
    ensures |r| <= |text| && r == text[..|r|]
    ensures |text| <= MaxModelInput ==> r == text
    ensures |text| > MaxModelInput ==> |r| == MaxModelInput
  {
    if |text| <= MaxModelInput then text else text[..MaxModelInput]
  }

  /** `analyze_sentiment_bert`: the model sees the truncated text; a NEGATIVE
      label turns the confidence into a negative score, any other label keeps
      it; the label itself is passed through. */
  function AnalyzeBert(analyzer: string -> ModelOutput, text: string): (r: ModelOutput)
    ensures r.sentiment == analyzer(Truncate(text)).sentiment
    ensures r.sentiment == "NEGATIVE" ==> r.score == -analyzer(Truncate(text)).score
    ensures r.sentiment != "NEGATIVE" ==> r.score == analyzer(Truncate(text)).score
  {
    var out := analyzer(Truncate(text));
    if out.sentiment == "NEGATIVE" then ModelOutput(out.sentiment, -out.score) else out
  }

  /** Only the first 512 characters matter: texts that agree on them get the
      same label and score. */
  lemma OnlyPrefixMatters(analyzer: string -> ModelOutput, a: string, b: string)
    requires |a| >= MaxModelInput && |b| >= MaxModelInput
    requires a[..MaxModelInput] == b[..MaxModelInput]
    ensures AnalyzeBert(analyzer, a) == AnalyzeBert(analyzer, b)
  {
  }

  /** With a model confidence in [0, 1] the signed score lies in [-1, 1], keeps
      the confidence as its magnitude, and is negative only under a NEGATIVE
      label. */
  lemma SignedScoreRange(analyzer: string -> ModelOutput, text: string)
    requires 0.0 <= analyzer(Truncate(text)).score <= 1.0
    ensures var r := AnalyzeBert(analyzer, text);
            && -1.0 <= r.score <= 1.0
            && (r.score < 0.0 ==> r.sentiment == "NEGATIVE")
            && (r.score >= 0.0 ==> r.score == analyzer(Truncate(text)).score)
            && (r.score < 0.0 ==> -r.score == analyzer(Truncate(text)).score)
  {
  }

  /** VADER's three-way label. */
  datatype Polarity = Positive | Negative | Neutral

  function PolarityName(p: Polarity): (s: string)
    ensures s == "Positive" || s == "Negative" || s == "Neutral"
  {
    match p
    case Positive => "Positive"
    case Negative => "Negative"
    case Neutral => "Neutral"
  }

  const VaderThreshold: real := 0.05

  datatype VaderOutput = VaderOutput(polarity: Polarity, compound: real)

  /** `analyze_sentiment_vader`: the compound score, returned unchanged, is
      labelled Positive above 0.05, Negative below -0.05 and Neutral in
      between (both ends included). */
  function AnalyzeVader(compoundOf: string -> real, text: string): (r: VaderOutput)
    ensures r.compound == compoundOf(text)
    ensures r.polarity == Positive <==> compoundOf(text) > VaderThreshold
    ensures r.polarity == Negative <==> compoundOf(text) < -VaderThreshold
    ensures r.polarity == Neutral <==> -VaderThreshold <= compoundOf(text) <= VaderThreshold
  {
    var c := compoundOf(text);
    if c > VaderThreshold then VaderOutput(Positive, c)
    else if c < -VaderThreshold then VaderOutput(Negative, c)
    else VaderOutput(Neutral, c)
  }

  /** The label depends on the score alone and grows with it: a higher
      compound score never gets a more negative label. */
  lemma VaderLabelMonotone(compoundOf: string -> real, a: string, b: string)
    requires compoundOf(a) <= compoundOf(b)
    ensures AnalyzeVader(compoundOf, a).polarity == Positive ==> AnalyzeVader(compoundOf, b).polarity == Positive
    ensures AnalyzeVader(compoundOf, b).polarity == Negative ==> AnalyzeVader(compoundOf, a).polarity == Negative
  {
  }
}
