/** How the stages fit together: the review table a scraper writes is what
    the merger reads, so the merged row of a scraped book is determined by the
    reviews on its page. */
module Pipeline {
  import opened Outcomes
  import opened Text
  import opened Stats
  import opened ReviewCategory
  import opened SentimentScore
  import opened ReviewFiles
  import opened Tables
  import opened BookMerge

  /** The signed scores of the page's reviews in one category, in page order. */
  function ScoresIn(analyzer: string -> ModelOutput, reviews: seq<Option<string>>, cat: Category): (r: seq<real>)
    ensures |r| <= |reviews|
    decreases |reviews|
  {
    if |reviews| == 0 then []
    else
      var content := ReviewText(reviews[0]);
      var rest := ScoresIn(analyzer, reviews[1..], cat);
      if Classify(content) == cat then [AnalyzeBert(analyzer, content).score] + rest else rest
  }

  /** Every score collected is the signed score of a review of the category. */
  lemma {:induction false} ScoresInFrom(analyzer: string -> ModelOutput, reviews: seq<Option<string>>, cat: Category)
    ensures forall x :: x in ScoresIn(analyzer, reviews, cat) ==>
              exists i :: 0 <= i < |reviews| && Classify(ReviewText(reviews[i])) == cat
                          && x == AnalyzeBert(analyzer, ReviewText(reviews[i])).score
    decreases |reviews|
  {
    if |reviews| > 0 {
      ScoresInFrom(analyzer, reviews[1..], cat);
      assert forall i :: 1 <= i < |reviews| ==> reviews[i] == reviews[1..][i - 1];
    }
  }

  /** The scraper's table has the merger's two columns, Category second and
      Confidence Score fourth. */
  lemma ScrapedTableColumns(analyzer: string -> ModelOutput, reviews: seq<Option<string>>)
    ensures HasRequiredColumns(BertTable(analyzer, reviews))
    ensures IndexOf(BertHeader, CategoryColumn) == 1 && IndexOf(BertHeader, ConfidenceColumn) == 3
  {
    assert BertHeader[1] == CategoryColumn && BertHeader[3] == ConfidenceColumn;
  }

  /** One review row counts towards a category exactly when the review was
      classified there, with its signed score as the value. */
  lemma BertRowCounts(analyzer: string -> ModelOutput, review: Option<string>, cat: Category)
    ensures var content := ReviewText(review);
            && (Counts(BertRow(analyzer, review), 1, 3, Name(cat)) <==> Classify(content) == cat)
            && CellAt(BertRow(analyzer, review), 3) == Number(AnalyzeBert(analyzer, content).score)
  {
    var content := ReviewText(review);
    var out := AnalyzeBert(analyzer, content);
    RowCounts(BertRow(analyzer, review), content, Classify(content), out.sentiment, out.score, cat);
  }

  lemma RowCounts(row: seq<Cell>, content: string, c: Category, sentiment: string, x: real, cat: Category)
    requires row == [Str(content), Str(Name(c)), Str(sentiment), Number(x)]
    ensures Counts(row, 1, 3, Name(cat)) <==> c == cat
    ensures CellAt(row, 3) == Number(x)
  {
    if Name(c) == Name(cat) {
      NameInjective(c, cat);
    }
  }

  lemma {:induction false} BertRowsValues(analyzer: string -> ModelOutput, reviews: seq<Option<string>>, cat: Category)
    ensures ValuesOf(BertRows(analyzer, reviews), 1, 3, Name(cat)) == ScoresIn(analyzer, reviews, cat)
    decreases |reviews|
  {
    if |reviews| > 0 {
      var rows := BertRows(analyzer, reviews);
      assert rows[1..] == BertRows(analyzer, reviews[1..]);
      BertRowsValues(analyzer, reviews[1..], cat);
      assert rows[0] == BertRow(analyzer, reviews[0]);
      BertRowCounts(analyzer, reviews[0], cat);
    }
  }

  /** The confidences the merger averages for a category are exactly the
      signed scores of the scraped reviews of that category. */
  lemma ScrapedValuesAreReviewScores(analyzer: string -> ModelOutput, reviews: seq<Option<string>>, cat: Category)
    ensures HasRequiredColumns(BertTable(analyzer, reviews))
    ensures CategoryValues(BertTable(analyzer, reviews), Name(cat)) == ScoresIn(analyzer, reviews, cat)
  {
    ScrapedTableColumns(analyzer, reviews);
    BertRowsValues(analyzer, reviews, cat);
  }

  /** A scaled category score: 0 with no reviews, else ten times the mean
      rounded to hundredths. */
  function ScaledScore(xs: seq<real>): (r: real)
    ensures IsHundredths(r)
    ensures |xs| > 0 ==> -0.005 <= r - 10.0 * Mean(xs) <= 0.005
    ensures (forall i :: 0 <= i < |xs| ==> -1.0 <= xs[i] <= 1.0) ==> -10.0 <= r <= 10.0
  {
    ScaledScoreBounds(xs);
    if |xs| == 0 then 0.0 else Round2(10.0 * Mean(xs))
  }

  lemma ScaledScoreBounds(xs: seq<real>)
    ensures |xs| > 0 && (forall i :: 0 <= i < |xs| ==> -1.0 <= xs[i] <= 1.0) ==>
              -10.0 <= Round2(10.0 * Mean(xs)) <= 10.0
  {
    if |xs| > 0 && (forall i :: 0 <= i < |xs| ==> -1.0 <= xs[i] <= 1.0) {
      BoundsAttained(xs);
      ScaledWithinTen(Mean(xs));
    }
  }

  /** A scaled category score of a scraped table is the scaled mean of that
      category's review scores. */
  lemma ScrapedScore(author: string, genre: string, analyzer: string -> ModelOutput,
                     reviews: seq<Option<string>>, cat: Category)
    ensures HasRequiredColumns(BertTable(analyzer, reviews))
    ensures CategoryScore(CleanerPolicy(author, genre), BertTable(analyzer, reviews), Name(cat))
              == ScaledScore(ScoresIn(analyzer, reviews, cat))
  {
    var c := BertTable(analyzer, reviews);
    ScrapedValuesAreReviewScores(analyzer, reviews, cat);
    CleanerScoreIsScaled(author, genre, c, Name(cat));
  }

  /** data_cleaner.py scores a category by its scaled mean. */
  lemma CleanerScoreIsScaled(author: string, genre: string, c: CsvContent, category: string)
    requires HasRequiredColumns(c)
    ensures CategoryScore(CleanerPolicy(author, genre), c, category) == ScaledScore(CategoryValues(c, category))
  {
  }

  /** The scraper's file name gives back the title it was written under. */
  lemma ScrapedTitle(p: Policy, folder: string, title: string)
    requires '/' !in title && ZeroWidthSpace !in title && NoEdgeSpace(title)
    requires !Contains(title, SentimentTag) && !Contains(title, CsvExtension)
    ensures BookTitle(p, Join(folder, ReviewFileName(title))) == title
  {
    var name := ReviewFileName(title);
    assert '/' !in ReviewFileSuffix;
    assert '/' !in name;
    BasenameOfJoin(folder, name);
    TitleRoundTrip(p, title);
  }

  /** Scrape a book into any folder, then merge that file with data_cleaner.py:
      the title comes back from the file name, and the new row holds the
      caller's author and genre, no My Score, and the scaled mean of each
      category's review scores. */
  lemma ScrapeThenMerge(folder: string, title: string, reviews: seq<Option<string>>,
                        analyzer: string -> ModelOutput, author: string, genre: string, master: Table)
    requires |reviews| > 0
    requires '/' !in title && ZeroWidthSpace !in title && NoEdgeSpace(title)
    requires !Contains(title, SentimentTag) && !Contains(title, CsvExtension)
    requires !HasTitle(master, title)
    ensures ScrapeToFolder(folder, title, Loaded(reviews), analyzer).Ok?
    ensures var f := ScrapeToFolder(folder, title, Loaded(reviews), analyzer).value;
            ProcessBookCsv(CleanerPolicy(author, genre), f.path, f.content, master)
              == master + [Row(Some(title), Some(author), Some(genre),
                               ScaledScore(ScoresIn(analyzer, reviews, Ending)),
                               ScaledScore(ScoresIn(analyzer, reviews, Journey)), None)]
  {
    var p := CleanerPolicy(author, genre);
    var f := ScrapeToFolder(folder, title, Loaded(reviews), analyzer).value;
    ScrapedTitle(p, folder, title);
    ScrapedScore(author, genre, analyzer, reviews, Ending);
    ScrapedScore(author, genre, analyzer, reviews, Journey);
    AppendsNewRow(p, f.path, f.content, master);
    assert Name(Ending) == "Ending" && Name(Journey) == "Journey";
    assert NewRow(p, title, f.content) == Row(Some(title), Some(author), Some(genre),
                              ScaledScore(ScoresIn(analyzer, reviews, Ending)),
                              ScaledScore(ScoresIn(analyzer, reviews, Journey)), None);
  }

  /** A file with the needed columns for a book not yet in the table appends
      that book's row. */
  lemma AppendsNewRow(p: Policy, path: string, c: CsvContent, master: Table)
    requires HasRequiredColumns(c) && !HasTitle(master, BookTitle(p, path))
    ensures ProcessBookCsv(p, path, c, master) == master + [NewRow(p, BookTitle(p, path), c)]
  {
    var r := ProcessBookCsv(p, path, c, master);
    assert r == r[..|master|] + [r[|master|]];
  }

  /** A VADER review table has no Category or Confidence Score column, so
      every merger passes over it. */
  lemma VaderTableSkipped(p: Policy, path: string, compoundOf: string -> real,
                          reviews: seq<Option<string>>, master: Table)
    ensures ProcessBookCsv(p, path, VaderTable(compoundOf, reviews), master) == master
  {
    assert CategoryColumn !in VaderHeader;
  }

  /** The first review contributes its score to its own category only. */
  lemma ScoresInCons(analyzer: string -> ModelOutput, r: Option<string>, rest: seq<Option<string>>,
                     c: Category, cat: Category)
    requires c == Classify(ReviewText(r))
    ensures ScoresIn(analyzer, [r] + rest, cat)
              == (if c == cat then [AnalyzeBert(analyzer, ReviewText(r)).score] else []) + ScoresIn(analyzer, rest, cat)
  {
    assert ([r] + rest)[1..] == rest;
  }

  /** One ending review scored 0.9 and one journey review scored 0.6 give an
      ending score of 9.0 and a journey score of 6.0. */
  lemma TwoReviewExample(analyzer: string -> ModelOutput, a: string, b: string)
    requires Classify(Strip(a)) == Ending && Classify(Strip(b)) == Journey
    requires analyzer(Truncate(Strip(a))) == ModelOutput("POSITIVE", 0.9)
    requires analyzer(Truncate(Strip(b))) == ModelOutput("POSITIVE", 0.6)
    ensures ScaledScore(ScoresIn(analyzer, [Some(a), Some(b)], Ending)) == 9.0
    ensures ScaledScore(ScoresIn(analyzer, [Some(a), Some(b)], Journey)) == 6.0
  {
    assert "POSITIVE" != "NEGATIVE" by { assert "POSITIVE"[0] != "NEGATIVE"[0]; }
    TwoReviewScores(analyzer, Some(a), Some(b));
    SingleScaled(0.9, 9.0);
    SingleScaled(0.6, 6.0);
  }

  /** With one ending review and one journey review, each category holds just
      its review's score. */
  lemma TwoReviewScores(analyzer: string -> ModelOutput, a: Option<string>, b: Option<string>)
    requires Classify(ReviewText(a)) == Ending && Classify(ReviewText(b)) == Journey
    ensures ScoresIn(analyzer, [a, b], Ending) == [AnalyzeBert(analyzer, ReviewText(a)).score]
    ensures ScoresIn(analyzer, [a, b], Journey) == [AnalyzeBert(analyzer, ReviewText(b)).score]
  {
    assert [a, b] == [a] + [b];
    assert [b] == [b] + [];
    ScoresInCons(analyzer, b, [], Journey, Ending);
    ScoresInCons(analyzer, b, [], Journey, Journey);
    ScoresInCons(analyzer, a, [b], Ending, Ending);
    ScoresInCons(analyzer, a, [b], Ending, Journey);
  }

  /** A single review score x, with 10x on the hundredths grid, scales to 10x. */
  lemma SingleScaled(x: real, y: real)
    requires y == 10.0 * x && IsHundredths(y)
    ensures ScaledScore([x]) == y
  {
    assert [x][1..] == [];
    assert Mean([x]) * 1.0 == Sum([x]);
    Round2KeepsHundredths(y);
  }
}
