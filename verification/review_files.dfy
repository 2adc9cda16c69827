/** The per-book review table the scrapers write, one row per review, and
    the three scraper entry points that produce it. Page fetching (Selenium,
    BeautifulSoup) is outside the model: a page is the list of review sections
    it holds, each with the text of its content div when it has one. */
module ReviewFiles {
  import opened Outcomes
  import opened Text
  import opened ReviewCategory
  import opened SentimentScore

  /** One CSV cell as pandas reads it back: empty, text, or a number. */
  datatype Cell = Missing | Str(s: string) | Number(x: real)

  datatype CsvContent = CsvContent(header: seq<string>, rows: seq<seq<Cell>>)

  datatype CsvFile = CsvFile(path: string, content: CsvContent)

  /** What loading a review page gives: a timeout, or the review sections in
      page order, each with its content div's text if the div exists. */
  datatype Page = TimedOut | Loaded(reviews: seq<Option<string>>)

  const ReviewFileSuffix: string := "_reviews_sentiment.csv"

  /** `f"{book_title}_reviews_sentiment.csv"`. */
  function ReviewFileName(title: string): (name: string)
    ensures EndsWith(name, ReviewFileSuffix) && StartsWith(name, title)
    ensures |name| == |title| + |ReviewFileSuffix|
  {
    title + ReviewFileSuffix
  }

  const BertHeader: seq<string> := ["Review", "Category", "Sentiment", "Confidence Score"]

  const VaderHeader: seq<string> := ["Review", "Sentiment", "Polarity"]

  const NoContent: string := "No content"

  /** The review text: the stripped div text, or "No content" without a div. */
  function ReviewText(div: Option<string>): (content: string)
    ensures div.None? ==> content == NoContent
    ensures div.Some? ==> content == Strip(div.value)
  {
    match div
    case None => NoContent
    case Some(t) => Strip(t)
  }

  /** One row of the four-column review table: the review text, its
      category as Classify decides it, the model's
      label and the signed score. */
  function BertRow(analyzer: string -> ModelOutput, div: Option<string>): (row: seq<Cell>)
    ensures |row| == 4 && row[0] == Str(ReviewText(div))
    ensures row[1] == Str("Ending") <==> Mentions(ReviewText(div), EndingKeywords)
    ensures row[1] == Str("Journey") <==>
              (!Mentions(ReviewText(div), EndingKeywords) && Mentions(ReviewText(div), JourneyKeywords))
    ensures row[1] == Str("General") <==>
              (!Mentions(ReviewText(div), EndingKeywords) && !Mentions(ReviewText(div), JourneyKeywords))
    ensures row[2] == Str(AnalyzeBert(analyzer, ReviewText(div)).sentiment)
    ensures row[3] == Number(AnalyzeBert(analyzer, ReviewText(div)).score)
  {
    var content := ReviewText(div);
    var out := AnalyzeBert(analyzer, content);
    [Str(content), Str(Name(Classify(content))), Str(out.sentiment), Number(out.score)]
  }

  function BertRows(analyzer: string -> ModelOutput, reviews: seq<Option<string>>): (rows: seq<seq<Cell>>)
    ensures |rows| == |reviews|
    ensures forall i :: 0 <= i < |reviews| ==> rows[i] == BertRow(analyzer, reviews[i])
  {
    seq(|reviews|, i requires 0 <= i < |reviews| => BertRow(analyzer, reviews[i]))
  }

  /** The BERT review table: the four-column header, then one row per review in
      page order holding the review text, its category, the model's label and
      the signed score. */
  function BertTable(analyzer: string -> ModelOutput, reviews: seq<Option<string>>): (c: CsvContent)
    ensures c.header == BertHeader && |c.rows| == |reviews|
    ensures forall i :: 0 <= i < |reviews| ==>
              var content := ReviewText(reviews[i]);
              && |c.rows[i]| == 4
              && c.rows[i][0] == Str(content)
              && c.rows[i][1] == Str(Name(Classify(content)))
              && c.rows[i][2] == Str(AnalyzeBert(analyzer, content).sentiment)
              && c.rows[i][3] == Number(AnalyzeBert(analyzer, content).score)
  {
    CsvContent(BertHeader, BertRows(analyzer, reviews))
  }

  /** Why `scrape_goodreads` in ScrapeSentiment_Function.py fails; the caller
      sees either cause wrapped in a RuntimeError. */
  datatype ScrapeCause = PageLoadTimeout | NoReviewsFound
  datatype ScrapeError = RuntimeError(cause: ScrapeCause)

  const DefaultSaveFolder: string := "/Users/25rao/PycharmProjects/Project4_Books/CSV"

  /** `scrape_goodreads` of ScrapeSentiment_Function.py: on success the file
      `<save_folder>/<title>_reviews_sentiment.csv` holding the review table;
      a timeout or a page without reviews writes nothing and fails. */
  function ScrapeToFolder(saveFolder: string, title: string, page: Page,
                          analyzer: string -> ModelOutput): (r: Result<CsvFile, ScrapeError>)
    ensures page.TimedOut? <==> r == Err(RuntimeError(PageLoadTimeout))
    ensures page.Loaded? && |page.reviews| == 0 <==> r == Err(RuntimeError(NoReviewsFound))
    ensures r.Ok? ==> && r.value.path == Join(saveFolder, ReviewFileName(title))
                      && r.value.content == BertTable(analyzer, page.reviews)
                      && |r.value.content.rows| > 0
  {
    match page
    case TimedOut => Err(RuntimeError(PageLoadTimeout))
    case Loaded(reviews) =>
      if |reviews| == 0 then Err(RuntimeError(NoReviewsFound))
      else Ok(CsvFile(Join(saveFolder, ReviewFileName(title)), BertTable(analyzer, reviews)))
  }

  const SheetSaveFolder: string := "./data/my_rawdata"

  /** `scrape_goodreads` of Sheet_Sentiment_Scraper.py: the same table under
      ./data/my_rawdata; a timeout or an empty page is reported and skipped,
      so nothing is written. */
  function SheetScrape(title: string, page: Page, analyzer: string -> ModelOutput): (r: Option<CsvFile>)
    ensures r.None? <==> page.TimedOut? || |page.reviews| == 0
    ensures r.Some? ==> && r.value.path == Join(SheetSaveFolder, ReviewFileName(title))
                        && r.value.content == BertTable(analyzer, page.reviews)
  {
    match page
    case TimedOut => None
    case Loaded(reviews) =>
      if |reviews| == 0 then None
      else Some(CsvFile(Join(SheetSaveFolder, ReviewFileName(title)), BertTable(analyzer, reviews)))
  }

  /** The VADER review table of easy.py: header Review, Sentiment, Polarity
      and one row per review in page order. */
  function VaderTable(compoundOf: string -> real, reviews: seq<Option<string>>): (c: CsvContent)
    ensures c.header == VaderHeader && |c.rows| == |reviews|
    ensures forall i :: 0 <= i < |reviews| ==>
              var content := ReviewText(reviews[i]);
              var v := AnalyzeVader(compoundOf, content);
              c.rows[i] == [Str(content), Str(PolarityName(v.polarity)), Number(v.compound)]
  {
    CsvContent(VaderHeader, seq(|reviews|, i requires 0 <= i < |reviews| =>
      var content := ReviewText(reviews[i]);
      var v := AnalyzeVader(compoundOf, content);
      [Str(content), Str(PolarityName(v.polarity)), Number(v.compound)]))
  }

  /** `scrape_goodreads` of easy.py: the VADER table in the default folder;
      a timeout or an empty page writes nothing. */
  function VaderScrape(title: string, page: Page, compoundOf: string -> real): (r: Option<CsvFile>)
    ensures r.None? <==> page.TimedOut? || |page.reviews| == 0
    ensures r.Some? ==> && r.value.path == Join(DefaultSaveFolder, ReviewFileName(title))
                        && r.value.content == VaderTable(compoundOf, page.reviews)
  {
    match page
    case TimedOut => None
    case Loaded(reviews) =>
      if |reviews| == 0 then None
      else Some(CsvFile(Join(DefaultSaveFolder, ReviewFileName(title)), VaderTable(compoundOf, reviews)))
  }

  /** `start_scraping` of easy.py: an empty URL or title is refused before
      any page is fetched; otherwise the URL's page is scraped. */
  function StartScraping(url: string, title: string, fetch: string -> Page,
                         compoundOf: string -> real): (r: Option<CsvFile>)
    ensures url == "" || title == "" ==> r.None?
    ensures r.Some? ==> && !fetch(url).TimedOut? && |fetch(url).reviews| > 0
                        && r.value.path == Join(DefaultSaveFolder, ReviewFileName(title))
                        && r.value.content == VaderTable(compoundOf, fetch(url).reviews)
    ensures url != "" && title != "" && fetch(url).Loaded? && |fetch(url).reviews| > 0 ==> r.Some?
  {
    if url == "" || title == "" then None else VaderScrape(title, fetch(url), compoundOf)
  }
}
