# Book_AI in Dafny

Book_AI scrapes Goodreads reviews and scores each one for sentiment. It files
each review under a category: the book's ending, its journey, or general. It
then merges the per-book review tables into one master table. That table has
one row per book: title, author, genre, an ending score, a journey score and
the reader's own "My Score". From the master table it trains a classifier
that predicts My Score for new books.

This project models the deterministic data path of that pipeline and proves
what it does. Each stage is modelled as pure functions over immutable
datatypes.

- **Reviews.** Each review is classified by keywords, and the model's
  confidence is turned into a signed score. The VADER variant labels its
  compound score instead.
- **Scrapers.** Each scraper writes its review table as
  `<title>_reviews_sentiment.csv`. The sheet-driven scraper reads its book
  list from a CSV file.
- **Per-book merge.** One review table becomes one master-table row. There
  are three variants: `data_cleaner.py`, `data_reframing.py` and
  `Extra/data_frames.py`. They share one definition parameterised by a
  `Policy`.
- **Batch drivers.** Each driver starts from the existing file, merges a
  folder, drops rows without a title, sorts by title and writes. For
  `data_reframing.py` that includes its reload pass.
- **Prediction.** scikit-learn's `LabelEncoder` is modelled as the scripts
  use it: fit, transform, and the two ways of handling unseen labels. The
  target check and the two prediction scripts are modelled too; the
  classifier itself is a parameter.

Modules, one per file:

- **Low-level helpers.** `Outcomes` holds Option and Result. `Text` holds
  `strip`, `replace`, `in`, `lower`, `os.path.join` and `basename`.
  `StringOrder` is the lexicographic order. `Stats` holds sum, mean and
  `round(x, 2)`.
- **Reviews and scraping.**
  - `ReviewCategory` is `classify_review`.
  - `SentimentScore` holds the two sentiment conventions.
  - `ReviewFiles` holds the review-table layout and the three scrapers.
  - `BookList` is `process_books_from_csv`.
- **Tables and merging.** `Tables` is the master table: its CSV round trip,
  `notna` and `sort_values`. `BookMerge` is `clean_text`,
  `process_book_csv` and the folder loop. `BatchRuns` holds the three
  drivers.
- **Prediction and end to end.** `LabelEncoding` is the encoder and
  `Predictor` holds the two prediction scripts. `Pipeline` connects a
  scrape to the merge.

Things outside the program become parameters:

- **The sentiment models.** The DistilBERT pipeline is a function from text
  to (label, confidence). VADER is a function from text to its compound
  score.
- **The web.** A loaded page is the list of its review sections, each
  holding the text of its content div when it has one. The network is a
  function from a URL to such a page.
- **The filesystem.** A directory listing is a sequence of (file name,
  parsed table) entries. The existing master file is an optional sequence
  of lines.
- **The classifier.** The random forest, with model.py's seeded
  train/test split, is a function from training examples to a classifier.

pandas' NaN is `None` throughout. Writing a table turns a missing text cell
into an empty field. Reading it back turns pandas' default NaN strings into
`None`; those are the 19 strings in `Tables.NullMarkers`, the empty field
among them.

## Model

| member | source | states |
|---|---|---|
| Text.Strip | data_cleaner.py:6 | `strip()` leaves no whitespace (Python's `isspace` set) at either end, and is never longer than its input |
| Text.StripIsTrimmedPiece | data_cleaner.py:6 | the stripped text is a contiguous piece of the input, with only whitespace cut on each side |
| Text.StripKeepsChars | data_cleaner.py:6 | every character `strip` keeps occurs in the input |
| Text.StripKeepsUntrimmed | data_cleaner.py:6 | a text with no edge whitespace is its own strip |
| Text.StripIgnoresPadding | data_cleaner.py:6 | whitespace added on either side never survives `strip` |
| Text.RemoveChar | data_cleaner.py:6 | `replace` of the zero-width space U+200B by nothing leaves exactly the characters other than the removed one |
| Text.RemoveCharAbsent | data_cleaner.py:6 | removing a character that does not occur changes nothing |
| Text.RemoveCharAppend | data_cleaner.py:6 | character removal distributes over concatenation |
| Text.RemoveAll | data_cleaner.py:32 | `str.replace(p, '')` never lengthens the text, keeps only characters of the text, and is strictly shorter whenever the pattern occurs |
| Text.RemoveAllAbsent | data_cleaner.py:32 | removing a pattern that does not occur changes nothing |
| Text.RemoveAllKeepsFront | data_cleaner.py:32 | with no occurrence in the front part or straddling the join, removal only acts on the back part |
| Text.RemoveAllCutsOccurrence | data_cleaner.py:32 | when no occurrence of the pattern starts inside the text before it, an occurrence is cut out whole, the text before it is kept, and removal goes on after it |
| Text.ContainsAt | ScrapeSentiment_Function.py:30 | `k in s` holds when the keyword sits at some position of the text |
| Text.ContainsAppendChar | data_cleaner.py:32 | appending a character other than a pattern's last cannot create an occurrence of that pattern |
| Text.Lower | ScrapeSentiment_Function.py:30 | `lower()` keeps the length, moves each of A-Z to its lower-case letter and leaves every other character |
| Text.LowerIdempotent | ScrapeSentiment_Function.py:30 | lower-casing twice is lower-casing once |
| Text.Join | ScrapeSentiment_Function.py:85 | `os.path.join` ends with the file name; an absolute name is the result; otherwise the result starts with the folder and is folder + name when the folder is empty or ends in '/', and folder + '/' + name otherwise |
| Text.Basename | data_cleaner.py:31 | `os.path.basename` is a suffix of the path containing no '/', preceded in the path by a '/' when shorter than it, and the whole path when it has no '/' |
| Text.BasenameOfJoin | data_cleaner.py:31 | the base name of a file joined into any folder is the file name |
| StringOrder.LessTotal | data_cleaner.py:72 | the title order compares any two distinct titles |
| StringOrder.LessTransitive | data_cleaner.py:72 | the title order is transitive |
| StringOrder.LessAsymmetric | data_cleaner.py:72 | the title order is asymmetric |
| Stats.Mean | data_cleaner.py:19-20 | the mean times the count is the sum, and it lies between the smallest and largest value |
| Stats.BoundsAttained | data_cleaner.py:19-20 | the minimum and maximum are values of the list and bound every value |
| Stats.Round2 | data_cleaner.py:27-28 | `round(x, 2)` is a multiple of 0.01 within 0.005 of x, with ties going to the even hundredth |
| Stats.Round2KeepsHundredths | data_cleaner.py:27-28 | a value already on the hundredths grid is unchanged by rounding |
| Stats.Round2Zero | data_cleaner.py:23-28 | rounding 0 gives 0 |
| Stats.Round2Idempotent | data_cleaner.py:27-28 | rounding twice is rounding once |
| Stats.Round2WithinGrid | data_cleaner.py:27-28 | rounding stays between any two grid points that bound the input |
| ReviewCategory.Name | ScrapeSentiment_Function.py:29-35 | the category column holds "Ending", "Journey" or "General" |
| ReviewCategory.NameInjective | ScrapeSentiment_Function.py:29-35 | distinct categories are written as distinct strings |
| ReviewCategory.AnyKeyword | ScrapeSentiment_Function.py:30 | `any(keyword in lowered ...)` holds exactly when some keyword of the list occurs in the text |
| ReviewCategory.Classify | ScrapeSentiment_Function.py:29-35 | Ending iff an ending keyword occurs in the lower-cased text; Journey iff none does but a journey keyword does; General iff neither list matches |
| ReviewCategory.ClassifyIgnoresCase | ScrapeSentiment_Function.py:30-32 | a text and its lower-cased form get the same category |
| ReviewCategory.EndingKeywordWins | Extra/Iteration_my_code/Sheet_Sentiment_Scraper.py:27-33 | any ending keyword makes the review an Ending review, whatever journey keywords it also holds |
| SentimentScore.Truncate | ScrapeSentiment_Function.py:18 | `text[:512]` is the text's first min(512, length) characters |
| SentimentScore.AnalyzeBert | ScrapeSentiment_Function.py:17-25 | the label is the model's; the score is the model's confidence, negated exactly when the label is NEGATIVE; the model sees the truncated text |
| SentimentScore.OnlyPrefixMatters | Extra/Iteration_my_code/Sheet_Sentiment_Scraper.py:16-24 | two texts that agree on their first 512 characters get the same label and score |
| SentimentScore.SignedScoreRange | ScrapeSentiment_Function.py:22-25 | a confidence in [0, 1] gives a signed score in [-1, 1], negative only under a NEGATIVE label, with the confidence as magnitude |
| SentimentScore.PolarityName | Extra/easy.py:25-30 | the sentiment column holds "Positive", "Negative" or "Neutral" |
| SentimentScore.AnalyzeVader | Extra/easy.py:22-30 | Positive iff compound > 0.05, Negative iff compound < -0.05, Neutral iff it lies in [-0.05, 0.05]; the compound score is returned unchanged |
| SentimentScore.VaderLabelMonotone | Extra/easy.py:25-30 | a higher compound score never gets a more negative label |
| ReviewFiles.ReviewFileName | ScrapeSentiment_Function.py:85 | the file name is the title followed by "_reviews_sentiment.csv", so its length is the title's plus the suffix's |
| ReviewFiles.ReviewText | ScrapeSentiment_Function.py:93-94 | the review text is the stripped div text, or "No content" when the div is missing |
| ReviewFiles.BertRow | ScrapeSentiment_Function.py:92-97 | a row has four cells: the review text; "Ending" iff an ending keyword occurs, "Journey" iff none does but a journey keyword does, "General" iff no keyword of either list does; the model label; the signed score |
| ReviewFiles.BertRows | ScrapeSentiment_Function.py:92-97 | one row per review section, in page order |
| ReviewFiles.BertTable | ScrapeSentiment_Function.py:90-97 | the header is Review, Category, Sentiment, Confidence Score; row i holds review i's text, its category name, the model label and the signed score |
| ReviewFiles.ScrapeToFolder | ScrapeSentiment_Function.py:39-102 | a timeout is a RuntimeError wrapping the timeout, an empty page a RuntimeError wrapping "no reviews"; otherwise the file `<folder>/<title>_reviews_sentiment.csv` holds the review table, with at least one row |
| ReviewFiles.SheetScrape | Extra/Iteration_my_code/Sheet_Sentiment_Scraper.py:36-98 | nothing is written exactly when the page timed out or held no reviews; otherwise the same table is written under ./data/my_rawdata |
| ReviewFiles.VaderTable | Extra/easy.py:89-100 | the header is Review, Sentiment, Polarity; row i holds review i's text, its VADER label and its compound score |
| ReviewFiles.VaderScrape | Extra/easy.py:33-105 | nothing is written exactly when the page timed out or held no reviews; otherwise the VADER table is written to the fixed folder |
| ReviewFiles.StartScraping | Extra/easy.py:108-116 | an empty URL or title writes nothing; a loaded page with reviews is always written |
| BookList.BooksFrom | Extra/Iteration_my_code/Sheet_Sentiment_Scraper.py:106-113 | every book comes from a row with at least two fields, as (row[0], row[1]), and there are no more books than rows |
| BookList.BooksFromComplete | Extra/Iteration_my_code/Sheet_Sentiment_Scraper.py:106-113 | every row with at least two fields gives its book |
| BookList.BooksFromAppend | Extra/Iteration_my_code/Sheet_Sentiment_Scraper.py:106-113 | books keep the order of their rows |
| BookList.ParseBookList | Extra/Iteration_my_code/Sheet_Sentiment_Scraper.py:103-106 | the header row is skipped; an empty file names no books |
| BookList.ShortRowIgnored | Extra/Iteration_my_code/Sheet_Sentiment_Scraper.py:107-109 | a row with fewer than two fields changes nothing, wherever it sits |
| BookList.ScrapeAll | Extra/Iteration_my_code/Sheet_Sentiment_Scraper.py:110-113 | every written file comes from some book of the list, and every book whose page loads with reviews has its file written |
| BookList.ScrapeAllAppend | Extra/Iteration_my_code/Sheet_Sentiment_Scraper.py:110-113 | files are written in the order of their books |
| BookList.ProcessBooksFromCsv | Extra/Iteration_my_code/Sheet_Sentiment_Scraper.py:101-117 | a file with no data rows writes nothing; every written file is the scrape of a data row with at least two fields, and every such row whose page loads with reviews has its file written |
| Tables.ReadWriteCell | data_cleaner.py:57 | a text cell survives a write and a read iff it is missing or not a NaN string |
| Tables.WriteReadCell | data_reframing.py:80-83 | a written field is written back unchanged iff it is not a NaN string other than the empty field |
| Tables.Persist | data_cleaner.py:75 | `to_csv` writes one line per row, in order |
| Tables.Load | data_cleaner.py:57 | `read_csv` reads one row per line, in order |
| Tables.PersistPermutes | data_cleaner.py:72-75 | two tables holding the same rows, each as often, are written as files holding the same lines, each as often, so reordering rows before `to_csv` only reorders lines |
| Tables.DropNull | data_cleaner.py:69 | `notna()` keeps exactly the titled rows, each as often as it occurs in the table |
| Tables.DropNullAppend | data_cleaner.py:69 | the filter keeps the order of rows: filtering a concatenation is concatenating the filtered parts |
| Tables.DropNullSingle | data_cleaner.py:69 | a single row is kept exactly when it has a title |
| Tables.DropNullKeeps | data_cleaner.py:69 | a table without missing titles is unchanged |
| Tables.DropNullUnique | data_cleaner.py:69 | dropping untitled rows keeps titles unique |
| Tables.TitleLeTotal | data_cleaner.py:72 | the title order with NaN last compares any two rows |
| Tables.TitleLeTransitive | data_cleaner.py:72 | the title order with NaN last is transitive |
| Tables.SortByTitle | data_cleaner.py:72 | `sort_values('Book Title')` gives a permutation sorted by title with NaN titles last |
| Tables.SortKeepsRows | data_cleaner.py:72 | sorting keeps exactly the same rows and introduces no missing title |
| Tables.SortKeepsSorted | data_cleaner.py:72 | a sorted table is unchanged by sorting |
| Tables.SortIdempotent | data_cleaner.py:72 | sorting twice is sorting once |
| Tables.SortedOrderIsUnique | data_cleaner.py:72 | two sorted permutations of a table with unique titles are equal, so the sort's tie-breaking does not matter |
| Tables.SortUnique | data_cleaner.py:72 | sorting keeps titles unique |
| BookMerge.CleanText | data_cleaner.py:4-6 | `clean_text` leaves no zero-width space and no edge whitespace |
| BookMerge.CleanTextIdempotent | data_cleaner.py:4-6 | cleaning twice is cleaning once |
| BookMerge.CleanTextKeepsClean | data_cleaner.py:4-6 | a title without zero-width spaces or edge whitespace is its own cleaned form |
| BookMerge.CleanTextIgnoresPadding | data_reframing.py:5-6 | whitespace and zero-width spaces around a title do not change its cleaned form |
| BookMerge.ZeroWidthVariantSharesKey | data_reframing.py:5-6 | a title with a space and U+200B in front and a space behind cleans to the bare title, so both spellings are one book to a cleaning variant |
| BookMerge.TitleFromName | data_cleaner.py:31-32 | a cleaning variant's title has no zero-width space and no edge whitespace |
| BookMerge.StripNamingShape | data_cleaner.py:32 | removing the two naming pieces never lengthens the name or adds a character, shortens any name holding "_reviews_sentiment", and leaves a name holding neither piece unchanged |
| BookMerge.BookTitleOfEntry | data_cleaner.py:31-32 | the title of a folder entry depends on the entry's name alone, whatever the folder |
| BookMerge.StripNamingInverts | data_cleaner.py:32 | removing "_reviews_sentiment" and ".csv" from `<title>_reviews_sentiment.csv` gives back the title, for a title containing neither |
| BookMerge.TitleRoundTrip | data_cleaner.py:31-32 | the merger recovers the title the scraper named the file by, when the title is already clean and contains neither removed piece |
| BookMerge.TrailingZeroWidthCleaned | data_cleaner.py:32 | a trailing zero-width space is invisible to the cleaning variants |
| BookMerge.ZeroWidthSplitsOnlyRawTitles | Extra/data_frames.py:24-25 | without cleaning, "Foo" and "Foo" followed by U+200B are two different titles; with cleaning, both are "Foo" |
| BookMerge.IndexOf | data_cleaner.py:19-20 | a column is found at its first position in the header |
| BookMerge.ValuesOf | data_cleaner.py:19-20 | the category's confidences are exactly the numeric Confidence Score cells of rows whose Category cell is the name; there are none exactly when no row counts |
| BookMerge.ValuesOfAppend | data_cleaner.py:19-20 | the values keep row order: the values of a concatenation are the values of the parts, one after the other |
| BookMerge.ValuesOfSingle | data_cleaner.py:19-20 | a single row gives its Confidence Score exactly when it counts towards the category |
| BookMerge.CategoryScore | data_cleaner.py:19-28 | an empty category scores exactly 0; otherwise the score is round(10 × mean, 2) when scaling and the raw mean when not |
| BookMerge.ScoreBounds | data_cleaner.py:19-28 | the mean lies between the category's extreme confidences; for confidences in [-1, 1] a scaled score lies in [-10, 10] and a raw one in [-1, 1] |
| BookMerge.NewRow | data_cleaner.py:40-47 | the new row holds the title, the policy's Author, Genre and My Score, and the two category scores |
| BookMerge.ProcessBookCsv | data_cleaner.py:8-51 | a file lacking either column leaves the master unchanged; a title already present leaves it unchanged; otherwise exactly one row is appended after the unchanged rows; afterwards the title is present |
| BookMerge.MergeTwiceIsOnce | data_cleaner.py:35-37 | merging the same file twice is merging it once |
| BookMerge.MergeKeepsUnique | data_cleaner.py:35-50 | merging never gives a title a second row |
| BookMerge.MergeStep | data_cleaner.py:64-66 | a file whose name does not end in ".csv" is passed over; otherwise the step is one merge |
| BookMerge.MergeAll | data_cleaner.py:63-66 | the loop keeps the starting rows in front and appends at most one row per entry |
| BookMerge.MergeAllAdds | data_cleaner.py:63-66 | each appended row has the policy's Author, Genre and My Score and the title of a ".csv" entry |
| BookMerge.MergeAllAddsOnlyNew | data_cleaner.py:35-37 | no appended row shares its title with a starting row |
| BookMerge.FirstListedWins | data_cleaner.py:35-50 | of several files for one book, the first listed ".csv" file with both columns decides the book's only row |
| BookMerge.MergeAllAppend | data_cleaner.py:63-66 | merging two listings one after the other is merging their concatenation |
| BookMerge.MergeAllKeepsTitleOut | data_cleaner.py:35-37 | a listing with no usable file for a title leaves that title out |
| BookMerge.MergeAllUnique | data_cleaner.py:63-66 | titles unique on load stay unique through the loop |
| BookMerge.CsvEntries | data_cleaner.py:64 | the ".csv" filter keeps exactly the entries whose name ends in ".csv", and never more entries than it is given |
| BookMerge.CsvEntriesAppend | data_cleaner.py:64 | the filter keeps listing order: filtering a concatenation is concatenating the filtered parts |
| BookMerge.CsvEntriesSingle | data_cleaner.py:64 | a single entry is kept exactly when its name ends in ".csv" |
| BookMerge.OnlyCsvMerged | data_cleaner.py:63-66 | dropping every non-".csv" entry first gives the same table |
| BookMerge.MergeAllCovers | data_cleaner.py:63-66 | every ".csv" entry with both columns has its book in the merged table |
| BookMerge.MergeAllNothingNew | data_cleaner.py:63-66 | a folder whose books are all present changes nothing |
| BatchRuns.Initial | data_cleaner.py:55-60 | a missing output file starts an empty table; an existing one is read line by line, one row per line |
| BatchRuns.Prepare | data_cleaner.py:68-72 | the cleaned-up table has no missing title, is sorted by title, holds each titled row as often as the table does and no untitled row, and keeps unique titles unique |
| BatchRuns.PrepareKeepsClean | data_cleaner.py:68-72 | a table that is already clean and sorted is unchanged |
| BatchRuns.PersistClean | data_cleaner.py:75 | writing a clean table gives lines sorted by title, carrying the rows' titles |
| BatchRuns.Written | data_cleaner.py:68-75 | the written file is sorted by title and has exactly one line per titled row of the table |
| BatchRuns.WrittenCounts | data_cleaner.py:68-75 | each written line occurs as often as the titled rows it comes from: the file is the titled rows' lines, reordered |
| BatchRuns.WrittenRows | data_cleaner.py:68-75 | every written line is a titled row of the table, and unique titles give distinct lines |
| BatchRuns.WrittenCovers | data_cleaner.py:68-75 | every titled row of the table is written as a line |
| BatchRuns.WrittenCoversEntries | data_cleaner.py:62-75 | every ".csv" entry with both columns has its book's title on a written line |
| BatchRuns.CleanerTable | data_cleaner.py:53-72 | the table before the write has no missing title, is sorted by title, and holds the book of every ".csv" entry with both columns |
| BatchRuns.ProcessAllBooks | data_cleaner.py:53-77 | the written file is sorted by title; its lines are exactly the titled rows of the merged table (from the existing file or from ".csv" entries with the given author and genre); every ".csv" entry with both columns has its book written; there is one line per titled merged row; unique titles on load stay distinct |
| BatchRuns.ProcessAllBooksCounts | data_cleaner.py:53-75 | each titled row of the merged table is written as often as it occurs there, so two identical lines of the existing file are written twice |
| BatchRuns.LoadPersist | data_cleaner.py:57 | a table whose cells survive their CSV round trip reads back as written |
| BatchRuns.PrepareKeepsTitle | data_cleaner.py:68-72 | the clean-up keeps every title |
| BatchRuns.CoveredAfterPrepare | data_cleaner.py:62-72 | the book of every ".csv" entry with both columns is still in the table after the clean-up |
| BatchRuns.CleanerRerunStable | data_cleaner.py:53-77 | rerunning over the same folder from the file just written writes the same file, when the table survives its own round trip |
| BatchRuns.ReframingFirstWrite | data_reframing.py:57-77 | the first write is sorted by title; its lines are the titled rows of the merged table, one line per titled row; every ".csv" entry with both columns has its book written |
| BatchRuns.ReframingFirstWriteCounts | data_reframing.py:57-77 | each titled row of the merged table is in the first write as often as it occurs there |
| BatchRuns.ReloadPass | data_reframing.py:79-83 | the reload pass writes lines sorted by title, one per line of the file whose title reads back as a title |
| BatchRuns.ReloadPassCounts | data_reframing.py:79-83 | each titled row read back is written as often as it occurs in the file |
| BatchRuns.ReframingRun | data_reframing.py:57-83 | the final file is sorted by title, has one line per line of the first write whose title does not read as NaN, and holds as a set exactly those lines, each as read and written again |
| BatchRuns.ReframingRunCounts | data_reframing.py:57-83 | each titled row of the first write read back is in the final file as often as it occurs there |
| BatchRuns.ReloadPassRows | data_reframing.py:79-83 | as a set, the reload pass keeps exactly the lines whose title does not read as NaN, each as it is read and written again; ReloadPass and ReloadPassCounts give the number of each |
| BatchRuns.ReloadPassCanonical | data_reframing.py:79-83 | after a reload pass no title is a NaN string, Author and Genre survive another round trip, and the lines are sorted |
| BatchRuns.ReloadPassKeepsCanonical | data_reframing.py:79-83 | a canonical file is unchanged by the reload pass |
| BatchRuns.ReloadPassFixedIffCanonical | data_reframing.py:79-83 | the reload pass leaves a file unchanged iff it is canonical |
| BatchRuns.ReloadPassSettles | data_reframing.py:79-83 | a second reload pass changes nothing more |
| BatchRuns.ReframingCellsSettled | data_reframing.py:40-47 | rows read from a file and new rows with empty Author and Genre all survive another round trip in those columns |
| BatchRuns.ReframingReloadRedundant | data_reframing.py:57-83 | when no merged title is a NaN string, the second write equals the first |
| BatchRuns.WrittenCanonical | data_reframing.py:70-77 | writing a table without NaN-string titles and with settled Author and Genre gives a canonical file |
| BatchRuns.MarkerTitleDropped | data_reframing.py:79-83 | no line of the final file has a title that reads as NaN |
| BatchRuns.FramesTable | Extra/data_frames.py:55-62 | the table before the write is the merged table, permuted and sorted by title |
| BatchRuns.FramesUntitledLast | Extra/data_frames.py:61-62 | no row is dropped, and untitled rows sort after every titled row |
| BatchRuns.FramesRun | Extra/data_frames.py:61-65 | line i of the file is row i of the sorted table as written, and a line is in the file iff it is the write of some merged row |
| LabelEncoding.InsertSorted | model_b.py:15-16 | inserting keeps a strictly sorted list and adds exactly the one label |
| LabelEncoding.SortedDistinct | model_b.py:15-16 | the distinct texts in strictly ascending order, with the same members |
| LabelEncoding.StrictlySortedUnique | model_b.py:15-16 | two strictly sorted lists with the same members are equal |
| LabelEncoding.Present | model_b.py:15-16 | the text labels present are exactly the non-NaN labels |
| LabelEncoding.Fit | model_b.py:15-16 | `classes_` holds exactly the training labels, once each, texts in ascending order and NaN after them |
| LabelEncoding.FitDependsOnlyOnMembers | model_b.py:15-16 | fitting depends only on which labels occur |
| LabelEncoding.Code | model_b.py:44-45 | a label's code is a position holding it with no later position holding it |
| LabelEncoding.CodeIsPosition | model_b.py:15-16 | in a duplicate-free class list, a label's code is its index |
| LabelEncoding.Transform | model_b.py:15-16 | one code per label, each pointing back at its label |
| LabelEncoding.FitTransformFaithful | model_b.py:15-16 | fit then transform: each code points back at its label, two codes are equal iff their labels are, and the order of texts is kept |
| LabelEncoding.Distinct | model_b.py:34 | `unique()` lists each label once, lists every label, and lists them in order of first appearance |
| LabelEncoding.FirstAt | model_b.py:34 | the first position of a label holds it and no earlier position does |
| LabelEncoding.Unseen | model_b.py:35-36 | the appended labels are exactly the loop's labels not found in the classes, never more than the loop has |
| LabelEncoding.UnseenAppend | model_b.py:34-36 | the unseen labels keep the loop's order: those of a concatenation are those of the parts, one after the other |
| LabelEncoding.UnseenSingle | model_b.py:35-36 | a single label is appended exactly when it is not found |
| LabelEncoding.ExtendLoop | model_b.py:34-41 | the growing loop keeps the classes in front, appends at most one class per label, and ends with every label a class |
| LabelEncoding.ExtendLoopAppendsUnseen | model_b.py:34-41 | for a duplicate-free label list (what `unique()` gives), the loop that grows the classes gives the original classes followed by the list's labels not found in them, in list order |
| LabelEncoding.Extend | model_b.py:34-41 | the fitted classes stay in front; the appended labels are the distinct unseen input labels; every input label is then a class |
| LabelEncoding.UnseenNoDuplicates | model_b.py:34-41 | each unseen label is appended once |
| LabelEncoding.ExtendNoDuplicates | model_b.py:34-41 | the update keeps the class list duplicate-free when NaN is not both fitted and in the input |
| LabelEncoding.ExtendKeepsCodes | model_b.py:34-45 | a label found in the fitted classes keeps its code after the update |
| LabelEncoding.ExtendUnseenCode | model_b.py:34-45 | an unseen label gets a code past every fitted class |
| LabelEncoding.EncodeWithUnknown | Extra/Iteration_my_code/model.py:47-59 | a known label keeps the classes and encodes to a position holding it; an unknown label appends one "unknown" class and encodes to that last position |
| Predictor.AuthorLabels | model_b.py:15 | the Author column, row by row |
| Predictor.GenreLabels | model_b.py:16 | the Genre column, row by row |
| Predictor.FitEncoders | model_b.py:13-16 | every training author and genre is a class of its fitted encoder |
| Predictor.Examples | model_b.py:19-20 | each example holds its row's scores, its author's and genre's codes (pointing back at them) and My Score |
| Predictor.TrainingSet | model_b.py:13-28 | InvalidTarget iff some My Score is missing, 0 or outside [-5, 5]; otherwise NoTrainingRows iff the table is empty; otherwise the fitted encoders and the examples |
| Predictor.FreshScoresRejected | model_b.py:22-24 | a row with no My Score (data_cleaner.py) or My Score 0 (data_reframing.py) makes training fail with InvalidTarget |
| Predictor.PredictOne | model_b.py:44-51 | a prediction keeps its input row, encodes author and genre to positions holding them, and is the classifier's output on those features |
| Predictor.PredictRows | model_b.py:43-51 | one prediction per input row, in order |
| Predictor.PredictAndUpdate | model_b.py:7-53 | training errors are passed on; after a successful training an input with no rows fails with NoInputRows, as `predict` refuses zero samples; otherwise each input row is predicted with the extended encoders and the classifier trained on the training examples |
| Predictor.PredictionCodesAgree | model_b.py:34-45 | an input author or genre text seen in training gets its training code; an unseen author gets a code past every training code |
| Predictor.TestSize | Extra/Iteration_my_code/model.py:28 | the test set has ceil(n / 5) rows |
| Predictor.PredictNewBook | Extra/Iteration_my_code/model.py:16-70 | InvalidTarget iff some My Score fails the check; NoTrainingRows iff all pass but the table has at most one row; otherwise the trained classifier's output on the new book's scores and codes |
| Predictor.UnknownBookCodes | Extra/Iteration_my_code/model.py:42-70 | an author and genre not in the table are encoded one past each encoder's fitted classes |
| Pipeline.ScrapedTableColumns | data_cleaner.py:14 | a scraped review table has both columns the merger needs, Category second and Confidence Score fourth |
| Pipeline.ScoresIn | ScrapeSentiment_Function.py:92-97 | a category collects at most one score per review |
| Pipeline.ScoresInFrom | ScrapeSentiment_Function.py:92-97 | every collected score is the signed score of a review classified in that category |
| Pipeline.ScaledScore | data_cleaner.py:23-28 | a scaled score is a multiple of 0.01 within 0.005 of ten times the mean, and lies in [-10, 10] when every score lies in [-1, 1] |
| Pipeline.BertRowCounts | data_cleaner.py:19-20 | a scraped row counts towards a category iff its review was classified there, with its signed score as the value |
| Pipeline.BertRowsValues | data_cleaner.py:19-20 | the confidences the merger reads for a category are the signed scores of that category's reviews, in page order |
| Pipeline.ScrapedValuesAreReviewScores | data_cleaner.py:19-20 | for a scraped table, the merger's category values are the scores of the reviews classified there |
| Pipeline.ScrapedScore | data_cleaner.py:19-28 | data_cleaner.py's score for a scraped category is the scaled mean of its reviews' scores, or 0 without reviews |
| Pipeline.ScrapedTitle | data_cleaner.py:31-32 | the scraper's file path gives back the title it was written under |
| Pipeline.ScrapeThenMerge | ScrapeSentiment_Function.py:85-97 | scraping a book then merging its file appends a row with the title, the caller's author and genre, no My Score, and the scaled mean scores of its Ending and Journey reviews |
| Pipeline.VaderTableSkipped | data_cleaner.py:14-16 | every merger passes over a VADER table, since it lacks the Category column |
| Pipeline.ScoresInCons | ScrapeSentiment_Function.py:92-97 | the first review adds its score to its own category only |
| Pipeline.TwoReviewScores | data_cleaner.py:19-20 | with one Ending and one Journey review, each category holds just its review's score |
| Pipeline.TwoReviewExample | data_cleaner.py:19-28 | an Ending review scored 0.9 and a Journey review scored 0.6 give scores 9.0 and 6.0 |

## Left out

- Page fetching is left out: Selenium, the web driver, BeautifulSoup and easy.py's "Show more reviews" click loop. This is browser and network I/O. A page is an input: its review sections, each with its content-div text when present.
- The tkinter message boxes and the print statements are left out. They only report and change no data.
- Other exceptions inside `scrape_goodreads` are not modelled, such as driver start-up failures or a failing write. Only the two causes the code itself raises or reports are modelled.
- The DistilBERT and VADER models, the random forest, `train_test_split`'s shuffle and `accuracy_score` are parameters. These are library numerics. model.py's accuracy report prints only.
- `os.listdir` order, `os.makedirs` and file writing are left out. The listing is an input sequence and a write is the returned value.
- Stats.Round2: rounds exact reals to the nearest hundredth, half to even. Python's `round` works on binary floats, so a decimal tie can land either way there. Floating-point sums and means are exact `real` arithmetic here.
- Text.Lower: maps only the letters A-Z. Python's `str.lower` covers all of Unicode. The keywords are ASCII.
- pandas' type inference on read is left out. pandas reads the title column as numbers only when every title in the master file parses as one (a file whose only book is "1984", say); the model keeps every text column as text, except for the 19 NaN strings.
- An entry whose name ends in ".csv" but that pandas cannot parse is left out. An empty file raises EmptyDataError and a directory named "*.csv" raises an OSError at `pd.read_csv` (data_cleaner.py:11, data_reframing.py:11, Extra/data_frames.py:8); nothing catches either, so the whole batch stops and no file is written. In the model every entry carries a parsed table, so a batch always completes.
- A non-numeric Confidence Score cell is left out. pandas' `mean` would fail on it. A non-numeric cell is treated like NaN: it is not counted.
- Tables.Line: the master file is modelled as six columns in every variant. Extra/data_frames.py writes four (no Author, Genre). Its missing Author and Genre are modelled as NaN.
- Tables.SortByTitle: this is a stable insertion sort. pandas' default quicksort is not stable. SortedOrderIsUnique shows that the choice does not matter when titles are unique.
- LabelEncoding: NaN labels are one value, so a missing author is one class. numpy's `in` never finds NaN, so `Found` is always false for NaN. `np.append` turning the classes into a string array (a NaN class becoming "nan") is not modelled. A column whose every value is NaN is read as float by pandas; that case is not modelled either.
- Predictor.PredictNewBook: model.py's fixed constants (J.K. Rowling, Fantasy, -4.34, 1.03) are the `NewAuthor`, `NewGenre`, `NewEnding` and `NewJourney` constants. The function is stated for any author, genre and scores.
- Predictor.PredictAndUpdate: reading the training file at its fixed path is an input table. The output table is modelled as the list of predictions, each keeping its input row.
