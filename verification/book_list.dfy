/** `process_books_from_csv` of Sheet_Sentiment_Scraper.py: a CSV of
    (title, url) pairs drives one scrape per book. The file arrives as the
    list of its parsed rows; the network is the function from a URL to the
    page it loads. */
module BookList {
  import opened Outcomes
  import opened ReviewFiles
  import opened SentimentScore

  datatype Book = Book(title: string, url: string)

  /** A row names a book when it has at least two fields. */
  predicate NamesBook(row: seq<string>) {
    |row| >= 2
  }

  function BookOf(row: seq<string>): Book
    requires NamesBook(row)
  {
    Book(row[0], row[1])
  }

  /** The books of the data rows, in file order; short rows are skipped and
      fields after the second are ignored. */
  function BooksFrom(rows: seq<seq<string>>): (books: seq<Book>)
    ensures |books| <= |rows|
    ensures forall b :: b in books ==> exists i :: 0 <= i < |rows| && NamesBook(rows[i]) && b == BookOf(rows[i])
  {
    if |rows| == 0 then []
    else
      var rest := BooksFrom(rows[1..]);
      assert forall i :: 1 <= i < |rows| ==> rows[i] == rows[1..][i - 1];
      if NamesBook(rows[0]) then [BookOf(rows[0])] + rest else rest
  }

  /** No row naming a book is lost. */
  lemma {:induction false} BooksFromComplete(rows: seq<seq<string>>)
    ensures forall i :: 0 <= i < |rows| && NamesBook(rows[i]) ==> BookOf(rows[i]) in BooksFrom(rows)
    decreases |rows|
  {
    if |rows| > 0 {
      BooksFromComplete(rows[1..]);
      assert forall i :: 1 <= i < |rows| ==> rows[i] == rows[1..][i - 1];
    }
  }

  /** Books keep the order of their rows. */
  lemma {:induction false} BooksFromAppend(a: seq<seq<string>>, b: seq<seq<string>>)
    ensures BooksFrom(a + b) == BooksFrom(a) + BooksFrom(b)
    decreases |a|
  {
    if |a| == 0 {
      assert a + b == b;
    } else {
      assert (a + b)[1..] == a[1..] + b;
      BooksFromAppend(a[1..], b);
    }
  }

  /** The books of the whole file: the first row is the header and never
      names a book; an empty file (where `next(reader)` fails and the error is
      only printed) names none. */
  function ParseBookList(rows: seq<seq<string>>): (books: seq<Book>)
    ensures |rows| == 0 ==> books == []
    ensures |rows| > 0 ==> books == BooksFrom(rows[1..])
  {
    if |rows| == 0 then [] else BooksFrom(rows[1..])
  }

  /** A row with fewer than two fields changes nothing, wherever it sits. */
  lemma ShortRowIgnored(header: seq<string>, a: seq<seq<string>>, row: seq<string>, b: seq<seq<string>>)
    requires !NamesBook(row)
    ensures ParseBookList([header] + a + [row] + b) == ParseBookList([header] + a + b)
  {
    assert ([header] + a + [row] + b)[1..] == a + ([row] + b);
    assert ([header] + a + b)[1..] == a + b;
    BooksFromAppend(a, [row] + b);
    BooksFromAppend(a, b);
    assert ([row] + b)[1..] == b;
  }

  /** The file `scrape_and_save_reviews` writes for one book, if any. */
  function Scrape(b: Book, fetch: string -> Page, analyzer: string -> ModelOutput): Option<CsvFile> {
    SheetScrape(b.title, fetch(b.url), analyzer)
  }

  /** The files written for a list of books, in order: one per book whose
      page loaded and held reviews. */
  function ScrapeAll(books: seq<Book>, fetch: string -> Page, analyzer: string -> ModelOutput): (files: seq<CsvFile>)
    ensures |files| <= |books|
    ensures forall f :: f in files ==>
              exists i :: 0 <= i < |books| && Scrape(books[i], fetch, analyzer) == Some(f)
    ensures forall i :: 0 <= i < |books| && Scrape(books[i], fetch, analyzer).Some? ==>
              Scrape(books[i], fetch, analyzer).value in files
  {
    if |books| == 0 then []
    else
      var rest := ScrapeAll(books[1..], fetch, analyzer);
      assert forall i :: 1 <= i < |books| ==> books[i] == books[1..][i - 1];
      match Scrape(books[0], fetch, analyzer)
      case None => rest
      case Some(f) => [f] + rest
  }

  /** Files keep the order of their books. */
  lemma {:induction false} ScrapeAllAppend(a: seq<Book>, b: seq<Book>, fetch: string -> Page, analyzer: string -> ModelOutput)
    ensures ScrapeAll(a + b, fetch, analyzer) == ScrapeAll(a, fetch, analyzer) + ScrapeAll(b, fetch, analyzer)
    decreases |a|
  {
    if |a| == 0 {
      assert a + b == b;
    } else {
      assert (a + b)[0] == a[0];
      assert (a + b)[1..] == a[1..] + b;
      ScrapeAllAppend(a[1..], b, fetch, analyzer);
    }
  }

  /** `process_books_from_csv`: parse the book list, then scrape each book.
      Every file comes from a data row naming a book, and every data row
      whose page loaded with reviews gives a file. */
  function ProcessBooksFromCsv(rows: seq<seq<string>>, fetch: string -> Page,
                               analyzer: string -> ModelOutput): (files: seq<CsvFile>)
    ensures |rows| <= 1 ==> files == []
    ensures |files| <= |ParseBookList(rows)|
    ensures forall f :: f in files ==>
              exists i :: 1 <= i < |rows| && NamesBook(rows[i]) && Scrape(BookOf(rows[i]), fetch, analyzer) == Some(f)
    ensures forall i :: 1 <= i < |rows| && NamesBook(rows[i]) && Scrape(BookOf(rows[i]), fetch, analyzer).Some? ==>
              Scrape(BookOf(rows[i]), fetch, analyzer).value in files
  {
    ScrapedFromRows(rows, fetch, analyzer);
    RowsScraped(rows, fetch, analyzer);
    ScrapeAll(ParseBookList(rows), fetch, analyzer)
  }

  /** Every file of the run comes from a data row naming a book. */
  lemma ScrapedFromRows(rows: seq<seq<string>>, fetch: string -> Page, analyzer: string -> ModelOutput)
    ensures var files := ScrapeAll(ParseBookList(rows), fetch, analyzer);
            forall f :: f in files ==>
              exists i :: 1 <= i < |rows| && NamesBook(rows[i]) && Scrape(BookOf(rows[i]), fetch, analyzer) == Some(f)
  {
    if |rows| > 0 {
      var data := rows[1..];
      var books := BooksFrom(data);
      var files := ScrapeAll(books, fetch, analyzer);
      forall f | f in files
        ensures exists i :: 1 <= i < |rows| && NamesBook(rows[i]) && Scrape(BookOf(rows[i]), fetch, analyzer) == Some(f)
      {
        FileFromRow(data, books, fetch, analyzer, f);
        var i :| 0 <= i < |data| && NamesBook(data[i]) && Scrape(BookOf(data[i]), fetch, analyzer) == Some(f);
        assert rows[i + 1] == data[i];
      }
    }
  }

  /** A file scraped from books that all come from rows comes from a row. */
  lemma FileFromRow(data: seq<seq<string>>, books: seq<Book>, fetch: string -> Page, analyzer: string -> ModelOutput, f: CsvFile)
    requires forall b :: b in books ==> exists i :: 0 <= i < |data| && NamesBook(data[i]) && b == BookOf(data[i])
    requires f in ScrapeAll(books, fetch, analyzer)
    ensures exists i :: 0 <= i < |data| && NamesBook(data[i]) && Scrape(BookOf(data[i]), fetch, analyzer) == Some(f)
  {
    var j := BookOfFile(books, fetch, analyzer, f);
    assert books[j] in books;
    var i :| 0 <= i < |data| && NamesBook(data[i]) && books[j] == BookOf(data[i]);
    assert Scrape(BookOf(data[i]), fetch, analyzer) == Some(f);
  }

  lemma BookOfFile(books: seq<Book>, fetch: string -> Page, analyzer: string -> ModelOutput, f: CsvFile) returns (j: nat)
    requires f in ScrapeAll(books, fetch, analyzer)
    ensures j < |books| && Scrape(books[j], fetch, analyzer) == Some(f)
  {
    j :| 0 <= j < |books| && Scrape(books[j], fetch, analyzer) == Some(f);
  }

  /** Every data row whose page loaded with reviews gives a file of the run. */
  lemma RowsScraped(rows: seq<seq<string>>, fetch: string -> Page, analyzer: string -> ModelOutput)
    ensures var files := ScrapeAll(ParseBookList(rows), fetch, analyzer);
            forall i :: 1 <= i < |rows| && NamesBook(rows[i]) && Scrape(BookOf(rows[i]), fetch, analyzer).Some? ==>
              Scrape(BookOf(rows[i]), fetch, analyzer).value in files
  {
    var books := ParseBookList(rows);
    var files := ScrapeAll(books, fetch, analyzer);
    forall i | 1 <= i < |rows| && NamesBook(rows[i]) && Scrape(BookOf(rows[i]), fetch, analyzer).Some?
      ensures Scrape(BookOf(rows[i]), fetch, analyzer).value in files
    {
      var data := rows[1..];
      assert data[i - 1] == rows[i];
      BooksFromComplete(data);
      var b := BookOf(data[i - 1]);
      assert b in books;
      var j :| 0 <= j < |books| && books[j] == b;
    }
  }
}
