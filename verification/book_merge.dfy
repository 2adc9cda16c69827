/** `process_book_csv` and `clean_text`: one per-book review table becomes one
    row of the master table, unless the table lacks the needed columns or the
    book is already there. The three variants in data_cleaner.py,
    data_reframing.py and Extra/data_frames.py differ only in a `Policy`. */
module BookMerge {
  import opened Outcomes
  import opened Text
  import opened Stats
  import opened ReviewFiles
  import opened Tables

  /** What a variant does: clean the title, scale and round the scores, and
      which Author, Genre and My Score a new row gets. */
  datatype Policy = Policy(cleanTitle: bool, scaleScores: bool,
                           author: Option<string>, genre: Option<string>, myScore: Option<int>)

  /** data_cleaner.py: the caller's author and genre, no My Score column. */
  function CleanerPolicy(author: string, genre: string): Policy {
    Policy(true, true, Some(author), Some(genre), None)
  }

  /** data_reframing.py: empty Author and Genre, My Score 0. */
  const ReframingPolicy: Policy := Policy(true, true, Some(""), Some(""), Some(0))

  /** Extra/data_frames.py: raw title, raw means, no Author/Genre, My Score 0. */
  const FramesPolicy: Policy := Policy(false, false, None, None, Some(0))

  /** `clean_text`: drop every zero-width space, then strip whitespace. */
  function CleanText(text: string): (r: string)
    ensures ZeroWidthSpace !in r
    ensures NoEdgeSpace(r)
  {
    var s := RemoveChar(text, ZeroWidthSpace);
    StripKeepsChars(s);
    Strip(s)
  }

  lemma CleanTextIdempotent(text: string)
    ensures CleanText(CleanText(text)) == CleanText(text)
  {
    var c := CleanText(text);
    RemoveCharAbsent(c, ZeroWidthSpace);
    StripKeepsUntrimmed(c);
  }

  /** A title that has no zero-width space and no edge whitespace is its own key. */
  lemma CleanTextKeepsClean(text: string)
    requires ZeroWidthSpace !in text && NoEdgeSpace(text)
    ensures CleanText(text) == text
  {
    RemoveCharAbsent(text, ZeroWidthSpace);
    StripKeepsUntrimmed(text);
  }

  /** Whitespace or zero-width spaces only. */
  predicate Invisible(s: string) {
    forall i :: 0 <= i < |s| ==> IsSpace(s[i]) || s[i] == ZeroWidthSpace
  }

  /** Invisible padding on either side does not change the cleaned title, so
      a title and its padded, zero-width-spaced variants share one key. */
  lemma CleanTextIgnoresPadding(a: string, s: string, b: string)
    requires Invisible(a) && Invisible(b)
    ensures CleanText(a + s + b) == CleanText(s)
  {
    var z := ZeroWidthSpace;
    RemoveCharAppend(a + s, b, z);
    RemoveCharAppend(a, s, z);
    var ra := RemoveChar(a, z);
    var rb := RemoveChar(b, z);
    forall i | 0 <= i < |ra| ensures IsSpace(ra[i]) {
      assert ra[i] in ra;
      var k :| 0 <= k < |a| && a[k] == ra[i];
    }
    forall i | 0 <= i < |rb| ensures IsSpace(rb[i]) {
      assert rb[i] in rb;
      var k :| 0 <= k < |b| && b[k] == rb[i];
    }
    StripIgnoresPadding(ra, RemoveChar(s, z), rb);
  }

  /** " \U{200B}" + title + " " and the title itself are the same book. */
  lemma ZeroWidthVariantSharesKey(title: string)
    requires ZeroWidthSpace !in title && NoEdgeSpace(title)
    ensures CleanText([' ', ZeroWidthSpace] + title + [' ']) == title
  {
    var a := [' ', ZeroWidthSpace];
    assert Invisible(a) by { assert a[0] == ' ' && a[1] == ZeroWidthSpace; }
    assert Invisible([' ']);
    CleanTextIgnoresPadding(a, title, [' ']);
    CleanTextKeepsClean(title);
  }

  const SentimentTag: string := "_reviews_sentiment"
  const CsvExtension: string := ".csv"

  /** `name.replace('_reviews_sentiment', '').replace('.csv', '')`. */
  function StripNaming(name: string): string {
    RemoveAll(RemoveAll(name, SentimentTag), CsvExtension)
  }

  /** Stripping only ever removes characters: it never lengthens the name,
      adds no character, shortens any name holding the tag, and leaves a name
      holding neither piece as it is. */
  lemma StripNamingShape(name: string)
    ensures |StripNaming(name)| <= |name| && forall c :: c in StripNaming(name) ==> c in name
    ensures Contains(name, SentimentTag) ==> |StripNaming(name)| < |name|
    ensures !Contains(name, SentimentTag) && !Contains(name, CsvExtension) ==> StripNaming(name) == name
  {
    if !Contains(name, SentimentTag) && !Contains(name, CsvExtension) {
      RemoveAllAbsent(name, SentimentTag);
      RemoveAllAbsent(name, CsvExtension);
    }
  }

  /** The book title a review file's name stands for under a policy. */
  function TitleFromName(p: Policy, name: string): (t: string)
    ensures p.cleanTitle ==> ZeroWidthSpace !in t && NoEdgeSpace(t)
  {
    if p.cleanTitle then CleanText(StripNaming(name)) else StripNaming(name)
  }

  /** The title `process_book_csv` derives from a file path. */
  function BookTitle(p: Policy, path: string): string {
    TitleFromName(p, Basename(path))
  }

  /** For a directory entry, the title depends on the entry's name alone. */
  lemma BookTitleOfEntry(p: Policy, folder: string, name: string)
    requires '/' !in name
    ensures BookTitle(p, Join(folder, name)) == TitleFromName(p, name)
  {
    BasenameOfJoin(folder, name);
  }

  lemma NamingFacts()
    ensures ShiftFree(SentimentTag) && ShiftFree(CsvExtension)
    ensures StartsWith(SentimentTag + CsvExtension, SentimentTag)
    ensures RemoveAll(SentimentTag + CsvExtension, SentimentTag) == CsvExtension
    ensures RemoveAll(CsvExtension, CsvExtension) == []
    ensures ReviewFileSuffix == SentimentTag + CsvExtension
  {
    assert (SentimentTag + CsvExtension)[|SentimentTag|..] == CsvExtension;
    assert !StartsWith(CsvExtension, SentimentTag);
    assert CsvExtension[1..] == "csv" && "csv"[1..] == "sv" && "sv"[1..] == "v" && "v"[1..] == [];
    assert RemoveAll(CsvExtension, SentimentTag) == CsvExtension;
  }

  /** Removing the naming suffix inverts `f"{title}_reviews_sentiment.csv"`
      for any title that does not itself contain either removed piece. */
  lemma StripNamingInverts(title: string)
    requires !Contains(title, SentimentTag) && !Contains(title, CsvExtension)
    ensures StripNaming(ReviewFileName(title)) == title
  {
    NamingFacts();
    var u := SentimentTag + CsvExtension;
    assert ReviewFileName(title) == title + u;
    NoOccurrenceStraddles(title, u, SentimentTag);
    RemoveAllKeepsFront(title, u, SentimentTag);
    assert RemoveAll(title + u, SentimentTag) == title + CsvExtension;
    assert StartsWith(CsvExtension, CsvExtension);
    NoOccurrenceStraddles(title, CsvExtension, CsvExtension);
    RemoveAllKeepsFront(title, CsvExtension, CsvExtension);
    assert title + [] == title;
  }

  /** The cleaning merger recovers the title the scraper named the file by,
      when the title is already clean and free of the two removed pieces. */
  lemma TitleRoundTrip(p: Policy, title: string)
    requires !Contains(title, SentimentTag) && !Contains(title, CsvExtension)
    requires p.cleanTitle ==> ZeroWidthSpace !in title && NoEdgeSpace(title)
    ensures TitleFromName(p, ReviewFileName(title)) == title
  {
    StripNamingInverts(title);
    if p.cleanTitle {
      CleanTextKeepsClean(title);
    }
  }

  /** A trailing zero-width space is invisible to the cleaning variants. */
  lemma TrailingZeroWidthCleaned(title: string)
    requires ZeroWidthSpace !in title && NoEdgeSpace(title)
    ensures CleanText(title + [ZeroWidthSpace]) == title
  {
    var pad: string := [ZeroWidthSpace];
    assert Invisible(pad);
    assert title + pad == "" + title + pad;
    CleanTextIgnoresPadding("", title, pad);
    CleanTextKeepsClean(title);
  }

  /** A clean title and the same title followed by a zero-width space are two
      books for the non-cleaning variant and one book for a cleaning one. */
  lemma ZeroWidthSplitsOnlyRawTitles(p: Policy, title: string)
    requires p.cleanTitle
    requires ZeroWidthSpace !in title && NoEdgeSpace(title)
    requires !Contains(title, SentimentTag) && !Contains(title, CsvExtension)
    ensures TitleFromName(FramesPolicy, ReviewFileName(title + [ZeroWidthSpace])) == title + [ZeroWidthSpace]
    ensures TitleFromName(FramesPolicy, ReviewFileName(title)) == title
    ensures title + [ZeroWidthSpace] != title
    ensures TitleFromName(p, ReviewFileName(title + [ZeroWidthSpace])) == title
    ensures TitleFromName(p, ReviewFileName(title)) == title
  {
    var z := title + [ZeroWidthSpace];
    assert |z| == |title| + 1;
    NamingFacts();
    ContainsAppendChar(title, SentimentTag, ZeroWidthSpace);
    ContainsAppendChar(title, CsvExtension, ZeroWidthSpace);
    StripNamingInverts(z);
    StripNamingInverts(title);
    TrailingZeroWidthCleaned(title);
    CleanTextKeepsClean(title);
  }

  const CategoryColumn: string := "Category"
  const ConfidenceColumn: string := "Confidence Score"

  /** `all(col in df.columns for col in ['Category', 'Confidence Score'])`. */
  predicate HasRequiredColumns(c: CsvContent) {
    CategoryColumn in c.header && ConfidenceColumn in c.header
  }

  /** The first position of a column name in the header. */
  function IndexOf(header: seq<string>, name: string): (k: nat)
    requires name in header
    ensures k < |header| && header[k] == name && name !in header[..k]
  {
    if header[0] == name then 0
    else
      assert header == [header[0]] + header[1..];
      var k := IndexOf(header[1..], name);
      assert header[..k + 1] == [header[0]] + header[1..][..k];
      k + 1
  }

  /** A row's cell in a column; short rows read as missing there. */
  function CellAt(row: seq<Cell>, k: nat): Cell {
    if k < |row| then row[k] else Missing
  }

  /** A row counts towards a category when its Category cell is that name and
      its Confidence Score cell is a number (pandas' mean skips NaN). */
  predicate Counts(row: seq<Cell>, ci: nat, si: nat, category: string) {
    CellAt(row, ci) == Str(category) && CellAt(row, si).Number?
  }

  function ValuesOf(rows: seq<seq<Cell>>, ci: nat, si: nat, category: string): (xs: seq<real>)
    ensures |xs| <= |rows|
    ensures |xs| == 0 <==> forall i :: 0 <= i < |rows| ==> !Counts(rows[i], ci, si, category)
    ensures forall x :: x in xs <==>
              exists i :: 0 <= i < |rows| && Counts(rows[i], ci, si, category) && CellAt(rows[i], si) == Number(x)
  {
    if |rows| == 0 then []
    else
      var rest := ValuesOf(rows[1..], ci, si, category);
      assert forall i :: 1 <= i < |rows| ==> rows[i] == rows[1..][i - 1];
      if Counts(rows[0], ci, si, category) then [CellAt(rows[0], si).x] + rest else rest
  }

  /** Every counting row contributes its value once, in row order. */
  lemma {:induction false} ValuesOfAppend(a: seq<seq<Cell>>, b: seq<seq<Cell>>, ci: nat, si: nat, category: string)
    ensures ValuesOf(a + b, ci, si, category) == ValuesOf(a, ci, si, category) + ValuesOf(b, ci, si, category)
    decreases |a|
  {
    if |a| == 0 {
      assert a + b == b;
    } else {
      assert (a + b)[0] == a[0];
      assert (a + b)[1..] == a[1..] + b;
      ValuesOfAppend(a[1..], b, ci, si, category);
    }
  }

  /** One row gives its confidence when it counts and nothing otherwise. */
  lemma ValuesOfSingle(row: seq<Cell>, ci: nat, si: nat, category: string)
    ensures ValuesOf([row], ci, si, category) ==
            if Counts(row, ci, si, category) then [CellAt(row, si).x] else []
  {
    assert [row][1..] == [];
  }

  /** `df[df['Category'] == category]['Confidence Score']`, NaN dropped. */
  function CategoryValues(c: CsvContent, category: string): seq<real>
    requires HasRequiredColumns(c)
  {
    ValuesOf(c.rows, IndexOf(c.header, CategoryColumn), IndexOf(c.header, ConfidenceColumn), category)
  }

  /** No row of the table counts towards the category. */
  predicate EmptyCategory(c: CsvContent, category: string)
    requires HasRequiredColumns(c)
  {
    var ci := IndexOf(c.header, CategoryColumn);
    var si := IndexOf(c.header, ConfidenceColumn);
    forall i :: 0 <= i < |c.rows| ==> !Counts(c.rows[i], ci, si, category)
  }

  /** One category's score: an empty category scores exactly 0; otherwise the
      mean confidence, times 10 and rounded to hundredths where the policy
      scales, raw where it does not. */
  function CategoryScore(p: Policy, c: CsvContent, category: string): (r: real)
    requires HasRequiredColumns(c)
    ensures EmptyCategory(c, category) <==> |CategoryValues(c, category)| == 0
    ensures EmptyCategory(c, category) ==> r == 0.0
    ensures !EmptyCategory(c, category) && p.scaleScores ==>
              r == Round2(10.0 * Mean(CategoryValues(c, category)))
    ensures !EmptyCategory(c, category) && !p.scaleScores ==>
              r == Mean(CategoryValues(c, category))
  {
    var xs := CategoryValues(c, category);
    var mean := if |xs| == 0 then 0.0 else Mean(xs);
    if p.scaleScores then
      Round2Zero();
      assert 10.0 * mean == mean * 10.0;
      Round2(mean * 10.0)
    else mean
  }

  /** With confidences in [-1, 1] a scaled score lies in [-10, 10] and a raw one
      in [-1, 1], and both lie between the category's extreme confidences. */
  lemma ScoreBounds(p: Policy, c: CsvContent, category: string)
    requires HasRequiredColumns(c) && !EmptyCategory(c, category)
    requires forall x :: x in CategoryValues(c, category) ==> -1.0 <= x <= 1.0
    ensures var xs := CategoryValues(c, category);
            && SeqMin(xs) <= Mean(xs) <= SeqMax(xs)
            && (p.scaleScores ==> -10.0 <= CategoryScore(p, c, category) <= 10.0)
            && (!p.scaleScores ==> -1.0 <= CategoryScore(p, c, category) <= 1.0)
  {
    var xs := CategoryValues(c, category);
    BoundsAttained(xs);
    var m := Mean(xs);
    assert -1.0 <= SeqMin(xs) && SeqMax(xs) <= 1.0;
    if p.scaleScores {
      ScaledWithinTen(m);
    }
  }

  lemma ScaledWithinTen(m: real)
    requires -1.0 <= m <= 1.0
    ensures -10.0 <= Round2(10.0 * m) <= 10.0
  {
    assert IsHundredths(-10.0) && IsHundredths(10.0);
    Round2WithinGrid(10.0 * m, -10.0, 10.0);
  }

  /** The row a book file contributes. */
  function NewRow(p: Policy, title: string, c: CsvContent): (r: Row)
    requires HasRequiredColumns(c)
    ensures r.title == Some(title) && r.author == p.author && r.genre == p.genre
    ensures r.myScore == p.myScore
    ensures r.ending == CategoryScore(p, c, "Ending") && r.journey == CategoryScore(p, c, "Journey")
  {
    Row(Some(title), p.author, p.genre, CategoryScore(p, c, "Ending"), CategoryScore(p, c, "Journey"), p.myScore)
  }

  /** `process_book_csv`: skip a file without the needed columns, skip a book
      already in the table (first write wins), else append exactly one row. */
  function ProcessBookCsv(p: Policy, path: string, c: CsvContent, master: Table): (r: Table)
    ensures !HasRequiredColumns(c) ==> r == master
    ensures HasRequiredColumns(c) ==> HasTitle(r, BookTitle(p, path))
    ensures HasRequiredColumns(c) && HasTitle(master, BookTitle(p, path)) ==> r == master
    ensures HasRequiredColumns(c) && !HasTitle(master, BookTitle(p, path)) ==>
              && |r| == |master| + 1 && r[..|master|] == master
              && r[|master|] == NewRow(p, BookTitle(p, path), c)
  {
    if !HasRequiredColumns(c) then master
    else
      var title := BookTitle(p, path);
      if HasTitle(master, title) then master
      else
        var r := master + [NewRow(p, title, c)];
        assert r[|master|].title == Some(title);
        assert r[..|master|] == master;
        r
  }

  /** Merging the same file twice is merging it once. */
  lemma MergeTwiceIsOnce(p: Policy, path: string, c: CsvContent, master: Table)
    ensures ProcessBookCsv(p, path, c, ProcessBookCsv(p, path, c, master)) == ProcessBookCsv(p, path, c, master)
  {
  }

  /** Merging never creates a second row for a title. */
  lemma MergeKeepsUnique(p: Policy, path: string, c: CsvContent, master: Table)
    requires UniqueTitles(master)
    ensures UniqueTitles(ProcessBookCsv(p, path, c, master))
  {
    var r := ProcessBookCsv(p, path, c, master);
    if |r| > |master| {
      assert forall i :: 0 <= i < |master| ==> r[i] == master[i];
      assert r[|master|].title == Some(BookTitle(p, path));
      assert !HasTitle(master, BookTitle(p, path));
    }
  }

  /** One directory entry: its file name and its parsed contents. */
  datatype Entry = Entry(name: string, content: CsvContent)

  predicate IsCsv(e: Entry) {
    EndsWith(e.name, CsvExtension)
  }

  /** A row the batch added: it carries the policy's Author, Genre and My
      Score and the title of one of the batch's ".csv" entries. */
  predicate AddedBy(p: Policy, folder: string, entries: seq<Entry>, row: Row) {
    && row.author == p.author && row.genre == p.genre && row.myScore == p.myScore
    && exists k :: 0 <= k < |entries| && IsCsv(entries[k])
                   && row.title == Some(BookTitle(p, Join(folder, entries[k].name)))
  }

  lemma AddedByLater(p: Policy, folder: string, entries: seq<Entry>, row: Row)
    requires |entries| > 0 && AddedBy(p, folder, entries[1..], row)
    ensures AddedBy(p, folder, entries, row)
  {
    var k :| 0 <= k < |entries[1..]| && IsCsv(entries[1..][k])
             && row.title == Some(BookTitle(p, Join(folder, entries[1..][k].name)));
    assert entries[k + 1] == entries[1..][k];
  }

  /** One loop iteration: merge the entry if its name ends in ".csv". */
  function MergeStep(p: Policy, folder: string, master: Table, e: Entry): (r: Table)
    ensures |master| <= |r| <= |master| + 1 && r[..|master|] == master
    ensures |r| > |master| ==> && IsCsv(e) && HasRequiredColumns(e.content)
                               && r[|master|].title == Some(BookTitle(p, Join(folder, e.name)))
                               && r[|master|].author == p.author && r[|master|].genre == p.genre
                               && r[|master|].myScore == p.myScore
  {
    if IsCsv(e) then ProcessBookCsv(p, Join(folder, e.name), e.content, master) else master
  }

  /** The batch loop: each entry whose name ends in ".csv" is merged, in
      listing order; the rest are passed over. The starting rows stay in
      front, and each entry adds at most one row. */
  function MergeAll(p: Policy, folder: string, master: Table, entries: seq<Entry>): (r: Table)
    ensures |master| <= |r| <= |master| + |entries| && r[..|master|] == master
    decreases |entries|
  {
    if |entries| == 0 then master
    else
      var m := MergeStep(p, folder, master, entries[0]);
      var r := MergeAll(p, folder, m, entries[1..]);
      assert r[..|master|] == r[..|m|][..|master|];
      r
  }

  /** Every row of `r` after the first `n` was added by the batch. */
  predicate AllAdded(p: Policy, folder: string, entries: seq<Entry>, r: Table, n: nat) {
    forall i :: n <= i < |r| ==> AddedBy(p, folder, entries, r[i])
  }

  /** Every row the batch adds carries the policy's Author, Genre and My
      Score and the title of one of the batch's ".csv" entries. */
  lemma {:induction false} MergeAllAdds(p: Policy, folder: string, master: Table, entries: seq<Entry>)
    ensures AllAdded(p, folder, entries, MergeAll(p, folder, master, entries), |master|)
    decreases |entries|
  {
    if |entries| > 0 {
      var m := MergeStep(p, folder, master, entries[0]);
      var r := MergeAll(p, folder, m, entries[1..]);
      assert MergeAll(p, folder, master, entries) == r;
      MergeAllAdds(p, folder, m, entries[1..]);
      AddedAfterStep(p, folder, master, entries, m, r);
    }
  }

  lemma AddedAfterStep(p: Policy, folder: string, master: Table, entries: seq<Entry>, m: Table, r: Table)
    requires |entries| > 0 && m == MergeStep(p, folder, master, entries[0])
    requires |m| <= |r| && r[..|m|] == m
    requires AllAdded(p, folder, entries[1..], r, |m|)
    ensures AllAdded(p, folder, entries, r, |master|)
  {
    forall i | |master| <= i < |r|
      ensures AddedBy(p, folder, entries, r[i])
    {
      if i < |m| {
        assert r[i] == r[..|m|][i] == m[i];
        assert i == |master|;
      } else {
        AddedByLater(p, folder, entries, r[i]);
      }
    }
  }

  /** Titles that were unique on load stay unique through the batch. */
  lemma {:induction false} MergeAllUnique(p: Policy, folder: string, master: Table, entries: seq<Entry>)
    requires UniqueTitles(master)
    ensures UniqueTitles(MergeAll(p, folder, master, entries))
    decreases |entries|
  {
    if |entries| > 0 {
      var e := entries[0];
      if IsCsv(e) {
        MergeKeepsUnique(p, Join(folder, e.name), e.content, master);
      }
      MergeAllUnique(p, folder, MergeStep(p, folder, master, e), entries[1..]);
    }
  }

  /** The entries whose name ends in ".csv", in order. */
  function CsvEntries(entries: seq<Entry>): (r: seq<Entry>)
    ensures |r| <= |entries|
    ensures forall e :: e in r <==> e in entries && IsCsv(e)
  {
    if |entries| == 0 then []
    else
      var rest := CsvEntries(entries[1..]);
      assert entries == [entries[0]] + entries[1..];
      if IsCsv(entries[0]) then [entries[0]] + rest else rest
  }

  /** The ".csv" entries keep their listing order. */
  lemma {:induction false} CsvEntriesAppend(a: seq<Entry>, b: seq<Entry>)
    ensures CsvEntries(a + b) == CsvEntries(a) + CsvEntries(b)
    decreases |a|
  {
    if |a| == 0 {
      assert a + b == b;
    } else {
      assert (a + b)[0] == a[0];
      assert (a + b)[1..] == a[1..] + b;
      CsvEntriesAppend(a[1..], b);
    }
  }

  /** A single entry is kept exactly when its name ends in ".csv". */
  lemma CsvEntriesSingle(e: Entry)
    ensures CsvEntries([e]) == if IsCsv(e) then [e] else []
  {
    assert [e][1..] == [];
  }

  /** Only ".csv" entries are merged: dropping every other entry first gives
      the same table. */
  lemma {:induction false} OnlyCsvMerged(p: Policy, folder: string, master: Table, entries: seq<Entry>)
    ensures MergeAll(p, folder, master, entries) == MergeAll(p, folder, master, CsvEntries(entries))
    decreases |entries|
  {
    if |entries| > 0 {
      var e := entries[0];
      OnlyCsvMerged(p, folder, MergeStep(p, folder, master, e), entries[1..]);
      if IsCsv(e) {
        var cs := CsvEntries(entries);
        assert cs[0] == e && cs[1..] == CsvEntries(entries[1..]);
      }
    }
  }

  /** Every ".csv" entry with the needed columns leaves its book in the table. */
  lemma {:induction false} MergeAllCovers(p: Policy, folder: string, master: Table, entries: seq<Entry>, k: nat)
    requires k < |entries| && IsCsv(entries[k]) && HasRequiredColumns(entries[k].content)
    ensures HasTitle(MergeAll(p, folder, master, entries), BookTitle(p, Join(folder, entries[k].name)))
    decreases |entries|
  {
    var e := entries[0];
    var m := MergeStep(p, folder, master, e);
    var r := MergeAll(p, folder, m, entries[1..]);
    if k == 0 {
      var title := BookTitle(p, Join(folder, e.name));
      var i :| 0 <= i < |m| && m[i].title == Some(title);
      assert r[..|m|][i] == m[i];
    } else {
      assert entries[1..][k - 1] == entries[k];
      MergeAllCovers(p, folder, m, entries[1..], k - 1);
    }
  }

  /** A batch whose every book is already in the table changes nothing. */
  lemma {:induction false} MergeAllNothingNew(p: Policy, folder: string, master: Table, entries: seq<Entry>)
    requires forall k :: 0 <= k < |entries| && IsCsv(entries[k]) && HasRequiredColumns(entries[k].content) ==>
               HasTitle(master, BookTitle(p, Join(folder, entries[k].name)))
    ensures MergeAll(p, folder, master, entries) == master
    decreases |entries|
  {
    if |entries| > 0 {
      assert forall k :: 1 <= k < |entries| ==> entries[1..][k - 1] == entries[k];
      MergeAllNothingNew(p, folder, master, entries[1..]);
    }
  }

  /** No row after the first `n` shares a title with one of them. */
  predicate NewAfter(r: Table, n: nat) {
    forall i, j :: 0 <= j < n <= i < |r| ==> r[j].title != r[i].title
  }

  /** The batch only adds rows for titles not yet in the table. */
  lemma {:induction false} MergeAllAddsOnlyNew(p: Policy, folder: string, master: Table, entries: seq<Entry>)
    ensures NewAfter(MergeAll(p, folder, master, entries), |master|)
    decreases |entries|
  {
    if |entries| > 0 {
      var m := MergeStep(p, folder, master, entries[0]);
      var r := MergeAll(p, folder, m, entries[1..]);
      MergeAllAddsOnlyNew(p, folder, m, entries[1..]);
      if |m| > |master| {
        StepRowIsNew(p, folder, master, entries[0], m);
      }
      NewRowsAfterStep(master, m, r);
    }
  }

  lemma NewRowsAfterStep(master: Table, m: Table, r: Table)
    requires |master| <= |m| <= |master| + 1 && m[..|master|] == master
    requires |m| > |master| ==> forall j :: 0 <= j < |master| ==> m[j].title != m[|master|].title
    requires |m| <= |r| && r[..|m|] == m
    requires NewAfter(r, |m|)
    ensures NewAfter(r, |master|)
  {
    if |m| > |master| {
      forall i, j | 0 <= j < |master| <= i < |r| ensures r[j].title != r[i].title {
        if i < |m| {
          assert r[j] == m[j] && r[i] == m[i];
        }
      }
    }
  }

  lemma StepRowIsNew(p: Policy, folder: string, master: Table, e: Entry, m: Table)
    requires m == MergeStep(p, folder, master, e) && |m| > |master|
    ensures forall j :: 0 <= j < |master| ==> m[j].title != m[|master|].title
  {
    assert m == ProcessBookCsv(p, Join(folder, e.name), e.content, master);
    assert !HasTitle(master, BookTitle(p, Join(folder, e.name)));
    assert m[..|master|] == master;
    forall j | 0 <= j < |master| ensures m[j].title != m[|master|].title {
      assert m[j] == master[j];
    }
  }

  /** Every row of `r` with the title is `row`. */
  predicate OnlyRowFor(r: Table, title: string, row: Row) {
    forall i :: 0 <= i < |r| && r[i].title == Some(title) ==> r[i] == row
  }

  /** The titles of the listing's ".csv" entries that have the needed
      columns, in listing order. */
  function UsableTitles(p: Policy, folder: string, entries: seq<Entry>): seq<string>
    decreases |entries|
  {
    if |entries| == 0 then []
    else
      var e := entries[0];
      var head := if IsCsv(e) && HasRequiredColumns(e.content) then [BookTitle(p, Join(folder, e.name))] else [];
      head + UsableTitles(p, folder, entries[1..])
  }

  /** With several files for one book, the first one listed decides its row:
      the row for that title is the one built from the first ".csv" entry with
      the needed columns, and later files for the same book are skipped. */
  lemma FirstListedWins(p: Policy, folder: string, master: Table, entries: seq<Entry>, k: nat)
    requires k < |entries| && IsCsv(entries[k]) && HasRequiredColumns(entries[k].content)
    requires !HasTitle(master, BookTitle(p, Join(folder, entries[k].name)))
    requires BookTitle(p, Join(folder, entries[k].name)) !in UsableTitles(p, folder, entries[..k])
    ensures var title := BookTitle(p, Join(folder, entries[k].name));
            OnlyRowFor(MergeAll(p, folder, master, entries), title, NewRow(p, title, entries[k].content))
  {
    SplitAt(entries, k);
    FirstOfBackWins(p, folder, master, entries[..k], entries[k..], entries, entries[k]);
  }

  lemma SplitAt<T>(s: seq<T>, k: nat)
    requires k < |s|
    ensures s[..k] + s[k..] == s && |s[k..]| > 0 && s[k..][0] == s[k]
  {
  }

  /** The first file of `back` decides its title's row when no usable file of
      `front` carries that title. */
  lemma FirstOfBackWins(p: Policy, folder: string, master: Table, front: seq<Entry>, back: seq<Entry>,
                        entries: seq<Entry>, e: Entry)
    requires entries == front + back && |back| > 0 && back[0] == e
    requires IsCsv(e) && HasRequiredColumns(e.content)
    requires !HasTitle(master, BookTitle(p, Join(folder, e.name)))
    requires BookTitle(p, Join(folder, e.name)) !in UsableTitles(p, folder, front)
    ensures var title := BookTitle(p, Join(folder, e.name));
            OnlyRowFor(MergeAll(p, folder, master, entries), title, NewRow(p, title, e.content))
  {
    var title := BookTitle(p, Join(folder, e.name));
    MergeAllAppend(p, folder, master, front, back);
    MergeAllKeepsTitleOut(p, folder, master, front, title);
    FirstEntryWins(p, folder, MergeAll(p, folder, master, front), back);
  }

  /** Merging two listings one after the other is merging their concatenation. */
  lemma {:induction false} MergeAllAppend(p: Policy, folder: string, master: Table, a: seq<Entry>, b: seq<Entry>)
    ensures MergeAll(p, folder, master, a + b) == MergeAll(p, folder, MergeAll(p, folder, master, a), b)
    decreases |a|
  {
    if |a| == 0 {
      assert a + b == b;
    } else {
      assert (a + b)[0] == a[0];
      assert (a + b)[1..] == a[1..] + b;
      MergeAllAppend(p, folder, MergeStep(p, folder, master, a[0]), a[1..], b);
    }
  }

  /** A listing with no usable file for the title leaves the title out. */
  lemma {:induction false} MergeAllKeepsTitleOut(p: Policy, folder: string, master: Table, entries: seq<Entry>, title: string)
    requires !HasTitle(master, title) && title !in UsableTitles(p, folder, entries)
    ensures !HasTitle(MergeAll(p, folder, master, entries), title)
    decreases |entries|
  {
    if |entries| > 0 {
      var m := MergeStep(p, folder, master, entries[0]);
      StepKeepsTitleOut(p, folder, master, entries[0], m, title);
      MergeAllKeepsTitleOut(p, folder, m, entries[1..], title);
    }
  }

  lemma FirstEntryWins(p: Policy, folder: string, master: Table, entries: seq<Entry>)
    requires |entries| > 0 && IsCsv(entries[0]) && HasRequiredColumns(entries[0].content)
    requires !HasTitle(master, BookTitle(p, Join(folder, entries[0].name)))
    ensures var title := BookTitle(p, Join(folder, entries[0].name));
            OnlyRowFor(MergeAll(p, folder, master, entries), title, NewRow(p, title, entries[0].content))
  {
    var e := entries[0];
    var title := BookTitle(p, Join(folder, e.name));
    var row := NewRow(p, title, e.content);
    var m := MergeStep(p, folder, master, e);
    var r := MergeAll(p, folder, m, entries[1..]);
    assert m == ProcessBookCsv(p, Join(folder, e.name), e.content, master);
    MergeAllAddsOnlyNew(p, folder, m, entries[1..]);
    OnlyRowAfterAppend(master, m, r, title, row);
  }

  /** A row appended for a new title, and never repeated after, is the only
      row for that title. */
  lemma OnlyRowAfterAppend(master: Table, m: Table, r: Table, title: string, row: Row)
    requires !HasTitle(master, title) && row.title == Some(title)
    requires |m| == |master| + 1 && m[..|master|] == master && m[|master|] == row
    requires |m| <= |r| && r[..|m|] == m && NewAfter(r, |m|)
    ensures OnlyRowFor(r, title, row)
  {
    assert r[|master|] == m[|master|];
    assert forall j :: 0 <= j < |master| ==> r[j] == m[j] == master[j];
  }

  /** A step for another title leaves the title out of the table. */
  lemma StepKeepsTitleOut(p: Policy, folder: string, master: Table, e: Entry, m: Table, title: string)
    requires m == MergeStep(p, folder, master, e) && !HasTitle(master, title)
    requires IsCsv(e) && HasRequiredColumns(e.content) ==> BookTitle(p, Join(folder, e.name)) != title
    ensures !HasTitle(m, title)
  {
    GrowthKeepsTitleOut(master, m, title);
  }

  lemma GrowthKeepsTitleOut(master: Table, m: Table, title: string)
    requires |master| <= |m| <= |master| + 1 && m[..|master|] == master && !HasTitle(master, title)
    requires |m| > |master| ==> m[|master|].title != Some(title)
    ensures !HasTitle(m, title)
  {
    forall i | 0 <= i < |m| ensures m[i].title != Some(title) {
      if i < |master| {
        assert m[i] == master[i];
      }
    }
  }
}
