/** The three batch drivers: start from the existing master file (or an empty
    table), merge every ".csv" entry of the input folder, clean up, write.
    The directory listing is a sequence of entries in listing order; the
    existing output file, when there is one, is the sequence of its lines. */
module BatchRuns {
  import opened Outcomes
  import opened StringOrder
  import opened Text
  import opened Tables
  import opened BookMerge

  /** The table a run starts from: the existing output file read back, or an
      empty table when the file does not exist. */
  function Initial(existing: Option<seq<Line>>): (t: Table)
    ensures existing.None? ==> t == []
    ensures existing.Some? ==> |t| == |existing.value|
                               && forall i :: 0 <= i < |t| ==> t[i] == ReadLine(existing.value[i])
  {
    match existing
    case None => []
    case Some(f) => Load(f)
  }

  /** The clean-up before a write: drop the rows without a title, then sort by
      title. */
  function Prepare(t: Table): (r: Table)
    ensures NoNullTitles(r) && SortedByTitle(r)
    ensures |r| <= |t|
    ensures forall x :: x in r <==> x in t && x.title.Some?
    ensures forall x :: multiset(r)[x] == if x.title.Some? then multiset(t)[x] else 0
    ensures UniqueTitles(t) ==> UniqueTitles(r)
  {
    SortKeepsRows(DropNull(t));
    DropNullSortUnique(t);
    SortByTitle(DropNull(t))
  }

  lemma DropNullSortUnique(t: Table)
    ensures UniqueTitles(t) ==> UniqueTitles(SortByTitle(DropNull(t)))
  {
    if UniqueTitles(t) {
      DropNullUnique(t);
      SortUnique(DropNull(t));
    }
  }

  /** A table that is already clean is left as it is. */
  lemma PrepareKeepsClean(t: Table)
    requires NoNullTitles(t) && SortedByTitle(t)
    ensures Prepare(t) == t
  {
    DropNullKeeps(t);
    SortKeepsSorted(t);
  }

  /** Lines are sorted by their title field. */
  predicate SortedLines(f: seq<Line>) {
    forall i, j :: 0 <= i < j < |f| ==> LessEq(f[i].title, f[j].title)
  }

  /** Writing a clean table gives lines sorted by title whose titles are the
      rows' titles. */
  lemma PersistClean(t: Table)
    requires NoNullTitles(t) && SortedByTitle(t)
    ensures SortedLines(Persist(t))
    ensures forall i :: 0 <= i < |t| ==> t[i].title == Some(Persist(t)[i].title)
  {
  }

  /** The clean-up and the write: the lines are sorted by title, one line
      per titled row. */
  function Written(t: Table): (f: seq<Line>)
    ensures SortedLines(f)
    ensures |f| <= |t|
    ensures |f| == |DropNull(t)|
  {
    var c := Prepare(t);
    PersistClean(c);
    Persist(c)
  }

  /** The written lines are the lines of the titled rows, each written as
      often as its row occurs. */
  lemma WrittenCounts(t: Table)
    ensures multiset(Written(t)) == multiset(Persist(DropNull(t)))
  {
    PersistPermutes(Prepare(t), DropNull(t));
  }

  /** Each line is a titled row of the table as written. */
  predicate LinesFrom(f: seq<Line>, t: Table) {
    forall i :: 0 <= i < |f| ==> exists r :: r in t && r.title.Some? && f[i] == WriteRow(r)
  }

  /** Each titled row of the table is written as a line. */
  predicate WritesAll(f: seq<Line>, t: Table) {
    forall r :: r in t && r.title.Some? ==> WriteRow(r) in f
  }

  /** Each written line is a titled row of the table as written, and distinct
      titles stay distinct. */
  lemma WrittenRows(t: Table)
    ensures LinesFrom(Written(t), t)
    ensures UniqueTitles(t) ==> forall i, j :: 0 <= i < j < |Written(t)| ==> Written(t)[i].title != Written(t)[j].title
  {
    var c := Prepare(t);
    var f := Persist(c);
    PersistClean(c);
    assert Written(t) == f;
    forall i | 0 <= i < |f| ensures exists r :: r in t && r.title.Some? && f[i] == WriteRow(r) {
      assert c[i] in c;
    }
  }

  /** Every titled row of the table is written. */
  lemma WrittenCovers(t: Table)
    ensures WritesAll(Written(t), t)
  {
    var c := Prepare(t);
    assert Written(t) == Persist(c);
    forall r | r in t && r.title.Some? ensures WriteRow(r) in Written(t) {
      var j :| 0 <= j < |c| && c[j] == r;
      assert Written(t)[j] == WriteRow(r);
    }
  }

  /** Some line of the file carries the title. */
  predicate WritesTitle(f: seq<Line>, title: string) {
    exists i :: 0 <= i < |f| && f[i].title == title
  }

  /** A title the cleaned table holds is the title of a written line. */
  lemma WrittenHasTitle(t: Table, title: string)
    requires HasTitle(Prepare(t), title)
    ensures WritesTitle(Written(t), title)
  {
    var c := Prepare(t);
    var j :| 0 <= j < |c| && c[j].title == Some(title);
    assert Written(t)[j] == WriteRow(c[j]);
  }

  /** data_cleaner.py's table before the write: titled, sorted by title, and
      holding the book of every ".csv" entry with the needed columns. */
  function CleanerTable(existing: Option<seq<Line>>, folder: string, author: string, genre: string,
                        entries: seq<Entry>): (t: Table)
    ensures NoNullTitles(t) && SortedByTitle(t)
    ensures forall k :: 0 <= k < |entries| && IsCsv(entries[k]) && HasRequiredColumns(entries[k].content) ==>
              HasTitle(t, BookTitle(CleanerPolicy(author, genre), Join(folder, entries[k].name)))
  {
    var p := CleanerPolicy(author, genre);
    forall k | 0 <= k < |entries| && IsCsv(entries[k]) && HasRequiredColumns(entries[k].content)
      ensures HasTitle(Prepare(MergeAll(p, folder, Initial(existing), entries)), BookTitle(p, Join(folder, entries[k].name)))
    {
      CoveredAfterPrepare(p, folder, Initial(existing), entries, k);
    }
    Prepare(MergeAll(p, folder, Initial(existing), entries))
  }

  /** `process_all_books` of data_cleaner.py: the file it writes is sorted by
      title; its lines are exactly the titled rows of the merged table, which
      were either in the existing file or come from one of the folder's ".csv"
      entries with the given author and genre; every such entry with the
      needed columns has its book written; and titles that were distinct stay
      distinct. */
  function ProcessAllBooks(existing: Option<seq<Line>>, folder: string, author: string, genre: string,
                           entries: seq<Entry>): (f: seq<Line>)
    ensures SortedLines(f)
    ensures |f| <= |Initial(existing)| + |entries|
    ensures LinesFrom(f, MergeAll(CleanerPolicy(author, genre), folder, Initial(existing), entries))
    ensures WritesAll(f, MergeAll(CleanerPolicy(author, genre), folder, Initial(existing), entries))
    ensures |f| == |DropNull(MergeAll(CleanerPolicy(author, genre), folder, Initial(existing), entries))|
    ensures forall k :: 0 <= k < |entries| && IsCsv(entries[k]) && HasRequiredColumns(entries[k].content) ==>
              WritesTitle(f, BookTitle(CleanerPolicy(author, genre), Join(folder, entries[k].name)))
    ensures UniqueTitles(Initial(existing)) ==>
              forall i, j :: 0 <= i < j < |f| ==> f[i].title != f[j].title
  {
    var p := CleanerPolicy(author, genre);
    var m := MergeAll(p, folder, Initial(existing), entries);
    MergeAllUniqueWhen(p, folder, Initial(existing), entries);
    WrittenRows(m);
    WrittenCovers(m);
    WrittenCoversEntries(p, folder, Initial(existing), entries);
    Written(m)
  }

  /** Every ".csv" entry with the needed columns has its book written. */
  lemma WrittenCoversEntries(p: Policy, folder: string, master: Table, entries: seq<Entry>)
    ensures forall k :: 0 <= k < |entries| && IsCsv(entries[k]) && HasRequiredColumns(entries[k].content) ==>
              WritesTitle(Written(MergeAll(p, folder, master, entries)), BookTitle(p, Join(folder, entries[k].name)))
  {
    var m := MergeAll(p, folder, master, entries);
    forall k | 0 <= k < |entries| && IsCsv(entries[k]) && HasRequiredColumns(entries[k].content)
      ensures WritesTitle(Written(m), BookTitle(p, Join(folder, entries[k].name)))
    {
      CoveredAfterPrepare(p, folder, master, entries, k);
      WrittenHasTitle(m, BookTitle(p, Join(folder, entries[k].name)));
    }
  }

  lemma MergeAllUniqueWhen(p: Policy, folder: string, master: Table, entries: seq<Entry>)
    ensures UniqueTitles(master) ==> UniqueTitles(MergeAll(p, folder, master, entries))
  {
    if UniqueTitles(master) {
      MergeAllUnique(p, folder, master, entries);
    }
  }

  /** Every row survives a write and a read exactly as it was. */
  predicate Survives(t: Table) {
    forall i :: 0 <= i < |t| ==> ReadLine(WriteRow(t[i])) == t[i]
  }

  lemma LoadPersist(t: Table)
    requires Survives(t)
    ensures Load(Persist(t)) == t
  {
  }

  /** The clean-up keeps every title. */
  lemma PrepareKeepsTitle(m: Table, title: string)
    requires HasTitle(m, title)
    ensures HasTitle(Prepare(m), title)
  {
    var t := Prepare(m);
    var i :| 0 <= i < |m| && m[i].title == Some(title);
    assert m[i] in t;
    var j :| 0 <= j < |t| && t[j] == m[i];
  }

  /** Every book of the batch is still in the cleaned table. */
  lemma CoveredAfterPrepare(p: Policy, folder: string, master: Table, entries: seq<Entry>, k: nat)
    requires k < |entries| && IsCsv(entries[k]) && HasRequiredColumns(entries[k].content)
    ensures HasTitle(Prepare(MergeAll(p, folder, master, entries)), BookTitle(p, Join(folder, entries[k].name)))
  {
    MergeAllCovers(p, folder, master, entries, k);
    PrepareKeepsTitle(MergeAll(p, folder, master, entries), BookTitle(p, Join(folder, entries[k].name)));
  }

  /** Running data_cleaner.py again over the same folder, starting from the
      file it wrote, writes the same file: every book of the folder is a
      duplicate the second time. This needs the table to survive its own
      write and read, which fails when a title, author or genre is one of the
      strings pandas reads as NaN. */
  lemma CleanerRerunStable(existing: Option<seq<Line>>, folder: string, author: string, genre: string,
                           entries: seq<Entry>)
    requires Survives(CleanerTable(existing, folder, author, genre, entries))
    ensures var out := ProcessAllBooks(existing, folder, author, genre, entries);
            ProcessAllBooks(Some(out), folder, author, genre, entries) == out
  {
    var p := CleanerPolicy(author, genre);
    var t := CleanerTable(existing, folder, author, genre, entries);
    assert Written(MergeAll(p, folder, Initial(existing), entries)) == Persist(t);
    LoadPersist(t);
    forall k | 0 <= k < |entries| && IsCsv(entries[k]) && HasRequiredColumns(entries[k].content)
      ensures HasTitle(t, BookTitle(p, Join(folder, entries[k].name)))
    {
      CoveredAfterPrepare(p, folder, Initial(existing), entries, k);
    }
    MergeAllNothingNew(p, folder, t, entries);
    PrepareKeepsClean(t);
    assert Written(t) == Persist(t);
  }

  /** data_reframing.py's first write: sorted by title; its lines are exactly
      the titled rows of the merged table, and every ".csv" entry with the
      needed columns has its book written. */
  function ReframingFirstWrite(existing: Option<seq<Line>>, folder: string, entries: seq<Entry>): (f: seq<Line>)
    ensures SortedLines(f)
    ensures |f| <= |Initial(existing)| + |entries|
    ensures LinesFrom(f, MergeAll(ReframingPolicy, folder, Initial(existing), entries))
    ensures WritesAll(f, MergeAll(ReframingPolicy, folder, Initial(existing), entries))
    ensures |f| == |DropNull(MergeAll(ReframingPolicy, folder, Initial(existing), entries))|
    ensures forall k :: 0 <= k < |entries| && IsCsv(entries[k]) && HasRequiredColumns(entries[k].content) ==>
              WritesTitle(f, BookTitle(ReframingPolicy, Join(folder, entries[k].name)))
  {
    var m := MergeAll(ReframingPolicy, folder, Initial(existing), entries);
    WrittenRows(m);
    WrittenCovers(m);
    WrittenCoversEntries(ReframingPolicy, folder, Initial(existing), entries);
    Written(m)
  }

  /** data_reframing.py's second pass: read the file back, drop the rows
      without a title, sort, write again. */
  function ReloadPass(w: seq<Line>): (f: seq<Line>)
    ensures SortedLines(f)
    ensures |f| <= |w|
    ensures |f| == |DropNull(Load(w))|
  {
    Written(Load(w))
  }

  /** The reload pass writes the lines of the titled rows read back, each as
      often as its row occurs. */
  lemma ReloadPassCounts(w: seq<Line>)
    ensures multiset(ReloadPass(w)) == multiset(Persist(DropNull(Load(w))))
  {
    WrittenCounts(Load(w));
  }

  /** The file data_reframing.py leaves behind: sorted by title, and holding
      exactly the lines of the first write whose title does not read as NaN,
      each as it reads back and is written again. */
  function ReframingRun(existing: Option<seq<Line>>, folder: string, entries: seq<Entry>): (f: seq<Line>)
    ensures SortedLines(f)
    ensures |f| <= |Initial(existing)| + |entries|
    ensures |f| == |DropNull(Load(ReframingFirstWrite(existing, folder, entries)))|
    ensures var w := ReframingFirstWrite(existing, folder, entries);
            forall l :: l in f <==> exists i :: 0 <= i < |w| && w[i].title !in NullMarkers && l == WriteRow(ReadLine(w[i]))
  {
    ReloadPassRows(ReframingFirstWrite(existing, folder, entries));
    ReloadPass(ReframingFirstWrite(existing, folder, entries))
  }

  /** data_cleaner.py writes each titled row of the merged table as often as
      it occurs there. */
  lemma ProcessAllBooksCounts(existing: Option<seq<Line>>, folder: string, author: string, genre: string,
                              entries: seq<Entry>)
    ensures multiset(ProcessAllBooks(existing, folder, author, genre, entries)) ==
            multiset(Persist(DropNull(MergeAll(CleanerPolicy(author, genre), folder, Initial(existing), entries))))
  {
    WrittenCounts(MergeAll(CleanerPolicy(author, genre), folder, Initial(existing), entries));
  }

  /** data_reframing.py's first write holds each titled row of the merged
      table as often as it occurs there. */
  lemma ReframingFirstWriteCounts(existing: Option<seq<Line>>, folder: string, entries: seq<Entry>)
    ensures multiset(ReframingFirstWrite(existing, folder, entries)) ==
            multiset(Persist(DropNull(MergeAll(ReframingPolicy, folder, Initial(existing), entries))))
  {
    WrittenCounts(MergeAll(ReframingPolicy, folder, Initial(existing), entries));
  }

  /** The file data_reframing.py leaves holds each titled row of the first
      write read back, as often as it occurs there. */
  lemma ReframingRunCounts(existing: Option<seq<Line>>, folder: string, entries: seq<Entry>)
    ensures var w := ReframingFirstWrite(existing, folder, entries);
            multiset(ReframingRun(existing, folder, entries)) == multiset(Persist(DropNull(Load(w))))
  {
    ReloadPassCounts(ReframingFirstWrite(existing, folder, entries));
  }

  /** A field that reads back and is written again unchanged. */
  predicate Settled(s: string) {
    s !in NullMarkers || s == ""
  }

  /** A file the reload pass cannot change: no title reads as NaN, no author or
      genre changes on a read and a write, and the lines are sorted by title. */
  predicate Canonical(w: seq<Line>) {
    && (forall i :: 0 <= i < |w| ==> w[i].title !in NullMarkers && Settled(w[i].author) && Settled(w[i].genre))
    && SortedLines(w)
  }

  /** The reload pass keeps exactly the lines whose title does not read as
      NaN, each as it reads back and is written again. */
  lemma ReloadPassRows(w: seq<Line>)
    ensures forall l :: l in ReloadPass(w) <==>
              exists i :: 0 <= i < |w| && w[i].title !in NullMarkers && l == WriteRow(ReadLine(w[i]))
  {
    WrittenRows(Load(w));
    WrittenCovers(Load(w));
    LoadedLines(w, ReloadPass(w));
  }

  /** Lines that are exactly the titled rows of a file read back are the
      file's lines whose title does not read as NaN, read and written again. */
  lemma LoadedLines(w: seq<Line>, f: seq<Line>)
    requires LinesFrom(f, Load(w)) && WritesAll(f, Load(w))
    ensures forall l :: l in f <==>
              exists i :: 0 <= i < |w| && w[i].title !in NullMarkers && l == WriteRow(ReadLine(w[i]))
  {
    var t := Load(w);
    forall l | l in f
      ensures exists i :: 0 <= i < |w| && w[i].title !in NullMarkers && l == WriteRow(ReadLine(w[i]))
    {
      var j :| 0 <= j < |f| && f[j] == l;
      var r :| r in t && r.title.Some? && f[j] == WriteRow(r);
      var i :| 0 <= i < |w| && t[i] == r;
    }
    forall i | 0 <= i < |w| && w[i].title !in NullMarkers
      ensures WriteRow(ReadLine(w[i])) in f
    {
      assert t[i] in t;
    }
  }

  /** The reload pass always produces a canonical file. */
  lemma ReloadPassCanonical(w: seq<Line>)
    ensures Canonical(ReloadPass(w))
  {
    var t := Prepare(Load(w));
    var f := ReloadPass(w);
    PersistClean(t);
    forall j | 0 <= j < |f|
      ensures f[j].title !in NullMarkers && Settled(f[j].author) && Settled(f[j].genre)
    {
      assert t[j] in Load(w);
      var i :| 0 <= i < |w| && Load(w)[i] == t[j];
    }
  }

  /** A canonical file is left exactly as it is by the reload pass. */
  lemma ReloadPassKeepsCanonical(w: seq<Line>)
    requires Canonical(w)
    ensures ReloadPass(w) == w
  {
    var t := Load(w);
    assert NoNullTitles(t);
    assert SortedByTitle(t);
    PrepareKeepsClean(t);
    forall i | 0 <= i < |w|
      ensures WriteRow(t[i]) == w[i]
    {
      WriteReadCell(w[i].title);
      WriteReadCell(w[i].author);
      WriteReadCell(w[i].genre);
    }
  }

  /** The reload pass leaves a file unchanged exactly when it is canonical. */
  lemma ReloadPassFixedIffCanonical(w: seq<Line>)
    ensures ReloadPass(w) == w <==> Canonical(w)
  {
    ReloadPassCanonical(w);
    if Canonical(w) {
      ReloadPassKeepsCanonical(w);
    }
  }

  /** A second reload pass would change nothing more. */
  lemma ReloadPassSettles(w: seq<Line>)
    ensures ReloadPass(ReloadPass(w)) == ReloadPass(w)
  {
    ReloadPassCanonical(w);
    ReloadPassKeepsCanonical(ReloadPass(w));
  }

  /** A text cell that is written and read back without changing its field. */
  predicate SettledCell(c: Option<string>) {
    Settled(WriteCell(c))
  }

  /** No title is a string pandas reads as NaN. */
  predicate NoMarkerTitles(m: Table) {
    forall i :: 0 <= i < |m| && m[i].title.Some? ==> m[i].title.value !in NullMarkers
  }

  predicate CellsSettled(m: Table) {
    forall i :: 0 <= i < |m| ==> SettledCell(m[i].author) && SettledCell(m[i].genre)
  }

  /** Rows read from a file, and the new rows of data_reframing.py with their
      empty Author and Genre, all have settled Author and Genre cells. */
  lemma ReframingCellsSettled(existing: Option<seq<Line>>, folder: string, entries: seq<Entry>)
    ensures CellsSettled(MergeAll(ReframingPolicy, folder, Initial(existing), entries))
  {
    var m0 := Initial(existing);
    var m := MergeAll(ReframingPolicy, folder, m0, entries);
    MergeAllAdds(ReframingPolicy, folder, m0, entries);
    assert AllAdded(ReframingPolicy, folder, entries, m, |m0|);
    forall i | 0 <= i < |m|
      ensures SettledCell(m[i].author) && SettledCell(m[i].genre)
    {
      if i < |m0| {
        assert m[i] == m[..|m0|][i] == m0[i];
      } else {
        assert AddedBy(ReframingPolicy, folder, entries, m[i]);
      }
    }
  }

  /** When no merged title is a string pandas reads as NaN, the reload pass of
      data_reframing.py is redundant: the file it leaves is the first write. */
  lemma ReframingReloadRedundant(existing: Option<seq<Line>>, folder: string, entries: seq<Entry>)
    requires NoMarkerTitles(MergeAll(ReframingPolicy, folder, Initial(existing), entries))
    ensures ReframingRun(existing, folder, entries) == ReframingFirstWrite(existing, folder, entries)
  {
    ReframingCellsSettled(existing, folder, entries);
    ReloadRedundantFor(MergeAll(ReframingPolicy, folder, Initial(existing), entries));
  }

  lemma ReloadRedundantFor(m: Table)
    requires NoMarkerTitles(m) && CellsSettled(m)
    ensures ReloadPass(Written(m)) == Written(m)
  {
    WrittenCanonical(m);
    ReloadPassKeepsCanonical(Written(m));
  }

  /** Writing a table whose titles are no NaN markers and whose Author and
      Genre cells are settled gives a canonical file. */
  lemma WrittenCanonical(m: Table)
    requires NoMarkerTitles(m) && CellsSettled(m)
    ensures Canonical(Written(m))
  {
    var t := Prepare(m);
    var w := Persist(t);
    PersistClean(t);
    forall j | 0 <= j < |w|
      ensures w[j].title !in NullMarkers && Settled(w[j].author) && Settled(w[j].genre)
    {
      assert t[j] in m;
      var i :| 0 <= i < |m| && m[i] == t[j];
    }
  }

  /** A book whose title is a NaN marker ("NaN", "null", or the empty title of
      a file named "_reviews_sentiment.csv") is written by the first pass and
      gone after the reload. */
  lemma MarkerTitleDropped(existing: Option<seq<Line>>, folder: string, entries: seq<Entry>)
    ensures forall l :: l in ReframingRun(existing, folder, entries) ==> l.title !in NullMarkers
  {
    ReloadPassCanonical(ReframingFirstWrite(existing, folder, entries));
  }

  /** Extra/data_frames.py's table before the write: merged and sorted, with
      no null-title clean-up, so untitled rows of the existing file stay. */
  function FramesTable(existing: Option<seq<Line>>, folder: string, entries: seq<Entry>): (t: Table)
    ensures SortedByTitle(t)
    ensures multiset(t) == multiset(MergeAll(FramesPolicy, folder, Initial(existing), entries))
  {
    SortByTitle(MergeAll(FramesPolicy, folder, Initial(existing), entries))
  }

  /** Untitled rows are kept, and sort after every titled one. */
  lemma FramesUntitledLast(existing: Option<seq<Line>>, folder: string, entries: seq<Entry>)
    ensures var t := FramesTable(existing, folder, entries);
            && |t| == |MergeAll(FramesPolicy, folder, Initial(existing), entries)|
            && forall i, j :: 0 <= i < j < |t| && t[i].title.None? ==> t[j].title.None?
  {
    var t := FramesTable(existing, folder, entries);
    assert |t| == |multiset(t)|;
    assert |MergeAll(FramesPolicy, folder, Initial(existing), entries)|
        == |multiset(MergeAll(FramesPolicy, folder, Initial(existing), entries))|;
    forall i, j | 0 <= i < j < |t| && t[i].title.None?
      ensures t[j].title.None?
    {
      assert TitleLe(t[i].title, t[j].title);
    }
  }

  /** The file Extra/data_frames.py writes: one line per row of the sorted
      table, in order, so its lines are exactly the merged rows as written,
      untitled ones included. */
  function FramesRun(existing: Option<seq<Line>>, folder: string, entries: seq<Entry>): (f: seq<Line>)
    ensures |f| == |FramesTable(existing, folder, entries)|
    ensures forall i :: 0 <= i < |f| ==> f[i] == WriteRow(FramesTable(existing, folder, entries)[i])
    ensures forall l :: l in f <==>
              exists r :: r in MergeAll(FramesPolicy, folder, Initial(existing), entries) && l == WriteRow(r)
  {
    var t := FramesTable(existing, folder, entries);
    var m := MergeAll(FramesPolicy, folder, Initial(existing), entries);
    var f := Persist(t);
    assert forall r :: r in t <==> r in m by {
      assert forall r :: r in t <==> r in multiset(t);
      assert forall r :: r in m <==> r in multiset(m);
    }
    forall l | l in f ensures exists r :: r in m && l == WriteRow(r) {
      var i :| 0 <= i < |f| && f[i] == l;
      assert t[i] in t;
    }
    forall r | r in m ensures WriteRow(r) in f {
      var i :| 0 <= i < |t| && t[i] == r;
      assert f[i] == WriteRow(r);
    }
    f
  }
}
