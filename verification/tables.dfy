/** The master table of all books: its rows, how it is written to and read
    back from CSV, and the two clean-up steps applied before every write
    (drop rows without a title, sort by title). */
module Tables {
  import opened Outcomes
  import opened StringOrder

  /** One book. `None` in a text cell or in My Score is pandas' NaN. */
  datatype Row = Row(title: Option<string>, author: Option<string>, genre: Option<string>,
                     ending: real, journey: real, myScore: Option<int>)

  type Table = seq<Row>

  /** One line of the CSV file: a missing text cell is written as an empty field. */
  datatype Line = Line(title: string, author: string, genre: string,
                       ending: real, journey: real, myScore: Option<int>)

  /** The strings `pandas.read_csv` reads as NaN by default. */
  const NullMarkers: set<string> :=
    {"", "#N/A", "#N/A N/A", "#NA", "-1.#IND", "-1.#QNAN", "-NaN", "-nan", "1.#IND",
     "1.#QNAN", "<NA>", "N/A", "NA", "NULL", "NaN", "None", "n/a", "nan", "null"}

  function WriteCell(c: Option<string>): string {
    match c
    case None => ""
    case Some(s) => s
  }

  function ReadCell(s: string): Option<string> {
    if s in NullMarkers then None else Some(s)
  }

  /** A text cell survives a write and a read exactly when it is missing or
      its text is not a null marker. */
  lemma ReadWriteCell(c: Option<string>)
    ensures ReadCell(WriteCell(c)) == c <==> c.None? || c.value !in NullMarkers
  {
  }

  /** A written field survives a read and a re-write exactly when it is not a
      null marker other than the empty field. */
  lemma WriteReadCell(s: string)
    ensures WriteCell(ReadCell(s)) == s <==> s !in NullMarkers || s == ""
  {
  }

  function WriteRow(r: Row): Line {
    Line(WriteCell(r.title), WriteCell(r.author), WriteCell(r.genre), r.ending, r.journey, r.myScore)
  }

  function ReadLine(l: Line): Row {
    Row(ReadCell(l.title), ReadCell(l.author), ReadCell(l.genre), l.ending, l.journey, l.myScore)
  }

  /** `to_csv`: one line per row, in order. */
  function Persist(t: Table): (f: seq<Line>)
    ensures |f| == |t|
    ensures forall i :: 0 <= i < |t| ==> f[i] == WriteRow(t[i])
  {
    seq(|t|, i requires 0 <= i < |t| => WriteRow(t[i]))
  }

  /** Writing distributes over concatenation. */
  lemma PersistAppend(a: Table, b: Table)
    ensures Persist(a + b) == Persist(a) + Persist(b)
  {
    assert forall i :: 0 <= i < |a| ==> (a + b)[i] == a[i];
    assert forall i :: |a| <= i < |a| + |b| ==> (a + b)[i] == b[i - |a|];
  }

  /** Tables holding the same rows, each as often, are written as files
      holding the same lines, each as often. */
  lemma {:induction false} PersistPermutes(a: Table, b: Table)
    requires multiset(a) == multiset(b)
    ensures multiset(Persist(a)) == multiset(Persist(b))
    decreases |a|
  {
    if |a| > 0 {
      var j := IndexIn(a[0], b);
      RemoveOne(a, b, j);
      PersistPermutes(a[1..], b[..j] + b[j + 1..]);
      PersistStep(a, b, j);
    } else {
      EmptyPermutation(a, b);
    }
  }

  lemma EmptyPermutation<T>(a: seq<T>, b: seq<T>)
    requires |a| == 0 && multiset(a) == multiset(b)
    ensures b == []
  {
    assert |multiset(b)| == 0;
  }

  /** Writing the first row, then the rest, gives the same lines as writing
      the same row taken out of the middle of the other table. */
  lemma PersistStep(a: Table, b: Table, j: nat)
    requires |a| > 0 && j < |b| && b[j] == a[0]
    requires multiset(Persist(a[1..])) == multiset(Persist(b[..j] + b[j + 1..]))
    ensures multiset(Persist(a)) == multiset(Persist(b))
  {
    PersistCons(a);
    PersistSplit(b, j);
  }

  lemma PersistCons(a: Table)
    requires |a| > 0
    ensures multiset(Persist(a)) == multiset{WriteRow(a[0])} + multiset(Persist(a[1..]))
  {
    assert Persist(a) == [WriteRow(a[0])] + Persist(a[1..]);
  }

  lemma IndexIn<T>(x: T, b: seq<T>) returns (j: nat)
    requires x in multiset(b)
    ensures j < |b| && b[j] == x
  {
    j :| 0 <= j < |b| && b[j] == x;
  }

  /** Taking the same element out of two permutations leaves permutations. */
  lemma RemoveOne<T>(a: seq<T>, b: seq<T>, j: nat)
    requires |a| > 0 && j < |b| && b[j] == a[0] && multiset(a) == multiset(b)
    ensures multiset(a[1..]) == multiset(b[..j] + b[j + 1..])
  {
    assert b == b[..j] + [b[j]] + b[j + 1..];
    assert a == [a[0]] + a[1..];
    assert multiset(b) == multiset{a[0]} + multiset(b[..j] + b[j + 1..]);
    MultisetCancel(a[0], multiset(a[1..]), multiset(b[..j] + b[j + 1..]));
  }

  /** The lines of a table are the line of one of its rows and the lines of
      the others. */
  lemma PersistSplit(b: Table, j: nat)
    requires j < |b|
    ensures multiset(Persist(b)) == multiset{WriteRow(b[j])} + multiset(Persist(b[..j] + b[j + 1..]))
  {
    var f := Persist(b);
    assert f == f[..j] + [f[j]] + f[j + 1..];
    assert Persist(b[..j] + b[j + 1..]) == f[..j] + f[j + 1..];
  }

  lemma MultisetCancel<T>(x: T, p: multiset<T>, q: multiset<T>)
    requires multiset{x} + p == multiset{x} + q
    ensures p == q
  {
    forall y ensures p[y] == q[y] {
      assert (multiset{x} + p)[y] == (multiset{x} + q)[y];
    }
  }

  /** `read_csv`: one row per line, in order. */
  function Load(f: seq<Line>): (t: Table)
    ensures |t| == |f|
    ensures forall i :: 0 <= i < |f| ==> t[i] == ReadLine(f[i])
  {
    seq(|f|, i requires 0 <= i < |f| => ReadLine(f[i]))
  }

  /** `book_title in master_df['Book Title'].values`: a NaN title matches nothing. */
  predicate HasTitle(t: Table, title: string) {
    exists i :: 0 <= i < |t| && t[i].title == Some(title)
  }

  predicate NoNullTitles(t: Table) {
    forall i :: 0 <= i < |t| ==> t[i].title.Some?
  }

  /** No title occurs twice (NaN titles are never equal to anything). */
  predicate UniqueTitles(t: Table) {
    forall i, j :: 0 <= i < j < |t| && t[i].title.Some? ==> t[i].title != t[j].title
  }

  /** `master_df[master_df['Book Title'].notna()]`: the rows with a title, in order. */
  function DropNull(t: Table): (r: Table)
    ensures NoNullTitles(r)
    ensures |r| <= |t|
    ensures forall x :: x in r <==> x in t && x.title.Some?
    ensures multiset(r) <= multiset(t)
    ensures forall x :: multiset(r)[x] == if x.title.Some? then multiset(t)[x] else 0
  {
    if |t| == 0 then []
    else
      var rest := DropNull(t[1..]);
      assert t == [t[0]] + t[1..];
      assert multiset(t) == multiset{t[0]} + multiset(t[1..]);
      if t[0].title.Some? then [t[0]] + rest else rest
  }

  /** The titled rows keep their order: dropping distributes over
      concatenation. */
  lemma {:induction false} DropNullAppend(a: Table, b: Table)
    ensures DropNull(a + b) == DropNull(a) + DropNull(b)
    decreases |a|
  {
    if |a| == 0 {
      assert a + b == b;
    } else {
      assert (a + b)[0] == a[0];
      assert (a + b)[1..] == a[1..] + b;
      DropNullAppend(a[1..], b);
    }
  }

  /** A single row is kept exactly when it has a title. */
  lemma DropNullSingle(x: Row)
    ensures DropNull([x]) == if x.title.Some? then [x] else []
  {
    assert [x][1..] == [];
  }

  lemma {:induction false} DropNullKeeps(t: Table)
    requires NoNullTitles(t)
    ensures DropNull(t) == t
  {
    if |t| > 0 {
      DropNullKeeps(t[1..]);
      assert t == [t[0]] + t[1..];
    }
  }

  lemma {:induction false} DropNullUnique(t: Table)
    requires UniqueTitles(t)
    ensures UniqueTitles(DropNull(t))
  {
    if |t| > 0 {
      UniqueTail(t);
      DropNullUnique(t[1..]);
      var rest := DropNull(t[1..]);
      if t[0].title.Some? {
        forall k | 0 <= k < |rest| ensures rest[k].title != t[0].title {
          assert rest[k] in rest;
          var m :| 0 <= m < |t[1..]| && t[1..][m] == rest[k];
          assert t[m + 1] == rest[k];
        }
        UniqueCons(t[0], rest);
      }
    }
  }

  lemma UniqueTail(t: Table)
    requires |t| > 0 && UniqueTitles(t)
    ensures UniqueTitles(t[1..])
  {
    assert forall i :: 0 <= i < |t| - 1 ==> t[1..][i] == t[i + 1];
  }


  /** The order of `sort_values(by='Book Title')`: by title, NaN last. */
  predicate TitleLe(a: Option<string>, b: Option<string>) {
    match (a, b)
    case (Some(x), Some(y)) => LessEq(x, y)
    case (Some(_), None) => true
    case (None, None) => true
    case (None, Some(_)) => false
  }

  lemma TitleLeTotal(a: Option<string>, b: Option<string>)
    ensures TitleLe(a, b) || TitleLe(b, a)
  {
    if a.Some? && b.Some? {
      LessTotal(a.value, b.value);
    }
  }

  lemma TitleLeTransitive(a: Option<string>, b: Option<string>, c: Option<string>)
    requires TitleLe(a, b) && TitleLe(b, c)
    ensures TitleLe(a, c)
  {
    if a.Some? && b.Some? && c.Some? {
      LessEqTransitive(a.value, b.value, c.value);
    }
  }

  lemma TitleLeAntisymmetric(a: Option<string>, b: Option<string>)
    requires TitleLe(a, b) && TitleLe(b, a)
    ensures a == b
  {
    if a.Some? && b.Some? {
      LessEqAntisymmetric(a.value, b.value);
    }
  }

  predicate SortedByTitle(t: Table) {
    forall i, j :: 0 <= i < j < |t| ==> TitleLe(t[i].title, t[j].title)
  }

  /** Insert `x` into a sorted table before the first row it does not follow. */
  function Insert(x: Row, s: Table): (r: Table)
    requires SortedByTitle(s)
    ensures SortedByTitle(r)
    ensures multiset(r) == multiset(s) + multiset{x}
    ensures |r| == |s| + 1
    decreases |s|
  {
    if |s| == 0 then [x]
    else if TitleLe(x.title, s[0].title) then
      var r := [x] + s;
      forall i, j | 0 <= i < j < |r|
        ensures TitleLe(r[i].title, r[j].title)
      {
        if i == 0 && j > 1 {
          TitleLeTransitive(x.title, s[0].title, s[j - 1].title);
        }
      }
      r
    else
      TitleLeTotal(x.title, s[0].title);
      var rest := Insert(x, s[1..]);
      var r := [s[0]] + rest;
      forall j | 1 <= j < |r|
        ensures TitleLe(s[0].title, r[j].title)
      {
        assert r[j] in multiset(rest);
        assert r[j] in multiset(s[1..]) + multiset{x};
        if r[j] != x {
          assert r[j] in s[1..];
        }
      }
      assert s == [s[0]] + s[1..];
      r
  }

  /** `sort_values(by='Book Title')`: the same rows, ordered by title with
      NaN titles last. */
  function SortByTitle(t: Table): (r: Table)
    ensures SortedByTitle(r)
    ensures multiset(r) == multiset(t)
    ensures |r| == |t|
  {
    if |t| == 0 then []
    else
      assert t == [t[0]] + t[1..];
      Insert(t[0], SortByTitle(t[1..]))
  }

  /** Sorting keeps exactly the rows it was given. */
  lemma SortKeepsRows(t: Table)
    ensures forall x :: x in SortByTitle(t) <==> x in t
    ensures NoNullTitles(t) ==> NoNullTitles(SortByTitle(t))
  {
    var s := SortByTitle(t);
    assert forall x :: x in s <==> x in multiset(s);
    assert forall x :: x in t <==> x in multiset(t);
    assert forall i :: 0 <= i < |s| ==> s[i] in multiset(s);
  }

  /** Sorting a sorted table changes nothing. */
  lemma {:induction false} SortKeepsSorted(t: Table)
    requires SortedByTitle(t)
    ensures SortByTitle(t) == t
  {
    if |t| > 0 {
      SortKeepsSorted(t[1..]);
      assert t == [t[0]] + t[1..];
    }
  }

  lemma SortIdempotent(t: Table)
    ensures SortByTitle(SortByTitle(t)) == SortByTitle(t)
  {
    SortKeepsSorted(SortByTitle(t));
  }

  /** With distinct titles there is only one sorted order, so the result does
      not depend on the sorting algorithm (pandas' default is not stable). */
  lemma {:induction false} SortedOrderIsUnique(a: Table, b: Table)
    requires SortedByTitle(a) && SortedByTitle(b) && multiset(a) == multiset(b)
    requires forall i, j :: 0 <= i < j < |a| ==> a[i].title != a[j].title
    ensures a == b
    decreases |a|
  {
    assert |a| == |multiset(a)| == |multiset(b)| == |b|;
    if |a| > 0 {
      SortedHeadsAgree(a, b);
      TailMultiset(a);
      TailMultiset(b);
      SortedOrderIsUnique(a[1..], b[1..]);
      assert a == [a[0]] + a[1..] && b == [b[0]] + b[1..];
    }
  }

  lemma SortedHeadsAgree(a: Table, b: Table)
    requires SortedByTitle(a) && SortedByTitle(b) && multiset(a) == multiset(b)
    requires forall i, j :: 0 <= i < j < |a| ==> a[i].title != a[j].title
    requires |a| > 0 && |b| > 0
    ensures a[0] == b[0]
  {
    assert a[0] in multiset(b) && b[0] in multiset(a);
    var j :| 0 <= j < |b| && b[j] == a[0];
    var i :| 0 <= i < |a| && a[i] == b[0];
    assert TitleLe(a[0].title, a[i].title);
    assert TitleLe(b[0].title, b[j].title);
    TitleLeAntisymmetric(a[0].title, b[0].title);
  }

  lemma TailMultiset(a: Table)
    requires |a| > 0
    ensures multiset(a[1..]) == multiset(a) - multiset{a[0]}
  {
    assert a == [a[0]] + a[1..];
  }

  /** A row whose title is new can be put in front of a table with unique titles. */
  lemma UniqueCons(h: Row, rest: Table)
    requires UniqueTitles(rest)
    requires h.title.Some? ==> forall k :: 0 <= k < |rest| ==> rest[k].title != h.title
    ensures UniqueTitles([h] + rest)
  {
    var r := [h] + rest;
    assert forall i :: 1 <= i < |r| ==> r[i] == rest[i - 1];
  }

  /** Inserting a row whose title is new keeps titles unique. */
  lemma {:induction false} InsertUnique(x: Row, s: Table)
    requires SortedByTitle(s) && UniqueTitles(s)
    requires x.title.Some? ==> forall k :: 0 <= k < |s| ==> s[k].title != x.title
    ensures UniqueTitles(Insert(x, s))
    decreases |s|
  {
    if |s| == 0 {
    } else if TitleLe(x.title, s[0].title) {
      UniqueCons(x, s);
    } else {
      var tail := s[1..];
      assert forall k :: 0 <= k < |tail| ==> tail[k] == s[k + 1];
      InsertUnique(x, tail);
      var rest := Insert(x, tail);
      forall j | 0 <= j < |rest| && s[0].title.Some?
        ensures rest[j].title != s[0].title
      {
        assert rest[j] in multiset(rest);
        if rest[j] != x {
          assert rest[j] in multiset(tail);
          var k :| 0 <= k < |tail| && tail[k] == rest[j];
          assert s[k + 1] == rest[j];
        }
      }
      UniqueCons(s[0], rest);
    }
  }

  /** Sorting keeps titles unique. */
  lemma {:induction false} SortUnique(t: Table)
    requires UniqueTitles(t)
    ensures UniqueTitles(SortByTitle(t))
  {
    if |t| > 0 {
      assert forall k :: 0 <= k < |t[1..]| ==> t[1..][k] == t[k + 1];
      SortUnique(t[1..]);
      var s := SortByTitle(t[1..]);
      forall k | 0 <= k < |s| && t[0].title.Some?
        ensures s[k].title != t[0].title
      {
        assert s[k] in multiset(t[1..]);
        var m :| 0 <= m < |t[1..]| && t[1..][m] == s[k];
        assert t[m + 1] == s[k];
      }
      InsertUnique(t[0], s);
    }
  }
}
