/** scikit-learn's `LabelEncoder` as the two prediction scripts use it. A
    label is a text cell; `None` is pandas' NaN, taken to be the single NaN
    object pandas fills missing cells with. `fit` keeps the sorted distinct
    labels with a missing label last, `transform` looks a label up in a
    dictionary built from `classes_` (so a label listed twice gets its last
    position), and numpy's `in` never finds NaN. */
module LabelEncoding {
  import opened Outcomes
  import opened StringOrder

  type Label = Option<string>

  predicate NoDuplicates<T(==)>(s: seq<T>) {
    forall i, j :: 0 <= i < j < |s| ==> s[i] != s[j]
  }

  predicate StrictlySorted(s: seq<string>) {
    forall i, j :: 0 <= i < j < |s| ==> Less(s[i], s[j])
  }

  /** Put `x` into a strictly sorted list unless it is already there. */
  function InsertSorted(x: string, s: seq<string>): (r: seq<string>)
    requires StrictlySorted(s)
    ensures StrictlySorted(r)
    ensures forall y :: y in r <==> y == x || y in s
    decreases |s|
  {
    if |s| == 0 then [x]
    else if x == s[0] then s
    else if Less(x, s[0]) then
      var r := [x] + s;
      forall i, j | 0 <= i < j < |r| ensures Less(r[i], r[j]) {
        if i == 0 && j > 1 {
          LessTransitive(x, s[0], s[j - 1]);
        }
      }
      r
    else
      LessTotal(x, s[0]);
      assert s == [s[0]] + s[1..];
      var rest := InsertSorted(x, s[1..]);
      var r := [s[0]] + rest;
      forall j | 1 <= j < |r| ensures Less(s[0], r[j]) {
        assert r[j] in rest;
      }
      r
  }

  /** `np.unique` on strings: the distinct values in increasing order. */
  function SortedDistinct(xs: seq<string>): (r: seq<string>)
    ensures StrictlySorted(r)
    ensures forall y :: y in r <==> y in xs
  {
    if |xs| == 0 then []
    else
      assert xs == [xs[0]] + xs[1..];
      InsertSorted(xs[0], SortedDistinct(xs[1..]))
  }

  /** A strictly sorted list is determined by its members. */
  lemma {:induction false} StrictlySortedUnique(a: seq<string>, b: seq<string>)
    requires StrictlySorted(a) && StrictlySorted(b)
    requires forall y :: y in a <==> y in b
    ensures a == b
    decreases |a| + |b|
  {
    if |a| > 0 && |b| > 0 {
      assert a[0] in b && b[0] in a;
      var i :| 0 <= i < |b| && b[i] == a[0];
      var j :| 0 <= j < |a| && a[j] == b[0];
      if a[0] != b[0] {
        assert Less(b[0], a[0]) && Less(a[0], b[0]);
        LessAsymmetric(a[0], b[0]);
      }
      assert a == [a[0]] + a[1..] && b == [b[0]] + b[1..];
      forall y | y in a[1..] ensures y in b[1..] {
        var k :| 0 <= k < |a[1..]| && a[1..][k] == y;
        assert Less(a[0], a[k + 1]);
        LessIrreflexive(a[0]);
        assert y in b && y != b[0];
      }
      forall y | y in b[1..] ensures y in a[1..] {
        var k :| 0 <= k < |b[1..]| && b[1..][k] == y;
        assert Less(b[0], b[k + 1]);
        LessIrreflexive(b[0]);
        assert y in a && y != a[0];
      }
      StrictlySortedUnique(a[1..], b[1..]);
      assert a == [a[0]] + a[1..] && b == [b[0]] + b[1..];
    } else {
      EmptyIffNoMember(a);
      EmptyIffNoMember(b);
    }
  }

  lemma EmptyIffNoMember(s: seq<string>)
    ensures |s| == 0 <==> forall y :: y !in s
  {
    if |s| > 0 {
      assert s[0] in s;
    }
  }

  /** The text labels, in order, with missing ones skipped. */
  function Present(labels: seq<Label>): (r: seq<string>)
    ensures forall y :: y in r <==> Some(y) in labels
  {
    if |labels| == 0 then []
    else
      assert labels == [labels[0]] + labels[1..];
      var rest := Present(labels[1..]);
      if labels[0].Some? then [labels[0].value] + rest else rest
  }

  function Lift(s: seq<string>): (r: seq<Label>)
    ensures |r| == |s| && forall i :: 0 <= i < |s| ==> r[i] == Some(s[i])
  {
    seq(|s|, i requires 0 <= i < |s| => Some(s[i]))
  }

  /** `LabelEncoder.fit`: `classes_` holds every label once, the texts in
      increasing order, and a missing label, if any, last. */
  function Fit(labels: seq<Label>): (classes: seq<Label>)
    ensures forall x :: x in classes <==> x in labels
    ensures NoDuplicates(classes)
    ensures forall i, j :: 0 <= i < j < |classes| && classes[j].Some? ==>
              classes[i].Some? && Less(classes[i].value, classes[j].value)
  {
    var s := SortedDistinct(Present(labels));
    var lifted := Lift(s);
    var classes := lifted + (if None in labels then [None] else []);
    forall i, j | 0 <= i < j < |classes| ensures classes[i] != classes[j] {
      if j < |s| {
        LessIrreflexive(s[i]);
      }
    }
    forall x ensures x in classes <==> x in labels {
      if x.Some? && x in labels {
        assert x.value in s;
        var k :| 0 <= k < |s| && s[k] == x.value;
        assert classes[k] == x;
      }
      if x in classes && x.Some? {
        var k :| 0 <= k < |classes| && classes[k] == x;
        assert k < |s| && s[k] in s;
      }
    }
    classes
  }

  /** Fitting depends only on which labels occur, not on their order or
      repetition. */
  lemma FitDependsOnlyOnMembers(a: seq<Label>, b: seq<Label>)
    requires forall x :: x in a <==> x in b
    ensures Fit(a) == Fit(b)
  {
    StrictlySortedUnique(SortedDistinct(Present(a)), SortedDistinct(Present(b)));
  }

  /** The code `transform` gives a label: its last position in `classes_`. */
  function Code(classes: seq<Label>, x: Label): (k: nat)
    requires x in classes
    ensures k < |classes| && classes[k] == x
    ensures forall j :: k < j < |classes| ==> classes[j] != x
    decreases |classes|
  {
    var n := |classes| - 1;
    if classes[n] == x then n
    else
      assert classes == classes[..n] + [classes[n]];
      Code(classes[..n], x)
  }

  /** Without duplicates the code is the label's only position. */
  lemma CodeIsPosition(classes: seq<Label>, i: nat)
    requires NoDuplicates(classes) && i < |classes|
    ensures Code(classes, classes[i]) == i
  {
  }

  /** `transform`: one code per label. */
  function Transform(classes: seq<Label>, labels: seq<Label>): (codes: seq<nat>)
    requires forall x :: x in labels ==> x in classes
    ensures |codes| == |labels|
    ensures forall i :: 0 <= i < |labels| ==> codes[i] < |classes| && classes[codes[i]] == labels[i]
  {
    seq(|labels|, i requires 0 <= i < |labels| => Code(classes, labels[i]))
  }

  /** `fit_transform` round trip: reading each code back through `classes_`
      gives the label; equal labels share a code and different labels get
      different codes; text labels are numbered in increasing order. */
  lemma FitTransformFaithful(labels: seq<Label>, i: nat, j: nat)
    requires i < |labels| && j < |labels|
    ensures var classes := Fit(labels);
            var codes := Transform(classes, labels);
            && classes[codes[i]] == labels[i]
            && (codes[i] == codes[j] <==> labels[i] == labels[j])
            && (labels[i].Some? && labels[j].Some? && Less(labels[i].value, labels[j].value) ==> codes[i] < codes[j])
  {
    var classes := Fit(labels);
    var codes := Transform(classes, labels);
    if labels[i].Some? && labels[j].Some? && Less(labels[i].value, labels[j].value) {
      if codes[j] < codes[i] {
        LessAsymmetric(labels[i].value, labels[j].value);
      } else if codes[i] == codes[j] {
        LessIrreflexive(labels[i].value);
      }
    }
  }

  /** numpy's `label in classes_`: a text label listed there; NaN never is. */
  predicate Found(classes: seq<Label>, x: Label) {
    x.Some? && x in classes
  }

  /** The position of the first occurrence of `x`. */
  function FirstAt(labels: seq<Label>, x: Label): (k: nat)
    requires x in labels
    ensures k < |labels| && labels[k] == x && x !in labels[..k]
  {
    if labels[0] == x then 0
    else
      assert labels == [labels[0]] + labels[1..];
      var k := FirstAt(labels[1..], x);
      assert labels[..k + 1] == [labels[0]] + labels[1..][..k];
      k + 1
  }

  /** A label of a prefix first occurs in the whole list where it first
      occurs in the prefix. */
  lemma FirstAtPrefix(labels: seq<Label>, n: nat, x: Label)
    requires n <= |labels| && x in labels[..n]
    ensures FirstAt(labels, x) == FirstAt(labels[..n], x)
  {
    var a := FirstAt(labels, x);
    var b := FirstAt(labels[..n], x);
    assert labels[..n][b] == labels[b];
  }

  /** `Series.unique()`: each label once, in order of first appearance. */
  function Distinct(labels: seq<Label>): (r: seq<Label>)
    ensures NoDuplicates(r)
    ensures forall x :: x in r <==> x in labels
    ensures forall i, j :: 0 <= i < j < |r| ==> FirstAt(labels, r[i]) < FirstAt(labels, r[j])
    decreases |labels|
  {
    if |labels| == 0 then []
    else
      var n := |labels| - 1;
      assert labels == labels[..n] + [labels[n]];
      var d := Distinct(labels[..n]);
      forall i | 0 <= i < |d| ensures FirstAt(labels, d[i]) == FirstAt(labels[..n], d[i]) {
        FirstAtPrefix(labels, n, d[i]);
      }
      if labels[n] in d then d
      else
        var r := d + [labels[n]];
        assert labels[n] !in labels[..n];
        assert FirstAt(labels, labels[n]) == n;
        forall i, j | 0 <= i < j < |r| ensures FirstAt(labels, r[i]) < FirstAt(labels, r[j]) {
          if j == |d| {
            assert r[i] == d[i];
          }
        }
        r
  }

  /** The labels a loop over `labels` appends, given the classes so far. */
  function Unseen(classes: seq<Label>, us: seq<Label>): (r: seq<Label>)
    ensures |r| <= |us|
    ensures forall x :: x in r <==> x in us && !Found(classes, x)
  {
    if |us| == 0 then []
    else
      assert us == [us[0]] + us[1..];
      var rest := Unseen(classes, us[1..]);
      if Found(classes, us[0]) then rest else [us[0]] + rest
  }

  /** The unseen labels keep the loop's order: the subsequence of the loop's
      labels that are not found, one piece after the other. */
  lemma {:induction false} UnseenAppend(classes: seq<Label>, a: seq<Label>, b: seq<Label>)
    ensures Unseen(classes, a + b) == Unseen(classes, a) + Unseen(classes, b)
    decreases |a|
  {
    if |a| == 0 {
      assert a + b == b;
    } else {
      assert (a + b)[0] == a[0];
      assert (a + b)[1..] == a[1..] + b;
      UnseenAppend(classes, a[1..], b);
    }
  }

  /** A single label is appended exactly when it is not found. */
  lemma UnseenSingle(classes: seq<Label>, x: Label)
    ensures Unseen(classes, [x]) == if Found(classes, x) then [] else [x]
  {
    assert [x][1..] == [];
  }

  /** The loop of model_b.py over `unique()`, appending every label not found
      in the classes grown so far. */
  function ExtendLoop(classes: seq<Label>, us: seq<Label>): (r: seq<Label>)
    ensures |classes| <= |r| <= |classes| + |us| && r[..|classes|] == classes
    ensures forall x :: x in us ==> x in r
    decreases |us|
  {
    if |us| == 0 then classes
    else
      assert us == [us[0]] + us[1..];
      var grown := if Found(classes, us[0]) then classes else classes + [us[0]];
      var r := ExtendLoop(grown, us[1..]);
      assert r[..|classes|] == r[..|grown|][..|classes|];
      assert us[0] in grown;
      assert us[0] in r[..|grown|];
      r
  }

  /** For distinct labels the growing loop is the same as appending the labels
      not found in the original classes, in order. */
  lemma {:induction false} ExtendLoopAppendsUnseen(classes: seq<Label>, us: seq<Label>)
    requires NoDuplicates(us)
    ensures ExtendLoop(classes, us) == classes + Unseen(classes, us)
    decreases |us|
  {
    if |us| == 0 {
      assert classes + [] == classes;
    } else {
      var x := us[0];
      var tail := us[1..];
      TailNoDuplicates(us);
      if Found(classes, x) {
        ExtendLoopAppendsUnseen(classes, tail);
        FoundStep(classes, us, ExtendLoop(classes, tail));
      } else {
        ExtendLoopAppendsUnseen(classes + [x], tail);
        SameUnseen(classes, x, tail);
        UnseenStep(classes, us, ExtendLoop(classes + [x], tail));
      }
    }
  }

  lemma TailNoDuplicates(us: seq<Label>)
    requires |us| > 0 && NoDuplicates(us)
    ensures NoDuplicates(us[1..]) && us[0] !in us[1..]
  {
    assert forall k :: 0 <= k < |us[1..]| ==> us[1..][k] == us[k + 1];
  }

  /** One round of the loop over a label already found. */
  lemma FoundStep(classes: seq<Label>, us: seq<Label>, rest: seq<Label>)
    requires |us| > 0 && Found(classes, us[0])
    requires rest == ExtendLoop(classes, us[1..]) == classes + Unseen(classes, us[1..])
    ensures ExtendLoop(classes, us) == classes + Unseen(classes, us)
  {
  }

  /** One round of the loop over a label not found: it is appended, and the
      rest of the loop appends what it would have appended anyway. */
  lemma UnseenStep(classes: seq<Label>, us: seq<Label>, rest: seq<Label>)
    requires |us| > 0 && !Found(classes, us[0])
    requires rest == ExtendLoop(classes + [us[0]], us[1..]) == classes + [us[0]] + Unseen(classes, us[1..])
    ensures ExtendLoop(classes, us) == classes + Unseen(classes, us)
  {
    var u := Unseen(classes, us[1..]);
    calc {
      ExtendLoop(classes, us);
      rest;
      classes + [us[0]] + u;
      { SeqAssoc(classes, [us[0]], u); }
      classes + ([us[0]] + u);
      classes + Unseen(classes, us);
    }
  }

  lemma SeqAssoc<T>(a: seq<T>, b: seq<T>, c: seq<T>)
    ensures a + b + c == a + (b + c)
  {
  }

  /** Adding a label not in the rest of the loop does not change what the
      rest appends. */
  lemma {:induction false} SameUnseen(classes: seq<Label>, x: Label, us: seq<Label>)
    requires x !in us
    ensures Unseen(classes + [x], us) == Unseen(classes, us)
    decreases |us|
  {
    if |us| > 0 {
      assert us[0] != x;
      assert us[0] in classes + [x] <==> us[0] in classes;
      SameUnseen(classes, x, us[1..]);
    }
  }

  /** The classes after model_b.py's update: the fitted classes unchanged in
      front, every input label present, and the unseen labels (NaN always
      among them) appended once each in order of first appearance. */
  function Extend(classes: seq<Label>, labels: seq<Label>): (r: seq<Label>)
    ensures r == classes + Unseen(classes, Distinct(labels))
    ensures forall x :: x in labels ==> x in r
    ensures forall x :: x in r[|classes|..] ==> x in labels && !Found(classes, x)
  {
    ExtendLoopAppendsUnseen(classes, Distinct(labels));
    var r := ExtendLoop(classes, Distinct(labels));
    assert r[|classes|..] == Unseen(classes, Distinct(labels));
    forall x | x in labels ensures x in r {
      if !Found(classes, x) {
        assert x in Unseen(classes, Distinct(labels));
      }
    }
    r
  }

  /** A loop over distinct labels appends each of them at most once. */
  lemma {:induction false} UnseenNoDuplicates(classes: seq<Label>, us: seq<Label>)
    requires NoDuplicates(us)
    ensures NoDuplicates(Unseen(classes, us))
    decreases |us|
  {
    if |us| > 0 {
      var tail := us[1..];
      assert forall k :: 0 <= k < |tail| ==> tail[k] == us[k + 1];
      UnseenNoDuplicates(classes, tail);
      var rest := Unseen(classes, tail);
      if !Found(classes, us[0]) {
        var r := [us[0]] + rest;
        assert us[0] !in tail;
        forall i, j | 0 <= i < j < |r| ensures r[i] != r[j] {
          if i == 0 {
            assert r[j] == rest[j - 1] && rest[j - 1] in rest;
          } else {
            assert r[i] == rest[i - 1] && r[j] == rest[j - 1];
          }
        }
      }
    }
  }

  /** The update keeps the class list duplicate-free, so long as NaN is not
      both among the fitted classes and among the input labels (numpy never
      finds NaN, so it would be appended a second time). */
  lemma ExtendNoDuplicates(classes: seq<Label>, labels: seq<Label>)
    requires NoDuplicates(classes)
    requires None in labels ==> None !in classes
    ensures NoDuplicates(Extend(classes, labels))
  {
    var u := Unseen(classes, Distinct(labels));
    UnseenNoDuplicates(classes, Distinct(labels));
    var r := classes + u;
    forall i, j | 0 <= i < j < |r| ensures r[i] != r[j] {
      if j >= |classes| {
        assert r[j] == u[j - |classes|] && u[j - |classes|] in u;
        if i < |classes| {
          assert r[i] in classes;
        } else {
          assert r[i] == u[i - |classes|];
        }
      }
    }
  }

  /** A text label the encoder was fitted on keeps its code after the update,
      so the same author gets the same number in training and in prediction. */
  lemma ExtendKeepsCodes(classes: seq<Label>, labels: seq<Label>, x: Label)
    requires Found(classes, x)
    ensures Code(Extend(classes, labels), x) == Code(classes, x)
  {
    var r := Extend(classes, labels);
    var k := Code(classes, x);
    assert r[..|classes|] == classes;
    forall j | k < j < |r| ensures r[j] != x {
      if j >= |classes| {
        assert r[j] in r[|classes|..];
      }
    }
    CodeLast(r, x, k);
  }

  /** A position holding `x` with no `x` after it is the code. */
  lemma {:induction false} CodeLast(classes: seq<Label>, x: Label, k: nat)
    requires k < |classes| && classes[k] == x
    requires forall j :: k < j < |classes| ==> classes[j] != x
    ensures Code(classes, x) == k
  {
    var c := Code(classes, x);
    if c < k {
    } else if c > k {
    }
  }

  /** A label not found in the fitted classes gets a code past them. */
  lemma ExtendUnseenCode(classes: seq<Label>, labels: seq<Label>, x: Label)
    requires x in labels && !Found(classes, x)
    ensures Code(Extend(classes, labels), x) >= |classes|
  {
    var r := Extend(classes, labels);
    assert x in Unseen(classes, Distinct(labels));
    var k :| 0 <= k < |Unseen(classes, Distinct(labels))| && Unseen(classes, Distinct(labels))[k] == x;
    assert r[|classes| + k] == x;
  }

  const UnknownLabel: string := "unknown"

  /** model.py's handling of one new label: a known label keeps its code; an
      unknown one appends "unknown" and takes the new last position, even when
      "unknown" was already a class. */
  function EncodeWithUnknown(classes: seq<Label>, x: string): (r: (seq<Label>, nat))
    ensures Some(x) in classes ==> r.0 == classes && r.1 < |classes| && classes[r.1] == Some(x)
    ensures Some(x) !in classes ==> r.0 == classes + [Some(UnknownLabel)] && r.1 == |classes|
  {
    if Some(x) in classes then (classes, Code(classes, Some(x)))
    else
      var grown := classes + [Some(UnknownLabel)];
      CodeLast(grown, Some(UnknownLabel), |classes|);
      (grown, Code(grown, Some(UnknownLabel)))
  }
}
