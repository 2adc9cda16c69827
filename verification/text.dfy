/** String operations the Python code uses: `str.strip`, `str.replace`, `in`,
    `str.lower`, and the two `os.path` helpers `join` and `basename`. */
module Text {

  /** The zero-width space U+200B; Python's `str.isspace` does not count it. */
  const ZeroWidthSpace: char := '\U{200B}'

  /** The characters for which Python's `str.isspace()` is true, i.e. what a
      bare `str.strip()` removes. */
  predicate IsSpace(c: char) {
    || ('\t' <= c <= '\r')
    || ('\U{1C}' <= c <= '\U{1F}')
    || c == ' ' || c == '\U{85}' || c == '\U{A0}' || c == '\U{1680}'
    || ('\U{2000}' <= c <= '\U{200A}')
    || c == '\U{2028}' || c == '\U{2029}' || c == '\U{202F}' || c == '\U{205F}'
    || c == '\U{3000}'
  }

  predicate AllSpace(s: string) {
    forall i :: 0 <= i < |s| ==> IsSpace(s[i])
  }

  /** Neither the first nor the last character is whitespace. */
  predicate NoEdgeSpace(s: string) {
    |s| == 0 || (!IsSpace(s[0]) && !IsSpace(s[|s| - 1]))
  }

  function TrimStart(s: string): (r: string)
    ensures |r| <= |s| && r == s[|s| - |r|..]
    ensures AllSpace(s[..|s| - |r|])
    ensures |r| > 0 ==> !IsSpace(r[0])
  {
    if |s| > 0 && IsSpace(s[0]) then TrimStart(s[1..]) else s
  }

  function TrimEnd(s: string): (r: string)
    ensures |r| <= |s| && r == s[..|r|]
    ensures AllSpace(s[|r|..])
    ensures |r| > 0 ==> !IsSpace(r[|r| - 1])
  {
    if |s| > 0 && IsSpace(s[|s| - 1]) then TrimEnd(s[..|s| - 1]) else s
  }

  /** Python's `s.strip()`: trim whitespace from both ends. */
  function Strip(s: string): (r: string)
    ensures NoEdgeSpace(r)
    ensures |r| <= |s|
  {
    TrimEnd(TrimStart(s))
  }

  /** The stripped text is a contiguous piece of `s`, everything cut on either
      side is whitespace, and the piece neither starts nor ends with
      whitespace. */
  lemma StripIsTrimmedPiece(s: string)
    ensures var r := Strip(s);
            exists i :: 0 <= i <= |s| - |r| && r == s[i..i + |r|]
                        && AllSpace(s[..i]) && AllSpace(s[i + |r|..])
  {
    var a := TrimStart(s);
    var r := TrimEnd(a);
    var i := |s| - |a|;
    assert a == s[i..];
    assert r == a[..|r|];
    assert r == s[i..i + |r|];
    assert AllSpace(s[..i]);
    assert s[i + |r|..] == a[|r|..];
    assert AllSpace(s[i + |r|..]);
  }

  /** Every character `strip` keeps comes from the input. */
  lemma StripKeepsChars(s: string)
    ensures forall k :: 0 <= k < |Strip(s)| ==> Strip(s)[k] in s
  {
    var a := TrimStart(s);
    var r := TrimEnd(a);
    var i := |s| - |a|;
    assert a == s[i..];
    assert r == a[..|r|];
    forall k | 0 <= k < |r| ensures r[k] in s {
      assert r[k] == s[i + k];
    }
  }

  lemma StripKeepsUntrimmed(s: string)
    requires NoEdgeSpace(s)
    ensures Strip(s) == s
  {
  }

  /** Whitespace on either side never survives `strip`. */
  lemma {:induction false} StripIgnoresPadding(a: string, s: string, b: string)
    requires AllSpace(a) && AllSpace(b)
    ensures Strip(a + s + b) == Strip(s)
  {
    var t := a + s + b;
    assert t == a + (s + b);
    calc {
      Strip(t);
      TrimEnd(TrimStart(a + (s + b)));
      { TrimStartPadding(a, s + b); }
      TrimEnd(TrimStart(s + b));
      { TrimPadded(s, b); }
      Strip(s);
    }
  }

  lemma {:induction false} TrimPadded(s: string, b: string)
    requires AllSpace(b)
    ensures TrimEnd(TrimStart(s + b)) == TrimEnd(TrimStart(s))
  {
    var front := TrimStart(s);
    TrimStartSuffix(s, b);
    if |front| > 0 {
      TrimEndPadding(front, b);
    }
  }

  lemma {:induction false} TrimStartPadding(a: string, s: string)
    requires AllSpace(a)
    ensures TrimStart(a + s) == TrimStart(s)
    decreases |a|
  {
    if |a| > 0 {
      assert (a + s)[0] == a[0];
      assert (a + s)[1..] == a[1..] + s;
      TrimStartPadding(a[1..], s);
    } else {
      assert a + s == s;
    }
  }

  /** Trimming the front of `s + b`, for whitespace `b`, keeps all of `b`
      behind the trimmed `s`, unless `s` was all whitespace. */
  lemma {:induction false} TrimStartSuffix(s: string, b: string)
    requires AllSpace(b)
    ensures |TrimStart(s)| > 0 ==> TrimStart(s + b) == TrimStart(s) + b
    ensures |TrimStart(s)| == 0 ==> TrimStart(s + b) == []
    decreases |s|
  {
    if |s| > 0 {
      assert (s + b)[0] == s[0];
      assert (s + b)[1..] == s[1..] + b;
      if IsSpace(s[0]) {
        TrimStartSuffix(s[1..], b);
      }
    } else {
      assert s + b == b;
      AllSpaceTrimStart(b);
    }
  }

  lemma {:induction false} AllSpaceTrimStart(s: string)
    requires AllSpace(s)
    ensures TrimStart(s) == []
    decreases |s|
  {
    if |s| > 0 {
      AllSpaceTrimStart(s[1..]);
    }
  }

  lemma {:induction false} TrimEndPadding(s: string, b: string)
    requires AllSpace(b)
    ensures TrimEnd(s + b) == TrimEnd(s)
    decreases |b|
  {
    if |b| > 0 {
      assert (s + b)[|s + b| - 1] == b[|b| - 1];
      assert (s + b)[..|s + b| - 1] == s + b[..|b| - 1];
      TrimEndPadding(s, b[..|b| - 1]);
    } else {
      assert s + b == s;
    }
  }

  /** `s.replace(c, '')` for a single character `c`. */
  function RemoveChar(s: string, c: char): (r: string)
    ensures c !in r
    ensures forall x :: x in r <==> x in s && x != c
    ensures |r| <= |s|
  {
    if |s| == 0 then []
    else if s[0] == c then RemoveChar(s[1..], c)
    else [s[0]] + RemoveChar(s[1..], c)
  }

  lemma {:induction false} RemoveCharAbsent(s: string, c: char)
    requires c !in s
    ensures RemoveChar(s, c) == s
    decreases |s|
  {
    if |s| > 0 {
      RemoveCharAbsent(s[1..], c);
    }
  }

  lemma {:induction false} RemoveCharAppend(s: string, t: string, c: char)
    ensures RemoveChar(s + t, c) == RemoveChar(s, c) + RemoveChar(t, c)
    decreases |s|
  {
    if |s| == 0 {
      assert s + t == t;
    } else {
      assert (s + t)[1..] == s[1..] + t;
      RemoveCharAppend(s[1..], t, c);
    }
  }

  predicate StartsWith(s: string, p: string) {
    |p| <= |s| && s[..|p|] == p
  }

  predicate EndsWith(s: string, p: string) {
    |p| <= |s| && s[|s| - |p|..] == p
  }

  /** Python's `p in s` for strings: `p` occurs somewhere in `s`. */
  predicate Contains(s: string, p: string)
    decreases |s|
  {
    StartsWith(s, p) || (|s| > 0 && Contains(s[1..], p))
  }

  /** Appending a character that cannot end `p` creates no occurrence of `p`. */
  lemma {:induction false} ContainsAppendChar(s: string, p: string, c: char)
    requires |p| > 0 && p[|p| - 1] != c && !Contains(s, p)
    ensures !Contains(s + [c], p)
    decreases |s|
  {
    var w := s + [c];
    if |p| <= |s| {
      assert w[..|p|] == s[..|p|];
    } else if |p| == |w| {
      assert w[|p| - 1] == c;
    }
    if |s| > 0 {
      assert w[1..] == s[1..] + [c];
      ContainsAppendChar(s[1..], p, c);
    } else {
      assert w[1..] == [];
    }
  }

  lemma {:induction false} ContainsAt(s: string, p: string, k: nat)
    requires k <= |s| && StartsWith(s[k..], p)
    ensures Contains(s, p)
    decreases k
  {
    if k > 0 {
      assert s[1..][k - 1..] == s[k..];
      ContainsAt(s[1..], p, k - 1);
    }
  }

  /** `s.replace(p, '')`: scanning left to right, every non-overlapping
      occurrence of `p` is cut out; the text is not re-scanned afterwards. */
  function RemoveAll(s: string, p: string): (r: string)
    requires |p| > 0
    ensures |r| <= |s|
    ensures forall c :: c in r ==> c in s
    ensures Contains(s, p) ==> |r| < |s|
    decreases |s|
  {
    if |s| == 0 then []
    else if StartsWith(s, p) then RemoveAll(s[|p|..], p)
    else [s[0]] + RemoveAll(s[1..], p)
  }

  lemma {:induction false} RemoveAllAbsent(s: string, p: string)
    requires |p| > 0 && !Contains(s, p)
    ensures RemoveAll(s, p) == s
    decreases |s|
  {
    if |s| > 0 {
      RemoveAllAbsent(s[1..], p);
    }
  }

  /** Cutting `p` out of `t + u` leaves `t` alone when no occurrence of `p`
      starts inside `t`. */
  lemma {:induction false} RemoveAllKeepsFront(t: string, u: string, p: string)
    requires |p| > 0
    requires forall k :: 0 <= k < |t| ==> !StartsWith(t[k..] + u, p)
    ensures RemoveAll(t + u, p) == t + RemoveAll(u, p)
    decreases |t|
  {
    if |t| == 0 {
      assert t + u == u;
    } else {
      assert t[0..] + u == t + u;
      assert (t + u)[1..] == t[1..] + u;
      forall k | 0 <= k < |t[1..]|
        ensures !StartsWith(t[1..][k..] + u, p)
      {
        assert t[1..][k..] == t[k + 1..];
      }
      RemoveAllKeepsFront(t[1..], u, p);
    }
  }

  /** An occurrence of `p` that no earlier occurrence overlaps is cut out,
      and the scan goes on right after it. */
  lemma RemoveAllCutsOccurrence(t: string, u: string, p: string)
    requires |p| > 0
    requires forall k :: 0 <= k < |t| ==> !StartsWith(t[k..] + p + u, p)
    ensures RemoveAll(t + p + u, p) == t + RemoveAll(u, p)
  {
    forall k | 0 <= k < |t|
      ensures !StartsWith(t[k..] + (p + u), p)
    {
      assert t[k..] + (p + u) == t[k..] + p + u;
    }
    RemoveAllKeepsFront(t, p + u, p);
    assert t + p + u == t + (p + u);
    assert (p + u)[..|p|] == p;
    assert (p + u)[|p|..] == u;
  }

  /** `p` cannot overlap a shifted copy of itself by the first two characters:
      no occurrence of `p` can begin inside a text that `p` itself follows. */
  predicate ShiftFree(p: string) {
    |p| >= 2 && forall m {:trigger p[m]} :: 1 <= m < |p| && p[m] == p[0] ==> m + 1 < |p| && p[m + 1] != p[1]
  }

  /** When `t` does not contain `p`, `u` starts with `p` and `p` is
      shift-free, no occurrence of `p` in `t + u` starts inside `t`. */
  lemma NoOccurrenceStraddles(t: string, u: string, p: string)
    requires ShiftFree(p) && StartsWith(u, p) && !Contains(t, p)
    ensures forall k :: 0 <= k < |t| ==> !StartsWith(t[k..] + u, p)
  {
    forall k | 0 <= k < |t|
      ensures !StartsWith(t[k..] + u, p)
    {
      var w := t[k..] + u;
      var m := |t| - k;
      if m >= |p| {
        if StartsWith(w, p) {
          assert w[..|p|] == t[k..][..|p|];
          ContainsAt(t, p, k);
        }
      } else {
        assert w[m] == u[0];
        if m + 1 < |p| {
          assert w[m + 1] == u[1];
        }
      }
    }
  }

  lemma ContainsHead(s: string, p: string)
    requires Contains(s, p) && |p| > 0
    ensures exists k :: 0 <= k < |s| && StartsWith(s[k..], p)
    decreases |s|
  {
    if !StartsWith(s, p) {
      ContainsHead(s[1..], p);
      var k :| 0 <= k < |s[1..]| && StartsWith(s[1..][k..], p);
      assert s[1..][k..] == s[k + 1..];
    } else {
      assert s[0..] == s;
    }
  }

  /** ASCII upper-case letters map to lower case; everything else is kept. */
  function LowerChar(c: char): (r: char)
    ensures 'A' <= c <= 'Z' ==> r as int == c as int + 32
    ensures !('A' <= c <= 'Z') ==> r == c
    ensures !('A' <= r <= 'Z')
  {
    if 'A' <= c <= 'Z' then (c as int + 32) as char else c
  }

  /** `s.lower()`, restricted to the ASCII letters. */
  function Lower(s: string): (r: string)
    ensures |r| == |s|
    ensures forall i :: 0 <= i < |s| ==> r[i] == LowerChar(s[i])
  {
    seq(|s|, i requires 0 <= i < |s| => LowerChar(s[i]))
  }

  lemma LowerIdempotent(s: string)
    ensures Lower(Lower(s)) == Lower(s)
  {
  }

  /** `os.path.join(a, b)` (POSIX): an absolute `b` replaces `a`; otherwise one
      separator is inserted unless `a` is empty or already ends in '/'. */
  function Join(a: string, b: string): (r: string)
    ensures EndsWith(r, b)
    ensures StartsWith(b, "/") ==> r == b
    ensures !StartsWith(b, "/") ==> StartsWith(r, a)
    ensures !StartsWith(b, "/") && (|a| == 0 || EndsWith(a, "/")) ==> |r| == |a| + |b|
    ensures !StartsWith(b, "/") && |a| > 0 && !EndsWith(a, "/") ==>
              |r| == |a| + 1 + |b| && r[|a|] == '/'
  {
    if StartsWith(b, "/") then b
    else if |a| == 0 || EndsWith(a, "/") then a + b
    else a + "/" + b
  }

  /** `os.path.basename(p)`: what follows the last '/'. */
  function Basename(p: string): (r: string)
    ensures '/' !in r
    ensures EndsWith(p, r)
    ensures |r| < |p| ==> p[|p| - |r| - 1] == '/'
    ensures '/' !in p ==> r == p
    decreases |p|
  {
    if |p| == 0 then []
    else if p[|p| - 1] == '/' then []
    else Basename(p[..|p| - 1]) + [p[|p| - 1]]
  }

  lemma {:induction false} BasenameAfterSlash(d: string, n: string)
    requires '/' !in n
    ensures Basename(d + "/" + n) == n
    decreases |n|
  {
    if |n| == 0 {
      assert d + "/" + n == d + "/";
    } else {
      var p := d + "/" + n;
      assert p[..|p| - 1] == d + "/" + n[..|n| - 1];
      assert n[|n| - 1] in n;
      BasenameAfterSlash(d, n[..|n| - 1]);
      assert n[..|n| - 1] + [n[|n| - 1]] == n;
    }
  }

  /** A directory entry joined onto its folder has the entry as base name. */
  lemma BasenameOfJoin(folder: string, name: string)
    requires '/' !in name
    ensures Basename(Join(folder, name)) == name
  {
    if |name| > 0 {
      assert name[0] in name;
    }
    if |folder| == 0 {
    } else if EndsWith(folder, "/") {
      var d := folder[..|folder| - 1];
      assert folder + name == d + "/" + name;
      BasenameAfterSlash(d, name);
    } else {
      BasenameAfterSlash(folder, name);
    }
  }
}
