/** The java.lang.String operations the command handlers are built from:
    trim, indexOf, contains, replace(marker, "") and split("\\s+", 2). */
module JavaText {

  /** `String.trim` removes every character whose code is at most U+0020. */
  predicate IsTrimSpace(c: char) {
    c <= ' '
  }

  /** The regular-expression class `\s`: space, tab, line feed, vertical tab,
      form feed and carriage return. */
  predicate IsRegexSpace(c: char) {
    c == ' ' || c == '\t' || c == '\n' || c == '\U{000B}' || c == '\U{000C}' || c == '\r'
  }

  lemma RegexSpaceIsTrimSpace(c: char)
    ensures IsRegexSpace(c) ==> IsTrimSpace(c)
  {}

  /** `s.trim().length() == 0`, stated without trimming. */
  predicate IsBlank(s: string) {
    forall i | 0 <= i < |s| :: IsTrimSpace(s[i])
  }

  // ---------------------------------------------------------------- trim

  /** The number of trim spaces `String.trim` skips at the front of `s`. */
  function LeadingSpace(s: string): (k: nat)
    ensures k <= |s|
    ensures IsBlank(s[..k])
    ensures k < |s| ==> !IsTrimSpace(s[k])
    decreases |s|
  {
    if |s| > 0 && IsTrimSpace(s[0]) then
      var k := 1 + LeadingSpace(s[1..]);
      assert s[..k] == [s[0]] + s[1..][..k - 1];
      k
    else 0
  }

  /** The length of `s` once `String.trim` has dropped its trailing trim spaces. */
  function ContentEnd(s: string): (e: nat)
    ensures e <= |s|
    ensures IsBlank(s[e..])
    ensures e > 0 ==> !IsTrimSpace(s[e - 1])
    decreases |s|
  {
    if |s| > 0 && IsTrimSpace(s[|s| - 1]) then
      var e := ContentEnd(s[..|s| - 1]);
      assert s[e..] == s[..|s| - 1][e..] + [s[|s| - 1]];
      e
    else |s|
  }

  /** `String.trim`: the slice of `s` left after dropping the trim spaces at both ends. */
  function Trim(s: string): (r: string)
    ensures IsBlank(s) <==> r == []
    ensures r != [] ==> !IsTrimSpace(r[0]) && !IsTrimSpace(r[|r| - 1])
    ensures LeadingSpace(s) + |r| <= |s|
    ensures r == s[LeadingSpace(s)..LeadingSpace(s) + |r|]
    ensures IsBlank(s[..LeadingSpace(s)]) && IsBlank(s[LeadingSpace(s) + |r|..])
  {
    var k := LeadingSpace(s);
    var e := ContentEnd(s[k..]);
    TrimSlice(s, k, e);
    s[k..k + e]
  }

  /** The cut made by Trim: blank on both sides, non-blank ends in between. */
  lemma TrimSlice(s: string, k: nat, e: nat)
    requires k == LeadingSpace(s) && e == ContentEnd(s[k..])
    ensures k + e <= |s|
    ensures IsBlank(s) <==> e == 0
    ensures e > 0 ==> !IsTrimSpace(s[k]) && !IsTrimSpace(s[k + e - 1])
    ensures IsBlank(s[k + e..])
  {
    var rest := s[k..];
    assert IsBlank(s[k + e..]) by {
      assert s[k + e..] == rest[e..];
    }
    assert k < |s| ==> e > 0 by {
      if k < |s| {
        assert !IsTrimSpace(rest[0]);
      }
    }
    if e == 0 {
      assert s[..k] == s;
    } else {
      assert s[k + e - 1] == rest[e - 1];
    }
  }

  /** Trimming an already trimmed string changes nothing. */
  lemma TrimIdempotent(s: string)
    ensures Trim(Trim(s)) == Trim(s)
  {
    TrimUnpadded(Trim(s));
  }

  /** A string that neither starts nor ends with a trim space is its own trim. */
  lemma TrimUnpadded(s: string)
    requires s == [] || (!IsTrimSpace(s[0]) && !IsTrimSpace(s[|s| - 1]))
    ensures Trim(s) == s
  {
    assert LeadingSpace(s) == 0;
    assert ContentEnd(s) == |s|;
    assert s[0..] == s;
  }

  /** A string is blank exactly when its trim is. */
  lemma BlankTrim(s: string)
    ensures IsBlank(Trim(s)) <==> IsBlank(s)
  {
    var r := Trim(s);
    if r != [] {
      assert !IsTrimSpace(r[0]);
    }
  }

  // ---------------------------------------------------------------- indexOf

  /** `p` occurs in `s` starting at position `i`. */
  predicate OccursAt(s: string, p: string, i: int) {
    0 <= i && i + |p| <= |s| && s[i..i + |p|] == p
  }

  /** `s.indexOf(p, from)`: the first occurrence at or after `from`, or -1. */
  function IndexFrom(s: string, p: string, from: nat): (r: int)
    ensures r == -1 || (from <= r && OccursAt(s, p, r))
    ensures forall j | from <= j && (r == -1 || j < r) :: !OccursAt(s, p, j)
    decreases |s| - from
  {
    if from + |p| > |s| then -1
    else if s[from..from + |p|] == p then from
    else IndexFrom(s, p, from + 1)
  }

  /** `s.indexOf(p)`: the first position at which `p` occurs, or -1 when it does not. */
  function IndexOf(s: string, p: string): (r: int)
    ensures r == -1 <==> forall j :: !OccursAt(s, p, j)
    ensures r != -1 ==> 0 <= r <= |s| - |p| && OccursAt(s, p, r)
    ensures forall j | 0 <= j < r :: !OccursAt(s, p, j)
  {
    IndexFrom(s, p, 0)
  }

  /** `s.contains(p)`, which Java defines as `s.indexOf(p) >= 0`. */
  predicate Contains(s: string, p: string) {
    IndexOf(s, p) >= 0
  }

  /** The empty string occurs at the start of every string. */
  lemma ContainsEmpty(s: string)
    ensures Contains(s, "")
  {
    assert OccursAt(s, "", 0);
  }

  /** A string that starts with `p` has `p` at position 0. */
  lemma IndexOfPrefix(p: string, t: string)
    ensures IndexOf(p + t, p) == 0
  {
    assert OccursAt(p + t, p, 0) by { assert (p + t)[..|p|] == p; }
  }

  /** A pattern whose first character does not appear in `s` does not occur in it. */
  lemma FirstCharAbsent(s: string, p: string)
    requires |p| > 0
    requires forall i | 0 <= i < |s| :: s[i] != p[0]
    ensures IndexOf(s, p) == -1
  {
    forall j ensures !OccursAt(s, p, j) {
      if 0 <= j && j + |p| <= |s| {
        assert s[j..j + |p|][0] == s[j];
      }
    }
  }

  /** Behind text free of its first character, `p` is found right where it is put. */
  lemma IndexOfAfter(a: string, p: string, b: string)
    requires |p| > 0
    requires forall i | 0 <= i < |a| :: a[i] != p[0]
    ensures IndexOf(a + p + b, p) == |a|
  {
    var s := a + p + b;
    assert OccursAt(s, p, |a|) by { assert s[|a|..|a| + |p|] == p; }
    forall j | 0 <= j < |a| ensures !OccursAt(s, p, j) {
      assert s[j..j + |p|][0] == a[j];
    }
  }

  // ---------------------------------------------------------------- replace

  /** `s.replace(p, "")` as java.lang.String computes it: find the first occurrence,
      keep the text before it, drop it, and continue after it. Text that the removal
      brings together is not searched again. */
  function RemoveAll(s: string, p: string): (r: string)
    requires |p| > 0
    ensures |r| <= |s|
    ensures IndexOf(s, p) == -1 ==> r == s
    ensures IndexOf(s, p) != -1 ==> |r| <= |s| - |p|
    decreases |s|
  {
    var j := IndexOf(s, p);
    if j < 0 then s else s[..j] + RemoveAll(s[j + |p|..], p)
  }

  /** Reference definition of removing every occurrence, read left to right one
      character at a time: an occurrence is skipped whole, any other character kept. */
  function RemoveScan(s: string, p: string): (r: string)
    requires |p| > 0
    decreases |s|
  {
    if |s| < |p| then s
    else if s[..|p|] == p then RemoveScan(s[|p|..], p)
    else [s[0]] + RemoveScan(s[1..], p)
  }

  /** Text before the first occurrence passes through the scan unchanged. */
  lemma {:induction false} ScanKeepsPrefix(s: string, p: string, j: nat)
    requires |p| > 0 && j <= |s|
    requires forall k | 0 <= k < j :: !OccursAt(s, p, k)
    ensures RemoveScan(s, p) == s[..j] + RemoveScan(s[j..], p)
    decreases j
  {
    if j == 0 {
      assert s[0..] == s;
    } else if |s| < |p| {
      ScanShort(s, p, j);
    } else {
      assert s[..|p|] != p by {
        assert !OccursAt(s, p, 0);
      }
      NoOccurrenceShifts(s, p, j);
      ScanKeepsPrefix(s[1..], p, j - 1);
      ScanStep(s, p, j);
    }
  }

  /** One step of the scan over a character that does not start an occurrence. */
  lemma ScanStep(s: string, p: string, j: nat)
    requires 0 < |p| <= |s| && 0 < j <= |s|
    requires s[..|p|] != p
    requires RemoveScan(s[1..], p) == s[1..][..j - 1] + RemoveScan(s[1..][j - 1..], p)
    ensures RemoveScan(s, p) == s[..j] + RemoveScan(s[j..], p)
  {
    var t := s[1..];
    var a, b := t[..j - 1], RemoveScan(t[j - 1..], p);
    assert t[j - 1..] == s[j..];
    calc {
      RemoveScan(s, p);
      [s[0]] + RemoveScan(t, p);
      [s[0]] + (a + b);
      ([s[0]] + a) + b;
      { assert [s[0]] + a == s[..j]; }
      s[..j] + b;
    }
  }

  /** Text shorter than the pattern passes through the scan unchanged. */
  lemma ScanShort(s: string, p: string, j: nat)
    requires |s| < |p| && j <= |s|
    ensures RemoveScan(s, p) == s[..j] + RemoveScan(s[j..], p)
  {
    assert RemoveScan(s[j..], p) == s[j..];
    assert s == s[..j] + s[j..];
  }

  /** Dropping the first character shifts every non-occurrence one place left. */
  lemma NoOccurrenceShifts(s: string, p: string, j: nat)
    requires 0 < j <= |s|
    requires forall k | 0 <= k < j :: !OccursAt(s, p, k)
    ensures forall k | 0 <= k < j - 1 :: !OccursAt(s[1..], p, k)
  {
    var t := s[1..];
    forall k | 0 <= k < j - 1
      ensures !OccursAt(t, p, k)
    {
      assert !OccursAt(s, p, k + 1);
      if k + |p| <= |t| {
        assert t[k..k + |p|] == s[k + 1..k + 1 + |p|];
      }
    }
  }

  /** The jump-to-indexOf algorithm and the character scan remove the same text. */
  lemma {:induction false} RemoveAllIsScan(s: string, p: string)
    requires |p| > 0
    ensures RemoveAll(s, p) == RemoveScan(s, p)
    decreases |s|
  {
    var j := IndexOf(s, p);
    if j < 0 {
      ScanKeepsPrefix(s, p, |s|);
      assert RemoveScan(s[|s|..], p) == [];
      assert s[..|s|] == s;
    } else {
      ScanKeepsPrefix(s, p, j);
      var u := s[j..];
      assert u[..|p|] == p;
      assert RemoveScan(u, p) == RemoveScan(u[|p|..], p);
      assert u[|p|..] == s[j + |p|..];
      RemoveAllIsScan(s[j + |p|..], p);
    }
  }

  /** Blank text after an unpadded string is cut off by trim. */
  lemma TrimPaddedRight(s: string, t: string)
    requires s != [] && !IsTrimSpace(s[0]) && !IsTrimSpace(s[|s| - 1])
    requires IsBlank(t)
    ensures Trim(s + t) == s
  {
    var u := s + t;
    var r := Trim(u);
    forall m | 0 < m <= |u| ensures !IsBlank(u[..m]) {
      assert u[..m][0] == s[0];
    }
    assert LeadingSpace(u) == 0;
    forall m | 0 <= m < |s| ensures !IsBlank(u[m..]) {
      assert u[m..][|s| - 1 - m] == s[|s| - 1];
    }
    assert |r| >= |s|;
    forall m | |s| <= m < |u| ensures IsTrimSpace(u[m]) {
      assert u[m] == t[m - |s|];
    }
    assert r[|r| - 1] == u[|r| - 1];
    assert r == u[..|s|];
    assert u[..|s|] == s;
  }

  /** A marker followed by a blank and text that does not contain the marker's first
      character: trimming keeps it whole, and removing the marker leaves the blank
      and the text. */
  lemma TrimThenRemove(p: string, w: string)
    requires |p| > 0 && !IsTrimSpace(p[0])
    requires w != [] && !IsTrimSpace(w[|w| - 1])
    requires forall k | 0 <= k < |w| :: w[k] != p[0]
    ensures RemoveAll(Trim(p + (" " + w)), p) == " " + w
  {
    var tail := " " + w;
    var u := p + tail;
    assert u[0] == p[0] && u[|u| - 1] == w[|w| - 1];
    TrimUnpadded(u);
    RemoveLeading(p, tail);
    BlankThenAbsent(p, w);
  }

  lemma BlankThenAbsent(p: string, w: string)
    requires |p| > 0 && !IsTrimSpace(p[0])
    requires forall k | 0 <= k < |w| :: w[k] != p[0]
    ensures RemoveAll(" " + w, p) == " " + w
  {
    var tail := " " + w;
    forall k | 0 <= k < |tail| ensures tail[k] != p[0] {
      if k > 0 { assert tail[k] == w[k - 1]; }
    }
    FirstCharAbsent(tail, p);
  }

  /** A leading occurrence of the marker is removed, and the rest is processed as
      if the marker had never been there. */
  lemma RemoveLeading(p: string, t: string)
    requires |p| > 0
    ensures RemoveAll(p + t, p) == RemoveAll(t, p)
  {
    IndexOfPrefix(p, t);
    assert (p + t)[|p|..] == t;
    assert (p + t)[..0] == [];
  }

  // ---------------------------------------------------------------- split

  /** The first `\s` character at or after `from`, or |s| when there is none. */
  function SpaceFrom(s: string, from: nat): (k: nat)
    requires from <= |s|
    ensures from <= k <= |s|
    ensures forall i | from <= i < k :: !IsRegexSpace(s[i])
    ensures k < |s| ==> IsRegexSpace(s[k])
    decreases |s| - from
  {
    if from == |s| || IsRegexSpace(s[from]) then from else SpaceFrom(s, from + 1)
  }

  /** The end of the run of `\s` characters that starts at `from`. */
  function SkipSpaces(s: string, from: nat): (k: nat)
    requires from <= |s|
    ensures from <= k <= |s|
    ensures forall i | from <= i < k :: IsRegexSpace(s[i])
    ensures k < |s| ==> !IsRegexSpace(s[k])
    decreases |s| - from
  {
    if from == |s| || !IsRegexSpace(s[from]) then from else SkipSpaces(s, from + 1)
  }

  /** `s.split("\\s+", 2)`: one piece when `s` holds no `\s` character; otherwise the
      text before the first run of them and the (possibly empty) text after it. */
  function SplitOnce(s: string): (r: seq<string>)
    ensures |r| == 1 || |r| == 2
    ensures |r| == 1 <==> forall i | 0 <= i < |s| :: !IsRegexSpace(s[i])
    ensures |r| == 1 ==> r[0] == s
    ensures |r| == 2 ==>
      && |r[0]| + |r[1]| < |s|
      && s[..|r[0]|] == r[0]
      && s[|s| - |r[1]|..] == r[1]
      && (forall i | |r[0]| <= i < |s| - |r[1]| :: IsRegexSpace(s[i]))
      && (r[1] == [] || !IsRegexSpace(r[1][0]))
    ensures forall i | 0 <= i < |r[0]| :: !IsRegexSpace(r[0][i])
  {
    var i := SpaceFrom(s, 0);
    if i == |s| then
      assert s[..i] == s;
      [s]
    else
      var j := SkipSpaces(s, i);
      [s[..i], s[j..]]
  }
}
