/**
 * Python `str` operations. The scrapers, the sanitiser and the signer call
 * `strip`, `startswith`, `endswith` and `join`. `find`, `rfind` and `split` serve the
 * model of the second regular expression and the lemmas that read the
 * joined strings back; the source never calls them. The code-point order
 * that `sorted` uses is in `Ordering`.
 */
module Text {
  import opened Wrappers

  /** The characters for which Python's `str.isspace()` holds; `str.strip()`
      without arguments removes exactly these from both ends. */
  predicate IsSpace(c: char) {
    || c == ' ' || c == '\t' || c == '\n' || c == '\r'
    || c == '\U{B}' || c == '\U{C}'
    || '\U{1C}' <= c <= '\U{1F}'
    || c == '\U{85}' || c == '\U{A0}' || c == '\U{1680}'
    || '\U{2000}' <= c <= '\U{200A}'
    || c == '\U{2028}' || c == '\U{2029}' || c == '\U{202F}'
    || c == '\U{205F}' || c == '\U{3000}'
  }

  /** `s.lstrip()`. */
  function LStrip(s: string): string
  {
    if |s| > 0 && IsSpace(s[0]) then LStrip(s[1..]) else s
  }

  /** `s.rstrip()`. */
  function RStrip(s: string): string
  {
    if |s| > 0 && IsSpace(s[|s| - 1]) then RStrip(s[..|s| - 1]) else s
  }

  /** `s.strip()`. */
  function Strip(s: string): string
  {
    RStrip(LStrip(s))
  }

  /** `lstrip` leaves the longest suffix that does not start with whitespace. */
  lemma {:induction false} LStripSpec(s: string)
    ensures |LStrip(s)| <= |s| && LStrip(s) == s[|s| - |LStrip(s)|..]
    ensures forall k :: 0 <= k < |s| - |LStrip(s)| ==> IsSpace(s[k])
    ensures LStrip(s) == [] || !IsSpace(LStrip(s)[0])
  {
    if |s| > 0 && IsSpace(s[0]) {
      LStripSpec(s[1..]);
    }
  }

  /** `rstrip` leaves the longest prefix that does not end with whitespace. */
  lemma {:induction false} RStripSpec(s: string)
    ensures |RStrip(s)| <= |s| && RStrip(s) == s[..|RStrip(s)|]
    ensures forall k :: |RStrip(s)| <= k < |s| ==> IsSpace(s[k])
    ensures RStrip(s) == [] || !IsSpace(RStrip(s)[|RStrip(s)| - 1])
  {
    if |s| > 0 && IsSpace(s[|s| - 1]) {
      RStripSpec(s[..|s| - 1]);
    }
  }

  /** `strip` removes whitespace at both ends and nothing else, and leaves
      no whitespace at either end. */
  lemma StripSpec(s: string)
    ensures Strip(s) == [] || (!IsSpace(Strip(s)[0]) && !IsSpace(Strip(s)[|Strip(s)| - 1]))
    ensures exists i :: StrippedAt(s, Strip(s), i)
  {
    var l := LStrip(s);
    var r := RStrip(l);
    var i := |s| - |l|;
    LStripSpec(s);
    RStripSpec(l);
    assert Strip(s) == r;
    if r != [] {
      assert r[0] == l[0];
    }
    assert s[i..i + |r|] == l[..|r|] == r;
    forall k | i + |r| <= k < |s| ensures IsSpace(s[k]) {
      assert s[k] == l[k - i];
    }
    assert StrippedAt(s, r, i);
  }

  /** `r` sits at offset `i` of `s` and everything of `s` around it is whitespace. */
  ghost predicate StrippedAt(s: string, r: string, i: int) {
    && 0 <= i && i + |r| <= |s| && s[i..i + |r|] == r
    && (forall k :: 0 <= k < i ==> IsSpace(s[k]))
    && (forall k :: i + |r| <= k < |s| ==> IsSpace(s[k]))
  }

  /** `lstrip` stops at the first character that is not whitespace. */
  lemma {:induction false} LStripAt(s: string, i: nat)
    requires i < |s| && !IsSpace(s[i])
    requires forall k :: 0 <= k < i ==> IsSpace(s[k])
    ensures LStrip(s) == s[i..]
  {
    if i > 0 {
      LStripAt(s[1..], i - 1);
      assert s[1..][i - 1..] == s[i..];
    }
  }

  /** `rstrip` stops at the last character that is not whitespace. */
  lemma {:induction false} RStripAt(s: string, j: nat)
    requires 0 < j <= |s| && !IsSpace(s[j - 1])
    requires forall k :: j <= k < |s| ==> IsSpace(s[k])
    ensures RStrip(s) == s[..j]
    decreases |s|
  {
    if j < |s| {
      RStripAt(s[..|s| - 1], j);
      assert s[..|s| - 1][..j] == s[..j];
    }
  }

  /** Whitespace-free ends inside whitespace: that is what `strip` leaves. */
  lemma StripAt(s: string, r: string, i: nat)
    requires StrippedAt(s, r, i) && r != []
    requires !IsSpace(r[0]) && !IsSpace(r[|r| - 1])
    ensures Strip(s) == r
  {
    assert s[i] == r[0];
    LStripAt(s, i);
    var l := s[i..];
    assert l[|r| - 1] == r[|r| - 1];
    forall k | |r| <= k < |l| ensures IsSpace(l[k]) {
      assert l[k] == s[i + k];
    }
    RStripAt(l, |r|);
  }

  /** Stripping twice is stripping once. */
  lemma StripIdempotent(s: string)
    ensures Strip(Strip(s)) == Strip(s)
  {
    var r := Strip(s);
    StripSpec(s);
    assert LStrip(r) == r;
    assert RStrip(r) == r;
  }

  predicate StartsWith(s: string, c: char) {
    |s| > 0 && s[0] == c
  }

  predicate EndsWith(s: string, c: char) {
    |s| > 0 && s[|s| - 1] == c
  }

  /** `s.find(c)`: the first position of `c` in `s`. */
  function FirstIndexOf(s: string, c: char): (r: Option<nat>)
    ensures r.Some? ==> r.value < |s| && s[r.value] == c && c !in s[..r.value]
    ensures r.None? <==> c !in s
  {
    if s == [] then None
    else if s[0] == c then Some(0)
    else match FirstIndexOf(s[1..], c)
      case None => None
      case Some(i) => assert s[1..][..i] == s[1..i + 1]; Some(i + 1)
  }

  /** `s.rfind(c)`: the last position of `c` in `s`. */
  function LastIndexOf(s: string, c: char): (r: Option<nat>)
    ensures r.Some? ==> r.value < |s| && s[r.value] == c && c !in s[r.value + 1..]
    ensures r.None? <==> c !in s
  {
    if s == [] then None
    else if s[|s| - 1] == c then Some(|s| - 1)
    else
      var init := s[..|s| - 1];
      match LastIndexOf(init, c)
      case None => assert s == init + [s[|s| - 1]]; None
      case Some(i) => assert s[i + 1..] == init[i + 1..] + [s[|s| - 1]]; Some(i)
  }

  /** `sep` occurs in `s` at position `k`. */
  predicate OccursAt(s: string, sep: string, k: int) {
    0 <= k && k + |sep| <= |s| && s[k..k + |sep|] == sep
  }

  /** `s.find(sep)` for a non-empty separator: its first occurrence. */
  function Find(s: string, sep: string): (r: Option<nat>)
    requires |sep| > 0
    ensures r.Some? ==> OccursAt(s, sep, r.value)
    ensures r.Some? ==> forall k :: 0 <= k < r.value ==> !OccursAt(s, sep, k)
    ensures r.None? ==> forall k :: 0 <= k <= |s| ==> !OccursAt(s, sep, k)
  {
    if |s| < |sep| then None
    else if s[..|sep|] == sep then Some(0)
    else match Find(s[1..], sep)
      case None =>
        assert forall k :: 1 <= k <= |s| ==> (OccursAt(s, sep, k) ==> OccursAt(s[1..], sep, k - 1));
        None
      case Some(i) =>
        assert forall k :: 1 <= k <= i ==> (OccursAt(s, sep, k) ==> OccursAt(s[1..], sep, k - 1));
        Some(i + 1)
  }

  /** `s.split(sep)` for a non-empty separator. */
  function Split(s: string, sep: string): (r: seq<string>)
    requires |sep| > 0
    ensures |r| > 0
    decreases |s|
  {
    match Find(s, sep)
    case None => [s]
    case Some(i) => [s[..i]] + Split(s[i + |sep|..], sep)
  }

  /** `sep.join(parts)`. */
  function Join(sep: string, parts: seq<string>): string
  {
    if |parts| == 0 then ""
    else if |parts| == 1 then parts[0]
    else parts[0] + sep + Join(sep, parts[1..])
  }

  /** A separator whose first character occurs in no part is found again,
      exactly where `join` put it: `split` undoes `join`. */
  lemma {:induction false} SplitJoin(parts: seq<string>, sep: string)
    requires |sep| > 0 && |parts| > 0
    requires forall i :: 0 <= i < |parts| ==> sep[0] !in parts[i]
    ensures Split(Join(sep, parts), sep) == parts
  {
    var p := parts[0];
    if |parts| == 1 {
      NoOccurrence(p, sep, |p|);
    } else {
      var rest := Join(sep, parts[1..]);
      var s := p + sep + rest;
      NoOccurrence(s, sep, |p|);
      assert s[..|p|] == p;
      assert OccursAt(s, sep, |p|);
      assert Find(s, sep) == Some(|p|);
      assert s[|p| + |sep|..] == rest;
      assert forall i :: 0 <= i < |parts| - 1 ==> parts[1..][i] == parts[i + 1];
      SplitJoin(parts[1..], sep);
    }
  }

  /** No occurrence of `sep` starts inside a prefix of `s` free of `sep[0]`. */
  lemma NoOccurrence(s: string, sep: string, n: nat)
    requires |sep| > 0 && n <= |s| && sep[0] !in s[..n]
    ensures forall k :: 0 <= k < n ==> !OccursAt(s, sep, k)
  {
    forall k | 0 <= k < n
      ensures !OccursAt(s, sep, k)
    {
      assert s[..n][k] == s[k];
    }
  }
}
