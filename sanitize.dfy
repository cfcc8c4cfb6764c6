/**
 * `sanitize_title`: strip the title, remove one editorial prefix matched by
 * `^[A-Z]* *[:-]` (ASCII capitals, spaces, then a colon or a hyphen), remove
 * every match of the greedy `\(.*\)` (from a `(` to the last `)` of the same
 * line), and strip again. Both patterns are written out by hand.
 */
module Sanitize {
  import opened Wrappers
  import opened Text

  predicate IsUpper(c: char) {
    'A' <= c <= 'Z'
  }

  ghost predicate AllUpper(t: string) {
    forall k :: 0 <= k < |t| ==> IsUpper(t[k])
  }

  ghost predicate AllBlank(t: string) {
    forall k :: 0 <= k < |t| ==> t[k] == ' '
  }

  /** The regular expression `[A-Z]* *[:-]` matches `s[..n]` exactly: some
      way of splitting it into capitals, spaces and a final `:` or `-`. */
  ghost predicate PrefixMatch(s: string, n: int) {
    && 0 < n <= |s| && (s[n - 1] == ':' || s[n - 1] == '-')
    && exists a :: 0 <= a < n && AllUpper(s[..a]) && AllBlank(s[a..n - 1])
  }

  /** The length of the leading run of ASCII capitals. */
  function UpperRun(s: string): (n: nat)
    ensures n <= |s| && AllUpper(s[..n]) && (n == |s| || !IsUpper(s[n]))
  {
    if s != [] && IsUpper(s[0]) then
      var n := UpperRun(s[1..]) + 1;
      assert forall k :: 1 <= k < n ==> s[..n][k] == s[1..][..n - 1][k - 1];
      n
    else 0
  }

  /** The length of the leading run of spaces. */
  function BlankRun(s: string): (n: nat)
    ensures n <= |s| && AllBlank(s[..n]) && (n == |s| || s[n] != ' ')
  {
    if s != [] && s[0] == ' ' then
      var n := BlankRun(s[1..]) + 1;
      assert forall k :: 1 <= k < n ==> s[..n][k] == s[1..][..n - 1][k - 1];
      n
    else 0
  }

  /** Where `^[A-Z]* *[:-]` ends when it matches at the start of `s`:
      capitals as far as they go, then spaces, then one `:` or `-`. */
  function PrefixLength(s: string): Option<nat>
  {
    var a := UpperRun(s);
    var b := BlankRun(s[a..]);
    if a + b < |s| && (s[a + b] == ':' || s[a + b] == '-') then Some(a + b + 1) else None
  }

  /** The greedy scan finds the match whenever the pattern has one, and what it
      finds is a match: backtracking never yields a different prefix, so the
      substitution removes at most one, uniquely determined, prefix. */
  lemma PrefixLengthCorrect(s: string, n: int)
    ensures PrefixMatch(s, n) <==> PrefixLength(s) == Some(n)
  {
    if PrefixLength(s) == Some(n) {
      PrefixLengthSound(s, n);
    }
    if PrefixMatch(s, n) {
      PrefixLengthComplete(s, n);
    }
  }

  /** What the scan finds is a match. */
  lemma PrefixLengthSound(s: string, n: int)
    requires PrefixLength(s) == Some(n)
    ensures PrefixMatch(s, n)
  {
    var a := UpperRun(s);
    var b := BlankRun(s[a..]);
    assert s[a..n - 1] == s[a..][..b];
  }

  /** Any match is the one the scan finds. */
  lemma PrefixLengthComplete(s: string, n: int)
    requires PrefixMatch(s, n)
    ensures PrefixLength(s) == Some(n)
  {
    var a' :| 0 <= a' < n && AllUpper(s[..a']) && AllBlank(s[a'..n - 1]);
    UpperRunUnique(s, a', n);
    BlanksAfter(s, a', n);
  }

  /** After the capitals of a match, the spaces run up to the separator. */
  lemma BlanksAfter(s: string, a: nat, n: int)
    requires a < n <= |s| && (s[n - 1] == ':' || s[n - 1] == '-')
    requires AllBlank(s[a..n - 1]) && a == UpperRun(s)
    ensures PrefixLength(s) == Some(n)
  {
    var t := s[a..];
    forall k | 0 <= k < n - 1 - a ensures t[k] == ' ' {
      assert t[k] == s[a + k];
      assert s[a..n - 1][k] == s[a + k];
    }
    BlankRunUnique(t, n - 1 - a);
    assert t[n - 1 - a] == s[n - 1];
  }

  /** A run of spaces ended by something else is the leading run of spaces. */
  lemma BlankRunUnique(t: string, m: nat)
    requires m < |t| && t[m] != ' '
    requires forall k :: 0 <= k < m ==> t[k] == ' '
    ensures BlankRun(t) == m
  {
  }

  /** In a match, the capitals end exactly where the leading run of capitals ends. */
  lemma UpperRunUnique(s: string, a': nat, n: int)
    requires a' < n <= |s| && (s[n - 1] == ':' || s[n - 1] == '-')
    requires AllUpper(s[..a']) && AllBlank(s[a'..n - 1])
    ensures a' == UpperRun(s)
  {
    var a := UpperRun(s);
    forall k | 0 <= k < a' ensures IsUpper(s[k]) { assert s[..a'][k] == s[k]; }
    forall k | 0 <= k < a ensures IsUpper(s[k]) { assert s[..a][k] == s[k]; }
    if a' < n - 1 { assert s[a'..n - 1][0] == s[a']; }
    assert s[a'] == ' ' || s[a'] == ':' || s[a'] == '-';
  }

  /** `re.sub(r"^[A-Z]* *[:-]", "", s)`. */
  function DropPrefix(s: string): string
  {
    match PrefixLength(s)
    case Some(n) => s[n..]
    case None => s
  }

  /** The substitution removes one match at the start when there is one,
      and otherwise leaves the title alone; what it leaves is always a
      suffix of the title. */
  lemma DropPrefixSpec(s: string)
    ensures (exists n :: PrefixMatch(s, n)) ==>
      exists n :: PrefixMatch(s, n) && DropPrefix(s) == s[n..]
    ensures (forall n :: !PrefixMatch(s, n)) ==> DropPrefix(s) == s
    ensures |DropPrefix(s)| <= |s| && DropPrefix(s) == s[|s| - |DropPrefix(s)|..]
  {
    match PrefixLength(s)
    case Some(n) =>
      PrefixLengthCorrect(s, n);
    case None =>
      if exists n :: PrefixMatch(s, n) {
        var n :| PrefixMatch(s, n);
        PrefixLengthCorrect(s, n);
      }
      assert s[|s| - |s|..] == s;
  }

  /** The end of the line `s` starts: the first newline, or the end of `s`. */
  function LineEnd(s: string): (e: nat)
    ensures e <= |s| && '\n' !in s[..e]
    ensures e < |s| ==> s[e] == '\n'
  {
    match FirstIndexOf(s, '\n')
    case None => assert s[..|s|] == s; |s|
    case Some(i) => i
  }

  /** `re.sub(r"\(.*\)", "", s)`: scanning left to right, a `(` that has a
      `)` later on its own line starts a match running to the last such `)`;
      the scan resumes after it. A `(` without one is kept. */
  function RemoveParens(s: string): string
    decreases |s|
  {
    if s == [] then []
    else if s[0] == '(' then
      var e := LineEnd(s);
      match LastIndexOf(s[1..e], ')')
      case Some(q) => RemoveParens(s[q + 2..])
      case None => [s[0]] + RemoveParens(s[1..])
    else [s[0]] + RemoveParens(s[1..])
  }

  /** The last occurrence is the one with no occurrence after it. */
  lemma LastIndexOfUnique(s: string, c: char, v: nat)
    requires v < |s| && s[v] == c
    requires forall k :: v < k < |s| ==> s[k] != c
    ensures LastIndexOf(s, c) == Some(v)
  {
    var r := LastIndexOf(s, c);
    forall k | r.value < k < |s| ensures s[k] != c {
      assert s[r.value + 1..][k - r.value - 1] == s[k];
    }
  }

  /** Without a `)` there is nothing to remove. */
  lemma {:induction false} RemoveParensNoClose(s: string)
    requires ')' !in s
    ensures RemoveParens(s) == s
  {
    if s != [] {
      if s[0] == '(' {
        var e := LineEnd(s);
        assert forall k :: 0 <= k < |s[1..e]| ==> s[1..e][k] == s[k + 1];
      }
      RemoveParensNoClose(s[1..]);
      assert s == [s[0]] + s[1..];
    }
  }

  /** No `(` comes before a `)`: nothing between them to remove. */
  ghost predicate NoParenthetical(r: string) {
    forall i, j :: 0 <= i < j < |r| && r[i] == '(' ==> r[j] != ')'
  }

  /** A line is its own line end. */
  lemma LineEndNoNewline(s: string)
    requires '\n' !in s
    ensures LineEnd(s) == |s|
  {
  }

  /** A line that opens with `(` and has a `)` later loses everything up to
      its last `)`. */
  lemma RemoveParensLeading(s: string, q: nat)
    requires '\n' !in s
    requires 0 < q < |s| && s[0] == '(' && s[q] == ')'
    requires forall k :: q < k < |s| ==> s[k] != ')'
    ensures RemoveParens(s) == s[q + 1..]
  {
    LastClose(s, q);
    assert RemoveParens(s) == RemoveParens(s[q + 1..]);
    CloseFree(s, q);
    RemoveParensNoClose(s[q + 1..]);
  }

  /** On a line opening with `(`, the scan finds its last `)`. */
  lemma LastClose(s: string, q: nat)
    requires '\n' !in s
    requires 0 < q < |s| && s[q] == ')'
    requires forall k :: q < k < |s| ==> s[k] != ')'
    ensures LastIndexOf(s[1..LineEnd(s)], ')') == Some(q - 1)
  {
    var t := s[1..];
    LineEndNoNewline(s);
    assert s[1..LineEnd(s)] == t;
    forall k | q - 1 < k < |t| ensures t[k] != ')' {
      assert t[k] == s[k + 1];
    }
    LastIndexOfUnique(t, ')', q - 1);
  }

  /** Nothing after the last `)` is a `)`. */
  lemma CloseFree(s: string, q: nat)
    requires q < |s|
    requires forall k :: q < k < |s| ==> s[k] != ')'
    ensures ')' !in s[q + 1..]
  {
    var rest := s[q + 1..];
    forall k | 0 <= k < |rest| ensures rest[k] != ')' {
      assert rest[k] == s[q + 1 + k];
    }
  }

  /** On one line, the substitution removes exactly the text from the first
      `(` to the last `)` when the one comes before the other... */
  lemma {:induction false} RemoveParensSingleLine(s: string, p: nat, q: nat)
    requires '\n' !in s
    requires p < q < |s| && s[p] == '(' && s[q] == ')'
    requires forall k :: 0 <= k < p ==> s[k] != '('
    requires forall k :: q < k < |s| ==> s[k] != ')'
    ensures RemoveParens(s) == s[..p] + s[q + 1..]
  {
    if p == 0 {
      RemoveParensLeading(s, q);
    } else {
      var t := s[1..];
      RemoveParensSingleLine(t, p - 1, q - 1);
      assert RemoveParens(s) == [s[0]] + RemoveParens(t);
      assert s[..p] == [s[0]] + t[..p - 1];
      assert s[q + 1..] == t[q..];
    }
  }

  /** ...and leaves a line without such a pair as it is. */
  lemma {:induction false} RemoveParensNone(s: string)
    requires '\n' !in s && NoParenthetical(s)
    ensures RemoveParens(s) == s
  {
    if s != [] {
      var t := s[1..];
      assert NoParenthetical(t) by {
        forall i, j | 0 <= i < j < |t| && t[i] == '(' ensures t[j] != ')' {
          assert s[i + 1] == t[i] && s[j + 1] == t[j];
        }
      }
      if s[0] == '(' {
        assert LineEnd(s) == |s| && s[1..|s|] == t;
        assert forall k :: 0 <= k < |t| ==> t[k] == s[k + 1];
        assert ')' !in t;
      }
      RemoveParensNone(t);
      assert s == [s[0]] + t;
    }
  }

  /** Cutting from the first `(` to the last `)` leaves no parenthetical. */
  lemma CutNoParenthetical(s: string, p: nat, q: nat)
    requires p < q < |s|
    requires forall k :: 0 <= k < p ==> s[k] != '('
    requires forall k :: q < k < |s| ==> s[k] != ')'
    ensures NoParenthetical(s[..p] + s[q + 1..])
  {
    var r := s[..p] + s[q + 1..];
    assert forall k :: 0 <= k < |r| ==> r[k] == if k < p then s[k] else s[q + 1 + k - p];
  }

  /** On one line, nothing parenthesised survives the substitution. */
  lemma RemoveParensComplete(s: string)
    requires '\n' !in s
    ensures NoParenthetical(RemoveParens(s))
  {
    if NoParenthetical(s) {
      RemoveParensNone(s);
    } else {
      var i, j :| 0 <= i < j < |s| && s[i] == '(' && s[j] == ')';
      var p := FirstIndexOf(s, '(').value;
      var q := LastIndexOf(s, ')').value;
      forall k | 0 <= k < p ensures s[k] != '(' {
        assert s[..p][k] == s[k];
      }
      forall k | q < k < |s| ensures s[k] != ')' {
        assert s[q + 1..][k - q - 1] == s[k];
      }
      assert p <= i && j <= q;
      RemoveParensSingleLine(s, p, q);
      CutNoParenthetical(s, p, q);
    }
  }

  /** `sanitize_title`. */
  function SanitizeTitle(title: string): string
  {
    Strip(RemoveParens(DropPrefix(Strip(title))))
  }

  /** The sanitised title has no whitespace at either end. */
  lemma SanitizeTitleStripped(title: string)
    ensures var r := SanitizeTitle(title);
      r == [] || (!IsSpace(r[0]) && !IsSpace(r[|r| - 1]))
    ensures Strip(SanitizeTitle(title)) == SanitizeTitle(title)
  {
    StripSpec(RemoveParens(DropPrefix(Strip(title))));
    StripIdempotent(RemoveParens(DropPrefix(Strip(title))));
  }

  /** A one-line title keeps no parenthetical after sanitising. */
  lemma SanitizeTitleNoParenthetical(title: string)
    requires '\n' !in title
    ensures NoParenthetical(SanitizeTitle(title))
  {
    StripNoNewline(title);
    DropPrefixNoNewline(Strip(title));
    var r := RemoveParens(DropPrefix(Strip(title)));
    RemoveParensComplete(DropPrefix(Strip(title)));
    StripNoParenthetical(r);
  }

  /** Stripping a line leaves a line. */
  lemma StripNoNewline(t: string)
    requires '\n' !in t
    ensures '\n' !in Strip(t)
  {
    StripSpec(t);
    var i :| StrippedAt(t, Strip(t), i);
    assert forall k :: 0 <= k < |Strip(t)| ==> Strip(t)[k] == t[i + k];
  }

  /** Dropping the prefix of a line leaves a line. */
  lemma DropPrefixNoNewline(s: string)
    requires '\n' !in s
    ensures '\n' !in DropPrefix(s)
  {
    DropPrefixSpec(s);
    var m := DropPrefix(s);
    assert forall k :: 0 <= k < |m| ==> m[k] == s[|s| - |m| + k];
  }

  /** Stripping keeps a string free of parentheticals. */
  lemma StripNoParenthetical(r: string)
    requires NoParenthetical(r)
    ensures NoParenthetical(Strip(r))
  {
    StripSpec(r);
    var j :| StrippedAt(r, Strip(r), j);
    assert forall k :: 0 <= k < |Strip(r)| ==> Strip(r)[k] == r[j + k];
  }

  /** A title of the form `SECTION: body (note)` on one line comes out as
      just `body`: the section prefix in capitals and the trailing note both
      go, and so do the spaces left around the body. */
  lemma SanitizeSectionNote(section: string, body: string, note: string)
    requires AllUpper(section)
    requires body != [] && !IsSpace(body[0]) && !IsSpace(body[|body| - 1])
    requires '(' !in body && '\n' !in body && '\n' !in note
    ensures SanitizeTitle(section + ": " + body + " (" + note + ")") == body
  {
    var rest := " " + body + " (" + note + ")";
    assert section + ": " + body + " (" + note + ")" == section + ":" + rest;
    TitleUnstripped(section, rest);
    SectionDropped(section, rest);
    NoteRemoved(body, note);
    BodyTrimmed(body);
  }

  /** A title from a section prefix to a closing `)` has nothing to strip. */
  lemma TitleUnstripped(section: string, rest: string)
    requires AllUpper(section)
    requires rest != [] && rest[|rest| - 1] == ')'
    ensures Strip(section + ":" + rest) == section + ":" + rest
  {
    var title := section + ":" + rest;
    assert title[0] == if section == [] then ':' else section[0];
    assert title[|title| - 1] == ')';
    StripAt(title, title, 0);
  }

  /** The spaces left around the body are stripped. */
  lemma BodyTrimmed(body: string)
    requires body != [] && !IsSpace(body[0]) && !IsSpace(body[|body| - 1])
    ensures Strip(" " + body + " ") == body
  {
    var r := " " + body + " ";
    assert r[1..|body| + 1] == body;
    StripAt(r, body, 1);
  }

  /** A section prefix in capitals up to a colon is removed. */
  lemma SectionDropped(section: string, rest: string)
    requires AllUpper(section)
    ensures DropPrefix(section + ":" + rest) == rest
  {
    var s := section + ":" + rest;
    var n := |section|;
    assert s[..n] == section && s[n] == ':';
    assert AllBlank(s[n..n]);
    PrefixLengthCorrect(s, n + 1);
    assert s[n + 1..] == rest;
  }

  /** A note in parentheses at the end of a line is removed. */
  lemma NoteRemoved(body: string, note: string)
    requires '(' !in body && '\n' !in body && '\n' !in note
    ensures RemoveParens(" " + body + " (" + note + ")") == " " + body + " "
  {
    var m := " " + body + " (" + note + ")";
    var p := |body| + 2;
    forall k | 0 <= k < p ensures m[k] != '(' {
      if 1 <= k <= |body| {
        assert m[k] == body[k - 1];
      }
    }
    RemoveParensSingleLine(m, p, |m| - 1);
    assert m[..p] == " " + body + " ";
  }

  /** A prefix of no capitals and a lone hyphen goes too; the spaces around
      the removed note stay inside the title. */
  lemma ExampleHyphenPrefix(title: string)
    requires title == "  - menor prefixo (x) final"
    ensures SanitizeTitle(title) == "menor prefixo  final"
  {
    HyphenStrip(title);
    HyphenPrefix(title[2..]);
    HyphenNote(title[3..]);
    HyphenTrim(" menor prefixo  final");
  }

  lemma HyphenStrip(title: string)
    requires title == "  - menor prefixo (x) final"
    ensures Strip(title) == title[2..]
  {
    StripAt(title, title[2..], 2);
  }

  lemma HyphenTrim(r: string)
    requires r == " menor prefixo  final"
    ensures Strip(r) == "menor prefixo  final"
  {
    StripAt(r, r[1..], 1);
  }

  lemma HyphenPrefix(s: string)
    requires s == "- menor prefixo (x) final"
    ensures DropPrefix(s) == s[1..]
  {
    var head := s[..1];
    assert head == "-";
    assert AllUpper(s[..0]) && AllBlank(s[0..0]) && s[0] == '-';
    PrefixLengthCorrect(s, 1);
  }

  lemma HyphenNote(m: string)
    requires m == " menor prefixo (x) final"
    ensures RemoveParens(m) == " menor prefixo  final"
  {
    assert m[..15] == " menor prefixo ";
    RemoveParensSingleLine(m, 15, 17);
  }
}
