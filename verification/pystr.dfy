/** The few Python `str` operations the core relies on, written out so that the
    character sets they use are explicit: `str.isspace`/`str.strip`,
    `str.splitlines`, `str.split("\n")`, `"\n".join`, `str.lower` (on ASCII
    letters), `in` on strings and `str(n)` for a non-negative integer. */
module PyStr {
  import opened Query

  /** The characters `str.isspace()` accepts; `str.strip()` with no argument
      removes exactly these from both ends. */
  predicate IsSpace(c: char) {
    c == ' ' || c == '\t' || c == '\n' || c == '\r'
    || c == '\U{0B}' || c == '\U{0C}'
    || ('\U{1C}' <= c <= '\U{1F}')
    || c == '\U{85}' || c == '\U{A0}' || c == '\U{1680}'
    || ('\U{2000}' <= c <= '\U{200A}')
    || c == '\U{2028}' || c == '\U{2029}' || c == '\U{202F}'
    || c == '\U{205F}' || c == '\U{3000}'
  }

  /** The line boundaries `str.splitlines()` splits on ("\r\n" counts as one). */
  predicate IsLineBreak(c: char) {
    c == '\n' || c == '\r' || c == '\U{0B}' || c == '\U{0C}'
    || c == '\U{1C}' || c == '\U{1D}' || c == '\U{1E}'
    || c == '\U{85}' || c == '\U{2028}' || c == '\U{2029}'
  }

  predicate AllSpace(s: string) {
    forall k :: 0 <= k < |s| ==> IsSpace(s[k])
  }

  /** Neither end of `s` is whitespace. */
  predicate IsStripped(s: string) {
    s == [] || (!IsSpace(s[0]) && !IsSpace(s[|s| - 1]))
  }

  predicate NoLineBreak(s: string) {
    forall k :: 0 <= k < |s| ==> !IsLineBreak(s[k])
  }

  predicate NoNul(s: string) {
    forall k :: 0 <= k < |s| ==> s[k] != '\0'
  }

  predicate NotLineBreak(c: char) {
    !IsLineBreak(c)
  }

  predicate NotNul(c: char) {
    c != '\0'
  }

  // ---------------------------------------------------------------- strip

  /** `s.lstrip()`: a suffix of `s` that does not start with whitespace. */
  function LStrip(s: string): (r: string)
    ensures |r| <= |s| && r == s[|s| - |r|..]
    ensures r == [] || !IsSpace(r[0])
  {
    if s != [] && IsSpace(s[0]) then LStrip(s[1..]) else s
  }

  /** `s.rstrip()`: a prefix of `s` that does not end with whitespace. */
  function RStrip(s: string): (r: string)
    ensures |r| <= |s| && r == s[..|r|]
    ensures r == [] || !IsSpace(r[|r| - 1])
  {
    if s != [] && IsSpace(s[|s| - 1]) then RStrip(s[..|s| - 1]) else s
  }

  /** What `lstrip` drops is whitespace. */
  lemma {:induction false} LStripDropsOnlySpace(s: string)
    ensures AllSpace(s[..|s| - |LStrip(s)|])
  {
    if s != [] && IsSpace(s[0]) {
      LStripDropsOnlySpace(s[1..]);
      var n := |s| - |LStrip(s)|;
      forall k | 0 <= k < n ensures IsSpace(s[..n][k]) {
        if k > 0 {
          assert s[..n][k] == s[1..][..n - 1][k - 1];
        }
      }
    }
  }

  /** What `rstrip` drops is whitespace. */
  lemma {:induction false} RStripDropsOnlySpace(s: string)
    ensures AllSpace(s[|RStrip(s)|..])
  {
    if s != [] && IsSpace(s[|s| - 1]) {
      var t := s[..|s| - 1];
      RStripDropsOnlySpace(t);
      var m := |RStrip(s)|;
      forall k | 0 <= k < |s| - m ensures IsSpace(s[m..][k]) {
        if k < |t| - m {
          assert s[m..][k] == t[m..][k];
        }
      }
    }
  }

  /** Where `s.strip()` starts in `s`: after the leading whitespace. */
  function StripStart(s: string): (a: nat)
    ensures a <= |s|
  {
    |s| - |LStrip(s)|
  }

  /** `s.strip()`: a slice of `s` with neither end blank. */
  function Strip(s: string): (r: string)
    ensures IsStripped(r)
    ensures StripStart(s) + |r| <= |s| && r == s[StripStart(s)..StripStart(s) + |r|]
  {
    StripSlice(s, LStrip(s), RStrip(LStrip(s)));
    StripEnds(LStrip(s));
    RStrip(LStrip(s))
  }

  /** A prefix of a suffix of `s` is a slice of `s`. */
  lemma StripSlice(s: string, l: string, r: string)
    requires |l| <= |s| && l == s[|s| - |l|..] && |r| <= |l| && r == l[..|r|]
    ensures |s| - |l| + |r| <= |s| && r == s[|s| - |l|..|s| - |l| + |r|]
  {
    NestedSlices(s, |s| - |l|, |r|);
  }

  /** Slicing a suffix is slicing the whole. */
  lemma NestedSlices<T>(s: seq<T>, a: nat, j: nat)
    requires a + j <= |s|
    ensures s[a..][..j] == s[a..a + j]
    ensures s[a..][j..] == s[a + j..]
  {
  }

  /** `strip` drops whitespace at both ends and nothing else: the text before
      and after the slice it keeps is all whitespace. */
  lemma StripDropsOnlySpace(s: string)
    ensures var a, r := StripStart(s), Strip(s);
            AllSpace(s[..a]) && AllSpace(s[a + |r|..])
  {
    var l := LStrip(s);
    var r := RStrip(l);
    var a := |s| - |l|;
    LStripDropsOnlySpace(s);
    RStripDropsOnlySpace(l);
    SuffixOfSuffix(s, l, |r|);
  }

  /** Dropping a prefix of a suffix of `s` leaves a suffix of `s`. */
  lemma SuffixOfSuffix<T>(s: seq<T>, l: seq<T>, j: nat)
    requires |l| <= |s| && l == s[|s| - |l|..] && j <= |l|
    ensures s[|s| - |l| + j..] == l[j..]
  {
  }

  /** `s.strip()` is empty exactly when `s` is all whitespace. */
  lemma StripEmptyIffBlank(s: string)
    ensures Strip(s) == "" <==> AllSpace(s)
  {
    if AllSpace(s) {
      LStripOfBlank(s);
    }
    if Strip(s) == "" {
      StripDropsOnlySpace(s);
      assert StripStart(s) == |s| && s[..|s|] == s;
    }
  }

  lemma {:induction false} LStripOfBlank(s: string)
    requires AllSpace(s)
    ensures LStrip(s) == ""
  {
    if s != [] {
      assert IsSpace(s[0]);
      assert AllSpace(s[1..]) by {
        forall k | 0 <= k < |s| - 1 ensures IsSpace(s[1..][k]) {
          assert s[1..][k] == s[k + 1];
        }
      }
      LStripOfBlank(s[1..]);
    }
  }

  /** Right-stripping a left-stripped string leaves neither end blank. */
  lemma StripEnds(l: string)
    requires l == [] || !IsSpace(l[0])
    ensures IsStripped(RStrip(l))
  {
    var r := RStrip(l);
    if r != [] {
      assert r[0] == l[0];
    }
  }

  /** Stripping keeps no character that was not in the input. */
  lemma StripKeepsNoNul(s: string)
    requires NoNul(s)
    ensures NoNul(Strip(s))
  {
    var r, a := Strip(s), StripStart(s);
    SliceKeepsNoNul(s, a, a + |r|);
  }

  /** NUL is not whitespace, so `strip` never drops one: the stripped text
      holds a NUL exactly when the input does. */
  lemma StripNulIff(s: string)
    ensures NoNul(Strip(s)) <==> NoNul(s)
  {
    if NoNul(s) {
      StripKeepsNoNul(s);
    } else {
      StripDropsOnlySpace(s);
      NulBetweenSpaces(s, StripStart(s), |Strip(s)|);
    }
  }

  /** A NUL of `s` lies in any slice whose surroundings are all whitespace. */
  lemma NulBetweenSpaces(s: string, a: nat, n: nat)
    requires a + n <= |s| && AllSpace(s[..a]) && AllSpace(s[a + n..]) && !NoNul(s)
    ensures !NoNul(s[a..a + n])
  {
    var k :| 0 <= k < |s| && s[k] == '\0';
    assert a <= k < a + n;
    assert s[a..a + n][k - a] == s[k];
  }

  /** Stripping a stripped string changes nothing. */
  lemma StripOfStripped(s: string)
    requires IsStripped(s)
    ensures Strip(s) == s
  {
  }

  lemma SliceKeepsNoNul(s: string, i: nat, j: nat)
    requires i <= j <= |s| && NoNul(s)
    ensures NoNul(s[i..j])
  {
    forall k | 0 <= k < j - i ensures s[i..j][k] != '\0' {
      assert s[i..j][k] == s[i + k];
    }
  }

  /** A line without line breaks keeps none after stripping. */
  lemma StripKeepsNoLineBreak(s: string)
    requires NoLineBreak(s)
    ensures NoLineBreak(Strip(s))
  {
    var r, a := Strip(s), StripStart(s);
    SliceKeepsNoLineBreak(s, a, a + |r|);
  }

  lemma SliceKeepsNoLineBreak(s: string, i: nat, j: nat)
    requires i <= j <= |s| && NoLineBreak(s)
    ensures NoLineBreak(s[i..j])
  {
    forall k | 0 <= k < j - i ensures !IsLineBreak(s[i..j][k]) {
      assert s[i..j][k] == s[i + k];
    }
  }

  // ----------------------------------------------------------- splitlines

  /** Index of the first line break in `s`, or `|s|` when there is none. */
  function LineEnd(s: string): (i: nat)
    ensures i <= |s|
    ensures NoLineBreak(s[..i])
    ensures i < |s| ==> IsLineBreak(s[i])
  {
    if s == [] || IsLineBreak(s[0]) then 0
    else
      var j := LineEnd(s[1..]);
      assert s[..1 + j] == [s[0]] + s[1..][..j];
      1 + j
  }

  /** Where the text after the first line break starts: the break is one
      character, except "\r\n", which is two. */
  function NextLineStart(s: string, i: nat): (n: nat)
    requires i < |s|
    ensures i < n <= |s|
  {
    if s[i] == '\r' && i + 1 < |s| && s[i + 1] == '\n' then i + 2 else i + 1
  }

  /** `s.splitlines()`: the lines of `s` without their line breaks. A final
      line break does not open an empty last line, and "" has no lines. */
  function SplitLines(s: string): (lines: seq<string>)
    ensures lines == [] <==> s == []
    ensures forall k :: 0 <= k < |lines| ==> NoLineBreak(lines[k])
    decreases |s|
  {
    if s == [] then []
    else
      var i := LineEnd(s);
      if i == |s| then [s]
      else [s[..i]] + SplitLines(s[NextLineStart(s, i)..])
  }

  /** The strings of `parts` one after another. */
  function Concat(parts: seq<string>): string {
    if parts == [] then "" else parts[0] + Concat(parts[1..])
  }

  /** The number of line breaks in `s`, "\r\n" counting as one. */
  function Breaks(s: string): nat {
    if s == [] then 0
    else if |s| >= 2 && s[0] == '\r' && s[1] == '\n' then 1 + Breaks(s[2..])
    else if IsLineBreak(s[0]) then 1 + Breaks(s[1..])
    else Breaks(s[1..])
  }

  /** `splitlines` loses nothing but the line breaks: its lines put together
      are `s` without its break characters, and there is one line per break
      plus one for text after the last break. */
  lemma {:induction false} SplitLinesRebuilds(s: string)
    ensures Concat(SplitLines(s)) == Select(s, NotLineBreak)
    ensures |SplitLines(s)| == Breaks(s) + (if s != [] && !IsLineBreak(s[|s| - 1]) then 1 else 0)
    decreases |s|
  {
    if s != [] {
      var i := LineEnd(s);
      BreaksSkip(s, i);
      if i == |s| {
        assert s[..i] == s;
        SelectAll(s, NotLineBreak);
        assert Concat([s]) == s + Concat([]);
      } else {
        var n := NextLineStart(s, i);
        var rest := s[n..];
        SplitLinesRebuilds(rest);
        var lines := SplitLines(s);
        assert lines == [s[..i]] + SplitLines(rest);
        assert lines[1..] == SplitLines(rest);
        assert Concat(lines) == s[..i] + Concat(SplitLines(rest));
        SelectFirstLine(s, i, n);
        BreaksFirstLine(s, i, n);
      }
    }
  }

  /** Without its break characters, text whose first line ends at `i` and
      whose next line starts at `n` is that line followed by the rest. */
  lemma SelectFirstLine(s: string, i: nat, n: nat)
    requires i < |s| && i == LineEnd(s) && n == NextLineStart(s, i)
    ensures Select(s, NotLineBreak) == s[..i] + Select(s[n..], NotLineBreak)
  {
    var line, brk, rest := s[..i], s[i..n], s[n..];
    ThreeParts(s, i, n);
    SelectAppend(line, brk + rest, NotLineBreak);
    SelectAppend(brk, rest, NotLineBreak);
    LineIsKept(line);
    BreakIsDropped(s, i, n);
  }

  /** `s` cut at `i` and at `n`. */
  lemma ThreeParts<T>(s: seq<T>, i: nat, n: nat)
    requires i <= n <= |s|
    ensures s == s[..i] + (s[i..n] + s[n..])
  {
  }

  lemma LineIsKept(line: string)
    requires NoLineBreak(line)
    ensures Select(line, NotLineBreak) == line
  {
    forall c | c in line ensures NotLineBreak(c) {
      var k :| 0 <= k < |line| && line[k] == c;
    }
    SelectAll(line, NotLineBreak);
  }

  lemma BreakIsDropped(s: string, i: nat, n: nat)
    requires i < |s| && IsLineBreak(s[i]) && n == NextLineStart(s, i)
    ensures Select(s[i..n], NotLineBreak) == []
  {
    var brk := s[i..n];
    forall c | c in brk ensures !NotLineBreak(c) {
      var k :| 0 <= k < |brk| && brk[k] == c;
      assert c == s[i + k];
    }
    SelectNone(brk, NotLineBreak);
  }

  /** The first line's break is one break, and the text ends in a break
      exactly when the rest is empty or does. */
  lemma BreaksFirstLine(s: string, i: nat, n: nat)
    requires i < |s| && i == LineEnd(s) && n == NextLineStart(s, i)
    ensures Breaks(s) == 1 + Breaks(s[n..])
    ensures (s != [] && !IsLineBreak(s[|s| - 1])) <==>
            (s[n..] != [] && !IsLineBreak(s[n..][|s[n..]| - 1]))
  {
    BreaksSkip(s, i);
    var t := s[i..];
    assert t[0] == s[i];
    if n == i + 2 {
      assert |t| >= 2 && t[0] == '\r' && t[1] == '\n' && t[2..] == s[n..];
    } else {
      assert !(|t| >= 2 && t[0] == '\r' && t[1] == '\n') && t[1..] == s[n..];
    }
    if s[n..] != [] {
      assert s[|s| - 1] == s[n..][|s[n..]| - 1];
    }
  }

  /** A prefix free of line breaks adds none to the count. */
  lemma {:induction false} BreaksSkip(s: string, i: nat)
    requires i <= |s| && NoLineBreak(s[..i])
    ensures Breaks(s) == Breaks(s[i..])
  {
    if i > 0 {
      assert s[0] == s[..i][0];
      var u := s[1..][..i - 1];
      forall k | 0 <= k < |u| ensures !IsLineBreak(u[k]) {
        assert u[k] == s[..i][k + 1];
      }
      BreaksSkip(s[1..], i - 1);
      assert s[1..][i - 1..] == s[i..];
    }
  }

  /** Lines cut out of a NUL-free text are NUL-free. */
  lemma {:induction false} SplitLinesKeepsNoNul(s: string)
    requires NoNul(s)
    ensures forall k :: 0 <= k < |SplitLines(s)| ==> NoNul(SplitLines(s)[k])
    decreases |s|
  {
    if s != [] {
      var i := LineEnd(s);
      if i < |s| {
        var rest := s[NextLineStart(s, i)..];
        assert NoNul(rest) by {
          forall k | 0 <= k < |rest| ensures rest[k] != '\0' {
            assert rest[k] == s[NextLineStart(s, i) + k];
          }
        }
        SplitLinesKeepsNoNul(rest);
        assert NoNul(s[..i]) by {
          forall k | 0 <= k < i ensures s[..i][k] != '\0' {
            assert s[..i][k] == s[k];
          }
        }
        assert SplitLines(s) == [s[..i]] + SplitLines(rest);
      }
    }
  }

  // -------------------------------------------------- "\n".join / split

  /** `"\n".join(parts)`. */
  function JoinLines(parts: seq<string>): (r: string)
    ensures parts == [] ==> r == ""
    ensures parts != [] ==> |r| == |Concat(parts)| + |parts| - 1
  {
    if parts == [] then ""
    else if |parts| == 1 then parts[0]
    else parts[0] + "\n" + JoinLines(parts[1..])
  }

  /** Index of the first `c` in `s`, or `|s|` when there is none. */
  function IndexOf(s: string, c: char): (i: nat)
    ensures i <= |s|
    ensures forall k :: 0 <= k < i ==> s[k] != c
    ensures i < |s| ==> s[i] == c
  {
    if s == [] || s[0] == c then 0 else 1 + IndexOf(s[1..], c)
  }

  /** `s.split("\n")`: always at least one part, "" gives [""]. */
  function SplitOnNewline(s: string): (parts: seq<string>)
    ensures |parts| >= 1
    decreases |s|
  {
    var i := IndexOf(s, '\n');
    if i == |s| then [s] else [s[..i]] + SplitOnNewline(s[i + 1..])
  }

  /** Splitting a join on its separator gives back the parts, provided no
      part holds the separator itself. */
  lemma {:induction false} SplitJoinRoundTrip(parts: seq<string>)
    requires parts != []
    requires forall k :: 0 <= k < |parts| ==> '\n' !in parts[k]
    ensures SplitOnNewline(JoinLines(parts)) == parts
  {
    var p := parts[0];
    if |parts| == 1 {
      NoSeparator(p, "");
      assert p + "" == p;
    } else {
      var rest := JoinLines(parts[1..]);
      NoSeparator(p, rest);
      SplitJoinRoundTrip(parts[1..]);
      assert parts == [p] + parts[1..];
    }
  }

  /** The first "\n" of a part without one followed by "\n" is right after
      the part. */
  lemma NoSeparator(p: string, rest: string)
    requires '\n' !in p
    ensures IndexOf(p + rest, '\n') == |p| || IndexOf(p + rest, '\n') > |p|
    ensures rest == "" ==> IndexOf(p, '\n') == |p|
    ensures var s := p + "\n" + rest;
            IndexOf(s, '\n') == |p| && s[..|p|] == p && s[|p| + 1..] == rest
  {
    forall k | 0 <= k < |p| ensures p[k] != '\n' {
      assert p[k] in p;
    }
    var s := p + "\n" + rest;
    assert forall k :: 0 <= k < |p| ==> s[k] == p[k];
    assert s[|p|] == '\n';
  }

  /** `splitlines` undoes `"\n".join` on parts without line breaks whose
      last part is not empty (an empty last part would leave a final "\n",
      which opens no line). */
  lemma {:induction false} SplitLinesJoinRoundTrip(parts: seq<string>)
    requires forall k :: 0 <= k < |parts| ==> NoLineBreak(parts[k])
    requires parts != [] ==> parts[|parts| - 1] != ""
    ensures SplitLines(JoinLines(parts)) == parts
  {
    if parts == [] {
    } else if |parts| == 1 {
      var p := parts[0];
      LineEndSkips(p, "");
      assert p + "" == p;
    } else {
      var p, rest := parts[0], JoinLines(parts[1..]);
      var s := p + "\n" + rest;
      LineEndSkips(p, "\n" + rest);
      assert s == p + ("\n" + rest);
      assert s[..|p|] == p && s[|p|] == '\n' && s[|p| + 1..] == rest;
      SplitLinesJoinRoundTrip(parts[1..]);
      assert parts == [p] + parts[1..];
    }
  }

  /** The first line break of `p + t`, for `p` without one, is that of `t`. */
  lemma {:induction false} LineEndSkips(p: string, t: string)
    requires NoLineBreak(p)
    ensures LineEnd(p + t) == |p| + LineEnd(t)
  {
    if p == [] {
      assert p + t == t;
    } else {
      var s := p + t;
      assert s[0] == p[0] && s[1..] == p[1..] + t;
      assert NoLineBreak(p[1..]) by {
        forall k | 0 <= k < |p| - 1 ensures !IsLineBreak(p[1..][k]) {
          assert p[1..][k] == p[k + 1];
        }
      }
      LineEndSkips(p[1..], t);
    }
  }

  /** Joining NUL-free parts with "\n" adds no NUL. */
  lemma {:induction false} JoinKeepsNoNul(parts: seq<string>)
    requires forall k :: 0 <= k < |parts| ==> NoNul(parts[k])
    ensures NoNul(JoinLines(parts))
  {
    if |parts| > 1 {
      JoinKeepsNoNul(parts[1..]);
      var p, rest := parts[0], JoinLines(parts[1..]);
      var s := p + "\n" + rest;
      forall k | 0 <= k < |s| ensures s[k] != '\0' {
        if k < |p| { assert s[k] == p[k]; }
        else if k > |p| { assert s[k] == rest[k - |p| - 1]; }
      }
    }
  }

  // ---------------------------------------------------------------- lower

  /** `c.lower()` for ASCII letters; every other character is kept. */
  function LowerChar(c: char): (r: char)
    ensures 'A' <= c <= 'Z' ==> r as int == c as int + 32
    ensures !('A' <= c <= 'Z') ==> r == c
  {
    if 'A' <= c <= 'Z' then (c as int + 32) as char else c
  }

  /** `s.lower()`, character by character. */
  function Lower(s: string): (r: string)
    ensures |r| == |s|
    ensures forall k :: 0 <= k < |s| ==> r[k] == LowerChar(s[k])
  {
    if s == [] then [] else [LowerChar(s[0])] + Lower(s[1..])
  }

  predicate EndsWith(s: string, suffix: string) {
    |suffix| <= |s| && s[|s| - |suffix|..] == suffix
  }

  /** Python's `needle in hay` on strings. */
  predicate Contains(hay: string, needle: string) {
    exists i :: 0 <= i <= |hay| - |needle| && OccursAt(hay, needle, i)
  }

  predicate OccursAt(hay: string, needle: string, i: nat)
    requires i + |needle| <= |hay|
  {
    hay[i..i + |needle|] == needle
  }

  // ------------------------------------------------------ decimal strings

  function DigitChar(d: nat): (c: char)
    requires d < 10
    ensures '0' <= c <= '9'
  {
    ('0' as int + d) as char
  }

  /** `str(n)` for a non-negative integer: its decimal digits, no sign, no
      leading zero. */
  function NatToString(n: nat): (s: string)
    ensures |s| >= 1
    ensures forall k :: 0 <= k < |s| ==> '0' <= s[k] <= '9'
    ensures |s| > 1 ==> s[0] != '0'
  {
    if n < 10 then [DigitChar(n)] else NatToString(n / 10) + [DigitChar(n % 10)]
  }

  /** The value of a string of decimal digits (`int(s)`). */
  function ParseDecimal(s: string): nat
    requires forall k :: 0 <= k < |s| ==> '0' <= s[k] <= '9'
  {
    if s == [] then 0
    else ParseDecimal(s[..|s| - 1]) * 10 + (s[|s| - 1] as int - '0' as int)
  }

  /** Reading back `str(n)` gives `n`. */
  lemma {:induction false} ParseNatToString(n: nat)
    ensures ParseDecimal(NatToString(n)) == n
  {
    if n >= 10 {
      var s := NatToString(n);
      assert s[..|s| - 1] == NatToString(n / 10);
      ParseNatToString(n / 10);
    }
  }

}
