/** Character classes and string helpers with Python's `str` semantics. */
module Text {

  import opened Wrappers

  /** Python's `str.isspace()`, which is also what `\s` matches in a `str` regular
      expression: the ASCII controls TAB..CR and FS..US, SPACE, NEL, NBSP and the
      Unicode space separators. */
  predicate IsSpace(c: char) {
    || ('\t' <= c <= '\r')
    || ('\U{1C}' <= c <= '\U{1F}')
    || c == ' ' || c == '\U{85}' || c == '\U{A0}' || c == '\U{1680}'
    || ('\U{2000}' <= c <= '\U{200A}')
    || c == '\U{2028}' || c == '\U{2029}' || c == '\U{202F}' || c == '\U{205F}'
    || c == '\U{3000}'
  }

  /** The boundaries `str.splitlines()` splits at. */
  predicate IsLineBreak(c: char) {
    || ('\n' <= c <= '\r')
    || ('\U{1C}' <= c <= '\U{1E}')
    || c == '\U{85}' || c == '\U{2028}' || c == '\U{2029}'
  }

  /** The character sets text is split at: the line ends of `str.splitlines()`,
      the newline a multi-line regular expression knows, and the `/` between
      path components. */
  datatype Breaker = LineEnds | NewlineOnly | Slash

  predicate IsBreak(brk: Breaker, c: char) {
    match brk
    case LineEnds => IsLineBreak(c)
    case NewlineOnly => c == '\n'
    case Slash => c == '/'
  }

  lemma LineBreakIsSpace(c: char)
    ensures IsLineBreak(c) ==> IsSpace(c)
  {
  }

  /** Every character of `s[lo..hi]` is whitespace. */
  predicate SpaceBetween(s: string, lo: int, hi: int)
    requires 0 <= lo && hi <= |s|
  {
    forall i :: lo <= i < hi ==> IsSpace(s[i])
  }

  predicate AllSpace(s: string) {
    SpaceBetween(s, 0, |s|)
  }

  /** The characters of `s` that are not whitespace, in order. */
  function NonSpace(s: string): (r: string)
    ensures |r| <= |s|
  {
    if s == [] then []
    else if IsSpace(s[0]) then NonSpace(s[1..])
    else [s[0]] + NonSpace(s[1..])
  }

  lemma {:induction false} NonSpaceAppend(a: string, b: string)
    ensures NonSpace(a + b) == NonSpace(a) + NonSpace(b)
  {
    if a == [] {
      assert a + b == b;
    } else {
      assert (a + b)[1..] == a[1..] + b;
      NonSpaceAppend(a[1..], b);
    }
  }

  lemma {:induction false} NonSpaceOfAllSpace(s: string)
    requires AllSpace(s)
    ensures NonSpace(s) == []
  {
    if s != [] {
      NonSpaceOfAllSpace(s[1..]);
    }
  }

  // ---------------------------------------------------------------------------
  // str.strip()

  /** The first index at or after `i` that is not whitespace, or `|s|`. */
  function SkipSpace(s: string, i: nat): (k: nat)
    requires i <= |s|
    ensures i <= k <= |s|
    ensures k < |s| ==> !IsSpace(s[k])
    decreases |s| - i
  {
    if i < |s| && IsSpace(s[i]) then SkipSpace(s, i + 1) else i
  }

  lemma {:induction false} SkipSpaceSkipsSpace(s: string, i: nat)
    requires i <= |s|
    ensures SpaceBetween(s, i, SkipSpace(s, i))
    decreases |s| - i
  {
    if i < |s| && IsSpace(s[i]) {
      SkipSpaceSkipsSpace(s, i + 1);
    }
  }

  /** Walking back from `j`, the end of the trailing whitespace, but not below `lo`. */
  function SkipSpaceBack(s: string, lo: nat, j: nat): (k: nat)
    requires lo <= j <= |s|
    ensures lo <= k <= j
    ensures k > lo ==> !IsSpace(s[k - 1])
    decreases j
  {
    if j > lo && IsSpace(s[j - 1]) then SkipSpaceBack(s, lo, j - 1) else j
  }

  lemma {:induction false} SkipSpaceBackSkipsSpace(s: string, lo: nat, j: nat)
    requires lo <= j <= |s|
    ensures SpaceBetween(s, SkipSpaceBack(s, lo, j), j)
    decreases j
  {
    if j > lo && IsSpace(s[j - 1]) {
      SkipSpaceBackSkipsSpace(s, lo, j - 1);
    }
  }

  /** `s.lstrip()`. */
  function TrimLeft(s: string): (r: string)
    ensures |r| <= |s| && r == s[|s| - |r|..]
    ensures r == [] || !IsSpace(r[0])
  {
    s[SkipSpace(s, 0)..]
  }

  /** Where `Strip(s)` starts and ends in `s`. */
  function StripStart(s: string): (a: nat)
    ensures a <= |s|
  {
    SkipSpace(s, 0)
  }

  function StripEnd(s: string): (b: nat)
    ensures StripStart(s) <= b <= |s|
  {
    SkipSpaceBack(s, StripStart(s), |s|)
  }

  /** `s.strip()`: the slice of `s` that neither starts nor ends with whitespace
      (`StripSpec` adds that what is cut off is whitespace). */
  function Strip(s: string): (r: string)
    ensures r == s[StripStart(s)..StripEnd(s)]
    ensures r == [] || (!IsSpace(r[0]) && !IsSpace(r[|r| - 1]))
  {
    s[StripStart(s)..StripEnd(s)]
  }

  /** `t` is `s[a..a + |t|]`, everything of `s` around it is whitespace, and `t`
      neither starts nor ends with whitespace. */
  predicate IsStripAt(t: string, s: string, a: int) {
    && 0 <= a <= |s| - |t|
    && t == s[a..a + |t|]
    && SpaceBetween(s, 0, a)
    && SpaceBetween(s, a + |t|, |s|)
    && (t == [] || (!IsSpace(t[0]) && !IsSpace(t[|t| - 1])))
  }

  lemma StripSpec(s: string)
    ensures IsStripAt(Strip(s), s, StripStart(s))
  {
    var a := StripStart(s);
    var b := StripEnd(s);
    SkipSpaceSkipsSpace(s, 0);
    SkipSpaceBackSkipsSpace(s, a, |s|);
    if a == b {
      assert SpaceBetween(s, b, |s|);
    }
  }

  /** The stripped form of a string is unique: any slice that removes exactly the
      surrounding whitespace is `Strip`'s result. */
  lemma StripUnique(t: string, s: string, a: int)
    requires IsStripAt(t, s, a)
    ensures t == Strip(s)
  {
    StripSpec(s);
    var r := Strip(s);
    var b := StripStart(s);
    if t != [] {
      assert s[a] == t[0];
      assert !(b + |r| <= a) && !(a < b);
    }
    if r != [] {
      assert s[b] == r[0];
      assert !(a + |t| <= b) && !(b < a);
    }
    if t != [] && r != [] {
      assert a == b;
      var ea := a + |t| - 1;
      var eb := b + |r| - 1;
      assert s[ea] == t[|t| - 1] && s[eb] == r[|r| - 1];
      assert ea == eb;
    }
  }

  lemma StripEmptyIff(s: string)
    ensures Strip(s) == [] <==> AllSpace(s)
  {
    StripSpec(s);
    var r := Strip(s);
    var a := StripStart(s);
    if r != [] {
      assert s[a] == r[0];
    }
  }

  lemma StripNonSpace(s: string)
    ensures NonSpace(Strip(s)) == NonSpace(s)
  {
    StripSpec(s);
    var r := Strip(s);
    var a := StripStart(s);
    var b := a + |r|;
    var pre := s[..a];
    var post := s[b..];
    assert s == pre + r + post;
    assert NonSpace(pre) == [] by {
      assert pre == s[0..a];
      NonSpaceOfSpaceBetween(s, 0, a);
    }
    assert NonSpace(post) == [] by {
      assert post == s[b..|s|];
      NonSpaceOfSpaceBetween(s, b, |s|);
    }
    NonSpaceAppend(pre + r, post);
    NonSpaceAppend(pre, r);
  }

  lemma {:induction false} NonSpaceOfSpaceBetween(s: string, lo: nat, hi: nat)
    requires lo <= hi <= |s| && SpaceBetween(s, lo, hi)
    ensures NonSpace(s[lo..hi]) == []
    decreases hi - lo
  {
    if lo < hi {
      assert s[lo..hi][1..] == s[lo + 1..hi];
      NonSpaceOfSpaceBetween(s, lo + 1, hi);
    }
  }

  // ---------------------------------------------------------------------------
  // Prefixes, substrings, replacement

  predicate StartsWith(s: string, p: string) {
    |p| <= |s| && s[..|p|] == p
  }

  /** Python's `s[:n]` for `n >= 0`. */
  function Take<T>(s: seq<T>, n: nat): (r: seq<T>)
    ensures |r| == if n < |s| then n else |s|
    ensures forall i :: 0 <= i < |r| ==> r[i] == s[i]
  {
    if n < |s| then s[..n] else s
  }

  predicate OccursAt(s: string, pat: string, i: nat) {
    i + |pat| <= |s| && s[i..i + |pat|] == pat
  }

  /** Python's `pat in s`. */
  predicate Contains(s: string, pat: string) {
    exists i: nat | i <= |s| :: OccursAt(s, pat, i)
  }

  /** `s.find(pat)`: the first occurrence, if any. */
  function Find(s: string, pat: string, from: nat): (r: Option<nat>)
    requires from <= |s|
    ensures r.Some? ==> from <= r.value && OccursAt(s, pat, r.value)
                        && forall j: nat :: from <= j < r.value ==> !OccursAt(s, pat, j)
    ensures r.None? ==> forall j: nat :: from <= j ==> !OccursAt(s, pat, j)
    decreases |s| - from
  {
    if OccursAt(s, pat, from) then Some(from)
    else if from + |pat| >= |s| then None
    else Find(s, pat, from + 1)
  }

  /** The first occurrence is the one `Find` reports. */
  lemma FindFirst(s: string, pat: string, i: nat)
    requires OccursAt(s, pat, i)
    requires forall j: nat :: j < i ==> !OccursAt(s, pat, j)
    ensures Find(s, pat, 0) == Some(i)
  {
  }

  lemma ContainsAppend(a: string, b: string, pat: string)
    requires Contains(a, pat)
    ensures Contains(a + b, pat)
  {
    var i: nat :| i <= |a| && OccursAt(a, pat, i);
    assert (a + b)[i..i + |pat|] == a[i..i + |pat|];
    assert OccursAt(a + b, pat, i);
  }

  /** `s.rfind(c)`: the last occurrence, if any. */
  function LastIndexOf(s: string, c: char): (r: Option<nat>)
    ensures r.Some? ==> r.value < |s| && s[r.value] == c
                        && forall j :: r.value < j < |s| ==> s[j] != c
    ensures r.None? ==> forall j :: 0 <= j < |s| ==> s[j] != c
  {
    if s == [] then None
    else if s[|s| - 1] == c then Some(|s| - 1)
    else LastIndexOf(s[..|s| - 1], c)
  }

  /** `s.replace(a, b)` for single characters. */
  function ReplaceChar(s: string, a: char, b: char): (r: string)
    ensures |r| == |s|
    ensures forall i :: 0 <= i < |s| ==> r[i] == if s[i] == a then b else s[i]
  {
    if s == [] then [] else [if s[0] == a then b else s[0]] + ReplaceChar(s[1..], a, b)
  }

  // ---------------------------------------------------------------------------
  // str.lower()

  /** The lower-case form of one character. Beyond Latin-1 only the characters whose
      lower-case form contains a letter the document-type keywords use are mapped:
      U+0130 (dotted capital I) becomes two characters, as in Python. */
  function LowerChar(c: char): string {
    if 'A' <= c <= 'Z' || ('\U{C0}' <= c <= '\U{DE}' && c != '\U{D7}') then [(c as int + 32) as char]
    else if c == '\U{130}' then ['i', '\U{307}']
    else if c == '\U{212A}' then ['k']
    else if c == '\U{212B}' then ['\U{E5}']
    else [c]
  }

  function Lower(s: string): (r: string)
    ensures |r| >= |s|
  {
    if s == [] then [] else LowerChar(s[0]) + Lower(s[1..])
  }

  lemma {:induction false} LowerAppend(a: string, b: string)
    ensures Lower(a + b) == Lower(a) + Lower(b)
  {
    if a == [] {
      assert a + b == b;
    } else {
      assert (a + b)[1..] == a[1..] + b;
      LowerAppend(a[1..], b);
    }
  }

  // ---------------------------------------------------------------------------
  // Splitting into lines

  /** The lines of `cur + s`, where `cur` is the part of a line read before `s`:
      each break ends the current line, and a last line is added only when
      characters follow the last break. */
  function LinesFrom(cur: string, s: string, brk: Breaker): (r: seq<string>)
    ensures r == [] <==> cur == [] && s == []
    decreases |s|
  {
    if s == [] then (if cur == [] then [] else [cur])
    else if IsBreak(brk, s[0]) then [cur] + LinesFrom([], s[1..], brk)
    else LinesFrom(cur + [s[0]], s[1..], brk)
  }

  /** `s.splitlines()` with the given break characters: no trailing empty line,
      and `""` has no lines at all. */
  function SplitLines(s: string, brk: Breaker): (r: seq<string>)
    ensures s != [] <==> r != []
  {
    LinesFrom([], s, brk)
  }

  /** `s` holds no break character. */
  predicate NoBreak(s: string, brk: Breaker) {
    forall i :: 0 <= i < |s| ==> !IsBreak(brk, s[i])
  }

  /** No line holds a break character. */
  lemma {:induction false} LinesFromNoBreak(cur: string, s: string, brk: Breaker)
    requires NoBreak(cur, brk)
    ensures forall k :: 0 <= k < |LinesFrom(cur, s, brk)| ==> NoBreak(LinesFrom(cur, s, brk)[k], brk)
    decreases |s|
  {
    if s != [] {
      if IsBreak(brk, s[0]) {
        LinesFromNoBreak([], s[1..], brk);
        var rest := LinesFrom([], s[1..], brk);
        var r := [cur] + rest;
        assert LinesFrom(cur, s, brk) == r;
        forall k | 0 <= k < |r| ensures NoBreak(r[k], brk) {
          if k > 0 {
            assert r[k] == rest[k - 1];
            assert NoBreak(rest[k - 1], brk);
          } else {
            assert r[0] == cur;
          }
        }
      } else {
        var c := cur + [s[0]];
        assert NoBreak(c, brk) by {
          assert forall i :: 0 <= i < |cur| ==> c[i] == cur[i];
        }
        LinesFromNoBreak(c, s[1..], brk);
        assert LinesFrom(cur, s, brk) == LinesFrom(c, s[1..], brk);
      }
    }
  }

  lemma SplitLinesNoBreak(s: string, brk: Breaker)
    ensures forall k :: 0 <= k < |SplitLines(s, brk)| ==> NoBreak(SplitLines(s, brk)[k], brk)
  {
    LinesFromNoBreak([], s, brk);
    assert SplitLines(s, brk) == LinesFrom([], s, brk);
  }

  /** Whitespace text splits into whitespace lines. */
  lemma {:induction false} LinesFromAllSpace(cur: string, s: string, brk: Breaker)
    requires AllSpace(cur) && AllSpace(s)
    ensures forall k :: 0 <= k < |LinesFrom(cur, s, brk)| ==> AllSpace(LinesFrom(cur, s, brk)[k])
    decreases |s|
  {
    if s != [] {
      var t := s[1..];
      assert AllSpace(t) by {
        assert forall i :: 0 <= i < |t| ==> t[i] == s[i + 1];
      }
      if IsBreak(brk, s[0]) {
        LinesFromAllSpace([], t, brk);
        var rest := LinesFrom([], t, brk);
        var r := [cur] + rest;
        assert LinesFrom(cur, s, brk) == r;
        forall k | 0 <= k < |r| ensures AllSpace(r[k]) {
          if k > 0 { assert r[k] == rest[k - 1]; }
        }
      } else {
        var c := cur + [s[0]];
        assert AllSpace(c) by {
          assert forall i :: 0 <= i < |cur| ==> c[i] == cur[i];
        }
        LinesFromAllSpace(c, t, brk);
        assert LinesFrom(cur, s, brk) == LinesFrom(c, t, brk);
      }
    }
  }

  lemma SplitLinesAllSpace(s: string, brk: Breaker)
    requires AllSpace(s)
    ensures forall k :: 0 <= k < |SplitLines(s, brk)| ==> AllSpace(SplitLines(s, brk)[k])
  {
    LinesFromAllSpace([], s, brk);
    assert SplitLines(s, brk) == LinesFrom([], s, brk);
  }

  /** Text without a break is a single line. */
  lemma {:induction false} LinesFromOneLine(cur: string, s: string, brk: Breaker)
    requires cur + s != [] && NoBreak(s, brk)
    ensures LinesFrom(cur, s, brk) == [cur + s]
    decreases |s|
  {
    if s == [] {
      assert cur + s == cur;
    } else {
      assert !IsBreak(brk, s[0]);
      assert NoBreak(s[1..], brk) by {
        assert forall i :: 0 <= i < |s[1..]| ==> s[1..][i] == s[i + 1];
      }
      LinesFromOneLine(cur + [s[0]], s[1..], brk);
      assert cur + [s[0]] + s[1..] == cur + s;
    }
  }

  /** The break characters of `s`, in order. */
  function Breaks(s: string, brk: Breaker): (r: string)
    ensures NoBreak(s, brk) ==> r == []
  {
    if s == [] then []
    else
      var rest := Breaks(s[1..], brk);
      assert NoBreak(s, brk) ==> NoBreak(s[1..], brk) by {
        assert forall i :: 0 <= i < |s[1..]| ==> s[1..][i] == s[i + 1];
      }
      (if IsBreak(brk, s[0]) then [s[0]] else []) + rest
  }

  /** The lines put back together, each followed by the next break character
      while there is one. */
  function Unsplit(lines: seq<string>, breaks: string): string {
    if lines == [] then []
    else if breaks == [] then lines[0] + Unsplit(lines[1..], [])
    else lines[0] + [breaks[0]] + Unsplit(lines[1..], breaks[1..])
  }

  lemma UnsplitCons(line: string, c: char, rest: seq<string>, b: string)
    ensures Unsplit([line] + rest, [c] + b) == line + [c] + Unsplit(rest, b)
  {
    assert ([line] + rest)[1..] == rest && ([c] + b)[1..] == b;
  }

  /** Whether the lines of `cur + s` end with one that no break closes. */
  predicate EndsOpen(cur: string, s: string, brk: Breaker) {
    if s == [] then cur != [] else !IsBreak(brk, s[|s| - 1])
  }

  lemma {:induction false} LinesFromUnsplit(cur: string, s: string, brk: Breaker)
    ensures Unsplit(LinesFrom(cur, s, brk), Breaks(s, brk)) == cur + s
    ensures |LinesFrom(cur, s, brk)| == |Breaks(s, brk)| + if EndsOpen(cur, s, brk) then 1 else 0
    decreases |s|
  {
    if s == [] {
      if cur != [] {
        assert Unsplit([cur], []) == cur + Unsplit([], []);
      }
    } else {
      var t := s[1..];
      assert cur + s == cur + [s[0]] + t;
      if IsBreak(brk, s[0]) {
        LinesFromUnsplit([], t, brk);
        assert LinesFrom(cur, s, brk) == [cur] + LinesFrom([], t, brk);
        assert Breaks(s, brk) == [s[0]] + Breaks(t, brk);
        var l := LinesFrom([], t, brk);
        var b := Breaks(t, brk);
        UnsplitCons(cur, s[0], l, b);
        assert Unsplit(l, b) == t by {
          assert [] + t == t;
        }
        if t != [] {
          assert s[|s| - 1] == t[|t| - 1];
        }
      } else {
        LinesFromUnsplit(cur + [s[0]], t, brk);
        assert LinesFrom(cur, s, brk) == LinesFrom(cur + [s[0]], t, brk);
        assert Breaks(s, brk) == Breaks(t, brk) by {
          assert [] + Breaks(t, brk) == Breaks(t, brk);
        }
        if t != [] {
          assert s[|s| - 1] == t[|t| - 1];
        }
      }
    }
  }

  /** `s.splitlines()` cuts `s` at its breaks and drops them: putting each line
      back in front of its break gives `s`. Every line but the last was ended
      by a break, and the last was too exactly when `s` ends with a break.
      Since no line holds a break (`SplitLinesNoBreak`), this determines the
      lines. */
  lemma SplitLinesUnsplit(s: string, brk: Breaker)
    ensures Unsplit(SplitLines(s, brk), Breaks(s, brk)) == s
    ensures s != [] ==> (|Breaks(s, brk)| == |SplitLines(s, brk)| <==> IsBreak(brk, s[|s| - 1]))
    ensures s != [] && !IsBreak(brk, s[|s| - 1]) ==> |Breaks(s, brk)| == |SplitLines(s, brk)| - 1
  {
    LinesFromUnsplit([], s, brk);
    assert [] + s == s;
  }

  /** Text that ends with a break splits independently of what follows it. */
  lemma {:induction false} LinesFromAppend(cur: string, t: string, b: string, brk: Breaker)
    requires t != [] && IsBreak(brk, t[|t| - 1])
    ensures LinesFrom(cur, t + b, brk) == LinesFrom(cur, t, brk) + LinesFrom([], b, brk)
    decreases |t|
  {
    var u := t[1..];
    assert (t + b)[0] == t[0] && (t + b)[1..] == u + b;
    if u == [] {
      assert u + b == b;
    } else {
      assert u[|u| - 1] == t[|t| - 1];
      if IsBreak(brk, t[0]) {
        LinesFromAppend([], u, b, brk);
        AppendAssoc([cur], LinesFrom([], u, brk), LinesFrom([], b, brk));
      } else {
        LinesFromAppend(cur + [t[0]], u, b, brk);
      }
    }
  }

  lemma SplitLinesAppend(t: string, b: string, brk: Breaker)
    requires t == [] || IsBreak(brk, t[|t| - 1])
    ensures SplitLines(t + b, brk) == SplitLines(t, brk) + SplitLines(b, brk)
  {
    if t == [] {
      assert t + b == b;
    } else {
      LinesFromAppend([], t, b, brk);
    }
  }

  lemma AppendAssoc<T>(x: seq<T>, y: seq<T>, z: seq<T>)
    ensures x + (y + z) == (x + y) + z
  {
  }

  /** The lines `str.splitlines()` returns. A CR LF pair counts as two breaks here,
      which only inserts an empty line between the two. */
  function Lines(s: string): seq<string> {
    SplitLines(s, LineEnds)
  }

  /** The lines a multi-line regular expression sees: only LF ends a line. */
  function NewlineLines(s: string): seq<string> {
    SplitLines(s, NewlineOnly)
  }

  // ---------------------------------------------------------------------------
  // Decimal numerals: Python's `f"{n}"` for a non-negative int

  predicate IsDigit(c: char) {
    '0' as int <= c as int <= '9' as int
  }

  function DigitValue(c: char): nat
    requires IsDigit(c)
  {
    c as int - '0' as int
  }

  function DigitChar(d: nat): (c: char)
    requires d < 10
    ensures IsDigit(c) && c as int - '0' as int == d
  {
    ('0' as int + d) as char
  }

  function NatToString(n: nat): (r: string)
    ensures r != []
    ensures forall i :: 0 <= i < |r| ==> IsDigit(r[i])
    decreases n
  {
    if n < 10 then [DigitChar(n)] else NatToString(n / 10) + [DigitChar(n % 10)]
  }

  /** The value of a string of decimal digits. */
  function ParseNat(s: string): nat
    requires forall i :: 0 <= i < |s| ==> IsDigit(s[i])
  {
    if s == [] then 0 else ParseNat(s[..|s| - 1]) * 10 + DigitValue(s[|s| - 1])
  }

  /** Decimal printing is inverted by parsing, so distinct indices print differently. */
  lemma {:induction false} ParseNatToString(n: nat)
    ensures ParseNat(NatToString(n)) == n
    decreases n
  {
    if n >= 10 {
      var s := NatToString(n);
      assert s[..|s| - 1] == NatToString(n / 10);
      ParseNatToString(n / 10);
    }
  }

  lemma NatToStringInjective(m: nat, n: nat)
    requires NatToString(m) == NatToString(n)
    ensures m == n
  {
    ParseNatToString(m);
    ParseNatToString(n);
  }
}
