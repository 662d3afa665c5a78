/** Document heuristics of retrieve.py: markdown noise removal, title choice and
    document-type inference. */
module Markdown {

  import opened Wrappers
  import opened Text

  // ---------------------------------------------------------------------------
  // _strip_markdown_noise

  const Fence := "```"

  /** No two non-overlapping code fences occur in `s`. */
  ghost predicate NoFencePair(s: string) {
    forall p: nat, q: nat :: OccursAt(s, Fence, p) && OccursAt(s, Fence, q) && p <= q ==> q < p + 3
  }

  lemma OccursInSplice(a: string, b: string, x: nat)
    requires OccursAt(a + " " + b, Fence, x)
    ensures x + 3 <= |a| ==> OccursAt(a, Fence, x)
    ensures x > |a| ==> OccursAt(b, Fence, x - |a| - 1)
    ensures x + 3 <= |a| || x > |a|
  {
    var s := a + " " + b;
    assert s[|a|] == ' ';
    if x > |a| {
      assert s[x..x + 3] == b[x - |a| - 1..x - |a| + 2];
    }
    if x + 3 <= |a| {
      assert s[x..x + 3] == a[x..x + 3];
    }
  }

  /** `re.sub(r"```.*?```", " ", s, flags=re.S)`: each code block, from an opening
      fence to the nearest closing fence after it, becomes one space. An opening
      fence with no closing fence after it is kept, and then so is the rest. */
  function RemoveFences(s: string): (r: string)
    ensures NoFencePair(r)
    decreases |s|
  {
    match Find(s, Fence, 0)
    case None => s
    case Some(p) =>
      match Find(s, Fence, p + 3)
      case None =>
        assert forall x: nat, y: nat :: OccursAt(s, Fence, x) && OccursAt(s, Fence, y) && x <= y ==> p <= x && y < p + 3;
        s
      case Some(q) =>
        var rest := RemoveFences(s[q + 3..]);
        var r := s[..p] + " " + rest;
        assert forall x: nat :: x + 3 <= p && OccursAt(s[..p], Fence, x) ==> OccursAt(s, Fence, x) by {
          forall x: nat | x + 3 <= p && OccursAt(s[..p], Fence, x) ensures OccursAt(s, Fence, x) {
            assert s[..p][x..x + 3] == s[x..x + 3];
          }
        }
        forall x: nat, y: nat | OccursAt(r, Fence, x) && OccursAt(r, Fence, y) && x <= y
          ensures y < x + 3
        {
          OccursInSplice(s[..p], rest, x);
          OccursInSplice(s[..p], rest, y);
        }
        r
  }

  /** Every whitespace character is a plain space and no two whitespace characters
      are adjacent. */
  ghost predicate SingleSpaced(s: string) {
    && (forall i :: 0 <= i < |s| && IsSpace(s[i]) ==> s[i] == ' ')
    && (forall i, j :: 0 <= i && j == i + 1 && j < |s| ==> !(IsSpace(s[i]) && IsSpace(s[j])))
  }

  lemma TrimLeftNonSpace(s: string)
    ensures NonSpace(TrimLeft(s)) == NonSpace(s)
    ensures s != [] && IsSpace(s[0]) ==> |TrimLeft(s)| < |s|
  {
    var t := TrimLeft(s);
    var k := |s| - |t|;
    SkipSpaceSkipsSpace(s, 0);
    assert s == s[..k] + t;
    NonSpaceAppend(s[..k], t);
    assert s[..k] == s[0..k];
    NonSpaceOfSpaceBetween(s, 0, k);
  }

  /** `re.sub(r"\s+", " ", s)`: every maximal whitespace run becomes one space. */
  function Squeeze(s: string): (r: string)
    ensures (r == []) == (s == [])
    ensures r != [] ==> (IsSpace(r[0]) <==> IsSpace(s[0]))
    ensures SingleSpaced(r)
    ensures NonSpace(r) == NonSpace(s)
    decreases |s|
  {
    if s == [] then []
    else if IsSpace(s[0]) then
      TrimLeftNonSpace(s);
      var t := TrimLeft(s);
      var rest := Squeeze(t);
      assert rest != [] ==> !IsSpace(rest[0]);
      var r := [' '] + rest;
      assert forall i :: 1 <= i < |r| ==> r[i] == rest[i - 1];
      assert NonSpace(r) == NonSpace(rest);
      r
    else
      var rest := Squeeze(s[1..]);
      var r := [s[0]] + rest;
      assert forall i :: 1 <= i < |r| ==> r[i] == rest[i - 1];
      assert NonSpace(r) == [s[0]] + NonSpace(rest);
      r
  }

  lemma StripSingleSpaced(s: string)
    requires SingleSpaced(s)
    ensures SingleSpaced(Strip(s))
  {
    var r := Strip(s);
    var a := StripStart(s);
    assert forall i :: 0 <= i < |r| ==> r[i] == s[a + i];
  }

  // Words: the maximal runs of non-whitespace characters

  /** The words of `cur + s`, where `cur` is the part of a word read before `s`. */
  function WordsFrom(cur: string, s: string): seq<string>
    decreases |s|
  {
    if s == [] then (if cur == [] then [] else [cur])
    else if IsSpace(s[0]) then (if cur == [] then [] else [cur]) + WordsFrom([], s[1..])
    else WordsFrom(cur + [s[0]], s[1..])
  }

  /** The maximal runs of non-whitespace characters of `s`, in order. */
  function Words(s: string): seq<string> {
    WordsFrom([], s)
  }

  /** `" ".join(ws)`. */
  function Unwords(ws: seq<string>): string {
    if ws == [] then [] else if |ws| == 1 then ws[0] else ws[0] + " " + Unwords(ws[1..])
  }

  /** Leading whitespace separates no words. */
  lemma {:induction false} WordsAfterSpace(sp: string, t: string)
    requires AllSpace(sp)
    ensures Words(sp + t) == Words(t)
  {
    if sp != [] {
      assert (sp + t)[0] == sp[0] && (sp + t)[1..] == sp[1..] + t;
      assert IsSpace(sp[0]);
      assert AllSpace(sp[1..]) by {
        assert forall i :: 0 <= i < |sp[1..]| ==> sp[1..][i] == sp[i + 1];
      }
      WordsAfterSpace(sp[1..], t);
      assert Words(sp + t) == [] + WordsFrom([], sp[1..] + t);
    } else {
      assert sp + t == t;
    }
  }

  /** Trailing whitespace ends the last word and adds none. */
  lemma {:induction false} WordsBeforeSpace(cur: string, t: string, sp: string)
    requires AllSpace(sp)
    ensures WordsFrom(cur, t + sp) == WordsFrom(cur, t)
    decreases |t|
  {
    if t == [] {
      assert t + sp == sp;
      if sp != [] {
        WordsAfterSpace(sp[1..], []);
        assert sp[1..] + [] == sp[1..];
      }
    } else {
      assert (t + sp)[0] == t[0] && (t + sp)[1..] == t[1..] + sp;
      if IsSpace(t[0]) {
        WordsBeforeSpace([], t[1..], sp);
      } else {
        WordsBeforeSpace(cur + [t[0]], t[1..], sp);
      }
    }
  }

  /** Stripping keeps the words. */
  lemma WordsStrip(s: string)
    ensures Words(Strip(s)) == Words(s)
  {
    StripSpec(s);
    var r := Strip(s);
    var a := StripStart(s);
    var pre := s[..a];
    var post := s[a + |r|..];
    assert s == pre + (r + post);
    WordsAfterSpace(pre, r + post);
    WordsBeforeSpace([], r, post);
  }

  /** Squeezing the whitespace runs keeps the words, even in the middle of one. */
  lemma {:induction false} WordsSqueeze(cur: string, s: string)
    ensures WordsFrom(cur, Squeeze(s)) == WordsFrom(cur, s)
    decreases |s|
  {
    if s != [] {
      var pre := if cur == [] then [] else [cur];
      if IsSpace(s[0]) {
        var k := SkipSpace(s, 0);
        var t := s[k..];
        var q := [' '] + Squeeze(t);
        assert WordsFrom(cur, Squeeze(s)) == pre + WordsFrom([], Squeeze(t)) by {
          TrimLeftNonSpace(s);
          assert Squeeze(s) == q;
          assert q[0] == ' ' && q[1..] == Squeeze(t);
        }
        assert WordsFrom(cur, s) == pre + WordsFrom([], t) by {
          SkipSpaceSkipsSpace(s, 0);
          assert s[1..] == s[1..k] + t;
          WordsAfterSpace(s[1..k], t);
        }
        WordsSqueeze([], t);
      } else {
        var q := [s[0]] + Squeeze(s[1..]);
        assert WordsFrom(cur, Squeeze(s)) == WordsFrom(cur + [s[0]], Squeeze(s[1..])) by {
          assert Squeeze(s) == q;
          assert q[0] == s[0] && q[1..] == Squeeze(s[1..]);
        }
        WordsSqueeze(cur + [s[0]], s[1..]);
      }
    }
  }

  /** `re.sub(r"\s+", " ", s)` has the words of `s`: it only replaces each
      whitespace run between them by one space. */
  lemma SqueezeWords(s: string)
    ensures Words(Squeeze(s)) == Words(s)
  {
    WordsSqueeze([], s);
  }

  /** Text with single spaces and no whitespace at either end is its words
      joined by single spaces. */
  lemma {:induction false} SingleSpacedIsUnwords(cur: string, x: string)
    requires SingleSpaced(x)
    requires x == [] || !IsSpace(x[|x| - 1])
    requires cur == [] && x != [] ==> !IsSpace(x[0])
    ensures cur + x == Unwords(WordsFrom(cur, x))
    decreases |x|
  {
    if x == [] {
      assert cur + x == cur;
    } else {
      var y := x[1..];
      assert SingleSpaced(y) by {
        assert forall i :: 0 <= i < |y| ==> y[i] == x[i + 1];
      }
      if IsSpace(x[0]) {
        assert x[0] == ' ' && y != [] && !IsSpace(y[0]);
        SingleSpacedIsUnwords([], y);
        var w := WordsFrom([], y);
        assert w != [];
        assert ([cur] + w)[1..] == w;
        assert cur + x == cur + " " + y;
      } else {
        SingleSpacedIsUnwords(cur + [x[0]], y);
        assert cur + x == cur + [x[0]] + y;
      }
    }
  }

  /** `_strip_markdown_noise`. The `re.sub(r" ", " ", ...)` step replaces a space
      by a space and so changes nothing. */
  function StripMarkdownNoise(txt: string): (r: string)
    ensures r == [] || (!IsSpace(r[0]) && !IsSpace(r[|r| - 1]))
    ensures SingleSpaced(r)
    ensures NonSpace(r) == NonSpace(RemoveFences(txt))
    ensures r == Unwords(Words(RemoveFences(txt)))
  {
    var s := Squeeze(RemoveFences(txt));
    StripSingleSpaced(s);
    StripNonSpace(s);
    var r := Strip(s);
    SingleSpacedIsUnwords([], r);
    WordsStrip(s);
    SqueezeWords(RemoveFences(txt));
    r
  }

  // ---------------------------------------------------------------------------
  // _title_from_markdown

  /** A line the pattern `^\s*#\s+(.+)$` matches within: after optional leading
      whitespace a `#`, then at least one whitespace character, then at least one
      more character of any kind. */
  predicate IsHeadingLine(line: string) {
    var k := SkipSpace(line, 0);
    k + 3 <= |line| && line[k] == '#' && IsSpace(line[k + 1])
  }

  /** `m.group(1).strip()`: what follows the `#`, without surrounding whitespace.
      It is empty when only whitespace follows the `#`. */
  function HeadingText(line: string): (r: string)
    requires IsHeadingLine(line)
    ensures var rest := line[SkipSpace(line, 0) + 1..];
            && NonSpace(r) == NonSpace(rest)
            && (r == [] || (!IsSpace(r[0]) && !IsSpace(r[|r| - 1])))
            && (r == [] <==> AllSpace(rest))
            && IsStripAt(r, rest, StripStart(rest))
  {
    var rest := line[SkipSpace(line, 0) + 1..];
    StripSpec(rest);
    StripNonSpace(rest);
    StripEmptyIff(rest);
    Strip(rest)
  }

  /** `line.strip()` is not empty. */
  predicate NonBlank(line: string) {
    !AllSpace(line)
  }

  /** Line `h` is the first heading line. */
  predicate FirstHeadingAt(hs: seq<string>, h: int) {
    0 <= h < |hs| && IsHeadingLine(hs[h]) && forall j {:trigger IsHeadingLine(hs[j])} :: 0 <= j < h ==> !IsHeadingLine(hs[j])
  }

  /** Line `i` is the first non-blank line. */
  predicate FirstNonBlankAt(ls: seq<string>, i: int) {
    0 <= i < |ls| && NonBlank(ls[i]) && forall j {:trigger NonBlank(ls[j])} :: 0 <= j < i ==> !NonBlank(ls[j])
  }

  function FindHeading(hs: seq<string>, from: nat): (r: Option<nat>)
    requires from <= |hs|
    requires forall j {:trigger IsHeadingLine(hs[j])} :: 0 <= j < from ==> !IsHeadingLine(hs[j])
    ensures r.Some? ==> FirstHeadingAt(hs, r.value)
    ensures r.None? ==> forall j {:trigger IsHeadingLine(hs[j])} :: 0 <= j < |hs| ==> !IsHeadingLine(hs[j])
    decreases |hs| - from
  {
    if from == |hs| then None
    else if IsHeadingLine(hs[from]) then Some(from)
    else FindHeading(hs, from + 1)
  }

  function FindNonBlank(ls: seq<string>, from: nat): (r: Option<nat>)
    requires from <= |ls|
    requires forall j {:trigger NonBlank(ls[j])} :: 0 <= j < from ==> !NonBlank(ls[j])
    ensures r.Some? ==> FirstNonBlankAt(ls, r.value)
    ensures r.None? ==> forall j {:trigger NonBlank(ls[j])} :: 0 <= j < |ls| ==> !NonBlank(ls[j])
    decreases |ls| - from
  {
    if from == |ls| then None
    else if NonBlank(ls[from]) then Some(from)
    else FindNonBlank(ls, from + 1)
  }

  const MaxTitleLength := 120

  /** `_title_from_markdown(txt, fallback)`: the first heading's text; without a
      heading, the first non-blank line stripped and cut to 120 characters; without
      one, the fallback. */
  function TitleFromMarkdown(txt: string, fallback: string): (r: string)
    ensures forall h :: FirstHeadingAt(NewlineLines(txt), h) ==> r == HeadingText(NewlineLines(txt)[h])
    ensures (forall h :: 0 <= h < |NewlineLines(txt)| ==> !IsHeadingLine(NewlineLines(txt)[h])) ==>
              && (forall i :: FirstNonBlankAt(Lines(txt), i) ==> r == Take(Strip(Lines(txt)[i]), MaxTitleLength))
              && ((forall i :: 0 <= i < |Lines(txt)| ==> !NonBlank(Lines(txt)[i])) ==> r == fallback)
  {
    var hs := NewlineLines(txt);
    match FindHeading(hs, 0)
    case Some(h) =>
      assert forall h' :: FirstHeadingAt(hs, h') ==> h' == h;
      HeadingText(hs[h])
    case None =>
      var ls := Lines(txt);
      match FindNonBlank(ls, 0)
      case Some(i) =>
        assert forall i' :: FirstNonBlankAt(ls, i') ==> i' == i;
        Take(Strip(ls[i]), MaxTitleLength)
      case None => fallback
  }

  /** Text that is only whitespace has no heading and no non-blank line, so its
      title is the fallback. */
  lemma TitleOfBlankText(txt: string, fallback: string)
    requires AllSpace(txt)
    ensures TitleFromMarkdown(txt, fallback) == fallback
  {
    var hs := NewlineLines(txt);
    var ls := Lines(txt);
    SplitLinesAllSpace(txt, NewlineOnly);
    SplitLinesAllSpace(txt, LineEnds);
    forall h | 0 <= h < |hs| ensures !IsHeadingLine(hs[h]) {
      assert AllSpace(hs[h]);
    }
    forall i | 0 <= i < |ls| ensures !NonBlank(ls[i]) {
      assert AllSpace(ls[i]);
    }
  }

  /** A heading with nothing but whitespace after its `#`, and nothing but
      whitespace after it in the text, still matches the pattern, and its
      title is the empty string: the fallback is not consulted. (Were a later
      line non-blank, `\s+` would run across the line break and take that
      line; with a `#` on an earlier line, the match could start there.) */
  lemma BlankHeadingGivesEmptyTitle(txt: string, fallback: string, h: nat)
    requires FirstHeadingAt(NewlineLines(txt), h)
    requires AllSpace(NewlineLines(txt)[h][SkipSpace(NewlineLines(txt)[h], 0) + 1..])
    requires forall j :: 0 <= j < h ==> '#' !in NewlineLines(txt)[j]
    requires forall j :: h < j < |NewlineLines(txt)| ==> AllSpace(NewlineLines(txt)[j])
    ensures TitleFromMarkdown(txt, fallback) == []
  {
  }

  /** A title not taken from a heading or the fallback is at most 120 characters. */
  lemma TitleLength(txt: string, fallback: string)
    requires forall h :: 0 <= h < |NewlineLines(txt)| ==> !IsHeadingLine(NewlineLines(txt)[h])
    ensures var r := TitleFromMarkdown(txt, fallback);
            r == fallback || 0 < |r| <= MaxTitleLength
  {
    var ls := Lines(txt);
    match FindNonBlank(ls, 0)
    case Some(i) =>
      StripEmptyIff(ls[i]);
    case None =>
  }

  // ---------------------------------------------------------------------------
  // _infer_doc_type

  datatype DocType = Regel | Pris | Booking | Handbok | Annet {
    /** The label stored in the `doc_type` field. */
    function Label(): string {
      match this
      case Regel => "regel"
      case Pris => "pris"
      case Booking => "booking"
      case Handbok => "h\U{E5}ndbok"
      case Annet => "annet"
    }
  }

  const RegelWords: seq<string> := ["vilk\U{E5}r", "terms", "betingelser", "angrerett", "personvern", "gdpr", "privacy"]
  const PrisWords: seq<string> := ["pris", "timepris", "avgift", "kontingent", "kostnad", "rabatt"]
  const BookingWords: seq<string> := ["booking", "banebooking", "reserver", "matchi", "baneregler"]
  const HandbokWords: seq<string> := ["h\U{E5}ndbok"]

  predicate AnyIn(low: string, words: seq<string>) {
    exists w :: w in words && Contains(low, w)
  }

  /** The only text `_infer_doc_type` looks at: the lower-cased file name, a space
      and the first 400 characters of the text. */
  function DocTypeKey(name: string, text: string): string {
    Lower(name + " " + Take(text, 400))
  }

  /** `_infer_doc_type(name, text)`: the first keyword group, in the order
      regel, pris, booking, håndbok, with a keyword in the key decides. */
  function InferDocType(name: string, text: string): (r: DocType)
    ensures var low := DocTypeKey(name, text);
            && (r == Regel <==> AnyIn(low, RegelWords))
            && (r == Pris <==> !AnyIn(low, RegelWords) && AnyIn(low, PrisWords))
            && (r == Booking <==> !AnyIn(low, RegelWords) && !AnyIn(low, PrisWords) && AnyIn(low, BookingWords))
            && (r == Handbok <==> !AnyIn(low, RegelWords) && !AnyIn(low, PrisWords) && !AnyIn(low, BookingWords)
                                  && AnyIn(low, HandbokWords))
  {
    var low := DocTypeKey(name, text);
    if AnyIn(low, RegelWords) then Regel
    else if AnyIn(low, PrisWords) then Pris
    else if AnyIn(low, BookingWords) then Booking
    else if AnyIn(low, HandbokWords) then Handbok
    else Annet
  }

  /** Every label `_infer_doc_type` can return. */
  lemma DocTypeLabels(name: string, text: string)
    ensures InferDocType(name, text).Label() in {"regel", "pris", "booking", "h\U{E5}ndbok", "annet"}
  {
  }

  /** A `regel` keyword in the lower-cased name decides the type whatever the
      text says: that group is checked first. */
  lemma NameKeywordDecides(name: string, text: string, w: string)
    requires w in RegelWords && Contains(Lower(name), w)
    ensures InferDocType(name, text) == Regel
  {
    LowerAppend(name, " " + Take(text, 400));
    assert name + " " + Take(text, 400) == name + (" " + Take(text, 400));
    ContainsAppend(Lower(name), Lower(" " + Take(text, 400)), w);
  }

  /** Only the first 400 characters of the text matter. */
  lemma TextBeyond400Ignored(name: string, text: string, more: string)
    requires |text| >= 400
    ensures InferDocType(name, text + more) == InferDocType(name, text)
  {
    assert Take(text + more, 400) == Take(text, 400);
  }
}
