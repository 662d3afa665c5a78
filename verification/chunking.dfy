/** The two character-window chunkers: `_chunk` (retrieve.py), which strips the text
    first, and `simple_chunks` (utils.py), which does not. Both run the same loop:
    a window of at most `size` characters starts at `i`, and the next window starts
    `overlap` characters before the previous one ended. */
module Chunking {

  import opened Text

  /** Default parameters of `_chunk`. */
  const ChunkSize := 700
  const ChunkOverlap := 120

  /** Default parameters of `simple_chunks`. */
  const SimpleChunkSize := 800
  const SimpleOverlap := 100

  function Min(a: int, b: int): int { if a < b then a else b }
  function Max(a: int, b: int): int { if a < b then b else a }

  /** The half-open character range `[start, end)` of one window. */
  datatype Span = Span(start: nat, end: nat)

  /** Every window lies inside `[lo, n)`, is non-empty and at most `size` long. */
  predicate SpansWithin(r: seq<Span>, lo: nat, n: nat, size: int) {
    forall k :: 0 <= k < |r| ==> lo <= r[k].start < r[k].end <= n && r[k].end - r[k].start <= size
  }

  /** Window `k` is full (`size` long) and window `k + 1` starts `overlap`
      characters before it ends (never before 0). */
  predicate Chained(r: seq<Span>, k: int, size: int, overlap: int)
    requires 0 <= k < |r| - 1
  {
    r[k].end - r[k].start == size && r[k + 1].start == Max(r[k].end - overlap, 0)
  }

  /** Every window but the last is `Chained` to the next. */
  predicate AllChained(r: seq<Span>, size: int, overlap: int) {
    forall k :: 0 <= k < |r| - 1 ==> Chained(r, k, size, overlap)
  }

  lemma ChainedCons(s: Span, rest: seq<Span>, size: int, overlap: int)
    requires AllChained(rest, size, overlap)
    requires rest != [] ==> s.end - s.start == size && rest[0].start == Max(s.end - overlap, 0)
    ensures AllChained([s] + rest, size, overlap)
  {
    var r := [s] + rest;
    forall k | 0 <= k < |r| - 1 ensures Chained(r, k, size, overlap) {
      if k > 0 {
        assert Chained(rest, k - 1, size, overlap);
        assert r[k] == rest[k - 1] && r[k + 1] == rest[k];
      }
    }
  }

  /** The window boundaries the chunking loop produces for a text of length `n`
      when it reaches position `i`. A negative `overlap` leaves gaps; the loop still
      ends because each window starts `size - overlap > 0` after the previous one. */
  function SpansFrom(n: nat, size: int, overlap: int, i: nat): (r: seq<Span>)
    requires 0 < size && overlap < size
    ensures i < n <==> r != []
    ensures SpansWithin(r, i, n, size)
    ensures r != [] ==> r[0].start == i
    decreases n - i
  {
    if i >= n then []
    else
      var j := Min(i + size, n);
      if j == n then [Span(i, n)]
      else [Span(i, j)] + SpansFrom(n, size, overlap, Max(j - overlap, 0))
  }

  /** Every window but the last is full and the next one starts `overlap`
      characters before it ends; with a non-negative overlap the last window
      ends at the end of the text. */
  lemma {:induction false} SpansFromChained(n: nat, size: int, overlap: int, i: nat)
    requires 0 < size && overlap < size
    ensures AllChained(SpansFrom(n, size, overlap, i), size, overlap)
    ensures var r := SpansFrom(n, size, overlap, i);
            0 <= overlap && r != [] ==> r[|r| - 1].end == n
    decreases n - i
  {
    if i < n && i + size < n {
      var j := i + size;
      var k := Max(j - overlap, 0);
      var rest := SpansFrom(n, size, overlap, k);
      assert SpansFrom(n, size, overlap, i) == [Span(i, j)] + rest;
      SpansFromChained(n, size, overlap, k);
      assert rest != [] ==> rest[0].start == k;
      ChainedCons(Span(i, j), rest, size, overlap);
    }
  }

  /** Window `k + 1` starts `overlap` characters before the full window `k`
      ends, and ends no earlier. */
  lemma SpansStep(n: nat, size: int, overlap: int, k: nat)
    requires 0 <= overlap < size
    requires k < |SpansFrom(n, size, overlap, 0)| - 1
    ensures var sp := SpansFrom(n, size, overlap, 0);
            && sp[k].end - sp[k].start == size
            && sp[k].end >= overlap
            && sp[k + 1].start == sp[k].end - overlap
            && sp[k].end <= sp[k + 1].end
  {
    var sp := SpansFrom(n, size, overlap, 0);
    SpansFromChained(n, size, overlap, 0);
    assert Chained(sp, k, size, overlap);
    if k + 1 < |sp| - 1 {
      assert Chained(sp, k + 1, size, overlap);
    }
  }

  /** The windows of `text` cut at the given boundaries. */
  function Cut(text: string, spans: seq<Span>): (r: seq<string>)
    requires forall k :: 0 <= k < |spans| ==> spans[k].start <= spans[k].end <= |text|
    ensures |r| == |spans|
    ensures forall k :: 0 <= k < |r| ==> r[k] == text[spans[k].start..spans[k].end]
  {
    seq(|spans|, k requires 0 <= k < |spans| => text[spans[k].start..spans[k].end])
  }

  function Spans(n: nat, size: int, overlap: int): (r: seq<Span>)
    requires 0 < size && overlap < size
    ensures r == SpansFrom(n, size, overlap, 0)
  {
    SpansFrom(n, size, overlap, 0)
  }

  /** The loop shared by both chunkers, from position 0. */
  function Windows(text: string, size: int, overlap: int): (r: seq<string>)
    requires 0 < size && overlap < size
    ensures r == Cut(text, Spans(|text|, size, overlap))
  {
    Cut(text, Spans(|text|, size, overlap))
  }

  /** `simple_chunks(text, chunk_size, overlap)` from utils.py. */
  function SimpleChunks(text: string, chunkSize: int, overlap: int): (r: seq<string>)
    requires 0 < chunkSize && overlap < chunkSize
    ensures text == [] <==> r == []
    ensures forall k :: 0 <= k < |r| ==> 0 < |r[k]| <= chunkSize
  {
    if text == [] then [] else Windows(text, chunkSize, overlap)
  }

  /** `_chunk(text, size, overlap)` from retrieve.py. */
  function Chunk(text: string, size: int, overlap: int): (r: seq<string>)
    requires 0 < size && overlap < size
    ensures r == [] <==> AllSpace(text)
    ensures forall k :: 0 <= k < |r| ==> 0 < |r[k]| <= size
  {
    StripEmptyIff(text);
    var t := Strip(text);
    if t == [] then [] else Windows(t, size, overlap)
  }

  // ---------------------------------------------------------------------------
  // Lossless reconstruction

  /** Python's `s[n:]` for `n >= 0`. */
  function Drop(s: string, n: nat): string {
    if n <= |s| then s[n..] else []
  }

  /** `ws[0] + ws[1][overlap:] + ws[2][overlap:] + ...`: the windows glued back
      together with each overlap counted once. */
  function Rejoin(ws: seq<string>, overlap: nat): string {
    if ws == [] then [] else ws[0] + Tails(ws[1..], overlap)
  }

  function Tails(ws: seq<string>, overlap: nat): string {
    if ws == [] then [] else Drop(ws[0], overlap) + Tails(ws[1..], overlap)
  }

  lemma CutCons(text: string, sp: Span, rest: seq<Span>)
    requires sp.start <= sp.end <= |text|
    requires forall k :: 0 <= k < |rest| ==> rest[k].start <= rest[k].end <= |text|
    ensures Cut(text, [sp] + rest) == [text[sp.start..sp.end]] + Cut(text, rest)
  {
    var all := [sp] + rest;
    assert forall k :: 0 <= k < |rest| ==> all[k + 1] == rest[k];
  }

  /** The windows from position `i` on, cut straight from the text: the loop
      of both chunkers read as a recursion. */
  function WindowsFrom(text: string, size: int, overlap: int, i: nat): seq<string>
    requires 0 < size && overlap < size
    decreases |text| - i
  {
    if i >= |text| then []
    else if i + size >= |text| then [text[i..]]
    else [text[i..i + size]] + WindowsFrom(text, size, overlap, Max(i + size - overlap, 0))
  }

  /** Cutting at the computed boundaries gives the same windows. */
  lemma {:induction false} WindowsFromCut(text: string, size: int, overlap: int, i: nat)
    requires 0 < size && overlap < size
    ensures WindowsFrom(text, size, overlap, i) == Cut(text, SpansFrom(|text|, size, overlap, i))
    decreases |text| - i
  {
    var n := |text|;
    if i < n && i + size >= n {
      assert SpansFrom(n, size, overlap, i) == [Span(i, n)];
      CutCons(text, Span(i, n), []);
      assert text[i..n] == text[i..];
    } else if i < n {
      var j := i + size;
      var i' := Max(j - overlap, 0);
      var rest := SpansFrom(n, size, overlap, i');
      assert SpansFrom(n, size, overlap, i) == [Span(i, j)] + rest;
      CutCons(text, Span(i, j), rest);
      WindowsFromCut(text, size, overlap, i');
    }
  }

  lemma TailsCons(w: string, rest: seq<string>, overlap: nat)
    ensures Tails([w] + rest, overlap) == Drop(w, overlap) + Tails(rest, overlap)
  {
    assert ([w] + rest)[1..] == rest;
  }

  lemma RejoinCons(w: string, rest: seq<string>, overlap: nat)
    ensures Rejoin([w] + rest, overlap) == w + Tails(rest, overlap)
  {
    assert ([w] + rest)[1..] == rest;
  }

  /** The windows from `i` on, each without its first `overlap` characters,
      glued together: everything after the part shared with the window
      before `i`. */
  lemma {:induction false} TailsFrom(text: string, size: int, overlap: int, i: nat)
    requires 0 <= overlap < size && i < |text| && i + overlap <= |text|
    ensures Tails(WindowsFrom(text, size, overlap, i), overlap) == text[i + overlap..]
    decreases |text| - i
  {
    var n := |text|;
    if i + size < n {
      var j := i + size;
      var k := Max(i + size - overlap, 0);
      var rest := WindowsFrom(text, size, overlap, k);
      var a := text[i + overlap..j];
      var t := text[j..];
      assert WindowsFrom(text, size, overlap, i) == [text[i..j]] + rest;
      assert Tails(rest, overlap) == t by {
        assert k + overlap == j;
        TailsFrom(text, size, overlap, k);
      }
      assert Tails([text[i..j]] + rest, overlap) == a + Tails(rest, overlap) by {
        assert Drop(text[i..j], overlap) == a;
        TailsCons(text[i..j], rest, overlap);
      }
      assert text[i + overlap..] == a + t;
    } else {
      assert WindowsFrom(text, size, overlap, i) == [text[i..]];
      assert Drop(text[i..], overlap) == text[i + overlap..];
      TailsCons(text[i..], [], overlap);
    }
  }

  /** The windows from `i` on, glued back with each overlap counted once, are
      the text from `i` on. */
  lemma RejoinFrom(text: string, size: int, overlap: int, i: nat)
    requires 0 <= overlap < size && i < |text|
    ensures Rejoin(WindowsFrom(text, size, overlap, i), overlap) == text[i..]
  {
    var n := |text|;
    if i + size < n {
      var j := i + size;
      var k := Max(i + size - overlap, 0);
      var rest := WindowsFrom(text, size, overlap, k);
      var a := text[i..j];
      var t := text[j..];
      assert WindowsFrom(text, size, overlap, i) == [a] + rest;
      assert Tails(rest, overlap) == t by {
        assert k + overlap == j;
        TailsFrom(text, size, overlap, k);
      }
      assert Rejoin([a] + rest, overlap) == a + Tails(rest, overlap) by {
        RejoinCons(a, rest, overlap);
      }
      assert text[i..] == a + t;
    } else {
      RejoinCons(text[i..], [], overlap);
    }
  }

  /** The windows of the stripped text, glued back with each overlap counted once,
      are exactly the stripped text. */
  lemma ChunkReconstructs(text: string, size: int, overlap: int)
    requires 0 <= overlap < size
    ensures Rejoin(Chunk(text, size, overlap), overlap) == Strip(text)
  {
    var t := Strip(text);
    if t != [] {
      WindowsFromCut(t, size, overlap, 0);
      RejoinFrom(t, size, overlap, 0);
    }
  }

  /** `simple_chunks` loses nothing: its windows glued back give the text itself. */
  lemma SimpleChunksReconstruct(text: string, chunkSize: int, overlap: int)
    requires 0 <= overlap < chunkSize
    ensures Rejoin(SimpleChunks(text, chunkSize, overlap), overlap) == text
  {
    if text != [] {
      WindowsFromCut(text, chunkSize, overlap, 0);
      RejoinFrom(text, chunkSize, overlap, 0);
    }
  }

  // ---------------------------------------------------------------------------
  // Window shape, stated on the strings

  /** Window `k` is exactly `size` long and shares its last `overlap` characters
      with the first `overlap` characters of window `k + 1`. */
  predicate SharesWithNext(ws: seq<string>, k: int, size: int, overlap: int)
    requires 0 <= overlap < size && 0 <= k < |ws| - 1
  {
    |ws[k]| == size && |ws[k + 1]| >= overlap && ws[k][size - overlap..] == ws[k + 1][..overlap]
  }

  /** The first window is a prefix and the last a suffix of the text, no window is
      longer than `size`, and every window but the last shares its tail with the
      next one. */
  predicate WindowShape(ws: seq<string>, text: string, size: int, overlap: int)
    requires 0 <= overlap < size
  {
    && (ws != [] ==> StartsWith(text, ws[0]) && |ws[|ws| - 1]| <= |text|
                     && ws[|ws| - 1] == text[|text| - |ws[|ws| - 1]|..])
    && (forall k :: 0 <= k < |ws| ==> |ws[k]| <= size)
    && (forall k :: 0 <= k < |ws| - 1 ==> SharesWithNext(ws, k, size, overlap))
  }

  lemma WindowsShareAt(text: string, size: int, overlap: int, k: nat)
    requires 0 <= overlap < size
    requires k < |Windows(text, size, overlap)| - 1
    ensures SharesWithNext(Windows(text, size, overlap), k, size, overlap)
  {
    var sp := Spans(|text|, size, overlap);
    var ws := Windows(text, size, overlap);
    SpansStep(|text|, size, overlap, k);
    var e := sp[k].end;
    var a := ws[k];
    var b := ws[k + 1];
    assert a == text[e - size..e];
    assert b == text[e - overlap..sp[k + 1].end];
    assert |a| == size && |b| >= overlap;
    assert a[size - overlap..] == b[..overlap] by {
      forall m | 0 <= m < overlap ensures a[size - overlap + m] == b[m] {
        assert a[size - overlap + m] == text[e - overlap + m];
      }
    }
  }

  lemma WindowsShape(text: string, size: int, overlap: int)
    requires 0 <= overlap < size
    ensures WindowShape(Windows(text, size, overlap), text, size, overlap)
  {
    var ws := Windows(text, size, overlap);
    SpansFromChained(|text|, size, overlap, 0);
    forall k | 0 <= k < |ws| - 1
      ensures SharesWithNext(ws, k, size, overlap)
    {
      WindowsShareAt(text, size, overlap, k);
    }
  }

  lemma ChunkShape(text: string, size: int, overlap: int)
    requires 0 <= overlap < size
    ensures WindowShape(Chunk(text, size, overlap), Strip(text), size, overlap)
  {
    WindowsShape(Strip(text), size, overlap);
  }

  lemma SimpleChunksShape(text: string, chunkSize: int, overlap: int)
    requires 0 <= overlap < chunkSize
    ensures WindowShape(SimpleChunks(text, chunkSize, overlap), text, chunkSize, overlap)
  {
    WindowsShape(text, chunkSize, overlap);
  }

  // ---------------------------------------------------------------------------
  // Number of windows

  /** `ceil(a / d)`. */
  function CeilDiv(a: nat, d: nat): nat
    requires d > 0
  {
    if a == 0 then 0 else if a <= d then 1 else 1 + CeilDiv(a - d, d)
  }

  /** Closed form for the number of windows over a text of length `n`: one window
      covers the first `size` characters, each further one advances `size - overlap`. */
  function WindowCount(n: nat, size: int, overlap: int): nat
    requires 0 <= overlap < size
  {
    if n == 0 then 0 else if n <= size then 1 else 1 + CeilDiv(n - size, size - overlap)
  }

  lemma CeilDivStep(a: nat, d: nat)
    requires d > 0
    ensures CeilDiv(a + d, d) == CeilDiv(a, d) + 1
  {
  }

  lemma CeilDivOne(a: nat, d: nat)
    requires 0 < a <= d
    ensures CeilDiv(a, d) == 1
  {
  }

  lemma {:induction false} CountFrom(n: nat, size: int, overlap: int, i: nat)
    requires 0 <= overlap < size && i <= n
    ensures |SpansFrom(n, size, overlap, i)| == WindowCount(n - i, size, overlap)
    decreases n - i
  {
    if i < n && i + size < n {
      var i' := i + size - overlap;
      assert SpansFrom(n, size, overlap, i) == [Span(i, i + size)] + SpansFrom(n, size, overlap, i');
      CountFrom(n, size, overlap, i');
      var m := n - i;
      var m' := n - i';
      var d := size - overlap;
      assert m - size == m' - overlap;
      if m' <= size {
        CeilDivOne(m - size, d);
        assert WindowCount(m', size, overlap) == 1;
      } else {
        CeilDivStep(m' - size, d);
        assert m - size == (m' - size) + d;
      }
    } else if i < n {
      assert SpansFrom(n, size, overlap, i) == [Span(i, n)];
    }
  }

  lemma ChunkCount(text: string, size: int, overlap: int)
    requires 0 <= overlap < size
    ensures |Chunk(text, size, overlap)| == WindowCount(|Strip(text)|, size, overlap)
  {
    CountFrom(|Strip(text)|, size, overlap, 0);
  }

  lemma SimpleChunksCount(text: string, chunkSize: int, overlap: int)
    requires 0 <= overlap < chunkSize
    ensures |SimpleChunks(text, chunkSize, overlap)| == WindowCount(|text|, chunkSize, overlap)
  {
    CountFrom(|text|, chunkSize, overlap, 0);
  }

  // ---------------------------------------------------------------------------
  // How the two chunkers relate

  /** `_chunk` is `simple_chunks` applied to the stripped text. */
  lemma ChunkIsSimpleChunksOfStripped(text: string, size: int, overlap: int)
    requires 0 < size && overlap < size
    ensures Chunk(text, size, overlap) == SimpleChunks(Strip(text), size, overlap)
  {
  }

  /** Unlike `_chunk`, `simple_chunks` keeps whitespace-only text: it yields
      non-empty windows made of whitespace. */
  lemma SimpleChunksKeepWhitespace(text: string, chunkSize: int, overlap: int)
    requires 0 < chunkSize && overlap < chunkSize
    requires text != [] && AllSpace(text)
    ensures Chunk(text, chunkSize, overlap) == []
    ensures var ws := SimpleChunks(text, chunkSize, overlap);
            ws != [] && forall k :: 0 <= k < |ws| ==> ws[k] != [] && AllSpace(ws[k])
  {
    var ws := SimpleChunks(text, chunkSize, overlap);
    var sp := Spans(|text|, chunkSize, overlap);
    forall k | 0 <= k < |ws| ensures AllSpace(ws[k]) {
      assert forall i :: 0 <= i < |ws[k]| ==> ws[k][i] == text[sp[k].start + i];
    }
  }

  /** With their default parameters the two chunkers cut a 750-character text
      differently: `_chunk` needs two windows, `simple_chunks` one. */
  lemma DefaultsDiffer()
    ensures var text := seq(750, _ => 'a');
            |Chunk(text, ChunkSize, ChunkOverlap)| == 2
            && |SimpleChunks(text, SimpleChunkSize, SimpleOverlap)| == 1
  {
    var text := seq(750, _ => 'a');
    assert Strip(text) == text by {
      assert text[0] == 'a' && text[|text| - 1] == 'a';
      StripUnique(text, text, 0);
    }
    ChunkCount(text, ChunkSize, ChunkOverlap);
    SimpleChunksCount(text, SimpleChunkSize, SimpleOverlap);
  }
}
