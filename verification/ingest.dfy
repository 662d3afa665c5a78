/** The offline ingest: `read_markdown_files` turns files into document
    records, `build_index` cuts them into stripped windows with one metadata
    row each, and `_embed_texts` embeds the windows in batches. The file
    system, the clock and the embedding client are inputs. */
module Ingest {
  import opened Wrappers
  import opened Text
  import opened Paths
  import opened Records
  import opened Chunking

  // ---------------------------------------------------------------------------
  // read_markdown_files

  /** A match of `root.rglob("*")`: the path, its resolved form, whether it is
      a regular file, its text (`None` when reading raised) and its
      modification date as `strftime("%Y-%m-%d")` printed it. */
  datatype Entry = Entry(path: Path, resolved: Path, isFile: bool, content: Option<string>, date: string)

  /** A document record. */
  datatype Doc = Doc(title: string, source: string, text: string, versionDate: string)

  const TitleWord := "tittel"
  const TitlePrefix := TitleWord + ":"

  /** `line.lower().startswith("tittel:")`. */
  predicate IsTitleLine(line: string) {
    StartsWith(Lower(line), TitlePrefix)
  }

  /** Each of the first characters of `s` lower-cases to exactly the
      character at the same place in `p`, provided `p` never has an `i`
      followed by the combining dot that only U+0130 produces. */
  lemma {:induction false} LowerPrefix(s: string, p: string)
    requires StartsWith(Lower(s), p)
    requires forall k :: 0 <= k < |p| && p[k] == 'i' ==> k + 1 < |p| && p[k + 1] != '\U{307}'
    ensures |p| <= |s|
    ensures forall k :: 0 <= k < |p| ==> LowerChar(s[k]) == [p[k]]
    decreases |p|
  {
    if p != [] {
      assert s != [];
      assert Lower(s) == LowerChar(s[0]) + Lower(s[1..]);
      assert p[0] == Lower(s)[0];
      assert p[0] == 'i' ==> |p| >= 2 && p[1] == Lower(s)[1] && p[1] != '\U{307}';
      assert s[0] != '\U{130}';
      assert Lower(s)[1..] == Lower(s[1..]);
      assert StartsWith(Lower(s[1..]), p[1..]) by {
        assert Lower(s[1..])[..|p| - 1] == Lower(s)[1..|p|];
      }
      LowerPrefix(s[1..], p[1..]);
      forall k | 0 <= k < |p| ensures LowerChar(s[k]) == [p[k]] {
        if k > 0 {
          assert s[k] == s[1..][k - 1] && p[k] == p[1..][k - 1];
        }
      }
    }
  }

  /** On a title line the first colon is the seventh character: whatever
      letters spell `tittel`, none of them is a colon. */
  lemma TitleLineShape(line: string)
    requires IsTitleLine(line)
    ensures |line| >= 7 && line[6] == ':'
    ensures forall j :: 0 <= j < 6 ==> line[j] != ':'
  {
    LowerPrefix(line, TitlePrefix);
    forall j | 0 <= j < 6 ensures line[j] != ':' {
      assert TitlePrefix[j] in TitleWord;
      NotColon(line[j], TitlePrefix[j]);
    }
    ColonOnly(line[6]);
  }

  /** A line whose only colon among its first seven characters is the
      seventh has its first colon there. */
  lemma ColonAtSix(line: string)
    requires |line| >= 7 && line[6] == ':'
    requires forall j :: 0 <= j < 6 ==> line[j] != ':'
    ensures Find(line, ":", 0) == Some(6)
  {
    var colon := ":";
    forall j: nat | j < 6 ensures !OccursAt(line, colon, j) {
      assert line[j..j + 1] == [line[j]];
    }
    assert line[6..7] == colon;
    FindFirst(line, colon, 6);
  }

  /** Only a colon lower-cases to a colon. */
  lemma ColonOnly(c: char)
    requires LowerChar(c) == [':']
    ensures c == ':'
  {
  }

  lemma NotColon(c: char, d: char)
    requires LowerChar(c) == [d] && d != ':'
    ensures c != ':'
  {
  }

  /** `line.split(":", 1)[1].strip() or title`. */
  function TitleFrom(line: string, stem: string): (r: string)
    requires IsTitleLine(line)
    ensures |line| >= 7
    ensures Strip(line[7..]) != [] ==> r == Strip(line[7..])
    ensures Strip(line[7..]) == [] ==> r == stem
  {
    TitleLineShape(line);
    ColonAtSix(line);
    var t := Strip(line[Find(line, ":", 0).value + 1..]);
    if t != [] then t else stem
  }

  predicate FirstTitleLineAt(ls: seq<string>, i: int) {
    0 <= i < |ls| && IsTitleLine(ls[i]) && forall j {:trigger IsTitleLine(ls[j])} :: 0 <= j < i ==> !IsTitleLine(ls[j])
  }

  function FindTitleLine(ls: seq<string>, from: nat): (r: Option<nat>)
    requires from <= |ls|
    ensures r.Some? ==> from <= r.value < |ls| && IsTitleLine(ls[r.value])
                        && forall j :: from <= j < r.value ==> !IsTitleLine(ls[j])
    ensures r.None? ==> forall j :: from <= j < |ls| ==> !IsTitleLine(ls[j])
    decreases |ls| - from
  {
    if from == |ls| then None
    else if IsTitleLine(ls[from]) then Some(from)
    else FindTitleLine(ls, from + 1)
  }

  /** The title rule: the file stem, unless a line starts with `Tittel:` in
      any case; the first such line gives the title after its colon,
      stripped, when that is not empty. */
  function TitleRule(text: string, stem: string): string {
    var ls := Lines(text);
    match FindTitleLine(ls, 0)
    case None => stem
    case Some(i) => TitleFrom(ls[i], stem)
  }

  /** Without a title line the title is the stem. */
  lemma TitleRuleWithoutTitleLine(text: string, stem: string)
    requires forall i :: 0 <= i < |Lines(text)| ==> !IsTitleLine(Lines(text)[i])
    ensures TitleRule(text, stem) == stem
  {
  }

  /** With a title line, the title is what follows its seventh character,
      stripped, and the stem only when that is blank; lines after the first
      title line do not matter. */
  lemma TitleRuleFirstLineWins(text: string, stem: string, i: nat)
    requires FirstTitleLineAt(Lines(text), i)
    ensures var line := Lines(text)[i];
            |line| >= 7 && TitleRule(text, stem) == if Strip(line[7..]) != [] then Strip(line[7..]) else stem
  {
    var ls := Lines(text);
    TitleLineShape(ls[i]);
    var found := FindTitleLine(ls, 0);
    assert found.Some? && found.value <= i;
    assert found.value == i;
  }

  /** The suffix filter of `read_markdown_files`. */
  predicate Accepted(e: Entry) {
    var s := Lower(Suffix(Name(e.path)));
    e.isFile && (s == ".txt" || s == ".md") && e.content.Some?
  }

  /** The record of an accepted entry. */
  function DocOf(e: Entry): (d: Doc)
    requires Accepted(e)
    ensures d.text == Strip(e.content.value) && d.source == PathString(e.resolved) && d.versionDate == e.date
    ensures var ls := Lines(e.content.value);
            && ((forall i :: 0 <= i < |ls| ==> !IsTitleLine(ls[i])) ==> d.title == Stem(Name(e.path)))
            && (forall i :: FirstTitleLineAt(ls, i) ==>
                  |ls[i]| >= 7 && d.title == if Strip(ls[i][7..]) != [] then Strip(ls[i][7..]) else Stem(Name(e.path)))
  {
    var text := e.content.value;
    var stem := Stem(Name(e.path));
    var ls := Lines(text);
    assert (forall i :: 0 <= i < |ls| ==> !IsTitleLine(ls[i])) ==> TitleRule(text, stem) == stem by {
      if forall i :: 0 <= i < |ls| ==> !IsTitleLine(ls[i]) {
        TitleRuleWithoutTitleLine(text, stem);
      }
    }
    assert forall i :: FirstTitleLineAt(ls, i) ==>
             |ls[i]| >= 7 && TitleRule(text, stem) == if Strip(ls[i][7..]) != [] then Strip(ls[i][7..]) else stem by {
      forall i | FirstTitleLineAt(ls, i)
        ensures |ls[i]| >= 7 && TitleRule(text, stem) == if Strip(ls[i][7..]) != [] then Strip(ls[i][7..]) else stem
      {
        TitleRuleFirstLineWins(text, stem, i);
      }
    }
    Doc(TitleRule(e.content.value, Stem(Name(e.path))), PathString(e.resolved), Strip(e.content.value), e.date)
  }

  /** `read_markdown_files`: one record per accepted entry, in walk order. */
  function ReadMarkdownFiles(entries: seq<Entry>): (r: seq<Doc>)
    ensures |r| <= |entries|
    ensures forall e :: e in entries && Accepted(e) ==> DocOf(e) in r
    ensures forall d :: d in r ==> exists e :: e in entries && Accepted(e) && d == DocOf(e)
  {
    if entries == [] then []
    else
      var rest := ReadMarkdownFiles(entries[1..]);
      assert forall e :: e in entries ==> e == entries[0] || e in entries[1..];
      DocsOf(entries[0]) + rest
  }

  /** The record of one entry, if it is accepted. */
  function DocsOf(e: Entry): (r: seq<Doc>)
    ensures Accepted(e) ==> r == [DocOf(e)]
    ensures !Accepted(e) ==> r == []
  {
    if Accepted(e) then [DocOf(e)] else []
  }

  /** The records keep the walk order: reading two runs of entries one after
      the other is reading each and concatenating, and a single entry gives
      its record when it is accepted and nothing otherwise. */
  lemma {:induction false} ReadMarkdownFilesAppend(a: seq<Entry>, b: seq<Entry>)
    ensures ReadMarkdownFiles(a + b) == ReadMarkdownFiles(a) + ReadMarkdownFiles(b)
    ensures |a| == 1 ==> ReadMarkdownFiles(a) == DocsOf(a[0])
  {
    if a == [] {
      assert a + b == b;
    } else {
      var ab := a + b;
      var head := DocsOf(a[0]);
      assert ab[0] == a[0] && ab[1..] == a[1..] + b;
      assert ReadMarkdownFiles(ab) == head + ReadMarkdownFiles(a[1..] + b);
      assert ReadMarkdownFiles(a) == head + ReadMarkdownFiles(a[1..]);
      ReadMarkdownFilesAppend(a[1..], b);
      AppendAssoc(head, ReadMarkdownFiles(a[1..]), ReadMarkdownFiles(b));
      if |a| == 1 {
        assert a[1..] == [];
      }
    }
  }

  // ---------------------------------------------------------------------------
  // build_index

  /** The windows `simple_chunks` gives that are not blank, each stripped and
      paired with its position among all windows. */
  function KeptWindows(ws: seq<string>): (r: seq<(nat, string)>)
    ensures |r| <= |ws|
    ensures forall j :: 0 <= j < |r| ==> r[j].0 < |ws|
  {
    if ws == [] then []
    else
      var n := |ws| - 1;
      KeptWindows(ws[..n]) + (if Strip(ws[n]) != [] then [(n, Strip(ws[n]))] else [])
  }

  /** One more window adds its stripped text, unless that is blank. */
  lemma KeptWindowsSnoc(ws: seq<string>, i: nat)
    requires i < |ws|
    ensures KeptWindows(ws[..i + 1]) == KeptWindows(ws[..i]) + (if Strip(ws[i]) != [] then [(i, Strip(ws[i]))] else [])
  {
    assert ws[..i + 1][..i] == ws[..i];
  }

  /** Each entry is a window of `ws` that is not blank, stripped, with its
      position. */
  predicate KeptFrom(kept: seq<(nat, string)>, ws: seq<string>) {
    forall j :: 0 <= j < |kept| ==> kept[j].0 < |ws| && kept[j].1 == Strip(ws[kept[j].0]) && kept[j].1 != []
  }

  /** Positions strictly increase. */
  predicate Increasing(kept: seq<(nat, string)>) {
    forall a, b :: 0 <= a < b < |kept| ==> kept[a].0 < kept[b].0
  }

  lemma {:induction false} KeptWindowsSpec(ws: seq<string>)
    ensures KeptFrom(KeptWindows(ws), ws) && Increasing(KeptWindows(ws))
    decreases |ws|
  {
    if ws != [] {
      var n := |ws| - 1;
      var init := KeptWindows(ws[..n]);
      KeptWindowsSpec(ws[..n]);
      var last := if Strip(ws[n]) != [] then [(n, Strip(ws[n]))] else [];
      var r := init + last;
      assert r == KeptWindows(ws);
      forall j | 0 <= j < |r| ensures r[j].0 < |ws| && r[j].1 == Strip(ws[r[j].0]) && r[j].1 != [] {
        if j < |init| {
          assert r[j] == init[j];
          assert ws[..n][init[j].0] == ws[init[j].0];
        } else {
          assert r[j] == last[j - |init|];
        }
      }
      forall a, b | 0 <= a < b < |r| ensures r[a].0 < r[b].0 {
        assert r[a] == init[a];
        if b < |init| {
          assert r[b] == init[b];
        } else {
          assert r[b] == last[b - |init|];
        }
      }
    }
  }

  /** Every window that is not blank is kept. */
  lemma {:induction false} KeptWindowsComplete(ws: seq<string>, i: nat)
    requires i < |ws| && Strip(ws[i]) != []
    ensures (i, Strip(ws[i])) in KeptWindows(ws)
    decreases |ws|
  {
    var n := |ws| - 1;
    var init := KeptWindows(ws[..n]);
    var last := if Strip(ws[n]) != [] then [(n, Strip(ws[n]))] else [];
    assert KeptWindows(ws) == init + last;
    if i < n {
      assert ws[..n][i] == ws[i];
      KeptWindowsComplete(ws[..n], i);
    }
  }

  /** The metadata rows of the given windows of one document. */
  function RowsOf(d: Doc, kept: seq<(nat, string)>): (r: seq<Meta>)
    ensures |r| == |kept|
    ensures forall j :: 0 <= j < |kept| ==>
              r[j] == IngestRow(MakeId(d.source, kept[j].0), kept[j].1, d.source, d.title, d.versionDate)
  {
    seq(|kept|, j requires 0 <= j < |kept| =>
      IngestRow(MakeId(d.source, kept[j].0), kept[j].1, d.source, d.title, d.versionDate))
  }

  /** The rows of one document. */
  function DocRows(d: Doc): seq<Meta> {
    RowsOf(d, KeptWindows(SimpleChunks(d.text, SimpleChunkSize, SimpleOverlap)))
  }

  /** The rows of all documents, in document order. */
  function IndexRows(docs: seq<Doc>): seq<Meta> {
    if docs == [] then [] else IndexRows(docs[..|docs| - 1]) + DocRows(docs[|docs| - 1])
  }

  /** Why `build_index` raises: no documents at all, or no window survived. */
  datatype IndexError = NoDocuments | NoChunks

  lemma RowsOfAppend(d: Doc, a: seq<(nat, string)>, b: seq<(nat, string)>)
    ensures RowsOf(d, a + b) == RowsOf(d, a) + RowsOf(d, b)
  {
    assert forall j :: 0 <= j < |b| ==> (a + b)[|a| + j] == b[j];
  }

  /** The inner loop of `build_index`: the windows of one document that are
      not blank, stripped, each with its row. */
  method AddDoc(doc: Doc, ws: seq<string>) returns (chunks: seq<string>, metas: seq<Meta>)
    ensures metas == RowsOf(doc, KeptWindows(ws)) && chunks == Texts(metas)
  {
    chunks, metas := [], [];
    var i := 0;
    while i < |ws|
      invariant 0 <= i <= |ws|
      invariant metas == RowsOf(doc, KeptWindows(ws[..i]))
      invariant chunks == Texts(metas)
    {
      var chunk := Strip(ws[i]);
      if chunk != [] {
        var m := IngestRow(MakeId(doc.source, i), chunk, doc.source, doc.title, doc.versionDate);
        assert RowsOf(doc, KeptWindows(ws[..i + 1])) == metas + [m] by {
          KeptWindowsSnoc(ws, i);
          RowsOfAppend(doc, KeptWindows(ws[..i]), [(i, chunk)]);
          assert RowsOf(doc, [(i, chunk)]) == [m];
        }
        assert Texts(metas + [m]) == chunks + [chunk] by {
          TextsAppend(metas, [m]);
          assert Texts([m]) == [chunk];
        }
        chunks := chunks + [chunk];
        metas := metas + [m];
      } else {
        assert KeptWindows(ws[..i + 1]) == KeptWindows(ws[..i]) by {
          KeptWindowsSnoc(ws, i);
        }
      }
      i := i + 1;
    }
    assert ws[..i] == ws;
  }

  /** `build_index` up to the embedding: the kept windows go to `chunks`, a
      row for each goes to `metas`, and the two lists stay aligned. */
  method BuildIndex(docs: seq<Doc>) returns (r: Result<(seq<string>, seq<Meta>), IndexError>)
    ensures docs == [] <==> r == Err(NoDocuments)
    ensures r == Err(NoChunks) <==> docs != [] && IndexRows(docs) == []
    ensures r.Ok? ==> r.value.1 == IndexRows(docs) && r.value.1 != []
    ensures r.Ok? ==> r.value.0 == Texts(r.value.1)
  {
    if |docs| == 0 {
      return Err(NoDocuments);
    }
    var chunks: seq<string> := [];
    var metas: seq<Meta> := [];
    var d := 0;
    while d < |docs|
      invariant 0 <= d <= |docs|
      invariant metas == IndexRows(docs[..d])
      invariant chunks == Texts(metas)
    {
      var c, m := AddDoc(docs[d], SimpleChunks(docs[d].text, SimpleChunkSize, SimpleOverlap));
      assert m == DocRows(docs[d]);
      TextsAppend(metas, m);
      assert docs[..d + 1][..d] == docs[..d];
      assert IndexRows(docs[..d + 1]) == IndexRows(docs[..d]) + DocRows(docs[d]);
      chunks := chunks + c;
      metas := metas + m;
      d := d + 1;
    }
    assert docs[..d] == docs;
    if |chunks| == 0 {
      return Err(NoChunks);
    }
    return Ok((chunks, metas));
  }

  /** Rows built from kept windows carry distinct ids. */
  lemma RowsOfIdsDistinct(d: Doc, kept: seq<(nat, string)>)
    requires Increasing(kept)
    ensures forall a, b :: 0 <= a < b < |kept| ==> RowsOf(d, kept)[a].id != RowsOf(d, kept)[b].id
  {
    var rows := RowsOf(d, kept);
    forall a, b | 0 <= a < b < |kept| ensures rows[a].id != rows[b].id {
      assert rows[a].id == MakeId(d.source, kept[a].0) && rows[b].id == MakeId(d.source, kept[b].0);
      MakeIdInjective(d.source, kept[a].0, d.source, kept[b].0);
    }
  }

  /** Each row of a document is named after the document's source and the
      window's position in `simple_chunks` output, positions strictly
      increase (with gaps where blank windows were dropped), the text is a
      stripped non-empty window, source, title and date are copied, and no
      two rows share an id. */
  lemma DocRowsSpec(d: Doc)
    ensures var ws := SimpleChunks(d.text, SimpleChunkSize, SimpleOverlap);
            var kept := KeptWindows(ws);
            var rows := DocRows(d);
            && |rows| == |kept| && KeptFrom(kept, ws) && Increasing(kept)
            && (forall j :: 0 <= j < |rows| ==>
                  && rows[j].id == MakeId(d.source, kept[j].0) && rows[j].text == kept[j].1
                  && rows[j].source == d.source && rows[j].docTitle == d.title && rows[j].date == d.versionDate)
            && (forall a, b :: 0 <= a < b < |rows| ==> rows[a].id != rows[b].id)
  {
    var ws := SimpleChunks(d.text, SimpleChunkSize, SimpleOverlap);
    KeptWindowsSpec(ws);
    RowsOfIdsDistinct(d, KeptWindows(ws));
  }

  /** A kept chunk is already stripped: stripping it again changes nothing. */
  lemma KeptChunkStripped(d: Doc, j: nat)
    requires j < |DocRows(d)|
    ensures Strip(DocRows(d)[j].text) == DocRows(d)[j].text
  {
    DocRowsSpec(d);
    var t := DocRows(d)[j].text;
    assert t != [] && !IsSpace(t[0]) && !IsSpace(t[|t| - 1]);
    assert IsStripAt(t, t, 0);
    StripUnique(t, t, 0);
  }

  // ---------------------------------------------------------------------------
  // _embed_texts

  const BatchSize := 128

  /** `[texts[i:i+b] for i in range(0, len(texts), b)]`. */
  function Batches<T>(xs: seq<T>, b: nat): (r: seq<seq<T>>)
    requires b > 0
    ensures forall j :: 0 <= j < |r| ==> 0 < |r[j]| <= b
    ensures forall j :: 0 <= j < |r| - 1 ==> |r[j]| == b
    decreases |xs|
  {
    if xs == [] then []
    else if |xs| <= b then [xs]
    else [xs[..b]] + Batches(xs[b..], b)
  }

  function Flatten<T>(xss: seq<seq<T>>): seq<T> {
    if xss == [] then [] else xss[0] + Flatten(xss[1..])
  }

  /** The batches, put back together, are the input. */
  lemma {:induction false} BatchesFlatten<T>(xs: seq<T>, b: nat)
    requires b > 0
    ensures Flatten(Batches(xs, b)) == xs
    decreases |xs|
  {
    if xs != [] && |xs| > b {
      BatchesFlatten(xs[b..], b);
      assert xs == xs[..b] + xs[b..];
    }
  }

  /** `_embed_texts`: each batch goes to the embedder and the answers are
      joined in batch order. */
  function EmbedTexts<V>(texts: seq<string>, embed: seq<string> -> seq<V>): seq<V> {
    EmbedAll(Batches(texts, BatchSize), embed)
  }

  function EmbedAll<V>(batches: seq<seq<string>>, embed: seq<string> -> seq<V>): seq<V> {
    if batches == [] then [] else embed(batches[0]) + EmbedAll(batches[1..], embed)
  }

  function Map<A, B>(f: A -> B, xs: seq<A>): (r: seq<B>)
    ensures |r| == |xs| && forall i :: 0 <= i < |xs| ==> r[i] == f(xs[i])
  {
    seq(|xs|, i requires 0 <= i < |xs| => f(xs[i]))
  }

  lemma {:induction false} EmbedAllPointwise<V>(batches: seq<seq<string>>, f: string -> V, embed: seq<string> -> seq<V>)
    requires forall batch :: embed(batch) == Map(f, batch)
    ensures EmbedAll(batches, embed) == Map(f, Flatten(batches))
    decreases |batches|
  {
    if batches != [] {
      EmbedAllPointwise(batches[1..], f, embed);
      var all := Flatten(batches);
      assert all == batches[0] + Flatten(batches[1..]);
      assert Map(f, all) == Map(f, batches[0]) + Map(f, Flatten(batches[1..]));
    }
  }

  /** With an embedder that answers one vector per input, the output has one
      vector per text, in the order of the texts, however they were batched. */
  lemma EmbedTextsPreservesOrder<V>(texts: seq<string>, f: string -> V, embed: seq<string> -> seq<V>)
    requires forall batch :: embed(batch) == Map(f, batch)
    ensures |EmbedTexts(texts, embed)| == |texts|
    ensures forall i :: 0 <= i < |texts| ==> EmbedTexts(texts, embed)[i] == f(texts[i])
  {
    EmbedAllPointwise(Batches(texts, BatchSize), f, embed);
    BatchesFlatten(texts, BatchSize);
  }

  /** `build_index` up to the vectors: raises before any embedding when
      there is nothing to index, else embeds the chunks. */
  method Ingest<V>(docs: seq<Doc>, embed: seq<string> -> seq<V>) returns (r: Result<(seq<Meta>, seq<V>), IndexError>)
    ensures r.Err? <==> docs == [] || IndexRows(docs) == []
    ensures r.Ok? ==> r.value.0 == IndexRows(docs)
    ensures r.Ok? ==> r.value.1 == EmbedTexts(Texts(r.value.0), embed)
  {
    var built := BuildIndex(docs);
    if built.Err? {
      if built.error == NoDocuments {
        assert docs == [];
      } else {
        assert IndexRows(docs) == [];
      }
      return Err(built.error);
    }
    assert docs != [] && IndexRows(docs) != [];
    var metas := built.value.1;
    var vecs := EmbedTexts(built.value.0, embed);
    return Ok((metas, vecs));
  }
}
