/** `_load_corpus`: every knowledge-base file becomes a run of `CorpusRow`
    records numbered `0, 1, 2, ...` within the file and named `source#i`.
    File contents and the JSON decoder are inputs. */
module Corpus {
  import opened Wrappers
  import opened Text
  import opened Paths
  import opened Records
  import opened Chunking
  import opened Markdown

  /** A file `_iter_kb_files` yielded, with what `_read_text_file` returned
      for it (the empty string when reading failed). */
  datatype SourceFile = SourceFile(path: Path, content: string)

  /** What `json.loads` makes of a line. */
  datatype Parsed = Unparsable | Parsed(value: Value)

  /** The exceptions `_load_corpus` lets escape, each naming the file. */
  datatype LoadError =
    | NotAnObject(file: Path)          // `.get` on a JSON value that is not an object
    | TextNotAString(file: Path)       // `.strip()` on a `text` that is not a string
    | MetadataNotAnObject(file: Path)  // `.get` on a `metadata` that is not an object
    | SourceNotAString(file: Path)     // `Path(...)` or `.replace` on a non-string source
    | TitleNotAString(file: Path)      // `_infer_doc_type` on a non-string title

  datatype Kind = MdFile | JsonlFile | OtherFile

  /** The branch taken on `p.suffix.lower()`. */
  function KindOf(p: Path): Kind {
    var s := Lower(Suffix(Name(p)));
    if s == ".md" then MdFile else if s == ".jsonl" then JsonlFile else OtherFile
  }

  /** The record's id names its source and its index. */
  predicate IdNamesRow(m: Meta)
    requires m.CorpusRow?
  {
    m.id == MakeId(m.source, m.chunkIdx)
  }

  // ---------------------------------------------------------------------------
  // Markdown files

  /** The rows of a `.md` file: one per chunk of the cleaned text, numbered
      from 0, with the file's title and document type. */
  function MdRows(p: Path, raw: string): (r: seq<Meta>)
    ensures Texts(r) == Chunk(StripMarkdownNoise(raw), ChunkSize, ChunkOverlap)
    ensures forall j :: 0 <= j < |r| ==>
              && r[j].CorpusRow? && r[j].chunkIdx == j && r[j].source == SourcePath(p) && IdNamesRow(r[j])
              && r[j].versionDate == Null && r[j].page == Null
              && r[j].title == Str(TitleFromMarkdown(raw, ReplaceChar(Stem(Name(p)), '-', ' ')))
              && r[j].docType == Str(InferDocType(Name(p), StripMarkdownNoise(raw)).Label())
  {
    var clean := StripMarkdownNoise(raw);
    ChunkRows(Chunk(clean, ChunkSize, ChunkOverlap), SourcePath(p),
              Str(TitleFromMarkdown(raw, ReplaceChar(Stem(Name(p)), '-', ' '))),
              Str(InferDocType(Name(p), clean).Label()))
  }

  /** One row per chunk, numbered from zero. */
  function ChunkRows(chunks: seq<string>, src: string, title: Value, docType: Value): (r: seq<Meta>)
    ensures |r| == |chunks| && Texts(r) == chunks
    ensures forall j :: 0 <= j < |r| ==>
              r[j] == CorpusRow(chunks[j], src, title, docType, Null, Null, j, MakeId(src, j))
  {
    var r := seq(|chunks|, j requires 0 <= j < |chunks| =>
      CorpusRow(chunks[j], src, title, docType, Null, Null, j, MakeId(src, j)));
    assert Texts(r) == chunks;
    r
  }

  /** Gluing the rows of a `.md` file back together, dropping each overlap,
      gives the cleaned file text: nothing is lost or reordered. */
  lemma MdRowsReconstruct(p: Path, raw: string)
    ensures Rejoin(Texts(MdRows(p, raw)), ChunkOverlap) == StripMarkdownNoise(raw)
  {
    var clean := StripMarkdownNoise(raw);
    StripIdempotent(clean);
    ChunkReconstructs(clean, ChunkSize, ChunkOverlap);
  }

  lemma StripIdempotent(s: string)
    requires s == [] || (!IsSpace(s[0]) && !IsSpace(s[|s| - 1]))
    ensures Strip(s) == s
  {
    assert IsStripAt(s, s, 0);
    StripUnique(s, s, 0);
  }

  /** Within a `.md` file no two rows share an id, and every id reads back as
      the row's source and index. */
  lemma MdRowIds(p: Path, raw: string)
    ensures forall j :: 0 <= j < |MdRows(p, raw)| ==>
              SplitId(MdRows(p, raw)[j].id) == Some((SourcePath(p), j))
    ensures forall i, j :: 0 <= i < j < |MdRows(p, raw)| ==> MdRows(p, raw)[i].id != MdRows(p, raw)[j].id
  {
    var r := MdRows(p, raw);
    forall j | 0 <= j < |r| ensures SplitId(r[j].id) == Some((SourcePath(p), j)) {
      SplitMakeId(SourcePath(p), j);
    }
    forall i, j | 0 <= i < j < |r| ensures r[i].id != r[j].id {
      MakeIdInjective(SourcePath(p), i, SourcePath(p), j);
    }
  }

  // ---------------------------------------------------------------------------
  // JSON-lines files

  /** A record from one JSON line, before it gets its index. */
  datatype Pending = Pending(text: string, source: string, title: Value, docType: Value,
                             versionDate: Value, page: Value)

  /** `meta.get("title") or _title_from_markdown(txt, Path(meta.get("source", p.stem)).stem)`. */
  function JsonlTitle(p: Path, txt: string, meta: map<string, Value>): (r: Result<Value, LoadError>)
    ensures Truthy(Get(meta, "title", Null)) ==> r == Ok(meta["title"])
    ensures r.Err? <==> !Truthy(Get(meta, "title", Null)) && !Get(meta, "source", Str(Stem(Name(p)))).Str?
    ensures !Truthy(Get(meta, "title", Null)) && Get(meta, "source", Str(Stem(Name(p)))).Str? ==>
              r == Ok(Str(TitleFromMarkdown(txt, Stem(NameOfString(Get(meta, "source", Str(Stem(Name(p)))).s)))))
  {
    var t := Get(meta, "title", Null);
    if Truthy(t) then Ok(t)
    else
      var s := Get(meta, "source", Str(Stem(Name(p))));
      if !s.Str? then Err(SourceNotAString(p))
      else Ok(Str(TitleFromMarkdown(txt, Stem(NameOfString(s.s)))))
  }

  /** Without a title in the metadata, a source `dir/name.ext` lends the
      heading search the fallback `name`: only the last component counts,
      and only its last suffix is dropped. */
  lemma JsonlTitleFromSourceName(p: Path, txt: string, meta: map<string, Value>, dir: string, name: string)
    requires !Truthy(Get(meta, "title", Null))
    requires "source" in meta && meta["source"] == Str(dir + "/" + name)
    requires name != "" && name != "." && '/' !in name
    ensures JsonlTitle(p, txt, meta) == Ok(Str(TitleFromMarkdown(txt, Stem(name))))
  {
    NameOfJoin(dir, name);
  }

  /** `meta.get("doc_type") or _infer_doc_type(title, txt)`. */
  function JsonlDocType(p: Path, txt: string, title: Value, meta: map<string, Value>): (r: Result<Value, LoadError>)
    ensures Truthy(Get(meta, "doc_type", Null)) ==> r == Ok(meta["doc_type"])
    ensures r.Err? <==> !Truthy(Get(meta, "doc_type", Null)) && !title.Str?
    ensures !Truthy(Get(meta, "doc_type", Null)) && title.Str? ==> r == Ok(Str(InferDocType(title.s, txt).Label()))
  {
    var d := Get(meta, "doc_type", Null);
    if Truthy(d) then Ok(d)
    else if !title.Str? then Err(TitleNotAString(p))
    else Ok(Str(InferDocType(title.s, txt).Label()))
  }

  /** `(meta.get("source") or source_path).replace("\\", "/")`. */
  function JsonlSource(p: Path, meta: map<string, Value>): (r: Result<string, LoadError>)
    ensures r.Ok? ==> forall i :: 0 <= i < |r.value| ==> r.value[i] != '\\'
    ensures !Truthy(Get(meta, "source", Null)) ==> r == Ok(SourcePath(p))
    ensures Truthy(Get(meta, "source", Null)) && Get(meta, "source", Null).Str? ==>
              r == Ok(ReplaceChar(Get(meta, "source", Null).s, '\\', '/'))
    ensures r.Err? <==> Truthy(Get(meta, "source", Null)) && !Get(meta, "source", Null).Str?
  {
    var s := Get(meta, "source", Null);
    var v := if Truthy(s) then s else Str(SourcePath(p));
    if !v.Str? then Err(SourceNotAString(p))
    else
      assert ReplaceChar(SourcePath(p), '\\', '/') == SourcePath(p);
      Ok(ReplaceChar(v.s, '\\', '/'))
  }

  /** The JSON object a line holds, if it is a non-blank line that parses to
      an object. */
  function LineObject(line: string, parse: string -> Parsed): Option<map<string, Value>> {
    var l := Strip(line);
    if l != [] && parse(l).Parsed? && parse(l).value.Obj? then Some(parse(l).value.fields) else None
  }

  /** The object has a string `text` that is not all whitespace. */
  predicate HasText(obj: map<string, Value>) {
    "text" in obj && obj["text"].Str? && !AllSpace(obj["text"].s)
  }

  /** One line of a `.jsonl` file: `Ok(None)` when it is skipped (blank,
      not JSON, or with blank text), `Ok(Some(_))` for a record, `Err` when
      the source raises. */
  function LineRecord(p: Path, line: string, parse: string -> Parsed): (r: Result<Option<Pending>, LoadError>)
  {
    var l := Strip(line);
    if l == [] then Ok(None)
    else match parse(l)
      case Unparsable => Ok(None)
      case Parsed(obj) =>
        if !obj.Obj? then Err(NotAnObject(p))
        else
          var txt := Get(obj.fields, "text", Str(""));
          var meta := Get(obj.fields, "metadata", Obj(map[]));
          if !txt.Str? then Err(TextNotAString(p))
          else if Strip(txt.s) == [] then
            StripEmptyIff(txt.s);
            Ok(None)
          else if !meta.Obj? then Err(MetadataNotAnObject(p))
          else
            var pd :- MakePending(p, txt.s, meta.fields);
            Ok(Some(pd))
  }

  /** The record for a line with non-blank text `txt` and metadata `meta`. */
  function MakePending(p: Path, txt: string, meta: map<string, Value>): (r: Result<Pending, LoadError>)
    ensures r.Ok? ==> r.value.text == StripMarkdownNoise(txt)
                      && r.value.versionDate == Get(meta, "version_date", Null)
                      && r.value.page == Get(meta, "page", Null)
    ensures r.Ok? ==> && JsonlTitle(p, txt, meta) == Ok(r.value.title)
                      && JsonlDocType(p, txt, r.value.title, meta) == Ok(r.value.docType)
                      && JsonlSource(p, meta) == Ok(r.value.source)
    ensures r.Err? <==> || JsonlTitle(p, txt, meta).Err?
                        || (JsonlTitle(p, txt, meta).Ok? && JsonlDocType(p, txt, JsonlTitle(p, txt, meta).value, meta).Err?)
                        || JsonlSource(p, meta).Err?
    ensures JsonlTitle(p, txt, meta).Err? ==> r == Err(JsonlTitle(p, txt, meta).error)
  {
    var title :- JsonlTitle(p, txt, meta);
    var docType :- JsonlDocType(p, txt, title, meta);
    var src :- JsonlSource(p, meta);
    Ok(Pending(StripMarkdownNoise(txt), src, title, docType,
               Get(meta, "version_date", Null), Get(meta, "page", Null)))
  }

  /** What each kind of line turns into. A line that is blank or not JSON is
      skipped; JSON that is not an object raises; so does a `text` that is
      not a string. Missing or blank text skips the line. Otherwise a
      `metadata` that is not an object raises, and an object one gives the
      record `MakePending` builds, or its exception: never a skip. */
  lemma LineRecordSpec(p: Path, line: string, parse: string -> Parsed)
    ensures Strip(line) == [] || parse(Strip(line)).Unparsable? ==> LineRecord(p, line, parse) == Ok(None)
    ensures Strip(line) != [] && parse(Strip(line)).Parsed? && !parse(Strip(line)).value.Obj? ==>
              LineRecord(p, line, parse) == Err(NotAnObject(p))
    ensures LineObject(line, parse).Some? ==>
              var obj := LineObject(line, parse).value;
              && ("text" in obj && !obj["text"].Str? ==> LineRecord(p, line, parse) == Err(TextNotAString(p)))
              && (("text" in obj ==> obj["text"].Str?) && !HasText(obj) ==> LineRecord(p, line, parse) == Ok(None))
              && (HasText(obj) && !Get(obj, "metadata", Obj(map[])).Obj? ==>
                    LineRecord(p, line, parse) == Err(MetadataNotAnObject(p)))
              && (HasText(obj) && Get(obj, "metadata", Obj(map[])).Obj? ==>
                    var mp := MakePending(p, obj["text"].s, Get(obj, "metadata", Obj(map[])).fields);
                    LineRecord(p, line, parse) == if mp.Ok? then Ok(Some(mp.value)) else Err(mp.error))
    ensures LineObject(line, parse).Some? && HasText(LineObject(line, parse).value) ==> LineRecord(p, line, parse) != Ok(None)
  {
    var l := Strip(line);
    if l != [] && parse(l).Parsed? && parse(l).value.Obj? {
      var txt := Get(parse(l).value.fields, "text", Str(""));
      if txt.Str? {
        StripEmptyIff(txt.s);
      }
    }
  }

  /** The record with index `ci`. */
  function Finish(pd: Pending, ci: nat): (m: Meta)
    ensures m.CorpusRow? && m.chunkIdx == ci && m.text == pd.text && m.source == pd.source && IdNamesRow(m)
    ensures m.title == pd.title && m.docType == pd.docType && m.versionDate == pd.versionDate && m.page == pd.page
  {
    CorpusRow(pd.text, pd.source, pd.title, pd.docType, pd.versionDate, pd.page, ci, MakeId(pd.source, ci))
  }

  /** The id of a numbered record reads back as its source and index. */
  lemma FinishId(pd: Pending, ci: nat)
    ensures SplitId(Finish(pd, ci).id) == Some((pd.source, ci))
  {
    SplitMakeId(pd.source, ci);
  }

  /** What happened to one line. */
  type Outcome = Result<Option<Pending>, LoadError>

  /** The outcome of every line, in order. */
  function Outcomes(p: Path, lines: seq<string>, parse: string -> Parsed): (r: seq<Outcome>)
    ensures |r| == |lines|
    ensures forall i :: 0 <= i < |lines| ==> r[i] == LineRecord(p, lines[i], parse)
  {
    seq(|lines|, i requires 0 <= i < |lines| => LineRecord(p, lines[i], parse))
  }

  /** No line raised. */
  predicate AllOk(outs: seq<Outcome>) {
    forall i :: 0 <= i < |outs| ==> outs[i].Ok?
  }

  /** The records of the kept lines, in line order. */
  function Kept(outs: seq<Outcome>): (r: seq<Pending>)
    ensures |r| <= |outs|
  {
    if outs == [] then []
    else (if outs[0].Ok? && outs[0].value.Some? then [outs[0].value.value] else []) + Kept(outs[1..])
  }

  /** The loop over the lines of a `.jsonl` file: kept records get the
      counter, which starts at `ci` and advances only for them; the first
      exception ends the load. */
  function Number(outs: seq<Outcome>, ci: nat): (r: Result<seq<Meta>, LoadError>)
    ensures r.Ok? <==> AllOk(outs)
    ensures r.Err? ==> exists i :: 0 <= i < |outs| && outs[i] == Err(r.error)
  {
    if outs == [] then Ok([])
    else
      assert AllOk(outs) <==> outs[0].Ok? && AllOk(outs[1..]) by {
        if outs[0].Ok? && AllOk(outs[1..]) {
          forall i | 0 <= i < |outs| ensures outs[i].Ok? {
            if i > 0 { assert outs[i] == outs[1..][i - 1]; }
          }
        }
      }
      match outs[0]
      case Err(e) => Err(e)
      case Ok(None) =>
        var r := Number(outs[1..], ci);
        assert r.Err? ==> exists i :: 0 <= i < |outs| && outs[i] == Err(r.error) by {
          if r.Err? {
            var i :| 0 <= i < |outs[1..]| && outs[1..][i] == Err(r.error);
            assert outs[i + 1] == Err(r.error);
          }
        }
        r
      case Ok(Some(pd)) =>
        var rest := Number(outs[1..], ci + 1);
        if rest.Err? then
          var i :| 0 <= i < |outs[1..]| && outs[1..][i] == Err(rest.error);
          assert outs[i + 1] == Err(rest.error);
          Err(rest.error)
        else Ok([Finish(pd, ci)] + rest.value)
  }

  /** Rows are the kept lines' records numbered consecutively from `ci`:
      the j-th kept record gets index `ci + j`, whatever was skipped before it. */
  lemma {:induction false} NumberSpec(outs: seq<Outcome>, ci: nat)
    requires AllOk(outs)
    ensures |Number(outs, ci).value| == |Kept(outs)|
    ensures forall j :: 0 <= j < |Kept(outs)| ==> Number(outs, ci).value[j] == Finish(Kept(outs)[j], ci + j)
    decreases |outs|
  {
    if outs != [] {
      assert AllOk(outs[1..]) by {
        forall i | 0 <= i < |outs[1..]| ensures outs[1..][i].Ok? {
          assert outs[1..][i] == outs[i + 1];
        }
      }
      var kept := Kept(outs);
      var rest := Kept(outs[1..]);
      if outs[0].value.None? {
        NumberSpec(outs[1..], ci);
        assert kept == rest;
      } else {
        NumberSpec(outs[1..], ci + 1);
        var pd := outs[0].value.value;
        var rows := Number(outs[1..], ci + 1).value;
        assert kept == [pd] + rest;
        assert Number(outs, ci).value == [Finish(pd, ci)] + rows;
        FinishShift(Number(outs, ci).value, rows, kept, rest, pd, ci);
      }
    }
  }

  /** Putting a record numbered `ci` in front of records numbered from
      `ci + 1` gives records numbered from `ci`. */
  lemma FinishShift(all: seq<Meta>, rows: seq<Meta>, kept: seq<Pending>, rest: seq<Pending>, pd: Pending, ci: nat)
    requires all == [Finish(pd, ci)] + rows && kept == [pd] + rest && |rows| == |rest|
    requires forall k :: 0 <= k < |rest| ==> rows[k] == Finish(rest[k], ci + 1 + k)
    ensures |all| == |kept|
    ensures forall j :: 0 <= j < |kept| ==> all[j] == Finish(kept[j], ci + j)
  {
    forall j | 0 <= j < |kept| ensures all[j] == Finish(kept[j], ci + j) {
      if j > 0 {
        assert kept[j] == rest[j - 1] && all[j] == rows[j - 1];
      }
    }
  }

  /** A line that is skipped does not use up an index: the rows of the
      remaining lines are numbered as if it were not there. */
  lemma {:induction false} SkippedLineKeepsIndex(before: seq<Outcome>, after: seq<Outcome>, ci: nat)
    ensures Number(before + [Ok(None)] + after, ci) == Number(before + after, ci)
    decreases |before|
  {
    var a := before + [Ok(None)] + after;
    var b := before + after;
    if before == [] {
      assert a[0] == Ok(None) && a[1..] == after && b == after;
    } else {
      assert a[0] == before[0] && b[0] == before[0];
      assert a[1..] == before[1..] + [Ok(None)] + after;
      assert b[1..] == before[1..] + after;
      SkippedLineKeepsIndex(before[1..], after, ci);
      SkippedLineKeepsIndex(before[1..], after, ci + 1);
    }
  }

  /** The rows of a `.jsonl` file, numbered from 0. */
  function JsonlRows(p: Path, content: string, parse: string -> Parsed): (r: Result<seq<Meta>, LoadError>)
    ensures r.Ok? ==> forall j :: 0 <= j < |r.value| ==> r.value[j].CorpusRow? && r.value[j].chunkIdx == j && IdNamesRow(r.value[j])
  {
    var outs := Outcomes(p, Lines(content), parse);
    var r := Number(outs, 0);
    if r.Ok? then NumberSpec(outs, 0); r else r
  }


  // ---------------------------------------------------------------------------
  // The whole corpus

  /** Every row is numbered by its position within its file and named after it. */
  predicate NumberedFromZero(rows: seq<Meta>) {
    forall j :: 0 <= j < |rows| ==> rows[j].CorpusRow? && rows[j].chunkIdx == j && IdNamesRow(rows[j])
  }

  /** The rows of one file, by its suffix; files with another suffix give none. */
  function FileRows(f: SourceFile, parse: string -> Parsed): (r: Result<seq<Meta>, LoadError>)
    ensures KindOf(f.path) == MdFile ==> r == Ok(MdRows(f.path, f.content))
    ensures KindOf(f.path) == JsonlFile ==> r == JsonlRows(f.path, f.content, parse)
    ensures KindOf(f.path) == OtherFile ==> r == Ok([])
    ensures r.Ok? ==> NumberedFromZero(r.value)
  {
    match KindOf(f.path)
    case MdFile => Ok(MdRows(f.path, f.content))
    case JsonlFile => JsonlRows(f.path, f.content, parse)
    case OtherFile => Ok([])
  }

  /** Every row is a corpus row whose id names its source and index. */
  predicate AllNamed(rows: seq<Meta>) {
    forall j :: 0 <= j < |rows| ==> rows[j].CorpusRow? && IdNamesRow(rows[j])
  }

  /** The per-file rows joined in file order; the first exception ends the load. */
  function Concat(results: seq<Result<seq<Meta>, LoadError>>): (r: Result<seq<Meta>, LoadError>)
    requires forall i :: 0 <= i < |results| && results[i].Ok? ==> AllNamed(results[i].value)
    ensures r.Ok? <==> forall i :: 0 <= i < |results| ==> results[i].Ok?
    ensures r.Ok? ==> AllNamed(r.value)
  {
    if results == [] then Ok([])
    else
      assert (forall i :: 0 <= i < |results| ==> results[i].Ok?) <==>
             results[0].Ok? && forall i :: 0 <= i < |results[1..]| ==> results[1..][i].Ok? by {
        if results[0].Ok? && forall i :: 0 <= i < |results[1..]| ==> results[1..][i].Ok? {
          forall i | 0 <= i < |results| ensures results[i].Ok? {
            if i > 0 { assert results[i] == results[1..][i - 1]; }
          }
        }
      }
      var first :- results[0];
      var rest :- Concat(results[1..]);
      assert AllNamed(first + rest) by {
        assert first == results[0].value && AllNamed(results[0].value);
        forall j | 0 <= j < |first + rest| ensures (first + rest)[j].CorpusRow? && IdNamesRow((first + rest)[j]) {
          if j >= |first| { assert (first + rest)[j] == rest[j - |first|]; }
          else { assert (first + rest)[j] == first[j]; }
        }
      }
      Ok(first + rest)
  }

  /** Joining two runs of results one after the other is joining each and
      concatenating; the first exception wins. */
  lemma {:induction false} ConcatAppend(a: seq<Result<seq<Meta>, LoadError>>, b: seq<Result<seq<Meta>, LoadError>>)
    requires forall i :: 0 <= i < |a| && a[i].Ok? ==> AllNamed(a[i].value)
    requires forall i :: 0 <= i < |b| && b[i].Ok? ==> AllNamed(b[i].value)
    ensures Concat(a + b) ==
            (var ra := Concat(a);
             if ra.Err? then ra
             else var rb := Concat(b);
                  if rb.Err? then rb else Ok(ra.value + rb.value))
    decreases |a|
  {
    if a == [] {
      assert a + b == b;
      if Concat(b).Ok? {
        assert [] + Concat(b).value == Concat(b).value;
      }
    } else {
      assert (a + b)[0] == a[0] && (a + b)[1..] == a[1..] + b;
      ConcatAppend(a[1..], b);
      if a[0].Ok? && Concat(a[1..]).Ok? && Concat(b).Ok? {
        assert a[0].value + (Concat(a[1..]).value + Concat(b).value)
            == (a[0].value + Concat(a[1..]).value) + Concat(b).value;
      }
    }
  }

  function FileResults(files: seq<SourceFile>, parse: string -> Parsed): (r: seq<Result<seq<Meta>, LoadError>>)
    ensures |r| == |files|
    ensures forall i :: 0 <= i < |files| ==> r[i] == FileRows(files[i], parse)
    ensures forall i :: 0 <= i < |r| && r[i].Ok? ==> AllNamed(r[i].value)
  {
    seq(|files|, i requires 0 <= i < |files| => FileRows(files[i], parse))
  }

  lemma FileResultsAppend(a: seq<SourceFile>, b: seq<SourceFile>, parse: string -> Parsed)
    ensures FileResults(a + b, parse) == FileResults(a, parse) + FileResults(b, parse)
  {
    var l := FileResults(a + b, parse);
    var r := FileResults(a, parse) + FileResults(b, parse);
    forall i | 0 <= i < |l| ensures l[i] == r[i] {
      if i < |a| {
        assert (a + b)[i] == a[i];
      } else {
        assert (a + b)[i] == b[i - |a|];
      }
    }
  }

  /** `_load_corpus` over the files in the order given. */
  function LoadCorpus(files: seq<SourceFile>, parse: string -> Parsed): (r: Result<seq<Meta>, LoadError>)
    ensures r.Ok? <==> forall i :: 0 <= i < |files| ==> FileRows(files[i], parse).Ok?
    ensures r.Ok? ==> AllNamed(r.value)
  {
    Concat(FileResults(files, parse))
  }

  /** Loading two runs of files one after the other is loading each and
      concatenating the rows; the first exception wins. */
  lemma LoadCorpusAppend(a: seq<SourceFile>, b: seq<SourceFile>, parse: string -> Parsed)
    ensures LoadCorpus(a + b, parse) ==
            (var ra := LoadCorpus(a, parse);
             if ra.Err? then ra
             else var rb := LoadCorpus(b, parse);
                  if rb.Err? then rb else Ok(ra.value + rb.value))
  {
    FileResultsAppend(a, b, parse);
    ConcatAppend(FileResults(a, parse), FileResults(b, parse));
  }

  /** The files `_iter_kb_files` yields, each with its content. */
  function KbFiles(dirs: seq<KbDir>, read: Path -> string): (r: seq<SourceFile>)
    ensures |r| == |IterKbFiles(dirs)|
    ensures forall i :: 0 <= i < |r| ==> r[i] == SourceFile(IterKbFiles(dirs)[i], read(IterKbFiles(dirs)[i]))
  {
    var fs := IterKbFiles(dirs);
    seq(|fs|, i requires 0 <= i < |fs| => SourceFile(fs[i], read(fs[i])))
  }

  /** `_load_corpus()`: the knowledge-base files in ascending path order,
      each found file once. */
  function LoadKbCorpus(dirs: seq<KbDir>, read: Path -> string, parse: string -> Parsed): (r: Result<seq<Meta>, LoadError>)
    ensures r.Ok? ==> AllNamed(r.value)
  {
    LoadCorpus(KbFiles(dirs, read), parse)
  }

  /** The files are read in strictly ascending path order, and they are
      exactly the regular files the walk matched. */
  lemma KbFilesOrder(dirs: seq<KbDir>, read: Path -> string)
    ensures forall i, j :: 0 <= i < j < |KbFiles(dirs, read)| ==> PathLess(KbFiles(dirs, read)[i].path, KbFiles(dirs, read)[j].path)
    ensures forall p :: (exists i :: 0 <= i < |KbFiles(dirs, read)| && KbFiles(dirs, read)[i].path == p) <==> Found(dirs, p)
  {
    var fs := IterKbFiles(dirs);
    var r := KbFiles(dirs, read);
    IterKbFilesSpec(dirs, fs);
    forall p ensures (exists i :: 0 <= i < |r| && r[i].path == p) <==> Found(dirs, p) {
      if p in fs {
        var i :| 0 <= i < |fs| && fs[i] == p;
        assert r[i].path == p;
      }
    }
  }
}
