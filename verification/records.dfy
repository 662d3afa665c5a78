/** The metadata records the loaders build and the `source#i` ids that name
    them. */
module Records {
  import opened Wrappers
  import opened Text

  /** A decoded JSON value. Numbers are kept as reals; nothing here does
      arithmetic on them. */
  datatype Value =
    | Null
    | Bool(b: bool)
    | Num(x: real)
    | Str(s: string)
    | Arr(items: seq<Value>)
    | Obj(fields: map<string, Value>)

  /** Python truthiness, which decides the `or` fallbacks. */
  predicate Truthy(v: Value) {
    match v
    case Null => false
    case Bool(b) => b
    case Num(x) => x != 0.0
    case Str(s) => s != []
    case Arr(items) => items != []
    case Obj(fields) => fields != map[]
  }

  /** `d.get(key, default)`. */
  function Get(fields: map<string, Value>, key: string, default: Value): (r: Value)
    ensures key in fields ==> r == fields[key]
    ensures key !in fields ==> r == default
  {
    if key in fields then fields[key] else default
  }

  /** A metadata row. `CorpusRow` is what `_load_corpus` builds for the
      TF-IDF index; `IngestRow` is what `build_index` writes next to the
      vectors. */
  datatype Meta =
    | CorpusRow(text: string, source: string, title: Value, docType: Value,
                versionDate: Value, page: Value, chunkIdx: nat, id: string)
    | IngestRow(id: string, text: string, source: string, docTitle: string, date: string)

  /** The texts of the rows, in order. */
  function Texts(rows: seq<Meta>): (r: seq<string>)
    ensures |r| == |rows|
    ensures forall j :: 0 <= j < |rows| ==> r[j] == rows[j].text
  {
    seq(|rows|, j requires 0 <= j < |rows| => rows[j].text)
  }

  lemma TextsAppend(a: seq<Meta>, b: seq<Meta>)
    ensures Texts(a + b) == Texts(a) + Texts(b)
  {
  }

  /** `f"{source}#{i}"`. */
  function MakeId(source: string, i: nat): (r: string)
    ensures |r| > |source| && r[..|source|] == source && r[|source|] == '#'
  {
    source + "#" + NatToString(i)
  }

  /** Reads an id back: the source is everything before the last `#`, the
      index the digits after it. */
  function SplitId(id: string): (r: Option<(string, nat)>)
  {
    match LastIndexOf(id, '#')
    case None => None
    case Some(i) =>
      var digits := id[i + 1..];
      if digits != [] && forall j :: 0 <= j < |digits| ==> IsDigit(digits[j])
      then Some((id[..i], ParseNat(digits)))
      else None
  }

  /** The source and the index can be read back from an id, even when the
      source itself contains `#`. */
  lemma SplitMakeId(source: string, i: nat)
    ensures SplitId(MakeId(source, i)) == Some((source, i))
  {
    var id := MakeId(source, i);
    var digits := NatToString(i);
    assert id[|source| + 1..] == digits;
    forall j | |source| < j < |id| ensures id[j] != '#' {
      assert id[j] == digits[j - |source| - 1];
    }
    assert LastIndexOf(id, '#') == Some(|source|);
    assert id[..|source|] == source;
    ParseNatToString(i);
  }

  /** Distinct (source, index) pairs give distinct ids. */
  lemma MakeIdInjective(s1: string, i1: nat, s2: string, i2: nat)
    ensures MakeId(s1, i1) == MakeId(s2, i2) ==> s1 == s2 && i1 == i2
  {
    SplitMakeId(s1, i1);
    SplitMakeId(s2, i2);
  }
}
