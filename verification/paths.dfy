/** File paths as `pathlib` sees them: the name, stem and suffix rules, the
    ordering `sorted()` uses, and the sorted, duplicate-free file list
    `_iter_kb_files` yields. */
module Paths {
  import opened Wrappers
  import opened Text

  /** A path by its components: the string form split at `/`. A resolved path
      starts with the empty component of the root, as `"/kb/a.md"` gives
      `["", "kb", "a.md"]`. */
  datatype Path = Path(parts: seq<string>)

  /** The components joined with `/`. */
  function Join(parts: seq<string>): string {
    if parts == [] then "" else if |parts| == 1 then parts[0] else parts[0] + "/" + Join(parts[1..])
  }

  /** `str(p)`. */
  function PathString(p: Path): string {
    Join(p.parts)
  }

  /** `str(p).replace("\\", "/")`, the `source` recorded for a file. */
  function SourcePath(p: Path): string {
    ReplaceChar(PathString(p), '\\', '/')
  }

  // ---------------------------------------------------------------------------
  // name, stem, suffix

  /** The position of the dot that starts a suffix: the last dot, unless it is
      the first or the last character of the name. */
  function SuffixDot(name: string): (r: Option<nat>)
    ensures r.Some? ==> 0 < r.value < |name| - 1 && name[r.value] == '.'
  {
    match LastIndexOf(name, '.')
    case Some(i) => if 0 < i < |name| - 1 then Some(i) else None
    case None => None
  }

  function Stem(name: string): (r: string)
    ensures |r| <= |name|
  {
    match SuffixDot(name)
    case Some(i) => name[..i]
    case None => name
  }

  function Suffix(name: string): string {
    match SuffixDot(name)
    case Some(i) => name[i..]
    case None => ""
  }

  /** A name is its stem followed by its suffix; a suffix is empty or a dot
      followed by at least one character with no further dot. */
  lemma StemSuffix(name: string)
    ensures Stem(name) + Suffix(name) == name
    ensures Suffix(name) == [] || (|Suffix(name)| >= 2 && Suffix(name)[0] == '.'
                                   && forall j :: 0 < j < |Suffix(name)| ==> Suffix(name)[j] != '.')
    ensures Suffix(name) != [] ==> Stem(name) != []
  {
    match SuffixDot(name)
    case Some(i) =>
      assert name[..i] + name[i..] == name;
      var suf := name[i..];
      forall j | 0 < j < |suf| ensures suf[j] != '.' {
        assert suf[j] == name[i + j];
      }
    case None =>
  }

  /** A name that starts with its only dot, such as `.md`, has no suffix. */
  lemma HiddenNameHasNoSuffix(name: string)
    requires name != [] && name[0] == '.'
    requires forall j :: 0 < j < |name| ==> name[j] != '.'
    ensures Suffix(name) == [] && Stem(name) == name
  {
  }

  function Name(p: Path): string {
    if p.parts == [] then "" else p.parts[|p.parts| - 1]
  }

  /** The components `Path(s)` keeps: empty and `.` components are dropped. */
  function Keep(parts: seq<string>): (r: seq<string>)
    ensures forall k :: 0 <= k < |r| ==> r[k] in parts && r[k] != "" && r[k] != "."
  {
    if parts == [] then []
    else if parts[0] == "" || parts[0] == "." then Keep(parts[1..])
    else [parts[0]] + Keep(parts[1..])
  }

  /** `Path(s).name`: the last kept component, or `""` when there is none
      (`""`, `"."` and `"/"` have the empty name). A string that is a single
      component is its own name, and `NameOfJoin` shows the name is the part
      after the last `/`. */
  function NameOfString(s: string): (r: string)
    ensures r == "" || (r != "." && '/' !in r)
    ensures s != "" && s != "." && '/' !in s ==> r == s
  {
    var ls := SplitLines(s, Slash);
    var cs := Keep(ls);
    assert s != "" && s != "." && '/' !in s ==> cs == [s] by {
      if s != "" && s != "." && '/' !in s {
        assert NoBreak(s, Slash);
        LinesFromOneLine([], s, Slash);
        assert [] + s == s;
      }
    }
    if cs == [] then "" else
      var r := cs[|cs| - 1];
      assert '/' !in r by {
        SplitLinesNoBreak(s, Slash);
        var k :| 0 <= k < |ls| && ls[k] == r;
        assert NoBreak(ls[k], Slash);
      }
      r
  }

  lemma {:induction false} KeepAppend(x: seq<string>, y: seq<string>)
    ensures Keep(x + y) == Keep(x) + Keep(y)
  {
    if x == [] {
      assert x + y == y;
    } else {
      assert (x + y)[0] == x[0] && (x + y)[1..] == x[1..] + y;
      KeepAppend(x[1..], y);
      AppendAssoc([x[0]], Keep(x[1..]), Keep(y));
    }
  }

  /** The name of `dir/name` is `name`, whatever the directory part holds. */
  lemma NameOfJoin(dir: string, name: string)
    requires name != "" && name != "." && '/' !in name
    ensures NameOfString(dir + "/" + name) == name
  {
    var t := dir + "/";
    assert t[|t| - 1] == '/';
    SplitLinesAppend(t, name, Slash);
    assert NoBreak(name, Slash);
    LinesFromOneLine([], name, Slash);
    assert [] + name == name;
    KeepAppend(SplitLines(t, Slash), [name]);
    assert Keep([name]) == [name];
  }

  // ---------------------------------------------------------------------------
  // Ordering: strings by code point, paths by their component lists

  predicate StrLess(a: string, b: string) {
    if a == [] then b != []
    else b != [] && (a[0] < b[0] || (a[0] == b[0] && StrLess(a[1..], b[1..])))
  }

  lemma {:induction false} StrLessIrreflexive(a: string)
    ensures !StrLess(a, a)
  {
    if a != [] {
      StrLessIrreflexive(a[1..]);
    }
  }

  lemma {:induction false} StrLessTransitive(a: string, b: string, c: string)
    requires StrLess(a, b) && StrLess(b, c)
    ensures StrLess(a, c)
  {
    if a != [] && a[0] == b[0] && b[0] == c[0] {
      StrLessTransitive(a[1..], b[1..], c[1..]);
    }
  }

  lemma {:induction false} StrLessTotal(a: string, b: string)
    ensures a == b || StrLess(a, b) || StrLess(b, a)
  {
    if a != [] && b != [] && a[0] == b[0] {
      StrLessTotal(a[1..], b[1..]);
      if a[1..] == b[1..] {
        assert a == [a[0]] + a[1..] && b == [b[0]] + b[1..];
      }
    }
  }

  predicate PartsLess(a: seq<string>, b: seq<string>) {
    if a == [] then b != []
    else b != [] && (StrLess(a[0], b[0]) || (a[0] == b[0] && PartsLess(a[1..], b[1..])))
  }

  predicate PathLess(p: Path, q: Path) {
    PartsLess(p.parts, q.parts)
  }

  lemma {:induction false} PartsLessIrreflexive(a: seq<string>)
    ensures !PartsLess(a, a)
  {
    if a != [] {
      StrLessIrreflexive(a[0]);
      PartsLessIrreflexive(a[1..]);
    }
  }

  lemma {:induction false} PartsLessTransitive(a: seq<string>, b: seq<string>, c: seq<string>)
    requires PartsLess(a, b) && PartsLess(b, c)
    ensures PartsLess(a, c)
  {
    if a != [] {
      StrLessIrreflexive(a[0]);
      StrLessIrreflexive(b[0]);
      if a[0] == b[0] && b[0] == c[0] {
        PartsLessTransitive(a[1..], b[1..], c[1..]);
      } else if a[0] != b[0] && b[0] != c[0] {
        StrLessTransitive(a[0], b[0], c[0]);
      }
    }
  }

  lemma {:induction false} PartsLessTotal(a: seq<string>, b: seq<string>)
    ensures a == b || PartsLess(a, b) || PartsLess(b, a)
  {
    if a != [] && b != [] {
      StrLessTotal(a[0], b[0]);
      if a[0] == b[0] {
        PartsLessTotal(a[1..], b[1..]);
        if a[1..] == b[1..] {
          assert a == [a[0]] + a[1..] && b == [b[0]] + b[1..];
        }
      }
    }
  }

  /** `PathLess` is a strict total order. */
  lemma PathLessOrder(p: Path, q: Path, o: Path)
    ensures !PathLess(p, p)
    ensures PathLess(p, q) && PathLess(q, o) ==> PathLess(p, o)
    ensures p == q || PathLess(p, q) || PathLess(q, p)
  {
    PartsLessIrreflexive(p.parts);
    if PathLess(p, q) && PathLess(q, o) {
      PartsLessTransitive(p.parts, q.parts, o.parts);
    }
    PartsLessTotal(p.parts, q.parts);
  }

  // ---------------------------------------------------------------------------
  // sorted(set)

  predicate StrictlySorted(s: seq<Path>) {
    forall i, j :: 0 <= i < j < |s| ==> PathLess(s[i], s[j])
  }

  function Elems(s: seq<Path>): set<Path> {
    set x | x in s
  }

  /** Adds `x` in front of the first path above it, unless it meets `x`
      itself first. */
  function Insert(x: Path, s: seq<Path>): (r: seq<Path>)
    ensures Elems(r) == Elems(s) + {x}
  {
    if s == [] || PathLess(x, s[0]) then [x] + s
    else if x == s[0] then s
    else
      var rest := Insert(x, s[1..]);
      assert Elems(s) == {s[0]} + Elems(s[1..]);
      assert Elems([s[0]] + rest) == {s[0]} + Elems(rest);
      [s[0]] + rest
  }

  /** Inserting into a strictly sorted list keeps it strictly sorted, so a
      path already present is not added again. */
  lemma {:induction false} InsertSorted(x: Path, s: seq<Path>)
    requires StrictlySorted(s)
    ensures StrictlySorted(Insert(x, s))
  {
    if s == [] {
    } else if PathLess(x, s[0]) {
      forall j | 0 < j < |s| ensures PathLess(x, s[j]) {
        PathLessOrder(x, s[0], s[j]);
      }
    } else if x != s[0] {
      PathLessOrder(x, s[0], x);
      InsertSorted(x, s[1..]);
      var rest := Insert(x, s[1..]);
      forall j | 0 <= j < |rest| ensures PathLess(s[0], rest[j]) {
        assert rest[j] in Elems(rest);
        if rest[j] != x {
          var k :| 0 <= k < |s[1..]| && s[1..][k] == rest[j];
          assert s[k + 1] == rest[j];
        }
      }
    }
  }

  /** `sorted(set(xs))`: each path once, in ascending order. */
  function SortUnique(xs: seq<Path>): (r: seq<Path>)
    ensures StrictlySorted(r)
    ensures Elems(r) == Elems(xs)
  {
    if xs == [] then []
    else
      var init := xs[..|xs| - 1];
      var last := xs[|xs| - 1];
      assert Elems(xs) == Elems(init) + {last};
      var sorted := SortUnique(init);
      InsertSorted(last, sorted);
      Insert(last, sorted)
  }

  /** A strictly sorted list is determined by its elements: the order in which
      the directory walk found the files does not matter. */
  lemma {:induction false} SortedUnique(a: seq<Path>, b: seq<Path>)
    requires StrictlySorted(a) && StrictlySorted(b)
    requires Elems(a) == Elems(b)
    ensures a == b
  {
    ElemsHead(b);
    if a != [] {
      assert a[0] in Elems(b);
      assert b[0] in Elems(a);
      var i :| 0 <= i < |a| && a[i] == b[0];
      var j :| 0 <= j < |b| && b[j] == a[0];
      if a[0] != b[0] {
        assert PathLess(a[0], a[i]);
        assert PathLess(b[0], b[j]);
        PathLessOrder(a[0], b[0], a[0]);
        assert false;
      }
      forall k | 0 < k < |a| ensures a[k] != a[0] {
        PathLessOrder(a[0], a[k], a[0]);
      }
      forall k | 0 < k < |b| ensures b[k] != b[0] {
        PathLessOrder(b[0], b[k], b[0]);
      }
      assert Elems(a) == {a[0]} + Elems(a[1..]);
      assert Elems(b) == {b[0]} + Elems(b[1..]);
      assert Elems(a[1..]) == Elems(b[1..]);
      SortedUnique(a[1..], b[1..]);
      assert a == [a[0]] + a[1..] && b == [b[0]] + b[1..];
    }
  }

  lemma ElemsHead(s: seq<Path>)
    ensures s != [] ==> s[0] in Elems(s)
  {
  }

  /** A strictly sorted list holds no path twice. */
  lemma SortedDistinct(s: seq<Path>, i: int, j: int)
    requires StrictlySorted(s) && 0 <= i < j < |s|
    ensures s[i] != s[j]
  {
    PathLessOrder(s[i], s[j], s[i]);
  }

  // ---------------------------------------------------------------------------
  // _iter_kb_files

  /** A match of `d.rglob(pattern)`: the resolved path and whether it is a
      regular file. */
  datatype Match = Match(resolved: Path, isFile: bool)

  /** A knowledge-base directory: absent, or present with the matches of
      `rglob("*.md")` and `rglob("*.jsonl")`. */
  datatype KbDir = Absent | Present(md: seq<Match>, jsonl: seq<Match>)

  function Files(ms: seq<Match>): (r: seq<Path>)
    ensures forall p :: p in r <==> exists m :: m in ms && m.isFile && m.resolved == p
  {
    if ms == [] then []
    else
      var rest := Files(ms[1..]);
      assert forall m :: m in ms <==> m == ms[0] || m in ms[1..];
      (if ms[0].isFile then [ms[0].resolved] else []) + rest
  }

  /** Every file path the walk adds to `seen`, in walk order. */
  function Walk(dirs: seq<KbDir>): (r: seq<Path>)
  {
    if dirs == [] then []
    else
      (match dirs[0]
       case Absent => []
       case Present(md, jsonl) => Files(md) + Files(jsonl)) + Walk(dirs[1..])
  }

  ghost predicate Found(dirs: seq<KbDir>, p: Path) {
    exists d, m :: d in dirs && d.Present? && (m in d.md || m in d.jsonl) && m.isFile && m.resolved == p
  }

  lemma {:induction false} WalkFinds(dirs: seq<KbDir>, p: Path)
    ensures p in Walk(dirs) <==> Found(dirs, p)
  {
    if dirs != [] {
      WalkFinds(dirs[1..], p);
      if Found(dirs[1..], p) {
        var d, m :| d in dirs[1..] && d.Present? && (m in d.md || m in d.jsonl) && m.isFile && m.resolved == p;
        assert d in dirs;
      }
      if Found(dirs, p) && !Found(dirs[1..], p) {
        var d, m :| d in dirs && d.Present? && (m in d.md || m in d.jsonl) && m.isFile && m.resolved == p;
        assert d == dirs[0];
      }
      if dirs[0].Present? {
        var d := dirs[0];
        if p in Files(d.md) {
          var m :| m in d.md && m.isFile && m.resolved == p;
        }
        if p in Files(d.jsonl) {
          var m :| m in d.jsonl && m.isFile && m.resolved == p;
        }
      }
    }
  }

  /** `_iter_kb_files()` over the directories in `KB_DIRS` order. */
  function IterKbFiles(dirs: seq<KbDir>): (r: seq<Path>)
    ensures StrictlySorted(r)
  {
    SortUnique(Walk(dirs))
  }

  /** The files yielded are exactly the regular files the walk matched, each
      once, ascending; any other listing with that property is the same list. */
  lemma IterKbFilesSpec(dirs: seq<KbDir>, other: seq<Path>)
    ensures forall p :: p in IterKbFiles(dirs) <==> Found(dirs, p)
    ensures StrictlySorted(other) && (forall p :: p in other <==> Found(dirs, p)) ==> other == IterKbFiles(dirs)
  {
    var r := IterKbFiles(dirs);
    forall p ensures p in r <==> Found(dirs, p) {
      WalkFinds(dirs, p);
      assert p in r <==> p in Elems(r);
    }
    if StrictlySorted(other) && (forall p :: p in other <==> Found(dirs, p)) {
      assert Elems(other) == Elems(r);
      SortedUnique(other, r);
    }
  }
}
