/**
 * Tier classification (`find_files`, src/main.rs): every `.rs` file of the
 * walked tree becomes one record `(tier, path, summary, full body)`.
 *
 *   0  the file defines the function and sits in the right modules: the
 *      summary is `modify_function_bodies` of the raw text, the full body
 *      is the normalised text;
 *   3  it defines a function of that name elsewhere;
 *   1  it does not define it but calls it;
 *   4  neither.
 *
 * The walk and the file reads are inputs: a sequence of entries, each a
 * path and the text read from it.
 */
module Classify {
  import opened Text
  import opened Normalisation
  import opened Patterns
  import opened Collapse

  /** A walked file: its path as `display()` renders it and the text read from it. */
  datatype Entry = Entry(path: string, raw: string)

  /** A record of `find_files`: tier, path, summary text and the optional full body. */
  datatype FileRecord = FileRecord(tier: nat, path: string, summary: string, full: Option<string>)

  /** The last index of `c` in `s`. */
  function LastIndex(s: string, c: char): (r: Option<nat>)
    ensures r.Some? ==> r.value < |s| && s[r.value] == c && c !in s[r.value + 1..]
    ensures r.None? ==> c !in s
  {
    if s == [] then None
    else if s[|s| - 1] == c then Some(|s| - 1)
    else
      assert s == s[..|s| - 1] + [s[|s| - 1]];
      LastIndex(s[..|s| - 1], c)
  }

  /** The final component of a path: what follows its last '/'. */
  function FileName(path: string): (name: string)
    ensures '/' !in name
    ensures |name| <= |path| && name == path[|path| - |name|..]
  {
    match LastIndex(path, '/')
    case Some(i) => path[i + 1..]
    case None => path
  }

  /**
   * `Path::extension` of a file name: the text after its last '.', except
   * that `..` and a name whose only '.' is its first character have none.
   */
  function Extension(name: string): Option<string> {
    if name == ".." then None
    else
      match LastIndex(name, '.')
      case None => None
      case Some(i) => if i == 0 then None else Some(name[i + 1..])
  }

  /** `extension().map_or(false, |ext| ext == "rs")`. */
  predicate IsRustSource(path: string) {
    Extension(FileName(path)) == Some("rs")
  }

  /** A path is a Rust source exactly when its file name is longer than `.rs` and ends with it. */
  lemma RustSourceName(path: string)
    ensures IsRustSource(path) <==>
              var name := FileName(path);
              |name| > 3 && name[|name| - 3..] == ".rs"
  {
    var name := FileName(path);
    if |name| > 3 && name[|name| - 3..] == ".rs" {
      var i := |name| - 3;
      assert name[i] == '.' && name[i + 1..] == "rs";
      assert LastIndex(name, '.') == Some(i);
    }
    if IsRustSource(path) {
      var j := LastIndex(name, '.');
      assert j.Some? && j.value != 0 && name[j.value + 1..] == "rs";
    }
  }

  /**
   * The module check: every module part occurs in the path, or the text
   * declares one of them with `mod X;`.
   */
  predicate ModuleMatches(path: string, content: string, parts: seq<string>) {
    (forall k | 0 <= k < |parts| :: Contains(path, parts[k]))
    || (exists k | 0 <= k < |parts| :: DeclaresModule(content, parts[k]))
  }

  /** The record `find_files` makes for one Rust file, for function `name` in modules `parts`. */
  function ClassifyFile(e: Entry, name: string, parts: seq<string>): (r: FileRecord)
    ensures r.path == e.path
    ensures r.tier in {0, 1, 3, 4}
    ensures r.tier == 0 <==> Defines(Normalise(e.raw), name) && ModuleMatches(e.path, Normalise(e.raw), parts)
    ensures r.tier == 3 <==> Defines(Normalise(e.raw), name) && !ModuleMatches(e.path, Normalise(e.raw), parts)
    ensures r.tier == 1 <==> !Defines(Normalise(e.raw), name) && CallsTarget(Normalise(e.raw), name)
    ensures r.tier == 4 <==> !Defines(Normalise(e.raw), name) && !CallsTarget(Normalise(e.raw), name)
    ensures r.full.Some? <==> r.tier == 0
    ensures r.full.Some? ==> r.full.value == Normalise(e.raw)
    ensures r.tier == 0 ==> r.summary == ModifiedContent(e.raw, name)
    ensures r.tier != 0 ==> r.summary == Normalise(e.raw)
  {
    var content := Normalise(e.raw);
    if Defines(content, name) then
      if ModuleMatches(e.path, content, parts) then FileRecord(0, e.path, ModifiedContent(e.raw, name), Some(content))
      else FileRecord(3, e.path, content, None)
    else if CallsTarget(content, name) then FileRecord(1, e.path, content, None)
    else FileRecord(4, e.path, content, None)
  }

  /** The walked entries that are Rust sources, in walk order. */
  function RustSources(entries: seq<Entry>): (rs: seq<Entry>)
    ensures |rs| <= |entries|
    ensures forall k :: 0 <= k < |rs| ==> IsRustSource(rs[k].path) && rs[k] in entries
    ensures forall e | e in entries && IsRustSource(e.path) :: e in rs
  {
    if entries == [] then []
    else (if IsRustSource(entries[0].path) then [entries[0]] else []) + RustSources(entries[1..])
  }

  /** Classifies each entry of `rs` in turn. */
  function ClassifyAll(rs: seq<Entry>, name: string, parts: seq<string>): (r: seq<FileRecord>)
    ensures |r| == |rs|
    ensures forall k :: 0 <= k < |r| ==> r[k] == ClassifyFile(rs[k], name, parts)
  {
    if rs == [] then [] else [ClassifyFile(rs[0], name, parts)] + ClassifyAll(rs[1..], name, parts)
  }

  /**
   * `find_files`: one record per Rust source, in walk order, for the
   * function named by the last segment of `functionPath` in the modules
   * named by the others.
   */
  function FindFiles(entries: seq<Entry>, functionPath: string): (r: seq<FileRecord>)
    ensures |r| == |RustSources(entries)|
    ensures forall k :: 0 <= k < |r| ==>
              r[k].path == RustSources(entries)[k].path && r[k].tier in {0, 1, 3, 4}
  {
    ClassifyAll(RustSources(entries), FunctionName(functionPath), ModuleParts(functionPath))
  }

  /** Every record is for one of the walked Rust files. */
  lemma RecordsAreSources(entries: seq<Entry>, functionPath: string)
    ensures forall k :: 0 <= k < |FindFiles(entries, functionPath)| ==>
              exists e :: e in entries && IsRustSource(e.path) && FindFiles(entries, functionPath)[k].path == e.path
  {
    var rs := RustSources(entries);
    var r := FindFiles(entries, functionPath);
    forall k | 0 <= k < |r|
      ensures exists e :: e in entries && IsRustSource(e.path) && r[k].path == e.path
    {
      assert rs[k] in entries && IsRustSource(rs[k].path) && r[k].path == rs[k].path;
    }
  }

  /** Every walked Rust file has a record. */
  lemma SourcesHaveRecords(entries: seq<Entry>, functionPath: string)
    ensures forall e | e in entries && IsRustSource(e.path) ::
              exists k :: 0 <= k < |FindFiles(entries, functionPath)| && FindFiles(entries, functionPath)[k].path == e.path
  {
    var rs := RustSources(entries);
    var r := FindFiles(entries, functionPath);
    forall e | e in entries && IsRustSource(e.path)
      ensures exists k :: 0 <= k < |r| && r[k].path == e.path
    {
      assert e in rs;
      var k :| 0 <= k < |rs| && rs[k] == e;
      assert r[k].path == e.path;
    }
  }

  /**
   * With a single-segment function path there are no module parts, so every
   * Rust file whose normalised text matches the definition pattern is tier 0.
   */
  lemma SingleSegmentDefinitionsTierZero(entries: seq<Entry>, functionPath: string)
    requires !Contains(functionPath, "::")
    ensures forall k :: 0 <= k < |FindFiles(entries, functionPath)| ==>
              (FindFiles(entries, functionPath)[k].tier == 0 <==>
               Defines(Normalise(RustSources(entries)[k].raw), functionPath))
  {
    PathSegments(functionPath);
    var rs := RustSources(entries);
    var r := FindFiles(entries, functionPath);
    forall k | 0 <= k < |r|
      ensures r[k].tier == 0 <==> Defines(Normalise(rs[k].raw), functionPath)
    {
      assert r[k] == ClassifyFile(rs[k], functionPath, []);
      assert ModuleMatches(rs[k].path, Normalise(rs[k].raw), []);
    }
  }

  /** Only tier-0 records carry a full body, and that body is already normalised. */
  lemma FullBodiesNormalised(entries: seq<Entry>, functionPath: string)
    ensures forall k :: 0 <= k < |FindFiles(entries, functionPath)| ==>
              var rec := FindFiles(entries, functionPath)[k];
              (rec.full.Some? <==> rec.tier == 0)
              && (rec.full.Some? ==> Normalise(rec.full.value) == rec.full.value)
  {
    var rs := RustSources(entries);
    var r := FindFiles(entries, functionPath);
    forall k | 0 <= k < |r|
      ensures (r[k].full.Some? <==> r[k].tier == 0)
              && (r[k].full.Some? ==> Normalise(r[k].full.value) == r[k].full.value)
    {
      assert r[k] == ClassifyFile(rs[k], FunctionName(functionPath), ModuleParts(functionPath));
      NormaliseIdempotent(rs[k].raw);
    }
  }

  /**
   * A tier-0 summary is the raw text itself when every function the regex
   * finds is the target or calls it, in particular when it finds none.
   */
  lemma TierZeroSummaryUnchanged(e: Entry, name: string, parts: seq<string>)
    requires ClassifyFile(e, name, parts).tier == 0
    requires forall m | m in Matches(e.raw, 0) :: m.name == name || CallsTarget(m.body, name)
    ensures ClassifyFile(e, name, parts).summary == e.raw
  {
    ModifiedContentAllCalling(e.raw, name);
  }
}
