/** lib/enhanced-analyzer.js: export extraction that picks a parser by
    extension (TypeScript, JSX, Python, or the legacy extractor of
    lib/ast-parser.js), and `analyzeProject`, which scans a project with the
    longer skip list and either returns the tree or its outline text. */
module EnhancedAnalyzer {
  import opened Wrappers
  import opened Ast
  import opened OrderedSet
  import PathNames
  import AstUtils
  import TsParser
  import JsxParser
  import PythonSymbols
  import ProjectTree

  /** The parsers an analyzer holds, and `originalExtractExports(filePath)`
      of lib/ast-parser.js, which is not part of this model and reads the
      file itself. */
  datatype Parsers = Parsers(
    ts: TsParser.TsParse,
    babel: JsxParser.BabelParse,
    python: PythonSymbols.PyParse,
    legacy: string -> seq<Value>)

  /** The `name` of a TypeScript record; an anonymous default export is
      named 'default'. */
  function RecordName(rec: TsParser.TsRecord): (r: Value)
    ensures rec.DefaultExport? ==> r == Str("default")
    ensures !rec.DefaultExport? ==> r == rec.name
  {
    if rec.DefaultExport? then Str("default") else rec.name
  }

  function RecordNames(recs: seq<TsParser.TsRecord>): (r: seq<Value>)
    ensures |r| == |recs|
    ensures forall k :: 0 <= k < |r| ==> r[k] == RecordName(recs[k])
  {
    if recs == [] then [] else [RecordName(recs[0])] + RecordNames(recs[1..])
  }

  function ComponentNames(comps: seq<JsxParser.Component>): (r: seq<Value>)
    ensures |r| == |comps|
    ensures forall k :: 0 <= k < |r| ==> r[k] == comps[k].name
  {
    if comps == [] then [] else [comps[0].name] + ComponentNames(comps[1..])
  }

  function PythonNames(names: seq<string>): (r: seq<Value>)
    ensures |r| == |names|
    ensures forall k :: 0 <= k < |r| ==> r[k] == Str(names[k])
  {
    if names == [] then [] else [Str(names[0])] + PythonNames(names[1..])
  }

  /** The names of the TypeScript records of a file, then those of its JSX
      components. */
  function TsNames(content: string, path: string, p: Parsers): seq<Value> {
    RecordNames(TsParser.Parse(content, path, p.ts))
  }

  function JsxNames(content: string, p: Parsers): seq<Value> {
    ComponentNames(JsxParser.Parse(content, p.babel))
  }

  /** `extractExports(filePath, content)`: for TypeScript and JSX the
      distinct truthy names of the parsers' records, for Python the
      script's names as they come (duplicates included), and for anything
      else the legacy extractor's answer for the path, whatever the
      content. */
  function Exports(path: string, content: string, p: Parsers): (r: seq<Value>)
    ensures var ext := PathNames.Ext(path);
      var names := if ext == ".ts" then TsNames(content, path, p)
        else if ext == ".tsx" then TsNames(content, path, p) + JsxNames(content, p)
        else JsxNames(content, p);
      && (ext in {".ts", ".tsx", ".jsx"} ==> NoDup(r) && forall x :: x in r <==> x in names && Truthy(x))
      && (ext == ".py" ==> r == PythonNames(PythonSymbols.ParseSync(content, p.python)))
      && (ext !in {".ts", ".tsx", ".jsx", ".py"} ==> r == p.legacy(path))
  {
    var ext := PathNames.Ext(path);
    if ext == ".ts" then AstUtils.ExtractNames(TsNames(content, path, p))
    else if ext == ".tsx" then AstUtils.ExtractNames(TsNames(content, path, p) + JsxNames(content, p))
    else if ext == ".jsx" then AstUtils.ExtractNames(JsxNames(content, p))
    else if ext == ".py" then PythonNames(PythonSymbols.ParseSync(content, p.python))
    else p.legacy(path)
  }

  /** In a .tsx file the TypeScript names come first, in their own order;
      a component already named by a TypeScript record is not repeated. */
  lemma TsxMerge(path: string, content: string, p: Parsers)
    requires PathNames.Ext(path) == ".tsx"
    ensures var tsOnly := AstUtils.ExtractNames(TsNames(content, path, p));
      && Exports(path, content, p) == InsertAll(tsOnly, AstUtils.Truthies(JsxNames(content, p)))
      && |tsOnly| <= |Exports(path, content, p)|
      && Exports(path, content, p)[..|tsOnly|] == tsOnly
  {
    AstUtils.ExtractNamesAppend(TsNames(content, path, p), JsxNames(content, p));
  }

  /** A Python file that assigns `x` twice lists it twice: the Python
      results bypass `extractNames`. */
  lemma PythonDuplicatesKept(path: string, content: string, p: Parsers)
    requires PathNames.Ext(path) == ".py"
    requires p.python(content) == Some(PythonSymbols.PyNode(PythonSymbols.Other, 0, 0, [
      PythonSymbols.PyNode(PythonSymbols.Assign([PythonSymbols.NameTarget("x")]), 1, 0, []),
      PythonSymbols.PyNode(PythonSymbols.Assign([PythonSymbols.NameTarget("x")]), 2, 0, [])]))
    ensures Exports(path, content, p) == [Str("x"), Str("x")]
  {
    PythonSymbols.DuplicatesKept();
  }

  /** The function the scan calls for each file: `readFileSync` failing is
      caught and stores []. */
  function FileExports(p: Parsers): ProjectTree.FileExports {
    (path: string, content: Option<string>) =>
      if content.None? then [] else Exports(path, content.value, p)
  }

  /** A file that cannot be read is listed with no exports, and the scan
      goes on to its siblings. */
  lemma ReadFailureStoresEmpty(path: string, items: seq<ProjectTree.FsItem>, p: Parsers, k: nat)
    requires k < ProjectTree.Reached(items) && items[k] == ProjectTree.File(items[k].name, None)
    requires forall j :: k < j < |items| ==> ProjectTree.ItemKey(items[j]) != items[k].name
    ensures ProjectTree.Entry(items[k].name, ProjectTree.Names([]))
      in ProjectTree.Scan(path, Some(items), ProjectTree.EnhancedSkip, FileExports(p))
  {
    var name := items[k].name;
    assert FileExports(p)(PathNames.JoinPath(path, name), None) == [];
    ProjectTree.FileRecorded(path, items, ProjectTree.EnhancedSkip, FileExports(p), [], k);
  }

  /** The longer skip list only adds names: every directory this scan
      enters the legacy scan enters too, and Python environments such as
      "venv" are entered only by the legacy scan. */
  lemma EnhancedSkipsMore(name: string)
    ensures ProjectTree.Descend(name, ProjectTree.EnhancedSkip) ==> ProjectTree.Descend(name, ProjectTree.LegacySkip)
    ensures ProjectTree.Descend("venv", ProjectTree.LegacySkip)
    ensures !ProjectTree.Descend("venv", ProjectTree.EnhancedSkip)
  {
    assert ProjectTree.EnhancedSkip[6] == "venv";
    assert "venv"[..1] == "v";
  }

  /** What `analyzeProject` returns: the structure itself with
      `returnObject`, its outline text otherwise. */
  datatype Analysis = Structure(entries: seq<ProjectTree.Entry>) | Outline(text: string)

  /** `analyzeProject(projectPath, { returnObject })` on the listing of the
      project directory (`None` when it cannot be listed). */
  method AnalyzeProject(projectPath: string, listing: Option<seq<ProjectTree.FsItem>>, returnObject: bool, p: Parsers)
    returns (r: Analysis)
    ensures var structure := ProjectTree.Scan(projectPath, listing, ProjectTree.EnhancedSkip, FileExports(p));
      r == if returnObject then Structure(structure) else Outline(ProjectTree.Format(structure, 0))
  {
    var structure := ProjectTree.ScanDirectory(projectPath, listing, ProjectTree.EnhancedSkip, FileExports(p));
    if returnObject {
      r := Structure(structure);
    } else {
      var text := ProjectTree.FormatStructure(structure, 0);
      r := Outline(text);
    }
  }
}
