/** lib/ast-parser-improved.js: `extractExports` routes a file to
    typescript-estree or espree, walks the tree and collects the exported
    names in one insertion-ordered Set. The parsers are foreign: each is a
    function from the text (and the espree options) to a tree, or `None`
    when it throws. */
module ImprovedParser {
  import opened Wrappers
  import opened Ast
  import opened OrderedSet
  import opened Walker
  import opened Text
  import opened PathNames
  import opened ExportRules
  import opened ExportSet
  import ProjectTree

  /** The espree options the source varies: `sourceType` ("module" when
      `isModule`) and `ecmaFeatures.jsx`. */
  datatype EspreeOptions = EspreeOptions(isModule: bool, jsx: bool)

  type TsParser = string -> Option<Tree>
  type EspreeParser = (string, EspreeOptions) -> Option<Tree>

  /** The keys `traverseTypeScriptAST` does not descend through. */
  const TsSkip: set<string> := {"parent", "range", "loc"}

  /** `extractExportsFromNode(node, exports, filePath)` for the node at
      index `i`: the names it adds, in order. Each node type has its own
      rule, and a node of any other type (or none) adds nothing. */
  function NodeExports(g: Arena, path: string, i: nat): (r: Result<seq<Value>, Crash>)
    ensures r.Ok? ==> forall x :: x in r.value ==> Truthy(x) || x == Str(DefaultExportName(path))
    ensures TypeOf(g, Ref(i)) == "ExportNamedDeclaration" ==> r == NamedExportNames(g, Ref(i), true)
    ensures TypeOf(g, Ref(i)) == "ExportDefaultDeclaration" ==> r == Ok(DefaultExportNames(g, Ref(i), path))
    ensures TypeOf(g, Ref(i)) == "AssignmentExpression" ==> r == GuardedCommonJsNames(g, Ref(i))
    ensures TypeOf(g, Ref(i)) !in {"ExportNamedDeclaration", "ExportDefaultDeclaration", "AssignmentExpression"} ==>
      r == Ok([])
  {
    var node := Ref(i);
    var t := TypeOf(g, node);
    if t == "" then Ok([])
    else
      var named :- if t == "ExportNamedDeclaration" then NamedExportNames(g, node, true) else Ok([]);
      var byDefault := if t == "ExportDefaultDeclaration" then DefaultExportNames(g, node, path) else [];
      var commonJs :- if t == "AssignmentExpression" then GuardedCommonJsNames(g, node) else Ok([]);
      assert t == "ExportNamedDeclaration" ==> byDefault + commonJs == [] && named + byDefault + commonJs == named;
      assert t == "ExportDefaultDeclaration" ==> named == [] && commonJs == [] && named + byDefault + commonJs == byDefault;
      assert t == "AssignmentExpression" ==> named == [] && byDefault == [] && named + byDefault + commonJs == commonJs;
      Ok(named + byDefault + commonJs)
  }

  function Rule(g: Arena, path: string): Rule {
    (i: nat) => NodeExports(g, path, i)
  }

  /** The Set after walking a tree and visiting every node. */
  function TreeExports(t: Tree, path: string, skip: set<string>): (r: Result<seq<Value>, Crash>)
    ensures var order := PreOrder(t.arena, t.root, skip);
      r.Ok? <==> forall k :: 0 <= k < |order| ==> NodeExports(t.arena, path, order[k]).Ok?
    ensures r.Ok? ==> NoDup(r.value)
  {
    var order := PreOrder(t.arena, t.root, skip);
    AccumulateIsDedup(Rule(t.arena, path), order, []);
    var r := Accumulate(Rule(t.arena, path), order, []);
    if r.Ok? then DedupFacts(Added(Rule(t.arena, path), order).value); r else r
  }

  /** The file is sent to typescript-estree when it is ".ts" or ".tsx" or
      its text holds both '<' and '>'. */
  predicate UsesTsParser(ext: string, content: string) {
    ext == ".ts" || ext == ".tsx" || (HasChar(content, '<') && HasChar(content, '>'))
  }

  /** The espree tree `tryEspreeParser` settles on: the module parse, else
      the script parse, else none. */
  function EspreeTree(content: string, ext: string, espree: EspreeParser): (r: Option<Tree>)
    ensures r.None? <==>
      espree(content, EspreeOptions(true, JsxEnabled(ext))).None? &&
      espree(content, EspreeOptions(false, JsxEnabled(ext))).None?
    ensures espree(content, EspreeOptions(true, JsxEnabled(ext))).Some? ==>
      r == espree(content, EspreeOptions(true, JsxEnabled(ext)))
  {
    var asModule := espree(content, EspreeOptions(true, JsxEnabled(ext)));
    if asModule.Some? then asModule else espree(content, EspreeOptions(false, JsxEnabled(ext)))
  }

  /** `tryEspreeParser`: [] when neither parse succeeds; an exception of the
      visitor escapes (`Err`). */
  function EspreeExports(content: string, ext: string, path: string, espree: EspreeParser): (r: Result<seq<Value>, Crash>)
    ensures EspreeTree(content, ext, espree).None? ==> r == Ok([])
    ensures r.Ok? ==> NoDup(r.value)
  {
    match EspreeTree(content, ext, espree)
    case None => Ok([])
    case Some(t) => TreeExports(t, path, {})
  }

  /** What `extractExports` returns for readable text with an accepted
      extension, or the exception that reaches its outer catch. A
      typescript-estree parse that fails, or whose walk throws, falls back
      to espree. */
  function Outcome(path: string, text: string, ts: TsParser, espree: EspreeParser): (r: Result<seq<Value>, Crash>)
    ensures !UsesTsParser(Ext(path), text) ==> r == EspreeExports(text, Ext(path), path, espree)
    ensures r.Err? ==> EspreeExports(text, Ext(path), path, espree).Err?
    ensures r.Ok? ==> NoDup(r.value)
  {
    var ext := Ext(path);
    var viaTs := if UsesTsParser(ext, text) && ts(text).Some? then TreeExports(ts(text).value, path, TsSkip) else Err(TypeError);
    if viaTs.Ok? then viaTs else EspreeExports(text, ext, path, espree)
  }

  /** `extractExports(filePath)` with the file's text (`None` when it cannot
      be read): a read failure, an unaccepted extension and an exception
      that reaches the outer catch all give []. */
  function Exports(path: string, content: Option<string>, ts: TsParser, espree: EspreeParser): (r: seq<Value>)
    ensures content.None? || !SupportedExt(Ext(path)) ==> r == []
  {
    if content.None? || !SupportedExt(Ext(path)) then []
    else
      var r := Outcome(path, content.value, ts, espree);
      if r.Ok? then r.value else []
  }

  /** The result has no repeats and no falsy name: the only name the rules
      add without checking it is the capitalised stem, which is non-empty
      for every accepted extension. */
  lemma ExportsFacts(path: string, content: Option<string>, ts: TsParser, espree: EspreeParser)
    ensures NoDup(Exports(path, content, ts, espree))
    ensures forall x :: x in Exports(path, content, ts, espree) ==> Truthy(x)
  {
    if content.Some? && SupportedExt(Ext(path)) {
      var text, ext := content.value, Ext(path);
      if UsesTsParser(ext, text) && ts(text).Some? {
        TreeNamesTruthy(ts(text).value, path, TsSkip);
      }
      if EspreeTree(text, ext, espree).Some? {
        TreeNamesTruthy(EspreeTree(text, ext, espree).value, path, {});
      }
    }
  }

  /** The names collected from one tree. */
  lemma TreeNamesTruthy(t: Tree, path: string, skip: set<string>)
    requires SupportedExt(Ext(path))
    ensures var r := TreeExports(t, path, skip);
      r.Ok? ==> NoDup(r.value) && forall x :: x in r.value ==> Truthy(x)
  {
    var order := PreOrder(t.arena, t.root, skip);
    var rule := Rule(t.arena, path);
    if Accumulate(rule, order, []).Ok? {
      Collected(rule, order);
      StemIsNamed(path);
    }
  }

  /** With an accepted extension the file stem is not empty. */
  lemma StemIsNamed(path: string)
    requires SupportedExt(Ext(path))
    ensures Truthy(Str(DefaultExportName(path)))
  {
  }

  /** `tryEspreeParser(content, ext, filePath)`. */
  method TryEspreeParser(content: string, ext: string, path: string, espree: EspreeParser)
    returns (r: Result<seq<Value>, Crash>)
    ensures r == EspreeExports(content, ext, path, espree)
  {
    var options := EspreeOptions(true, JsxEnabled(ext));
    var ast := espree(content, options);
    if ast.None? {
      ast := espree(content, options.(isModule := false));
      if ast.None? {
        return Ok([]);
      }
    }
    r := Collect(Rule(ast.value.arena, path), ast.value.arena, ast.value.root, {});
  }

  /** `extractExports(filePath)`. */
  method ExtractExports(path: string, content: Option<string>, ts: TsParser, espree: EspreeParser)
    returns (names: seq<Value>)
    ensures names == Exports(path, content, ts, espree)
  {
    if content.None? {
      return [];
    }
    var ext := Ext(path);
    if !SupportedExt(ext) {
      return [];
    }
    var text := content.value;
    if UsesTsParser(ext, text) {
      var ast := ts(text);
      if ast.Some? {
        var r := Collect(Rule(ast.value.arena, path), ast.value.arena, ast.value.root, TsSkip);
        if r.Ok? {
          return r.value;
        }
      }
    }
    var r := TryEspreeParser(text, ext, path, espree);
    names := if r.Ok? then r.value else [];
  }

  /** A name is in the result of a successful walk exactly when the visitor
      added it at some visited node. */
  lemma TreeExportsMembers(t: Tree, path: string, skip: set<string>, x: Value)
    requires TreeExports(t, path, skip).Ok?
    ensures x in TreeExports(t, path, skip).value <==>
      exists k :: 0 <= k < |PreOrder(t.arena, t.root, skip)| &&
        NodeExports(t.arena, path, PreOrder(t.arena, t.root, skip)[k]).Ok? &&
        x in NodeExports(t.arena, path, PreOrder(t.arena, t.root, skip)[k]).value
  {
    Collected(Rule(t.arena, path), PreOrder(t.arena, t.root, skip));
  }

  /** espree is only ever asked with `jsx` set to whether the extension
      contains 'x', and the script parse only when the module parse fails:
      two espree functions that agree on those calls give the same result. */
  lemma EspreeCallsUsed(path: string, content: Option<string>, ts: TsParser, e1: EspreeParser, e2: EspreeParser)
    requires content.Some?
    requires var jsx := JsxEnabled(Ext(path));
      && e1(content.value, EspreeOptions(true, jsx)) == e2(content.value, EspreeOptions(true, jsx))
      && (e1(content.value, EspreeOptions(true, jsx)).None? ==>
            e1(content.value, EspreeOptions(false, jsx)) == e2(content.value, EspreeOptions(false, jsx)))
    ensures Exports(path, content, ts, e1) == Exports(path, content, ts, e2)
  {
    assert EspreeTree(content.value, Ext(path), e1) == EspreeTree(content.value, Ext(path), e2);
  }

  /** When typescript-estree is not used, or fails, and both espree parses
      fail, the file yields nothing. */
  lemma LadderExhausted(path: string, content: Option<string>, ts: TsParser, espree: EspreeParser)
    requires content.Some?
    requires !UsesTsParser(Ext(path), content.value) || ts(content.value).None?
    requires espree(content.value, EspreeOptions(true, JsxEnabled(Ext(path)))).None?
    requires espree(content.value, EspreeOptions(false, JsxEnabled(Ext(path)))).None?
    ensures Exports(path, content, ts, espree) == []
  {
  }

  /** A successful typescript-estree walk decides the result, whatever
      espree would do. */
  lemma TsParserDecides(path: string, content: Option<string>, ts: TsParser, e1: EspreeParser, e2: EspreeParser)
    requires content.Some? && SupportedExt(Ext(path)) && UsesTsParser(Ext(path), content.value)
    requires ts(content.value).Some? && TreeExports(ts(content.value).value, path, TsSkip).Ok?
    ensures Exports(path, content, ts, e1) == Exports(path, content, ts, e2)
    ensures Exports(path, content, ts, e1) == TreeExports(ts(content.value).value, path, TsSkip).value
  {
  }

  /** The export list `scanDirectory` stores for a file: `extractExports`
      of its joined path, which reads the file itself. */
  function FileExports(ts: TsParser, espree: EspreeParser): ProjectTree.FileExports {
    (path: string, content: Option<string>) => Exports(path, content, ts, espree)
  }

  /** `analyzeProject(projectPath)`: the outline of the scan with the
      default skip list. */
  method AnalyzeProject(projectPath: string, listing: Option<seq<ProjectTree.FsItem>>, ts: TsParser, espree: EspreeParser)
    returns (text: string)
    ensures text == ProjectTree.Format(ProjectTree.Scan(projectPath, listing, ProjectTree.LegacySkip, FileExports(ts, espree)), 0)
  {
    var structure := ProjectTree.ScanDirectory(projectPath, listing, ProjectTree.LegacySkip, FileExports(ts, espree));
    text := ProjectTree.FormatStructure(structure, 0);
  }

  /** A file the scan reaches, and that no later entry overwrites, is
      listed with names that hold no repeats and no falsy value. */
  lemma ScannedFileNames(path: string, items: seq<ProjectTree.FsItem>, ts: TsParser, espree: EspreeParser, k: nat)
    requires k < ProjectTree.Reached(items) && items[k].File?
    requires forall j :: k < j < |items| ==> ProjectTree.ItemKey(items[j]) != items[k].name
    ensures exists names ::
      && ProjectTree.Entry(items[k].name, ProjectTree.Names(names)) in ProjectTree.Scan(path, Some(items), ProjectTree.LegacySkip, FileExports(ts, espree))
      && NoDup(names)
      && forall x :: x in names ==> Truthy(x)
  {
    var full := JoinPath(path, items[k].name);
    var names := Exports(full, items[k].content, ts, espree);
    assert FileExports(ts, espree)(full, items[k].content) == names;
    ProjectTree.FileRecorded(path, items, ProjectTree.LegacySkip, FileExports(ts, espree), [], k);
    ExportsFacts(full, items[k].content, ts, espree);
  }
}
