/** lib/ast-parser-fixed.js: `extractExports` parses with espree alone, as a
    module, then as a script, then (for ".ts" and ".tsx" only) as a script
    after a regular-expression pass that strips type annotations, and
    collects the exported names with an inline visitor whose CommonJS reads
    are unguarded. The regular-expression pass is a parameter. */
module FixedParser {
  import opened Wrappers
  import opened Ast
  import opened OrderedSet
  import opened Walker
  import opened PathNames
  import opened ExportRules
  import opened ExportSet
  import ImprovedParser
  import ProjectTree

  type EspreeParser = ImprovedParser.EspreeParser

  /** The type-stripping `replace` chain applied to the text. */
  type Stripper = string -> string

  /** The inline `enter(node)` visitor for the node at index `i`: the same
      dispatch by node type, without TypeScript declarations and with the
      unguarded CommonJS reads. */
  function FixedNode(g: Arena, path: string, i: nat): (r: Result<seq<Value>, Crash>)
    ensures r.Ok? ==> forall x :: x in r.value ==> Truthy(x) || x == Str(DefaultExportName(path))
    ensures TypeOf(g, Ref(i)) == "ExportNamedDeclaration" ==> r == NamedExportNames(g, Ref(i), false)
    ensures TypeOf(g, Ref(i)) == "ExportDefaultDeclaration" ==> r == Ok(DefaultExportNames(g, Ref(i), path))
    ensures TypeOf(g, Ref(i)) == "AssignmentExpression" ==> r == UnguardedCommonJsNames(g, Ref(i))
    ensures TypeOf(g, Ref(i)) !in {"ExportNamedDeclaration", "ExportDefaultDeclaration", "AssignmentExpression"} ==>
      r == Ok([])
  {
    var node := Ref(i);
    var t := TypeOf(g, node);
    var named :- if t == "ExportNamedDeclaration" then NamedExportNames(g, node, false) else Ok([]);
    var byDefault := if t == "ExportDefaultDeclaration" then DefaultExportNames(g, node, path) else [];
    var commonJs :- if t == "AssignmentExpression" then UnguardedCommonJsNames(g, node) else Ok([]);
    assert t == "ExportNamedDeclaration" ==> byDefault + commonJs == [] && named + byDefault + commonJs == named;
    assert t == "ExportDefaultDeclaration" ==> named == [] && commonJs == [] && named + byDefault + commonJs == byDefault;
    assert t == "AssignmentExpression" ==> named == [] && byDefault == [] && named + byDefault + commonJs == commonJs;
    Ok(named + byDefault + commonJs)
  }

  function FixedRule(g: Arena, path: string): Rule {
    (i: nat) => FixedNode(g, path, i)
  }

  predicate TsExt(ext: string) {
    ext == ".ts" || ext == ".tsx"
  }

  /** The tree the parse ladder settles on, or none when every rung throws. */
  function LadderTree(content: string, ext: string, espree: EspreeParser, strip: Stripper): (r: Option<Tree>)
    ensures ImprovedParser.EspreeTree(content, ext, espree).Some? || !TsExt(ext) ==>
      r == ImprovedParser.EspreeTree(content, ext, espree)
    ensures r.Some? && ImprovedParser.EspreeTree(content, ext, espree).None? ==>
      TsExt(ext) && r == espree(strip(content), ImprovedParser.EspreeOptions(false, JsxEnabled(ext)))
  {
    var jsx := JsxEnabled(ext);
    var asModule := espree(content, ImprovedParser.EspreeOptions(true, jsx));
    if asModule.Some? then asModule
    else
      var asScript := espree(content, ImprovedParser.EspreeOptions(false, jsx));
      if asScript.Some? then asScript
      else if TsExt(ext) then espree(strip(content), ImprovedParser.EspreeOptions(false, jsx))
      else None
  }

  /** The Set after `estraverse.traverse` with the inline visitor. */
  function TreeExports(t: Tree, path: string): (r: Result<seq<Value>, Crash>)
    ensures var order := PreOrder(t.arena, t.root, {});
      r.Ok? <==> forall k :: 0 <= k < |order| ==> FixedNode(t.arena, path, order[k]).Ok?
    ensures r.Ok? ==> NoDup(r.value)
  {
    var order := PreOrder(t.arena, t.root, {});
    AccumulateIsDedup(FixedRule(t.arena, path), order, []);
    var r := Accumulate(FixedRule(t.arena, path), order, []);
    if r.Ok? then DedupFacts(Added(FixedRule(t.arena, path), order).value); r else r
  }

  /** `extractExports(filePath)` with the file's text (`None` when it cannot
      be read): a read failure, an unaccepted extension, a ladder with no
      tree and an exception of the visitor all give []. */
  function Exports(path: string, content: Option<string>, espree: EspreeParser, strip: Stripper): (r: seq<Value>)
    ensures content.None? || !SupportedExt(Ext(path)) ==> r == []
  {
    if content.None? || !SupportedExt(Ext(path)) then []
    else
      match LadderTree(content.value, Ext(path), espree, strip)
      case None => []
      case Some(t) =>
        var r := TreeExports(t, path);
        if r.Ok? then r.value else []
  }

  /** `extractExports(filePath)`. */
  method ExtractExports(path: string, content: Option<string>, espree: EspreeParser, strip: Stripper)
    returns (names: seq<Value>)
    ensures names == Exports(path, content, espree, strip)
  {
    if content.None? {
      return [];
    }
    var text := content.value;
    var ext := Ext(path);
    if !SupportedExt(ext) {
      return [];
    }
    var ast := ParseLadder(text, ext, espree, strip);
    if ast.None? {
      return [];
    }
    var r := Collect(FixedRule(ast.value.arena, path), ast.value.arena, ast.value.root, {});
    names := if r.Ok? then r.value else [];
  }

  /** The `try`/`catch` ladder that assigns `ast`. */
  method ParseLadder(text: string, ext: string, espree: EspreeParser, strip: Stripper) returns (ast: Option<Tree>)
    ensures ast == LadderTree(text, ext, espree, strip)
  {
    var options := ImprovedParser.EspreeOptions(true, JsxEnabled(ext));
    ast := espree(text, options);
    if ast.None? {
      ast := espree(text, options.(isModule := false));
      if ast.None? && TsExt(ext) {
        ast := espree(strip(text), options.(isModule := false));
      }
    }
  }

  /** No repeats and no falsy name in the result. */
  lemma ExportsFacts(path: string, content: Option<string>, espree: EspreeParser, strip: Stripper)
    ensures NoDup(Exports(path, content, espree, strip))
    ensures forall x :: x in Exports(path, content, espree, strip) ==> Truthy(x)
  {
    if content.Some? && SupportedExt(Ext(path)) && LadderTree(content.value, Ext(path), espree, strip).Some? {
      var t := LadderTree(content.value, Ext(path), espree, strip).value;
      var order := PreOrder(t.arena, t.root, {});
      if TreeExports(t, path).Ok? {
        Collected(FixedRule(t.arena, path), order);
        ImprovedParser.StemIsNamed(path);
      }
    }
  }

  /** The stripped text is parsed only for ".ts" and ".tsx" files, and only
      after both plain parses have thrown. */
  lemma StripUsedOnlyForTs(path: string, content: Option<string>, espree: EspreeParser, s1: Stripper, s2: Stripper)
    requires content.Some?
    requires !TsExt(Ext(path)) || espree(content.value, ImprovedParser.EspreeOptions(true, JsxEnabled(Ext(path)))).Some?
      || espree(content.value, ImprovedParser.EspreeOptions(false, JsxEnabled(Ext(path)))).Some?
    ensures Exports(path, content, espree, s1) == Exports(path, content, espree, s2)
  {
    assert LadderTree(content.value, Ext(path), espree, s1) == LadderTree(content.value, Ext(path), espree, s2);
  }

  /** A TypeScript-only declaration kind under `export`. */
  predicate TsNamedExport(g: Arena, i: nat) {
    var decl := Field(g, Ref(i), "declaration");
    TypeOf(g, Ref(i)) == "ExportNamedDeclaration" && Truthy(decl) &&
    (TypeOf(g, decl) == "TSInterfaceDeclaration" || TypeOf(g, decl) == "TSTypeAliasDeclaration")
  }

  /** Where the fixed visitor does not throw, the improved one adds the same
      names, except at an exported interface or type alias, which only the
      improved one names. */
  lemma NodeAgrees(g: Arena, path: string, i: nat)
    requires FixedNode(g, path, i).Ok? && !TsNamedExport(g, i)
    ensures ImprovedParser.NodeExports(g, path, i) == FixedNode(g, path, i)
  {
    var node := Ref(i);
    var t := TypeOf(g, node);
    var none: seq<Value> := [];
    if t == "" {
      assert FixedNode(g, path, i) == Ok(none + none + none) && none + none + none == none;
    } else if t == "ExportNamedDeclaration" {
      NamedWithoutTs(g, node);
    } else if t == "AssignmentExpression" {
      assert UnguardedCommonJsNames(g, node).Ok?;
    }
  }

  lemma NamedWithoutTs(g: Arena, node: Value)
    requires var decl := Field(g, node, "declaration");
      !(Truthy(decl) && (TypeOf(g, decl) == "TSInterfaceDeclaration" || TypeOf(g, decl) == "TSTypeAliasDeclaration"))
    ensures NamedExportNames(g, node, true) == NamedExportNames(g, node, false)
  {
    var decl := Field(g, node, "declaration");
    assert DeclarationNames(g, decl, true) == DeclarationNames(g, decl, false);
  }

  /** Over a whole tree: when the fixed walk does not throw and the tree
      exports no interface or type alias, both visitors fill the same Set. */
  lemma TreeAgrees(t: Tree, path: string)
    requires TreeExports(t, path).Ok?
    requires forall k :: 0 <= k < |PreOrder(t.arena, t.root, {})| ==> !TsNamedExport(t.arena, PreOrder(t.arena, t.root, {})[k])
    ensures ImprovedParser.TreeExports(t, path, {}) == TreeExports(t, path)
  {
    var order := PreOrder(t.arena, t.root, {});
    var fixed, improved := FixedRule(t.arena, path), ImprovedParser.Rule(t.arena, path);
    AccumulateIsDedup(fixed, order, []);
    forall k | 0 <= k < |order|
      ensures improved(order[k]) == fixed(order[k])
    {
      NodeAgrees(t.arena, path, order[k]);
    }
    AccumulateAgree(improved, fixed, order, []);
  }

  /** For a file routed to espree by both variants (no typescript-estree),
      whose module or script parse succeeds, the two variants agree under
      the same conditions. */
  lemma VariantsAgree(path: string, content: Option<string>, ts: ImprovedParser.TsParser, espree: EspreeParser, strip: Stripper, t: Tree)
    requires content.Some? && SupportedExt(Ext(path))
    requires !ImprovedParser.UsesTsParser(Ext(path), content.value)
    requires ImprovedParser.EspreeTree(content.value, Ext(path), espree) == Some(t)
    requires TreeExports(t, path).Ok?
    requires forall k :: 0 <= k < |PreOrder(t.arena, t.root, {})| ==> !TsNamedExport(t.arena, PreOrder(t.arena, t.root, {})[k])
    ensures ImprovedParser.Exports(path, content, ts, espree) == Exports(path, content, espree, strip)
  {
    var text, ext := content.value, Ext(path);
    assert LadderTree(text, ext, espree, strip) == Some(t);
    TreeAgrees(t, path);
    assert ImprovedParser.EspreeExports(text, ext, path, espree) == TreeExports(t, path);
    assert ImprovedParser.Outcome(path, text, ts, espree) == TreeExports(t, path);
  }

  /** `export interface User { ... }`: the improved visitor names `User`,
      the fixed one does not. */
  lemma ExportedInterface(path: string)
    ensures var g := [
        Node("ExportNamedDeclaration", [("declaration", Ref(1))]),
        Node("TSInterfaceDeclaration", [("id", Ref(2))]),
        Node("Identifier", [("name", Str("User"))])];
      && ImprovedParser.NodeExports(g, path, 0) == Ok([Str("User")])
      && FixedNode(g, path, 0) == Ok([])
  {
    var g := [
      Node("ExportNamedDeclaration", [("declaration", Ref(1))]),
      Node("TSInterfaceDeclaration", [("id", Ref(2))]),
      Node("Identifier", [("name", Str("User"))])];
    var node, decl := Ref(0), Ref(1);
    var none: seq<Value> := [];
    assert Field(g, node, "declaration") == decl;
    assert Field(g, node, "specifiers") == Undefined;
    assert TypeOf(g, decl) == "TSInterfaceDeclaration";
    assert NameOf(g, Field(g, decl, "id")) == Str("User");
    assert DeclarationNames(g, decl, true) == Ok([Str("User")]);
    assert DeclarationNames(g, decl, false) == Ok(none);
    assert NamedExportNames(g, node, true) == Ok([Str("User")] + none);
    assert NamedExportNames(g, node, false) == Ok(none + none);
    assert [Str("User")] + none + none + none == [Str("User")];
    assert none + none + none + none == none;
  }

  /** An assignment node without a `left` key: the fixed visitor throws at
      `node.left.type` (and the whole file yields []), the improved one
      adds nothing. */
  lemma AssignmentWithoutLeft(g: Arena, path: string, i: nat)
    requires i < |g| && g[i].kind == "AssignmentExpression" && Lookup(g[i].fields, "left") == Undefined
    ensures FixedNode(g, path, i) == Err(TypeError)
    ensures ImprovedParser.NodeExports(g, path, i) == Ok([])
  {
    var node := Ref(i);
    var none: seq<Value> := [];
    assert Field(g, node, "left") == Undefined;
    assert GuardedCommonJsNames(g, node) == Ok(none + none);
    assert none + none + none == none && none + none == none;
  }

  /** The export list `scanDirectory` stores for a file: `extractExports`
      of its joined path, which reads the file itself. */
  function FileExports(espree: EspreeParser, strip: Stripper): ProjectTree.FileExports {
    (path: string, content: Option<string>) => Exports(path, content, espree, strip)
  }

  /** `analyzeProject(projectPath)`: the outline of the scan with the
      default skip list. */
  method AnalyzeProject(projectPath: string, listing: Option<seq<ProjectTree.FsItem>>, espree: EspreeParser, strip: Stripper)
    returns (text: string)
    ensures text == ProjectTree.Format(ProjectTree.Scan(projectPath, listing, ProjectTree.LegacySkip, FileExports(espree, strip)), 0)
  {
    var structure := ProjectTree.ScanDirectory(projectPath, listing, ProjectTree.LegacySkip, FileExports(espree, strip));
    text := ProjectTree.FormatStructure(structure, 0);
  }

  /** A file the scan reaches, and that no later entry overwrites, is
      listed with names that hold no repeats and no falsy value. */
  lemma ScannedFileNames(path: string, items: seq<ProjectTree.FsItem>, espree: EspreeParser, strip: Stripper, k: nat)
    requires k < ProjectTree.Reached(items) && items[k].File?
    requires forall j :: k < j < |items| ==> ProjectTree.ItemKey(items[j]) != items[k].name
    ensures exists names ::
      && ProjectTree.Entry(items[k].name, ProjectTree.Names(names)) in ProjectTree.Scan(path, Some(items), ProjectTree.LegacySkip, FileExports(espree, strip))
      && NoDup(names)
      && forall x :: x in names ==> Truthy(x)
  {
    var full := JoinPath(path, items[k].name);
    var names := Exports(full, items[k].content, espree, strip);
    assert FileExports(espree, strip)(full, items[k].content) == names;
    ProjectTree.FileRecorded(path, items, ProjectTree.LegacySkip, FileExports(espree, strip), [], k);
    ExportsFacts(full, items[k].content, espree, strip);
  }
}
