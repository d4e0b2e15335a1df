/** lib/parsers/typescript-parser.js: `TypeScriptParser.extractExports` walks
    a typescript-estree tree and pushes one kind-tagged record per exported
    entity onto a plain list (no deduplication). Interfaces carry their
    property signatures and type aliases a printed definition, produced by
    the two recursive type printers `getTypeAnnotation` and
    `getTypeDefinition`. */
module TsParser {
  import opened Wrappers
  import opened Ast
  import opened Text
  import opened Walker
  import opened ExportSet
  import AstUtils
  import ExportRules

  /** `{name, type, optional}` for one property signature. */
  datatype PropertyRecord = PropertyRecord(name: Value, typ: Value, optional: Value)

  /** The records the extractor pushes; every one has `exported: true`. */
  datatype TsRecord =
    | Interface(name: Value, properties: seq<PropertyRecord>)
    | TypeAlias(name: Value, definition: string)
    | FunctionExport(name: Value, isDefault: bool)
    | ClassExport(name: Value, isDefault: bool)
    | VariableExport(name: Value)
    | Reexport(name: Value)
    | DefaultExport

  /** The three keyword types both printers know. */
  function Keyword(t: string): (r: Option<string>)
    ensures r.Some? <==> t in {"TSStringKeyword", "TSNumberKeyword", "TSBooleanKeyword"}
  {
    if t == "TSStringKeyword" then Some("string")
    else if t == "TSNumberKeyword" then Some("number")
    else if t == "TSBooleanKeyword" then Some("boolean")
    else None
  }

  /** `getTypeAnnotation(typeAnnotation)`: "any" without an annotation,
      otherwise the wrapper's `typeAnnotation` node printed. `fuel` bounds
      the recursion depth (running out is the stack overflow of a cycle). */
  function TypeAnnotation(g: Arena, ta: Value, fuel: nat): (r: Result<Value, Crash>)
    ensures fuel > 0 && !Truthy(ta) ==> r == Ok(Str("any"))
    ensures fuel > 0 && Truthy(ta) ==> r == TypeNode(g, Field(g, ta, "typeAnnotation"), fuel)
    decreases fuel, 1
  {
    if fuel == 0 then Err(StackOverflow)
    else if !Truthy(ta) then Ok(Str("any"))
    else TypeNode(g, Field(g, ta, "typeAnnotation"), fuel)
  }

  /** The `switch (typeNode.type)` of `getTypeAnnotation`: keywords print
      their names, a reference its bare `typeName.name` (generic arguments
      are never read), an array its element printed by a recursive call
      followed by "[]", anything else "unknown". */
  function TypeNode(g: Arena, node: Value, fuel: nat): (r: Result<Value, Crash>)
    requires fuel > 0
    ensures node == Undefined || node == Null ==> r == Err(TypeError)
    ensures r.Ok? && Keyword(TypeOf(g, node)).Some? ==> r.value == Str(Keyword(TypeOf(g, node)).value)
    ensures TypeOf(g, node) == "TSTypeReference" ==> r == NameProp(g, Field(g, node, "typeName"))
    ensures TypeOf(g, node) == "TSArrayType" && r.Ok? ==> r.value.Str? && EndsWith(r.value.s, "[]")
    ensures r.Ok? && Keyword(TypeOf(g, node)).None? && TypeOf(g, node) != "TSArrayType" && TypeOf(g, node) != "TSTypeReference" ==>
      r.value == Str("unknown")
    decreases fuel, 0
  {
    var t :- Type(g, node);
    if Keyword(t).Some? then Ok(Str(Keyword(t).value))
    else if t == "TSArrayType" then
      var inner :- TypeAnnotation(g, Field(g, node, "elementType"), fuel - 1);
      Ok(Str(Show(inner) + "[]"))
    else if t == "TSTypeReference" then NameProp(g, Field(g, node, "typeName"))
    else Ok(Str("unknown"))
  }

  /** More fuel changes nothing once the printer has finished or thrown a
      `TypeError`. */
  lemma {:induction false} TypeAnnotationFuel(g: Arena, ta: Value, fuel: nat, more: nat)
    requires fuel <= more && TypeAnnotation(g, ta, fuel) != Err(StackOverflow)
    ensures TypeAnnotation(g, ta, more) == TypeAnnotation(g, ta, fuel)
    decreases fuel, 1
  {
    if fuel > 0 && Truthy(ta) {
      TypeNodeFuel(g, Field(g, ta, "typeAnnotation"), fuel, more);
    }
  }

  lemma {:induction false} TypeNodeFuel(g: Arena, node: Value, fuel: nat, more: nat)
    requires 0 < fuel <= more && TypeNode(g, node, fuel) != Err(StackOverflow)
    ensures TypeNode(g, node, more) == TypeNode(g, node, fuel)
    decreases fuel, 0
  {
    if node != Undefined && node != Null && TypeOf(g, node) == "TSArrayType" {
      var elem := Field(g, node, "elementType");
      ArrayTypePrinted(g, node, fuel);
      ArrayTypePrinted(g, node, more);
      TypeAnnotationFuel(g, elem, fuel - 1, more - 1);
    }
  }

  /** `${getTypeAnnotation(elementType)}[]`: an array type prints its
      element's annotation followed by "[]", and an exception while
      printing the element escapes. */
  lemma ArrayTypePrinted(g: Arena, node: Value, fuel: nat)
    requires fuel > 0 && node != Undefined && node != Null && TypeOf(g, node) == "TSArrayType"
    ensures var inner := TypeAnnotation(g, Field(g, node, "elementType"), fuel - 1);
      && (inner.Ok? ==> TypeNode(g, node, fuel) == Ok(Str(Show(inner.value) + "[]")))
      && (inner.Err? ==> TypeNode(g, node, fuel) == Err(inner.error))
  {
  }

  /** The array case hands over the element type node itself, which has no
      `typeAnnotation` key of its own: the recursive call throws reading its
      `type`. */
  lemma ArrayElementThrows(g: Arena, ta: Value, fuel: nat)
    requires fuel >= 2 && Truthy(ta)
    requires TypeOf(g, Field(g, ta, "typeAnnotation")) == "TSArrayType"
    requires var elem := Field(g, Field(g, ta, "typeAnnotation"), "elementType");
      Truthy(elem) && Field(g, elem, "typeAnnotation") == Undefined
    ensures TypeAnnotation(g, ta, fuel) == Err(TypeError)
  {
  }

  /** `string[]` as typescript-estree gives it: the annotation wrapper, the
      array node and a bare keyword node. */
  lemma StringArrayThrows(fuel: nat)
    requires fuel >= 2
    ensures var g := [
        Node("TSTypeAnnotation", [("typeAnnotation", Ref(1))]),
        Node("TSArrayType", [("elementType", Ref(2))]),
        Node("TSStringKeyword", [])];
      TypeAnnotation(g, Ref(0), fuel) == Err(TypeError)
  {
    var g := [
      Node("TSTypeAnnotation", [("typeAnnotation", Ref(1))]),
      Node("TSArrayType", [("elementType", Ref(2))]),
      Node("TSStringKeyword", [])];
    assert Field(g, Ref(0), "typeAnnotation") == Ref(1);
    assert Field(g, Ref(1), "elementType") == Ref(2);
    ArrayElementThrows(g, Ref(0), fuel);
  }

  /** `getTypeDefinition(typeNode)`: unions print their members'
      definitions joined by " | ", keywords their names, anything else
      "complex". A union whose `types` is not an array throws. */
  function TypeDefinition(g: Arena, node: Value, fuel: nat): (r: Result<string, Crash>)
    ensures fuel > 0 && !Truthy(node) ==> r == Ok("unknown")
    ensures fuel > 0 && Truthy(node) && Keyword(TypeOf(g, node)).Some? ==> r == Ok(Keyword(TypeOf(g, node)).value)
    ensures fuel > 0 && Truthy(node) && Keyword(TypeOf(g, node)).None? && TypeOf(g, node) != "TSUnionType" ==> r == Ok("complex")
    ensures r.Err? && fuel > 0 && Truthy(node) && r.error == TypeError ==> TypeOf(g, node) == "TSUnionType"
    ensures fuel > 0 && Truthy(node) && TypeOf(g, node) == "TSUnionType" && !Field(g, node, "types").List? ==>
      r == Err(TypeError)
    ensures r.Ok? && fuel > 0 && Truthy(node) && TypeOf(g, node) == "TSUnionType" ==>
      Field(g, node, "types").List? &&
      var members := Field(g, node, "types").items;
      && Definitions(g, members, fuel - 1).Ok?
      && r.value == Join(Definitions(g, members, fuel - 1).value, " | ")
    decreases fuel, 0
  {
    if fuel == 0 then Err(StackOverflow)
    else if !Truthy(node) then Ok("unknown")
    else
      var t := TypeOf(g, node);
      if t == "TSUnionType" then
        var members :- Items(Field(g, node, "types"));
        var parts :- Definitions(g, members, fuel - 1);
        Ok(Join(parts, " | "))
      else if Keyword(t).Some? then Ok(Keyword(t).value)
      else Ok("complex")
  }

  /** `types.map(t => this.getTypeDefinition(t))`: entry k is member k's
      definition, and the first member whose definition throws stops the
      map. */
  function Definitions(g: Arena, members: seq<Value>, fuel: nat): (r: Result<seq<string>, Crash>)
    ensures r.Ok? ==> |r.value| == |members|
    ensures r.Ok? <==> forall k :: 0 <= k < |members| ==> TypeDefinition(g, members[k], fuel).Ok?
    ensures r.Ok? ==> forall k :: 0 <= k < |members| ==> TypeDefinition(g, members[k], fuel) == Ok(r.value[k])
    decreases fuel, 1, |members|
  {
    if members == [] then Ok([])
    else
      var first :- TypeDefinition(g, members[0], fuel);
      var rest :- Definitions(g, members[1..], fuel);
      assert forall k :: 1 <= k < |members| ==> members[k] == members[1..][k - 1];
      Ok([first] + rest)
  }

  /** The keyword names of union members that are all keyword nodes. */
  function KeywordNames(g: Arena, members: seq<Value>): seq<string>
    requires forall k :: 0 <= k < |members| ==> Keyword(TypeOf(g, members[k])).Some?
  {
    if members == [] then []
    else [Keyword(TypeOf(g, members[0])).value] + KeywordNames(g, members[1..])
  }

  lemma {:induction false} KeywordDefinitions(g: Arena, members: seq<Value>, fuel: nat)
    requires fuel > 0
    requires forall k :: 0 <= k < |members| ==> Keyword(TypeOf(g, members[k])).Some?
    ensures Definitions(g, members, fuel) == Ok(KeywordNames(g, members))
    decreases |members|
  {
    if members != [] {
      assert Truthy(members[0]) by {
        assert TypeOf(g, members[0]) != "";
      }
      KeywordDefinitions(g, members[1..], fuel);
    }
  }

  /** A union of keyword types prints as their names joined by " | ". */
  lemma UnionOfKeywords(g: Arena, node: Value, fuel: nat)
    requires fuel >= 2 && Truthy(node) && TypeOf(g, node) == "TSUnionType"
    requires Field(g, node, "types").List?
    requires var members := Field(g, node, "types").items;
      forall k :: 0 <= k < |members| ==> Keyword(TypeOf(g, members[k])).Some?
    ensures TypeDefinition(g, node, fuel) == Ok(Join(KeywordNames(g, Field(g, node, "types").items), " | "))
  {
    KeywordDefinitions(g, Field(g, node, "types").items, fuel - 1);
  }

  /** The members of an interface body that are property signatures, in
      order. */
  function PropertyMembers(g: Arena, members: seq<Value>): (r: seq<Value>)
    ensures |r| <= |members|
  {
    if members == [] then []
    else (if TypeOf(g, members[0]) == "TSPropertySignature" then [members[0]] else []) + PropertyMembers(g, members[1..])
  }

  /** `body.body.map(...).filter(Boolean)`: one record per property
      signature, every other member mapped to null and dropped. */
  function MemberRecords(g: Arena, members: seq<Value>, fuel: nat): (r: Result<seq<PropertyRecord>, Crash>)
    ensures r.Ok? ==> |r.value| == |PropertyMembers(g, members)|
    ensures r.Ok? ==> forall k :: 0 <= k < |members| ==> members[k] != Undefined && members[k] != Null
  {
    if members == [] then Ok([])
    else
      var member := members[0];
      var t :- Type(g, member);
      var head :-
        if t == "TSPropertySignature" then
          (var name :- NameProp(g, Field(g, member, "key"));
           var typ :- TypeAnnotation(g, Field(g, member, "typeAnnotation"), fuel);
           Ok([PropertyRecord(name, typ, Field(g, member, "optional"))]))
        else Ok([]);
      var rest :- MemberRecords(g, members[1..], fuel);
      assert forall k :: 1 <= k < |members| ==> members[k] == members[1..][k - 1];
      Ok(head + rest)
  }

  /** Record k describes the k-th property signature: its key's name, its
      `optional` flag and the printed type of its annotation. */
  lemma {:induction false} MemberRecordsSpec(g: Arena, members: seq<Value>, fuel: nat, k: nat)
    requires MemberRecords(g, members, fuel).Ok?
    requires k < |MemberRecords(g, members, fuel).value|
    ensures var rec := MemberRecords(g, members, fuel).value[k];
      var member := PropertyMembers(g, members)[k];
      && rec.name == NameOf(g, Field(g, member, "key"))
      && rec.optional == Field(g, member, "optional")
      && TypeAnnotation(g, Field(g, member, "typeAnnotation"), fuel) == Ok(rec.typ)
    decreases |members|
  {
    var member := members[0];
    var recs := MemberRecords(g, members, fuel).value;
    var rest := MemberRecords(g, members[1..], fuel);
    if TypeOf(g, member) == "TSPropertySignature" {
      assert PropertyMembers(g, members) == [member] + PropertyMembers(g, members[1..]);
      if k > 0 {
        MemberRecordsSpec(g, members[1..], fuel, k - 1);
        assert recs[k] == rest.value[k - 1];
      }
    } else {
      assert PropertyMembers(g, members) == PropertyMembers(g, members[1..]);
      MemberRecordsSpec(g, members[1..], fuel, k);
    }
  }

  /** `extractInterfaceProperties(body)`. */
  function InterfaceProperties(g: Arena, body: Value, fuel: nat): (r: Result<seq<PropertyRecord>, Crash>)
    ensures !Truthy(body) || !Truthy(Field(g, body, "body")) ==> r == Ok([])
    ensures r.Ok? && Truthy(body) && Truthy(Field(g, body, "body")) ==>
      Field(g, body, "body").List? && |r.value| == |PropertyMembers(g, Field(g, body, "body").items)|
    ensures var members := Field(g, body, "body");
      Truthy(body) && Truthy(members) ==>
        r == (if members.List? then MemberRecords(g, members.items, fuel) else Err(TypeError))
  {
    if !Truthy(body) || !Truthy(Field(g, body, "body")) then Ok([])
    else
      var members :- Items(Field(g, body, "body"));
      MemberRecords(g, members, fuel)
  }

  /** One `variable` record per declarator with a truthy `id.name`, in
      declarator order; a null declarator throws at `decl.id`. */
  function VariableRecords(g: Arena, items: seq<Value>): (r: Result<seq<TsRecord>, Crash>)
    ensures r.Ok? <==> forall k :: 0 <= k < |items| ==> items[k] != Undefined && items[k] != Null
    ensures r.Ok? ==> forall x :: x in r.value ==> x.VariableExport? && Truthy(x.name)
    ensures r.Ok? ==> var names := AstUtils.Truthies(ExportRules.NamesAt(g, items, "id"));
      |r.value| == |names| && forall k :: 0 <= k < |names| ==> r.value[k] == VariableExport(names[k])
  {
    if items == [] then Ok([])
    else
      var id :- Prop(g, items[0], "id");
      var rest :- VariableRecords(g, items[1..]);
      var hd := if HasName(g, id) then [NameOf(g, id)] else [];
      NamesCons(g, items, "id");
      NameRecordsAppend(hd, AstUtils.Truthies(ExportRules.NamesAt(g, items[1..], "id")),
        if HasName(g, id) then [VariableExport(NameOf(g, id))] else [], rest, true);
      Ok((if HasName(g, id) then [VariableExport(NameOf(g, id))] else []) + rest)
  }

  /** The record `variable` or `reexport` builds for a name. */
  function NameRecord(name: Value, variable: bool): TsRecord {
    if variable then VariableExport(name) else Reexport(name)
  }

  /** The truthy names under `key` are the first entry's, if truthy, then
      the rest's. */
  lemma NamesCons(g: Arena, items: seq<Value>, key: string)
    requires items != []
    ensures var v := Field(g, items[0], key);
      AstUtils.Truthies(ExportRules.NamesAt(g, items, key)) ==
        (if HasName(g, v) then [NameOf(g, v)] else []) + AstUtils.Truthies(ExportRules.NamesAt(g, items[1..], key))
  {
    ExportRules.HasNameIsTruthyName(g, Field(g, items[0], key));
    assert ExportRules.NamesAt(g, items, key)[1..] == ExportRules.NamesAt(g, items[1..], key);
  }

  /** One record per name, for a first run of names and the rest. */
  lemma NameRecordsAppend(hd: seq<Value>, tl: seq<Value>, hr: seq<TsRecord>, tr: seq<TsRecord>, variable: bool)
    requires |hr| == |hd| && |tr| == |tl|
    requires forall k :: 0 <= k < |hd| ==> hr[k] == NameRecord(hd[k], variable)
    requires forall k :: 0 <= k < |tl| ==> tr[k] == NameRecord(tl[k], variable)
    ensures forall k :: 0 <= k < |hd + tl| ==> (hr + tr)[k] == NameRecord((hd + tl)[k], variable)
  {
  }

  /** One `reexport` record per specifier with a truthy exported name (`b`
      of `a as b`), in specifier order. */
  function SpecifierRecords(g: Arena, items: seq<Value>): (r: Result<seq<TsRecord>, Crash>)
    ensures r.Ok? <==> forall k :: 0 <= k < |items| ==> items[k] != Undefined && items[k] != Null
    ensures r.Ok? ==> |r.value| <= |items| && forall x :: x in r.value ==> x.Reexport? && Truthy(x.name)
    ensures r.Ok? ==> var names := AstUtils.Truthies(ExportRules.NamesAt(g, items, "exported"));
      |r.value| == |names| && forall k :: 0 <= k < |names| ==> r.value[k] == Reexport(names[k])
  {
    if items == [] then Ok([])
    else
      var exported :- Prop(g, items[0], "exported");
      var rest :- SpecifierRecords(g, items[1..]);
      var hd := if HasName(g, exported) then [NameOf(g, exported)] else [];
      NamesCons(g, items, "exported");
      NameRecordsAppend(hd, AstUtils.Truthies(ExportRules.NamesAt(g, items[1..], "exported")),
        if HasName(g, exported) then [Reexport(NameOf(g, exported))] else [], rest, false);
      Ok((if HasName(g, exported) then [Reexport(NameOf(g, exported))] else []) + rest)
  }

  /** The `node.declaration` of a named export: interfaces, type aliases,
      functions and classes read `id.name` unguarded. */
  function DeclarationRecords(g: Arena, decl: Value, fuel: nat): (r: Result<seq<TsRecord>, Crash>)
    requires Truthy(decl)
    ensures r.Ok? ==> forall x :: x in r.value ==> !x.DefaultExport? && !x.Reexport?
    ensures r.Ok? && TypeOf(g, decl) in {"TSInterfaceDeclaration", "TSTypeAliasDeclaration", "FunctionDeclaration", "ClassDeclaration"} ==>
      |r.value| == 1 && r.value[0].name == NameOf(g, Field(g, decl, "id"))
    ensures (TypeOf(g, decl) in {"TSInterfaceDeclaration", "TSTypeAliasDeclaration", "FunctionDeclaration", "ClassDeclaration"} &&
             (Field(g, decl, "id") == Undefined || Field(g, decl, "id") == Null)) ==> r == Err(TypeError)
    ensures var t, id := TypeOf(g, decl), Field(g, decl, "id");
      var named := id != Undefined && id != Null;
      if t == "TSInterfaceDeclaration" then
        var props := InterfaceProperties(g, Field(g, decl, "body"), fuel);
        && (r.Ok? <==> named && props.Ok?)
        && (r.Ok? ==> r.value == [Interface(NameOf(g, id), props.value)])
      else if t == "TSTypeAliasDeclaration" then
        var def := TypeDefinition(g, Field(g, decl, "typeAnnotation"), fuel);
        && (r.Ok? <==> named && def.Ok?)
        && (r.Ok? ==> r.value == [TypeAlias(NameOf(g, id), def.value)])
      else if t == "FunctionDeclaration" then
        named ==> r == Ok([FunctionExport(NameOf(g, id), false)])
      else if t == "ClassDeclaration" then
        named ==> r == Ok([ClassExport(NameOf(g, id), false)])
      else if t == "VariableDeclaration" then
        var decls := Field(g, decl, "declarations");
        r == (if decls.List? then VariableRecords(g, decls.items) else Err(TypeError))
      else
        r == Ok([])
  {
    var t := TypeOf(g, decl);
    var id := Field(g, decl, "id");
    if t == "TSInterfaceDeclaration" then
      var name :- NameProp(g, id);
      var properties :- InterfaceProperties(g, Field(g, decl, "body"), fuel);
      Ok([Interface(name, properties)])
    else if t == "TSTypeAliasDeclaration" then
      var name :- NameProp(g, id);
      var definition :- TypeDefinition(g, Field(g, decl, "typeAnnotation"), fuel);
      Ok([TypeAlias(name, definition)])
    else if t == "FunctionDeclaration" then
      var name :- NameProp(g, id);
      Ok([FunctionExport(name, false)])
    else if t == "ClassDeclaration" then
      var name :- NameProp(g, id);
      Ok([ClassExport(name, false)])
    else if t == "VariableDeclaration" then
      var items :- Items(Field(g, decl, "declarations"));
      VariableRecords(g, items)
    else Ok([])
  }

  /** An `ExportDefaultDeclaration`: a function or class is named by its id
      or "default"; anything else gives the `default` record. */
  function DefaultRecords(g: Arena, node: Value): (r: seq<TsRecord>)
    ensures |r| <= 1
    ensures forall x :: x in r ==> ((x.FunctionExport? || x.ClassExport?) && x.isDefault) || x.DefaultExport?
    ensures Truthy(Field(g, node, "declaration")) <==> |r| == 1
    ensures var decl := Field(g, node, "declaration");
      var name := if Truthy(Field(g, decl, "id")) then NameOf(g, Field(g, decl, "id")) else Str("default");
      && (Truthy(decl) && TypeOf(g, decl) == "FunctionDeclaration" ==> r == [FunctionExport(name, true)])
      && (Truthy(decl) && TypeOf(g, decl) == "ClassDeclaration" ==> r == [ClassExport(name, true)])
      && (Truthy(decl) && TypeOf(g, decl) !in {"FunctionDeclaration", "ClassDeclaration"} ==> r == [DefaultExport])
  {
    var decl := Field(g, node, "declaration");
    var id := Field(g, decl, "id");
    if !Truthy(decl) then []
    else if TypeOf(g, decl) == "FunctionDeclaration" then
      [FunctionExport(if Truthy(id) then NameOf(g, id) else Str("default"), true)]
    else if TypeOf(g, decl) == "ClassDeclaration" then
      [ClassExport(if Truthy(id) then NameOf(g, id) else Str("default"), true)]
    else [DefaultExport]
  }

  /** The records one call of the inner `traverse` pushes for the node at
      index `i`, or the exception it throws. */
  function NodeRecords(g: Arena, i: nat): (r: Result<seq<TsRecord>, Crash>)
    ensures TypeOf(g, Ref(i)) != "ExportNamedDeclaration" && TypeOf(g, Ref(i)) != "ExportDefaultDeclaration" ==> r == Ok([])
    ensures TypeOf(g, Ref(i)) == "ExportDefaultDeclaration" ==> r == Ok(DefaultRecords(g, Ref(i)))
    ensures TypeOf(g, Ref(i)) == "ExportNamedDeclaration" && r.Ok? ==>
      var decl, specs := Field(g, Ref(i), "declaration"), Field(g, Ref(i), "specifiers");
      && (Truthy(decl) ==> DeclarationRecords(g, decl, |g| + 1).Ok?)
      && (Truthy(specs) ==> specs.List? && SpecifierRecords(g, specs.items).Ok?)
      && r.value == (if Truthy(decl) then DeclarationRecords(g, decl, |g| + 1).value else [])
                    + (if Truthy(specs) && specs.List? then SpecifierRecords(g, specs.items).value else [])
  {
    var node := Ref(i);
    var t := TypeOf(g, node);
    if t == "ExportNamedDeclaration" then
      var decl := Field(g, node, "declaration");
      var fromDecl :- if Truthy(decl) then DeclarationRecords(g, decl, |g| + 1) else Ok([]);
      var specs := Field(g, node, "specifiers");
      var fromSpecs :- if Truthy(specs) then (var items :- Items(specs); SpecifierRecords(g, items)) else Ok([]);
      Ok(fromDecl + fromSpecs)
    else if t == "ExportDefaultDeclaration" then Ok(DefaultRecords(g, node))
    else Ok([])
  }

  function RecordRule(g: Arena): nat -> Result<seq<TsRecord>, Crash> {
    (i: nat) => NodeRecords(g, i)
  }

  /** The keys the inner `traverse` does not descend through. */
  const Skip: set<string> := {"parent"}

  /** `extractExports(ast)`: the records in visiting order, or the
      exception that escapes. */
  function TreeRecords(t: Tree): (r: Result<seq<TsRecord>, Crash>)
    ensures var order := PreOrder(t.arena, t.root, Skip);
      r.Ok? <==> forall k :: 0 <= k < |order| ==> NodeRecords(t.arena, order[k]).Ok?
  {
    Added(RecordRule(t.arena), PreOrder(t.arena, t.root, Skip))
  }

  /** The typescript-estree call: `jsx` is whether the path ends in ".tsx";
      `None` when it throws. */
  type TsParse = (string, bool) -> Option<Tree>

  /** `parse(content, filePath)`: a parse failure or an exception during
      extraction gives []. */
  function Parse(content: string, path: string, parse: TsParse): (r: seq<TsRecord>)
    ensures parse(content, EndsWith(path, ".tsx")).None? ==> r == []
  {
    match parse(content, EndsWith(path, ".tsx"))
    case None => []
    case Some(t) => if TreeRecords(t).Ok? then TreeRecords(t).value else []
  }

  /** `extractExports(ast)` as the closure runs it: the walk pushes onto
      `exports`. */
  method ExtractExports(t: Tree) returns (r: Result<seq<TsRecord>, Crash>)
    ensures r == TreeRecords(t)
  {
    r := Gather(RecordRule(t.arena), t.arena, t.root, Skip);
  }

  /** `TypeScriptParser.parse`. */
  method ParseFile(content: string, path: string, parse: TsParse) returns (records: seq<TsRecord>)
    ensures records == Parse(content, path, parse)
  {
    var ast := parse(content, EndsWith(path, ".tsx"));
    if ast.None? {
      return [];
    }
    var r := ExtractExports(ast.value);
    records := if r.Ok? then r.value else [];
  }

  /** A record is in the result exactly when the visit of some node pushed
      it: nothing is lost or merged. */
  lemma RecordsFromNodes(t: Tree, x: TsRecord)
    requires TreeRecords(t).Ok?
    ensures x in TreeRecords(t).value <==>
      exists k :: 0 <= k < |PreOrder(t.arena, t.root, Skip)| &&
        NodeRecords(t.arena, PreOrder(t.arena, t.root, Skip)[k]).Ok? &&
        x in NodeRecords(t.arena, PreOrder(t.arena, t.root, Skip)[k]).value
  {
    AddedMembers(RecordRule(t.arena), PreOrder(t.arena, t.root, Skip), x);
  }

  /** An interface declaration with a name and a body list holding a keyed
      property signature annotated with an array type whose element has no
      `typeAnnotation` key (a `string[]` property); the other members are
      unconstrained. */
  predicate ArrayPropertyInterface(g: Arena, decl: Value, member: Value) {
    && Truthy(decl) && TypeOf(g, decl) == "TSInterfaceDeclaration"
    && HasName(g, Field(g, decl, "id"))
    && var body := Field(g, decl, "body");
    && Truthy(body) && Field(g, body, "body").List?
    && member in Field(g, body, "body").items
    && TypeOf(g, member) == "TSPropertySignature" && Truthy(Field(g, member, "key"))
    && var ta := Field(g, member, "typeAnnotation");
    && Truthy(ta) && TypeOf(g, Field(g, ta, "typeAnnotation")) == "TSArrayType"
    && var elem := Field(g, Field(g, ta, "typeAnnotation"), "elementType");
    && Truthy(elem) && Field(g, elem, "typeAnnotation") == Undefined
  }

  /** Such an interface throws in `getTypeAnnotation`. */
  lemma ArrayPropertyInterfaceThrows(g: Arena, decl: Value, member: Value, fuel: nat)
    requires fuel >= 2 && ArrayPropertyInterface(g, decl, member)
    ensures Truthy(decl) && DeclarationRecords(g, decl, fuel).Err?
  {
    var body := Field(g, decl, "body");
    var members := Field(g, body, "body").items;
    ArrayElementThrows(g, Field(g, member, "typeAnnotation"), fuel);
    MembersThrow(g, members, member, fuel);
    assert InterfaceProperties(g, body, fuel).Err?;
  }

  /** An exported interface with a `string[]`-style property throws in
      `getTypeAnnotation`, so the whole file yields []. */
  lemma ArrayPropertyEmptiesFile(content: string, path: string, parse: TsParse, k: nat, member: Value)
    requires parse(content, EndsWith(path, ".tsx")).Some?
    requires var t := parse(content, EndsWith(path, ".tsx")).value;
      var order := PreOrder(t.arena, t.root, Skip);
      && k < |order|
      && TypeOf(t.arena, Ref(order[k])) == "ExportNamedDeclaration"
      && ArrayPropertyInterface(t.arena, Field(t.arena, Ref(order[k]), "declaration"), member)
    ensures Parse(content, path, parse) == []
  {
    var t := parse(content, EndsWith(path, ".tsx")).value;
    var g := t.arena;
    var order := PreOrder(g, t.root, Skip);
    NamedArrayPropertyThrows(g, order[k], member);
    assert RecordRule(g)(order[k]).Err?;
  }

  lemma NamedArrayPropertyThrows(g: Arena, i: nat, member: Value)
    requires TypeOf(g, Ref(i)) == "ExportNamedDeclaration"
    requires ArrayPropertyInterface(g, Field(g, Ref(i), "declaration"), member)
    ensures NodeRecords(g, i).Err?
  {
    var decl := Field(g, Ref(i), "declaration");
    assert Truthy(decl) && DeclarationRecords(g, decl, |g| + 1).Err? by {
      ArrayPropertyInterfaceThrows(g, decl, member, |g| + 1);
    }
    NamedDeclarationThrows(g, i);
  }

  /** A named export whose declaration throws throws. */
  lemma NamedDeclarationThrows(g: Arena, i: nat)
    requires TypeOf(g, Ref(i)) == "ExportNamedDeclaration"
    requires var decl := Field(g, Ref(i), "declaration");
      Truthy(decl) && DeclarationRecords(g, decl, |g| + 1).Err?
    ensures NodeRecords(g, i).Err?
  {
  }

  /** One keyed property signature whose annotation throws makes the member
      list throw, whatever the other members are. */
  lemma {:induction false} MembersThrow(g: Arena, members: seq<Value>, member: Value, fuel: nat)
    requires member in members && TypeOf(g, member) == "TSPropertySignature" && Truthy(Field(g, member, "key"))
    requires TypeAnnotation(g, Field(g, member, "typeAnnotation"), fuel).Err?
    ensures MemberRecords(g, members, fuel).Err?
  {
    if members[0] != member {
      MembersThrow(g, members[1..], member, fuel);
    }
  }

  /** An anonymous `export default function () {}` is named "default" here,
      not after the file. */
  lemma AnonymousDefaultFunction()
    ensures var g := [
        Node("ExportDefaultDeclaration", [("declaration", Ref(1))]),
        Node("FunctionDeclaration", [("id", Null)])];
      NodeRecords(g, 0) == Ok([FunctionExport(Str("default"), true)])
  {
    var g := [
      Node("ExportDefaultDeclaration", [("declaration", Ref(1))]),
      Node("FunctionDeclaration", [("id", Null)])];
    assert Field(g, Ref(0), "declaration") == Ref(1);
    assert Field(g, Ref(1), "id") == Null;
  }

  /** The records go to a list, not a Set: two specifiers that export the
      same name give two records. */
  lemma DuplicatesKept(g: Arena, s1: Value, s2: Value)
    requires s1 != Undefined && s1 != Null && s2 != Undefined && s2 != Null
    requires HasName(g, Field(g, s1, "exported")) && NameOf(g, Field(g, s1, "exported")) == Str("a")
    requires HasName(g, Field(g, s2, "exported")) && NameOf(g, Field(g, s2, "exported")) == Str("a")
    ensures SpecifierRecords(g, [s1, s2]) == Ok([Reexport(Str("a")), Reexport(Str("a"))])
  {
    var a := Reexport(Str("a"));
    assert [s1, s2][0] == s1 && [s1, s2][1..] == [s2];
    assert [s2][1..] == [];
    assert SpecifierRecords(g, []) == Ok([]);
    assert SpecifierRecords(g, [s2]) == Ok([a] + []);
    assert [a] + [] == [a] && [a] + [a] == [a, a];
    assert SpecifierRecords(g, [s1, s2]) == Ok([a] + [a]);
  }
}
