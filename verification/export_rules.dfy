/** The export-recognition rules of lib/ast-parser-improved.js
    (`extractExportsFromNode`) and of the inline visitor of
    lib/ast-parser-fixed.js, one node at a time. The two agree on the rule
    set and differ in two ways: the improved one also names TypeScript
    interfaces and type aliases, and it guards every property read of the
    CommonJS forms where the fixed one reads `node.left.type`,
    `node.left.object.name`, `node.left.property.name`, `node.right.type`
    and `prop.key.name` unguarded. */
module ExportRules {
  import opened Wrappers
  import opened Ast
  import opened PathNames
  import AstUtils

  /** The declaration kinds whose `id.name` a named export records. */
  predicate NamedDeclKind(t: string, withTs: bool) {
    t == "FunctionDeclaration" || t == "ClassDeclaration" ||
    (withTs && (t == "TSInterfaceDeclaration" || t == "TSTypeAliasDeclaration"))
  }

  /** `item.key.name` for each item (undefined where `item.key` is not an
      object): the candidates of a loop guarded by `item.key &&
      item.key.name`. */
  function NamesAt(g: Arena, items: seq<Value>, key: string): (r: seq<Value>)
    ensures |r| == |items|
    ensures forall k :: 0 <= k < |items| ==> r[k] == NameOf(g, Field(g, items[k], key))
  {
    if items == [] then [] else [NameOf(g, Field(g, items[0], key))] + NamesAt(g, items[1..], key)
  }

  /** The guard `a && a.name` holds exactly when the name is truthy. */
  lemma HasNameIsTruthyName(g: Arena, v: Value)
    ensures HasName(g, v) <==> Truthy(NameOf(g, v))
  {
  }

  /** The names such a loop records are those of the items whose `key` has
      a truthy name. */
  lemma {:induction false} NamesAtMembers(g: Arena, items: seq<Value>, key: string, x: Value)
    ensures x in AstUtils.Truthies(NamesAt(g, items, key)) <==>
      exists k :: 0 <= k < |items| && HasName(g, Field(g, items[k], key)) && x == NameOf(g, Field(g, items[k], key))
  {
    var names := NamesAt(g, items, key);
    if x in AstUtils.Truthies(names) {
      var k :| 0 <= k < |names| && names[k] == x;
      HasNameIsTruthyName(g, Field(g, items[k], key));
    }
    if exists k :: 0 <= k < |items| && HasName(g, Field(g, items[k], key)) && x == NameOf(g, Field(g, items[k], key)) {
      var k :| 0 <= k < |items| && HasName(g, Field(g, items[k], key)) && x == NameOf(g, Field(g, items[k], key));
      assert names[k] == x;
    }
  }

  /** `declarations.forEach(decl => { if (decl.id && decl.id.name) add })`:
      a null declarator throws at `decl.id`; otherwise the names are the
      declarators' truthy `id.name`s, in declarator order. */
  function DeclaratorNames(g: Arena, items: seq<Value>): (r: Result<seq<Value>, Crash>)
    ensures r.Ok? <==> forall k :: 0 <= k < |items| ==> items[k] != Undefined && items[k] != Null
    ensures r.Ok? ==> r.value == AstUtils.Truthies(NamesAt(g, items, "id"))
  {
    if items == [] then Ok([])
    else
      var id :- Prop(g, items[0], "id");
      var rest :- DeclaratorNames(g, items[1..]);
      HasNameIsTruthyName(g, id);
      assert NamesAt(g, items, "id")[1..] == NamesAt(g, items[1..], "id");
      Ok((if HasName(g, id) then [NameOf(g, id)] else []) + rest)
  }

  /** `specifiers.forEach(spec => { if (spec.exported && spec.exported.name)
      add })`: the exported name (`b` of `a as b`), not the local one. */
  function SpecifierNames(g: Arena, items: seq<Value>): (r: Result<seq<Value>, Crash>)
    ensures r.Ok? <==> forall k :: 0 <= k < |items| ==> items[k] != Undefined && items[k] != Null
    ensures r.Ok? ==> r.value == AstUtils.Truthies(NamesAt(g, items, "exported"))
  {
    if items == [] then Ok([])
    else
      var exported :- Prop(g, items[0], "exported");
      var rest :- SpecifierNames(g, items[1..]);
      HasNameIsTruthyName(g, exported);
      assert NamesAt(g, items, "exported")[1..] == NamesAt(g, items[1..], "exported");
      Ok((if HasName(g, exported) then [NameOf(g, exported)] else []) + rest)
  }

  /** The `node.declaration` branch of a named export: a function or class
      (and, `withTs`, an interface or type alias) records its `id.name`, a
      variable declaration its declarators' names, anything else nothing. */
  function DeclarationNames(g: Arena, decl: Value, withTs: bool): (r: Result<seq<Value>, Crash>)
    ensures r.Ok? ==> forall x :: x in r.value ==> Truthy(x)
    ensures r.Err? <==> (Truthy(decl) && TypeOf(g, decl) == "VariableDeclaration" &&
      (!Field(g, decl, "declarations").List? || DeclaratorNames(g, Field(g, decl, "declarations").items).Err?))
    ensures Truthy(decl) && NamedDeclKind(TypeOf(g, decl), withTs) ==>
      r == Ok(if HasName(g, Field(g, decl, "id")) then [NameOf(g, Field(g, decl, "id"))] else [])
    ensures r.Ok? && Truthy(decl) && TypeOf(g, decl) == "VariableDeclaration" ==>
      Field(g, decl, "declarations").List? &&
      r.value == AstUtils.Truthies(NamesAt(g, Field(g, decl, "declarations").items, "id"))
    ensures !Truthy(decl) || (!NamedDeclKind(TypeOf(g, decl), withTs) && TypeOf(g, decl) != "VariableDeclaration") ==>
      r == Ok([])
  {
    if !Truthy(decl) then Ok([])
    else if NamedDeclKind(TypeOf(g, decl), withTs) then
      var id := Field(g, decl, "id");
      Ok(if HasName(g, id) then [NameOf(g, id)] else [])
    else if TypeOf(g, decl) == "VariableDeclaration" then
      var items :- Items(Field(g, decl, "declarations"));
      DeclaratorNames(g, items)
    else Ok([])
  }

  /** An `ExportNamedDeclaration`: its declaration's names, then its
      specifiers' exported names. A `specifiers` value that is truthy but
      not an array, or holds a null entry, throws. */
  function NamedExportNames(g: Arena, node: Value, withTs: bool): (r: Result<seq<Value>, Crash>)
    ensures r.Ok? ==> forall x :: x in r.value ==> Truthy(x)
    ensures var specs := Field(g, node, "specifiers");
      r.Ok? <==> (DeclarationNames(g, Field(g, node, "declaration"), withTs).Ok? &&
        (Truthy(specs) ==> specs.List? && SpecifierNames(g, specs.items).Ok?))
    ensures var specs := Field(g, node, "specifiers");
      r.Ok? ==> (r.value == DeclarationNames(g, Field(g, node, "declaration"), withTs).value +
        (if Truthy(specs) && specs.List? then AstUtils.Truthies(NamesAt(g, specs.items, "exported")) else []))
  {
    var fromDecl :- DeclarationNames(g, Field(g, node, "declaration"), withTs);
    var specs := Field(g, node, "specifiers");
    var fromSpecs :- if Truthy(specs) then (var items :- Items(specs); SpecifierNames(g, items)) else Ok([]);
    Ok(fromDecl + fromSpecs)
  }

  /** An `ExportDefaultDeclaration`: a function or class with a named id is
      recorded by that name, any other declaration by the capitalised file
      stem, and a missing declaration not at all. */
  function DefaultExportNames(g: Arena, node: Value, path: string): (r: seq<Value>)
    ensures |r| <= 1
    ensures r == [] <==> !Truthy(Field(g, node, "declaration"))
    ensures var decl := Field(g, node, "declaration");
      Truthy(decl) && NamedDeclKind(TypeOf(g, decl), false) && HasName(g, Field(g, decl, "id")) ==>
        r == [NameOf(g, Field(g, decl, "id"))]
    ensures var decl := Field(g, node, "declaration");
      Truthy(decl) && !(NamedDeclKind(TypeOf(g, decl), false) && HasName(g, Field(g, decl, "id"))) ==>
        r == [Str(DefaultExportName(path))]
  {
    var decl := Field(g, node, "declaration");
    if !Truthy(decl) then []
    else if NamedDeclKind(TypeOf(g, decl), false) && HasName(g, Field(g, decl, "id")) then
      [NameOf(g, Field(g, decl, "id"))]
    else [Str(DefaultExportName(path))]
  }

  /** `left && left.type === 'MemberExpression' && left.object &&
      left.object.name === objectName && left.property`. */
  predicate GuardedMember(g: Arena, left: Value, objectName: string) {
    Truthy(left) && TypeOf(g, left) == "MemberExpression" &&
    Truthy(Field(g, left, "object")) && NameOf(g, Field(g, left, "object")) == Str(objectName) &&
    Truthy(Field(g, left, "property"))
  }

  /** For each entry of an object literal, its `key.name` when it is a
      `Property` and undefined otherwise (a spread element, say). */
  function PropertyKeys(g: Arena, items: seq<Value>): (r: seq<Value>)
    ensures |r| == |items|
    ensures forall k :: 0 <= k < |items| ==>
      r[k] == if TypeOf(g, items[k]) == "Property" then NameOf(g, Field(g, items[k], "key")) else Undefined
  {
    if items == [] then []
    else
      [if TypeOf(g, items[0]) == "Property" then NameOf(g, Field(g, items[0], "key")) else Undefined]
      + PropertyKeys(g, items[1..])
  }

  /** The keys recorded are those of the `Property` entries whose key has a
      truthy name. */
  lemma {:induction false} PropertyKeysMembers(g: Arena, items: seq<Value>, x: Value)
    ensures x in AstUtils.Truthies(PropertyKeys(g, items)) <==>
      exists k :: 0 <= k < |items| && TypeOf(g, items[k]) == "Property" &&
        HasName(g, Field(g, items[k], "key")) && x == NameOf(g, Field(g, items[k], "key"))
  {
    var keys := PropertyKeys(g, items);
    if x in AstUtils.Truthies(keys) {
      var k :| 0 <= k < |keys| && keys[k] == x;
      HasNameIsTruthyName(g, Field(g, items[k], "key"));
    }
    if exists k :: 0 <= k < |items| && TypeOf(g, items[k]) == "Property" &&
         HasName(g, Field(g, items[k], "key")) && x == NameOf(g, Field(g, items[k], "key")) {
      var k :| 0 <= k < |items| && TypeOf(g, items[k]) == "Property" &&
        HasName(g, Field(g, items[k], "key")) && x == NameOf(g, Field(g, items[k], "key"));
      assert keys[k] == x;
    }
  }

  /** `properties.forEach(prop => { if (prop.type === 'Property' && prop.key
      && prop.key.name) add })`: a null entry throws at `prop.type`;
      otherwise the names are the `Property` entries' truthy key names, in
      entry order. */
  function GuardedKeyNames(g: Arena, items: seq<Value>): (r: Result<seq<Value>, Crash>)
    ensures r.Ok? <==> forall k :: 0 <= k < |items| ==> items[k] != Undefined && items[k] != Null
    ensures r.Ok? ==> r.value == AstUtils.Truthies(PropertyKeys(g, items))
  {
    if items == [] then Ok([])
    else
      var t :- Type(g, items[0]);
      var key := Field(g, items[0], "key");
      var rest :- GuardedKeyNames(g, items[1..]);
      HasNameIsTruthyName(g, key);
      assert PropertyKeys(g, items)[1..] == PropertyKeys(g, items[1..]);
      Ok((if t == "Property" && HasName(g, key) then [NameOf(g, key)] else []) + rest)
  }

  /** The same loop with `prop.key.name` read unguarded: a `Property` entry
      without a key throws as well. */
  function UnguardedKeyNames(g: Arena, items: seq<Value>): (r: Result<seq<Value>, Crash>)
    ensures r.Ok? ==> forall x :: x in r.value ==> Truthy(x)
    ensures r.Ok? ==> r == GuardedKeyNames(g, items)
  {
    if items == [] then Ok([])
    else
      var t :- Type(g, items[0]);
      var name :- if t == "Property" then NameProp(g, Field(g, items[0], "key")) else Ok(Undefined);
      var rest :- UnguardedKeyNames(g, items[1..]);
      Ok((if t == "Property" && Truthy(name) then [name] else []) + rest)
  }

  /** The left and right of `module.exports = { ... }`, every read
      guarded. */
  predicate AssignsModuleObject(g: Arena, left: Value, right: Value) {
    GuardedMember(g, left, "module") && NameOf(g, Field(g, left, "property")) == Str("exports")
    && Truthy(right) && TypeOf(g, right) == "ObjectExpression"
  }

  /** The two CommonJS forms of an `AssignmentExpression`, every read
      guarded: `module.exports = { a, b }` records the `Property` keys, and
      `exports.x = ...` records `x`. The two forms exclude each other, so a
      node records the names of one of them. */
  function GuardedCommonJsNames(g: Arena, node: Value): (r: Result<seq<Value>, Crash>)
    ensures r.Ok? ==> forall x :: x in r.value ==> Truthy(x)
    ensures var left, right := Field(g, node, "left"), Field(g, node, "right");
      r.Ok? <==> GuardedModuleExports(g, left, right).Ok?
    ensures var left, right := Field(g, node, "left"), Field(g, node, "right");
      r.Ok? && AssignsModuleObject(g, left, right) ==> r.value == GuardedModuleExports(g, left, right).value
    ensures var left, right := Field(g, node, "left"), Field(g, node, "right");
      r.Ok? && !AssignsModuleObject(g, left, right) ==> r.value == GuardedPropertyExport(g, left)
  {
    var left, right := Field(g, node, "left"), Field(g, node, "right");
    var fromObject :- GuardedModuleExports(g, left, right);
    Ok(fromObject + GuardedPropertyExport(g, left))
  }

  /** `module.exports = { a, b }`: the `Property` keys of the object, in
      entry order; a `properties` value that is not an array, or a null
      entry, throws. Any other assignment records nothing. */
  function GuardedModuleExports(g: Arena, left: Value, right: Value): (r: Result<seq<Value>, Crash>)
    ensures r.Ok? ==> forall x :: x in r.value ==> Truthy(x)
    ensures !AssignsModuleObject(g, left, right) ==> r == Ok([])
    ensures var props := Field(g, right, "properties");
      AssignsModuleObject(g, left, right) ==>
        (r.Ok? <==> props.List? && forall k :: 0 <= k < |props.items| ==> props.items[k] != Undefined && props.items[k] != Null)
    ensures var props := Field(g, right, "properties");
      r.Ok? && AssignsModuleObject(g, left, right) ==>
        props.List? && r.value == AstUtils.Truthies(PropertyKeys(g, props.items))
  {
    if AssignsModuleObject(g, left, right)
    then (var items :- Items(Field(g, right, "properties")); GuardedKeyNames(g, items))
    else Ok([])
  }

  /** `exports.x = ...`: the name `x` when it is truthy, and nothing for any
      other assignment. */
  function GuardedPropertyExport(g: Arena, left: Value): (r: seq<Value>)
    ensures forall x :: x in r ==> Truthy(x)
    ensures r != [] <==> GuardedMember(g, left, "exports") && Truthy(NameOf(g, Field(g, left, "property")))
    ensures r != [] ==> r == [NameOf(g, Field(g, left, "property"))]
  {
    if GuardedMember(g, left, "exports") && Truthy(NameOf(g, Field(g, left, "property")))
    then [NameOf(g, Field(g, left, "property"))] else []
  }

  /** `module.exports = { ... }` with `node.right.type` read unguarded: a
      null or undefined right side throws, an object literal records its
      `Property` keys as the guarded loop does, anything else nothing. */
  function UnguardedObjectNames(g: Arena, right: Value): (r: Result<seq<Value>, Crash>)
    ensures r.Ok? ==> forall x :: x in r.value ==> Truthy(x)
    ensures (right == Undefined || right == Null) ==> r.Err?
    ensures r.Err? ==> right == Undefined || right == Null || TypeOf(g, right) == "ObjectExpression"
    ensures r.Ok? && TypeOf(g, right) == "ObjectExpression" ==>
      Field(g, right, "properties").List? &&
      r.value == AstUtils.Truthies(PropertyKeys(g, Field(g, right, "properties").items))
    ensures r.Ok? && TypeOf(g, right) != "ObjectExpression" ==> r.value == []
  {
    var rt :- Type(g, right);
    if rt == "ObjectExpression" then
      var items :- Items(Field(g, right, "properties"));
      UnguardedKeyNames(g, items)
    else Ok([])
  }

  /** The CommonJS forms as the fixed variant reads them: `node.left.type`,
      `node.left.object.name` and, once the object is `module` or
      `exports`, `node.left.property.name` throw on null or undefined. */
  function UnguardedCommonJsNames(g: Arena, node: Value): (r: Result<seq<Value>, Crash>)
    ensures r.Ok? ==> forall x :: x in r.value ==> Truthy(x)
    ensures r.Ok? ==> r == GuardedCommonJsNames(g, node)
  {
    var left, right := Field(g, node, "left"), Field(g, node, "right");
    var lt :- Type(g, left);
    if lt != "MemberExpression" then
      var none: seq<Value> := [];
      assert GuardedCommonJsNames(g, node) == Ok(none + none) && none + none == none;
      Ok(none)
    else
      var objectName :- NameProp(g, Field(g, left, "object"));
      var fromObject :-
        if objectName == Str("module") then
          (var propertyName :- NameProp(g, Field(g, left, "property"));
           if propertyName == Str("exports") then UnguardedObjectNames(g, right) else Ok([]))
        else Ok([]);
      assert GuardedModuleExports(g, left, right) == Ok(fromObject) by {
        var propertyName := NameOf(g, Field(g, left, "property"));
        if objectName == Str("module") && propertyName == Str("exports") {
          assert Field(g, left, "object").Ref? && Field(g, left, "property").Ref?;
          assert GuardedMember(g, left, "module");
        } else {
          assert !(GuardedMember(g, left, "module") && propertyName == Str("exports"));
        }
      }
      var fromProperty :-
        if objectName == Str("exports") then
          (var propertyName :- NameProp(g, Field(g, left, "property"));
           Ok(if Truthy(propertyName) then [propertyName] else []))
        else Ok([]);
      assert GuardedPropertyExport(g, left) == fromProperty;
      Ok(fromObject + fromProperty)
  }

  /** `module.exports = { generateUserId, createUser: ..., ...extra }`
      (the shape of test-samples/user.js): both readings record exactly the
      two `Property` keys, in order, and skip the spread element. */
  lemma ModuleExportsObjectKeys(g: Arena, node: Value, p: Value, q: Value, spread: Value)
    requires AssignsModuleObject(g, Field(g, node, "left"), Field(g, node, "right"))
    requires Field(g, Field(g, node, "right"), "properties") == List([p, q, spread])
    requires TypeOf(g, p) == "Property" && HasName(g, Field(g, p, "key"))
    requires TypeOf(g, q) == "Property" && HasName(g, Field(g, q, "key"))
    requires TypeOf(g, spread) == "SpreadElement"
    ensures GuardedCommonJsNames(g, node) == Ok([NameOf(g, Field(g, p, "key")), NameOf(g, Field(g, q, "key"))])
    ensures UnguardedObjectNames(g, Field(g, node, "right")) == GuardedCommonJsNames(g, node)
  {
    KeyLoopWithSpread(g, p, q, spread);
    assert GuardedPropertyExport(g, Field(g, node, "left")) == [];
  }

  lemma KeyLoopWithSpread(g: Arena, p: Value, q: Value, spread: Value)
    requires TypeOf(g, p) == "Property" && HasName(g, Field(g, p, "key"))
    requires TypeOf(g, q) == "Property" && HasName(g, Field(g, q, "key"))
    requires TypeOf(g, spread) == "SpreadElement"
    ensures GuardedKeyNames(g, [p, q, spread]) == Ok([NameOf(g, Field(g, p, "key")), NameOf(g, Field(g, q, "key"))])
    ensures UnguardedKeyNames(g, [p, q, spread]).Ok?
  {
    var items := [p, q, spread];
    var a, b := NameOf(g, Field(g, p, "key")), NameOf(g, Field(g, q, "key"));
    assert items[1..] == [q, spread];
    PropertyThenSpread(g, q, spread);
    KeyNamesCons(g, items);
    assert [a] + [b] == [a, b];
    UnguardedKeyCons(g, items);
  }

  /** The unguarded loop gets past an entry whose key it can read. */
  lemma UnguardedKeyCons(g: Arena, items: seq<Value>)
    requires items != [] && items[0] != Undefined && items[0] != Null
    requires TypeOf(g, items[0]) == "Property" ==> HasName(g, Field(g, items[0], "key"))
    requires UnguardedKeyNames(g, items[1..]).Ok?
    ensures UnguardedKeyNames(g, items).Ok?
  {
  }

  lemma PropertyThenSpread(g: Arena, q: Value, spread: Value)
    requires TypeOf(g, q) == "Property" && HasName(g, Field(g, q, "key"))
    requires TypeOf(g, spread) == "SpreadElement"
    ensures GuardedKeyNames(g, [q, spread]) == Ok([NameOf(g, Field(g, q, "key"))])
    ensures UnguardedKeyNames(g, [q, spread]).Ok?
  {
    var none: seq<Value> := [];
    assert [q, spread][1..] == [spread];
    assert GuardedKeyNames(g, [spread]) == Ok(none);
    assert UnguardedKeyNames(g, [spread]).Ok?;
    KeyNamesCons(g, [q, spread]);
    assert [NameOf(g, Field(g, q, "key"))] + none == [NameOf(g, Field(g, q, "key"))];
  }

  /** One entry of the guarded key loop. */
  lemma KeyNamesCons(g: Arena, items: seq<Value>)
    requires items != [] && items[0] != Undefined && items[0] != Null
    ensures var key := Field(g, items[0], "key");
      GuardedKeyNames(g, items) ==
        if GuardedKeyNames(g, items[1..]).Err? then GuardedKeyNames(g, items[1..])
        else Ok((if TypeOf(g, items[0]) == "Property" && HasName(g, key) then [NameOf(g, key)] else [])
                + GuardedKeyNames(g, items[1..]).value)
  {
  }
}
