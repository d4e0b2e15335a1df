/** lib/parsers/jsx-parser.js: `JSXParser.extractComponents` walks a
    @babel/parser tree, pushes a component record for each exported function
    whose body returns JSX, and lets `export { X }` mark a record already
    found as a named export. Every record has `type: 'component'` and
    `componentType: 'function'`; those constant keys are left implicit. */
module JsxParser {
  import opened Wrappers
  import opened Ast
  import opened Walker

  datatype ExportKind = Named | Default

  /** `{name, type}` for one destructured prop; `type` is always what
      `getTypeFromAnnotation` or the fallback gives: "unknown". */
  datatype PropInfo = PropInfo(name: Value, typ: string)

  datatype Component = Component(name: Value, exported: bool, exportType: ExportKind, props: seq<PropInfo>)

  /** `{name, kind}` for one class method. */
  datatype MethodInfo = MethodInfo(name: Value, kind: Value)

  /** The node kinds `checkNode` looks into. */
  predicate JsxRelevant(t: string) {
    t in {"JSXElement", "JSXFragment", "ReturnStatement", "BlockStatement", "ConditionalExpression", "LogicalExpression"}
  }

  /** `checkNode(node)` inside `returnsJSX`. `fuel` bounds the recursion
      depth (running out is the stack overflow of a cycle). */
  function Check(g: Arena, node: Value, fuel: nat): (r: Result<bool, Crash>)
    ensures fuel > 0 && !Truthy(node) ==> r == Ok(false)
    ensures fuel > 0 && Truthy(node) && TypeOf(g, node) in {"JSXElement", "JSXFragment"} ==> r == Ok(true)
    ensures fuel > 0 && Truthy(node) && !JsxRelevant(TypeOf(g, node)) ==> r == Ok(false)
    ensures r == Ok(true) ==> Truthy(node) && JsxRelevant(TypeOf(g, node))
    ensures fuel > 0 && Truthy(node) && TypeOf(g, node) == "ReturnStatement" ==>
      r == Check(g, Field(g, node, "argument"), fuel - 1)
    ensures fuel > 0 && Truthy(node) && TypeOf(g, node) in {"ConditionalExpression", "LogicalExpression"} ==>
      var (a, b) := if TypeOf(g, node) == "ConditionalExpression" then ("consequent", "alternate") else ("left", "right");
      (r == Ok(true) <==>
         (Check(g, Field(g, node, a), fuel - 1) == Ok(true) ||
          (Check(g, Field(g, node, a), fuel - 1) == Ok(false) && Check(g, Field(g, node, b), fuel - 1) == Ok(true))))
    ensures fuel > 0 && Truthy(node) && TypeOf(g, node) == "BlockStatement" && r.Ok? ==>
      Field(g, node, "body").List? &&
      (r.value <==> exists k :: 0 <= k < |Field(g, node, "body").items| && Check(g, Field(g, node, "body").items[k], fuel - 1) == Ok(true))
    decreases fuel, 0
  {
    if fuel == 0 then Err(StackOverflow)
    else if !Truthy(node) then Ok(false)
    else
      var t := TypeOf(g, node);
      if t == "JSXElement" || t == "JSXFragment" then Ok(true)
      else if t == "ReturnStatement" then Check(g, Field(g, node, "argument"), fuel - 1)
      else if t == "BlockStatement" then
        var stmts :- Items(Field(g, node, "body"));
        CheckSome(g, stmts, fuel - 1)
      else if t == "ConditionalExpression" then
        var c :- Check(g, Field(g, node, "consequent"), fuel - 1);
        if c then Ok(true) else Check(g, Field(g, node, "alternate"), fuel - 1)
      else if t == "LogicalExpression" then
        var c :- Check(g, Field(g, node, "left"), fuel - 1);
        if c then Ok(true) else Check(g, Field(g, node, "right"), fuel - 1)
      else Ok(false)
  }

  /** `body.some(stmt => checkNode(stmt))`: stops at the first statement that
      qualifies. */
  function CheckSome(g: Arena, stmts: seq<Value>, fuel: nat): (r: Result<bool, Crash>)
    ensures r == Ok(true) ==> exists k :: 0 <= k < |stmts| && Check(g, stmts[k], fuel) == Ok(true)
    ensures r == Ok(false) ==> forall k :: 0 <= k < |stmts| ==> Check(g, stmts[k], fuel) == Ok(false)
    ensures ((exists k :: 0 <= k < |stmts| && Check(g, stmts[k], fuel) == Ok(true)) &&
             (forall k :: 0 <= k < |stmts| ==> Check(g, stmts[k], fuel).Ok?)) ==> r == Ok(true)
    decreases fuel, 1, |stmts|
  {
    if stmts == [] then Ok(false)
    else
      var c :- Check(g, stmts[0], fuel);
      if c then Ok(true)
      else
        var rest := CheckSome(g, stmts[1..], fuel);
        assert forall k :: 1 <= k < |stmts| ==> stmts[k] == stmts[1..][k - 1];
        rest
  }

  /** `returnsJSX(body)`. */
  function ReturnsJsx(g: Arena, body: Value): (r: Result<bool, Crash>)
    ensures !Truthy(body) ==> r == Ok(false)
  {
    Check(g, body, |g| + 1)
  }

  /** A `return <div/>` inside an `if` is not seen: only the direct
      statements of a block are looked into. */
  lemma NestedReturnNotSeen()
    ensures ReturnsJsx(NestedReturn(), Ref(0)) == Ok(false)
  {
    var g := NestedReturn();
    assert Field(g, Ref(0), "body") == List([Ref(1)]);
    assert TypeOf(g, Ref(1)) == "IfStatement";
    assert Check(g, Ref(1), 5) == Ok(false);
    assert CheckSome(g, [Ref(1)], 5) == Ok(false);
  }

  /** The same return directly in a block is seen. */
  lemma DirectReturnSeen()
    ensures ReturnsJsx(NestedReturn(), Ref(2)) == Ok(true)
  {
    var g := NestedReturn();
    assert Field(g, Ref(2), "body") == List([Ref(3)]);
    assert Field(g, Ref(3), "argument") == Ref(4);
    assert Check(g, Ref(4), 4) == Ok(true);
    assert Check(g, Ref(3), 5) == Ok(true);
    assert CheckSome(g, [Ref(3)], 5) == Ok(true);
  }

  /** `{ if (c) { return <div/>; } }`. */
  function NestedReturn(): Arena {
    [Node("BlockStatement", [("body", List([Ref(1)]))]),
     Node("IfStatement", [("consequent", Ref(2))]),
     Node("BlockStatement", [("body", List([Ref(3)]))]),
     Node("ReturnStatement", [("argument", Ref(4))]),
     Node("JSXElement", [])]
  }

  /** `firstParam.properties.map(prop => ({ name: prop.key.name, type }))`:
      a null entry or one without a key (a rest element) throws. */
  function PropInfos(g: Arena, props: seq<Value>): (r: Result<seq<PropInfo>, Crash>)
    ensures r.Ok? ==> |r.value| == |props|
    ensures r.Ok? ==> forall k :: 0 <= k < |props| ==>
      r.value[k] == PropInfo(NameOf(g, Field(g, props[k], "key")), "unknown")
    ensures r.Ok? <==> forall k :: 0 <= k < |props| ==>
      props[k] != Undefined && props[k] != Null &&
      Field(g, props[k], "key") != Undefined && Field(g, props[k], "key") != Null
  {
    if props == [] then Ok([])
    else
      var key :- Prop(g, props[0], "key");
      var name :- NameProp(g, key);
      var rest :- PropInfos(g, props[1..]);
      assert forall k :: 1 <= k < |props| ==> props[k] == props[1..][k - 1];
      Ok([PropInfo(name, "unknown")] + rest)
  }

  /** `params[0]` and `params.length` for the shapes a value can have: an
      array, a string (its first character), or an object read through
      its "length" and "0" keys. A number or boolean has no `length`, so
      `params[0]` is undefined. */
  function FirstParam(g: Arena, params: Value): (r: Option<Value>)
    requires Truthy(params)
    ensures params.List? ==> (r.None? <==> params.items == []) && (r.Some? ==> r.value == params.items[0])
  {
    match params
    case List(items) => if items == [] then None else Some(items[0])
    case Str(s) => Some(Str([s[0]]))
    case Ref(_) => if Field(g, params, "length") == Num(0) then None else Some(Field(g, params, "0"))
    case _ => Some(Undefined)
  }

  /** `extractProps(params)`: the destructured names of an object-pattern
      first parameter, [] for any other first parameter. */
  function ExtractProps(g: Arena, params: Value): (r: Result<seq<PropInfo>, Crash>)
    ensures !Truthy(params) || params == List([]) ==> r == Ok([])
    ensures r.Ok? ==> forall p :: p in r.value ==> p.typ == "unknown"
    ensures (params.List? && params.items != [] && params.items[0] != Undefined && params.items[0] != Null &&
             TypeOf(g, params.items[0]) != "ObjectPattern") ==> r == Ok([])
  {
    if !Truthy(params) then Ok([])
    else match FirstParam(g, params)
      case None => Ok([])
      case Some(first) =>
        var t :- Type(g, first);
        if t == "ObjectPattern" then
          var props :- Items(Field(g, first, "properties"));
          PropInfos(g, props)
        else Ok([])
  }

  /** A rest element (`{ a, ...rest }`) has no `key`: the props read throws,
      and with it the whole file. */
  lemma RestPropThrows(g: Arena, props: seq<Value>, k: nat)
    requires k < |props| && props[k] != Undefined && props[k] != Null && Field(g, props[k], "key") == Undefined
    ensures PropInfos(g, props).Err?
  {
  }

  /** `extendsReactComponent(node)`. */
  function ExtendsReactComponent(g: Arena, node: Value): (r: Result<bool, Crash>)
    ensures node == Undefined || node == Null ==> r == Err(TypeError)
    ensures r == Ok(true) <==>
      node != Undefined && node != Null &&
      var sc := Field(g, node, "superClass");
      Truthy(sc) &&
      ((TypeOf(g, sc) == "Identifier" && NameOf(g, sc) in {Str("Component"), Str("PureComponent")}) ||
       (TypeOf(g, sc) == "MemberExpression" && NameOf(g, Field(g, sc, "object")) == Str("React") &&
        Field(g, sc, "property") != Undefined && Field(g, sc, "property") != Null &&
        NameOf(g, Field(g, sc, "property")) in {Str("Component"), Str("PureComponent")}))
  {
    var sc :- Prop(g, node, "superClass");
    if !Truthy(sc) then Ok(false)
    else if TypeOf(g, sc) == "Identifier" then
      Ok(NameOf(g, sc) == Str("Component") || NameOf(g, sc) == Str("PureComponent"))
    else if TypeOf(g, sc) == "MemberExpression" then
      var objectName :- NameProp(g, Field(g, sc, "object"));
      if objectName != Str("React") then Ok(false)
      else
        var propertyName :- NameProp(g, Field(g, sc, "property"));
        Ok(propertyName == Str("Component") || propertyName == Str("PureComponent"))
    else Ok(false)
  }

  /** The members of a class body that are method definitions, in order. */
  function MethodMembers(g: Arena, members: seq<Value>): (r: seq<Value>)
    ensures |r| <= |members|
    ensures forall m :: m in r <==> m in members && TypeOf(g, m) == "MethodDefinition"
  {
    if members == [] then []
    else (if TypeOf(g, members[0]) == "MethodDefinition" then [members[0]] else []) + MethodMembers(g, members[1..])
  }

  /** `classBody.body.filter(m => m.type === 'MethodDefinition').map(...)`:
      entry k is the k-th method definition's `key.name` and `kind`. The
      filter throws on a null member, the map on a method without a key. */
  function ClassMethods(g: Arena, members: seq<Value>): (r: Result<seq<MethodInfo>, Crash>)
    ensures r.Ok? <==> forall k :: 0 <= k < |members| ==>
      members[k] != Undefined && members[k] != Null &&
      (TypeOf(g, members[k]) == "MethodDefinition" ==>
         Field(g, members[k], "key") != Undefined && Field(g, members[k], "key") != Null)
    ensures r.Ok? ==> var methods := MethodMembers(g, members);
      |r.value| == |methods| &&
      forall k :: 0 <= k < |methods| ==>
        r.value[k] == MethodInfo(NameOf(g, Field(g, methods[k], "key")), Field(g, methods[k], "kind"))
  {
    if members == [] then Ok([])
    else
      var t :- Type(g, members[0]);
      var head :-
        if t == "MethodDefinition" then
          (var name :- NameProp(g, Field(g, members[0], "key"));
           Ok([MethodInfo(name, Field(g, members[0], "kind"))]))
        else Ok([]);
      var rest :- ClassMethods(g, members[1..]);
      assert forall k :: 1 <= k < |members| ==> members[k] == members[1..][k - 1];
      Ok(head + rest)
  }

  /** `extractClassMethods(classBody)`: [] without a body, otherwise the
      method definitions of the body as `ClassMethods` lists them; a body
      that is not an array throws. */
  function ExtractClassMethods(g: Arena, classBody: Value): (r: Result<seq<MethodInfo>, Crash>)
    ensures classBody == Undefined || classBody == Null ==> r == Err(TypeError)
    ensures classBody != Undefined && classBody != Null && !Truthy(Field(g, classBody, "body")) ==> r == Ok([])
    ensures Truthy(Field(g, classBody, "body")) && !Field(g, classBody, "body").List? ==> r == Err(TypeError)
    ensures r.Ok? && Truthy(Field(g, classBody, "body")) ==>
      var methods := MethodMembers(g, Field(g, classBody, "body").items);
      |r.value| == |methods| &&
      forall k :: 0 <= k < |methods| ==>
        r.value[k] == MethodInfo(NameOf(g, Field(g, methods[k], "key")), Field(g, methods[k], "kind"))
  {
    var body :- Prop(g, classBody, "body");
    if !Truthy(body) then Ok([])
    else
      var members :- Items(body);
      ClassMethods(g, members)
  }

  /** `getComponentName(node)`. */
  function GetComponentName(g: Arena, node: Value): (r: Result<Value, Crash>)
    ensures r.Err? <==> node == Undefined || node == Null
    ensures r.Ok? && (TypeOf(g, node) != "FunctionDeclaration" || !Truthy(Field(g, node, "id"))) ==> r.value == Str("Anonymous")
    ensures r.Ok? && TypeOf(g, node) == "FunctionDeclaration" && Truthy(Field(g, node, "id")) ==>
      r.value == NameOf(g, Field(g, node, "id"))
  {
    var t :- Type(g, node);
    if t == "FunctionDeclaration" then
      Ok(if Truthy(Field(g, node, "id")) then NameOf(g, Field(g, node, "id")) else Str("Anonymous"))
    else Ok(Str("Anonymous"))
  }

  /** A declarator `X = () => ...` or `X = function () {...}` whose body
      returns JSX. */
  predicate JsxDeclarator(g: Arena, d: Value) {
    var init := Field(g, d, "init");
    Truthy(init) && TypeOf(g, init) in {"ArrowFunctionExpression", "FunctionExpression"} &&
    ReturnsJsx(g, Field(g, init, "body")) == Ok(true)
  }

  /** The declarators that become components, in order. */
  function JsxDeclarators(g: Arena, decls: seq<Value>): (r: seq<Value>)
    ensures |r| <= |decls|
    ensures forall d :: d in r <==> d in decls && JsxDeclarator(g, d)
  {
    if decls == [] then []
    else (if JsxDeclarator(g, decls[0]) then [decls[0]] else []) + JsxDeclarators(g, decls[1..])
  }

  /** The component record for a function named `name` with parameters
      `params`, when extracting the props does not throw. */
  predicate ComponentOf(g: Arena, c: Component, name: Value, params: Value, kind: ExportKind) {
    c.name == name && c.exported && c.exportType == kind && ExtractProps(g, params) == Ok(c.props)
  }

  /** The components of `export const X = () => ...` declarators: record k
      belongs to the k-th declarator whose init is an arrow or function
      expression whose body returns JSX, named by its `id.name` and with
      the props of its parameters. */
  function DeclaratorComponents(g: Arena, decls: seq<Value>): (r: Result<seq<Component>, Crash>)
    ensures r.Ok? ==> forall c :: c in r.value ==> c.exported && c.exportType == Named
    ensures r.Ok? ==> var jsx := JsxDeclarators(g, decls);
      |r.value| == |jsx| &&
      forall k :: 0 <= k < |jsx| ==>
        ComponentOf(g, r.value[k], NameOf(g, Field(g, jsx[k], "id")), Field(g, Field(g, jsx[k], "init"), "params"), Named)
  {
    if decls == [] then Ok([])
    else
      var d := decls[0];
      var init :- Prop(g, d, "init");
      var qualifies :-
        if Truthy(init) && TypeOf(g, init) in {"ArrowFunctionExpression", "FunctionExpression"}
        then ReturnsJsx(g, Field(g, init, "body")) else Ok(false);
      var head :-
        if qualifies then
          (var name :- NameProp(g, Field(g, d, "id"));
           var props :- ExtractProps(g, Field(g, init, "params"));
           Ok([Component(name, true, Named, props)]))
        else Ok([]);
      var rest :- DeclaratorComponents(g, decls[1..]);
      assert qualifies <==> JsxDeclarator(g, d);
      DeclaratorsAppend(g, if qualifies then [d] else [], JsxDeclarators(g, decls[1..]), head, rest);
      Ok(head + rest)
  }

  /** The declarator components of a first run of declarators and the
      rest, stated pointwise. */
  lemma DeclaratorsAppend(g: Arena, hd: seq<Value>, tl: seq<Value>, hc: seq<Component>, tc: seq<Component>)
    requires |hc| == |hd| && |tc| == |tl|
    requires forall k :: 0 <= k < |hd| ==>
      ComponentOf(g, hc[k], NameOf(g, Field(g, hd[k], "id")), Field(g, Field(g, hd[k], "init"), "params"), Named)
    requires forall k :: 0 <= k < |tl| ==>
      ComponentOf(g, tc[k], NameOf(g, Field(g, tl[k], "id")), Field(g, Field(g, tl[k], "init"), "params"), Named)
    ensures forall k :: 0 <= k < |hd + tl| ==>
      ComponentOf(g, (hc + tc)[k], NameOf(g, Field(g, (hd + tl)[k], "id")), Field(g, Field(g, (hd + tl)[k], "init"), "params"), Named)
  {
  }

  /** The components of a named export's declaration: a function
      declaration gives one exactly when its body returns JSX, named by its
      `id.name`; a variable declaration gives its declarators' components. */
  function DeclarationComponents(g: Arena, decl: Value): (r: Result<seq<Component>, Crash>)
    requires Truthy(decl)
    ensures r.Ok? ==> forall c :: c in r.value ==> c.exported && c.exportType == Named
    ensures TypeOf(g, decl) !in {"FunctionDeclaration", "VariableDeclaration"} ==> r == Ok([])
    ensures TypeOf(g, decl) == "FunctionDeclaration" && r.Ok? ==>
      && ReturnsJsx(g, Field(g, decl, "body")).Ok?
      && (r.value != [] <==> ReturnsJsx(g, Field(g, decl, "body")) == Ok(true))
      && (r.value != [] ==>
            |r.value| == 1 &&
            ComponentOf(g, r.value[0], NameOf(g, Field(g, decl, "id")), Field(g, decl, "params"), Named))
    ensures TypeOf(g, decl) == "VariableDeclaration" && r.Ok? ==>
      Field(g, decl, "declarations").List? && r == DeclaratorComponents(g, Field(g, decl, "declarations").items)
  {
    var t := TypeOf(g, decl);
    if t == "FunctionDeclaration" then
      var jsx :- ReturnsJsx(g, Field(g, decl, "body"));
      if jsx then
        var name :- NameProp(g, Field(g, decl, "id"));
        var props :- ExtractProps(g, Field(g, decl, "params"));
        Ok([Component(name, true, Named, props)])
      else Ok([])
    else if t == "VariableDeclaration" then
      var decls :- Items(Field(g, decl, "declarations"));
      DeclaratorComponents(g, decls)
    else Ok([])
  }

  /** The index `components.find(c => c.name === name)` returns. */
  function FindByName(comps: seq<Component>, name: Value): (r: Option<nat>)
    ensures r.Some? ==> (r.value < |comps| && comps[r.value].name == name &&
                         forall k :: 0 <= k < r.value ==> comps[k].name != name)
    ensures r.None? ==> forall k :: 0 <= k < |comps| ==> comps[k].name != name
  {
    if comps == [] then None
    else if comps[0].name == name then Some(0)
    else
      var rest := FindByName(comps[1..], name);
      if rest.Some? then Some(rest.value + 1) else None
  }

  /** `existingComponent.exported = true; existingComponent.exportType =
      'named'`. */
  function MarkNamed(c: Component): Component {
    c.(exported := true, exportType := Named)
  }

  /** Record k is the first one named like the local name of one of the
      specifiers. */
  predicate Marked(g: Arena, comps: seq<Component>, specs: seq<Value>, k: nat) {
    exists j :: 0 <= j < |specs| && FindByName(comps, NameOf(g, Field(g, specs[j], "local"))) == Some(k)
  }

  /** `find` looks at names only. */
  lemma {:induction false} FindBySameNames(a: seq<Component>, b: seq<Component>, name: Value)
    requires |a| == |b| && forall k :: 0 <= k < |a| ==> a[k].name == b[k].name
    ensures FindByName(a, name) == FindByName(b, name)
  {
    if a != [] {
      FindBySameNames(a[1..], b[1..], name);
    }
  }

  /** The `specifiers.forEach(...)` pass: each specifier marks the first
      record named like its local name (`X` of `export { X as Y }`), and no
      other record changes. The `find` callback, and with it the read of
      `spec.local.name`, only runs when there are records. */
  function MarkSpecifiers(g: Arena, comps: seq<Component>, specs: seq<Value>): (r: Result<seq<Component>, Crash>)
    ensures comps == [] ==> r == Ok([])
    ensures r.Ok? ==> |r.value| == |comps|
    ensures r.Ok? ==> forall k :: 0 <= k < |comps| ==>
      r.value[k] == if Marked(g, comps, specs, k) then MarkNamed(comps[k]) else comps[k]
    decreases |specs|
  {
    if specs == [] || comps == [] then Ok(comps)
    else
      var local :- Prop(g, specs[0], "local");
      var name :- NameProp(g, local);
      var found := FindByName(comps, name);
      var marked := if found.Some? then comps[found.value := MarkNamed(comps[found.value])] else comps;
      var r :- MarkSpecifiers(g, marked, specs[1..]);
      MarkSpecifiersStep(g, comps, specs, marked, r);
      Ok(r)
  }

  lemma MarkSpecifiersStep(g: Arena, comps: seq<Component>, specs: seq<Value>, marked: seq<Component>, r: seq<Component>)
    requires specs != [] && comps != []
    requires var found := FindByName(comps, NameOf(g, Field(g, specs[0], "local")));
      marked == if found.Some? then comps[found.value := MarkNamed(comps[found.value])] else comps
    requires |r| == |marked|
    requires forall k :: 0 <= k < |marked| ==>
      r[k] == if Marked(g, marked, specs[1..], k) then MarkNamed(marked[k]) else marked[k]
    ensures forall k :: 0 <= k < |comps| ==>
      r[k] == if Marked(g, comps, specs, k) then MarkNamed(comps[k]) else comps[k]
  {
    forall k | 0 <= k < |comps|
      ensures r[k] == if Marked(g, comps, specs, k) then MarkNamed(comps[k]) else comps[k]
    {
      MarkedAt(g, comps, specs, marked, k, r[k]);
    }
  }

  lemma MarkedAt(g: Arena, comps: seq<Component>, specs: seq<Value>, marked: seq<Component>, k: nat, c: Component)
    requires specs != [] && k < |comps|
    requires var found := FindByName(comps, NameOf(g, Field(g, specs[0], "local")));
      marked == if found.Some? then comps[found.value := MarkNamed(comps[found.value])] else comps
    requires c == if Marked(g, marked, specs[1..], k) then MarkNamed(marked[k]) else marked[k]
    ensures c == if Marked(g, comps, specs, k) then MarkNamed(comps[k]) else comps[k]
  {
    var found := FindByName(comps, NameOf(g, Field(g, specs[0], "local")));
    MarkedStep(g, comps, specs, marked, k);
    assert marked[k] == if found == Some(k) then MarkNamed(comps[k]) else comps[k];
  }

  /** The first specifier marks its record; the others mark the same
      records in the updated list as in the old one. */
  lemma MarkedStep(g: Arena, comps: seq<Component>, specs: seq<Value>, marked: seq<Component>, k: nat)
    requires specs != []
    requires var found := FindByName(comps, NameOf(g, Field(g, specs[0], "local")));
      marked == if found.Some? then comps[found.value := MarkNamed(comps[found.value])] else comps
    ensures Marked(g, comps, specs, k) <==>
      FindByName(comps, NameOf(g, Field(g, specs[0], "local"))) == Some(k) || Marked(g, marked, specs[1..], k)
  {
    var rest := specs[1..];
    forall j | 0 <= j < |rest|
      ensures FindByName(marked, NameOf(g, Field(g, rest[j], "local"))) ==
              FindByName(comps, NameOf(g, Field(g, specs[j + 1], "local")))
    {
      assert rest[j] == specs[j + 1];
      FindBySameNames(marked, comps, NameOf(g, Field(g, rest[j], "local")));
    }
    if Marked(g, comps, specs, k) {
      var j :| 0 <= j < |specs| && FindByName(comps, NameOf(g, Field(g, specs[j], "local"))) == Some(k);
      if j > 0 {
        assert FindByName(marked, NameOf(g, Field(g, rest[j - 1], "local"))) == Some(k);
      }
    }
    if Marked(g, marked, rest, k) {
      var j :| 0 <= j < |rest| && FindByName(marked, NameOf(g, Field(g, rest[j], "local"))) == Some(k);
      assert FindByName(comps, NameOf(g, Field(g, specs[j + 1], "local"))) == Some(k);
    }
  }

  /** One call of the inner `traverse` visitor on the node at index `i`:
      the records after it, or the exception it throws. */
  function Step(g: Arena, comps: seq<Component>, i: nat): (r: Result<seq<Component>, Crash>)
    ensures r.Ok? ==> |comps| <= |r.value|
    ensures r.Ok? ==> forall k :: 0 <= k < |comps| ==> r.value[k].name == comps[k].name && r.value[k].props == comps[k].props
    ensures TypeOf(g, Ref(i)) !in {"ExportNamedDeclaration", "ExportDefaultDeclaration"} ==> r == Ok(comps)
    ensures TypeOf(g, Ref(i)) == "ExportNamedDeclaration" && r.Ok? ==>
      var decl, specs := Field(g, Ref(i), "declaration"), Field(g, Ref(i), "specifiers");
      var added := if Truthy(decl) then DeclarationComponents(g, decl) else Ok([]);
      && added.Ok?
      && (Truthy(specs) ==> specs.List? && r == MarkSpecifiers(g, comps + added.value, specs.items))
      && (!Truthy(specs) ==> r.value == comps + added.value)
    ensures var decl := Field(g, Ref(i), "declaration");
      TypeOf(g, Ref(i)) == "ExportDefaultDeclaration" && (decl == Undefined || decl == Null) ==> r == Err(TypeError)
    ensures TypeOf(g, Ref(i)) == "ExportDefaultDeclaration" && r.Ok? ==>
      var decl := Field(g, Ref(i), "declaration");
      var id := Field(g, decl, "id");
      if TypeOf(g, decl) == "FunctionDeclaration" && ReturnsJsx(g, Field(g, decl, "body")) == Ok(true) then
        && |r.value| == |comps| + 1 && r.value[..|comps|] == comps
        && ComponentOf(g, r.value[|comps|], if Truthy(id) then NameOf(g, id) else Str("default"), Field(g, decl, "params"), Default)
      else r.value == comps
  {
    var node := Ref(i);
    var t := TypeOf(g, node);
    if t == "ExportNamedDeclaration" then
      var decl := Field(g, node, "declaration");
      var added :- if Truthy(decl) then DeclarationComponents(g, decl) else Ok([]);
      var specs := Field(g, node, "specifiers");
      if Truthy(specs) then
        var items :- Items(specs);
        MarkSpecifiers(g, comps + added, items)
      else Ok(comps + added)
    else if t == "ExportDefaultDeclaration" then
      var decl := Field(g, node, "declaration");
      var dt :- Type(g, decl);
      if dt != "FunctionDeclaration" then Ok(comps)
      else
        var jsx :- ReturnsJsx(g, Field(g, decl, "body"));
        if !jsx then Ok(comps)
        else
          var id := Field(g, decl, "id");
          var props :- ExtractProps(g, Field(g, decl, "params"));
          Ok(comps + [Component(if Truthy(id) then NameOf(g, id) else Str("default"), true, Default, props)])
    else Ok(comps)
  }

  /** The records after visiting `order`, starting from `comps`. */
  function Run(g: Arena, order: seq<nat>, comps: seq<Component>): (r: Result<seq<Component>, Crash>)
    ensures r.Ok? ==> |comps| <= |r.value|
    ensures r.Ok? ==> forall k :: 0 <= k < |comps| ==> r.value[k].name == comps[k].name && r.value[k].props == comps[k].props
    decreases |order|
  {
    if order == [] then Ok(comps)
    else
      var next :- Step(g, comps, order[0]);
      Run(g, order[1..], next)
  }

  /** Visiting `a` then `b` is visiting `a + b`. */
  lemma {:induction false} RunAppend(g: Arena, a: seq<nat>, b: seq<nat>, comps: seq<Component>)
    ensures Run(g, a + b, comps) == (var mid :- Run(g, a, comps); Run(g, b, mid))
    decreases |a|
  {
    if a == [] {
      assert a + b == b;
    } else {
      assert (a + b)[0] == a[0] && (a + b)[1..] == a[1..] + b;
      var next := Step(g, comps, a[0]);
      if next.Ok? {
        RunAppend(g, a[1..], b, next.value);
      }
    }
  }

  /** Records come only from export declarations: a walk that meets none
      leaves the list as it was. */
  lemma {:induction false} RunWithoutExports(g: Arena, order: seq<nat>, comps: seq<Component>)
    requires forall k :: 0 <= k < |order| ==>
      TypeOf(g, Ref(order[k])) !in {"ExportNamedDeclaration", "ExportDefaultDeclaration"}
    ensures Run(g, order, comps) == Ok(comps)
    decreases |order|
  {
    if order != [] {
      assert TypeOf(g, Ref(order[0])) !in {"ExportNamedDeclaration", "ExportDefaultDeclaration"};
      assert forall k :: 0 <= k < |order[1..]| ==> order[1..][k] == order[k + 1];
      RunWithoutExports(g, order[1..], comps);
    }
  }

  const Skip: set<string> := {"parent"}

  /** `extractComponents(ast)`. */
  function TreeComponents(t: Tree): (r: Result<seq<Component>, Crash>)
    ensures var order := PreOrder(t.arena, t.root, Skip);
      (forall k :: 0 <= k < |order| ==>
        TypeOf(t.arena, Ref(order[k])) !in {"ExportNamedDeclaration", "ExportDefaultDeclaration"}) ==>
      r == Ok([])
    ensures r.Ok? ==> forall c :: c in r.value ==> c.exported
  {
    var order := PreOrder(t.arena, t.root, Skip);
    if forall k :: 0 <= k < |order| ==>
      TypeOf(t.arena, Ref(order[k])) !in {"ExportNamedDeclaration", "ExportDefaultDeclaration"}
    then
      RunWithoutExports(t.arena, order, []);
      Run(t.arena, order, [])
    else
      var r := Run(t.arena, order, []);
      if r.Ok? then RunExported(t.arena, order, []); r else r
  }

  type BabelParse = string -> Option<Tree>

  /** `parse(content, filePath)`: a parse failure or an exception during
      extraction gives []. */
  function Parse(content: string, babel: BabelParse): (r: seq<Component>)
    ensures babel(content).None? ==> r == []
  {
    match babel(content)
    case None => []
    case Some(t) => if TreeComponents(t).Ok? then TreeComponents(t).value else []
  }

  /** Every record comes from an exported function or declarator and is
      marked exported. */
  lemma {:induction false} RunExported(g: Arena, order: seq<nat>, comps: seq<Component>)
    requires forall c :: c in comps ==> c.exported
    requires Run(g, order, comps).Ok?
    ensures forall c :: c in Run(g, order, comps).value ==> c.exported
    decreases |order|
  {
    if order != [] {
      var next := Step(g, comps, order[0]).value;
      StepExported(g, comps, order[0]);
      RunExported(g, order[1..], next);
    }
  }

  lemma StepExported(g: Arena, comps: seq<Component>, i: nat)
    requires forall c :: c in comps ==> c.exported
    requires Step(g, comps, i).Ok?
    ensures forall c :: c in Step(g, comps, i).value ==> c.exported
  {
    var node := Ref(i);
    if TypeOf(g, node) == "ExportNamedDeclaration" {
      var decl := Field(g, node, "declaration");
      var added := if Truthy(decl) then DeclarationComponents(g, decl).value else [];
      var base := comps + added;
      assert forall k :: 0 <= k < |base| ==> base[k].exported by {
        forall k | 0 <= k < |base|
          ensures base[k].exported
        {
          if k >= |comps| {
            assert base[k] == added[k - |comps|];
          } else {
            assert base[k] == comps[k];
          }
        }
      }
      var r := Step(g, comps, i).value;
      var specs := Field(g, node, "specifiers");
      if Truthy(specs) {
        assert r == MarkSpecifiers(g, base, specs.items).value;
      } else {
        assert r == base;
      }
      forall c | c in r
        ensures c.exported
      {
        var k :| 0 <= k < |r| && r[k] == c;
      }
    }
  }

  /** The specifier pass never adds a record: the count of records only
      grows at exported declarations and default functions. */
  lemma SpecifiersNeverCreate(g: Arena, comps: seq<Component>, i: nat)
    requires TypeOf(g, Ref(i)) == "ExportNamedDeclaration" && !Truthy(Field(g, Ref(i), "declaration"))
    requires Step(g, comps, i).Ok?
    ensures |Step(g, comps, i).value| == |comps|
  {
    var none: seq<Component> := [];
    assert comps + none == comps;
  }

  /** A default export that is not a function declaration (an arrow, a
      class, an expression) adds no record. */
  lemma DefaultNeedsFunctionDeclaration(g: Arena, comps: seq<Component>, i: nat)
    requires TypeOf(g, Ref(i)) == "ExportDefaultDeclaration"
    requires var decl := Field(g, Ref(i), "declaration"); decl != Undefined && decl != Null && TypeOf(g, decl) != "FunctionDeclaration"
    ensures Step(g, comps, i) == Ok(comps)
  {
  }

  /** `export default function App() {...}` followed by `export { App }`:
      the record found first is switched to a named export. */
  lemma DefaultThenSpecifier(g: Arena, spec: Value)
    requires spec != Undefined && spec != Null
    requires Field(g, spec, "local") != Undefined && Field(g, spec, "local") != Null
    requires NameOf(g, Field(g, spec, "local")) == Str("App")
    ensures var app := Component(Str("App"), true, Default, []);
      MarkSpecifiers(g, [app], [spec]) == Ok([app.(exportType := Named)])
  {
    var app := Component(Str("App"), true, Default, []);
    assert Prop(g, spec, "local") == Ok(Field(g, spec, "local"));
    assert NameProp(g, Field(g, spec, "local")) == Ok(Str("App"));
    assert FindByName([app], Str("App")) == Some(0);
    assert [app][0 := MarkNamed(app)] == [app.(exportType := Named)];
    assert [spec][1..] == [];
  }

  /** `extractComponents(ast)` as written: the walk, then a visitor that
      pushes onto `components` and updates found records in place. */
  method ExtractComponents(t: Tree) returns (r: Result<seq<Component>, Crash>)
    ensures r == TreeComponents(t)
  {
    var g := t.arena;
    var order := Traverse(g, t.root, Skip);
    var components: seq<Component> := [];
    var k := 0;
    assert order[0..] == order;
    while k < |order|
      invariant 0 <= k <= |order|
      invariant Run(g, order, []) == Run(g, order[k..], components)
    {
      assert order[k..][1..] == order[k + 1..];
      var next := VisitNode(g, components, order[k]);
      if next.Err? {
        return Err(next.error);
      }
      components := next.value;
      k := k + 1;
    }
    assert order[k..] == [];
    r := Ok(components);
  }

  /** The body of the visitor: pushes, then the specifier loop that finds
      and updates a record in place. */
  method VisitNode(g: Arena, components: seq<Component>, i: nat) returns (r: Result<seq<Component>, Crash>)
    ensures r == Step(g, components, i)
  {
    var node := Ref(i);
    var t := TypeOf(g, node);
    if t != "ExportNamedDeclaration" {
      return Step(g, components, i);
    }
    var decl := Field(g, node, "declaration");
    var added: seq<Component> := [];
    if Truthy(decl) {
      var fromDecl := DeclarationComponents(g, decl);
      if fromDecl.Err? {
        return Err(fromDecl.error);
      }
      added := fromDecl.value;
    }
    var comps := components + added;
    var specs := Field(g, node, "specifiers");
    if !Truthy(specs) {
      return Ok(comps);
    }
    if !specs.List? {
      return Err(TypeError);
    }
    var items := specs.items;
    var j := 0;
    assert items[0..] == items;
    while j < |items|
      invariant 0 <= j <= |items|
      invariant MarkSpecifiers(g, comps, items[j..]) == Step(g, components, i)
    {
      assert items[j..][1..] == items[j + 1..];
      if comps == [] {
        break;
      }
      var local := Prop(g, items[j], "local");
      if local.Err? {
        return Err(local.error);
      }
      var name := NameProp(g, local.value);
      if name.Err? {
        return Err(name.error);
      }
      var found := FindByName(comps, name.value);
      if found.Some? {
        comps := comps[found.value := MarkNamed(comps[found.value])];
      }
      j := j + 1;
    }
    r := Ok(comps);
  }
}
