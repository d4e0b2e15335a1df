/** The two Python symbol filters over a tree from Python's `ast` module:
    the script embedded in lib/parsers/python-parser.js, which looks at the
    module's top-level statements only, and lib/parsers/temp/python_parser.py,
    which walks every node breadth-first. `ast.parse` is a parameter
    (`None` when it raises). */
module PythonSymbols {
  import opened Wrappers
  import opened Text

  /** An assignment target: a plain `Name`, or anything else (a tuple, an
      attribute, a subscript, a starred target). */
  datatype Target = NameTarget(id: string) | OtherTarget

  datatype Kind =
    | FunctionDef(name: string)
    | AsyncFunctionDef(name: string)
    | ClassDef(name: string)
    | Assign(targets: seq<Target>)
    | Other

  /** A node with its `lineno`, its `col_offset` and the child nodes that
      can hold statements. Expressions never hold a definition or an
      assignment statement, so their subtrees are left out. */
  datatype PyNode = PyNode(kind: Kind, line: nat, col: nat, children: seq<PyNode>)

  /** `ast.parse(source)`: the `Module` node, whose children are its body. */
  type PyParse = string -> Option<PyNode>

  /** `not name.startswith('_')`. */
  predicate Public(name: string) {
    name == [] || name[0] != '_'
  }

  /** The `Name` targets of an assignment that are public, in order. */
  function TargetNames(targets: seq<Target>): seq<string> {
    if targets == [] then []
    else
      var t := targets[0];
      (if t.NameTarget? && Public(t.id) then [t.id] else []) + TargetNames(targets[1..])
  }

  /** A name is reported for an assignment exactly when it is a public
      `Name` target of it. */
  lemma {:induction false} TargetNamesSpec(targets: seq<Target>)
    ensures forall x :: x in TargetNames(targets) <==> NameTarget(x) in targets && Public(x)
  {
    if targets != [] {
      TargetNamesSpec(targets[1..]);
      assert targets == [targets[0]] + targets[1..];
    }
  }

  /** The name a definition statement declares. */
  function DefinedName(k: Kind): Option<string> {
    match k
    case FunctionDef(name) => Some(name)
    case AsyncFunctionDef(name) => Some(name)
    case ClassDef(name) => Some(name)
    case _ => None
  }

  /** What the embedded script appends for one statement of `tree.body`. */
  function StatementNames(n: PyNode): seq<string> {
    match n.kind
    case Assign(targets) => TargetNames(targets)
    case Other => []
    case _ => if Public(n.kind.name) then [n.kind.name] else []
  }

  /** One statement contributes the public name it defines (a function, an
      async function or a class) or the public `Name` targets it assigns. */
  lemma StatementNamesSpec(n: PyNode, x: string)
    ensures x in StatementNames(n) <==>
      Public(x) && (DefinedName(n.kind) == Some(x) || (n.kind.Assign? && NameTarget(x) in n.kind.targets))
  {
    if n.kind.Assign? {
      TargetNamesSpec(n.kind.targets);
    }
  }

  /** The embedded script's `symbols` for a module body. */
  function TopLevelNames(body: seq<PyNode>): seq<string> {
    if body == [] then [] else StatementNames(body[0]) + TopLevelNames(body[1..])
  }

  /** The names reported for a module are those its top-level statements
      contribute, and nothing from deeper down. */
  lemma {:induction false} TopLevelNamesSpec(body: seq<PyNode>, x: string)
    ensures x in TopLevelNames(body) <==> exists k :: 0 <= k < |body| && x in StatementNames(body[k])
  {
    if body != [] {
      TopLevelNamesSpec(body[1..], x);
      if x in TopLevelNames(body[1..]) {
        var k :| 0 <= k < |body[1..]| && x in StatementNames(body[1..][k]);
        assert body[k + 1] == body[1..][k];
      }
      if exists k :: 0 <= k < |body| && x in StatementNames(body[k]) {
        var k :| 0 <= k < |body| && x in StatementNames(body[k]);
        if k > 0 {
          assert body[1..][k - 1] == body[k];
        }
      }
    }
  }

  /** `parseSync(content)` as far as the script decides it: a parse failure
      (or any other failure) gives []. */
  function ParseSync(content: string, parse: PyParse): (r: seq<string>)
    ensures parse(content).None? ==> r == []
  {
    match parse(content)
    case None => []
    case Some(tree) => TopLevelNames(tree.children)
  }

  /** The inner `for target in node.targets` loop. */
  method AssignedNames(targets: seq<Target>) returns (added: seq<string>)
    ensures added == TargetNames(targets)
  {
    added := [];
    var j := 0;
    while j < |targets|
      invariant 0 <= j <= |targets|
      invariant TargetNames(targets) == added + TargetNames(targets[j..])
    {
      assert targets[j..][1..] == targets[j + 1..];
      var t := targets[j];
      if t.NameTarget? && Public(t.id) {
        added := added + [t.id];
      }
      j := j + 1;
    }
  }

  /** The body of the `for node in tree.body` loop. */
  method ExtractStatement(node: PyNode) returns (added: seq<string>)
    ensures added == StatementNames(node)
  {
    match node.kind {
      case Assign(targets) =>
        added := AssignedNames(targets);
      case Other =>
        added := [];
      case _ =>
        added := if Public(node.kind.name) then [node.kind.name] else [];
    }
  }

  /** The `for node in tree.body` loop of the embedded script. */
  method ExtractTopLevel(body: seq<PyNode>) returns (symbols: seq<string>)
    ensures symbols == TopLevelNames(body)
  {
    symbols := [];
    var k := 0;
    while k < |body|
      invariant 0 <= k <= |body|
      invariant TopLevelNames(body) == symbols + TopLevelNames(body[k..])
    {
      assert TopLevelNames(body[k..]) == StatementNames(body[k]) + TopLevelNames(body[k + 1..]) by {
        assert body[k..][1..] == body[k + 1..];
      }
      var added := ExtractStatement(body[k]);
      symbols := symbols + added;
      k := k + 1;
    }
  }

  /** Names are appended in statement order and never merged. */
  lemma {:induction false} TopLevelNamesAppend(a: seq<PyNode>, b: seq<PyNode>)
    ensures TopLevelNames(a + b) == TopLevelNames(a) + TopLevelNames(b)
  {
    if a != [] {
      assert (a + b)[1..] == a[1..] + b;
      TopLevelNamesAppend(a[1..], b);
    } else {
      assert a + b == b;
    }
  }

  /** Only the top-level statements count: what is nested inside them (a
      method, an inner function, an assignment in a body) changes nothing. */
  lemma {:induction false} NestedIgnored(body: seq<PyNode>, other: seq<PyNode>)
    requires |other| == |body|
    requires forall k :: 0 <= k < |body| ==> other[k].kind == body[k].kind
    ensures TopLevelNames(other) == TopLevelNames(body)
  {
    if body != [] {
      NestedIgnored(body[1..], other[1..]);
    }
  }

  /** Two assignments to the same name give the name twice. */
  lemma DuplicatesKept()
    ensures TopLevelNames([PyNode(Assign([NameTarget("x")]), 1, 0, []), PyNode(Assign([NameTarget("x")]), 2, 0, [])])
      == ["x", "x"]
  {
    var a := PyNode(Assign([NameTarget("x")]), 1, 0, []);
    var b := PyNode(Assign([NameTarget("x")]), 2, 0, []);
    assert TargetNames([NameTarget("x")]) == ["x"];
    assert [a, b][1..] == [b];
    assert [b][1..] == [];
  }

  /** The record the stand-alone script appends. */
  datatype SymbolKind = FunctionSymbol | ClassSymbol | VariableSymbol

  datatype Symbol = Symbol(name: string, kind: SymbolKind, line: nat)

  function VariableSymbols(names: seq<string>, line: nat): (r: seq<Symbol>)
    ensures |r| == |names|
    ensures forall k :: 0 <= k < |r| ==> r[k] == Symbol(names[k], VariableSymbol, line)
  {
    if names == [] then [] else [Symbol(names[0], VariableSymbol, line)] + VariableSymbols(names[1..], line)
  }

  /** What the stand-alone script appends for one node. */
  function NodeSymbols(n: PyNode): seq<Symbol> {
    match n.kind
    case FunctionDef(name) => if Public(name) then [Symbol(name, FunctionSymbol, n.line)] else []
    case ClassDef(name) => if Public(name) then [Symbol(name, ClassSymbol, n.line)] else []
    case Assign(targets) => if n.col == 0 then VariableSymbols(TargetNames(targets), n.line) else []
    case _ => []
  }

  /** The symbols a node stands for: a public `def` (never an `async def`),
      a public class, and each public `Name` target of an assignment that
      starts at column 0, all with the node's line. */
  predicate Reports(n: PyNode, s: Symbol) {
    && Public(s.name)
    && s.line == n.line
    && match s.kind
       case FunctionSymbol => n.kind == FunctionDef(s.name)
       case ClassSymbol => n.kind == ClassDef(s.name)
       case VariableSymbol => n.col == 0 && n.kind.Assign? && NameTarget(s.name) in n.kind.targets
  }

  lemma NodeSymbolsSpec(n: PyNode, s: Symbol)
    ensures s in NodeSymbols(n) <==> Reports(n, s)
  {
    if n.kind.Assign? && n.col == 0 {
      var names := TargetNames(n.kind.targets);
      TargetNamesSpec(n.kind.targets);
      var r := VariableSymbols(names, n.line);
      if s in r {
        var k :| 0 <= k < |r| && r[k] == s;
        assert names[k] in names;
      }
      if Reports(n, s) && s.kind == VariableSymbol {
        assert s.name in names;
        var k :| 0 <= k < |names| && names[k] == s.name;
        assert r[k] == s;
      }
    }
  }

  function Size(n: PyNode): (r: nat)
    ensures r >= 1
  {
    1 + SizeAll(n.children)
  }

  function SizeAll(ns: seq<PyNode>): nat {
    if ns == [] then 0 else Size(ns[0]) + SizeAll(ns[1..])
  }

  lemma {:induction false} SizeAllAppend(a: seq<PyNode>, b: seq<PyNode>)
    ensures SizeAll(a + b) == SizeAll(a) + SizeAll(b)
  {
    if a != [] {
      assert (a + b)[1..] == a[1..] + b;
      SizeAllAppend(a[1..], b);
    } else {
      assert a + b == b;
    }
  }

  /** `ast.walk` from a queue of nodes: take the first, queue its children
      at the back. */
  function Bfs(queue: seq<PyNode>): (r: seq<PyNode>)
    ensures |r| == SizeAll(queue)
    decreases SizeAll(queue)
  {
    if queue == [] then []
    else
      var next := queue[1..] + queue[0].children;
      SizeAllAppend(queue[1..], queue[0].children);
      assert SizeAll(queue) == Size(queue[0]) + SizeAll(queue[1..]);
      [queue[0]] + Bfs(next)
  }

  /** `x` is `n` or lies somewhere below it. */
  predicate Below(x: PyNode, n: PyNode)
    decreases n
  {
    x == n || exists k :: 0 <= k < |n.children| && Below(x, n.children[k])
  }

  /** `x` lies below one of the queued nodes. */
  predicate Covered(queue: seq<PyNode>, x: PyNode) {
    exists k :: 0 <= k < |queue| && Below(x, queue[k])
  }

  /** Taking the first node of the queue and queueing its children keeps the
      covered nodes, except the first node itself. */
  lemma CoveredStep(queue: seq<PyNode>, x: PyNode)
    requires queue != []
    ensures Covered(queue, x) <==> x == queue[0] || Covered(queue[1..] + queue[0].children, x)
  {
    var first, rest := queue[0], queue[1..];
    var next := rest + first.children;
    if Covered(next, x) {
      var k :| 0 <= k < |next| && Below(x, next[k]);
      if k < |rest| {
        assert queue[k + 1] == next[k];
      } else {
        assert first.children[k - |rest|] == next[k];
        assert Below(x, queue[0]);
      }
    }
    if x == first {
      assert Below(x, queue[0]);
    }
    if Covered(queue, x) {
      var k :| 0 <= k < |queue| && Below(x, queue[k]);
      if k > 0 {
        assert next[k - 1] == queue[k];
      } else if x != first {
        var c :| 0 <= c < |first.children| && Below(x, first.children[c]);
        assert next[|rest| + c] == first.children[c];
      }
    }
  }

  /** Dropping the first node of a non-empty queue makes the total size
      smaller. */
  lemma SizeStep(queue: seq<PyNode>)
    requires queue != []
    ensures SizeAll(queue[1..] + queue[0].children) < SizeAll(queue)
  {
    SizeAllAppend(queue[1..], queue[0].children);
  }

  /** The walk reaches every node below a queued node, and nothing else. */
  lemma {:induction false} BfsReachesAll(queue: seq<PyNode>, x: PyNode)
    ensures x in Bfs(queue) <==> Covered(queue, x)
    decreases SizeAll(queue)
  {
    if queue != [] {
      var next := queue[1..] + queue[0].children;
      SizeStep(queue);
      BfsReachesAll(next, x);
      CoveredStep(queue, x);
      assert Bfs(queue) == [queue[0]] + Bfs(next);
    }
  }

  /** The `symbols` list after the loop has seen `nodes`. */
  function AllSymbols(nodes: seq<PyNode>): seq<Symbol> {
    if nodes == [] then [] else NodeSymbols(nodes[0]) + AllSymbols(nodes[1..])
  }

  /** A symbol is listed exactly when one of the visited nodes reports it. */
  lemma {:induction false} AllSymbolsSpec(nodes: seq<PyNode>, s: Symbol)
    ensures s in AllSymbols(nodes) <==> exists k :: 0 <= k < |nodes| && Reports(nodes[k], s)
  {
    if nodes != [] {
      AllSymbolsSpec(nodes[1..], s);
      NodeSymbolsSpec(nodes[0], s);
      if exists k :: 0 <= k < |nodes[1..]| && Reports(nodes[1..][k], s) {
        var k :| 0 <= k < |nodes[1..]| && Reports(nodes[1..][k], s);
        assert nodes[k + 1] == nodes[1..][k];
      }
      if exists k :: 0 <= k < |nodes| && Reports(nodes[k], s) {
        var k :| 0 <= k < |nodes| && Reports(nodes[k], s);
        if k > 0 {
          assert nodes[1..][k - 1] == nodes[k];
        }
      }
    }
  }

  /** `extract_symbols(source_code)`: a parse failure gives []. */
  function WalkSymbols(source: string, parse: PyParse): (r: seq<Symbol>)
    ensures parse(source).None? ==> r == []
  {
    match parse(source)
    case None => []
    case Some(tree) => AllSymbols(Bfs([tree]))
  }

  /** The `for node in ast.walk(tree)` loop, with the walk's queue made
      explicit. */
  method ExtractSymbols(tree: PyNode) returns (symbols: seq<Symbol>)
    ensures symbols == AllSymbols(Bfs([tree]))
  {
    symbols := [];
    var todo := [tree];
    while todo != []
      invariant AllSymbols(Bfs([tree])) == symbols + AllSymbols(Bfs(todo))
      decreases SizeAll(todo)
    {
      var node := todo[0];
      var next := todo[1..] + node.children;
      SizeStep(todo);
      assert AllSymbols(Bfs(todo)) == NodeSymbols(node) + AllSymbols(Bfs(next)) by {
        assert Bfs(todo) == [node] + Bfs(next);
        assert (Bfs(todo))[1..] == Bfs(next);
      }
      todo := next;
      symbols := symbols + NodeSymbols(node);
    }
  }

  /** `ast.walk` reaches every node at every depth, so a symbol is listed
      exactly when some node of the tree reports it: a nested function, a
      method and a class inside a function all count. */
  lemma WalkReports(tree: PyNode, s: Symbol)
    ensures s in AllSymbols(Bfs([tree])) <==> exists n :: Below(n, tree) && Reports(n, s)
  {
    var walked := Bfs([tree]);
    AllSymbolsSpec(walked, s);
    if s in AllSymbols(walked) {
      var k :| 0 <= k < |walked| && Reports(walked[k], s);
      BfsReachesAll([tree], walked[k]);
    }
    if exists n :: Below(n, tree) && Reports(n, s) {
      var n :| Below(n, tree) && Reports(n, s);
      BfsReachesAll([tree], n);
      var k :| 0 <= k < |walked| && walked[k] == n;
    }
  }

  /** A class with one method: the embedded script reports the class only,
      the stand-alone one the class and its method. */
  lemma MethodSeenOnlyByWalk()
    ensures var method_ := PyNode(FunctionDef("run"), 2, 4, []);
      var cls := PyNode(ClassDef("Service"), 1, 0, [method_]);
      && TopLevelNames([cls]) == ["Service"]
      && AllSymbols(Bfs([PyNode(Other, 0, 0, [cls])])) ==
         [Symbol("Service", ClassSymbol, 1), Symbol("run", FunctionSymbol, 2)]
  {
    var method_ := PyNode(FunctionDef("run"), 2, 4, []);
    var cls := PyNode(ClassDef("Service"), 1, 0, [method_]);
    var root := PyNode(Other, 0, 0, [cls]);
    assert [cls][1..] == [];
    var none: seq<PyNode> := [];
    assert Bfs([method_]) == [method_] by {
      assert [method_][1..] + method_.children == none;
    }
    assert Bfs([cls]) == [cls, method_] by {
      assert [cls][1..] + cls.children == [method_];
    }
    assert Bfs([root]) == [root, cls, method_] by {
      assert [root][1..] + root.children == [cls];
    }
    assert NodeSymbols(root) == [];
    assert NodeSymbols(cls) == [Symbol("Service", ClassSymbol, 1)];
    assert NodeSymbols(method_) == [Symbol("run", FunctionSymbol, 2)];
    assert AllSymbols([method_]) == [Symbol("run", FunctionSymbol, 2)] by {
      assert [method_][1..] == [];
    }
    assert AllSymbols([cls, method_]) == [Symbol("Service", ClassSymbol, 1)] + [Symbol("run", FunctionSymbol, 2)] by {
      assert [cls, method_][1..] == [method_];
    }
    assert AllSymbols([root, cls, method_]) == AllSymbols([cls, method_]) by {
      assert [root, cls, method_][1..] == [cls, method_];
    }
  }

  /** An indented assignment (inside a function or class body) is not a
      variable, and a tuple target yields nothing even at column 0. */
  lemma AssignmentsFiltered(line: nat, col: nat, name: string)
    requires Public(name)
    ensures NodeSymbols(PyNode(Assign([NameTarget(name)]), line, col, [])) ==
      if col == 0 then [Symbol(name, VariableSymbol, line)] else []
    ensures NodeSymbols(PyNode(Assign([OtherTarget]), line, 0, [])) == []
    ensures StatementNames(PyNode(Assign([OtherTarget]), line, col, [])) == []
  {
    assert TargetNames([NameTarget(name)]) == [name] by {
      assert [NameTarget(name)][1..] == [];
    }
    assert TargetNames([OtherTarget]) == [] by {
      assert [OtherTarget][1..] == [];
    }
  }
}
