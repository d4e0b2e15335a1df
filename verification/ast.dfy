/** The syntax trees that espree, typescript-estree and @babel/parser return,
    as an arena: a node is a `type` tag plus its keys in enumeration order, and
    a key holds a primitive, a reference to another node of the arena, or an
    array. References make sharing and cycles (a `parent` back-link) explicit,
    so "the same node object" is "the same index".

    An index outside the arena stands for an empty object `{}`: truthy, with
    no keys and no `type`. */
module Ast {
  import opened Wrappers

  /** What the modelled JavaScript can throw: reading a property of null or
      undefined, or calling an array method on a non-array (`TypeError`), and
      the stack overflow of a recursion that never ends on a cyclic arena. */
  datatype Crash = TypeError | StackOverflow

  datatype Value =
    | Undefined
    | Null
    | Bool(b: bool)
    | Num(n: int)
    | Str(s: string)
    | Ref(index: nat)
    | List(items: seq<Value>)

  /** `kind` is the node's `type` key ("" when the object has none). */
  datatype Node = Node(kind: string, fields: seq<(string, Value)>)

  type Arena = seq<Node>

  /** A parser's output: the arena and the value of the root (the Program). */
  datatype Tree = Tree(arena: Arena, root: Value)

  /** JavaScript truthiness. */
  predicate Truthy(v: Value) {
    match v
    case Undefined => false
    case Null => false
    case Bool(b) => b
    case Num(n) => n != 0
    case Str(s) => s != ""
    case Ref(_) => true
    case List(_) => true
  }

  /** The first entry for `key`, or undefined. */
  function Lookup(fields: seq<(string, Value)>, key: string): Value {
    if fields == [] then Undefined
    else if fields[0].0 == key then fields[0].1
    else Lookup(fields[1..], key)
  }

  function Get(g: Arena, i: nat, key: string): Value {
    if i < |g| then Lookup(g[i].fields, key) else Undefined
  }

  /** `v.key` where the source has already checked that `v` is truthy, so the
      read cannot throw. */
  function Field(g: Arena, v: Value, key: string): Value {
    if v.Ref? then Get(g, v.index, key) else Undefined
  }

  /** `v.type` where `v` is known to be truthy. */
  function TypeOf(g: Arena, v: Value): string {
    if v.Ref? && v.index < |g| then g[v.index].kind else ""
  }

  /** `v.key` with no guard in front of it: throws on null and undefined. */
  function Prop(g: Arena, v: Value, key: string): (r: Result<Value, Crash>)
    ensures r.Err? <==> v == Undefined || v == Null
    ensures r.Ok? ==> r.value == Field(g, v, key)
  {
    if v == Undefined || v == Null then Err(TypeError) else Ok(Field(g, v, key))
  }

  /** `v.type` with no guard in front of it. */
  function Type(g: Arena, v: Value): (r: Result<string, Crash>)
    ensures r.Err? <==> v == Undefined || v == Null
    ensures r.Ok? ==> r.value == TypeOf(g, v)
  {
    if v == Undefined || v == Null then Err(TypeError) else Ok(TypeOf(g, v))
  }

  /** `v.name` for a truthy `v`. */
  function NameOf(g: Arena, v: Value): Value {
    Field(g, v, "name")
  }

  /** `v.name` with no guard in front of it. */
  function NameProp(g: Arena, v: Value): (r: Result<Value, Crash>)
    ensures r.Err? <==> v == Undefined || v == Null
    ensures r.Ok? ==> r.value == NameOf(g, v)
  {
    Prop(g, v, "name")
  }

  /** `a && a.name`, the guard in front of most name reads: the name when
      both are truthy. */
  predicate HasName(g: Arena, v: Value) {
    Truthy(v) && Truthy(NameOf(g, v))
  }

  /** The items of an array that `forEach`, `map`, `some` or `filter` is
      called on; any other value has no such method and the call throws. */
  function Items(v: Value): (r: Result<seq<Value>, Crash>)
    ensures r.Ok? <==> v.List?
  {
    if v.List? then Ok(v.items) else Err(TypeError)
  }

  /** The node references a key's value leads the walk to: the value itself
      when it is a reference, every item (recursively) when it is an array. */
  function RefsOf(v: Value): seq<nat>
    decreases v, 1
  {
    match v
    case Ref(i) => [i]
    case List(items) => RefsOfAll(items)
    case _ => []
  }

  function RefsOfAll(items: seq<Value>): seq<nat>
    decreases items, 0
  {
    if items == [] then [] else RefsOf(items[0]) + RefsOfAll(items[1..])
  }

  /** The children `for (const key in node)` reaches, in key order, leaving
      out the keys in `skip` and any key listed a second time. */
  function ChildrenOf(g: Arena, fields: seq<(string, Value)>, seen: set<string>): (r: seq<nat>)
    ensures forall c :: c in r ==> c < |g|
  {
    if fields == [] then []
    else if fields[0].0 in seen then ChildrenOf(g, fields[1..], seen)
    else InArena(g, RefsOf(fields[0].1)) + ChildrenOf(g, fields[1..], seen + {fields[0].0})
  }

  function InArena(g: Arena, cs: seq<nat>): (r: seq<nat>)
    ensures forall c :: c in r ==> c < |g|
  {
    if cs == [] then []
    else if cs[0] < |g| then [cs[0]] + InArena(g, cs[1..])
    else InArena(g, cs[1..])
  }

  function Children(g: Arena, i: nat, skip: set<string>): (r: seq<nat>)
    ensures forall c :: c in r ==> c < |g|
  {
    if i < |g| then ChildrenOf(g, g[i].fields, skip) else []
  }

  /** The nodes a walk starts from, for the root value of a tree. */
  function Roots(g: Arena, root: Value): (r: seq<nat>)
    ensures forall c :: c in r ==> c < |g|
  {
    InArena(g, RefsOf(root))
  }

  /** The decimal digits of a natural number. */
  function Digits(n: nat): (r: string)
    ensures |r| >= 1
    ensures forall k :: 0 <= k < |r| ==> '0' <= r[k] <= '9'
    decreases n
  {
    var d := [(('0' as int) + n % 10) as char];
    if n < 10 then d else Digits(n / 10) + d
  }

  /** `String(v)`, as a template literal or `join` converts a value: an
      object node prints as "[object Object]", an array joins its items
      with "," and turns null and undefined items into "". */
  function Show(v: Value): (r: string)
    ensures v.Str? ==> r == v.s
    decreases v, 1
  {
    match v
    case Undefined => "undefined"
    case Null => "null"
    case Bool(b) => if b then "true" else "false"
    case Num(n) => if n < 0 then "-" + Digits(-n) else Digits(n)
    case Str(s) => s
    case Ref(_) => "[object Object]"
    case List(items) => ShowItems(items)
  }

  function ShowItems(items: seq<Value>): string
    decreases items, 0
  {
    if items == [] then ""
    else
      var first := if items[0] == Undefined || items[0] == Null then "" else Show(items[0]);
      if |items| == 1 then first else first + "," + ShowItems(items[1..])
  }
}
