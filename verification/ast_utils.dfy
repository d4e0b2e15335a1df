/** The shared helpers of lib/parsers/ast-utils.js other than `traverse`
    (which is module Walker): name extraction, the export classifiers, the
    symbol-record constructor and `extractNames`. */
module AstUtils {
  import opened Wrappers
  import opened Ast
  import opened OrderedSet

  /** `extractNodeName(node)`. A member expression is named by its
      property and a variable declarator by its id; the chain is followed
      with `fuel` steps, and running out stands for the stack overflow of a
      chain that loops back on itself. Every read is guarded, so the only
      failure is that overflow, and a result is always a `name` key of some
      node of the arena, or null. */
  function ExtractNodeName(g: Arena, v: Value, fuel: nat): (r: Result<Value, Crash>)
    ensures !Truthy(v) ==> r == Ok(Null)
    ensures Truthy(v) && Truthy(NameOf(g, v)) ==> r == Ok(NameOf(g, v))
    ensures r.Err? ==> r.error == StackOverflow
    decreases fuel
  {
    match Link(g, v)
    case None =>
      Ok(if !Truthy(v) then Null
         else if Truthy(NameOf(g, v)) || TypeOf(g, v) == "Identifier" then NameOf(g, v)
         else Null)
    case Some(next) =>
      if fuel == 0 then Err(StackOverflow) else ExtractNodeName(g, next, fuel - 1)
  }

  /** Any name found is the `name` key of some node of the arena. */
  lemma {:induction false} ExtractNodeNameFromArena(g: Arena, v: Value, fuel: nat)
    ensures var r := ExtractNodeName(g, v, fuel);
      r.Ok? && r.value != Null ==> exists i :: 0 <= i < |g| && r.value == Get(g, i, "name")
    decreases fuel
  {
    match Link(g, v)
    case None =>
      assert v.Ref? && v.index < |g| ==> NameOf(g, v) == Get(g, v.index, "name");
    case Some(next) =>
      if fuel > 0 {
        ExtractNodeNameFromArena(g, next, fuel - 1);
      }
  }

  /** Fuel only decides whether the chain is followed to its end: a result
      found with some fuel is found with any larger fuel. */
  lemma {:induction false} ExtractNodeNameFuel(g: Arena, v: Value, fuel: nat, more: nat)
    requires fuel <= more
    requires ExtractNodeName(g, v, fuel).Ok?
    ensures ExtractNodeName(g, v, more) == ExtractNodeName(g, v, fuel)
    decreases fuel
  {
    match Link(g, v)
    case None =>
    case Some(next) =>
      assert fuel > 0;
      assert ExtractNodeName(g, v, fuel) == ExtractNodeName(g, next, fuel - 1);
      assert ExtractNodeName(g, v, more) == ExtractNodeName(g, next, more - 1);
      ExtractNodeNameFuel(g, next, fuel - 1, more - 1);
  }

  /** The node `extractNodeName` moves on to, when it does not stop at `v`. */
  function Link(g: Arena, v: Value): Option<Value> {
    if !Truthy(v) || Truthy(NameOf(g, v)) || TypeOf(g, v) == "Identifier" then None
    else if TypeOf(g, v) == "MemberExpression" && Truthy(Field(g, v, "property")) then Some(Field(g, v, "property"))
    else if TypeOf(g, v) == "VariableDeclarator" && Truthy(Field(g, v, "id")) then Some(Field(g, v, "id"))
    else None
  }

  /** `exports.foo` is named "foo" through its property. */
  lemma ExtractNodeNameOfMember(g: Arena, fuel: nat)
    requires |g| == 2 && fuel >= 1
    requires g[0] == Node("MemberExpression", [("object", Ref(1)), ("property", Ref(1))])
    requires g[1] == Node("Identifier", [("name", Str("foo"))])
    ensures ExtractNodeName(g, Ref(0), fuel) == Ok(Str("foo"))
  {
    assert NameOf(g, Ref(0)) == Undefined;
    assert Field(g, Ref(0), "property") == Ref(1);
    assert NameOf(g, Ref(1)) == Str("foo");
  }

  /** `isExportNode(node)`, as a truth value: a truthy node is an export
      node exactly when `getExportType` classifies it `Default` or `All`,
      or it is an `ExportNamedDeclaration`. */
  predicate IsExportNode(g: Arena, v: Value)
    ensures IsExportNode(g, v) ==> GetExportType(g, v).Ok?
    ensures IsExportNode(g, v) <==>
      Truthy(v) && (GetExportType(g, v) in {Ok(Default), Ok(All)} || TypeOf(g, v) == "ExportNamedDeclaration")
  {
    Truthy(v) && TypeOf(g, v) in ["ExportNamedDeclaration", "ExportDefaultDeclaration", "ExportAllDeclaration"]
  }

  datatype ExportType = Named | Default | All

  /** `getExportType(node)`: `node.type` is read unguarded. */
  function GetExportType(g: Arena, v: Value): (r: Result<ExportType, Crash>)
    ensures r.Err? <==> v == Undefined || v == Null
    ensures r.Ok? ==> (r.value == Default <==> TypeOf(g, v) == "ExportDefaultDeclaration")
    ensures r.Ok? ==> (r.value == All <==> TypeOf(g, v) == "ExportAllDeclaration")
  {
    var t :- Type(g, v);
    if t == "ExportDefaultDeclaration" then Ok(Default)
    else if t == "ExportAllDeclaration" then Ok(All)
    else Ok(Named)
  }

  /** On an export node the two classifiers agree: a named export is
      classified `Named`, and only a non-export node falls into `Named`
      without being one. */
  lemma ExportTypeOfExportNode(g: Arena, v: Value)
    requires IsExportNode(g, v)
    ensures GetExportType(g, v).Ok?
    ensures GetExportType(g, v).value == Named <==> TypeOf(g, v) == "ExportNamedDeclaration"
  {
  }

  /** A plain object: its keys in insertion order. */
  type Obj = seq<(string, Value)>

  function Keys(o: Obj): (r: seq<string>)
    ensures |r| == |o|
    ensures forall k :: 0 <= k < |o| ==> r[k] == o[k].0
  {
    if o == [] then [] else [o[0].0] + Keys(o[1..])
  }

  /** Key lookup finds the first entry for the key. */
  lemma {:induction false} LookupFound(o: Obj, key: string, k: nat)
    requires k < |o| && o[k].0 == key
    requires forall m :: 0 <= m < k ==> o[m].0 != key
    ensures Lookup(o, key) == o[k].1
  {
    if k > 0 {
      LookupFound(o[1..], key, k - 1);
    }
  }

  /** `o[key] = v`: an existing key keeps its place, a new one goes last. */
  function SetKey(o: Obj, key: string, v: Value): (r: Obj)
    ensures |r| == |o| || |r| == |o| + 1
    ensures Keys(r) == Keys(o) || Keys(r) == Keys(o) + [key]
    ensures key in Keys(r)
  {
    if o == [] then [(key, v)]
    else if o[0].0 == key then [(key, v)] + o[1..]
    else [o[0]] + SetKey(o[1..], key, v)
  }

  lemma {:induction false} SetKeyLookup(o: Obj, key: string, v: Value, other: string)
    ensures Lookup(SetKey(o, key, v), key) == v
    ensures other != key ==> Lookup(SetKey(o, key, v), other) == Lookup(o, other)
  {
    if o != [] && o[0].0 != key {
      SetKeyLookup(o[1..], key, v, other);
    }
  }

  /** `{...o, ...m}`: every entry of `m` assigned onto `o` in order. */
  function Spread(o: Obj, m: Obj): Obj
    decreases |m|
  {
    if m == [] then o else Spread(SetKey(o, m[0].0, m[0].1), m[1..])
  }

  /** After the spread a key of `m` reads as in `m` and every other key as
      in `o`. */
  lemma {:induction false} SpreadLookup(o: Obj, m: Obj, key: string)
    requires NoDup(Keys(m))
    ensures Lookup(Spread(o, m), key) == (if key in Keys(m) then Lookup(m, key) else Lookup(o, key))
    decreases |m|
  {
    if m != [] {
      var o' := SetKey(o, m[0].0, m[0].1);
      var rest := m[1..];
      assert Keys(m) == [m[0].0] + Keys(rest);
      assert NoDup(Keys(rest)) by {
        forall a, b | 0 <= a < b < |Keys(rest)|
          ensures Keys(rest)[a] != Keys(rest)[b]
        {
          assert Keys(rest)[a] == Keys(m)[a + 1] && Keys(rest)[b] == Keys(m)[b + 1];
        }
      }
      SpreadLookup(o', rest, key);
      SetKeyLookup(o, m[0].0, m[0].1, key);
      if key == m[0].0 {
        assert key !in Keys(rest) by {
          forall b | 0 <= b < |Keys(rest)|
            ensures Keys(rest)[b] != key
          {
            assert Keys(rest)[b] == Keys(m)[b + 1];
          }
        }
      }
    }
  }

  /** The fields `createSymbol` destructures from its options; undefined
      stands for a field that is absent, and `metadata` is `None` when it is
      undefined or null (spreading null adds nothing). */
  datatype SymbolOptions = SymbolOptions(name: Value, kind: Value, exported: Value, exportType: Value, metadata: Option<Obj>)

  /** The record before the metadata is spread onto it, defaults applied
      where a field is undefined. */
  function SymbolBase(opts: SymbolOptions): Obj {
    [("name", opts.name),
     ("type", if opts.kind == Undefined then Str("unknown") else opts.kind),
     ("exported", if opts.exported == Undefined then Bool(false) else opts.exported),
     ("exportType", if opts.exportType == Undefined then Null else opts.exportType)]
  }

  /** `createSymbol(options)`. */
  function CreateSymbol(opts: SymbolOptions): (r: Obj)
    ensures |Keys(r)| >= 4 && Keys(r)[..4] == ["name", "type", "exported", "exportType"]
  {
    var meta := if opts.metadata.Some? then opts.metadata.value else [];
    SpreadKeys(SymbolBase(opts), meta);
    Spread(SymbolBase(opts), meta)
  }

  /** The keys of `o` keep their places in front of the spread. */
  lemma {:induction false} SpreadKeys(o: Obj, m: Obj)
    ensures |Keys(o)| <= |Keys(Spread(o, m))| && Keys(Spread(o, m))[..|Keys(o)|] == Keys(o)
    decreases |m|
  {
    if m != [] {
      var o' := SetKey(o, m[0].0, m[0].1);
      SpreadKeys(o', m[1..]);
      assert Keys(o')[..|Keys(o)|] == Keys(o);
    }
  }

  /** The defaults: type "unknown", exported false, exportType null, each
      used only when the option is undefined, and each overridden by a
      metadata key of the same name, which is spread last. */
  lemma CreateSymbolFields(opts: SymbolOptions, key: string)
    requires opts.metadata.Some? ==> NoDup(Keys(opts.metadata.value))
    ensures var r := CreateSymbol(opts);
      var meta := if opts.metadata.Some? then opts.metadata.value else [];
      && (key in Keys(meta) ==> Lookup(r, key) == Lookup(meta, key))
      && (key !in Keys(meta) && key == "name" ==> Lookup(r, key) == opts.name)
      && (key !in Keys(meta) && key == "type" ==>
            Lookup(r, key) == if opts.kind == Undefined then Str("unknown") else opts.kind)
      && (key !in Keys(meta) && key == "exported" ==>
            Lookup(r, key) == if opts.exported == Undefined then Bool(false) else opts.exported)
      && (key !in Keys(meta) && key == "exportType" ==>
            Lookup(r, key) == if opts.exportType == Undefined then Null else opts.exportType)
  {
    var meta := if opts.metadata.Some? then opts.metadata.value else [];
    var base := SymbolBase(opts);
    SpreadLookup(base, meta, key);
    if key == "name" { LookupFound(base, key, 0); }
    if key == "type" { LookupFound(base, key, 1); }
    if key == "exported" { LookupFound(base, key, 2); }
    if key == "exportType" { LookupFound(base, key, 3); }
  }

  /** The truthy values of `xs`, in order: `.filter(Boolean)`. */
  function Truthies(xs: seq<Value>): (r: seq<Value>)
    ensures forall x :: x in r <==> x in xs && Truthy(x)
    ensures |r| <= |xs|
  {
    if xs == [] then []
    else (if Truthy(xs[0]) then [xs[0]] else []) + Truthies(xs[1..])
  }

  lemma {:induction false} TruthiesAppend(a: seq<Value>, b: seq<Value>)
    ensures Truthies(a + b) == Truthies(a) + Truthies(b)
  {
    if a != [] {
      assert (a + b)[1..] == a[1..] + b;
      TruthiesAppend(a[1..], b);
    } else {
      assert a + b == b;
    }
  }

  /** `extractNames(symbols)` applied to the symbols' `name` values:
      `[...new Set(names.filter(Boolean))]`. */
  function ExtractNames(names: seq<Value>): (r: seq<Value>)
    ensures NoDup(r)
    ensures forall x :: x in r <==> x in names && Truthy(x)
  {
    DedupFacts(Truthies(names));
    Dedup(Truthies(names))
  }

  /** The order is that of first occurrence. */
  lemma ExtractNamesOrder(names: seq<Value>)
    ensures ExtractNames(names) == FirstOccurrences(Truthies(names))
  {
    DedupIsFirstOccurrences(Truthies(names));
  }

  /** Re-wrapping the names as records and extracting again changes nothing. */
  lemma {:induction false} ExtractNamesIdempotent(names: seq<Value>)
    ensures ExtractNames(ExtractNames(names)) == ExtractNames(names)
  {
    var r := ExtractNames(names);
    assert Truthies(r) == r by { TruthiesOfTruthy(r); }
    DedupOfNoDup(r);
  }

  lemma {:induction false} TruthiesOfTruthy(xs: seq<Value>)
    requires forall x :: x in xs ==> Truthy(x)
    ensures Truthies(xs) == xs
  {
    if xs != [] {
      assert xs[0] in xs;
      TruthiesOfTruthy(xs[1..]);
    }
  }

  /** Merging two symbol lists before extracting keeps the first list's
      names first, then adds only the second list's new names. */
  lemma ExtractNamesAppend(a: seq<Value>, b: seq<Value>)
    ensures ExtractNames(a + b) == InsertAll(ExtractNames(a), Truthies(b))
    ensures |ExtractNames(a)| <= |ExtractNames(a + b)|
    ensures ExtractNames(a + b)[..|ExtractNames(a)|] == ExtractNames(a)
  {
    TruthiesAppend(a, b);
    DedupAppend(Truthies(a), Truthies(b));
  }
}
