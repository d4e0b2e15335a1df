/** The pattern the export extractors share: a traversal hands every node to
    a visitor, and the visitor adds the names it recognises to one `Set`,
    or throws. A rule gives, for one node index, the names one visitor call
    adds in order, or the exception it throws. */
module ExportSet {
  import opened Wrappers
  import opened Ast
  import opened OrderedSet
  import opened Walker

  type Rule = nat -> Result<seq<Value>, Crash>

  /** Everything the visitor calls add, in visiting order, or the first
      exception. With a list in place of the Set this is the whole result. */
  function Added<T>(rule: nat -> Result<seq<T>, Crash>, order: seq<nat>): (r: Result<seq<T>, Crash>)
    ensures r.Ok? <==> forall k :: 0 <= k < |order| ==> rule(order[k]).Ok?
  {
    if order == [] then Ok([])
    else
      var ns :- rule(order[0]);
      var rest :- Added(rule, order[1..]);
      Ok(ns + rest)
  }

  /** The `exports` Set after the visitor calls, starting from `acc`. */
  function Accumulate(rule: Rule, order: seq<nat>, acc: seq<Value>): Result<seq<Value>, Crash>
    decreases |order|
  {
    if order == [] then Ok(acc)
    else
      var ns :- rule(order[0]);
      Accumulate(rule, order[1..], InsertAll(acc, ns))
  }

  /** The Set holds the added names without repeats, in the order in which
      each was first added. */
  lemma {:induction false} AccumulateIsDedup(rule: Rule, order: seq<nat>, acc: seq<Value>)
    ensures Accumulate(rule, order, acc) ==
      (match Added(rule, order)
       case Ok(ns) => Ok(InsertAll(acc, ns))
       case Err(e) => Err(e))
    decreases |order|
  {
    if order != [] && rule(order[0]).Ok? {
      var ns := rule(order[0]).value;
      AccumulateIsDedup(rule, order[1..], InsertAll(acc, ns));
      if Added(rule, order[1..]).Ok? {
        InsertAllAppend(acc, ns, Added(rule, order[1..]).value);
      }
    }
  }

  /** A name was added exactly when some visitor call added it. */
  lemma {:induction false} AddedMembers<T>(rule: nat -> Result<seq<T>, Crash>, order: seq<nat>, x: T)
    requires Added(rule, order).Ok?
    ensures x in Added(rule, order).value <==>
      exists k :: 0 <= k < |order| && rule(order[k]).Ok? && x in rule(order[k]).value
    decreases |order|
  {
    if order != [] {
      AddedMembers(rule, order[1..], x);
      if x in Added(rule, order[1..]).value {
        var k :| 0 <= k < |order[1..]| && x in rule(order[1..][k]).value;
        assert order[k + 1] == order[1..][k];
      }
      if exists k :: 0 <= k < |order| && rule(order[k]).Ok? && x in rule(order[k]).value {
        var k :| 0 <= k < |order| && rule(order[k]).Ok? && x in rule(order[k]).value;
        if k > 0 {
          assert order[1..][k - 1] == order[k];
        }
      }
    }
  }

  /** The collected names from an empty Set: no repeats, and exactly the
      names some visitor call added. */
  lemma Collected(rule: Rule, order: seq<nat>)
    requires Accumulate(rule, order, []).Ok?
    ensures NoDup(Accumulate(rule, order, []).value)
    ensures forall x :: x in Accumulate(rule, order, []).value <==>
      exists k :: 0 <= k < |order| && rule(order[k]).Ok? && x in rule(order[k]).value
  {
    AccumulateIsDedup(rule, order, []);
    var ns := Added(rule, order).value;
    DedupFacts(ns);
    forall x
      ensures x in Dedup(ns) <==> exists k :: 0 <= k < |order| && rule(order[k]).Ok? && x in rule(order[k]).value
    {
      AddedMembers(rule, order, x);
    }
  }

  /** One visitor call that throws makes the whole collection throw. */
  lemma {:induction false} AccumulateCrash(rule: Rule, order: seq<nat>, acc: seq<Value>, k: nat)
    requires k < |order| && rule(order[k]).Err?
    ensures Accumulate(rule, order, acc).Err?
    decreases |order|
  {
    if rule(order[0]).Ok? {
      assert order[1..][k - 1] == order[k];
      AccumulateCrash(rule, order[1..], InsertAll(acc, rule(order[0]).value), k - 1);
    }
  }

  /** Two rules that agree on every visited node collect the same Set. */
  lemma {:induction false} AccumulateAgree(r1: Rule, r2: Rule, order: seq<nat>, acc: seq<Value>)
    requires forall k :: 0 <= k < |order| ==> r1(order[k]) == r2(order[k])
    ensures Accumulate(r1, order, acc) == Accumulate(r2, order, acc)
    decreases |order|
  {
    if order != [] {
      assert order[0] == order[0];
      if r1(order[0]).Ok? {
        forall k | 0 <= k < |order[1..]|
          ensures r1(order[1..][k]) == r2(order[1..][k])
        {
          assert order[1..][k] == order[k + 1];
        }
        AccumulateAgree(r1, r2, order[1..], InsertAll(acc, r1(order[0]).value));
      }
    }
  }

  /** The traversal with the visitor: `traverse(ast, node => rule(node))`
      and the Set it fills. */
  method Collect(rule: Rule, g: Arena, root: Value, skip: set<string>) returns (r: Result<seq<Value>, Crash>)
    ensures r == Accumulate(rule, PreOrder(g, root, skip), [])
  {
    var order := Traverse(g, root, skip);
    var exports: seq<Value> := [];
    var k := 0;
    while k < |order|
      invariant 0 <= k <= |order|
      invariant Accumulate(rule, order, []) == Accumulate(rule, order[k..], exports)
    {
      assert order[k..][1..] == order[k + 1..];
      var added := rule(order[k]);
      if added.Err? {
        return Err(added.error);
      }
      var names, before := added.value, exports;
      var j := 0;
      while j < |names|
        invariant 0 <= j <= |names|
        invariant InsertAll(before, names) == InsertAll(exports, names[j..])
      {
        assert names[j..][1..] == names[j + 1..];
        exports := Insert(exports, names[j]);
        j := j + 1;
      }
      assert names[j..] == [];
      k := k + 1;
    }
    assert order[k..] == [];
    r := Ok(exports);
  }

  /** The traversal with a visitor that pushes onto a list:
      `traverse(ast, node => exports.push(...rule(node)))`. */
  method Gather<T>(rule: nat -> Result<seq<T>, Crash>, g: Arena, root: Value, skip: set<string>) returns (r: Result<seq<T>, Crash>)
    ensures r == Added(rule, PreOrder(g, root, skip))
  {
    var order := Traverse(g, root, skip);
    var out: seq<T> := [];
    var k := 0;
    assert order[0..] == order;
    assert Added(rule, order).Ok? ==> out + Added(rule, order).value == Added(rule, order).value;
    while k < |order|
      invariant 0 <= k <= |order|
      invariant Added(rule, order) ==
        if Added(rule, order[k..]).Ok? then Ok(out + Added(rule, order[k..]).value) else Added(rule, order[k..])
    {
      assert order[k..][1..] == order[k + 1..];
      var added := rule(order[k]);
      if added.Err? {
        assert Added(rule, order[k..]) == Err(added.error);
        return Err(added.error);
      }
      if Added(rule, order[k + 1..]).Ok? {
        var rest := Added(rule, order[k + 1..]).value;
        assert out + (added.value + rest) == (out + added.value) + rest;
      }
      out := out + added.value;
      k := k + 1;
    }
    assert order[k..] == [];
    assert out + [] == out;
    r := Ok(out);
  }
}
