/** The identity-deduplicated pre-order walk of `traverse` in
    lib/parsers/ast-utils.js, which the two parser variants and the
    TypeScript and JSX parsers repeat inline with their own skipped keys.

    `Walk`/`WalkList` are the specification: the visiting order and the final
    `processedNodes` set. `Visit`/`VisitAll` are the walk itself, a recursive
    method with a loop over the children, proved to produce that order. A
    visitor that only accumulates is then a fold over the order. */
module Walker {
  import opened Ast
  import opened OrderedSet

  /** The indices of the arena. */
  function Range(n: nat): (r: set<nat>)
    ensures forall j: nat :: j in r <==> j < n
  {
    if n == 0 then {} else Range(n - 1) + {n - 1}
  }

  /** `traverse(node)` with `processedNodes == vis`: the new set and the
      nodes handed to the visitor, in order. */
  function Walk(g: Arena, i: nat, skip: set<string>, vis: set<nat>): (r: (set<nat>, seq<nat>))
    ensures vis <= r.0
    decreases Range(|g|) - vis, 0
  {
    if i >= |g| || i in vis then (vis, [])
    else
      var (v, o) := WalkList(g, Children(g, i, skip), skip, vis + {i});
      (v, [i] + o)
  }

  /** The children of one node, one `traverse` call after the other. */
  function WalkList(g: Arena, cs: seq<nat>, skip: set<string>, vis: set<nat>): (r: (set<nat>, seq<nat>))
    ensures vis <= r.0
    decreases Range(|g|) - vis, |cs|
  {
    if cs == [] then (vis, [])
    else
      var (v1, o1) := Walk(g, cs[0], skip, vis);
      var (v2, o2) := WalkList(g, cs[1..], skip, v1);
      (v2, o1 + o2)
  }

  /** The visiting order of `traverse(root)` started with an empty set. */
  function PreOrder(g: Arena, root: Value, skip: set<string>): seq<nat> {
    WalkList(g, Roots(g, root), skip, {}).1
  }

  /** Every node after the first ones is a child of a node visited before it. */
  ghost predicate Discovered(g: Arena, skip: set<string>, roots: seq<nat>, o: seq<nat>) {
    forall k :: 0 <= k < |o| ==>
      o[k] in roots || exists m :: 0 <= m < k && o[k] in Children(g, o[m], skip)
  }

  /** Every child of a visited node is in `v`. */
  ghost predicate ClosedIn(g: Arena, skip: set<string>, o: seq<nat>, v: set<nat>) {
    forall j, c :: j in o && c in Children(g, j, skip) ==> c in v
  }

  lemma {:induction false} WalkSets(g: Arena, i: nat, skip: set<string>, vis: set<nat>)
    ensures NoDup(Walk(g, i, skip, vis).1)
    ensures forall x :: x in Walk(g, i, skip, vis).1 ==> x !in vis && x < |g|
    ensures forall x :: x in Walk(g, i, skip, vis).0 <==> x in vis || x in Walk(g, i, skip, vis).1
    ensures i < |g| ==> i in Walk(g, i, skip, vis).0
    decreases Range(|g|) - vis, 0
  {
    if i < |g| && i !in vis {
      WalkListSets(g, Children(g, i, skip), skip, vis + {i});
    }
  }

  lemma {:induction false} WalkListSets(g: Arena, cs: seq<nat>, skip: set<string>, vis: set<nat>)
    ensures NoDup(WalkList(g, cs, skip, vis).1)
    ensures forall x :: x in WalkList(g, cs, skip, vis).1 ==> x !in vis && x < |g|
    ensures forall x :: x in WalkList(g, cs, skip, vis).0 <==> x in vis || x in WalkList(g, cs, skip, vis).1
    ensures forall c :: c in cs && c < |g| ==> c in WalkList(g, cs, skip, vis).0
    decreases Range(|g|) - vis, |cs|
  {
    if cs != [] {
      var (v1, o1) := Walk(g, cs[0], skip, vis);
      var (v2, o2) := WalkList(g, cs[1..], skip, v1);
      WalkSets(g, cs[0], skip, vis);
      WalkListSets(g, cs[1..], skip, v1);
      var o := o1 + o2;
      assert WalkList(g, cs, skip, vis) == (v2, o);
      forall a, b | 0 <= a < b < |o|
        ensures o[a] != o[b]
      {
        if b < |o1| {
          assert o[a] == o1[a] && o[b] == o1[b];
        } else if a < |o1| {
          assert o[a] == o1[a] && o[b] == o2[b - |o1|];
          assert o1[a] in o1 && o2[b - |o1|] in o2;
          assert o1[a] in v1 && o2[b - |o1|] !in v1;
        } else {
          assert o[a] == o2[a - |o1|] && o[b] == o2[b - |o1|];
        }
      }
      forall c | c in cs && c < |g|
        ensures c in v2
      {
        if c != cs[0] {
          assert c in cs[1..];
        }
      }
    }
  }

  lemma {:induction false} WalkClosed(g: Arena, i: nat, skip: set<string>, vis: set<nat>)
    ensures ClosedIn(g, skip, Walk(g, i, skip, vis).1, Walk(g, i, skip, vis).0)
    decreases Range(|g|) - vis, 0
  {
    if i < |g| && i !in vis {
      var cs := Children(g, i, skip);
      WalkListClosed(g, cs, skip, vis + {i});
      WalkListSets(g, cs, skip, vis + {i});
    }
  }

  lemma {:induction false} WalkListClosed(g: Arena, cs: seq<nat>, skip: set<string>, vis: set<nat>)
    ensures ClosedIn(g, skip, WalkList(g, cs, skip, vis).1, WalkList(g, cs, skip, vis).0)
    decreases Range(|g|) - vis, |cs|
  {
    if cs != [] {
      var (v1, o1) := Walk(g, cs[0], skip, vis);
      WalkClosed(g, cs[0], skip, vis);
      WalkListClosed(g, cs[1..], skip, v1);
      assert v1 <= WalkList(g, cs[1..], skip, v1).0;
    }
  }

  lemma {:induction false} WalkDiscovered(g: Arena, i: nat, skip: set<string>, vis: set<nat>)
    ensures Discovered(g, skip, [i], Walk(g, i, skip, vis).1)
    decreases Range(|g|) - vis, 0
  {
    if i < |g| && i !in vis {
      var cs := Children(g, i, skip);
      var o' := WalkList(g, cs, skip, vis + {i}).1;
      WalkListDiscovered(g, cs, skip, vis + {i});
      assert Walk(g, i, skip, vis).1 == [i] + o';
      DiscoveredBelow(g, skip, i, o');
    }
  }

  /** An order discovered from the children of `i`, put after `i`, is
      discovered from `i`. */
  lemma DiscoveredBelow(g: Arena, skip: set<string>, i: nat, o': seq<nat>)
    requires Discovered(g, skip, Children(g, i, skip), o')
    ensures Discovered(g, skip, [i], [i] + o')
  {
    var o := [i] + o';
    forall k | 0 <= k < |o|
      ensures o[k] in [i] || exists m :: 0 <= m < k && o[k] in Children(g, o[m], skip)
    {
      if k > 0 {
        assert o[k] == o'[k - 1];
        if o'[k - 1] in Children(g, i, skip) {
          assert o[k] in Children(g, o[0], skip);
        } else {
          var m :| 0 <= m < k - 1 && o'[k - 1] in Children(g, o'[m], skip);
          assert o[m + 1] == o'[m];
        }
      }
    }
  }

  lemma {:induction false} WalkListDiscovered(g: Arena, cs: seq<nat>, skip: set<string>, vis: set<nat>)
    ensures Discovered(g, skip, cs, WalkList(g, cs, skip, vis).1)
    decreases Range(|g|) - vis, |cs|
  {
    if cs != [] {
      var (v1, o1) := Walk(g, cs[0], skip, vis);
      var o2 := WalkList(g, cs[1..], skip, v1).1;
      WalkDiscovered(g, cs[0], skip, vis);
      WalkListDiscovered(g, cs[1..], skip, v1);
      assert WalkList(g, cs, skip, vis).1 == o1 + o2;
      assert cs == [cs[0]] + cs[1..];
      DiscoveredConcat(g, skip, cs[0], cs[1..], o1, o2);
    }
  }

  /** Two discovered orders, the first from one root and the second from
      the rest, concatenate into an order discovered from all the roots. */
  lemma DiscoveredConcat(g: Arena, skip: set<string>, c: nat, rest: seq<nat>, o1: seq<nat>, o2: seq<nat>)
    requires Discovered(g, skip, [c], o1) && Discovered(g, skip, rest, o2)
    ensures Discovered(g, skip, [c] + rest, o1 + o2)
  {
    var o := o1 + o2;
    forall k | 0 <= k < |o|
      ensures o[k] in [c] + rest || exists m :: 0 <= m < k && o[k] in Children(g, o[m], skip)
    {
      if k < |o1| {
        assert o[k] == o1[k];
        if o1[k] !in [c] {
          var m :| 0 <= m < k && o1[k] in Children(g, o1[m], skip);
          assert o[m] == o1[m];
        }
      } else {
        assert o[k] == o2[k - |o1|];
        if o2[k - |o1|] !in rest {
          var m :| 0 <= m < k - |o1| && o2[k - |o1|] in Children(g, o2[m], skip);
          assert o[m + |o1|] == o2[m];
        }
      }
    }
  }

  /** `traverse` hands the visitor each node reachable from the root at most
      once (no repeats), all of them (the order is closed under children),
      and each only after a node it is a child of (pre-order). */
  lemma PreOrderFacts(g: Arena, root: Value, skip: set<string>)
    ensures var o := PreOrder(g, root, skip);
      && NoDup(o)
      && (forall r :: r in Roots(g, root) ==> r in o)
      && (forall j, c :: j in o && c in Children(g, j, skip) ==> c in o)
      && Discovered(g, skip, Roots(g, root), o)
  {
    WalkListSets(g, Roots(g, root), skip, {});
    WalkListClosed(g, Roots(g, root), skip, {});
    WalkListDiscovered(g, Roots(g, root), skip, {});
  }

  /** The order holds nothing beyond what is reachable: it lies inside every
      set that contains the roots and is closed under children. */
  lemma {:induction false} PreOrderReachableOnly(g: Arena, root: Value, skip: set<string>, s: set<nat>)
    requires forall r :: r in Roots(g, root) ==> r in s
    requires forall j, c :: j in s && c in Children(g, j, skip) ==> c in s
    ensures forall x :: x in PreOrder(g, root, skip) ==> x in s
  {
    var o := PreOrder(g, root, skip);
    PreOrderFacts(g, root, skip);
    var k := 0;
    while k < |o|
      invariant 0 <= k <= |o|
      invariant forall m :: 0 <= m < k ==> o[m] in s
    {
      if o[k] !in Roots(g, root) {
        var m :| 0 <= m < k && o[k] in Children(g, o[m], skip);
      }
      k := k + 1;
    }
  }

  /** `traverse(node, visitor, processedNodes)` on a node reference. */
  method Visit(g: Arena, i: nat, skip: set<string>, visited: set<nat>) returns (visited': set<nat>, order: seq<nat>)
    ensures (visited', order) == Walk(g, i, skip, visited)
    decreases Range(|g|) - visited, 0
  {
    if i >= |g| || i in visited {
      return visited, [];
    }
    var rest;
    visited', rest := VisitAll(g, Children(g, i, skip), skip, visited + {i});
    order := [i] + rest;
  }

  /** The loop over a node's keys (and over the items of array-valued keys). */
  method VisitAll(g: Arena, cs: seq<nat>, skip: set<string>, visited: set<nat>) returns (visited': set<nat>, order: seq<nat>)
    ensures (visited', order) == WalkList(g, cs, skip, visited)
    decreases Range(|g|) - visited, |cs|
  {
    visited', order := visited, [];
    var k := 0;
    assert cs[0..] == cs;
    while k < |cs|
      invariant 0 <= k <= |cs|
      invariant visited <= visited'
      invariant WalkList(g, cs, skip, visited).0 == WalkList(g, cs[k..], skip, visited').0
      invariant WalkList(g, cs, skip, visited).1 == order + WalkList(g, cs[k..], skip, visited').1
    {
      assert cs[k..][1..] == cs[k + 1..];
      var v, o := Visit(g, cs[k], skip, visited');
      visited', order := v, order + o;
      k := k + 1;
    }
    assert cs[k..] == [];
    assert order + [] == order;
  }

  /** `traverse(root)` with a fresh `processedNodes` set. */
  method Traverse(g: Arena, root: Value, skip: set<string>) returns (order: seq<nat>)
    ensures order == PreOrder(g, root, skip)
    ensures NoDup(order)
    ensures forall r :: r in Roots(g, root) ==> r in order
    ensures forall j, c :: j in order && c in Children(g, j, skip) ==> c in order
  {
    var _, o := VisitAll(g, Roots(g, root), skip, {});
    order := o;
    PreOrderFacts(g, root, skip);
  }
}
