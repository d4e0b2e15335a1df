/** A JavaScript `Set` as the source uses it: `add` keeps the first insertion
    and iteration (`Array.from`, spread) follows insertion order. The set is
    modelled by the sequence of its elements in that order. */
module OrderedSet {

  predicate NoDup<T(==)>(s: seq<T>) {
    forall a, b :: 0 <= a < b < |s| ==> s[a] != s[b]
  }

  /** `set.add(x)`. */
  function Insert<T(==)>(s: seq<T>, x: T): (r: seq<T>)
    ensures x in r
    ensures r == s || r == s + [x]
    ensures NoDup(s) ==> NoDup(r)
  {
    if x in s then s else s + [x]
  }

  /** `xs.forEach(x => set.add(x))`. */
  function InsertAll<T(==)>(s: seq<T>, xs: seq<T>): seq<T>
    decreases |xs|
  {
    if xs == [] then s else InsertAll(Insert(s, xs[0]), xs[1..])
  }

  /** `[...new Set(xs)]`. */
  function Dedup<T(==)>(xs: seq<T>): seq<T> {
    InsertAll([], xs)
  }

  /** Reference definition of "first occurrences, in order", built from the
      other end of the sequence. */
  function FirstOccurrences<T(==)>(xs: seq<T>): seq<T>
    decreases |xs|
  {
    if xs == [] then []
    else
      var init, last := xs[..|xs| - 1], xs[|xs| - 1];
      FirstOccurrences(init) + (if last in init then [] else [last])
  }

  lemma {:induction false} InsertAllFacts<T>(s: seq<T>, xs: seq<T>)
    ensures var r := InsertAll(s, xs);
      && (forall y :: y in r <==> y in s || y in xs)
      && |s| <= |r| && r[..|s|] == s
      && (NoDup(s) ==> NoDup(r))
    decreases |xs|
  {
    if xs != [] {
      InsertAllFacts(Insert(s, xs[0]), xs[1..]);
      var r := InsertAll(s, xs);
      forall y
        ensures y in r <==> y in s || y in xs
      {
        assert y in xs <==> y == xs[0] || y in xs[1..] by {
          assert xs == [xs[0]] + xs[1..];
        }
      }
      assert Insert(s, xs[0])[..|s|] == s;
    }
  }

  lemma {:induction false} InsertAllSnoc<T>(s: seq<T>, xs: seq<T>, y: T)
    ensures InsertAll(s, xs + [y]) == Insert(InsertAll(s, xs), y)
    decreases |xs|
  {
    if xs == [] {
      assert [y][1..] == [];
    } else {
      assert (xs + [y])[1..] == xs[1..] + [y];
      InsertAllSnoc(Insert(s, xs[0]), xs[1..], y);
    }
  }

  /** The insertion-ordered set keeps exactly the first occurrence of each
      element, in the order of those first occurrences. */
  lemma {:induction false} DedupIsFirstOccurrences<T>(xs: seq<T>)
    ensures Dedup(xs) == FirstOccurrences(xs)
    decreases |xs|
  {
    if xs != [] {
      var init, last := xs[..|xs| - 1], xs[|xs| - 1];
      assert xs == init + [last];
      DedupIsFirstOccurrences(init);
      InsertAllSnoc([], init, last);
      InsertAllFacts([], init);
    }
  }

  /** The deduplicated sequence has no repeats and the same elements. */
  lemma DedupFacts<T>(xs: seq<T>)
    ensures NoDup(Dedup(xs))
    ensures forall y :: y in Dedup(xs) <==> y in xs
  {
    InsertAllFacts([], xs);
  }

  /** Deduplicating what has no repeats changes nothing. */
  lemma {:induction false} DedupOfNoDup<T>(s: seq<T>)
    requires NoDup(s)
    ensures Dedup(s) == s
    decreases |s|
  {
    if s != [] {
      var init, last := s[..|s| - 1], s[|s| - 1];
      assert s == init + [last];
      assert NoDup(init);
      DedupOfNoDup(init);
      InsertAllSnoc([], init, last);
      assert last !in init;
    }
  }

  lemma DedupIdempotent<T>(xs: seq<T>)
    ensures Dedup(Dedup(xs)) == Dedup(xs)
  {
    DedupFacts(xs);
    DedupOfNoDup(Dedup(xs));
  }

  /** Deduplicating a concatenation: the first part's result comes first and
      the second part only adds what is new. */
  lemma {:induction false} DedupAppend<T>(a: seq<T>, b: seq<T>)
    ensures Dedup(a + b) == InsertAll(Dedup(a), b)
    ensures |Dedup(a)| <= |Dedup(a + b)| && Dedup(a + b)[..|Dedup(a)|] == Dedup(a)
    decreases |b|
  {
    if b == [] {
      assert a + b == a;
    } else {
      var init, last := b[..|b| - 1], b[|b| - 1];
      assert b == init + [last];
      assert a + b == (a + init) + [last];
      DedupAppend(a, init);
      InsertAllSnoc([], a + init, last);
      InsertAllSnoc(Dedup(a), init, last);
    }
    InsertAllFacts(Dedup(a), b);
  }

  /** Adding two runs of elements is adding their concatenation. */
  lemma {:induction false} InsertAllAppend<T>(s: seq<T>, a: seq<T>, b: seq<T>)
    ensures InsertAll(s, a + b) == InsertAll(InsertAll(s, a), b)
    decreases |a|
  {
    if a == [] {
      assert a + b == b;
    } else {
      assert (a + b)[0] == a[0] && (a + b)[1..] == a[1..] + b;
      InsertAllAppend(Insert(s, a[0]), a[1..], b);
    }
  }
}
