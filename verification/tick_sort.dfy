/** A stable sort of onset records by tick, the behaviour of Python's
    built-in `sorted` keyed on each record's tick field: an insertion
    sort that places a record before the first later record whose tick is not
    smaller, so records with equal ticks keep their original order. */
module TickSort {
  import opened Midi

  predicate SortedByTick(s: seq<Onset>) {
    forall a, b :: 0 <= a < b < |s| ==> s[a].tick <= s[b].tick
  }

  /** The records of `s` whose tick is `t`, in their order in `s`. A sort is
      stable exactly when it leaves every such subsequence unchanged. */
  function WithTick(s: seq<Onset>, t: int): seq<Onset> {
    if |s| == 0 then []
    else (if s[0].tick == t then [s[0]] else []) + WithTick(s[1..], t)
  }

  /** The per-tick subsequence holds exactly the records with that tick. */
  lemma {:induction false} WithTickMembers(s: seq<Onset>, t: int)
    ensures forall o :: o in WithTick(s, t) <==> o in s && o.tick == t
  {
    if |s| > 0 {
      WithTickMembers(s[1..], t);
      assert s == [s[0]] + s[1..];
    }
  }

  lemma {:induction false} WithTickAppend(a: seq<Onset>, b: seq<Onset>, t: int)
    ensures WithTick(a + b, t) == WithTick(a, t) + WithTick(b, t)
  {
    if |a| == 0 {
      assert a + b == b;
    } else {
      var h := if a[0].tick == t then [a[0]] else [];
      assert (a + b)[0] == a[0];
      assert (a + b)[1..] == a[1..] + b;
      WithTickAppend(a[1..], b, t);
      calc {
        WithTick(a + b, t);
        h + WithTick(a[1..] + b, t);
        h + (WithTick(a[1..], t) + WithTick(b, t));
        (h + WithTick(a[1..], t)) + WithTick(b, t);
        WithTick(a, t) + WithTick(b, t);
      }
    }
  }

  /** Prepending a record no later than any record of a sorted sequence
      keeps it sorted. */
  lemma SortedCons(a: Onset, s: seq<Onset>)
    requires SortedByTick(s)
    requires forall y :: y in s ==> a.tick <= y.tick
    ensures SortedByTick([a] + s)
  {
    forall i, j | 0 <= i < j < |[a] + s|
      ensures ([a] + s)[i].tick <= ([a] + s)[j].tick
    {
      if i > 0 {
        assert ([a] + s)[i] == s[i - 1];
      }
      assert ([a] + s)[j] == s[j - 1];
    }
  }

  lemma SortedTail(s: seq<Onset>)
    requires SortedByTick(s) && |s| > 0
    ensures SortedByTick(s[1..])
    ensures forall y :: y in s[1..] ==> s[0].tick <= y.tick
  {
  }

  /** Inserts `x` into the sorted `s` in front of the first record whose tick
      is at least `x.tick`. */
  function Insert(x: Onset, s: seq<Onset>): (r: seq<Onset>)
    requires SortedByTick(s)
    ensures SortedByTick(r)
    ensures multiset(r) == multiset(s) + multiset{x}
    ensures forall y :: y in r ==> y == x || y in s
  {
    if |s| == 0 then [x]
    else if x.tick <= s[0].tick then
      SortedCons(x, s);
      [x] + s
    else
      SortedTail(s);
      var rest := Insert(x, s[1..]);
      SortedCons(s[0], rest);
      assert s == [s[0]] + s[1..];
      [s[0]] + rest
  }

  function SortByTick(s: seq<Onset>): (r: seq<Onset>)
    ensures SortedByTick(r)
    ensures multiset(r) == multiset(s)
  {
    if |s| == 0 then []
    else
      assert s == [s[0]] + s[1..];
      Insert(s[0], SortByTick(s[1..]))
  }

  /** Two records: the first stays in front unless its tick is larger. */
  lemma SortPair(x: Onset, y: Onset)
    ensures SortByTick([x, y]) == if x.tick <= y.tick then [x, y] else [y, x]
  {
    assert [x, y][1..] == [y];
    assert [y][1..] == [];
    assert SortByTick([y]) == [y];
    assert [y][0] == y;
    assert Insert(x, [y]) == if x.tick <= y.tick then [x, y] else [y, x];
  }

  lemma WithTickSingle(a: Onset, t: int)
    ensures WithTick([a], t) == if a.tick == t then [a] else []
  {
    assert [a][1..] == [];
  }

  /** Two records with different ticks never both have tick `t`, so their
      filtered singletons commute. */
  lemma WithTickSwap(a: Onset, b: Onset, t: int)
    requires a.tick != b.tick
    ensures WithTick([a], t) + WithTick([b], t) == WithTick([b], t) + WithTick([a], t)
  {
    WithTickSingle(a, t);
    WithTickSingle(b, t);
  }

  /** Moving `x` past a record with a different tick does not change any
      per-tick subsequence. */
  lemma {:induction false} PassRecord(a: Onset, x: Onset, rest: seq<Onset>, tail: seq<Onset>, t: int)
    requires a.tick != x.tick
    requires WithTick(rest, t) == WithTick([x] + tail, t)
    ensures WithTick([a] + rest, t) == WithTick([x] + ([a] + tail), t)
  {
    var head, mid, w := WithTick([a], t), WithTick([x], t), WithTick(tail, t);
    WithTickSwap(a, x, t);
    WithTickAppend([a], rest, t);
    WithTickAppend([x], tail, t);
    WithTickAppend([a], tail, t);
    WithTickAppend([x], [a] + tail, t);
    calc {
      WithTick([a] + rest, t);
      head + (mid + w);
      (head + mid) + w;
      (mid + head) + w;
      mid + (head + w);
      WithTick([x] + ([a] + tail), t);
    }
  }

  /** Inserting `x` keeps it ahead of every record of `s` with the same tick. */
  lemma {:induction false} InsertStable(x: Onset, s: seq<Onset>, t: int)
    requires SortedByTick(s)
    ensures WithTick(Insert(x, s), t) == WithTick([x] + s, t)
  {
    if |s| == 0 {
      assert [x] + s == [x];
    } else if x.tick > s[0].tick {
      SortedTail(s);
      var rest := Insert(x, s[1..]);
      assert Insert(x, s) == [s[0]] + rest;
      InsertStable(x, s[1..], t);
      PassRecord(s[0], x, rest, s[1..], t);
      assert s == [s[0]] + s[1..];
    }
  }

  /** The sort is stable: for every tick, the records carrying it appear in
      the output in the same order as in the input. */
  lemma {:induction false} SortByTickStable(s: seq<Onset>, t: int)
    ensures WithTick(SortByTick(s), t) == WithTick(s, t)
  {
    if |s| != 0 {
      var sorted := SortByTick(s[1..]);
      SortByTickStable(s[1..], t);
      InsertStable(s[0], sorted, t);
      WithTickAppend([s[0]], sorted, t);
      WithTickAppend([s[0]], s[1..], t);
      assert s == [s[0]] + s[1..];
    }
  }

  lemma NoTicksEmpty(s: seq<Onset>)
    requires forall t :: WithTick(s, t) == []
    ensures s == []
  {
    if |s| > 0 {
      WithTickHead(s);
    }
  }

  lemma WithTickHead(s: seq<Onset>)
    requires |s| > 0
    ensures WithTick(s, s[0].tick) == [s[0]] + WithTick(s[1..], s[0].tick)
  {
  }

  /** Two sorted sequences with the same records at every tick start with
      the same tick: the smallest one. */
  lemma SameFirstTick(a: seq<Onset>, b: seq<Onset>)
    requires SortedByTick(a) && SortedByTick(b) && |a| > 0 && |b| > 0
    requires forall t :: WithTick(a, t) == WithTick(b, t)
    ensures a[0].tick == b[0].tick
  {
    WithTickMembers(a, a[0].tick);
    WithTickMembers(b, a[0].tick);
    WithTickMembers(a, b[0].tick);
    WithTickMembers(b, b[0].tick);
    assert a[0] in WithTick(b, a[0].tick);
    assert b[0] in WithTick(a, b[0].tick);
  }

  /** Equal first ticks and equal per-tick subsequences give equal first
      records and equal per-tick subsequences of the tails. */
  lemma SameHeadSameTails(a: seq<Onset>, b: seq<Onset>)
    requires |a| > 0 && |b| > 0 && a[0].tick == b[0].tick
    requires forall t :: WithTick(a, t) == WithTick(b, t)
    ensures a[0] == b[0]
    ensures forall t :: WithTick(a[1..], t) == WithTick(b[1..], t)
  {
    var m := a[0].tick;
    var x, y := WithTick(a, m), WithTick(b, m);
    assert x == [a[0]] + WithTick(a[1..], m);
    assert y == [b[0]] + WithTick(b[1..], m);
    assert x[1..] == WithTick(a[1..], m);
    assert y[1..] == WithTick(b[1..], m);
    forall t | t != m
      ensures WithTick(a[1..], t) == WithTick(b[1..], t)
    {
      assert WithTick(a, t) == WithTick(a[1..], t);
      assert WithTick(b, t) == WithTick(b[1..], t);
    }
  }

  /** Sortedness and stability determine the result completely: two sorted
      sequences with the same records in the same order at every tick are
      equal. So `SortByTick` computes exactly what a stable sort by tick
      returns. */
  lemma {:induction false} SortedStableUnique(a: seq<Onset>, b: seq<Onset>)
    requires SortedByTick(a) && SortedByTick(b)
    requires forall t :: WithTick(a, t) == WithTick(b, t)
    ensures a == b
  {
    if |a| == 0 {
      NoTicksEmpty(b);
    } else if |b| == 0 {
      NoTicksEmpty(a);
    } else {
      SameFirstTick(a, b);
      SameHeadSameTails(a, b);
      SortedStableUnique(a[1..], b[1..]);
      assert a == [a[0]] + a[1..] && b == [b[0]] + b[1..];
    }
  }
}
