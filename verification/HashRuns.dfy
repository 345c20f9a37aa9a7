/**
  Whole runs of the hash table: what a sequence of operations answers, how `fill` drifts
  away from the number of non-empty buckets, and how far apart opposite resizes are.
*/
module HashRuns {
  import opened Options
  import opened HashSpec
  import opened HashSteps
  import opened HashTable

  datatype Op<K, V> = Put(key: K, value: V) | Delete(key: K) | Get(key: K) | Exists(key: K) | Size

  datatype Answer<V> = Pointer(value: V) | Flag(yes: bool) | Count(n: nat)

  // ----- the table after a run, and what the run itself says about a key -----

  ghost function After<K(!new), V>(keying: Keying<K>, ops: seq<Op<K, V>>): map<K, V>
  {
    if ops == [] then map[]
    else
      var m := After(keying, ops[..|ops| - 1]);
      match ops[|ops| - 1]
      case Put(k, v) => keying.PutSpec(m, k, v)
      case Delete(k) => keying.DeleteSpec(m, k)
      case _ => m
  }

  // The last value put under a key the table cannot tell from `k`, unless deleted since.
  ghost function LastWrite<K(!new), V>(keying: Keying<K>, ops: seq<Op<K, V>>, k: K): Option<V>
  {
    if ops == [] then None
    else
      var earlier := ops[..|ops| - 1];
      match ops[|ops| - 1]
      case Put(k', v) => if keying.Same(k', k) then Some(v) else LastWrite(keying, earlier, k)
      case Delete(k') => if keying.Same(k', k) then None else LastWrite(keying, earlier, k)
      case _ => LastWrite(keying, earlier, k)
  }

  lemma {:induction false} RunIsHistory<K(!new), V>(keying: Keying<K>, ops: seq<Op<K, V>>, k: K, nil: V)
    requires keying.Equivalence()
    ensures keying.Distinct(After(keying, ops))
    ensures keying.Has(After(keying, ops), k) <==> LastWrite(keying, ops, k).Some?
    ensures LastWrite(keying, ops, k).Some? ==>
      keying.GetSpec(After(keying, ops), k, nil) == LastWrite(keying, ops, k).value
  {
    if ops != [] {
      var earlier, op := ops[..|ops| - 1], ops[|ops| - 1];
      RunIsHistory(keying, earlier, k, nil);
      match op
      case Put(k', v) => PutIsHistory(keying, After(keying, earlier), k', v, k);
      case Delete(k') => DeleteIsHistory(keying, After(keying, earlier), k', k);
      case _ =>
    }
  }

  lemma PutIsHistory<K(!new), V>(keying: Keying<K>, m: map<K, V>, k': K, v: V, k: K)
    requires keying.Equivalence() && keying.Distinct(m)
    ensures var m' := keying.PutSpec(m, k', v);
            && keying.Distinct(m')
            && (keying.Has(m', k) <==> keying.Same(k', k) || keying.Has(m, k))
            && (keying.Same(k', k) ==> m'[keying.Rep(m', k)] == v)
            && (!keying.Same(k', k) && keying.Has(m, k) ==> m'[keying.Rep(m', k)] == m[keying.Rep(m, k)])
  {
    var m' := keying.PutSpec(m, k', v);
    var r := if keying.Has(m, k') then keying.Rep(m, k') else k';
    assert keying.Same(r, k');
    if !keying.Has(m, k') { NewKeyDistinct(keying, m, k', v); }
    if keying.Same(k', k) {
      assert r in m' && keying.Same(r, k);
      assert keying.Same(keying.Rep(m', k), r);
    } else if keying.Has(m, k) {
      var q := keying.Rep(m, k);
      assert q in m' && q != r;
      assert keying.Same(keying.Rep(m', k), q);
    }
    if keying.Has(m', k) && !keying.Same(k', k) {
      var q := keying.Rep(m', k);
      assert q != r;
      assert q in m;
    }
  }

  lemma DeleteIsHistory<K(!new), V>(keying: Keying<K>, m: map<K, V>, k': K, k: K)
    requires keying.Equivalence() && keying.Distinct(m)
    ensures var m' := keying.DeleteSpec(m, k');
            && keying.Distinct(m')
            && (keying.Has(m', k) <==> !keying.Same(k', k) && keying.Has(m, k))
            && (keying.Has(m', k) ==> m'[keying.Rep(m', k)] == m[keying.Rep(m, k)])
  {
    var m' := keying.DeleteSpec(m, k');
    if keying.Has(m, k) {
      var q := keying.Rep(m, k);
      if keying.Has(m, k') {
        var r := keying.Rep(m, k');
        if keying.Same(k', k) {
          assert keying.Same(r, q);
          assert q == r;
          forall p | p in m && keying.Same(p, k) ensures p == r { assert keying.Same(p, r); }
        } else {
          assert q != r;
        }
      }
      if keying.Has(m', k) {
        assert keying.Same(keying.Rep(m', k), q);
      }
    }
  }

  // `keys` counts the live keys up to `Same`: no set of live, pairwise different keys is larger.
  lemma SizeCountsLiveKeys<K(!new), V>(keying: Keying<K>, ops: seq<Op<K, V>>, live: set<K>, nil: V)
    requires keying.Equivalence()
    requires forall k :: k in live ==> LastWrite(keying, ops, k).Some?
    requires forall a, b :: a in live && b in live && keying.Same(a, b) ==> a == b
    ensures |live| <= |After(keying, ops)|
    ensures forall k :: k in After(keying, ops) ==> LastWrite(keying, ops, k).Some?
  {
    var m := After(keying, ops);
    forall k ensures k in m || k in live ==> keying.Has(m, k) && LastWrite(keying, ops, k).Some? {
      RunIsHistory(keying, ops, k, nil);
      if k in m { assert keying.Same(k, k); }
    }
    LiveBound(keying, m, live);
    assert |m.Keys| == |m|;
  }

  lemma {:induction false} LiveBound<K(!new), V>(keying: Keying<K>, m: map<K, V>, live: set<K>)
    requires keying.Equivalence()
    requires forall k :: k in live ==> keying.Has(m, k)
    requires forall a, b :: a in live && b in live && keying.Same(a, b) ==> a == b
    ensures |live| <= |m.Keys|
  {
    if live != {} {
      var k :| k in live;
      var r := keying.Rep(m, k);
      var m' := m - {r};
      forall a | a in live - {k} ensures keying.Has(m', a) {
        var q := keying.Rep(m, a);
        assert q == r ==> keying.Same(a, k);
        assert q in m';
      }
      LiveBound(keying, m', live - {k});
      assert m.Keys == m'.Keys + {r};
    }
  }

  // ----- the class answers as the run says -----

  ghost function Expected<K(!new), V>(keying: Keying<K>, nil: V, earlier: seq<Op<K, V>>, op: Op<K, V>): Answer<V>
  {
    match op
    case Size => Count(|After(keying, earlier)|)
    case Exists(k) => Flag(LastWrite(keying, earlier, k).Some?)
    case _ =>
      var w := LastWrite(keying, earlier, op.key);
      Pointer(if w.Some? then w.value else nil)
  }

  method Perform<K(!new), V(==)>(table: Table<K, V>, op: Op<K, V>, ghost earlier: seq<Op<K, V>>)
    returns (answer: Answer<V>)
    requires table.Valid() && table.model == After(table.keying, earlier)
    modifies table
    ensures table.Valid() && table.model == After(table.keying, earlier + [op])
    ensures answer == Expected(table.keying, table.nil, earlier, op)
  {
    assert (earlier + [op])[..|earlier + [op]| - 1] == earlier;
    if !op.Size? {
      RunIsHistory(table.keying, earlier, op.key, table.nil);
    }
    match op
    case Put(k, v) => var p := table.Put(k, v); answer := Pointer(p);
    case Delete(k) => var p := table.Delete(k); answer := Pointer(p);
    case Get(k) => var p := table.Get(k); answer := Pointer(p);
    case Exists(k) => var b := table.Exists(k); answer := Flag(b);
    case Size => var n := table.Size(); answer := Count(n);
  }

  // Any run from an empty table, through whatever resizes it triggers.
  method Replay<K(!new), V(==)>(table: Table<K, V>, ops: seq<Op<K, V>>) returns (answers: seq<Answer<V>>)
    requires table.Valid() && table.model == map[]
    modifies table
    ensures table.Valid() && table.model == After(table.keying, ops)
    ensures |answers| == |ops|
    ensures forall i :: 0 <= i < |ops| ==> answers[i] == Expected(table.keying, table.nil, ops[..i], ops[i])
  {
    hide After, LastWrite, Expected, Table.Valid, Table.Sound, Table.Counted;
    answers := [];
    NothingYet(table.keying, ops[..0]);
    while |answers| < |ops|
      invariant |answers| <= |ops|
      invariant table.Valid() && table.model == After(table.keying, ops[..|answers|])
      invariant forall i :: 0 <= i < |answers| ==> answers[i] == Expected(table.keying, table.nil, ops[..i], ops[i])
    {
      var i := |answers|;
      assert ops[..i + 1] == ops[..i] + [ops[i]];
      var a := Perform(table, ops[i], ops[..i]);
      answers := answers + [a];
    }
    assert ops[..|answers|] == ops;
  }

  lemma NothingYet<K(!new), V>(keying: Keying<K>, ops: seq<Op<K, V>>)
    ensures ops == [] ==> After(keying, ops) == map[]
  {
  }

  // ----- where `fill` is decremented while halving -----

  // From an exact `fill` below the shrink limit, the coded decrement always miscounts.
  lemma CodedShrinkMiscounts<K, V>(t: seq<seq<Entry<K, V>>>)
    requires |t| % 8 == 0 && |t| > 0 && 4 * Filled(t) < |t|
    ensures Excess(Coded, t) >= |t| / 4
    ensures Excess(Intended, t) == 0
  {
    var half := |t| / 2;
    assert t == t[..half] + t[half..];
    FilledConcat(t[..half], t[half..]);
    FilledIsOccupied(t[half..]);
  }

  // In general it is exact just when no released bucket was empty.
  lemma CodedShrinkExactIff<K, V>(t: seq<seq<Entry<K, V>>>)
    requires |t| % 2 == 0
    ensures Excess(Coded, t) == 0 <==> forall i :: |t| / 2 <= i < |t| ==> t[i] != []
  {
    var upper := t[|t| / 2..];
    FilledIsOccupied(upper);
    FullIff(upper);
    assert forall i :: |t| / 2 <= i < |t| ==> t[i] == upper[i - |t| / 2];
    if i :| |t| / 2 <= i < |t| && t[i] == [] {
      assert upper[i - |t| / 2] == [];
    }
  }

  lemma {:induction false} FullIff<K, V>(t: seq<seq<Entry<K, V>>>)
    ensures Filled(t) == |t| <==> forall i :: 0 <= i < |t| ==> t[i] != []
  {
    if t != [] {
      FullIff(t[..|t| - 1]);
      FilledIsOccupied(t[..|t| - 1]);
      assert forall i :: 0 <= i < |t| - 1 ==> t[..|t| - 1][i] == t[i];
    }
  }

  // Eight buckets, one of them in use: `fill` ends four below the true count of one.
  lemma CodedShrinkExample()
    ensures var x := Entry(0, "k", 1);
            Excess(Coded, [[x], [], [], [], [], [], [], []]) == 4
  {
    var x := Entry(0, "k", 1);
    var t: seq<seq<Entry<string, int>>> := [[x], [], [], [], [], [], [], []];
    assert t[4..] == [[], [], [], []];
    EmptyTable(t[4..]);
  }

  // ----- opposite resizes are far apart -----

  ghost predicate Trace(run: seq<Snapshot>) {
    forall i :: 0 <= i < |run| - 1 ==> Stepped(run[i], run[i + 1])
  }

  ghost predicate QuietBetween(run: seq<Snapshot>, lo: nat, hi: nat)
    requires hi < |run|
  {
    forall i :: lo <= i < hi ==> Quiet(run[i], run[i + 1])
  }

  lemma {:induction false} QuietDrift(run: seq<Snapshot>, lo: nat, hi: nat)
    requires lo <= hi < |run| && QuietBetween(run, lo, hi)
    ensures run[hi].buckets == run[lo].buckets
    ensures run[lo].filled - (hi - lo) <= run[hi].filled <= run[lo].filled + (hi - lo)
    decreases hi - lo
  {
    if lo < hi {
      QuietDrift(run, lo, hi - 1);
    }
  }

  // So many buckets have become empty by then.
  lemma ShrinkAfterExpand(run: seq<Snapshot>, i: nat, j: nat)
    requires Trace(run) && i + 1 <= j < |run| - 1 && QuietBetween(run, i + 1, j)
    requires Expanded(run[i], run[i + 1]) && Shrunk(run[j], run[j + 1])
    ensures 8 * (run[i + 1].filled - run[j].filled) > run[j].buckets
    ensures 8 * (j - (i + 1)) > run[j].buckets
  {
    QuietDrift(run, i + 1, j);
    assert Stepped(run[j], run[j + 1]);
    var b, b' := run[i].buckets, run[j + 1].buckets;
    assert b == b';
    assert b % 4 == 0;
    SlopeDown(b / 4, run[i + 1].filled, run[j].filled);
  }

  lemma SlopeDown(q: nat, high: nat, low: nat)
    requires 8 * high > 24 * q && 4 * (low - 1) < 8 * q
    ensures 8 * (high - low) > 8 * q
  {
    assert high > 3 * q;
    assert low <= 2 * q;
  }

  // So many empty buckets have been filled by then.
  lemma ExpandAfterShrink(run: seq<Snapshot>, i: nat, j: nat)
    requires Trace(run) && i + 1 <= j < |run| - 1 && QuietBetween(run, i + 1, j)
    requires Shrunk(run[i], run[i + 1]) && Expanded(run[j], run[j + 1])
    ensures 4 * (run[j].filled - run[i + 1].filled) > run[j].buckets
    ensures 4 * (j - (i + 1)) > run[j].buckets
  {
    QuietDrift(run, i + 1, j);
    assert Stepped(run[j], run[j + 1]);
    var b := run[j].buckets;
    assert run[i + 1].buckets == b && b % 4 == 0;
    SlopeUp(b / 4, run[i + 1].filled, run[j].filled);
  }

  lemma SlopeUp(q: nat, low: nat, high: nat)
    requires 2 * low < 4 * q && 4 * (high + 1) > 12 * q
    ensures 4 * (high - low) > 4 * q
  {
    assert low < 2 * q;
    assert high >= 3 * q;
  }

  // With the coded decrement there is no such distance: after the first reduction the next put
  // into an empty bucket undoes it.
  method CodedReductionUndone<K(!new), V(==)>(table: Table<K, V>, gone: K, key: K, value: V)
    returns (reduced: bool, empty: bool)
    requires table.Valid() && table.placement == Coded && table.shrinks == 0
    modifies table
    ensures table.Valid()
    ensures reduced && empty ==> table.buckets == old(table.buckets)
    ensures reduced && !empty ==> 2 * table.buckets == old(table.buckets)
  {
    hide Keying.PutSpec, Keying.DeleteSpec, Keying.GetSpec, Stepped;
    var buckets := table.buckets;
    var _ := table.Delete(gone);
    reduced := table.buckets != buckets;
    empty := table.table[table.keying.code(key) % table.buckets] == [];
    var _ := table.Put(key, value);
  }
}
