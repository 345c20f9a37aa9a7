/**
  What each single change of a bucket does to the table contents.  The methods of
  `HashTable` are sequences of these steps.
*/
module HashSteps {
  import opened Sequences
  import opened HashSpec

  // ----- one bucket changes -----

  lemma Grow<T>(now: multiset<T>, b: multiset<T>, was: multiset<T>, c: multiset<T>, x: multiset<T>)
    requires now + b == was + c && c == b + x
    ensures now == was + x
  {
    assert now + b == (was + x) + b;
    Cancel(now, was + x, b);
  }

  lemma NextFolded<K, V>(u: seq<seq<Entry<K, V>>>, k: nat)
    requires k < |u|
    ensures Entries(u[..0]) == multiset{} && Filled(u[..0]) == 0
    ensures Entries(u[..k + 1]) == Entries(u[..k]) + multiset(u[k])
    ensures Filled(u[..k + 1]) == Filled(u[..k]) + if u[k] == [] then 0 else 1
  {
    assert u[..k + 1][..k] == u[..k];
  }

  lemma Cancel<T>(a: multiset<T>, b: multiset<T>, c: multiset<T>)
    requires a + c == b + c
    ensures a == b
  {
    forall x: T ensures a[x] == b[x] {
      assert (a + c)[x] == (b + c)[x];
    }
  }

  lemma AppendEntry<K, V>(t: seq<seq<Entry<K, V>>>, b: nat, x: Entry<K, V>)
    requires b < |t|
    ensures Entries(t[b := t[b] + [x]]) == Entries(t) + multiset{x}
    ensures Filled(t[b := t[b] + [x]]) == Filled(t) + if t[b] == [] then 1 else 0
  {
    var now := t[b] + [x];
    EntriesUpdate(t, b, now);
    FilledUpdate(t, b, now);
    Grow(Entries(t[b := now]), multiset(t[b]), Entries(t), multiset(now), multiset{x});
  }

  lemma RemoveEntry<K, V>(t: seq<seq<Entry<K, V>>>, b: nat, n: nat)
    requires b < |t| && n < |t[b]|
    ensures Entries(t) == Entries(t[b := SwapDelete(t[b], n)]) + multiset{t[b][n]}
    ensures Filled(t[b := SwapDelete(t[b], n)]) == Filled(t) - if |t[b]| == 1 then 1 else 0
  {
    var rest := SwapDelete(t[b], n);
    EntriesUpdate(t, b, rest);
    FilledUpdate(t, b, rest);
    SwapDeleteRemovesOne(t[b], n);
    Grow(Entries(t), multiset(rest), Entries(t[b := rest]), multiset(t[b]), multiset{t[b][n]});
  }

  lemma ReplaceEntry<K, V>(t: seq<seq<Entry<K, V>>>, b: nat, n: nat, x: Entry<K, V>)
    requires b < |t| && n < |t[b]|
    ensures Entries(t[b := t[b][n := x]]) + multiset{t[b][n]} == Entries(t) + multiset{x}
    ensures Filled(t[b := t[b][n := x]]) == Filled(t)
  {
    var now := t[b][n := x];
    EntriesUpdate(t, b, now);
    FilledUpdate(t, b, now);
    var common := multiset(t[b]) - multiset{t[b][n]};
    assert multiset(t[b]) == common + multiset{t[b][n]};
    assert multiset(now) == common + multiset{x};
    Replace(Entries(t[b := now]), Entries(t), common, multiset{t[b][n]}, multiset{x});
  }

  lemma Replace<T>(now: multiset<T>, was: multiset<T>, common: multiset<T>, x: multiset<T>, y: multiset<T>)
    requires now + (common + x) == was + (common + y)
    ensures now + x == was + y
  {
    assert (now + x) + common == now + (common + x);
    assert (was + y) + common == was + (common + y);
    Cancel(now + x, was + y, common);
  }

  // ----- doubling: move entry `e` of bucket `n` to bucket `far` -----

  ghost function Moved<K, V>(t: seq<seq<Entry<K, V>>>, n: nat, e: nat, far: nat): seq<seq<Entry<K, V>>>
    requires n < |t| && far < |t| && n != far && e < |t[n]|
  {
    t[far := t[far] + [t[n][e]]][n := SwapDelete(t[n], e)]
  }

  lemma MovedKeepsEntries<K, V>(t: seq<seq<Entry<K, V>>>, n: nat, e: nat, far: nat)
    requires n < |t| && far < |t| && n != far && e < |t[n]|
    ensures Entries(Moved(t, n, e, far)) == Entries(t)
    ensures Filled(Moved(t, n, e, far))
         == Filled(t) + (if t[far] == [] then 1 else 0) - (if |t[n]| == 1 then 1 else 0)
  {
    var x := t[n][e];
    var mid := t[far := t[far] + [x]];
    AppendEntry(t, far, x);
    RemoveEntry(mid, n, e);
    Cancel(Entries(Moved(t, n, e, far)), Entries(t), multiset{x});
  }

  // Buckets below `n`, the upper half, and the first `e` entries of bucket `n` are in their
  // final place; everything else is in the place it had before the table was doubled.
  ghost predicate Relocating<K, V>(t: seq<seq<Entry<K, V>>>, half: nat, n: nat, e: nat)
  {
    && half > 0 && |t| == 2 * half
    && (forall i, j :: 0 <= i < half && 0 <= j < |t[i]| ==> t[i][j].code % half == i)
    && (forall i, j :: half <= i < |t| && 0 <= j < |t[i]| ==> t[i][j].code % (2 * half) == i)
    && (forall i, j :: 0 <= i < n && i < half && 0 <= j < |t[i]| ==> t[i][j].code % (2 * half) == i)
    && (n < half ==> forall j :: 0 <= j < e && j < |t[n]| ==> t[n][j].code % (2 * half) == n)
  }

  lemma MovedKeepsRelocating<K, V>(t: seq<seq<Entry<K, V>>>, half: nat, n: nat, e: nat)
    requires Relocating(t, half, n, e) && n < half && e < |t[n]|
    requires t[n][e].code % (2 * half) != n
    ensures half <= t[n][e].code % (2 * half) < |t|
    ensures Relocating(Moved(t, n, e, t[n][e].code % (2 * half)), half, n, e)
  {
    ModDouble(t[n][e].code, half);
  }

  lemma NextEntry<K, V>(t: seq<seq<Entry<K, V>>>, half: nat, n: nat, e: nat)
    requires Relocating(t, half, n, e) && n < half && e < |t[n]|
    requires t[n][e].code % (2 * half) == n
    ensures Relocating(t, half, n, e + 1)
  {
  }

  lemma NextBucket<K, V>(t: seq<seq<Entry<K, V>>>, half: nat, n: nat)
    requires n < half <= |t| && Relocating(t, half, n, |t[n]|)
    ensures Relocating(t, half, n + 1, 0)
  {
  }

  lemma WidenedIsRelocating<K, V>(t: seq<seq<Entry<K, V>>>, half: nat)
    requires 0 < half && |t| == 2 * half && Placed(t[..half])
    requires forall i :: half <= i < |t| ==> t[i] == []
    ensures Relocating(t, half, 0, 0)
    ensures Entries(t) == Entries(t[..half]) && Filled(t) == Filled(t[..half])
  {
    assert t == t[..half] + t[half..];
    EntriesConcat(t[..half], t[half..]);
    FilledConcat(t[..half], t[half..]);
    EmptyTable(t[half..]);
    forall i, j | 0 <= i < half && 0 <= j < |t[i]| ensures t[i][j].code % half == i {
      assert t[..half][i] == t[i];
    }
  }

  lemma {:induction false} EmptyTable<K, V>(t: seq<seq<Entry<K, V>>>)
    requires forall i :: 0 <= i < |t| ==> t[i] == []
    ensures Entries(t) == multiset{} && Filled(t) == 0
  {
    if t != [] {
      EmptyTable(t[..|t| - 1]);
    }
  }

  lemma RelocatedIsPlaced<K, V>(t: seq<seq<Entry<K, V>>>, half: nat)
    requires Relocating(t, half, half, 0)
    ensures Placed(t)
  {
  }

  // ----- halving: copy an entry of the released upper half to bucket `to` -----

  lemma FoldStep<K, V>(t: seq<seq<Entry<K, V>>>, half: nat, x: Entry<K, V>)
    requires 0 < half <= |t| && Placed(t[..half])
    ensures var to := x.code % half;
            var t' := t[to := t[to] + [x]];
            && t'[half..] == t[half..]
            && Placed(t'[..half])
            && Entries(t'[..half]) == Entries(t[..half]) + multiset{x}
            && Filled(t'[..half]) == Filled(t[..half]) + if t[to] == [] then 1 else 0
  {
    var to := x.code % half;
    var t' := t[to := t[to] + [x]];
    var low := t[..half];
    AppendEntry(low, to, x);
    assert t'[..half] == low[to := low[to] + [x]];
    assert low[to] == t[to];
  }

  // ----- lookups -----

  lemma Absent<K(!new), V>(keying: Keying<K>, t: seq<seq<Entry<K, V>>>, m: map<K, V>, k: K)
    requires |t| > 0 && Placed(t) && Entries(t) == Image(keying.code, m)
    requires forall j :: 0 <= j < |t[keying.code(k) % |t|]| ==>
               var x := t[keying.code(k) % |t|][j]; x.code != keying.code(k) || !keying.equals(x.key, k)
    ensures !keying.Has(m, k)
  {
    if r :| r in m && keying.Same(r, k) {
      var x := Entry(keying.code(r), r, m[r]);
      ImageMember(keying.code, m, x);
      EntrySlot(t, x);
    }
  }

  lemma EntrySlot<K, V>(t: seq<seq<Entry<K, V>>>, x: Entry<K, V>)
    requires |t| > 0 && Placed(t) && x in Entries(t)
    ensures x in t[x.code % |t|]
  {
    EntryAt(t, x);
    var i :| 0 <= i < |t| && x in t[i];
    var j :| 0 <= j < |t[i]| && t[i][j] == x;
  }

  lemma Present<K(!new), V>(keying: Keying<K>, t: seq<seq<Entry<K, V>>>, m: map<K, V>, k: K, b: nat, n: nat)
    requires keying.Equivalence() && keying.Distinct(m) && Entries(t) == Image(keying.code, m)
    requires b < |t| && n < |t[b]|
    requires t[b][n].code == keying.code(k) && keying.equals(t[b][n].key, k)
    ensures keying.Has(m, k) && keying.Rep(m, k) == t[b][n].key
    ensures t[b][n] == Entry(keying.code(k), keying.Rep(m, k), m[keying.Rep(m, k)])
  {
    var x := t[b][n];
    assert x in t[b];
    EntryAt(t, x);
    ImageMember(keying.code, m, x);
    assert keying.Same(x.key, k);
    var r := keying.Rep(m, k);
    assert keying.Same(r, x.key);
  }

  lemma PowerOfTwoQuarters(n: nat)
    requires PowerOfTwo(n) && n >= 4
    ensures n % 4 == 0
    ensures n > 4 ==> n % 8 == 0
  {
    assert PowerOfTwo(n / 2) && PowerOfTwo(n / 2 / 2);
    if n > 4 { assert PowerOfTwo(n / 4 / 2); }
  }

  // ----- the finite map follows the bucket -----

  lemma ReplacedImage<K, V>(code: K -> nat, m: map<K, V>, k: K, v: V, now: multiset<Entry<K, V>>)
    requires k in m
    requires now + multiset{Entry(code(k), k, m[k])} == Image(code, m) + multiset{Entry(code(k), k, v)}
    ensures now == Image(code, m[k := v])
  {
    var rest := m - {k};
    ImageRemove(code, m, k);
    ImageInsert(code, rest, k, v);
    assert rest[k := v] == m[k := v];
    Cancel(now, Image(code, m[k := v]), multiset{Entry(code(k), k, m[k])});
  }

  lemma NewKeyDistinct<K(!new), V>(keying: Keying<K>, m: map<K, V>, k: K, v: V)
    requires keying.Equivalence() && keying.Distinct(m) && !keying.Has(m, k)
    ensures k !in m && keying.Distinct(m[k := v])
  {
    assert keying.Same(k, k);
    forall a, b | a in m[k := v] && b in m[k := v] && keying.Same(a, b) ensures a == b {
      assert keying.Same(b, a);
    }
  }

  lemma RemovedStands<K(!new), V>(keying: Keying<K>, t: seq<seq<Entry<K, V>>>, m: map<K, V>, b: nat, n: nat, k: K)
    requires Placed(t) && keying.Distinct(m) && Entries(t) == Image(keying.code, m)
    requires b < |t| && n < |t[b]| && k in m && t[b][n] == Entry(keying.code(k), k, m[k])
    ensures var t' := t[b := SwapDelete(t[b], n)];
            Placed(t') && keying.Distinct(m - {k}) && Entries(t') == Image(keying.code, m - {k})
  {
    RemoveEntry(t, b, n);
    ImageRemove(keying.code, m, k);
    Cancel(Entries(t[b := SwapDelete(t[b], n)]), Image(keying.code, m - {k}), multiset{t[b][n]});
  }

  lemma StoredEntry<K, V>(code: K -> nat, t: seq<seq<Entry<K, V>>>, m: map<K, V>, b: nat, n: nat)
    requires Entries(t) == Image(code, m) && b < |t| && n < |t[b]|
    ensures t[b][n].key in m && m[t[b][n].key] == t[b][n].value
  {
    assert t[b][n] in t[b];
    EntryAt(t, t[b][n]);
    ImageMember(code, m, t[b][n]);
  }

  lemma NoSuchValue<K, V>(code: K -> nat, t: seq<seq<Entry<K, V>>>, m: map<K, V>, v: V)
    requires Entries(t) == Image(code, m)
    requires forall i, j :: 0 <= i < |t| && 0 <= j < |t[i]| ==> t[i][j].value != v
    ensures v !in m.Values
  {
    if k :| k in m && m[k] == v {
      ImageMember(code, m, Entry(code(k), k, v));
      EntryAt(t, Entry(code(k), k, v));
    }
  }
}
