/**
  Values and pure functions behind the bucket hash table of libserveez/hash.c:
  what a table contents means, when every entry sits in its bucket, how full a table is,
  and the finite map a table stands for.
*/
module HashSpec {
  import opened Sequences

  datatype Entry<K, V> = Entry(code: nat, key: K, value: V)

  // ----- bucket numbers: `code & (buckets - 1)` -----

  ghost predicate PowerOfTwo(n: nat)
  {
    n == 1 || (n > 1 && n % 2 == 0 && PowerOfTwo(n / 2))
  }

  // Bitwise conjunction of two unsigned numbers.
  function And(x: nat, y: nat): nat
  {
    if x == 0 || y == 0 then 0 else (x % 2) * (y % 2) + 2 * And(x / 2, y / 2)
  }

  lemma {:induction false} MaskIsMod(code: nat, buckets: nat)
    requires PowerOfTwo(buckets)
    ensures And(code, buckets - 1) == code % buckets
  {
    if buckets > 1 {
      var half := buckets / 2;
      var c := code / 2;
      MaskIsMod(c, half);
      assert (buckets - 1) / 2 == half - 1 && (buckets - 1) % 2 == 1;
      HalveMod(code, half);
    }
  }

  lemma HalveMod(code: nat, half: nat)
    requires half > 0
    ensures code % (2 * half) == code % 2 + 2 * (code / 2 % half)
  {
    var c := code / 2;
    var q, r := c / half, c % half;
    assert c == half * q + r;
    assert 2 * (half * q) == (2 * half) * q;
    ModUnique(code, 2 * half, q, 2 * r + code % 2);
  }

  lemma MulAtLeast(h: nat, d: nat)
    requires d > 0
    ensures h * d >= h
  {
    assert h * d == h * (d - 1) + h;
  }

  lemma ModUnique(c: int, h: nat, q: int, r: nat)
    requires 0 <= r < h && c == h * q + r
    ensures c % h == r
  {
    var q', r' := c / h, c % h;
    assert c == h * q' + r';
    assert h * (q - q') == h * q - h * q' == r' - r;
    assert h * (q' - q) == r - r';
    if q > q' {
      MulAtLeast(h, q - q');
    } else if q < q' {
      MulAtLeast(h, q' - q);
    }
  }

  // Doubling the number of buckets leaves a code where it was or moves it one half up.
  lemma ModDouble(c: nat, half: nat)
    requires half > 0
    ensures c % (2 * half) == c % half || c % (2 * half) == c % half + half
    ensures c % (2 * half) % half == c % half
  {
    var q, r := c / (2 * half), c % (2 * half);
    assert c == 2 * half * q + r;
    assert 2 * half * q == half * (2 * q);
    if r < half {
      ModUnique(c, half, 2 * q, r);
    } else {
      assert half * (2 * q + 1) == half * (2 * q) + half;
      ModUnique(c, half, 2 * q + 1, r - half);
      ModUnique(r, half, 1, r - half);
    }
  }

  function Slot(code: nat, buckets: nat): (r: nat)
    requires PowerOfTwo(buckets)
    ensures r == code % buckets
  {
    MaskIsMod(code, buckets);
    And(code, buckets - 1)
  }

  // ----- table contents -----

  ghost function Entries<K, V>(t: seq<seq<Entry<K, V>>>): multiset<Entry<K, V>>
  {
    if t == [] then multiset{} else Entries(t[..|t| - 1]) + multiset(t[|t| - 1])
  }

  lemma {:induction false} EntriesUpdate<K, V>(t: seq<seq<Entry<K, V>>>, i: nat, b: seq<Entry<K, V>>)
    requires i < |t|
    ensures Entries(t[i := b]) + multiset(t[i]) == Entries(t) + multiset(b)
  {
    var n := |t| - 1;
    var now := t[i := b];
    var rest, rest' := Entries(t[..n]), Entries(now[..n]);
    assert Entries(now) == rest' + multiset(now[n]);
    assert Entries(t) == rest + multiset(t[n]);
    if i < n {
      EntriesUpdate(t[..n], i, b);
      assert now[..n] == t[..n][i := b];
      assert rest' + multiset(t[i]) == rest + multiset(b);
      Exchange(rest', multiset(t[i]), rest, multiset(b), multiset(t[n]));
    } else {
      assert now[..n] == t[..n];
    }
  }

  lemma Exchange<T>(a: multiset<T>, b: multiset<T>, c: multiset<T>, d: multiset<T>, x: multiset<T>)
    requires a + b == c + d
    ensures a + x + b == c + x + d
  {
    assert a + x + b == (a + b) + x;
    assert c + x + d == (c + d) + x;
  }

  lemma {:induction false} EntriesConcat<K, V>(s: seq<seq<Entry<K, V>>>, t: seq<seq<Entry<K, V>>>)
    ensures Entries(s + t) == Entries(s) + Entries(t)
  {
    if t == [] {
      assert s + t == s;
    } else {
      var n := |t| - 1;
      EntriesConcat(s, t[..n]);
      assert (s + t)[..|s + t| - 1] == s + t[..n];
    }
  }

  // An entry belongs to the table contents exactly when some bucket holds it.
  lemma {:induction false} EntryAt<K, V>(t: seq<seq<Entry<K, V>>>, x: Entry<K, V>)
    ensures x in Entries(t) <==> exists i :: 0 <= i < |t| && x in t[i]
  {
    if t != [] {
      var n := |t| - 1;
      EntryAt(t[..n], x);
      if x in t[n] {
        assert x in multiset(t[n]);
      } else {
        assert x !in multiset(t[n]);
        forall i | 0 <= i < |t| && x in t[i] ensures exists k :: 0 <= k < n && x in t[..n][k] {
          assert t[..n][i] == t[i];
        }
        if k :| 0 <= k < n && x in t[..n][k] {
          assert x in t[k];
        }
      }
    }
  }

  // Every entry sits in bucket `code mod buckets`.
  ghost predicate Placed<K, V>(t: seq<seq<Entry<K, V>>>)
  {
    forall i, j :: 0 <= i < |t| && 0 <= j < |t[i]| ==> t[i][j].code % |t| == i
  }

  // ----- the number of non-empty buckets -----

  ghost function Filled<K, V>(t: seq<seq<Entry<K, V>>>): nat
  {
    if t == [] then 0 else Filled(t[..|t| - 1]) + if t[|t| - 1] == [] then 0 else 1
  }

  ghost function Occupied<K, V>(t: seq<seq<Entry<K, V>>>): set<int>
  {
    set i | 0 <= i < |t| && t[i] != []
  }

  lemma {:induction false} FilledIsOccupied<K, V>(t: seq<seq<Entry<K, V>>>)
    ensures Filled(t) == |Occupied(t)|
    ensures Filled(t) <= |t|
  {
    if t != [] {
      var n := |t| - 1;
      FilledIsOccupied(t[..n]);
      if t[n] == [] {
        assert Occupied(t) == Occupied(t[..n]);
      } else {
        assert Occupied(t) == Occupied(t[..n]) + {n};
      }
    }
  }

  lemma {:induction false} FilledUpdate<K, V>(t: seq<seq<Entry<K, V>>>, i: nat, b: seq<Entry<K, V>>)
    requires i < |t|
    ensures Filled(t[i := b]) + (if t[i] == [] then 0 else 1) == Filled(t) + if b == [] then 0 else 1
  {
    var n := |t| - 1;
    if i < n {
      FilledUpdate(t[..n], i, b);
      assert t[i := b][..n] == t[..n][i := b];
    } else {
      assert t[i := b][..n] == t[..n];
    }
  }

  lemma {:induction false} FilledConcat<K, V>(s: seq<seq<Entry<K, V>>>, t: seq<seq<Entry<K, V>>>)
    ensures Filled(s + t) == Filled(s) + Filled(t)
  {
    if t == [] {
      assert s + t == s;
    } else {
      var n := |t| - 1;
      FilledConcat(s, t[..n]);
      assert (s + t)[..|s + t| - 1] == s + t[..n];
    }
  }

  // The same entries spread over twice as many buckets: at least as many of them are
  // non-empty, and at most twice as many.  This is all that resizing can do to `fill`.
  lemma FinerFill<K, V>(fine: seq<seq<Entry<K, V>>>, coarse: seq<seq<Entry<K, V>>>)
    requires |fine| == 2 * |coarse| && |coarse| > 0
    requires Placed(fine) && Placed(coarse) && Entries(fine) == Entries(coarse)
    ensures Filled(coarse) <= Filled(fine) <= 2 * Filled(coarse)
  {
    FilledIsOccupied(fine);
    FilledIsOccupied(coarse);
    CoarseInFine(fine, coarse);
    FineInCoarse(fine, coarse);
  }

  lemma CoarseInFine<K, V>(fine: seq<seq<Entry<K, V>>>, coarse: seq<seq<Entry<K, V>>>)
    requires |fine| == 2 * |coarse| && |coarse| > 0
    requires Placed(fine) && Placed(coarse) && Entries(fine) == Entries(coarse)
    ensures |Occupied(coarse)| <= |Occupied(fine)|
  {
    var h := |coarse|;
    var home: int -> int := i => if i in Occupied(fine) then i else i + h;
    forall i | i in Occupied(coarse) ensures home(i) in Occupied(fine) {
      var x := coarse[i][0];
      SlotOf(coarse, fine, x, i);
      ModDouble(x.code, h);
    }
    InjectionBound(Occupied(coarse), Occupied(fine), home);
  }

  lemma FineInCoarse<K, V>(fine: seq<seq<Entry<K, V>>>, coarse: seq<seq<Entry<K, V>>>)
    requires |fine| == 2 * |coarse| && |coarse| > 0
    requires Placed(fine) && Placed(coarse) && Entries(fine) == Entries(coarse)
    ensures |Occupied(fine)| <= 2 * |Occupied(coarse)|
  {
    var h := |coarse|;
    forall i | i in Occupied(fine) ensures (if i < h then i else i - h) in Occupied(coarse) {
      FoldedBucket(fine, coarse, i);
    }
    FoldBound(Occupied(fine), Occupied(coarse), h);
  }

  lemma FoldedBucket<K, V>(fine: seq<seq<Entry<K, V>>>, coarse: seq<seq<Entry<K, V>>>, i: int)
    requires |fine| == 2 * |coarse| && |coarse| > 0
    requires Placed(fine) && Placed(coarse) && Entries(fine) == Entries(coarse)
    requires i in Occupied(fine)
    ensures (if i < |coarse| then i else i - |coarse|) in Occupied(coarse)
  {
    var x := fine[i][0];
    SlotOf(fine, coarse, x, i);
    ModDouble(x.code, |coarse|);
  }

  lemma SlotOf<K, V>(s: seq<seq<Entry<K, V>>>, t: seq<seq<Entry<K, V>>>, x: Entry<K, V>, i: nat)
    requires Placed(s) && Placed(t) && Entries(s) == Entries(t) && |t| > 0
    requires i < |s| && x in s[i]
    ensures x.code % |s| == i
    ensures x.code % |t| in Occupied(t) && x in t[x.code % |t|]
  {
    EntryAt(s, x);
    EntryAt(t, x);
    var k :| 0 <= k < |t| && x in t[k];
    var j :| 0 <= j < |t[k]| && t[k][j] == x;
    var j' :| 0 <= j' < |s[i]| && s[i][j'] == x;
  }

  // ----- the finite map -----

  // How the table recognises a key: the two callbacks, both consulted by every lookup.
  datatype Keying<!K(!new)> = Keying(code: K -> nat, equals: (K, K) -> bool)
  {
    predicate Same(a: K, b: K) {
      code(a) == code(b) && equals(a, b)
    }

    ghost predicate Equivalence() {
      && (forall a :: equals(a, a))
      && (forall a, b :: equals(a, b) ==> equals(b, a))
      && (forall a, b, c :: equals(a, b) && equals(b, c) ==> equals(a, c))
    }

    ghost predicate Distinct<V>(m: map<K, V>) {
      forall a, b :: a in m && b in m && Same(a, b) ==> a == b
    }

    ghost predicate Has<V>(m: map<K, V>, k: K) {
      exists r :: r in m && Same(r, k)
    }

    // The stored key that stands for `k`.
    ghost function Rep<V>(m: map<K, V>, k: K): (r: K)
      requires Has(m, k)
      ensures r in m && Same(r, k)
    {
      var r :| r in m && Same(r, k); r
    }

    ghost function GetSpec<V>(m: map<K, V>, k: K, nil: V): V {
      if Has(m, k) then m[Rep(m, k)] else nil
    }

    ghost function PutSpec<V>(m: map<K, V>, k: K, v: V): map<K, V> {
      m[(if Has(m, k) then Rep(m, k) else k) := v]
    }

    ghost function DeleteSpec<V>(m: map<K, V>, k: K): map<K, V> {
      if Has(m, k) then m - {Rep(m, k)} else m
    }
  }

  // The entries a table holds when it stands for `m`.
  ghost function Image<K, V>(code: K -> nat, m: map<K, V>): multiset<Entry<K, V>>
  {
    multiset(set k | k in m :: Entry(code(k), k, m[k]))
  }

  lemma ImageMember<K, V>(code: K -> nat, m: map<K, V>, x: Entry<K, V>)
    ensures x in Image(code, m) <==> x.key in m && x == Entry(code(x.key), x.key, m[x.key])
  {
  }

  lemma ImageInsert<K, V>(code: K -> nat, m: map<K, V>, k: K, v: V)
    requires k !in m
    ensures Image(code, m[k := v]) == Image(code, m) + multiset{Entry(code(k), k, v)}
  {
    var was := set a | a in m :: Entry(code(a), a, m[a]);
    var now := set a | a in m[k := v] :: Entry(code(a), a, m[k := v][a]);
    var x := Entry(code(k), k, v);
    assert now == was + {x} by {
      assert k in m[k := v];
      forall y | y in was ensures y in now { assert y.key in m[k := v]; }
    }
    assert x !in was;
  }

  lemma ImageRemove<K, V>(code: K -> nat, m: map<K, V>, k: K)
    requires k in m
    ensures Image(code, m) == Image(code, m - {k}) + multiset{Entry(code(k), k, m[k])}
  {
    ImageInsert(code, m - {k}, k, m[k]);
    assert (m - {k})[k := m[k]] == m;
  }

  lemma {:induction false} ImageSize<K, V>(code: K -> nat, m: map<K, V>)
    ensures |Image(code, m)| == |m|
  {
    if m != map[] {
      var k :| k in m;
      ImageRemove(code, m, k);
      ImageSize(code, m - {k});
      assert m.Keys == (m - {k}).Keys + {k};
    } else {
      assert Image(code, m) == multiset{};
    }
  }
}
