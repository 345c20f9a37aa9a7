/**
  The resizable bucket hash table of libserveez/hash.c.  Buckets are growable arrays, a
  deletion moves the last entry of the bucket into the gap, and the table doubles or halves
  according to `fill`, the number of non-empty buckets.
*/
module HashTable {
  import opened Options
  import opened Sequences
  import opened HashSpec
  import opened HashSteps

  const MIN_SIZE: nat := 4

  /**
    Where `rehash` decrements `fill` while halving the table.  The code does it once for every
    released bucket (`Coded`, hash.c:373); its comment on `fill` asks for once for every
    released non-empty bucket (`Intended`, inside the test of hash.c:356).
   */
  datatype Placement = Coded | Intended

  // What halving a table subtracts from `fill` on account of the released buckets.
  ghost function Released<K, V>(placement: Placement, upper: seq<seq<Entry<K, V>>>): nat
  {
    if placement == Coded then |upper| else Filled(upper)
  }

  // How far that is more than the number of non-empty buckets released.
  ghost function Excess<K, V>(placement: Placement, t: seq<seq<Entry<K, V>>>): nat
  {
    FilledIsOccupied(t[|t| / 2..]);
    Released(placement, t[|t| / 2..]) - Filled(t[|t| / 2..])
  }

  // What resizing decisions look at.
  datatype Snapshot = Snapshot(buckets: nat, filled: nat)

  ghost predicate Quiet(s: Snapshot, s': Snapshot) {
    s'.buckets == s.buckets && -1 <= s'.filled - s.filled <= 1
  }

  ghost predicate Expanded(s: Snapshot, s': Snapshot) {
    s'.buckets == 2 * s.buckets && 4 * (s.filled + 1) > 3 * s.buckets && 8 * s'.filled > 3 * s'.buckets
  }

  ghost predicate Shrunk(s: Snapshot, s': Snapshot) {
    s.buckets == 2 * s'.buckets && 4 * (s.filled - 1) < s.buckets && 2 * s'.filled < s'.buckets
  }

  // Above HASH_EXPAND_LIMIT, as every wrapped value is.
  predicate FullAfter(fill: int, buckets: nat) {
    fill < 0 || fill > buckets / 2 + buckets / 4
  }

  // One put or delete.
  ghost predicate Stepped(s: Snapshot, s': Snapshot) {
    && s.buckets % 4 == 0 && s'.buckets % 4 == 0
    && (Quiet(s, s') || Expanded(s, s') || Shrunk(s, s'))
  }

  class Table<K(!new), V(==)> {
    const keying: Keying<K>
    const nil: V                 // NULL
    const placement: Placement

    var buckets: nat
    var fill: int                // a size_t; a negative value stands for the wrapped one
    var keys: nat
    var table: seq<seq<Entry<K, V>>>

    ghost var model: map<K, V>   // the finite map this table stands for
    ghost var shrinks: nat       // how often the table has been halved
    ghost var debt: nat          // decrements of `fill` beyond the non-empty buckets

    ghost predicate Sound()
      reads this
    {
      && buckets == |table| >= MIN_SIZE
      && PowerOfTwo(buckets)
      && Placed(table)
      && keying.Equivalence()
      && keying.Distinct(model)
      && Entries(table) == Image(keying.code, model)
    }

    ghost predicate Counted()
      reads this
    {
      && fill == Filled(table) - debt
      && (placement == Intended ==> debt == 0)
      && (placement == Coded ==> (debt == 0 <==> shrinks == 0))
    }

    ghost predicate Valid()
      reads this
    {
      Sound() && Counted() && keys == |model|
    }

    ghost function Look(): Snapshot
      reads this
    {
      Snapshot(|table|, Filled(table))
    }

    constructor (size: nat, keying: Keying<K>, nil: V, placement: Placement)
      requires size >= 1 && keying.Equivalence()
      ensures Valid()
      ensures model == map[] && shrinks == 0
      ensures this.keying == keying && this.nil == nil && this.placement == placement
      ensures MIN_SIZE <= buckets <= (if size < MIN_SIZE then MIN_SIZE else size) && size < 2 * buckets
    {
      var n, power := size, 1;
      while n != 1
        invariant 1 <= n && 1 <= power && PowerOfTwo(power)
        invariant n * power <= size < (n + 1) * power
      {
        HalveStep(n, power, size);
        power := power * 2;
        n := n / 2;
      }
      if power < MIN_SIZE {
        power := MIN_SIZE;
      }
      this.keying, this.nil, this.placement := keying, nil, placement;
      buckets, fill, keys := power, 0, 0;
      model, shrinks, debt := map[], 0, 0;
      table := seq(power, _ => []);
      new;
      EmptyTable(table);
    }

    static lemma HalveStep(n: nat, power: nat, size: nat)
      requires n > 1 && n * power <= size < (n + 1) * power
      ensures n / 2 * (power * 2) <= size < (n / 2 + 1) * (power * 2)
    {
      var h := n / 2;
      assert h * (power * 2) == (2 * h) * power;
      assert (h + 1) * (power * 2) == (2 * h + 2) * power;
      if n % 2 == 0 {
        assert (2 * h + 2) * power == (n + 1) * power + power;
      } else {
        assert n * power == (2 * h) * power + power;
      }
    }

    // ----- resizing -----

    // `rehash` with SVZ_HASH_EXPAND.
    method Expand()
      requires Sound()
      modifies this`buckets, this`fill, this`table
      ensures Sound()
      ensures buckets == 2 * old(buckets)
      ensures Entries(table) == old(Entries(table))
      ensures fill - Filled(table) == old(fill - Filled(table))
      ensures old(Filled(table)) <= Filled(table) <= 2 * old(Filled(table))
    {
      hide Entries, Filled, Image, Placed, Relocating, Keying.Equivalence, Keying.Distinct;
      var half := buckets;
      ghost var before := table;
      Widen();
      WidenedIsRelocating(table, half);
      var n := 0;
      while n < half
        invariant n <= half && buckets == |table| == 2 * half
        invariant Relocating(table, half, n, 0)
        invariant Entries(table) == Entries(before)
        invariant fill - Filled(table) == old(fill) - Filled(before)
      {
        Relocate(n, half);
        n := n + 1;
      }
      RelocatedIsPlaced(table, half);
      FinerFill(table, before);
    }

    // The reallocation at the start of an expansion.
    method Widen()
      requires Sound()
      modifies this`buckets, this`table
      ensures buckets == |table| == 2 * old(buckets) && PowerOfTwo(buckets)
      ensures table[..old(buckets)] == old(table)
      ensures forall i :: old(buckets) <= i < buckets ==> table[i] == []
    {
      var half := buckets;
      buckets := buckets * 2;
      assert buckets / 2 == half;
      var n := half;
      while n < buckets
        invariant half <= n == |table| <= buckets == 2 * half
        invariant table[..half] == old(table)
        invariant forall i :: half <= i < n ==> table[i] == []
      {
        table := table + [[]];
        n := n + 1;
      }
    }

    // One bucket of an expansion: entries that belong to the upper half leave, and the index
    // steps back because the last entry has taken the place of the one that left.
    method Relocate(n: nat, half: nat)
      requires buckets == |table| == 2 * half && PowerOfTwo(buckets) && n < half
      requires Relocating(table, half, n, 0)
      modifies this`fill, this`table
      ensures Relocating(table, half, n + 1, 0) && |table| == old(|table|)
      ensures Entries(table) == old(Entries(table))
      ensures fill - Filled(table) == old(fill - Filled(table))
    {
      hide Entries, Filled, Relocating, PowerOfTwo;
      var e := 0;
      while e < |table[n]|
        invariant |table| == buckets && 0 <= e <= |table[n]|
        invariant Relocating(table, half, n, e)
        invariant Entries(table) == old(Entries(table))
        invariant fill - Filled(table) == old(fill - Filled(table))
        decreases |table[n]| - e
      {
        ghost var t := table;
        var x := table[n][e];
        var far := Slot(x.code, buckets);
        if n != far {
          MovedKeepsRelocating(t, half, n, e);
          MovedKeepsEntries(t, n, e, far);
          table := table[far := table[far] + [x]];
          if |table[far]| == 1 {
            fill := fill + 1;
          }
          if |table[n]| == 1 {
            assert SwapDelete(table[n], e) == [];
            table := table[n := []];
            fill := fill - 1;
          } else {
            table := table[n := SwapDelete(table[n], e)];
          }
          assert table == Moved(t, n, e, far);
          e := e - 1;
        } else {
          NextEntry(t, half, n, e);
        }
        e := e + 1;
      }
      NextBucket(table, half, n);
    }

    // `rehash` with SVZ_HASH_SHRINK.
    method Shrink()
      requires Sound()
      modifies this`buckets, this`fill, this`table, this`shrinks, this`debt
      ensures Sound()
      ensures Entries(table) == old(Entries(table))
      ensures old(buckets) == MIN_SIZE ==>
                buckets == MIN_SIZE && table == old(table)
                && fill == old(fill) && shrinks == old(shrinks) && debt == old(debt)
      ensures old(buckets) > MIN_SIZE ==>
                2 * buckets == old(buckets) && shrinks == old(shrinks) + 1
                && Filled(table) <= old(Filled(table))
                && debt == old(debt) + Excess(placement, old(table))
                && fill - Filled(table) == old(fill - Filled(table)) - Excess(placement, old(table))
    {
      hide Entries, Filled, Image, Placed;
      if buckets > MIN_SIZE {
        ghost var t0 := table;
        var half := buckets / 2;
        assert t0 == t0[..half] + t0[half..];
        EntriesConcat(t0[..half], t0[half..]);
        FilledConcat(t0[..half], t0[half..]);
        Coarsened(t0, half);
        FoldUpper(half);
        table := table[..half];
        shrinks := shrinks + 1;
        debt := debt + Excess(placement, t0);
        FinerFill(t0, table);
      }
    }

    static lemma Coarsened(t: seq<seq<Entry<K, V>>>, half: nat)
      requires Placed(t) && |t| == 2 * half && half > 0
      ensures Placed(t[..half])
      ensures forall i, j :: half <= i < |t| && 0 <= j < |t[i]| ==> t[i][j].code % half == i - half
    {
      forall i, j | 0 <= i < |t| && 0 <= j < |t[i]|
        ensures t[i][j].code % half == if i < half then i else i - half
      {
        ModDouble(t[i][j].code, half);
      }
    }

    // The loop of a reduction.
    method FoldUpper(half: nat)
      requires |table| == 2 * half && half > 0 && PowerOfTwo(half)
      requires Placed(table[..half])
      modifies this`buckets, this`fill, this`table
      ensures buckets == half && |table| == old(|table|)
      ensures Placed(table[..half])
      ensures Entries(table[..half]) == old(Entries(table[..half]) + Entries(table[half..]))
      ensures fill - Filled(table[..half])
           == old(fill - Filled(table[..half]) - Released(placement, table[half..]))
    {
      hide Entries, Filled, Placed, PowerOfTwo;
      ghost var upper := table[half..];
      NextFolded(upper, 0);
      buckets := half;
      var n := half;
      while n < half * 2
        invariant half <= n <= half * 2 == |table| && buckets == half
        invariant table[half..] == upper
        invariant Placed(table[..half])
        invariant Entries(table[..half]) == old(Entries(table[..half])) + Entries(upper[..n - half])
        invariant fill - Filled(table[..half])
               == old(fill - Filled(table[..half])) - Released(placement, upper[..n - half])
      {
        NextFolded(upper, n - half);
        assert table[n] == table[half..][n - half];
        Fold(n, half);
        n := n + 1;
      }
      assert upper[..n - half] == upper;
    }

    // One released bucket of a reduction.
    method Fold(n: nat, half: nat)
      requires buckets == half && 0 < half <= n < |table| && PowerOfTwo(half)
      requires Placed(table[..half])
      modifies this`fill, this`table
      ensures |table| == old(|table|) && table[half..] == old(table[half..])
      ensures Placed(table[..half])
      ensures Entries(table[..half]) == old(Entries(table[..half])) + multiset(old(table[n]))
      ensures fill - Filled(table[..half])
           == old(fill - Filled(table[..half])) - if placement == Coded || old(table[n]) != [] then 1 else 0
    {
      hide Entries, Filled, Placed, PowerOfTwo;
      ghost var before := table[..half];
      var e := 0;
      while e < |table[n]|
        invariant |table| == old(|table|) && 0 <= e <= |table[n]|
        invariant table[half..] == old(table)[half..] && table[n] == old(table[n])
        invariant Placed(table[..half])
        invariant Entries(table[..half]) == Entries(before) + multiset(table[n][..e])
        invariant fill - Filled(table[..half]) == old(fill) - Filled(before)
      {
        ghost var t := table;
        var x := table[n][e];
        var to := Slot(x.code, buckets);
        FoldStep(t, half, x);
        assert table[n][..e + 1] == table[n][..e] + [x];
        table := table[to := table[to] + [x]];
        if |table[to]| == 1 {
          fill := fill + 1;
        }
        e := e + 1;
      }
      assert table[n][..e] == table[n];
      if placement == Coded || |table[n]| > 0 {
        fill := fill - 1;
      }
    }

    // ----- the interface -----

    // Fewer than a quarter of the buckets are in use, so the released half has empty ones.
    static lemma SparseExcess(placement: Placement, t: seq<seq<Entry<K, V>>>)
      requires |t| >= 8 && 4 * Filled(t) < |t|
      ensures Excess(placement, t) == 0 <==> placement == Intended
    {
      hide Filled;
      var half := |t| / 2;
      assert t == t[..half] + t[half..];
      FilledConcat(t[..half], t[half..]);
    }

    // The coded decrements take `fill` below zero, by two at least.
    static lemma Wraps(t: seq<seq<Entry<K, V>>>, q: nat, now: nat)
      requires |t| == 4 * q && q >= 2 && Filled(t) < q && now <= Filled(t)
      ensures now - Excess(Coded, t) <= -2
    {
      hide Filled;
      var upper := t[2 * q..];
      assert t == t[..2 * q] + upper && |t| / 2 == 2 * q;
      FilledConcat(t[..2 * q], upper);
    }

    // The search loop shared by put, delete, get and exists.
    method Find(key: K) returns (b: nat, n: nat, found: bool)
      requires Sound()
      ensures b == keying.code(key) % buckets < |table|
      ensures found <==> keying.Has(model, key)
      ensures found ==> n < |table[b]| && keying.Rep(model, key) == table[b][n].key
      ensures found ==> table[b][n] == Entry(keying.code(key), keying.Rep(model, key), model[keying.Rep(model, key)])
    {
      var code := keying.code(key);
      b, n := Slot(code, buckets), 0;
      while n < |table[b]|
        invariant 0 <= n <= |table[b]|
        invariant forall j :: 0 <= j < n ==> table[b][j].code != code || !keying.equals(table[b][j].key, key)
      {
        if table[b][n].code == code && keying.equals(table[b][n].key, key) {
          Present(keying, table, model, key, b, n);
          return b, n, true;
        }
        n := n + 1;
      }
      Absent(keying, table, model, key);
      return b, n, false;
    }

    method Put(key: K, value: V) returns (prev: V)
      requires Valid()
      modifies this
      ensures Valid()
      ensures model == keying.PutSpec(old(model), key, value)
      ensures prev == keying.GetSpec(old(model), key, nil)
      ensures shrinks == old(shrinks)
      ensures placement == Intended ==> Stepped(old(Look()), Look())
      ensures var b := keying.code(key) % old(buckets);
        buckets == if old(table)[b] == [] && FullAfter(old(fill) + 1, old(buckets)) then 2 * old(buckets)
                   else old(buckets)
    {
      hide Entries, Filled, Image, Placed, PowerOfTwo, Keying.Equivalence;
      var b, n, found := Find(key);
      if found {
        prev := table[b][n].value;
        Overwrite(b, n, value);
      } else {
        prev := nil;
        Add(b, key, value);
      }
    }

    // The part of put that replaces the value of a stored entry.
    method Overwrite(b: nat, n: nat, value: V)
      requires Valid() && b < |table| && n < |table[b]|
      requires table[b][n].key in model
      requires table[b][n] == Entry(keying.code(table[b][n].key), table[b][n].key, model[table[b][n].key])
      modifies this
      ensures Valid() && model == old(model[table[b][n].key := value])
      ensures shrinks == old(shrinks) && buckets == old(buckets)
      ensures placement == Intended ==> Stepped(old(Look()), Look())
    {
      hide Entries, Filled, Image, PowerOfTwo, Keying.Equivalence;
      var x := table[b][n];
      ghost var now := table[b := table[b][n := x.(value := value)]];
      PowerOfTwoQuarters(buckets);
      ReplaceEntry(table, b, n, x.(value := value));
      ReplacedImage(keying.code, model, x.key, value, Entries(now));
      table := table[b := table[b][n := x.(value := value)]];
      model := model[x.key := value];
    }

    // The part of put that appends a new entry to bucket `b`.
    method Add(b: nat, key: K, value: V)
      requires Valid() && !keying.Has(model, key)
      requires b == keying.code(key) % buckets < |table|
      modifies this
      ensures Valid()
      ensures model == old(model)[key := value] && shrinks == old(shrinks)
      ensures placement == Intended ==> Stepped(old(Look()), Look())
      ensures buckets == if old(table)[b] == [] && FullAfter(old(fill) + 1, old(buckets)) then 2 * old(buckets)
                         else old(buckets)
    {
      hide Entries, Filled, Keying.Equivalence, Keying.Has, Keying.Distinct, Image, Stepped;
      ghost var t := table;
      var x := Entry(keying.code(key), key, value);
      AppendEntry(t, b, x);
      NewKeyDistinct(keying, model, key, value);
      ImageInsert(keying.code, model, key, value);
      PowerOfTwoQuarters(buckets);
      table := table[b := table[b] + [x]];
      keys := keys + 1;
      model := model[key := value];
      if |table[b]| == 1 {
        fill := fill + 1;
        if FullAfter(fill, buckets) {
          Expand();
        }
      }
      PowerOfTwoQuarters(buckets);
      if placement == Intended { Thickened(old(Look()), Filled(t[b := t[b] + [x]]), Look()); }
    }

    // A bucket more in use at most, and an expansion if most are.
    static lemma Thickened(s: Snapshot, filled: nat, s': Snapshot)
      requires s.buckets % 4 == 0 && s'.buckets % 4 == 0 && s.filled <= filled <= s.filled + 1
      requires (s'.buckets == s.buckets && s'.filled == filled)
            || (s'.buckets == 2 * s.buckets && s.filled + 1 == filled && filled > s.buckets / 2 + s.buckets / 4
                && s'.filled >= filled)
      ensures Stepped(s, s')
    {
    }

    method Delete(key: K) returns (prev: V)
      requires Valid()
      modifies this
      ensures Valid()
      ensures model == keying.DeleteSpec(old(model), key)
      ensures prev == keying.GetSpec(old(model), key, nil)
      ensures placement == Intended ==> Stepped(old(Look()), Look())
      ensures placement == Coded && old(shrinks) == 0 < shrinks ==> fill <= -2
      ensures old(fill) < 0 ==> buckets == old(buckets)
      ensures if shrinks == old(shrinks) then buckets == old(buckets) else 2 * buckets == old(buckets)
      ensures shrinks != old(shrinks) <==>
        old(keying.Has(model, key)) && |old(table)[keying.code(key) % old(buckets)]| == 1
        && 0 <= 4 * (old(fill) - 1) < old(buckets) && old(buckets) > MIN_SIZE
    {
      hide Entries, Filled, Image, Placed, Keying.Equivalence;
      var b, n, found := Find(key);
      if found {
        prev := table[b][n].value;
        Remove(b, n, table[b][n].key);
      } else {
        prev := nil;
        PowerOfTwoQuarters(buckets);
      }
    }

    // The part of delete that removes entry `n` of bucket `b`, whose key is `r`.
    method Remove(b: nat, n: nat, r: K)
      requires Valid() && b < |table| && n < |table[b]|
      requires r in model && table[b][n] == Entry(keying.code(r), r, model[r])
      modifies this
      ensures Valid() && model == old(model) - {r}
      ensures placement == Intended ==> Stepped(old(Look()), Look())
      ensures placement == Coded && old(shrinks) == 0 < shrinks ==> fill <= -2
      ensures old(fill) < 0 ==> buckets == old(buckets)
      ensures if shrinks == old(shrinks) then buckets == old(buckets) else 2 * buckets == old(buckets)
      ensures shrinks != old(shrinks) <==>
        |old(table)[b]| == 1 && 0 <= 4 * (old(fill) - 1) < old(buckets) && old(buckets) > MIN_SIZE
    {
      hide Entries, Filled, Image, Placed, PowerOfTwo, Excess, Keying.Equivalence, Keying.Distinct, Stepped;
      ghost var t := table;
      PowerOfTwoQuarters(buckets);
      RemoveEntry(t, b, n);
      RemovedStands(keying, t, model, b, n, r);
      ghost var thinned := Filled(t[b := SwapDelete(t[b], n)]);
      model := model - {r};
      if |table[b]| != 1 {
        table := table[b := SwapDelete(table[b], n)];
      } else {
        assert SwapDelete(t[b], n) == [];
        table := table[b := []];
        fill := fill - 1;
        Reduce();
      }
      keys := keys - 1;
      PowerOfTwoQuarters(buckets);
      if placement == Intended { Thinned(old(Look()), thinned, Look()); }
    }

    // A bucket less in use at most, and a reduction if few are.
    static lemma Thinned(s: Snapshot, filled: nat, s': Snapshot)
      requires s.buckets % 4 == 0 && s'.buckets % 4 == 0 && s.filled - 1 <= filled <= s.filled
      requires (s'.buckets == s.buckets && s'.filled == filled)
            || (s.buckets == 2 * s'.buckets && s.filled == filled + 1 && 4 * filled < s.buckets && s'.filled <= filled)
      ensures Stepped(s, s')
    {
    }

    // The end of delete, when a bucket has become empty.
    method Reduce()
      requires Sound() && Counted()
      modifies this`buckets, this`fill, this`table, this`shrinks, this`debt
      ensures Sound() && Counted() && Entries(table) == old(Entries(table))
      ensures shrinks == old(shrinks) ==> buckets == old(buckets) && table == old(table)
      ensures shrinks != old(shrinks) ==> 2 * buckets == old(buckets) && Filled(table) <= old(Filled(table))
      ensures shrinks != old(shrinks) <==> 0 <= 4 * old(fill) < old(buckets) && old(buckets) > MIN_SIZE
      ensures placement == Coded && old(shrinks) == 0 < shrinks ==> fill <= -2
    {
      hide Entries, Filled, Image, Placed, PowerOfTwo, Released, Excess, Keying.Equivalence, Keying.Distinct;
      PowerOfTwoQuarters(buckets);
      ghost var q := buckets / 4;
      assert buckets == 4 * q;
      if 0 <= fill < buckets / 4 {
        ghost var before := table;
        Shrink();
        if shrinks != old(shrinks) {
          ReduceCounts(before, q);
        }
      }
    }

    // After a reduction from an exact count, which is what all reductions with the intended
    // decrement and the first one with the coded decrement are.
    lemma ReduceCounts(before: seq<seq<Entry<K, V>>>, q: nat)
      requires |before| == 4 * q && q >= 2
      ensures placement == Intended ==> Excess(placement, before) == 0
      ensures Filled(before) < q ==> (Excess(placement, before) == 0 <==> placement == Intended)
      ensures placement == Coded && Filled(before) < q && Filled(table) <= Filled(before) ==>
        Filled(table) - Excess(Coded, before) <= -2
    {
      hide Filled, Excess;
      IntendedIsExact(before);
      if Filled(before) < q {
        SparseExcess(placement, before);
        if placement == Coded && Filled(table) <= Filled(before) { Wraps(before, q, Filled(table)); }
      }
    }

    static lemma IntendedIsExact(t: seq<seq<Entry<K, V>>>)
      ensures Excess(Intended, t) == 0
    {
    }

    method Get(key: K) returns (value: V)
      requires Valid()
      ensures value == keying.GetSpec(model, key, nil)
    {
      var b, n, found := Find(key);
      if found {
        return table[b][n].value;
      }
      return nil;
    }

    method Exists(key: K) returns (yes: bool)
      requires Valid()
      ensures yes <==> keying.Has(model, key)
    {
      var b, n, found := Find(key);
      return found;
    }

    method Size() returns (n: nat)
      requires Valid()
      ensures n == |model|
    {
      return keys;
    }

    // `svz_hash_foreach`, with the calls of the callback collected in `visited`: every stored
    // pair once, although the outer loop stops as soon as `i` has counted `keys` of them.
    method Foreach() returns (visited: seq<Entry<K, V>>)
      requires Valid()
      ensures multiset(visited) == Image(keying.code, model)
    {
      hide Entries, Filled, Image, Placed, PowerOfTwo, Keying.Equivalence, Keying.Distinct;
      var i, n := 0, 0;
      visited := [];
      NextFolded(table, 0);
      while i < keys && n < buckets
        invariant 0 <= n <= buckets && i == |visited|
        invariant multiset(visited) == Entries(table[..n])
      {
        NextFolded(table, n);
        var e := 0;
        while e < |table[n]|
          invariant 0 <= e <= |table[n]| && i == |visited|
          invariant multiset(visited) == Entries(table[..n]) + multiset(table[n][..e])
        {
          assert table[n][..e + 1] == table[n][..e] + [table[n][e]];
          visited := visited + [table[n][e]];
          e, i := e + 1, i + 1;
        }
        assert table[n][..e] == table[n];
        n := n + 1;
      }
      assert table == table[..n] + table[n..];
      EntriesConcat(table[..n], table[n..]);
      ImageSize(keying.code, model);
      assert |Entries(table)| == |Entries(table[..n])| + |Entries(table[n..])|;
      if n == buckets {
        assert table[..n] == table;
      } else {
        assert |Entries(table[n..])| == 0;
      }
    }

    // The first entry with the value, bucket by bucket.
    ghost predicate First(n: nat, e: nat, value: V)
      reads this
    {
      && n < |table| && e < |table[n]| && table[n][e].value == value
      && (forall i, j :: 0 <= i < n && 0 <= j < |table[i]| ==> table[i][j].value != value)
      && (forall j :: 0 <= j < e ==> table[n][j].value != value)
    }

    // `svz_hash_contains`: the key of the first entry with the given value.
    method Contains(value: V) returns (key: Option<K>)
      requires Valid()
      ensures key.Some? ==> key.value in model && model[key.value] == value
      ensures key.Some? ==> exists n: nat, e: nat :: First(n, e, value) && table[n][e].key == key.value
      ensures key.None? ==> value !in model.Values
    {
      var n := 0;
      while n < buckets
        invariant 0 <= n <= buckets
        invariant forall i, j :: 0 <= i < n && 0 <= j < |table[i]| ==> table[i][j].value != value
      {
        var e := 0;
        while e < |table[n]|
          invariant 0 <= e <= |table[n]|
          invariant forall j :: 0 <= j < e ==> table[n][j].value != value
        {
          if table[n][e].value == value {
            StoredEntry(keying.code, table, model, n, e);
            assert First(n, e, value);
            return Some(table[n][e].key);
          }
          e := e + 1;
        }
        n := n + 1;
      }
      NoSuchValue(keying.code, table, model, value);
      return None;
    }
  }
}
