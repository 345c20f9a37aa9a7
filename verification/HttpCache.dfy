/**
  The file cache as the objects of src/http-server/http-cache.c: entries chained from the most
  to the least recent one, and a hash that finds them by file name.
*/
module HttpCache {
  import opened Options
  import opened Sequences
  import opened HttpSpec
  import opened Octets
  import opened HttpRuns

  class CacheEntry {
    var name: string
    var next: CacheEntry?
    var prev: CacheEntry?
    var ready: bool
    var usage: int
    var hits: int
    var size: int
    var buffer: Option<Bytes>
    var date: int

    // svz_calloc
    constructor ()
      ensures Blank()
    {
      name, next, prev := "", null, null;
      ready, usage, hits, size, buffer, date := false, 0, 0, 0, None, 0;
    }

    ghost predicate Blank()
      reads this
    {
      next == null && prev == null && Rec() == NewFile("")
    }

    // http_refresh_cache, and the new date
    method Refresh(r: Request, refreshing: Refreshing)
      modifies this`buffer, this`ready, this`hits, this`usage, this`size, this`date
      ensures Rec() == RefreshedFile(old(Rec()), r, refreshing)
    {
      buffer := None;
      ready := false;
      hits, usage := 0, 0;
      if refreshing == ClearsSize {
        size := 0;
      }
      date := r.mtime;
    }

    ghost function Rec(): File
      reads this
    {
      File(name, ready, usage, hits, size, buffer, date)
    }
  }

  class FileCache {
    const limit: nat                       // http_cache_entries
    var index: map<string, CacheEntry>     // http_cache
    var first: CacheEntry?                 // http_cache_first
    var last: CacheEntry?                  // http_cache_last
    ghost var order: seq<CacheEntry>

    ghost predicate Chained()
      reads this, order
    {
      && NoDuplicates(order)
      && first == (if order == [] then null else order[0])
      && last == (if order == [] then null else order[|order| - 1])
      && (forall i {:trigger order[i].prev} :: 0 <= i < |order| ==>
            order[i].prev == if i == 0 then null else order[i - 1])
      && (forall i {:trigger order[i].next} :: 0 <= i < |order| ==>
            order[i].next == if i == |order| - 1 then null else order[i + 1])
    }

    ghost function View(): Cache<CacheEntry>
      reads this, order
    {
      Cache(order, index, map e | e in order :: e.Rec())
    }

    ghost predicate Valid()
      reads this, order
    {
      Chained() && SoundCache(View(), limit)
    }

    constructor (limit: nat)
      ensures Valid() && this.limit == limit && View() == Cache([], map[], map[])
    {
      this.limit, index, first, last, order := limit, map[], null, null, [];
    }

    // http_urgent_cache
    method Urgent(cache: CacheEntry)
      requires Chained() && cache in order
      modifies this`first, this`last, this`order, order
      ensures Chained()
      ensures order == [cache] + Drop(old(order), cache)
      ensures forall e :: e in old(order) ==> e.Rec() == old(e.Rec())
    {
      hide Drop;
      ghost var k :| 0 <= k < |order| && order[k] == cache;
      DropAt(order, k);
      DropElements(order, cache);
      assert cache.prev == if k == 0 then null else order[k - 1];
      if cache.prev != null {
        Unchain(cache);
        ToFront(cache);
      } else {
        assert order == [cache] + Drop(order, cache);
      }
    }

    // The second half of http_urgent_cache.
    method ToFront(cache: CacheEntry)
      requires Chained() && cache !in order && order != []
      modifies this`first, this`order, cache`next, cache`prev, order
      ensures Chained()
      ensures order == [cache] + old(order)
      ensures cache.Rec() == old(cache.Rec())
      ensures forall e :: e in old(order) ==> e.Rec() == old(e.Rec())
    {
      ghost var s := order;
      first.prev := cache;
      cache.next := first;
      cache.prev := null;
      first := cache;
      order := [cache] + s;
      forall i | 0 <= i < |order|
        ensures order[i].prev == if i == 0 then null else order[i - 1]
        ensures order[i].next == if i == |order| - 1 then null else order[i + 1]
      {
        assert order[i] == if i == 0 then cache else s[i - 1];
      }
    }

    // The list part of http_cache_destroy_entry.
    method Unchain(cache: CacheEntry)
      requires Chained() && cache in order
      modifies this`first, this`last, this`order, order
      ensures Chained()
      ensures order == Drop(old(order), cache)
      ensures forall e :: e in old(order) ==> e.Rec() == old(e.Rec())
    {
      hide Drop;
      ghost var k :| 0 <= k < |order| && order[k] == cache;
      ghost var s := order;
      DropAt(s, k);
      DropElements(s, cache);
      assert cache.prev == if k == 0 then null else s[k - 1];
      assert cache.next == if k == |s| - 1 then null else s[k + 1];
      if cache.prev != null {
        cache.prev.next := cache.next;
      } else {
        first := cache.next;
      }
      if cache.next != null {
        cache.next.prev := cache.prev;
      } else {
        last := cache.prev;
      }
      order := s[..k] + s[k + 1..];
      forall i | 0 <= i < |order|
        ensures order[i].prev == if i == 0 then null else order[i - 1]
        ensures order[i].next == if i == |order| - 1 then null else order[i + 1]
      {
        assert order[i] == if i < k then s[i] else s[i + 1];
      }
    }

    // The list part of http_init_cache.
    method Chain(slot: CacheEntry)
      requires Chained() && slot !in order && slot.prev == null
      modifies this`first, this`last, this`order, slot`next, order
      ensures Chained()
      ensures order == [slot] + old(order)
      ensures slot.Rec() == old(slot.Rec())
      ensures forall e :: e in old(order) ==> e.Rec() == old(e.Rec())
    {
      slot.next := first;
      if slot.next == null {
        last := slot;
      } else {
        first.prev := slot;
      }
      first := slot;
      ghost var s := order;
      order := [slot] + order;
      forall i | 0 <= i < |order|
        ensures order[i].prev == if i == 0 then null else order[i - 1]
        ensures order[i].next == if i == |order| - 1 then null else order[i + 1]
      {
        assert order[i] == if i == 0 then slot else s[i - 1];
      }
    }

    // http_check_cache: the entry of that name, now the most recent one, if there is any
    method Check(name: string) returns (entry: CacheEntry?)
      requires Valid()
      modifies this`first, this`last, this`order, order
      ensures Valid() && View() == CheckSpec(old(View()), name)
      ensures entry == if name in index then index[name] else null
      ensures forall e :: e in order <==> e in old(order)
    {
      hide Drop, SoundCache;
      CheckKeepsCache(View(), limit, name);
      if name in index {
        entry := index[name];
        Lookups(View(), limit);
        ghost var s := order;
        ghost var c := View();
        Urgent(entry);
        DropSubset(s, entry);
        assert View().files == c.files;
      } else {
        entry := null;
      }
    }

    // http_cache_destroy_entry
    method Destroy(cache: CacheEntry)
      requires Valid() && cache in order
      modifies this`index, this`first, this`last, this`order, order
      ensures Valid() && cache in old(View()).files && View() == DestroySpec(old(View()), cache)
      ensures forall e :: e in old(order) ==> e.Rec() == old(e.Rec())
      ensures forall e :: e in order ==> e in old(order) && e != cache
    {
      hide Drop, SoundCache, View, DestroySpec;
      ViewIs();
      DestroyKeepsCache(View(), limit, cache);
      Remove(cache);
    }

    lemma ViewIs()
      ensures View().order == order && View().index == index
      ensures forall e :: e in order ==> e in View().files && View().files[e] == e.Rec()
      ensures forall e :: e in View().files ==> e in order
    {
    }

    // It leaves the hash and the list.
    method Remove(cache: CacheEntry)
      requires Valid() && cache in order
      modifies this`index, this`first, this`last, this`order, order
      ensures Chained() && cache in old(View()).files && View() == DestroySpec(old(View()), cache)
      ensures forall e :: e in old(order) ==> e.Rec() == old(e.Rec())
      ensures forall e :: e in order ==> e in old(order) && e != cache
    {
      hide Drop, SoundCache;
      Lookups(View(), limit);
      DropSubset(order, cache);
      ghost var c := View();
      index := index - {cache.name};
      Unchain(cache);
      assert View().files.Keys == c.files.Keys - {cache};
      assert View().files == c.files - {cache};
    }

    // The search of http_init_cache for a slot to reuse.
    method FindSlot() returns (slot: CacheEntry?)
      requires Valid()
      ensures LastIdle(View().order, View().files) == if slot == null then None else Some(slot)
      ensures slot != null ==> slot in order
    {
      hide SoundCache;
      slot := null;
      var entry := last;
      ghost var n: nat := |order|;
      assert order[..n] == order;
      while entry != null
        invariant n <= |order| && entry == if n == 0 then null else order[n - 1]
        invariant LastIdle(order, View().files) == LastIdle(order[..n], View().files)
        decreases n
      {
        assert entry.prev == if n - 1 == 0 then null else order[n - 2];
        assert order[..n][..n - 1] == order[..n - 1];
        if entry.usage == 0 && entry.ready {
          return entry;
        }
        entry := entry.prev;
        n := n - 1;
      }
    }

    // http_init_cache; `spare` is the memory svz_calloc would hand out
    method Init(name: string, spare: CacheEntry) returns (slot: CacheEntry?)
      requires Valid() && name !in index && spare !in order && spare.Blank()
      modifies this`index, this`first, this`last, this`order, order, spare
      ensures Valid()
      ensures forall x :: x in old(View()).order ==> x in old(View()).files
      ensures (slot != null, View()) == InitSpec(old(View()), limit, name, spare)
      ensures slot == null || slot == spare
      ensures slot == null ==> spare.Blank()
      ensures forall e :: e in order ==> e in old(order) || e == spare
    {
      hide SoundCache, LastIdle, Drop, View, InsertSpec, DestroySpec;
      ghost var c := View();
      ViewIs();
      Lookups(c, limit);
      InitKeepsCache(c, limit, name, spare);
      if |index| < limit {
        Insert(name, spare);
        return spare;
      }
      slot := FindSlot();
      if slot != null {
        Reuse(slot, name, spare);
        slot := spare;
      }
    }

    method Reuse(slot: CacheEntry, name: string, spare: CacheEntry)
      requires Valid() && slot in order && spare !in order && spare.Blank()
      modifies this`index, this`first, this`last, this`order, order, spare
      ensures Chained() && slot in old(View()).files
      ensures View() == InsertSpec(DestroySpec(old(View()), slot), name, spare)
      ensures forall e :: e in order ==> e in old(order) || e == spare
    {
      hide SoundCache, DestroySpec, InsertSpec, Drop;
      Lookups(View(), limit);
      ghost var s := order;
      Destroy(slot);
      assert forall i :: 0 <= i < |order| ==> order[i] in s;
      Insert(name, spare);
    }

    // The end of http_init_cache: hash and chain the new entry.
    method Insert(name: string, slot: CacheEntry)
      requires Chained() && slot !in order && slot.Blank()
      modifies this`index, this`first, this`last, this`order, slot, order
      ensures Chained() && View() == InsertSpec(old(View()), name, slot)
      ensures order == [slot] + old(order)
    {
      hide NoDuplicates;
      ghost var c := View();
      index := index[name := slot];
      slot.name := name;
      Chain(slot);
      assert slot.Rec() == NewFile(name);
      assert forall e :: e in c.order ==> e.Rec() == c.files[e];
      assert View().files == c.files[slot := NewFile(name)];
    }
  }

  lemma DropSubset<E>(s: seq<E>, e: E)
    requires NoDuplicates(s)
    ensures forall x :: x in Drop(s, e) ==> x in s && x != e
    ensures forall x :: x in s && x != e ==> x in Drop(s, e)
  {
    DropElements(s, e);
  }

  lemma {:induction false} DropAt<E>(s: seq<E>, k: nat)
    requires k < |s| && NoDuplicates(s)
    ensures Drop(s, s[k]) == s[..k] + s[k + 1..]
  {
    if k > 0 {
      assert s[0] != s[k];
      DropAt(s[1..], k - 1);
      assert s[1..][..k - 1] == s[1..k];
      assert s[1..][k..] == s[k + 1..];
    }
  }
}
