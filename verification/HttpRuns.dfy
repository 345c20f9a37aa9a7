/**
  Whole runs of the HTTP cache: usage counts are conserved, nothing in use is evicted, bytes
  are neither lost nor invented, and the chained list is the recency order of the entries.
*/
module HttpRuns {
  import opened Options
  import opened Sequences
  import opened HttpSpec
  import opened Octets

  // ----- events -----

  datatype Event<E, S> =
    | Connect(s: S)
    | Get(s: S, request: Request, e: E)
    | Read(s: S, got: Option<Bytes>)
    | Write(s: S, n: nat, failed: bool)
    | CacheWrite(s: S, n: nat, failed: bool)
    | Disconnect(s: S)

  // Between two requests of a connection.
  predicate Waiting<E>(c: Conn<E>) {
    c.reader == TcpRead && c.writer == DefaultWrite && !c.cacheFlag && !c.doneFlag && c.slot.None? && !c.closing
  }

  // A stale entry that is still being sent.
  predicate StaleInUse<E>(cache: Cache<E>, r: Request)
    requires forall n :: n in cache.index ==> cache.index[n] in cache.files
  {
    && !r.partial && r.name in cache.index
    && var f := cache.files[cache.index[r.name]];
       f.ready && Stale(f, r) && f.usage != 0
  }

  // What may happen next.
  ghost predicate Possible<E, S>(cfg: Setup, sys: Sys<E, S>, ev: Event<E, S>)
  {
    match ev
    case Connect(s) => s !in sys.conns
    case Get(s, r, e) =>
      && SoundCache(sys.cache, cfg.limit)
      && s in sys.conns && Waiting(sys.conns[s]) && r.size >= 0
      && e !in sys.cache.files
    case Read(s, got) =>
      && s in sys.conns && !sys.conns[s].closing
      && sys.conns[s].reader == CacheRead
      && EntryOf(sys.conns[s]).Some? && EntryOf(sys.conns[s]).value in sys.cache.files
      && |sys.conns[s].sendBuffer| < cfg.bufferSize
      && (got.Some? ==> |got.value| <= cfg.bufferSize - |sys.conns[s].sendBuffer|)
    case Write(s, n, failed) =>
      && s in sys.conns && !sys.conns[s].closing
      && sys.conns[s].writer == DefaultWrite && n <= |sys.conns[s].sendBuffer|
    case CacheWrite(s, n, failed) =>
      && s in sys.conns && !sys.conns[s].closing
      && sys.conns[s].writer == Writer.CacheWrite && sys.conns[s].slot.Some?
      && n <= |Content(sys.conns[s].slot.value.buffer)| && n <= MAX_WRITE
    case Disconnect(s) => s in sys.conns
  }

  // A request that refreshes an entry in use.
  ghost predicate Clash<E, S>(cfg: Setup, sys: Sys<E, S>, ev: Event<E, S>)
    requires Possible(cfg, sys, ev)
  {
    ev.Get? && StaleInUse(sys.cache, ev.request)
  }

  ghost predicate Enabled<E, S>(cfg: Setup, sys: Sys<E, S>, ev: Event<E, S>)
  {
    Possible(cfg, sys, ev) && !Clash(cfg, sys, ev)
  }

  ghost function Step<E, S>(cfg: Setup, sys: Sys<E, S>, ev: Event<E, S>): Sys<E, S>
    requires Possible(cfg, sys, ev)
  {
    match ev
    case Connect(s) => sys.(conns := sys.conns[s := NewConn()])
    case Get(s, r, e) => GetSpec(cfg, sys, s, r, e)
    case Read(s, got) =>
      var e := EntryOf(sys.conns[s]).value;
      var (c, f) := ReadSpec(sys.conns[s], sys.cache.files[e], got);
      Sys(sys.cache.(files := sys.cache.files[e := f]), sys.conns[s := c])
    case Write(s, n, failed) => DefaultWriteSpec(sys, s, n, failed)
    case CacheWrite(s, n, failed) => CacheWriteSpec(sys, s, n, failed)
    case Disconnect(s) => DisconnectSpec(sys, s)
  }

  // ----- the invariant -----

  ghost function Holders<E, S>(conns: map<S, Conn<E>>, e: E): set<S>
  {
    set s | s in conns && conns[s].cacheFlag && EntryOf(conns[s]) == Some(e)
  }

  ghost predicate IsFiller<E>(c: Conn<E>) {
    c.reader == CacheRead && EntryOf(c).Some?
  }

  ghost predicate FileOk(f: File)
  {
    && (f.ready ==> f.size == |Content(f.buffer)| && f.hits >= 0)
    && (!f.ready ==> f.buffer == None && f.hits == 0 && f.usage == 0)
  }

  // While an entry is being sent: what is sent and what is left make up the entry.
  ghost predicate SenderOk<E>(c: Conn<E>, f: File)
    requires c.slot.Some?
  {
    && f.ready && c.reader != CacheRead && !c.doneFlag
    && c.slot.value.size == |Content(c.slot.value.buffer)|
    && c.data + Content(c.slot.value.buffer) == Content(f.buffer)
  }

  // While an entry is being filled: the bytes cached are the bytes passed on to the send
  // buffer, and what is missing is what stat announced less what has been read.
  ghost predicate FillerOk<E>(c: Conn<E>, f: File)
    requires c.slot.Some?
  {
    && !f.ready && !c.cacheFlag && c.cacheDisconnect && !c.doneFlag
    && Content(c.slot.value.buffer) == c.data && c.slot.value.size == |c.data|
    && (c.slot.value.buffer.None? <==> c.data == [])
    && c.filelength + c.slot.value.size == c.expected
  }

  ghost predicate ConnOk<E>(c: Conn<E>, files: map<E, File>)
  {
    && (c.cacheFlag ==> EntryOf(c).Some?)
    && (c.writer == Writer.CacheWrite ==> c.cacheFlag)
    && (EntryOf(c).Some? ==> EntryOf(c).value in files && (c.cacheFlag || c.reader == CacheRead))
    && (c.cacheFlag ==> SenderOk(c, files[EntryOf(c).value]))
    && (IsFiller(c) ==> FillerOk(c, files[EntryOf(c).value]))
  }

  ghost predicate UsageOk<E, S>(sys: Sys<E, S>)
  {
    forall e :: e in sys.cache.files ==> sys.cache.files[e].usage == |Holders(sys.conns, e)|
  }

  ghost predicate FillersDiffer<E, S>(conns: map<S, Conn<E>>)
  {
    forall s, t | s in conns && t in conns && IsFiller(conns[s]) && IsFiller(conns[t]) ::
      EntryOf(conns[s]) == EntryOf(conns[t]) ==> s == t
  }

  ghost predicate Inv<E, S>(cfg: Setup, sys: Sys<E, S>)
  {
    && SoundCache(sys.cache, cfg.limit)
    && (forall e :: e in sys.cache.files ==> FileOk(sys.cache.files[e]))
    && (forall s :: s in sys.conns ==> ConnOk(sys.conns[s], sys.cache.files))
    && UsageOk(sys)
    && FillersDiffer(sys.conns)
  }

  // ----- the list and the hash -----

  lemma {:induction false} DropElements<E>(s: seq<E>, e: E)
    requires NoDuplicates(s)
    ensures NoDuplicates(Drop(s, e))
    ensures forall x :: x in Drop(s, e) ==> x in s && x != e
    ensures forall x :: x in s && x != e ==> x in Drop(s, e)
    ensures |Drop(s, e)| == if e in s then |s| - 1 else |s|
  {
    if s != [] {
      DropElements(s[1..], e);
      assert s == [s[0]] + s[1..];
      if s[0] == e {
        assert Drop(s, e) == s[1..];
      } else {
        assert s[0] !in s[1..];
        assert s[0] !in Drop(s[1..], e);
        NoDuplicatesCons(s[0], Drop(s[1..], e));
      }
    }
  }

  lemma NoDuplicatesCons<E>(x: E, s: seq<E>)
    requires NoDuplicates(s) && x !in s
    ensures NoDuplicates([x] + s)
  {
  }

  lemma CheckKeepsCache<E>(c: Cache<E>, limit: nat, name: string)
    requires SoundCache(c, limit)
    ensures SoundCache(CheckSpec(c, name), limit)
  {
    if name in c.index {
      var e := c.index[name];
      DropElements(c.order, e);
      NoDuplicatesCons(e, Drop(c.order, e));
      var c' := CheckSpec(c, name);
      forall x | x in c'.files ensures x in c'.order {
        assert x in c.order;
        if x == e { assert c'.order[0] == e; } else { assert x in Drop(c.order, e); }
      }
    }
  }

  lemma DestroyKeepsCache<E>(c: Cache<E>, limit: nat, e: E)
    requires SoundCache(c, limit) && e in c.files
    ensures SoundCache(DestroySpec(c, e), limit) && |DestroySpec(c, e).order| == |c.order| - 1
    ensures c.files[e].name !in DestroySpec(c, e).index
  {
    DropElements(c.order, e);
  }

  lemma InsertKeepsCache<E>(c: Cache<E>, limit: nat, name: string, e: E)
    requires SoundCache(c, limit) && e !in c.files && name !in c.index && |c.order| < limit
    ensures SoundCache(InsertSpec(c, name, e), limit)
  {
    var c' := InsertSpec(c, name, e);
    assert e !in c.order;
    NoDuplicatesCons(e, c.order);
    forall x | x in c'.files ensures x in c'.order {
      if x == e { assert c'.order[0] == e; } else { assert x in c.order; }
    }
  }

  // The hash has as many keys as the list has entries.
  lemma IndexSize<E>(c: Cache<E>, limit: nat)
    requires SoundCache(c, limit)
    ensures |c.index| == |c.order|
  {
    var es := set e | e in c.order;
    DistinctElements(c.order);
    var nameOf: E -> string := e => if e in c.files then c.files[e].name else "";
    InjectiveImage(es, nameOf);
    assert c.index.Keys == set e | e in es :: nameOf(e) by {
      forall n | n in c.index ensures n in set e | e in es :: nameOf(e) {
        assert c.index[n] in es;
      }
    }
  }

  lemma InitKeepsCache<E>(c: Cache<E>, limit: nat, name: string, e: E)
    requires SoundCache(c, limit) && e !in c.files && name !in c.index
    ensures SoundCache(InitSpec(c, limit, name, e).1, limit)
  {
    IndexSize(c, limit);
    if |c.index| < limit {
      InsertKeepsCache(c, limit, name, e);
    } else if LastIdle(c.order, c.files).Some? {
      var v := LastIdle(c.order, c.files).value;
      LastIdleIsLeastRecent(c.order, c.files);
      DestroyKeepsCache(c, limit, v);
      InsertKeepsCache(DestroySpec(c, v), limit, name, e);
    }
  }

  // ----- recency -----

  // The live entries in the order of their last touch, the latest first.
  ghost function Recency<E>(touches: seq<E>, live: set<E>): seq<E>
  {
    if touches == [] then []
    else
      var n := |touches| - 1;
      var e := touches[n];
      if e in live then [e] + Recency(touches[..n], live - {e}) else Recency(touches[..n], live)
  }

  // Taking an entry out of the cache takes it out of the recency order.
  lemma {:induction false} RecencyDrop<E>(touches: seq<E>, live: set<E>, e: E)
    ensures Recency(touches, live - {e}) == Drop(Recency(touches, live), e)
  {
    if touches != [] {
      var n := |touches| - 1;
      var x := touches[n];
      if x !in live {
        RecencyDrop(touches[..n], live, e);
      } else if x == e {
        assert ([x] + Recency(touches[..n], live - {x}))[1..] == Recency(touches[..n], live - {x});
      } else {
        RecencyDrop(touches[..n], live - {x}, e);
        assert live - {x} - {e} == live - {e} - {x};
        assert ([x] + Recency(touches[..n], live - {x}))[1..] == Recency(touches[..n], live - {x});
      }
    }
  }

  // A touch makes its entry the most recent and keeps all other relative order.
  lemma RecencyTouch<E>(touches: seq<E>, live: set<E>, e: E)
    requires e in live
    ensures Recency(touches + [e], live) == [e] + Drop(Recency(touches, live), e)
  {
    assert (touches + [e])[..|touches|] == touches;
    RecencyDrop(touches, live, e);
  }

  // `touches` lists the entries made most recent so far, one for each hit and each new slot.
  ghost predicate InRecencyOrder<E>(c: Cache<E>, touches: seq<E>)
  {
    c.order == Recency(touches, c.files.Keys)
  }

  lemma CheckIsTouch<E>(c: Cache<E>, limit: nat, touches: seq<E>, name: string)
    requires SoundCache(c, limit) && InRecencyOrder(c, touches)
    ensures InRecencyOrder(CheckSpec(c, name), if name in c.index then touches + [c.index[name]] else touches)
  {
    if name in c.index {
      RecencyTouch(touches, c.files.Keys, c.index[name]);
    }
  }

  lemma DestroyKeepsRecency<E>(c: Cache<E>, touches: seq<E>, e: E)
    requires InRecencyOrder(c, touches) && e in c.files
    ensures InRecencyOrder(DestroySpec(c, e), touches)
  {
    RecencyDrop(touches, c.files.Keys, e);
    assert (c.files - {e}).Keys == c.files.Keys - {e};
  }

  lemma InsertIsTouch<E>(c: Cache<E>, touches: seq<E>, name: string, e: E)
    requires InRecencyOrder(c, touches) && e !in c.files
    ensures InRecencyOrder(InsertSpec(c, name, e), touches + [e])
  {
    var live := c.files.Keys + {e};
    assert InsertSpec(c, name, e).files.Keys == live;
    assert (touches + [e])[..|touches|] == touches;
    assert live - {e} == c.files.Keys;
  }

  lemma InitIsTouch<E>(c: Cache<E>, limit: nat, touches: seq<E>, name: string, e: E)
    requires SoundCache(c, limit) && InRecencyOrder(c, touches) && e !in c.files
    ensures var (ok, c') := InitSpec(c, limit, name, e);
            InRecencyOrder(c', if ok then touches + [e] else touches)
  {
    if |c.index| < limit {
      InsertIsTouch(c, touches, name, e);
    } else if LastIdle(c.order, c.files).Some? {
      var v := LastIdle(c.order, c.files).value;
      LastIdleIsLeastRecent(c.order, c.files);
      DestroyKeepsRecency(c, touches, v);
      InsertIsTouch(DestroySpec(c, v), touches, name, e);
    }
  }

  // ----- usage counts -----

  lemma HoldersUpdate<E, S>(conns: map<S, Conn<E>>, s: S, c: Conn<E>, e: E)
    ensures |Holders(conns[s := c], e)|
         == |Holders(conns, e)|
            - (if s in conns && conns[s].cacheFlag && EntryOf(conns[s]) == Some(e) then 1 else 0)
            + (if c.cacheFlag && EntryOf(c) == Some(e) then 1 else 0)
  {
    var was, now := Holders(conns, e), Holders(conns[s := c], e);
    assert now - {s} == was - {s};
    SameButOne(was, now, s);
  }

  lemma SameButOne<T>(was: set<T>, now: set<T>, x: T)
    requires now - {x} == was - {x}
    ensures |now| == |was| - (if x in was then 1 else 0) + (if x in now then 1 else 0)
  {
    assert x in was ==> was == (was - {x}) + {x};
    assert x !in was ==> was == was - {x};
    assert x in now ==> now == (now - {x}) + {x};
    assert x !in now ==> now == now - {x};
  }

  lemma HoldersRemove<E, S>(conns: map<S, Conn<E>>, s: S, e: E)
    requires s in conns
    ensures |Holders(conns - {s}, e)|
         == |Holders(conns, e)| - if conns[s].cacheFlag && EntryOf(conns[s]) == Some(e) then 1 else 0
  {
    var was, now := Holders(conns, e), Holders(conns - {s}, e);
    assert s !in now && now - {s} == was - {s};
    SameButOne(was, now, s);
  }

  ghost function Holds<E>(c: Conn<E>, e: E): int {
    if c.cacheFlag && EntryOf(c) == Some(e) then 1 else 0
  }

  // A filler is the only connection that has anything to do with its entry.
  lemma FillerAlone<E, S>(cfg: Setup, sys: Sys<E, S>, s: S)
    requires Inv(cfg, sys) && s in sys.conns && IsFiller(sys.conns[s])
    ensures forall t :: t in sys.conns && t != s ==> EntryOf(sys.conns[t]) != EntryOf(sys.conns[s])
  {
    forall t | t in sys.conns && t != s ensures EntryOf(sys.conns[t]) != EntryOf(sys.conns[s]) {
      if EntryOf(sys.conns[t]) == EntryOf(sys.conns[s]) {
        assert ConnOk(sys.conns[t], sys.cache.files) && ConnOk(sys.conns[s], sys.cache.files);
        assert IsFiller(sys.conns[t]);
      }
    }
  }

  // An idle entry is not referred to by any connection.
  lemma IdleAlone<E, S>(cfg: Setup, sys: Sys<E, S>, e: E)
    requires Inv(cfg, sys) && e in sys.cache.files && sys.cache.files[e].usage == 0 && sys.cache.files[e].ready
    ensures forall t :: t in sys.conns ==> EntryOf(sys.conns[t]) != Some(e)
  {
    forall t | t in sys.conns ensures EntryOf(sys.conns[t]) != Some(e) {
      assert ConnOk(sys.conns[t], sys.cache.files);
      assert t !in Holders(sys.conns, e);
    }
  }

  // One connection changes, and with it at most the entry it refers to before or after.
  ghost predicate Touches<E, S>(sys: Sys<E, S>, sys': Sys<E, S>, s: S, e: E)
  {
    && s in sys.conns && s in sys'.conns && sys'.conns == sys.conns[s := sys'.conns[s]]
    && e in sys.cache.files && e in sys'.cache.files
    && sys'.cache.files == sys.cache.files[e := sys'.cache.files[e]]
    && (EntryOf(sys.conns[s]).Some? ==> EntryOf(sys.conns[s]).value == e)
    && (EntryOf(sys'.conns[s]).Some? ==> EntryOf(sys'.conns[s]).value == e)
  }

  lemma TouchKeepsUsage<E, S>(sys: Sys<E, S>, sys': Sys<E, S>, s: S, e: E)
    requires UsageOk(sys) && Touches(sys, sys', s, e)
    requires sys'.cache.files[e].usage
          == sys.cache.files[e].usage - Holds(sys.conns[s], e) + Holds(sys'.conns[s], e)
    ensures UsageOk(sys')
  {
    forall x | x in sys'.cache.files ensures sys'.cache.files[x].usage == |Holders(sys'.conns, x)| {
      HoldersUpdate(sys.conns, s, sys'.conns[s], x);
    }
  }

  lemma TouchKeepsInv<E, S>(cfg: Setup, sys: Sys<E, S>, sys': Sys<E, S>, s: S, e: E)
    requires Inv(cfg, sys) && Touches(sys, sys', s, e) && SoundCache(sys'.cache, cfg.limit)
    requires FileOk(sys'.cache.files[e]) && ConnOk(sys'.conns[s], sys'.cache.files)
    requires sys'.cache.files[e].usage
          == sys.cache.files[e].usage - Holds(sys.conns[s], e) + Holds(sys'.conns[s], e)
    // other connections do not mind the change of the entry
    requires (sys'.cache.files[e].ready == sys.cache.files[e].ready
              && sys'.cache.files[e].buffer == sys.cache.files[e].buffer)
          || forall t :: t in sys.conns && t != s ==> EntryOf(sys.conns[t]) != Some(e)
    requires IsFiller(sys'.conns[s]) ==> forall t :: t in sys.conns && t != s ==> EntryOf(sys.conns[t]) != Some(e)
    ensures Inv(cfg, sys')
  {
    hide SoundCache, FileOk, ConnOk, UsageOk, FillersDiffer, Holds;
    TouchKeepsUsage(sys, sys', s, e);
    TouchKeepsConns(sys, sys', s, e);
    TouchKeepsFillers(sys, sys', s, e);
  }

  lemma TouchKeepsConns<E, S>(sys: Sys<E, S>, sys': Sys<E, S>, s: S, e: E)
    requires forall t :: t in sys.conns ==> ConnOk(sys.conns[t], sys.cache.files)
    requires Touches(sys, sys', s, e) && ConnOk(sys'.conns[s], sys'.cache.files)
    requires (sys'.cache.files[e].ready == sys.cache.files[e].ready
              && sys'.cache.files[e].buffer == sys.cache.files[e].buffer)
          || forall t :: t in sys.conns && t != s ==> EntryOf(sys.conns[t]) != Some(e)
    ensures forall t :: t in sys'.conns ==> ConnOk(sys'.conns[t], sys'.cache.files)
  {
    forall t | t in sys'.conns ensures ConnOk(sys'.conns[t], sys'.cache.files) {
      if t != s { assert ConnOk(sys.conns[t], sys.cache.files); }
    }
  }

  lemma TouchKeepsFillers<E, S>(sys: Sys<E, S>, sys': Sys<E, S>, s: S, e: E)
    requires FillersDiffer(sys.conns) && Touches(sys, sys', s, e)
    requires IsFiller(sys'.conns[s]) ==> forall t :: t in sys.conns && t != s ==> EntryOf(sys.conns[t]) != Some(e)
    ensures FillersDiffer(sys'.conns)
  {
  }

  // Nothing but a connection without an entry changes.
  lemma PlainKeepsInv<E, S>(cfg: Setup, sys: Sys<E, S>, sys': Sys<E, S>, s: S)
    requires Inv(cfg, sys) && SoundCache(sys'.cache, cfg.limit) && sys'.cache.files == sys.cache.files
    requires s in sys'.conns && sys'.conns == sys.conns[s := sys'.conns[s]]
    requires s in sys.conns ==> EntryOf(sys.conns[s]).None?
    requires EntryOf(sys'.conns[s]).None? && !sys'.conns[s].cacheFlag && sys'.conns[s].writer == DefaultWrite
    ensures Inv(cfg, sys')
  {
    forall x | x in sys'.cache.files ensures sys'.cache.files[x].usage == |Holders(sys'.conns, x)| {
      HoldersUpdate(sys.conns, s, sys'.conns[s], x);
    }
  }

  // An entry nobody refers to leaves the cache.
  lemma DestroyKeepsInv<E, S>(cfg: Setup, sys: Sys<E, S>, e: E)
    requires Inv(cfg, sys) && e in sys.cache.files
    requires forall t :: t in sys.conns ==> EntryOf(sys.conns[t]) != Some(e)
    ensures Inv(cfg, sys.(cache := DestroySpec(sys.cache, e)))
  {
    DestroyKeepsCache(sys.cache, cfg.limit, e);
    var sys' := sys.(cache := DestroySpec(sys.cache, e));
    forall t | t in sys'.conns ensures ConnOk(sys'.conns[t], sys'.cache.files) {
      assert ConnOk(sys.conns[t], sys.cache.files);
    }
  }

  // A new entry enters the cache.
  lemma InsertKeepsInv<E, S>(cfg: Setup, sys: Sys<E, S>, name: string, e: E)
    requires Inv(cfg, sys) && e !in sys.cache.files && name !in sys.cache.index && |sys.cache.order| < cfg.limit
    ensures Inv(cfg, sys.(cache := InsertSpec(sys.cache, name, e)))
    ensures forall t :: t in sys.conns ==> EntryOf(sys.conns[t]) != Some(e)
  {
    InsertKeepsCache(sys.cache, cfg.limit, name, e);
    var sys' := sys.(cache := InsertSpec(sys.cache, name, e));
    forall t | t in sys.conns ensures ConnOk(sys'.conns[t], sys'.cache.files) && EntryOf(sys.conns[t]) != Some(e) {
      assert ConnOk(sys.conns[t], sys.cache.files);
    }
    assert Holders(sys.conns, e) == {};
  }

  // A slot for a new file: the victim, if one is needed, is in use by no connection.
  lemma InitKeepsInv<E, S>(cfg: Setup, sys: Sys<E, S>, name: string, e: E)
    requires Inv(cfg, sys) && e !in sys.cache.files && name !in sys.cache.index
    ensures Inv(cfg, sys.(cache := InitSpec(sys.cache, cfg.limit, name, e).1))
    ensures InitSpec(sys.cache, cfg.limit, name, e).0 ==>
              e in InitSpec(sys.cache, cfg.limit, name, e).1.files
              && InitSpec(sys.cache, cfg.limit, name, e).1.files[e] == NewFile(name)
    ensures forall t :: t in sys.conns ==> EntryOf(sys.conns[t]) != Some(e)
  {
    var c := sys.cache;
    IndexSize(c, cfg.limit);
    forall t | t in sys.conns ensures EntryOf(sys.conns[t]) != Some(e) {
      assert ConnOk(sys.conns[t], sys.cache.files);
    }
    if |c.index| < cfg.limit {
      InsertKeepsInv(cfg, sys, name, e);
    } else if LastIdle(c.order, c.files).Some? {
      var v := LastIdle(c.order, c.files).value;
      LastIdleIsLeastRecent(c.order, c.files);
      IdleAlone(cfg, sys, v);
      DestroyKeepsInv(cfg, sys, v);
      DestroyKeepsCache(c, cfg.limit, v);
      InsertKeepsInv(cfg, sys.(cache := DestroySpec(c, v)), name, e);
    }
  }

  // ----- the steps -----

  lemma GetHitKeepsInv<E, S>(cfg: Setup, sys: Sys<E, S>, s: S, r: Request, e: E)
    requires Inv(cfg, sys) && Enabled(cfg, sys, Event.Get(s, r, e))
    requires !r.partial && r.name in sys.cache.index
    ensures Inv(cfg, GetSpec(cfg, sys, s, r, e))
  {
    var f := sys.cache.files[sys.cache.index[r.name]];
    CheckKeepsCache(sys.cache, cfg.limit, r.name);
    if !f.ready {
      PlainKeepsInv(cfg, sys, GetSpec(cfg, sys, s, r, e), s);
    } else if Stale(f, r) {
      GetStaleKeepsInv(cfg, sys, s, r, e);
    } else {
      GetFreshKeepsInv(cfg, sys, s, r, e);
    }
  }

  lemma GetStaleKeepsInv<E, S>(cfg: Setup, sys: Sys<E, S>, s: S, r: Request, e: E)
    requires Inv(cfg, sys) && Enabled(cfg, sys, Event.Get(s, r, e))
    requires !r.partial && r.name in sys.cache.index && SoundCache(CheckSpec(sys.cache, r.name), cfg.limit)
    requires sys.cache.files[sys.cache.index[r.name]].ready && Stale(sys.cache.files[sys.cache.index[r.name]], r)
    ensures Inv(cfg, GetSpec(cfg, sys, s, r, e))
  {
    hide CheckSpec, SoundCache;
    Lookups(sys.cache, cfg.limit);
    var x := sys.cache.index[r.name];
    var sys' := GetSpec(cfg, sys, s, r, e);
    IdleAlone(cfg, sys, x);
    CheckKeepsFiles(sys.cache, r.name);
    var f := RefreshedFile(sys.cache.files[x], r, cfg.refreshing);
    SameNameKeepsCache(CheckSpec(sys.cache, r.name), cfg.limit, x, f);
    TouchKeepsInv(cfg, sys, sys', s, x);
  }

  lemma GetFreshKeepsInv<E, S>(cfg: Setup, sys: Sys<E, S>, s: S, r: Request, e: E)
    requires Inv(cfg, sys) && Enabled(cfg, sys, Event.Get(s, r, e))
    requires !r.partial && r.name in sys.cache.index && SoundCache(CheckSpec(sys.cache, r.name), cfg.limit)
    requires sys.cache.files[sys.cache.index[r.name]].ready && !Stale(sys.cache.files[sys.cache.index[r.name]], r)
    ensures Inv(cfg, GetSpec(cfg, sys, s, r, e))
  {
    hide CheckSpec, SoundCache;
    Lookups(sys.cache, cfg.limit);
    var x := sys.cache.index[r.name];
    var f := sys.cache.files[x];
    var sys' := GetSpec(cfg, sys, s, r, e);
    CheckKeepsFiles(sys.cache, r.name);
    SameNameKeepsCache(CheckSpec(sys.cache, r.name), cfg.limit, x, HitFile(f));
    SendingOk(sys.conns[s], x, f, r, sys'.cache.files);
    TouchKeepsInv(cfg, sys, sys', s, x);
  }

  lemma SameNameKeepsCache<E>(c: Cache<E>, limit: nat, e: E, f: File)
    requires SoundCache(c, limit) && e in c.files && f.name == c.files[e].name
    ensures SoundCache(c.(files := c.files[e := f]), limit)
  {
  }

  lemma SendingOk<E>(c: Conn<E>, e: E, f: File, r: Request, files: map<E, File>)
    requires Waiting(c) && FileOk(f) && f.ready && e in files && files[e] == HitFile(f)
    ensures ConnOk(Sending(c, e, f, r), files)
  {
  }

  lemma CheckKeepsFiles<E>(c: Cache<E>, name: string)
    ensures CheckSpec(c, name).files == c.files && CheckSpec(c, name).index == c.index
  {
  }

  lemma GetMissKeepsInv<E, S>(cfg: Setup, sys: Sys<E, S>, s: S, r: Request, e: E)
    requires Inv(cfg, sys) && Enabled(cfg, sys, Event.Get(s, r, e))
    requires r.partial || r.name !in sys.cache.index
    ensures Inv(cfg, GetSpec(cfg, sys, s, r, e))
  {
    hide SoundCache, InitSpec;
    Lookups(sys.cache, cfg.limit);
    var sys' := GetSpec(cfg, sys, s, r, e);
    if !r.partial && 0 < r.size < cfg.cachesize && InitSpec(sys.cache, cfg.limit, r.name, e).0 {
      InitKeepsInv(cfg, sys, r.name, e);
      InitHasEntry(sys.cache, cfg.limit, r.name, e);
      var mid := sys.(cache := InitSpec(sys.cache, cfg.limit, r.name, e).1);
      assert Holders(mid.conns, e) == {};
      SameNameKeepsCache(mid.cache, cfg.limit, e, NewFile(r.name).(date := r.mtime));
      TouchKeepsInv(cfg, mid, sys', s, e);
    } else {
      PlainKeepsInv(cfg, sys, sys', s);
    }
  }

  lemma ReadKeepsInv<E, S>(cfg: Setup, sys: Sys<E, S>, s: S, got: Option<Bytes>)
    requires Inv(cfg, sys) && Enabled(cfg, sys, Event.Read(s, got))
    ensures Inv(cfg, Step(cfg, sys, Event.Read(s, got)))
  {
    hide SoundCache, ReadSpec;
    var sys' := Step(cfg, sys, Event.Read(s, got));
    var e := EntryOf(sys.conns[s]).value;
    FillerAlone(cfg, sys, s);
    assert ConnOk(sys.conns[s], sys.cache.files);
    ReadSpecOk(sys.conns[s], e, sys.cache.files, got);
    SameNameKeepsCache(sys.cache, cfg.limit, e, sys'.cache.files[e]);
    TouchKeepsInv(cfg, sys, sys', s, e);
  }

  lemma ReadSpecOk<E>(c: Conn<E>, e: E, files: map<E, File>, got: Option<Bytes>)
    requires IsFiller(c) && ConnOk(c, files) && EntryOf(c) == Some(e) && FileOk(files[e])
    ensures var (c', f') := ReadSpec(c, files[e], got);
      && ConnOk(c', files[e := f']) && FileOk(f') && f'.name == files[e].name && f'.usage == files[e].usage
      && !c'.cacheFlag && EntryOf(c') in {None, Some(e)}
  {
  }

  lemma FinishKeepsInv<E, S>(cfg: Setup, sys: Sys<E, S>, s: S)
    requires Inv(cfg, sys) && s in sys.conns && !IsFiller(sys.conns[s])
    ensures Inv(cfg, Finish(sys, s))
  {
    var c := sys.conns[s];
    assert ConnOk(c, sys.cache.files);
    if c.keepFlag {
      KeptKeepsInv(cfg, sys, s);
    } else {
      SameEntryKeepsInv(cfg, sys, s, c.(closing := true));
    }
  }

  lemma KeptKeepsInv<E, S>(cfg: Setup, sys: Sys<E, S>, s: S)
    requires Inv(cfg, sys) && s in sys.conns && !IsFiller(sys.conns[s])
    ensures Inv(cfg, Sys(ReleaseEntry(sys.cache, sys.conns[s]), sys.conns[s := KeptAlive(sys.conns[s])]))
  {
    hide SoundCache;
    var c := sys.conns[s];
    var sys' := Sys(ReleaseEntry(sys.cache, c), sys.conns[s := KeptAlive(c)]);
    assert ConnOk(c, sys.cache.files);
    if EntryOf(c).Some? {
      var e := EntryOf(c).value;
      var f := sys.cache.files[e];
      SameNameKeepsCache(sys.cache, cfg.limit, e, f.(usage := f.usage - 1));
      TouchKeepsInv(cfg, sys, sys', s, e);
    } else {
      PlainKeepsInv(cfg, sys, sys', s);
    }
  }

  // Replacing a connection by one that has the same entry and the same bytes.
  lemma SameEntryKeepsInv<E, S>(cfg: Setup, sys: Sys<E, S>, s: S, c: Conn<E>)
    requires Inv(cfg, sys) && s in sys.conns && ConnOk(c, sys.cache.files)
    requires EntryOf(c) == EntryOf(sys.conns[s]) && c.cacheFlag == sys.conns[s].cacheFlag
    requires c.reader == sys.conns[s].reader
    ensures Inv(cfg, sys.(conns := sys.conns[s := c]))
  {
    var sys' := sys.(conns := sys.conns[s := c]);
    assert ConnOk(sys.conns[s], sys.cache.files);
    if EntryOf(c).Some? {
      assert sys.cache == sys.cache.(files := sys.cache.files[EntryOf(c).value := sys.cache.files[EntryOf(c).value]]);
      if IsFiller(c) { FillerAlone(cfg, sys, s); }
      TouchKeepsInv(cfg, sys, sys', s, EntryOf(c).value);
    } else {
      PlainKeepsInv(cfg, sys, sys', s);
    }
  }

  lemma ConnIsOk<E, S>(cfg: Setup, sys: Sys<E, S>, s: S)
    requires Inv(cfg, sys) && s in sys.conns
    ensures ConnOk(sys.conns[s], sys.cache.files)
  {
  }

  lemma WriteKeepsInv<E, S>(cfg: Setup, sys: Sys<E, S>, s: S, n: nat, failed: bool)
    requires Inv(cfg, sys) && Enabled(cfg, sys, Event.Write(s, n, failed))
    ensures Inv(cfg, DefaultWriteSpec(sys, s, n, failed))
  {
    hide Inv, SoundCache;
    var c := sys.conns[s];
    var c' := c.(sendBuffer := c.sendBuffer[n..]);
    ConnIsOk(cfg, sys, s);
    if c'.doneFlag && c'.sendBuffer == [] {
      SameEntryKeepsInv(cfg, sys, s, c');
      FinishKeepsInv(cfg, sys.(conns := sys.conns[s := c']), s);
    } else {
      SameEntryKeepsInv(cfg, sys, s, DefaultWriteSpec(sys, s, n, failed).conns[s]);
    }
  }

  lemma CacheWriteKeepsInv<E, S>(cfg: Setup, sys: Sys<E, S>, s: S, n: nat, failed: bool)
    requires Inv(cfg, sys) && Enabled(cfg, sys, Event.CacheWrite(s, n, failed))
    ensures Inv(cfg, CacheWriteSpec(sys, s, n, failed))
  {
    var c := Advanced(sys.conns[s], n);
    assert ConnOk(sys.conns[s], sys.cache.files);
    AdvancedSender(sys.conns[s], sys.cache.files[EntryOf(c).value], n);
    if c.slot.value.size <= 0 {
      SameEntryKeepsInv(cfg, sys, s, c);
      FinishKeepsInv(cfg, sys.(conns := sys.conns[s := c]), s);
    } else {
      SameEntryKeepsInv(cfg, sys, s, c.(closing := failed));
    }
  }

  // Sending moves bytes from what is left to what has been sent, and keeps their order.
  lemma AdvancedSender<E>(c: Conn<E>, f: File, n: nat)
    requires c.slot.Some? && n <= |Content(c.slot.value.buffer)| && SenderOk(c, f)
    ensures SenderOk(Advanced(c, n), f)
  {
    var b := Content(c.slot.value.buffer);
    assert b == b[..n] + b[n..];
    assert Advanced(c, n).data + b[n..] == c.data + b;
  }

  lemma DisconnectKeepsInv<E, S>(cfg: Setup, sys: Sys<E, S>, s: S)
    requires Inv(cfg, sys) && s in sys.conns
    ensures Inv(cfg, DisconnectSpec(sys, s))
  {
    var c := sys.conns[s];
    assert ConnOk(c, sys.cache.files);
    if EntryOf(c).Some? && IsFiller(c) {
      var e := EntryOf(c).value;
      FillerAlone(cfg, sys, s);
      assert !c.cacheFlag;
      GoneKeepsInv(cfg, sys, sys.(conns := sys.conns - {s}), s);
      DestroyKeepsInv(cfg, sys.(conns := sys.conns - {s}), e);
    } else {
      GoneKeepsInv(cfg, sys, DisconnectSpec(sys, s), s);
    }
  }

  // A connection goes, and with it its share in the entry it was sending.
  lemma GoneKeepsInv<E, S>(cfg: Setup, sys: Sys<E, S>, sys': Sys<E, S>, s: S)
    requires Inv(cfg, sys) && s in sys.conns && sys'.conns == sys.conns - {s}
    requires sys'.cache == ReleaseEntry(sys.cache, sys.conns[s])
    ensures Inv(cfg, sys')
  {
    hide SoundCache, UsageOk, FileOk, ReleaseEntry;
    GoneKeepsUsage(sys, sys', s);
    ReleasedReady(sys, s);
    ReleaseKeepsFiles(sys.cache, cfg.limit, sys.conns[s]);
    forall t | t in sys'.conns ensures ConnOk(sys'.conns[t], sys'.cache.files) {
      ConnOkSameBytes(sys.conns[t], sys.cache.files, sys'.cache.files);
    }
  }

  lemma ReleasedReady<E, S>(sys: Sys<E, S>, s: S)
    requires s in sys.conns && ConnOk(sys.conns[s], sys.cache.files)
    ensures var c := sys.conns[s];
            c.cacheFlag ==>
              (EntryOf(c).Some? && EntryOf(c).value in sys.cache.files && sys.cache.files[EntryOf(c).value].ready)
  {
  }

  lemma ConnOkSameBytes<E>(c: Conn<E>, files: map<E, File>, files': map<E, File>)
    requires ConnOk(c, files)
    requires forall e :: e in files ==>
      e in files' && files'[e].ready == files[e].ready && files'[e].buffer == files[e].buffer
    ensures ConnOk(c, files')
  {
  }

  lemma GoneKeepsUsage<E, S>(sys: Sys<E, S>, sys': Sys<E, S>, s: S)
    requires UsageOk(sys) && s in sys.conns && sys'.conns == sys.conns - {s}
    requires sys'.cache == ReleaseEntry(sys.cache, sys.conns[s])
    ensures UsageOk(sys')
  {
    forall x | x in sys'.cache.files ensures sys'.cache.files[x].usage == |Holders(sys'.conns, x)| {
      HoldersRemove(sys.conns, s, x);
    }
  }

  lemma ReleaseKeepsFiles<E>(cache: Cache<E>, limit: nat, c: Conn<E>)
    requires SoundCache(cache, limit)
    requires forall e :: e in cache.files ==> FileOk(cache.files[e])
    requires c.cacheFlag && EntryOf(c).Some? && EntryOf(c).value in cache.files ==> cache.files[EntryOf(c).value].ready
    ensures SoundCache(ReleaseEntry(cache, c), limit)
    ensures ReleaseEntry(cache, c).files.Keys == cache.files.Keys
    ensures forall e :: e in cache.files ==>
              && FileOk(ReleaseEntry(cache, c).files[e])
              && ReleaseEntry(cache, c).files[e].ready == cache.files[e].ready
              && ReleaseEntry(cache, c).files[e].buffer == cache.files[e].buffer
  {
  }

  lemma StepKeepsInv<E, S>(cfg: Setup, sys: Sys<E, S>, ev: Event<E, S>)
    requires Inv(cfg, sys) && Enabled(cfg, sys, ev)
    ensures Inv(cfg, Step(cfg, sys, ev))
  {
    match ev
    case Connect(s) => PlainKeepsInv(cfg, sys, Step(cfg, sys, ev), s);
    case Get(s, r, e) =>
      if !r.partial && r.name in sys.cache.index {
        GetHitKeepsInv(cfg, sys, s, r, e);
      } else {
        GetMissKeepsInv(cfg, sys, s, r, e);
      }
    case Read(s, got) => ReadKeepsInv(cfg, sys, s, got);
    case Write(s, n, failed) => WriteKeepsInv(cfg, sys, s, n, failed);
    case CacheWrite(s, n, failed) => CacheWriteKeepsInv(cfg, sys, s, n, failed);
    case Disconnect(s) => DisconnectKeepsInv(cfg, sys, s);
  }

  // A refresh of an entry in use, and only that, breaks the invariant.
  lemma StepKeepsInvIff<E, S>(cfg: Setup, sys: Sys<E, S>, ev: Event<E, S>)
    requires Inv(cfg, sys) && Possible(cfg, sys, ev)
    ensures Inv(cfg, Step(cfg, sys, ev)) <==> !Clash(cfg, sys, ev)
  {
    hide GetSpec, Inv;
    if Clash(cfg, sys, ev) {
      ClashMiscounts(cfg, sys, ev.s, ev.request, ev.e);
    } else {
      StepKeepsInv(cfg, sys, ev);
    }
  }

  lemma ClashMiscounts<E, S>(cfg: Setup, sys: Sys<E, S>, s: S, r: Request, e: E)
    requires Inv(cfg, sys) && Possible(cfg, sys, Event.Get(s, r, e)) && Clash(cfg, sys, Event.Get(s, r, e))
    ensures !Inv(cfg, GetSpec(cfg, sys, s, r, e))
  {
    hide SoundCache, CheckSpec;
    Lookups(sys.cache, cfg.limit);
    var x := sys.cache.index[r.name];
    var sys' := GetSpec(cfg, sys, s, r, e);
    CheckKeepsFiles(sys.cache, r.name);
    HoldersUpdate(sys.conns, s, sys'.conns[s], x);
    assert sys'.cache.files[x].usage == 0;
  }

  // ----- runs -----

  ghost function Empty<E, S>(): Sys<E, S>
  {
    Sys(Cache([], map[], map[]), map[])
  }

  // The states of a server and what happened between them, whatever that was.
  ghost predicate IsTrace<E, S>(cfg: Setup, trace: seq<Sys<E, S>>, evs: seq<Event<E, S>>)
  {
    && |trace| == |evs| + 1 && trace[0] == Empty()
    && forall i :: 0 <= i < |evs| ==> Possible(cfg, trace[i], evs[i]) && trace[i + 1] == Step(cfg, trace[i], evs[i])
  }

  // A trace in which no entry in use is refreshed.
  ghost predicate IsRun<E, S>(cfg: Setup, trace: seq<Sys<E, S>>, evs: seq<Event<E, S>>)
  {
    IsTrace(cfg, trace, evs) && forall i :: 0 <= i < |evs| ==> Enabled(cfg, trace[i], evs[i])
  }

  lemma {:induction false} RunKeepsInv<E, S>(cfg: Setup, trace: seq<Sys<E, S>>, evs: seq<Event<E, S>>, i: nat)
    requires IsRun(cfg, trace, evs) && i < |trace|
    ensures Inv(cfg, trace[i])
  {
    if i > 0 {
      RunKeepsInv(cfg, trace, evs, i - 1);
      StepKeepsInv(cfg, trace[i - 1], evs[i - 1]);
    }
  }

  // Of everything that may happen, exactly the runs without such a refresh keep the invariant.
  lemma {:induction false} RunKeepsInvIff<E, S>(cfg: Setup, trace: seq<Sys<E, S>>, evs: seq<Event<E, S>>, n: nat)
    requires IsTrace(cfg, trace, evs) && n <= |evs|
    ensures (forall i :: 0 <= i <= n ==> Inv(cfg, trace[i])) <==>
            (forall i :: 0 <= i < n ==> !Clash(cfg, trace[i], evs[i]))
  {
    hide Inv, Possible, Step, Clash;
    if n == 0 {
      EmptyInv<E, S>(cfg);
    } else {
      RunKeepsInvIff(cfg, trace, evs, n - 1);
      var quiet := forall i :: 0 <= i < n - 1 ==> !Clash(cfg, trace[i], evs[i]);
      if quiet {
        assert Inv(cfg, trace[n - 1]);
        StepKeepsInvIff(cfg, trace[n - 1], evs[n - 1]);
        assert trace[n] == Step(cfg, trace[n - 1], evs[n - 1]);
      } else {
        var i :| 0 <= i <= n - 1 && !Inv(cfg, trace[i]);
        var j :| 0 <= j < n - 1 && Clash(cfg, trace[j], evs[j]);
      }
    }
  }

  lemma EmptyInv<E, S>(cfg: Setup)
    ensures Inv(cfg, Empty<E, S>())
  {
  }

  // At any moment of any run: the usage of an entry is the number of connections sending it.
  lemma UsageIsConserved<E, S>(cfg: Setup, trace: seq<Sys<E, S>>, evs: seq<Event<E, S>>, i: nat, e: E)
    requires IsRun(cfg, trace, evs) && i < |trace| && e in trace[i].cache.files
    ensures trace[i].cache.files[e].usage == |Holders(trace[i].conns, e)|
  {
    RunKeepsInv(cfg, trace, evs, i);
  }

  ghost function Actor<E, S>(ev: Event<E, S>): S { ev.s }

  lemma OthersUnchanged<E, S>(cfg: Setup, sys: Sys<E, S>, ev: Event<E, S>, t: S)
    requires Enabled(cfg, sys, ev) && t in sys.conns && t != Actor(ev)
    ensures t in Step(cfg, sys, ev).conns && Step(cfg, sys, ev).conns[t] == sys.conns[t]
  {
  }

  // Whatever other connections do, with whatever evictions, an entry that is being sent stays
  // in the cache with its contents.
  lemma SendersKeepTheirEntry<E, S>(cfg: Setup, trace: seq<Sys<E, S>>, evs: seq<Event<E, S>>, i: nat, t: S)
    requires IsRun(cfg, trace, evs) && i < |evs| && t != Actor(evs[i])
    requires t in trace[i].conns && trace[i].conns[t].cacheFlag
    ensures EntryOf(trace[i].conns[t]).Some?
    ensures var e := EntryOf(trace[i].conns[t]).value;
            && e in trace[i].cache.files && e in trace[i + 1].cache.files && trace[i + 1].cache.files[e].ready
            && Content(trace[i + 1].cache.files[e].buffer) == Content(trace[i].cache.files[e].buffer)
  {
    RunKeepsInv(cfg, trace, evs, i);
    RunKeepsInv(cfg, trace, evs, i + 1);
    OthersUnchanged(cfg, trace[i], evs[i], t);
    assert ConnOk(trace[i].conns[t], trace[i].cache.files);
    assert ConnOk(trace[i + 1].conns[t], trace[i + 1].cache.files);
  }

  // When nothing is left to send, exactly the entry has been sent, however it was cut up.
  lemma SentWhole<E, S>(cfg: Setup, trace: seq<Sys<E, S>>, evs: seq<Event<E, S>>, i: nat, s: S)
    requires IsRun(cfg, trace, evs) && i < |trace| && s in trace[i].conns && trace[i].conns[s].cacheFlag
    requires trace[i].conns[s].slot.Some? && trace[i].conns[s].slot.value.size <= 0
    ensures EntryOf(trace[i].conns[s]).Some? && EntryOf(trace[i].conns[s]).value in trace[i].cache.files
    ensures trace[i].conns[s].data == Content(trace[i].cache.files[EntryOf(trace[i].conns[s]).value].buffer)
  {
    RunKeepsInv(cfg, trace, evs, i);
    assert ConnOk(trace[i].conns[s], trace[i].cache.files);
  }

  // One read while filling: what is missing and what is cached always make up the announced
  // size, and the same bytes go to the entry, to the send buffer and, on completion, to the cache.
  lemma ReadConserves<E, S>(cfg: Setup, sys: Sys<E, S>, s: S, d: Bytes)
    requires Inv(cfg, sys) && Enabled(cfg, sys, Event.Read(s, Some(d)))
    ensures var c, e := sys.conns[s], EntryOf(sys.conns[s]).value;
            var sys' := Step(cfg, sys, Event.Read(s, Some(d)));
            var c', f' := sys'.conns[s], sys'.cache.files[e];
            && c'.sendBuffer == c.sendBuffer + d && c'.data == c.data + d
            && (!f'.ready ==> Content(c'.slot.value.buffer) == c'.data && c'.expected == c.expected
                              && c'.filelength + c'.slot.value.size == c.expected)
            && (f'.ready ==> Content(f'.buffer) == c'.data && f'.size == |c'.data|
                             && c'.filelength + f'.size == c.expected)
            && (f'.ready <==> (d == [] && c.filelength != 0) || c.filelength <= |d|)
  {
    assert ConnOk(sys.conns[s], sys.cache.files);
  }

  // ----- the chained list over whole runs -----

  // The entry a command makes the most recent one.
  ghost function Touched<E, S>(cfg: Setup, sys: Sys<E, S>, ev: Event<E, S>): seq<E>
    requires Possible(cfg, sys, ev)
  {
    if !ev.Get? || ev.request.partial then []
    else if ev.request.name in sys.cache.index then [sys.cache.index[ev.request.name]]
    else if 0 < ev.request.size < cfg.cachesize && InitSpec(sys.cache, cfg.limit, ev.request.name, ev.e).0 then [ev.e]
    else []
  }

  ghost function TouchesSoFar<E, S>(cfg: Setup, trace: seq<Sys<E, S>>, evs: seq<Event<E, S>>, i: nat): seq<E>
    requires IsTrace(cfg, trace, evs) && i < |trace|
  {
    if i == 0 then [] else TouchesSoFar(cfg, trace, evs, i - 1) + Touched(cfg, trace[i - 1], evs[i - 1])
  }

  lemma StepKeepsRecency<E, S>(cfg: Setup, sys: Sys<E, S>, ev: Event<E, S>, touches: seq<E>)
    requires Possible(cfg, sys, ev) && InRecencyOrder(sys.cache, touches)
    ensures InRecencyOrder(Step(cfg, sys, ev).cache, touches + Touched(cfg, sys, ev))
  {
    assert touches + [] == touches;
    match ev
    case Get(s, r, e) => GetKeepsRecency(cfg, sys, s, r, e, touches);
    case Disconnect(s) =>
      if EntryOf(sys.conns[s]).Some? && EntryOf(sys.conns[s]).value in sys.cache.files {
        DestroyKeepsRecency(sys.cache, touches, EntryOf(sys.conns[s]).value);
      }
      ReleaseKeepsOrder(sys.cache, sys.conns[s]);
    case Write(s, n, failed) => ReleaseKeepsOrder(sys.cache, sys.conns[s].(sendBuffer := sys.conns[s].sendBuffer[n..]));
    case CacheWrite(s, n, failed) => ReleaseKeepsOrder(sys.cache, Advanced(sys.conns[s], n));
    case Read(s, got) => assert Step(cfg, sys, ev).cache.files.Keys == sys.cache.files.Keys;
    case Connect(s) =>
  }

  lemma ReleaseKeepsOrder<E>(cache: Cache<E>, c: Conn<E>)
    ensures ReleaseEntry(cache, c).order == cache.order
    ensures ReleaseEntry(cache, c).files.Keys == cache.files.Keys
  {
  }

  lemma GetKeepsRecency<E, S>(cfg: Setup, sys: Sys<E, S>, s: S, r: Request, e: E, touches: seq<E>)
    requires Possible(cfg, sys, Event.Get(s, r, e)) && InRecencyOrder(sys.cache, touches)
    ensures InRecencyOrder(GetSpec(cfg, sys, s, r, e).cache, touches + Touched(cfg, sys, Event.Get(s, r, e)))
  {
    var cache' := GetSpec(cfg, sys, s, r, e).cache;
    assert touches + [] == touches;
    if !r.partial && r.name in sys.cache.index {
      CheckIsTouch(sys.cache, cfg.limit, touches, r.name);
      assert cache'.files.Keys == sys.cache.files.Keys;
    } else if !r.partial && 0 < r.size < cfg.cachesize {
      InitIsTouch(sys.cache, cfg.limit, touches, r.name, e);
      var (ok, c) := InitSpec(sys.cache, cfg.limit, r.name, e);
      if ok { InitHasEntry(sys.cache, cfg.limit, r.name, e); }
      assert cache'.files.Keys == c.files.Keys;
    }
  }

  lemma InitHasEntry<E>(c: Cache<E>, limit: nat, name: string, e: E)
    requires forall x :: x in c.order ==> x in c.files
    ensures InitSpec(c, limit, name, e).0 ==> e in InitSpec(c, limit, name, e).1.files
    ensures InitSpec(c, limit, name, e).0 ==> InitSpec(c, limit, name, e).1.files[e] == NewFile(name)
    ensures !InitSpec(c, limit, name, e).0 ==> InitSpec(c, limit, name, e).1 == c
  {
  }

  lemma NothingTouched<E, S>()
    ensures InRecencyOrder(Empty<E, S>().cache, [])
  {
  }

  // At any moment of any trace the chained list holds the live entries, latest touch first.
  lemma {:induction false} ListIsRecency<E, S>(cfg: Setup, trace: seq<Sys<E, S>>, evs: seq<Event<E, S>>, i: nat)
    requires IsTrace(cfg, trace, evs) && i < |trace|
    ensures InRecencyOrder(trace[i].cache, TouchesSoFar(cfg, trace, evs, i))
  {
    hide InRecencyOrder, Touched, Possible, Step;
    if i == 0 {
      NothingTouched<E, S>();
    } else {
      ListIsRecency(cfg, trace, evs, i - 1);
      StepKeepsRecency(cfg, trace[i - 1], evs[i - 1], TouchesSoFar(cfg, trace, evs, i - 1));
    }
  }

  // ----- list and hash over whole traces -----

  lemma StepKeepsCache<E, S>(cfg: Setup, sys: Sys<E, S>, ev: Event<E, S>)
    requires SoundCache(sys.cache, cfg.limit) && Possible(cfg, sys, ev)
    ensures SoundCache(Step(cfg, sys, ev).cache, cfg.limit)
  {
    hide SoundCache, GetSpec, ReadSpec, DestroySpec, ReleaseEntry;
    match ev
    case Get(s, r, e) => GetKeepsCache(cfg, sys, s, r, e);
    case Read(s, got) =>
      var e := EntryOf(sys.conns[s]).value;
      ReadKeepsName(sys.conns[s], sys.cache.files[e], got);
      SameNameKeepsCache(sys.cache, cfg.limit, e, ReadSpec(sys.conns[s], sys.cache.files[e], got).1);
    case Disconnect(s) =>
      if EntryOf(sys.conns[s]).Some? && EntryOf(sys.conns[s]).value in sys.cache.files {
        DestroyKeepsCache(sys.cache, cfg.limit, EntryOf(sys.conns[s]).value);
      }
      ReleaseKeepsCache(sys.cache, cfg.limit, sys.conns[s]);
    case Write(s, n, failed) =>
      ReleaseKeepsCache(sys.cache, cfg.limit, sys.conns[s].(sendBuffer := sys.conns[s].sendBuffer[n..]));
    case CacheWrite(s, n, failed) => ReleaseKeepsCache(sys.cache, cfg.limit, Advanced(sys.conns[s], n));
    case Connect(s) =>
  }

  lemma GetKeepsCache<E, S>(cfg: Setup, sys: Sys<E, S>, s: S, r: Request, e: E)
    requires Possible(cfg, sys, Event.Get(s, r, e))
    ensures SoundCache(GetSpec(cfg, sys, s, r, e).cache, cfg.limit)
  {
    hide SoundCache, InitSpec, CheckSpec;
    Lookups(sys.cache, cfg.limit);
    if !r.partial && r.name in sys.cache.index {
      var x := sys.cache.index[r.name];
      var f := sys.cache.files[x];
      CheckKeepsCache(sys.cache, cfg.limit, r.name);
      CheckKeepsFiles(sys.cache, r.name);
      SameNameKeepsCache(CheckSpec(sys.cache, r.name), cfg.limit, x, HitFile(f));
      SameNameKeepsCache(CheckSpec(sys.cache, r.name), cfg.limit, x, RefreshedFile(f, r, cfg.refreshing));
    } else if !r.partial && InitSpec(sys.cache, cfg.limit, r.name, e).0 {
      InitKeepsCache(sys.cache, cfg.limit, r.name, e);
      InitHasEntry(sys.cache, cfg.limit, r.name, e);
      var c := InitSpec(sys.cache, cfg.limit, r.name, e).1;
      SameNameKeepsCache(c, cfg.limit, e, NewFile(r.name).(date := r.mtime));
    }
  }

  lemma ReadKeepsName<E>(c: Conn<E>, f: File, got: Option<Bytes>)
    requires c.slot.Some?
    ensures ReadSpec(c, f, got).1.name == f.name
  {
  }

  lemma ReleaseKeepsCache<E>(cache: Cache<E>, limit: nat, c: Conn<E>)
    requires SoundCache(cache, limit)
    ensures SoundCache(ReleaseEntry(cache, c), limit)
  {
  }

  // Whatever happens, refreshes of entries in use included, list and hash stay in agreement.
  lemma {:induction false} TraceKeepsCache<E, S>(cfg: Setup, trace: seq<Sys<E, S>>, evs: seq<Event<E, S>>, i: nat)
    requires IsTrace(cfg, trace, evs) && i < |trace|
    ensures SoundCache(trace[i].cache, cfg.limit)
  {
    hide Possible, Step;
    if i > 0 {
      TraceKeepsCache(cfg, trace, evs, i - 1);
      StepKeepsCache(cfg, trace[i - 1], evs[i - 1]);
    }
  }

  // ----- the debugging predicate cache_consistency_internal -----

  ghost predicate Internal(f: File)
  {
    if f.ready then f.size >= 0 && f.buffer.Some? && f.hits >= 0
    else f.size == 0 && f.buffer.None? && f.hits == 0
  }

  ghost predicate AllInternal<E, S>(sys: Sys<E, S>)
  {
    forall e :: e in sys.cache.files ==> Internal(sys.cache.files[e])
  }

  // The two steps that upset it: a refresh that leaves a size behind, and a file that turns
  // out to have no bytes at all.
  ghost predicate Upsets<E, S>(cfg: Setup, sys: Sys<E, S>, ev: Event<E, S>)
    requires Possible(cfg, sys, ev)
  {
    match ev
    case Get(s, r, e) =>
      && !r.partial && r.name in sys.cache.index
      && var f := sys.cache.files[sys.cache.index[r.name]];
         f.ready && Stale(f, r) && cfg.refreshing == KeepsSize && f.size != 0
    case Read(s, got) => got == Some([]) && sys.conns[s].slot.value.size == 0
    case _ => false
  }

  // The slot of a connection that fills an entry has a buffer as soon as it has a byte.
  ghost predicate SlotOk<E>(c: Conn<E>)
  {
    c.reader == CacheRead ==>
      && !c.cacheFlag && c.writer == DefaultWrite
      && (c.slot.Some? ==> c.slot.value.size >= 0 && (c.slot.value.buffer.None? <==> c.slot.value.size == 0))
  }

  ghost predicate SlotsOk<E, S>(sys: Sys<E, S>)
  {
    forall s :: s in sys.conns ==> SlotOk(sys.conns[s])
  }

  lemma StepKeepsSlots<E, S>(cfg: Setup, sys: Sys<E, S>, ev: Event<E, S>)
    requires SlotsOk(sys) && Possible(cfg, sys, ev)
    ensures SlotsOk(Step(cfg, sys, ev))
  {
    hide SoundCache, Step, SlotOk, Possible;
    var sys' := Step(cfg, sys, ev);
    forall t | t in sys'.conns ensures SlotOk(sys'.conns[t]) {
      if t == ev.s {
        ActorsSlot(cfg, sys, ev);
      } else {
        OnlyActor(cfg, sys, ev, t);
      }
    }
  }

  lemma OnlyActor<E, S>(cfg: Setup, sys: Sys<E, S>, ev: Event<E, S>, t: S)
    requires Possible(cfg, sys, ev) && t in Step(cfg, sys, ev).conns && t != ev.s
    ensures t in sys.conns && Step(cfg, sys, ev).conns[t] == sys.conns[t]
  {
    hide SoundCache, InitSpec, CheckSpec, ReleaseEntry, DestroySpec, ReadSpec;
  }

  lemma ActorsSlot<E, S>(cfg: Setup, sys: Sys<E, S>, ev: Event<E, S>)
    requires Possible(cfg, sys, ev) && ev.s in Step(cfg, sys, ev).conns
    requires ev.s in sys.conns ==> SlotOk(sys.conns[ev.s])
    ensures SlotOk(Step(cfg, sys, ev).conns[ev.s])
  {
    hide SoundCache, GetSpec, ReadSpec, DefaultWriteSpec, CacheWriteSpec, ReleaseEntry, DestroySpec;
    match ev
    case Connect(s) =>
    case Get(s, r, e) => SlotByGet(cfg, sys, s, r, e);
    case Read(s, got) => SlotByRead(cfg, sys, s, got);
    case Write(s, n, failed) => SlotByWrite(cfg, sys, s, n, failed);
    case CacheWrite(s, n, failed) => SlotByCacheWrite(cfg, sys, s, n, failed);
    case Disconnect(s) =>
  }

  lemma SlotByGet<E, S>(cfg: Setup, sys: Sys<E, S>, s: S, r: Request, e: E)
    requires Possible(cfg, sys, Event.Get(s, r, e)) && SlotOk(sys.conns[s])
    ensures s in Step(cfg, sys, Event.Get(s, r, e)).conns && SlotOk(Step(cfg, sys, Event.Get(s, r, e)).conns[s])
  {
    hide SoundCache, InitSpec, CheckSpec;
  }

  lemma SlotByRead<E, S>(cfg: Setup, sys: Sys<E, S>, s: S, got: Option<Bytes>)
    requires Possible(cfg, sys, Event.Read(s, got)) && SlotOk(sys.conns[s])
    ensures s in Step(cfg, sys, Event.Read(s, got)).conns && SlotOk(Step(cfg, sys, Event.Read(s, got)).conns[s])
  {
    hide SoundCache;
  }

  lemma SlotByWrite<E, S>(cfg: Setup, sys: Sys<E, S>, s: S, n: nat, failed: bool)
    requires Possible(cfg, sys, Event.Write(s, n, failed)) && SlotOk(sys.conns[s])
    ensures var conns := Step(cfg, sys, Event.Write(s, n, failed)).conns; s in conns && SlotOk(conns[s])
  {
    hide SoundCache, ReleaseEntry;
  }

  lemma SlotByCacheWrite<E, S>(cfg: Setup, sys: Sys<E, S>, s: S, n: nat, failed: bool)
    requires Possible(cfg, sys, Event.CacheWrite(s, n, failed)) && SlotOk(sys.conns[s])
    ensures var conns := Step(cfg, sys, Event.CacheWrite(s, n, failed)).conns; s in conns && SlotOk(conns[s])
  {
    hide SoundCache, ReleaseEntry;
  }

  lemma InternalIff<E, S>(cfg: Setup, sys: Sys<E, S>, ev: Event<E, S>)
    requires SlotsOk(sys) && Possible(cfg, sys, ev) && AllInternal(sys)
    ensures AllInternal(Step(cfg, sys, ev)) <==> !Upsets(cfg, sys, ev)
  {
    hide SoundCache, GetSpec, ReadSpec;
    match ev
    case Get(s, r, e) =>
      if !r.partial && r.name in sys.cache.index {
        InternalHit(cfg, sys, s, r, e);
      } else {
        InternalMiss(cfg, sys, s, r, e);
      }
    case Read(s, got) => InternalRead(cfg, sys, s, got);
    case _ =>
  }

  lemma InternalHit<E, S>(cfg: Setup, sys: Sys<E, S>, s: S, r: Request, e: E)
    requires Possible(cfg, sys, Event.Get(s, r, e)) && AllInternal(sys)
    requires !r.partial && r.name in sys.cache.index
    ensures AllInternal(GetSpec(cfg, sys, s, r, e)) <==> !Upsets(cfg, sys, Event.Get(s, r, e))
  {
    var x := sys.cache.index[r.name];
    var files' := GetSpec(cfg, sys, s, r, e).cache.files;
    assert forall y :: y in files' <==> y in sys.cache.files;
    assert forall y :: y in files' && y != x ==> files'[y] == sys.cache.files[y];
    assert Internal(files'[x]) <==> !Upsets(cfg, sys, Event.Get(s, r, e));
  }

  lemma InternalMiss<E, S>(cfg: Setup, sys: Sys<E, S>, s: S, r: Request, e: E)
    requires Possible(cfg, sys, Event.Get(s, r, e)) && AllInternal(sys)
    requires r.partial || r.name !in sys.cache.index
    ensures AllInternal(GetSpec(cfg, sys, s, r, e))
  {
  }

  lemma InternalRead<E, S>(cfg: Setup, sys: Sys<E, S>, s: S, got: Option<Bytes>)
    requires SlotsOk(sys) && Possible(cfg, sys, Event.Read(s, got)) && AllInternal(sys)
    ensures AllInternal(Step(cfg, sys, Event.Read(s, got))) <==> !Upsets(cfg, sys, Event.Read(s, got))
  {
    var e := EntryOf(sys.conns[s]).value;
    assert SlotOk(sys.conns[s]);
    var files' := Step(cfg, sys, Event.Read(s, got)).cache.files;
    assert forall y :: y in files' && y != e ==> files'[y] == sys.cache.files[y];
    assert Internal(files'[e]) <==> !Upsets(cfg, sys, Event.Read(s, got));
  }

  lemma {:induction false} TraceKeepsSlots<E, S>(cfg: Setup, trace: seq<Sys<E, S>>, evs: seq<Event<E, S>>, i: nat)
    requires IsTrace(cfg, trace, evs) && i < |trace|
    ensures SlotsOk(trace[i])
  {
    hide Possible, Step;
    if i > 0 {
      TraceKeepsSlots(cfg, trace, evs, i - 1);
      StepKeepsSlots(cfg, trace[i - 1], evs[i - 1]);
    }
  }

  lemma EmptyInternal<E, S>()
    ensures AllInternal(Empty<E, S>())
  {
  }

  // Whatever happens, the predicate holds all the time exactly when none of these steps is taken.
  lemma {:induction false} TraceInternalIff<E, S>(cfg: Setup, trace: seq<Sys<E, S>>, evs: seq<Event<E, S>>, n: nat)
    requires IsTrace(cfg, trace, evs) && n <= |evs|
    ensures (forall i :: 0 <= i <= n ==> AllInternal(trace[i])) <==>
            (forall i :: 0 <= i < n ==> !Upsets(cfg, trace[i], evs[i]))
  {
    hide AllInternal, Possible, Step, Upsets, SlotsOk;
    if n == 0 {
      assert AllInternal(Empty<E, S>()) by { EmptyInternal<E, S>(); }
    } else {
      TraceInternalIff(cfg, trace, evs, n - 1);
      if forall i :: 0 <= i < n - 1 ==> !Upsets(cfg, trace[i], evs[i]) {
        assert AllInternal(trace[n - 1]);
        TraceKeepsSlots(cfg, trace, evs, n - 1);
        InternalIff(cfg, trace[n - 1], evs[n - 1]);
        assert trace[n] == Step(cfg, trace[n - 1], evs[n - 1]);
      } else {
        var i :| 0 <= i <= n - 1 && !AllInternal(trace[i]);
        var j :| 0 <= j < n - 1 && Upsets(cfg, trace[j], evs[j]);
      }
    }
  }

  // ----- refreshing an entry in use -----

  // http_refresh_cache zeroes the usage count and frees the bytes: right exactly when nobody is
  // sending them.
  lemma RefreshConservesIff<E, S>(sys: Sys<E, S>, e: E, r: Request, m: Refreshing)
    requires UsageOk(sys) && e in sys.cache.files
    requires forall s :: s in Holders(sys.conns, e) ==> SenderOk(sys.conns[s], sys.cache.files[e])
    ensures var f := sys.cache.files[e];
            UsageOk(sys.(cache := sys.cache.(files := sys.cache.files[e := RefreshedFile(f, r, m)]))) <==> f.usage == 0
    ensures var f := sys.cache.files[e];
            (forall s :: s in Holders(sys.conns, e) ==> SenderOk(sys.conns[s], RefreshedFile(f, r, m)))
            <==> f.usage == 0
    ensures var f := sys.cache.files[e];
            forall s :: s in Holders(sys.conns, e) ==>
              (sys.conns[s].data + Content(sys.conns[s].slot.value.buffer) == Content(RefreshedFile(f, r, m).buffer)
               <==> Content(f.buffer) == [])
  {
    var f := sys.cache.files[e];
    var sys' := sys.(cache := sys.cache.(files := sys.cache.files[e := RefreshedFile(f, r, m)]));
    assert sys'.cache.files[e].usage == 0 && |Holders(sys'.conns, e)| == f.usage;
    if f.usage != 0 {
      var s :| s in Holders(sys.conns, e);
      assert !SenderOk(sys.conns[s], RefreshedFile(f, r, m));
    }
  }

  // A cache of one file of two bytes, and a request for it.
  function Holding(f: File): Cache<int> { Cache([7], map[f.name := 7], map[7 := f]) }

  function Index(ready: bool, used: nat): File {
    var size := if ready then 2 else 0;
    File("index.html", ready, used, used, size, if ready then Some([104, 105]) else None, 10)
  }

  function IndexRequest(mtime: int): Request { Request("index.html", mtime, 2, false, false, false) }

  // A connection is sending the file when a second request finds it changed on disk.
  function InUse(): Sys<int, int>
  {
    var c := NewConn<int>().(cacheFlag := true, slot := Some(Slot(Some(7), Some([104, 105]), 2)));
    Sys(Holding(Index(true, 1)), map[1 := c, 2 := NewConn()])
  }

  lemma InUseIsGood(cfg: Setup)
    requires cfg.limit >= 1
    ensures Inv(cfg, InUse())
  {
    assert Holders(InUse().conns, 7) == {1};
  }

  // It is reached: one connection has the file cached and leaves, a second one asks for it, and
  // a third one connects.
  lemma InUseIsReached(cfg: Setup) returns (trace: seq<Sys<int, int>>, evs: seq<Event<int, int>>)
    requires cfg.limit >= 1 && cfg.cachesize > 2 && cfg.bufferSize >= 2
    ensures IsRun(cfg, trace, evs) && trace[|evs|] == InUse()
  {
    hide Possible, Clash, Step;
    var c := NewConn<int>();
    var filling := Filling(c, 7, IndexRequest(10));
    evs := [Connect(3), Get(3, IndexRequest(10), 7), Read(3, Some([104, 105])), Disconnect(3),
            Connect(1), Get(1, IndexRequest(10), 8), Connect(2)];
    trace := [Empty(), Empty().(conns := map[3 := c]), Sys(Holding(Index(false, 0)), map[3 := filling]),
              Sys(Holding(Index(true, 0)), map[3 := Filled(filling)]), Sys(Holding(Index(true, 0)), map[]),
              Sys(Holding(Index(true, 0)), map[1 := c]),
              Sys(Holding(Index(true, 1)), map[1 := InUse().conns[1]]), InUse()];
    ConnectStep(cfg, trace[0], 3);
    FillStep(cfg);
    FilledStep(cfg);
    LeaveStep(cfg);
    ConnectStep(cfg, trace[4], 1);
    HitStep(cfg);
    ConnectStep(cfg, trace[6], 2);
    assert trace[6].conns[2 := c] == InUse().conns;
  }

  // The connection after it has read the whole file.
  function Filled(c: Conn<int>): Conn<int> {
    c.(slot := Some(NoSlot()), reader := TcpRead, doneFlag := true, filelength := 0, length := c.length + 2,
       sendBuffer := [104, 105], data := [104, 105])
  }

  ghost predicate Leads(cfg: Setup, sys: Sys<int, int>, ev: Event<int, int>, sys': Sys<int, int>) {
    Enabled(cfg, sys, ev) && Step(cfg, sys, ev) == sys'
  }

  lemma ConnectStep(cfg: Setup, sys: Sys<int, int>, s: int)
    requires s !in sys.conns
    ensures Leads(cfg, sys, Connect(s), sys.(conns := sys.conns[s := NewConn()]))
  {
  }

  lemma FillStep(cfg: Setup)
    requires cfg.limit >= 1 && cfg.cachesize > 2
    ensures Leads(cfg, Empty().(conns := map[3 := NewConn()]), Get(3, IndexRequest(10), 7),
                  Sys(Holding(Index(false, 0)), map[3 := Filling(NewConn(), 7, IndexRequest(10))]))
  {
  }

  lemma FilledStep(cfg: Setup)
    requires cfg.bufferSize >= 2
    ensures var filling := Filling(NewConn(), 7, IndexRequest(10));
            Leads(cfg, Sys(Holding(Index(false, 0)), map[3 := filling]), Read(3, Some([104, 105])),
                  Sys(Holding(Index(true, 0)), map[3 := Filled(filling)]))
  {
    var filling := Filling(NewConn(), 7, IndexRequest(10));
    var bytes: Bytes := [104, 105];
    assert [] + bytes == bytes;
    assert ReadSpec(filling, Index(false, 0), Some(bytes)) == (Filled(filling), Index(true, 0));
  }

  lemma LeaveStep(cfg: Setup)
    ensures var filling := Filling(NewConn(), 7, IndexRequest(10));
            Leads(cfg, Sys(Holding(Index(true, 0)), map[3 := Filled(filling)]), Disconnect(3),
                  Sys(Holding(Index(true, 0)), map[]))
  {
  }

  lemma HitStep(cfg: Setup)
    requires cfg.limit >= 1
    ensures Leads(cfg, Sys(Holding(Index(true, 0)), map[1 := NewConn()]), Get(1, IndexRequest(10), 8),
                  Sys(Holding(Index(true, 1)), map[1 := InUse().conns[1]]))
  {
  }

  lemma RefreshInUseExample(cfg: Setup)
    requires cfg.limit >= 1
    ensures StaleInUse(InUse().cache, IndexRequest(11)) && Inv(cfg, InUse())
    ensures var sys' := GetSpec(cfg, InUse(), 2, IndexRequest(11), 8);
            !UsageOk(sys') && !SenderOk(InUse().conns[1], sys'.cache.files[7])
  {
    hide Inv;
    InUseIsGood(cfg);
    var sys' := GetSpec(cfg, InUse(), 2, IndexRequest(11), 8);
    assert 1 in Holders(sys'.conns, 7);
    assert sys'.cache.files[7].usage == 0;
  }

  // ----- read errors -----

  // Entries that are not ready and that no connection fills.
  ghost predicate Orphan<E, S>(sys: Sys<E, S>, e: E)
  {
    && e in sys.cache.files && !sys.cache.files[e].ready
    && forall s :: s in sys.conns && IsFiller(sys.conns[s]) ==> EntryOf(sys.conns[s]) != Some(e)
  }

  // A read error of the connection that fills the entry, after something has been cached.
  ghost predicate FailedRead<E, S>(cfg: Setup, sys: Sys<E, S>, ev: Event<E, S>, e: E)
    requires Enabled(cfg, sys, ev)
  {
    ev.Read? && ev.got.None? && EntryOf(sys.conns[ev.s]) == Some(e) && sys.conns[ev.s].slot.value.size > 0
  }

  // Such read errors orphan their entry, and nothing else makes an orphan or removes one.
  lemma OrphanIff<E, S>(cfg: Setup, sys: Sys<E, S>, ev: Event<E, S>, e: E)
    requires Inv(cfg, sys) && Enabled(cfg, sys, ev)
    ensures Orphan(Step(cfg, sys, ev), e) <==> Orphan(sys, e) || FailedRead(cfg, sys, ev, e)
  {
    hide Inv, Enabled, GetSpec, ReadSpec, DefaultWriteSpec, CacheWriteSpec, DisconnectSpec, Orphan;
    if Orphan(sys, e) {
      OrphanStays(cfg, sys, ev, e);
    } else {
      NewOrphan(cfg, sys, ev, e);
    }
  }

  lemma NewOrphan<E, S>(cfg: Setup, sys: Sys<E, S>, ev: Event<E, S>, e: E)
    requires Inv(cfg, sys) && Enabled(cfg, sys, ev) && !Orphan(sys, e)
    ensures Orphan(Step(cfg, sys, ev), e) <==> FailedRead(cfg, sys, ev, e)
  {
    hide Inv, GetSpec, ReadSpec, DefaultWriteSpec, CacheWriteSpec, DisconnectSpec, SoundCache;
    match ev
    case Connect(s) =>
      if e in sys.cache.files && !sys.cache.files[e].ready {
        var t :| t in sys.conns && IsFiller(sys.conns[t]) && EntryOf(sys.conns[t]) == Some(e);
        assert Step(cfg, sys, ev).conns[t] == sys.conns[t];
      }
    case Get(s, r, x) => NoOrphanByGet(cfg, sys, s, r, x, e);
    case Read(s, got) => NewOrphanByRead(cfg, sys, s, got, e);
    case Write(s, n, failed) => NoOrphanByWrite(cfg, sys, s, n, failed, e);
    case CacheWrite(s, n, failed) => NoOrphanByCacheWrite(cfg, sys, s, n, failed, e);
    case Disconnect(s) => NoOrphanByDisconnect(cfg, sys, s, e);
  }

  // Whoever fills the entry still does afterwards.
  lemma StillFilled<E, S>(sys: Sys<E, S>, e: E, t: S)
    requires t in sys.conns && IsFiller(sys.conns[t]) && EntryOf(sys.conns[t]) == Some(e)
    ensures !Orphan(sys, e)
  {
  }

  lemma NoOrphanByGet<E, S>(cfg: Setup, sys: Sys<E, S>, s: S, r: Request, x: E, e: E)
    requires Inv(cfg, sys) && Enabled(cfg, sys, Event.Get(s, r, x)) && !Orphan(sys, e)
    ensures !Orphan(GetSpec(cfg, sys, s, r, x), e)
  {
    hide Inv, InitSpec, SoundCache;
    Lookups(sys.cache, cfg.limit);
    var sys' := GetSpec(cfg, sys, s, r, x);
    if e in sys.cache.files && !sys.cache.files[e].ready {
      var t :| t in sys.conns && IsFiller(sys.conns[t]) && EntryOf(sys.conns[t]) == Some(e);
      assert t != s && sys'.conns[t] == sys.conns[t];
      StillFilled(sys', e, t);
    } else if e in sys'.cache.files && !sys'.cache.files[e].ready {
      if !r.partial && r.name !in sys.cache.index {
        if InitSpec(sys.cache, cfg.limit, r.name, x).0 { InitFiles(sys.cache, cfg.limit, r.name, x, e); }
      }
      StillFilled(sys', e, s);
    }
  }

  lemma InitFiles<E>(c: Cache<E>, limit: nat, name: string, x: E, e: E)
    requires (forall y :: y in c.order ==> y in c.files) && x !in c.files
    ensures e in InitSpec(c, limit, name, x).1.files && e != x ==>
      e in c.files && InitSpec(c, limit, name, x).1.files[e] == c.files[e]
  {
  }

  lemma NewOrphanByRead<E, S>(cfg: Setup, sys: Sys<E, S>, s: S, got: Option<Bytes>, e: E)
    requires Inv(cfg, sys) && Enabled(cfg, sys, Event.Read(s, got)) && !Orphan(sys, e)
    ensures Orphan(Step(cfg, sys, Event.Read(s, got)), e) <==> FailedRead(cfg, sys, Event.Read(s, got), e)
  {
    var x := EntryOf(sys.conns[s]).value;
    var sys' := Step(cfg, sys, Event.Read(s, got));
    assert ConnOk(sys.conns[s], sys.cache.files);
    if e == x {
      FillerAlone(cfg, sys, s);
      forall t | t in sys'.conns && t != s ensures EntryOf(sys'.conns[t]) != Some(e) {
        assert sys'.conns[t] == sys.conns[t];
      }
      assert s in sys'.conns;
    } else if e in sys.cache.files && !sys.cache.files[e].ready {
      var t :| t in sys.conns && IsFiller(sys.conns[t]) && EntryOf(sys.conns[t]) == Some(e);
      assert t != s && sys'.conns[t] == sys.conns[t];
      StillFilled(sys', e, t);
    }
  }

  lemma NoOrphanByWrite<E, S>(cfg: Setup, sys: Sys<E, S>, s: S, n: nat, failed: bool, e: E)
    requires Inv(cfg, sys) && Enabled(cfg, sys, Event.Write(s, n, failed)) && !Orphan(sys, e)
    ensures !Orphan(DefaultWriteSpec(sys, s, n, failed), e)
  {
    var sys' := DefaultWriteSpec(sys, s, n, failed);
    assert ConnOk(sys.conns[s], sys.cache.files);
    assert e in sys'.cache.files ==> e in sys.cache.files && sys'.cache.files[e].ready == sys.cache.files[e].ready;
    if e in sys.cache.files && !sys.cache.files[e].ready {
      var t :| t in sys.conns && IsFiller(sys.conns[t]) && EntryOf(sys.conns[t]) == Some(e);
      assert t != s ==> sys'.conns[t] == sys.conns[t];
      StillFilled(sys', e, t);
    }
  }

  lemma NoOrphanByCacheWrite<E, S>(cfg: Setup, sys: Sys<E, S>, s: S, n: nat, failed: bool, e: E)
    requires Inv(cfg, sys) && Enabled(cfg, sys, Event.CacheWrite(s, n, failed)) && !Orphan(sys, e)
    ensures !Orphan(CacheWriteSpec(sys, s, n, failed), e)
  {
    var sys' := CacheWriteSpec(sys, s, n, failed);
    assert ConnOk(sys.conns[s], sys.cache.files);
    assert e in sys'.cache.files ==> e in sys.cache.files && sys'.cache.files[e].ready == sys.cache.files[e].ready;
    if e in sys.cache.files && !sys.cache.files[e].ready {
      var t :| t in sys.conns && IsFiller(sys.conns[t]) && EntryOf(sys.conns[t]) == Some(e);
      assert t != s && sys'.conns[t] == sys.conns[t];
      StillFilled(sys', e, t);
    }
  }

  lemma NoOrphanByDisconnect<E, S>(cfg: Setup, sys: Sys<E, S>, s: S, e: E)
    requires Inv(cfg, sys) && s in sys.conns && !Orphan(sys, e)
    ensures !Orphan(DisconnectSpec(sys, s), e)
  {
    var sys' := DisconnectSpec(sys, s);
    assert ConnOk(sys.conns[s], sys.cache.files);
    assert e in sys'.cache.files ==> e in sys.cache.files && sys'.cache.files[e].ready == sys.cache.files[e].ready;
    if e in sys.cache.files && !sys.cache.files[e].ready {
      var t :| t in sys.conns && IsFiller(sys.conns[t]) && EntryOf(sys.conns[t]) == Some(e);
      if t != s {
        assert sys'.conns[t] == sys.conns[t];
        StillFilled(sys', e, t);
      }
    }
  }

  // An orphan stays one: it is never completed, refreshed, evicted or destroyed.
  lemma OrphanStays<E, S>(cfg: Setup, sys: Sys<E, S>, ev: Event<E, S>, e: E)
    requires Inv(cfg, sys) && Enabled(cfg, sys, ev) && Orphan(sys, e)
    ensures Orphan(Step(cfg, sys, ev), e)
  {
    hide Inv, GetSpec, ReadSpec, DefaultWriteSpec, CacheWriteSpec, DisconnectSpec;
    OrphanAlone(cfg, sys, e);
    match ev
    case Get(s, r, x) => OrphanSurvivesGet(cfg, sys, s, r, x, e);
    case Disconnect(s) => OrphanSurvivesDisconnect(sys, s, e);
    case Write(s, n, failed) => OrphanSurvivesWrite(sys, s, n, failed, e);
    case CacheWrite(s, n, failed) => OrphanSurvivesCacheWrite(sys, s, n, failed, e);
    case Read(s, got) => OrphanSurvivesRead(sys, s, got, e);
    case Connect(s) =>
  }

  lemma OrphanAlone<E, S>(cfg: Setup, sys: Sys<E, S>, e: E)
    requires Inv(cfg, sys) && Orphan(sys, e)
    ensures forall t :: t in sys.conns ==> EntryOf(sys.conns[t]) != Some(e)
  {
    forall t | t in sys.conns ensures EntryOf(sys.conns[t]) != Some(e) {
      assert ConnOk(sys.conns[t], sys.cache.files);
    }
  }

  lemma OrphanSurvivesFinish<E, S>(sys: Sys<E, S>, s: S, e: E)
    requires Orphan(sys, e) && s in sys.conns
    ensures Orphan(Finish(sys, s), e)
  {
  }

  lemma OrphanSurvivesWrite<E, S>(sys: Sys<E, S>, s: S, n: nat, failed: bool, e: E)
    requires Orphan(sys, e) && s in sys.conns && n <= |sys.conns[s].sendBuffer|
    ensures Orphan(DefaultWriteSpec(sys, s, n, failed), e)
  {
    hide Finish;
    var c := sys.conns[s];
    OrphanSurvivesFinish(sys.(conns := sys.conns[s := c.(sendBuffer := c.sendBuffer[n..])]), s, e);
  }

  lemma OrphanSurvivesCacheWrite<E, S>(sys: Sys<E, S>, s: S, n: nat, failed: bool, e: E)
    requires Orphan(sys, e) && s in sys.conns && sys.conns[s].slot.Some?
    requires n <= |Content(sys.conns[s].slot.value.buffer)|
    ensures Orphan(CacheWriteSpec(sys, s, n, failed), e)
  {
    hide Finish;
    OrphanSurvivesFinish(sys.(conns := sys.conns[s := Advanced(sys.conns[s], n)]), s, e);
  }

  lemma OrphanSurvivesRead<E, S>(sys: Sys<E, S>, s: S, got: Option<Bytes>, e: E)
    requires Orphan(sys, e) && s in sys.conns && EntryOf(sys.conns[s]).Some?
    requires EntryOf(sys.conns[s]).value in sys.cache.files && EntryOf(sys.conns[s]).value != e
    ensures var x := EntryOf(sys.conns[s]).value;
            var (c, f) := ReadSpec(sys.conns[s], sys.cache.files[x], got);
            Orphan(Sys(sys.cache.(files := sys.cache.files[x := f]), sys.conns[s := c]), e)
  {
  }

  lemma OrphanSurvivesDisconnect<E, S>(sys: Sys<E, S>, s: S, e: E)
    requires Orphan(sys, e) && s in sys.conns && EntryOf(sys.conns[s]) != Some(e)
    ensures Orphan(DisconnectSpec(sys, s), e)
  {
  }

  lemma OrphanSurvivesGet<E, S>(cfg: Setup, sys: Sys<E, S>, s: S, r: Request, x: E, e: E)
    requires Inv(cfg, sys) && Enabled(cfg, sys, Event.Get(s, r, x)) && Orphan(sys, e)
    ensures Orphan(GetSpec(cfg, sys, s, r, x), e)
  {
    hide Inv, SoundCache, InitSpec;
    var c := sys.cache;
    Lookups(c, cfg.limit);
    InitKeepsUnready(c, cfg.limit, r.name, x, e);
    var sys' := GetSpec(cfg, sys, s, r, x);
    assert e in sys'.cache.files && !sys'.cache.files[e].ready;
  }

  lemma InitKeepsUnready<E>(c: Cache<E>, limit: nat, name: string, x: E, e: E)
    requires (forall y :: y in c.order ==> y in c.files) && x !in c.files && e in c.files && !c.files[e].ready
    ensures e in InitSpec(c, limit, name, x).1.files && InitSpec(c, limit, name, x).1.files[e] == c.files[e] && e != x
  {
    LastIdleIsLeastRecent(c.order, c.files);
  }
}
