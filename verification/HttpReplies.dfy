/**
  How responses of the HTTP server begin and end: what a request finds in the cache and how
  fresh that is, which connections are kept, and which are closed.
*/
module HttpReplies {
  import opened Options
  import opened Sequences
  import opened Octets
  import opened HttpSpec
  import opened HttpRuns

  // ----- what a request finds -----

  // The connection will read the file and cache it in `x`.
  ghost predicate Fills<E>(c: Conn<E>, x: E, r: Request) {
    && c.reader == CacheRead && c.slot == Some(Slot(Some(x), None, 0)) && !c.cacheFlag && c.cacheDisconnect
    && c.filelength == r.size && c.expected == r.size && c.data == [] && c.keepFlag == r.keep && !c.closing
  }

  ghost predicate OthersAsBefore<E, S>(sys: Sys<E, S>, sys': Sys<E, S>, s: S, x: E) {
    && (forall t :: t in sys.conns && t != s ==> t in sys'.conns && sys'.conns[t] == sys.conns[t])
    && (forall y :: y in sys.cache.files && y != x ==>
          y in sys'.cache.files && sys'.cache.files[y] == sys.cache.files[y])
  }

  // An entry that is complete, of the size of the file and not older is sent.
  lemma GetFresh<E, S>(cfg: Setup, sys: Sys<E, S>, s: S, r: Request, e: E)
    requires Possible(cfg, sys, Event.Get(s, r, e)) && !r.partial && r.name in sys.cache.index
    requires var f := sys.cache.files[sys.cache.index[r.name]]; f.ready && r.mtime <= f.date && r.size == f.size
    ensures var (sys', x) := (Step(cfg, sys, Event.Get(s, r, e)), sys.cache.index[r.name]);
      var f, c, c' := sys.cache.files[x], sys.conns[s], sys'.conns[s];
      && OthersAsBefore(sys, sys', s, x) && sys'.cache.index == sys.cache.index
      && sys'.cache.files[x] == f.(hits := f.hits + 1, usage := f.usage + 1)
      && c'.cacheFlag && c'.slot == Some(Slot(Some(x), f.buffer, f.size)) && c'.data == []
      && c'.keepFlag == r.keep && !c'.closing && c'.reader == TcpRead
      && (r.simple <==> c'.writer == Writer.CacheWrite) && (!r.simple ==> c'.sendBuffer == c.sendBuffer)
  {
    Lookups(sys.cache, cfg.limit);
    hide SoundCache;
  }

  // A complete entry that is older or of another size is filled again under the new date.
  lemma GetOutdated<E, S>(cfg: Setup, sys: Sys<E, S>, s: S, r: Request, e: E)
    requires Possible(cfg, sys, Event.Get(s, r, e)) && !r.partial && r.name in sys.cache.index
    requires var f := sys.cache.files[sys.cache.index[r.name]]; f.ready && (r.mtime > f.date || r.size != f.size)
    ensures var (sys', x) := (Step(cfg, sys, Event.Get(s, r, e)), sys.cache.index[r.name]);
      var f, f' := sys.cache.files[x], sys'.cache.files[x];
      && OthersAsBefore(sys, sys', s, x) && sys'.cache.index == sys.cache.index && Fills(sys'.conns[s], x, r)
      && f'.name == r.name && f'.date == r.mtime && !f'.ready && f'.buffer == None && f'.usage == 0 && f'.hits == 0
      && f'.size == match cfg.refreshing { case ClearsSize => 0 case KeepsSize => f.size }
  {
    Lookups(sys.cache, cfg.limit);
    hide SoundCache;
  }

  // There is a place for a new entry, or one can be made.
  ghost predicate Room<E>(cfg: Setup, c: Cache<E>) {
    |c.index| < cfg.limit || exists y :: y in c.files && c.files[y].ready && c.files[y].usage == 0
  }

  ghost predicate NewEntry<E, S>(sys: Sys<E, S>, sys': Sys<E, S>, s: S, r: Request, e: E) {
    && e in sys'.cache.files && r.name in sys'.cache.index && sys'.cache.index[r.name] == e
    && sys'.cache.files[e] == File(r.name, false, 0, 0, 0, None, r.mtime)
    && s in sys'.conns && Fills(sys'.conns[s], e, r)
    && forall t :: t in sys.conns && t != s ==> t in sys'.conns && sys'.conns[t] == sys.conns[t]
  }

  // An unknown file of a suitable size gets an entry.
  lemma GetNew<E, S>(cfg: Setup, sys: Sys<E, S>, s: S, r: Request, e: E)
    requires Possible(cfg, sys, Event.Get(s, r, e)) && !r.partial && r.name !in sys.cache.index
    requires 0 < r.size < cfg.cachesize && |sys.cache.index| < cfg.limit
    ensures var (files, sys') := (sys.cache.files, Step(cfg, sys, Event.Get(s, r, e)));
      && NewEntry(sys, sys', s, r, e) && sys'.cache.files.Keys == files.Keys + {e}
      && forall y :: y in files ==> sys'.cache.files[y] == files[y]
  {
    NewShape(cfg, sys, s, r, e);
    var sys' := Step(cfg, sys, Event.Get(s, r, e));
    EntryMade(cfg, sys, sys', s, r, e);
    hide Step, NewEntry, SoundCache;
    Added(sys.cache.files, sys'.cache.files, e, NewFile(r.name).(date := r.mtime));
  }

  lemma Added<E>(files: map<E, File>, files': map<E, File>, e: E, f: File)
    requires e !in files && files' == files[e := f]
    ensures files'.Keys == files.Keys + {e} && forall y :: y in files ==> files'[y] == files[y]
  {
  }

  lemma EntryMade<E, S>(cfg: Setup, sys: Sys<E, S>, sys': Sys<E, S>, s: S, r: Request, e: E)
    requires Possible(cfg, sys, Event.Get(s, r, e)) && sys'.conns == sys.conns[s := Filling(sys.conns[s], e, r)]
    requires r.name in sys'.cache.index && sys'.cache.index[r.name] == e
    requires e in sys'.cache.files && sys'.cache.files[e] == NewFile(r.name).(date := r.mtime)
    ensures NewEntry(sys, sys', s, r, e)
  {
    hide SoundCache;
  }

  lemma NewShape<E, S>(cfg: Setup, sys: Sys<E, S>, s: S, r: Request, e: E)
    requires Possible(cfg, sys, Event.Get(s, r, e)) && !r.partial && r.name !in sys.cache.index
    requires 0 < r.size < cfg.cachesize && |sys.cache.index| < cfg.limit
    ensures var sys' := Step(cfg, sys, Event.Get(s, r, e));
      && sys'.conns == sys.conns[s := Filling(sys.conns[s], e, r)] && sys'.cache.index == sys.cache.index[r.name := e]
      && sys'.cache.files == sys.cache.files[e := NewFile(r.name).(date := r.mtime)]
  {
    Lookups(sys.cache, cfg.limit);
    hide SoundCache, Filling;
  }

  // In a full cache it replaces the least recent of those that are complete and not being sent.
  lemma GetInstead<E, S>(cfg: Setup, sys: Sys<E, S>, s: S, r: Request, e: E) returns (i: nat)
    requires Possible(cfg, sys, Event.Get(s, r, e)) && !r.partial && r.name !in sys.cache.index
    requires 0 < r.size < cfg.cachesize && |sys.cache.index| >= cfg.limit && Room(cfg, sys.cache)
    ensures var (order, files, sys') := (sys.cache.order, sys.cache.files, Step(cfg, sys, Event.Get(s, r, e)));
      && NewEntry(sys, sys', s, r, e)
      && i < |order| && order[i] in files && files[order[i]].ready && files[order[i]].usage == 0
      && (forall j :: i < j < |order| ==> order[j] in files && !(files[order[j]].ready && files[order[j]].usage == 0))
      && sys'.cache.files.Keys == files.Keys - {order[i]} + {e}
      && (forall y :: y in files && y != order[i] ==> sys'.cache.files[y] == files[y])
  {
    var c := sys.cache;
    i := Victim(c, cfg.limit);
    EvictFor(cfg, sys, s, r, e, c.order[i]);
  }

  lemma Victim<E>(c: Cache<E>, limit: nat) returns (i: nat)
    requires SoundCache(c, limit) && exists y :: y in c.files && c.files[y].ready && c.files[y].usage == 0
    ensures forall y :: y in c.order ==> y in c.files
    ensures i < |c.order| && LastIdle(c.order, c.files) == Some(c.order[i])
    ensures c.files[c.order[i]].ready && c.files[c.order[i]].usage == 0
    ensures forall j :: i < j < |c.order| ==> !(c.files[c.order[j]].ready && c.files[c.order[j]].usage == 0)
  {
    Lookups(c, limit);
    var y :| y in c.files && c.files[y].ready && c.files[y].usage == 0;
    assert y in c.order && IdleFile(c.files[y]);
    hide SoundCache, LastIdle;
    LastIdleIsLeastRecent(c.order, c.files);
    i :| 0 <= i < |c.order| && c.order[i] == LastIdle(c.order, c.files).value && IdleFile(c.files[c.order[i]])
         && forall j :: i < j < |c.order| ==> !IdleFile(c.files[c.order[j]]);
    forall j | i < j < |c.order| ensures !(c.files[c.order[j]].ready && c.files[c.order[j]].usage == 0) {
      assert !IdleFile(c.files[c.order[j]]);
    }
  }

  lemma EvictFor<E, S>(cfg: Setup, sys: Sys<E, S>, s: S, r: Request, e: E, v: E)
    requires Possible(cfg, sys, Event.Get(s, r, e)) && !r.partial && r.name !in sys.cache.index
    requires 0 < r.size < cfg.cachesize && |sys.cache.index| >= cfg.limit
    requires (forall y :: y in sys.cache.order ==> y in sys.cache.files)
    requires LastIdle(sys.cache.order, sys.cache.files) == Some(v) && v in sys.cache.files
    ensures var (files, sys') := (sys.cache.files, Step(cfg, sys, Event.Get(s, r, e)));
      && NewEntry(sys, sys', s, r, e) && sys'.cache.files.Keys == files.Keys - {v} + {e}
      && (forall y :: y in files && y != v ==> sys'.cache.files[y] == files[y])
  {
    EvictShape(cfg, sys, s, r, e, v);
    hide Step, LastIdle, NewEntry;
    EntryMade(cfg, sys, Step(cfg, sys, Event.Get(s, r, e)), s, r, e);
  }

  lemma EvictShape<E, S>(cfg: Setup, sys: Sys<E, S>, s: S, r: Request, e: E, v: E)
    requires Possible(cfg, sys, Event.Get(s, r, e)) && !r.partial && r.name !in sys.cache.index
    requires 0 < r.size < cfg.cachesize && |sys.cache.index| >= cfg.limit
    requires (forall y :: y in sys.cache.order ==> y in sys.cache.files)
    requires LastIdle(sys.cache.order, sys.cache.files) == Some(v) && v in sys.cache.files
    ensures var (c, sys') := (sys.cache, Step(cfg, sys, Event.Get(s, r, e)));
      && sys'.conns == sys.conns[s := Filling(sys.conns[s], e, r)]
      && sys'.cache.index == (c.index - {c.files[v].name})[r.name := e]
      && sys'.cache.files == (c.files - {v})[e := NewFile(r.name).(date := r.mtime)]
  {
    Lookups(sys.cache, cfg.limit);
    hide SoundCache, LastIdle, Filling;
  }

  // Everything else is read from the file, past the cache.
  lemma GetUncached<E, S>(cfg: Setup, sys: Sys<E, S>, s: S, r: Request, e: E)
    requires Possible(cfg, sys, Event.Get(s, r, e))
    requires || r.partial
             || (r.name in sys.cache.index && !sys.cache.files[sys.cache.index[r.name]].ready)
             || (r.name !in sys.cache.index && !(0 < r.size < cfg.cachesize && Room(cfg, sys.cache)))
    ensures var sys' := Step(cfg, sys, Event.Get(s, r, e));
      && sys'.cache.files == sys.cache.files && sys'.cache.index == sys.cache.index
      && (forall t :: t in sys.conns && t != s ==> sys'.conns[t] == sys.conns[t])
      && sys'.conns[s].reader == FileRead && EntryOf(sys'.conns[s]) == None && !sys'.conns[s].cacheFlag
      && sys'.conns[s].filelength == r.size && sys'.conns[s].keepFlag == r.keep && !sys'.conns[s].closing
  {
    var (c, order) := (sys.cache, sys.cache.order);
    Lookups(c, cfg.limit);
    assert forall y :: y in order ==> y in c.files;
    hide SoundCache;
    LastIdleIsLeastRecent(order, c.files);
  }

  // ----- how fresh an answer from the cache is -----

  // Whatever happens to an entry, its date is that of the last request that had it filled.
  lemma StepDates<E, S>(cfg: Setup, sys: Sys<E, S>, ev: Event<E, S>, x: E)
    requires Possible(cfg, sys, ev) && x in Step(cfg, sys, ev).cache.files
    ensures var (files, sys') := (sys.cache.files, Step(cfg, sys, ev));
      || (x in files && sys'.cache.files[x].name == files[x].name && sys'.cache.files[x].date == files[x].date)
      || (ev.Get? && ev.s in sys'.conns && Fills(sys'.conns[ev.s], x, ev.request)
          && sys'.cache.files[x].name == ev.request.name && sys'.cache.files[x].date == ev.request.mtime)
  {
    hide SoundCache, GetSpec, ReadSpec;
    match ev
    case Get(s, r, e) => GetDates(cfg, sys, s, r, e, x);
    case Read(s, got) =>
      var y := EntryOf(sys.conns[s]).value;
      ReadDates(sys.conns[s], sys.cache.files[y], got);
    case _ =>
  }

  lemma ReadDates<E>(c: Conn<E>, f: File, got: Option<Bytes>)
    requires c.slot.Some?
    ensures ReadSpec(c, f, got).1.name == f.name && ReadSpec(c, f, got).1.date == f.date
  {
  }

  lemma GetDates<E, S>(cfg: Setup, sys: Sys<E, S>, s: S, r: Request, e: E, x: E)
    requires Possible(cfg, sys, Event.Get(s, r, e)) && x in Step(cfg, sys, Event.Get(s, r, e)).cache.files
    ensures var (files, sys') := (sys.cache.files, Step(cfg, sys, Event.Get(s, r, e)));
      || (x in files && sys'.cache.files[x].name == files[x].name && sys'.cache.files[x].date == files[x].date)
      || (s in sys'.conns && Fills(sys'.conns[s], x, r)
          && sys'.cache.files[x].name == r.name && sys'.cache.files[x].date == r.mtime)
  {
    Known(sys.cache, cfg.limit, r.name);
    hide Step, SoundCache, Fills;
    if !r.partial && r.name in sys.cache.index && sys.cache.files[sys.cache.index[r.name]].ready {
      var f := sys.cache.files[sys.cache.index[r.name]];
      SameKeys(cfg, sys, s, r, e);
      if r.mtime <= f.date && r.size == f.size { GetFresh(cfg, sys, s, r, e); } else { GetOutdated(cfg, sys, s, r, e); }
    } else if !r.partial && r.name !in sys.cache.index && 0 < r.size < cfg.cachesize && Room(cfg, sys.cache) {
      if |sys.cache.index| < cfg.limit {
        GetNew(cfg, sys, s, r, e);
      } else {
        var i := GetInstead(cfg, sys, s, r, e);
      }
    } else {
      GetUncached(cfg, sys, s, r, e);
    }
  }

  lemma Known<E>(c: Cache<E>, limit: nat, name: string)
    requires SoundCache(c, limit)
    ensures name in c.index ==> c.index[name] in c.files && c.files[c.index[name]].name == name
  {
  }

  lemma SameKeys<E, S>(cfg: Setup, sys: Sys<E, S>, s: S, r: Request, e: E)
    requires Possible(cfg, sys, Event.Get(s, r, e)) && !r.partial && r.name in sys.cache.index
    ensures Step(cfg, sys, Event.Get(s, r, e)).cache.files.Keys == sys.cache.files.Keys
  {
    Lookups(sys.cache, cfg.limit);
    hide SoundCache;
  }

  // At any moment of any trace every entry has been filled for a request of its name, and has the
  // date the file had then.
  lemma {:induction false} DateOfFilling<E, S>(cfg: Setup, trace: seq<Sys<E, S>>, evs: seq<Event<E, S>>, i: nat, x: E)
    returns (j: nat)
    requires IsTrace(cfg, trace, evs) && i < |trace| && x in trace[i].cache.files
    ensures j < i && evs[j].Get? && evs[j].s in trace[j + 1].conns
    ensures Fills(trace[j + 1].conns[evs[j].s], x, evs[j].request)
    ensures evs[j].request.name == trace[i].cache.files[x].name && evs[j].request.mtime == trace[i].cache.files[x].date
  {
    hide Possible, Step, Fills;
    assert i > 0;
    j := i - 1;
    StepDates(cfg, trace[j], evs[j], x);
    if x in trace[j].cache.files && trace[i].cache.files[x].name == trace[j].cache.files[x].name
       && trace[i].cache.files[x].date == trace[j].cache.files[x].date {
      j := DateOfFilling(cfg, trace, evs, i - 1, x);
    }
  }

  // A file that is answered from the cache has not changed on disk since the request that cached
  // it, as far as date and size tell, and its bytes are all there.
  lemma AnswersAreFresh<E, S>(cfg: Setup, trace: seq<Sys<E, S>>, evs: seq<Event<E, S>>, i: nat) returns (j: nat)
    requires IsRun(cfg, trace, evs) && i < |evs| && evs[i].Get?
    requires evs[i].s in trace[i + 1].conns && trace[i + 1].conns[evs[i].s].cacheFlag
    ensures j < i && evs[j].Get? && evs[j].request.name == evs[i].request.name
    ensures evs[i].request.mtime <= evs[j].request.mtime
    ensures evs[i].request.name in trace[i].cache.index
    ensures var x := trace[i].cache.index[evs[i].request.name];
      && x in trace[i].cache.files && trace[i].cache.files[x].ready
      && evs[j].s in trace[j + 1].conns && Fills(trace[j + 1].conns[evs[j].s], x, evs[j].request)
      && |Content(trace[i].cache.files[x].buffer)| == evs[i].request.size
      && trace[i + 1].conns[evs[i].s].slot.Some?
      && trace[i + 1].conns[evs[i].s].slot.value.buffer == trace[i].cache.files[x].buffer
  {
    var (sys, s, r, e) := (trace[i], evs[i].s, evs[i].request, evs[i].e);
    RunKeepsInv(cfg, trace, evs, i);
    assert evs[i] == Event.Get(s, r, e);
    Answered(cfg, sys, s, r, e);
    hide IsRun, Step, Fills;
    j := DateOfFilling(cfg, trace, evs, i, sys.cache.index[r.name]);
  }

  // Only a fresh entry is answered with.
  lemma Answered<E, S>(cfg: Setup, sys: Sys<E, S>, s: S, r: Request, e: E)
    requires Inv(cfg, sys) && Possible(cfg, sys, Event.Get(s, r, e))
    requires s in Step(cfg, sys, Event.Get(s, r, e)).conns && Step(cfg, sys, Event.Get(s, r, e)).conns[s].cacheFlag
    ensures r.name in sys.cache.index
    ensures var (x, c') := (sys.cache.index[r.name], Step(cfg, sys, Event.Get(s, r, e)).conns[s]);
      && x in sys.cache.files
      && var f := sys.cache.files[x];
         && f.ready && f.name == r.name && r.mtime <= f.date && |Content(f.buffer)| == r.size
         && c'.slot.Some? && c'.slot.value.buffer == f.buffer
  {
    Known(sys.cache, cfg.limit, r.name);
    hide Step, SoundCache;
    if !r.partial && r.name in sys.cache.index && sys.cache.files[sys.cache.index[r.name]].ready {
      var f := sys.cache.files[sys.cache.index[r.name]];
      if r.mtime <= f.date && r.size == f.size { GetFresh(cfg, sys, s, r, e); } else { GetOutdated(cfg, sys, s, r, e); }
    } else if !r.partial && r.name !in sys.cache.index && 0 < r.size < cfg.cachesize && Room(cfg, sys.cache) {
      if |sys.cache.index| < cfg.limit {
        GetNew(cfg, sys, s, r, e);
      } else {
        var i := GetInstead(cfg, sys, s, r, e);
      }
    } else {
      GetUncached(cfg, sys, s, r, e);
    }
  }

  // ----- which connections are kept -----

  // The last byte of an entry is out: a connection that is to be kept gives the entry back and
  // waits for the next request, any other one is closed and keeps the entry in use until then.
  lemma EntryOut<E, S>(cfg: Setup, sys: Sys<E, S>, s: S, n: nat, failed: bool)
    requires Inv(cfg, sys) && Enabled(cfg, sys, Event.CacheWrite(s, n, failed))
    requires n == |Content(sys.conns[s].slot.value.buffer)|
    ensures EntryOf(sys.conns[s]).Some? && EntryOf(sys.conns[s]).value in sys.cache.files
    ensures var (x, sys') := (EntryOf(sys.conns[s]).value, Step(cfg, sys, Event.CacheWrite(s, n, failed)));
      var c, f := sys.conns[s], sys.cache.files[x];
      && s in sys'.conns && (Waiting(sys'.conns[s]) <==> c.keepFlag) && (sys'.conns[s].closing <==> !c.keepFlag)
      && (c.keepFlag ==> sys'.conns[s].sendBuffer == [] && sys'.conns[s].length == 0)
      && OthersAsBefore(sys, sys', s, x) && sys'.cache.files.Keys == sys.cache.files.Keys
      && sys'.cache.files[x] == f.(usage := if c.keepFlag then f.usage - 1 else f.usage)
      && (!c.keepFlag ==> sys'.conns[s].data == c.data + Content(c.slot.value.buffer))
  {
    hide Inv, Step, Finish, Waiting, Advanced, OthersAsBefore, SoundCache;
    EntrySent(cfg, sys, s, n, failed);
    var (c, x) := (sys.conns[s], EntryOf(sys.conns[s]).value);
    var sent := sys.(conns := sys.conns[s := Advanced(c, n)]);
    FinishSent(sent, s, x);
    var sys' := Finish(sent, s);
    OnlyThese(sys, sys', s, x, sys'.conns[s], sys'.cache.files[x]);
  }

  lemma OnlyThese<E, S>(sys: Sys<E, S>, sys': Sys<E, S>, s: S, x: E, c: Conn<E>, f: File)
    requires s in sys.conns && x in sys.cache.files
    requires sys'.conns == sys.conns[s := c] && sys'.cache.files == sys.cache.files[x := f]
    ensures OthersAsBefore(sys, sys', s, x) && sys'.cache.files.Keys == sys.cache.files.Keys
  {
  }

  lemma EntrySent<E, S>(cfg: Setup, sys: Sys<E, S>, s: S, n: nat, failed: bool)
    requires Inv(cfg, sys) && Enabled(cfg, sys, Event.CacheWrite(s, n, failed))
    requires n == |Content(sys.conns[s].slot.value.buffer)|
    ensures s in sys.conns && sys.conns[s].slot.Some?
    ensures var (c, sent) := (sys.conns[s], Advanced(sys.conns[s], n));
      && Step(cfg, sys, Event.CacheWrite(s, n, failed)) == Finish(sys.(conns := sys.conns[s := sent]), s)
      && c.cacheFlag && EntryOf(c).Some? && EntryOf(c).value in sys.cache.files
      && sent.cacheFlag && EntryOf(sent) == EntryOf(c) && !sent.closing && sent.keepFlag == c.keepFlag
      && sent.data == c.data + Content(c.slot.value.buffer)
  {
    assert ConnOk(sys.conns[s], sys.cache.files);
    hide Inv, SoundCache, Finish;
    var b := Content(sys.conns[s].slot.value.buffer);
    assert b[..n] == b;
  }

  lemma FinishSent<E, S>(sys: Sys<E, S>, s: S, x: E)
    requires s in sys.conns && !sys.conns[s].closing && sys.conns[s].cacheFlag && EntryOf(sys.conns[s]) == Some(x)
    requires x in sys.cache.files
    ensures var (c, f, sys') := (sys.conns[s], sys.cache.files[x], Finish(sys, s));
      && s in sys'.conns && (Waiting(sys'.conns[s]) <==> c.keepFlag) && (sys'.conns[s].closing <==> !c.keepFlag)
      && (c.keepFlag ==> sys'.conns[s].sendBuffer == [] && sys'.conns[s].length == 0)
      && sys'.conns == sys.conns[s := sys'.conns[s]]
      && sys'.cache.files == sys.cache.files[x := f.(usage := if c.keepFlag then f.usage - 1 else f.usage)]
      && (!c.keepFlag ==> sys'.conns[s].data == c.data)
  {
  }

  // As long as bytes of the entry are left, the connection stays with it, unless sending fails.
  lemma EntryGoesOn<E, S>(cfg: Setup, sys: Sys<E, S>, s: S, n: nat, failed: bool)
    requires Inv(cfg, sys) && Enabled(cfg, sys, Event.CacheWrite(s, n, failed))
    requires n < |Content(sys.conns[s].slot.value.buffer)|
    ensures var (c, sys') := (sys.conns[s], Step(cfg, sys, Event.CacheWrite(s, n, failed)));
      var b := Content(c.slot.value.buffer);
      && sys'.cache == sys.cache && s in sys'.conns && (sys'.conns[s].closing <==> failed)
      && sys'.conns == sys.conns[s := sys'.conns[s]]
      && EntryOf(sys'.conns[s]) == EntryOf(c) && sys'.conns[s].cacheFlag && sys'.conns[s].writer == Writer.CacheWrite
      && sys'.conns[s].keepFlag == c.keepFlag
      && Content(sys'.conns[s].slot.value.buffer) == b[n..] && sys'.conns[s].data == c.data + b[..n]
  {
    assert ConnOk(sys.conns[s], sys.cache.files);
    hide Inv, SoundCache;
  }

  // The last byte of a response from the send buffer is out.
  lemma ReplyOut<E, S>(cfg: Setup, sys: Sys<E, S>, s: S, n: nat, failed: bool)
    requires Inv(cfg, sys) && Enabled(cfg, sys, Event.Write(s, n, failed))
    requires n == |sys.conns[s].sendBuffer| && sys.conns[s].doneFlag
    ensures var (c, sys') := (sys.conns[s], Step(cfg, sys, Event.Write(s, n, failed)));
      && s in sys'.conns && (Waiting(sys'.conns[s]) <==> c.keepFlag) && (sys'.conns[s].closing <==> !c.keepFlag)
      && (c.keepFlag ==> sys'.conns[s].sendBuffer == [] && sys'.conns[s].length == 0)
      && sys'.cache == sys.cache && sys'.conns == sys.conns[s := sys'.conns[s]]
  {
    assert ConnOk(sys.conns[s], sys.cache.files);
    hide Inv, SoundCache;
  }

  // Any other write takes bytes from the send buffer; the cached bytes follow when it is empty.
  lemma ReplyGoesOn<E, S>(cfg: Setup, sys: Sys<E, S>, s: S, n: nat, failed: bool)
    requires Enabled(cfg, sys, Event.Write(s, n, failed))
    requires n < |sys.conns[s].sendBuffer| || !sys.conns[s].doneFlag
    ensures var (c, sys') := (sys.conns[s], Step(cfg, sys, Event.Write(s, n, failed)));
      var out := n == |c.sendBuffer| && c.cacheFlag;
      && sys'.cache == sys.cache && s in sys'.conns && (sys'.conns[s].closing <==> failed)
      && sys'.conns == sys.conns[s := sys'.conns[s]]
      && (out <==> sys'.conns[s].writer == Writer.CacheWrite)
      && (if out then |sys'.conns[s].sendBuffer| == 42 else sys'.conns[s].sendBuffer == c.sendBuffer[n..])
      && sys'.conns[s].slot == c.slot && sys'.conns[s].keepFlag == c.keepFlag && sys'.conns[s].doneFlag == c.doneFlag
  {
    hide SoundCache;
  }

  // While a file is read: an error closes the connection, and so does an end before the announced
  // size; at the announced size the response is complete.
  lemma ReadDecides<E, S>(cfg: Setup, sys: Sys<E, S>, s: S, got: Option<Bytes>)
    requires Inv(cfg, sys) && Enabled(cfg, sys, Event.Read(s, got))
    ensures var (c, c') := (sys.conns[s], Step(cfg, sys, Event.Read(s, got)).conns[s]);
      && (c'.closing <==> got.None? || (got == Some([]) && c.filelength != 0))
      && (c'.doneFlag <==> got.Some? && c.filelength <= |got.value| && !c'.closing)
      && (c'.reader == TcpRead <==> c'.doneFlag) && c'.keepFlag == c.keepFlag && c'.writer == c.writer
      && (got.None? ==> c'.sendBuffer == c.sendBuffer)
  {
    assert ConnOk(sys.conns[s], sys.cache.files);
    hide Inv, SoundCache;
  }

  // A lost connection takes the entry it was filling with it and gives back the one it was sending.
  lemma DisconnectIs<E, S>(cfg: Setup, sys: Sys<E, S>, s: S)
    requires Inv(cfg, sys) && s in sys.conns
    ensures var (c, files, sys') := (sys.conns[s], sys.cache.files, Step(cfg, sys, Event.Disconnect(s)));
      && sys'.conns == sys.conns - {s}
      && (EntryOf(c).None? ==> sys'.cache == sys.cache)
      && (EntryOf(c).Some? ==> EntryOf(c).value in files && (c.reader == CacheRead <==> !c.cacheFlag))
      && (EntryOf(c).Some? && c.reader == CacheRead ==> sys'.cache.files == files - {EntryOf(c).value})
      && (EntryOf(c).Some? && c.cacheFlag ==>
            var f := files[EntryOf(c).value];
            sys'.cache.files == files[EntryOf(c).value := f.(usage := f.usage - 1)])
  {
    assert ConnOk(sys.conns[s], sys.cache.files);
    hide Inv, SoundCache;
  }

  // ----- what a connection is kept for -----

  lemma StepKeeps<E, S>(cfg: Setup, sys: Sys<E, S>, ev: Event<E, S>, s: S)
    requires Possible(cfg, sys, ev) && s in Step(cfg, sys, ev).conns && Step(cfg, sys, ev).conns[s].slot.Some?
    ensures var now := Step(cfg, sys, ev).conns[s];
      if ev.Get? && ev.s == s then now.keepFlag == ev.request.keep
      else s in sys.conns && sys.conns[s].slot.Some? && now.keepFlag == sys.conns[s].keepFlag
  {
    hide SoundCache, GetSpec, ReadSpec, DefaultWriteSpec, CacheWriteSpec, DisconnectSpec;
    if ev.s != s {
      OnlyActor(cfg, sys, ev, s);
    } else if ev.Get? {
      GetKeeps(cfg, sys, s, ev.request, ev.e);
    } else {
      ActorKeeps(cfg, sys, ev);
    }
  }

  lemma GetKeeps<E, S>(cfg: Setup, sys: Sys<E, S>, s: S, r: Request, e: E)
    requires Possible(cfg, sys, Event.Get(s, r, e))
    ensures s in GetSpec(cfg, sys, s, r, e).conns && GetSpec(cfg, sys, s, r, e).conns[s].keepFlag == r.keep
  {
    hide SoundCache, InitSpec, CheckSpec;
  }

  lemma ActorKeeps<E, S>(cfg: Setup, sys: Sys<E, S>, ev: Event<E, S>)
    requires Possible(cfg, sys, ev) && !ev.Get?
    requires ev.s in Step(cfg, sys, ev).conns && Step(cfg, sys, ev).conns[ev.s].slot.Some?
    ensures ev.s in sys.conns && sys.conns[ev.s].slot.Some?
    ensures Step(cfg, sys, ev).conns[ev.s].keepFlag == sys.conns[ev.s].keepFlag
  {
    hide SoundCache, GetSpec, ReleaseEntry, DestroySpec;
  }

  // During a response the flag is what the last request of the connection asked for.
  lemma {:induction false} KeptForLastRequest<E, S>(cfg: Setup, trace: seq<Sys<E, S>>, evs: seq<Event<E, S>>, i: nat,
                                                    s: S)
    returns (j: nat)
    requires IsTrace(cfg, trace, evs) && i < |trace| && s in trace[i].conns && trace[i].conns[s].slot.Some?
    ensures j < i && evs[j].Get? && evs[j].s == s && trace[i].conns[s].keepFlag == evs[j].request.keep
    ensures forall m :: j < m <= i ==> s in trace[m].conns && trace[m].conns[s].slot.Some?
    ensures forall m :: j < m < i ==> !(evs[m].Get? && evs[m].s == s)
  {
    hide Possible, Step;
    assert i > 0;
    j := i - 1;
    StepKeeps(cfg, trace[j], evs[j], s);
    if !(evs[j].Get? && evs[j].s == s) {
      j := KeptForLastRequest(cfg, trace, evs, i - 1, s);
    }
  }
}
