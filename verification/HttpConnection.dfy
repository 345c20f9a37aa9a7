/**
  Connections over the file cache: the callbacks of src/http-server/http-proto.c and
  src/http-server/http-cache.c as methods that keep the invariant of `HttpRuns`.
*/
module HttpConnection {
  import opened Options
  import opened HttpSpec
  import opened Octets
  import opened HttpRuns
  import opened HttpCache

  class HttpSocket {
    var reader: Reader
    var writer: Writer
    var cacheDisconnect: bool      // disconnected_socket is http_cache_disconnect
    var closing: bool
    var cacheFlag: bool
    var doneFlag: bool
    var keepFlag: bool
    var slot: Option<Slot<CacheEntry>>
    var filelength: int
    var length: int
    var sendBuffer: Bytes
    ghost var data: Bytes
    ghost var expected: int

    constructor ()
      ensures Rec() == NewConn()
    {
      reader, writer, cacheDisconnect, closing := TcpRead, DefaultWrite, false, false;
      cacheFlag, doneFlag, keepFlag, slot := false, false, false, None;
      filelength, length, sendBuffer, data, expected := 0, 0, [], [], 0;
    }

    ghost function Rec(): Conn<CacheEntry>
      reads this
    {
      Conn(reader, writer, cacheDisconnect, closing, cacheFlag, doneFlag, keepFlag,
           slot, filelength, length, sendBuffer, data, expected)
    }

    // The connection is going to fill entry `e`.
    method Fill(e: CacheEntry, r: Request)
      modifies this
      ensures Rec() == Filling(old(Rec()), e, r)
    {
      reader, cacheDisconnect, slot := CacheRead, true, Some(Slot(Some(e), None, 0));
      filelength, keepFlag := r.size, r.keep;
      data, expected := [], r.size;
    }

    // The connection is going to send entry `e`.
    method Serve(e: CacheEntry, r: Request)
      modifies this
      ensures Rec() == Sending(old(Rec()), e, e.Rec(), r)
    {
      cacheFlag, slot := true, Some(Slot(Some(e), e.buffer, e.size));
      keepFlag := r.keep;
      data := [];
      if r.simple {
        sendBuffer := Marker();
        writer := Writer.CacheWrite;
      }
    }

    // The file is sent without the cache.
    method Bypass(r: Request)
      modifies this
      ensures Rec() == Uncached(old(Rec()), r)
    {
      reader, slot, filelength, keepFlag := FileRead, Some(NoSlot()), r.size, r.keep;
      data := [];
    }

    // http_cache_read for a connection whose slot refers to `entry`.
    method ReadInto(entry: CacheEntry, got: Option<Bytes>)
      requires slot.Some?
      modifies this, entry
      ensures (Rec(), entry.Rec()) == ReadSpec(old(Rec()), old(entry.Rec()), got)
      ensures entry.next == old(entry.next) && entry.prev == old(entry.prev)
    {
      if got.None? {
        if slot.value.size > 0 {
          slot := Some(NoSlot());
        }
        closing := true;
      } else {
        ReadSome(entry, got.value);
      }
    }

    // What happens to the bytes, of which there are none at the end of the file.
    method ReadSome(entry: CacheEntry, d: Bytes)
      requires slot.Some?
      modifies this, entry
      ensures (Rec(), entry.Rec()) == ReadSpec(old(Rec()), old(entry.Rec()), Some(d))
      ensures entry.next == old(entry.next) && entry.prev == old(entry.prev)
    {
      hide Extended, Content;
      var bogus := d == [] && filelength != 0;
      Take(d);
      if bogus {
        Complete(entry);
        closing := true;
      } else if filelength <= 0 {
        Complete(entry);
        reader, doneFlag := TcpRead, true;
      }
    }

    method Take(d: Bytes)
      requires slot.Some?
      modifies this
      ensures var c := old(Rec());
              Rec() == c.(slot := Some(Extended(c.slot.value, d)), sendBuffer := c.sendBuffer + d,
                          filelength := c.filelength - |d|, length := c.length + |d|, data := c.data + d)
    {
      hide Extended, Content;
      if d != [] {
        Append(d);
      } else {
        ExtendedByNothing(slot.value);
        assert data + [] == data && sendBuffer + [] == sendBuffer;
      }
    }

    method Append(d: Bytes)
      requires slot.Some?
      modifies this
      ensures var c := old(Rec());
              Rec() == c.(slot := Some(Extended(c.slot.value, d)), sendBuffer := c.sendBuffer + d,
                          filelength := c.filelength - |d|, length := c.length + |d|, data := c.data + d)
    {
      slot := Some(Extended(slot.value, d));
      sendBuffer := sendBuffer + d;
      filelength := filelength - |d|;
      length := length + |d|;
      data := data + d;
    }

    method Complete(entry: CacheEntry)
      requires slot.Some?
      modifies this`slot, entry`size, entry`buffer, entry`ready
      ensures entry.Rec() == Completed(old(entry.Rec()), old(slot).value)
      ensures Rec() == old(Rec()).(slot := Some(NoSlot()))
    {
      entry.size := slot.value.size;
      entry.buffer := slot.value.buffer;
      entry.ready := true;
      slot := Some(NoSlot());
    }

    // The rest of http_keep_alive.
    method Reset()
      modifies this
      ensures Rec() == KeptAlive(old(Rec()))
    {
      reader, writer, cacheFlag, doneFlag, keepFlag := TcpRead, DefaultWrite, false, false, false;
      slot, length, sendBuffer := None, 0, [];
      data := [];
    }

    // http_cache_write, up to the test for the end of the file
    method SendCached(n: nat)
      requires slot.Some? && n <= |Content(slot.value.buffer)|
      modifies this
      ensures Rec() == Advanced(old(Rec()), n)
    {
      var b := Content(slot.value.buffer);
      data := data + b[..n];
      slot := Some(slot.value.(buffer := if slot.value.buffer.Some? then Some(b[n..]) else None,
                               size := slot.value.size - n));
      length := length + n;
    }
  }

  class HttpServer {
    const cfg: Setup
    const cache: FileCache
    var socks: set<HttpSocket>

    ghost function View(): Sys<CacheEntry, HttpSocket>
      reads this, cache, cache.order, socks
    {
      Sys(cache.View(), map s | s in socks :: s.Rec())
    }

    ghost predicate Valid()
      reads this, cache, cache.order, socks
    {
      cache.Chained() && cache.limit == cfg.limit && Inv(cfg, View())
    }

    constructor (cfg: Setup)
      ensures Valid() && View() == Empty() && this.cfg == cfg && fresh(cache)
    {
      this.cfg, socks := cfg, {};
      cache := new FileCache(cfg.limit);
    }

    // http_connect
    method Connect() returns (s: HttpSocket)
      requires Valid()
      modifies this`socks
      ensures fresh(s) && Enabled(cfg, old(View()), Event.Connect(s))
      ensures Valid() && View() == Step(cfg, old(View()), Event.Connect(s))
    {
      hide Inv, View;
      ghost var v := View();
      s := Accept();
      StepKeepsInv(cfg, v, Event.Connect(s));
    }

    method Accept() returns (s: HttpSocket)
      modifies this`socks
      ensures fresh(s) && s !in old(View()).conns && cache.Chained() == old(cache.Chained())
      ensures View() == old(View()).(conns := old(View()).conns[s := NewConn()])
    {
      s := new HttpSocket();
      ghost var v := View();
      socks := socks + {s};
      assert View().cache == v.cache;
      assert View().conns == v.conns[s := NewConn()];
    }

    // The cache branch of http_get_response, one request at a time.  `spare` is the memory
    // svz_calloc would hand out for a new entry.
    method Get(s: HttpSocket, r: Request, spare: CacheEntry)
      requires Valid() && Possible(cfg, View(), Event.Get(s, r, spare)) && spare.Blank()
      modifies s, spare, cache, cache.order
      ensures cache.Chained() && View() == Step(cfg, old(View()), Event.Get(s, r, spare))
      ensures Valid() <==> !Clash(cfg, old(View()), Event.Get(s, r, spare))
    {
      hide Inv, SoundCache, InitSpec, CheckSpec;
      Lookups(View().cache, cfg.limit);
      StepKeepsInvIff(cfg, View(), Event.Get(s, r, spare));
      if r.partial {
        BypassIn(s, r);
      } else if r.name in cache.index {
        GetHit(s, r, spare);
      } else {
        GetMiss(s, r, spare);
      }
    }

    method GetHit(s: HttpSocket, r: Request, ghost spare: CacheEntry)
      requires cache.Valid() && s in socks && !r.partial
      requires s in View().conns && r.name in View().cache.index && r.name in cache.index
      requires forall n :: n in cache.index ==> cache.index[n] in cache.order
      modifies s, cache`first, cache`last, cache`order, cache.order
      ensures cache.Chained() && View() == GetSpec(cfg, old(View()), s, r, spare)
    {
      hide View, SoundCache, CheckSpec, Uncached, Filling, Sending, RefreshedFile, HitFile;
      ghost var v := View();
      var x := CheckIn(r.name);
      Answer(s, x, r);
    }

    // http_check_cache for a file that is in the cache
    method CheckIn(name: string) returns (x: CacheEntry)
      requires cache.Valid() && name in cache.index
      requires forall n :: n in cache.index ==> cache.index[n] in cache.order
      modifies cache`first, cache`last, cache`order, cache.order
      ensures cache.Chained() && x in cache.order && x == cache.index[name] == old(View()).cache.index[name]
      ensures View() == old(View()).(cache := CheckSpec(old(View()).cache, name))
      ensures x in old(View()).cache.files && x.Rec() == old(View()).cache.files[x]
      ensures forall e :: e in cache.order ==> e in old(cache.order)
    {
      hide SoundCache, CheckSpec, FileCache.View;
      ghost var v := View();
      Known(name);
      x := cache.Check(name);
      FileOf(x);
      assert View().conns == v.conns;
      assert View() == v.(cache := CheckSpec(v.cache, name));
    }

    lemma Known(name: string)
      requires cache.Valid() && name in cache.index && cache.index[name] in cache.order
      ensures View().cache.index == cache.index && cache.index[name] in View().cache.files
      ensures View().cache.files[cache.index[name]] == cache.index[name].Rec()
      ensures CheckSpec(View().cache, name).files == View().cache.files
    {
      CheckKeepsFiles(View().cache, name);
    }

    // What happens to a request for an entry that is in the cache.
    method Answer(s: HttpSocket, x: CacheEntry, r: Request)
      requires cache.Chained() && s in socks && x in cache.order
      modifies s, x`buffer, x`ready, x`hits, x`usage, x`size, x`date
      ensures cache.Chained() && x in old(View()).cache.files
      ensures var v, f := old(View()), old(x.Rec());
              !f.ready ==> View() == v.(conns := v.conns[s := Uncached(v.conns[s], r)])
      ensures var v, f := old(View()), old(x.Rec());
              f.ready && Stale(f, r) ==>
                View() == Sys(v.cache.(files := v.cache.files[x := RefreshedFile(f, r, cfg.refreshing)]),
                              v.conns[s := Filling(v.conns[s], x, r)])
      ensures var v, f := old(View()), old(x.Rec());
              f.ready && !Stale(f, r) ==>
                View() == Sys(v.cache.(files := v.cache.files[x := HitFile(f)]),
                              v.conns[s := Sending(v.conns[s], x, f, r)])
    {
      hide View, Uncached, Filling, Sending, RefreshedFile, HitFile;
      FileOf(x);
      if !x.ready {
        BypassIn(s, r);
      } else if r.mtime > x.date || r.size != x.size {
        Refresh(x, r);
        FillIn(s, x, r);
      } else {
        ServeIn(s, x, r);
        Hit(x);
      }
    }

    lemma FileOf(x: CacheEntry)
      requires x in cache.order
      ensures x in View().cache.files && View().cache.files[x] == x.Rec()
    {
    }

    method BypassIn(s: HttpSocket, r: Request)
      requires s in socks
      modifies s
      ensures cache.Chained() == old(cache.Chained())
      ensures View() == old(View()).(conns := old(View()).conns[s := Uncached(old(View()).conns[s], r)])
    {
      ghost var v := View();
      s.Bypass(r);
      assert View().conns == v.conns[s := s.Rec()];
    }

    method FillIn(s: HttpSocket, x: CacheEntry, r: Request)
      requires s in socks
      modifies s
      ensures cache.Chained() == old(cache.Chained())
      ensures View() == old(View()).(conns := old(View()).conns[s := Filling(old(View()).conns[s], x, r)])
    {
      ghost var v := View();
      s.Fill(x, r);
      assert View().conns == v.conns[s := s.Rec()];
    }

    method ServeIn(s: HttpSocket, x: CacheEntry, r: Request)
      requires s in socks
      modifies s
      ensures cache.Chained() == old(cache.Chained())
      ensures View() == old(View()).(conns := old(View()).conns[s := Sending(old(View()).conns[s], x, x.Rec(), r)])
    {
      ghost var v := View();
      s.Serve(x, r);
      assert View().conns == v.conns[s := s.Rec()];
    }

    // http_refresh_cache
    method Refresh(x: CacheEntry, r: Request)
      requires cache.Chained() && x in cache.order
      modifies x`buffer, x`ready, x`hits, x`usage, x`size, x`date
      ensures cache.Chained()
      ensures var v := old(View());
              var f := RefreshedFile(old(x.Rec()), r, cfg.refreshing);
              View() == v.(cache := v.cache.(files := v.cache.files[x := f]))
    {
      ghost var v := View();
      x.Refresh(r, cfg.refreshing);
      assert View().cache.files == v.cache.files[x := x.Rec()];
    }

    method Hit(x: CacheEntry)
      requires cache.Chained() && x in cache.order
      modifies x`hits, x`usage
      ensures cache.Chained()
      ensures var v := old(View());
              View() == v.(cache := v.cache.(files := v.cache.files[x := HitFile(old(x.Rec()))]))
    {
      ghost var v := View();
      x.hits := x.hits + 1;
      x.usage := x.usage + 1;
      assert View().cache.files == v.cache.files[x := x.Rec()];
    }

    method GetMiss(s: HttpSocket, r: Request, spare: CacheEntry)
      requires cache.Valid() && cache.limit == cfg.limit && s in socks && !r.partial
      requires s in View().conns && r.name !in View().cache.index && r.name !in cache.index
      requires spare.Blank() && spare !in cache.order
      requires forall x :: x in View().cache.order ==> x in View().cache.files
      requires forall n :: n in View().cache.index ==> View().cache.index[n] in View().cache.files
      modifies s, spare, cache, cache.order
      ensures cache.Chained() && View() == GetSpec(cfg, old(View()), s, r, spare)
    {
      hide View, SoundCache, InitSpec, Uncached, Filling;
      if 0 < r.size < cfg.cachesize {
        var slot := InitIn(r, spare);
        if slot != null {
          FillIn(s, slot, r);
        } else {
          BypassIn(s, r);
        }
      } else {
        BypassIn(s, r);
      }
    }

    // http_init_cache, and the date of the new entry
    method InitIn(r: Request, spare: CacheEntry) returns (slot: CacheEntry?)
      requires cache.Valid() && cache.limit == cfg.limit && r.name !in cache.index
      requires spare.Blank() && spare !in cache.order
      requires forall x :: x in View().cache.order ==> x in View().cache.files
      modifies spare, cache, cache.order
      ensures cache.Chained() && (slot == null || slot == spare)
      ensures var (ok, c) := InitSpec(old(View()).cache, cfg.limit, r.name, spare);
              var f := NewFile(r.name).(date := r.mtime);
              && ok == (slot != null)
              && View() == old(View()).(cache := if ok then c.(files := c.files[spare := f]) else old(View()).cache)
    {
      hide SoundCache, InitSpec;
      ghost var v := View();
      InitHasEntry(v.cache, cfg.limit, r.name, spare);
      slot := cache.Init(r.name, spare);
      assert View() == v.(cache := cache.View());
      if slot != null {
        SetDate(slot, r.mtime);
      }
    }

    method SetDate(x: CacheEntry, date: int)
      requires cache.Chained() && x in cache.order
      modifies x`date
      ensures cache.Chained()
      ensures var v := old(View());
              View() == v.(cache := v.cache.(files := v.cache.files[x := old(x.Rec()).(date := date)]))
    {
      ghost var v := View();
      x.date := date;
      assert View().cache.files == v.cache.files[x := x.Rec()];
    }

    // ----- filling and sending -----

    // http_cache_read
    method Read(s: HttpSocket, got: Option<Bytes>)
      requires Valid() && s in socks
      requires |s.sendBuffer| < cfg.bufferSize ==> Enabled(cfg, View(), Event.Read(s, got))
      modifies s, cache.order
      ensures Valid()
      ensures old(|s.sendBuffer|) >= cfg.bufferSize ==> View() == old(View())
      ensures old(|s.sendBuffer|) < cfg.bufferSize ==> View() == Step(cfg, old(View()), Event.Read(s, got))
    {
      hide Inv, ReadSpec;
      if cfg.bufferSize - |s.sendBuffer| <= 0 {
        return;
      }
      HeldEntry(cfg, View(), s);
      StepKeepsInv(cfg, View(), Event.Read(s, got));
      ReadIn(s, s.slot.value.entry.value, got);
    }

    method ReadIn(s: HttpSocket, x: CacheEntry, got: Option<Bytes>)
      requires cache.Chained() && s in socks && x in cache.order && s.slot.Some?
      modifies s, x
      ensures cache.Chained()
      ensures var v := old(View());
              var (c, f) := ReadSpec(old(s.Rec()), old(x.Rec()), got);
              View() == Sys(v.cache.(files := v.cache.files[x := f]), v.conns[s := c])
    {
      hide ReadSpec;
      ghost var v := View();
      s.ReadInto(x, got);
      assert View().cache.files == v.cache.files[x := x.Rec()];
      assert View().conns == v.conns[s := s.Rec()];
    }

    // http_keep_alive, and the shutdown of a connection that is not to be kept
    method KeepAlive(s: HttpSocket)
      requires cache.Chained() && s in socks
      requires s.cacheFlag ==> EntryOf(s.Rec()).Some? && EntryOf(s.Rec()).value in cache.order
      modifies s, cache.order
      ensures cache.Chained()
      ensures View() == Finish(old(View()), s)
    {
      hide View, ReleaseEntry, KeptAlive;
      ViewOf(s);
      if s.keepFlag {
        Release(s);
        ResetIn(s);
      } else {
        SetClosing(s, true);
      }
    }

    method ResetIn(s: HttpSocket)
      requires s in socks
      modifies s
      ensures View() == old(View()).(conns := old(View()).conns[s := KeptAlive(old(View()).conns[s])])
      ensures cache.Chained() == old(cache.Chained())
    {
      ghost var v := View();
      s.Reset();
      assert View().conns == v.conns[s := s.Rec()];
    }

    // The decrement of http_free_socket.
    method Release(s: HttpSocket)
      requires cache.Chained() && s in socks
      requires s.cacheFlag ==> EntryOf(s.Rec()).Some? && EntryOf(s.Rec()).value in cache.order
      modifies cache.order
      ensures cache.Chained()
      ensures View() == old(View()).(cache := ReleaseEntry(old(View()).cache, s.Rec()))
    {
      ghost var v := View();
      if s.cacheFlag {
        var x := s.slot.value.entry.value;
        x.usage := x.usage - 1;
        assert View().conns == v.conns;
        assert View().cache.files == v.cache.files[x := x.Rec()];
      }
    }

    // http_default_write, after `send` has accepted `n` bytes or failed
    method Write(s: HttpSocket, n: nat, failed: bool)
      requires Valid() && Enabled(cfg, View(), Event.Write(s, n, failed))
      modifies s, cache.order
      ensures Valid() && View() == Step(cfg, old(View()), Event.Write(s, n, failed))
    {
      hide View, Inv, Finish, Step, Enabled;
      ViewOf(s);
      StepKeepsInv(cfg, View(), Event.Write(s, n, failed));
      WriteCases(cfg, View(), s, n, failed);
      HeldEntry(cfg, View(), s);
      ghost var v := View();
      DropSent(s, n);
      ViewOf(s);
      if s.doneFlag && |s.sendBuffer| == 0 {
        FinishDone(View(), s);
        KeepAlive(s);
        ViewOf(s);
        assert !s.cacheFlag;   // so the cache writer is not started after a finished response
      } else {
        ghost var mid := View().conns;
        Continue(s, failed);
        SetTwice(v.conns, s, mid[s], View().conns[s]);
      }
    }

    // The end of http_default_write for a response that has not been sent completely.
    method Continue(s: HttpSocket, failed: bool)
      requires s in socks
      modifies s`closing, s`sendBuffer, s`writer
      ensures cache.Chained() == old(cache.Chained())
      ensures var v := old(View());
              var c := v.conns[s].(closing := failed);
              View() == v.(conns := v.conns[s := if c.sendBuffer == [] && c.cacheFlag
                                                 then c.(sendBuffer := Marker(), writer := Writer.CacheWrite) else c])
    {
      hide View;
      ghost var v := View();
      ViewOf(s);
      SetClosing(s, failed);
      if |s.sendBuffer| == 0 && s.cacheFlag {
        ViewOf(s);
        StartCacheWriter(s);
        assert View().conns == v.conns[s := View().conns[s]];
      }
    }

    lemma ViewOf(s: HttpSocket)
      ensures View().conns.Keys == socks && (s in socks ==> View().conns[s] == s.Rec())
      ensures View().cache == cache.View() && View().cache.order == cache.order
    {
    }

    method DropSent(s: HttpSocket, n: nat)
      requires s in socks && n <= |s.sendBuffer|
      modifies s`sendBuffer
      ensures var v := old(View());
              View() == v.(conns := v.conns[s := v.conns[s].(sendBuffer := v.conns[s].sendBuffer[n..])])
      ensures cache.Chained() == old(cache.Chained())
    {
      ghost var v := View();
      s.sendBuffer := s.sendBuffer[n..];
      assert View().conns == v.conns[s := s.Rec()];
    }

    method SetClosing(s: HttpSocket, failed: bool)
      requires s in socks
      modifies s`closing
      ensures View() == old(View()).(conns := old(View()).conns[s := old(View()).conns[s].(closing := failed)])
      ensures cache.Chained() == old(cache.Chained())
    {
      ghost var v := View();
      s.closing := failed;
      assert View().conns == v.conns[s := s.Rec()];
    }

    method StartCacheWriter(s: HttpSocket)
      requires s in socks
      modifies s`sendBuffer, s`writer
      ensures var v := old(View());
              View() == v.(conns := v.conns[s := v.conns[s].(sendBuffer := Marker(), writer := Writer.CacheWrite)])
      ensures cache.Chained() == old(cache.Chained())
    {
      ghost var v := View();
      s.sendBuffer := Marker();
      s.writer := Writer.CacheWrite;
      assert View().conns == v.conns[s := s.Rec()];
    }

    method Advance(s: HttpSocket, n: nat)
      requires s in socks && s.slot.Some? && n <= |Content(s.slot.value.buffer)|
      modifies s
      ensures s.Rec() == Advanced(old(s.Rec()), n)
      ensures View() == old(View()).(conns := old(View()).conns[s := Advanced(old(s.Rec()), n)])
      ensures cache.Chained() == old(cache.Chained())
    {
      ghost var v := View();
      s.SendCached(n);
      assert View().conns == v.conns[s := s.Rec()];
    }

    // http_cache_write, after `send` has accepted `n` bytes or failed
    method SendEntry(s: HttpSocket, n: nat, failed: bool)
      requires Valid() && Enabled(cfg, View(), Event.CacheWrite(s, n, failed))
      modifies s, cache.order
      ensures Valid() && View() == Step(cfg, old(View()), Event.CacheWrite(s, n, failed))
    {
      hide View, Inv, Finish, SoundCache;
      ViewOf(s);
      StepKeepsInv(cfg, View(), Event.CacheWrite(s, n, failed));
      HeldEntry(cfg, View(), s);
      ghost var v := View();
      Advance(s, n);
      ViewOf(s);
      if s.slot.value.size <= 0 {
        KeepAlive(s);
      } else {
        SetClosing(s, failed);
        ViewOf(s);
        assert View().conns == v.conns[s := s.Rec()];
      }
    }

    // http_cache_disconnect or http_disconnect
    method Disconnect(s: HttpSocket)
      requires Valid() && s in socks
      modifies this`socks, s, cache, cache.order
      ensures Valid() && View() == Step(cfg, old(View()), Event.Disconnect(s))
    {
      hide View, Inv, DestroySpec, ReleaseEntry;
      ViewOf(s);
      StepKeepsInv(cfg, View(), Event.Disconnect(s));
      HeldEntry(cfg, View(), s);
      if s.cacheDisconnect && s.slot.Some? && s.slot.value.entry.Some? && !s.slot.value.entry.value.ready {
        DestroyIn(s.slot.value.entry.value);
      } else {
        FilesOf(s);
        Release(s);
      }
      Remove(s);
    }

    lemma FilesOf(s: HttpSocket)
      requires s in socks
      ensures forall x :: x in cache.order ==> x in View().cache.files && View().cache.files[x] == x.Rec()
    {
    }

    // http_cache_destroy_entry
    method DestroyIn(x: CacheEntry)
      requires cache.Valid() && x in cache.order
      modifies cache, cache.order
      ensures cache.Chained() && x in old(View()).cache.files && !old(View()).cache.files[x].ready == !old(x.ready)
      ensures View() == old(View()).(cache := DestroySpec(old(View()).cache, x))
    {
      hide DestroySpec, SoundCache;
      ghost var v := View();
      cache.Destroy(x);
      assert View().conns == v.conns;
    }

    method Remove(s: HttpSocket)
      requires s in socks
      modifies this`socks
      ensures View() == old(View()).(conns := old(View()).conns - {s})
    {
      ghost var v := View();
      socks := socks - {s};
      assert View().conns == v.conns - {s};
    }
  }

  // The entry a connection refers to is in the cache, which is sound.
  lemma HeldEntry<E, S>(cfg: Setup, sys: Sys<E, S>, s: S)
    requires Inv(cfg, sys) && s in sys.conns
    ensures SoundCache(sys.cache, cfg.limit)
    ensures EntryOf(sys.conns[s]).Some? ==> EntryOf(sys.conns[s]).value in sys.cache.files
    ensures EntryOf(sys.conns[s]).Some? ==> EntryOf(sys.conns[s]).value in sys.cache.order
    ensures sys.conns[s].cacheFlag ==> EntryOf(sys.conns[s]).Some? && !sys.conns[s].doneFlag
  {
    assert ConnOk(sys.conns[s], sys.cache.files);
  }

  lemma WriteCases<E, S>(cfg: Setup, sys: Sys<E, S>, s: S, n: nat, failed: bool)
    requires Enabled(cfg, sys, Event.Write(s, n, failed))
    ensures s in sys.conns && n <= |sys.conns[s].sendBuffer|
    ensures var c := sys.conns[s].(sendBuffer := sys.conns[s].sendBuffer[n..]);
      Step(cfg, sys, Event.Write(s, n, failed)) ==
        if c.doneFlag && c.sendBuffer == [] then Finish(sys.(conns := sys.conns[s := c]), s)
        else sys.(conns := sys.conns[s := if c.sendBuffer == [] && c.cacheFlag
                                          then c.(closing := failed, sendBuffer := Marker(),
                                                  writer := Writer.CacheWrite)
                                          else c.(closing := failed)])
  {
  }

  lemma SetTwice<S, T>(m: map<S, T>, s: S, a: T, b: T)
    ensures m[s := a][s := b] == m[s := b]
  {
  }

  lemma FinishDone<E, S>(sys: Sys<E, S>, s: S)
    requires s in sys.conns && !sys.conns[s].cacheFlag
    ensures s in Finish(sys, s).conns && !Finish(sys, s).conns[s].cacheFlag
  {
  }

  lemma ExtendedByNothing<E>(sl: Slot<E>)
    ensures Extended(sl, []) == sl
  {
  }
}
