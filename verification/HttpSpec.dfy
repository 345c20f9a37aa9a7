/**
  The HTTP file cache of src/http-server/http-cache.c and the connections that fill and send
  its entries (src/http-server/http-proto.c), as values and step functions.
*/
module HttpSpec {
  import opened Octets
  import opened Options
  import opened Sequences

  // ----- the cache -----

  datatype File = File(name: string, ready: bool, usage: int, hits: int, size: int, buffer: Option<Bytes>, date: int)

  // `order` is the chained list from the most to the least recent entry, `index` the hash.
  datatype Cache<!E> = Cache(order: seq<E>, index: map<string, E>, files: map<E, File>)

  // Whether http_refresh_cache leaves the size of the entry behind (http-cache.c:365-373) or
  // clears it, as http-cache.c:114-117 expects of an entry that is not ready.
  datatype Refreshing = KeepsSize | ClearsSize

  function Drop<E(==)>(s: seq<E>, e: E): seq<E>
  {
    if s == [] then []
    else if s[0] == e then s[1..]
    else [s[0]] + Drop(s[1..], e)
  }

  function IdleFile(f: File): bool
  {
    f.usage == 0 && f.ready
  }

  // The search for a slot, from the least recent entry on.
  function LastIdle<E>(order: seq<E>, files: map<E, File>): (v: Option<E>)
    requires forall e :: e in order ==> e in files
  {
    if order == [] then None
    else
      var e := order[|order| - 1];
      if IdleFile(files[e]) then Some(e) else LastIdle(order[..|order| - 1], files)
  }

  ghost predicate SoundCache<E>(c: Cache<E>, limit: nat)
  {
    && NoDuplicates(c.order)
    && (forall e :: e in c.files ==> e in c.order)
    && (forall e :: e in c.order ==> e in c.files)
    && (forall n :: n in c.index ==> c.index[n] in c.files && c.files[c.index[n]].name == n)
    && (forall e :: e in c.files ==> c.files[e].name in c.index && c.index[c.files[e].name] == e)
    && |c.order| <= limit
  }

  // List, hash and entries refer to each other.
  lemma Lookups<E>(c: Cache<E>, limit: nat)
    requires SoundCache(c, limit)
    ensures forall e :: e in c.order ==> e in c.files
    ensures forall n :: n in c.index ==> c.index[n] in c.files && c.index[n] in c.order
    ensures forall e :: e in c.files ==> c.files[e].name in c.index && c.index[c.files[e].name] == e
  {
  }

  // http_check_cache: a hit makes the entry the most recent one, ready or not.
  function CheckSpec<E(==)>(c: Cache<E>, name: string): Cache<E>
  {
    if name in c.index then c.(order := [c.index[name]] + Drop(c.order, c.index[name])) else c
  }

  // http_cache_destroy_entry
  function DestroySpec<E(==)>(c: Cache<E>, e: E): Cache<E>
    requires e in c.files
  {
    Cache(Drop(c.order, e), c.index - {c.files[e].name}, c.files - {e})
  }

  function NewFile(name: string): File
  {
    File(name, false, 0, 0, 0, None, 0)
  }

  function InsertSpec<E>(c: Cache<E>, name: string, e: E): Cache<E>
  {
    Cache([e] + c.order, c.index[name := e], c.files[e := NewFile(name)])
  }

  // http_init_cache: whether there was a slot, and the cache afterwards.
  function InitSpec<E(==)>(c: Cache<E>, limit: nat, name: string, e: E): (bool, Cache<E>)
    requires forall x :: x in c.order ==> x in c.files
  {
    if |c.index| < limit then (true, InsertSpec(c, name, e))
    else match LastIdle(c.order, c.files)
      case None => (false, c)
      case Some(v) =>
        LastIdleIsLeastRecent(c.order, c.files);
        (true, InsertSpec(DestroySpec(c, v), name, e))
  }

  // The slot found is the least recent idle entry, and one is found if there is any.
  lemma {:induction false} LastIdleIsLeastRecent<E>(order: seq<E>, files: map<E, File>)
    requires forall e :: e in order ==> e in files
    ensures LastIdle(order, files).None? <==> forall e :: e in order ==> !IdleFile(files[e])
    ensures LastIdle(order, files).Some? ==>
              exists i :: 0 <= i < |order| && order[i] == LastIdle(order, files).value && IdleFile(files[order[i]])
                && forall j :: i < j < |order| ==> !IdleFile(files[order[j]])
  {
    if order != [] {
      var n := |order| - 1;
      if IdleFile(files[order[n]]) {
        assert order[n] in order;
      } else {
        LastIdleIsLeastRecent(order[..n], files);
        if LastIdle(order[..n], files).None? {
          forall e | e in order ensures !IdleFile(files[e]) {
            if e != order[n] { assert e in order[..n]; }
          }
        } else {
          var i :| 0 <= i < n && order[..n][i] == LastIdle(order[..n], files).value && IdleFile(files[order[..n][i]])
            && forall j :: i < j < n ==> !IdleFile(files[order[..n][j]]);
          assert order[i] == LastIdle(order, files).value && IdleFile(files[order[i]]);
          forall j | i < j < |order| ensures !IdleFile(files[order[j]]) {
            if j < n { assert order[..n][j] == order[j]; }
          }
        }
      }
    }
  }

  // ----- connections -----

  datatype Reader = TcpRead | CacheRead | FileRead
  datatype Writer = DefaultWrite | CacheWrite

  // http_cache_t
  datatype Slot<E> = Slot(entry: Option<E>, buffer: Option<Bytes>, size: int)

  // The part of svz_socket_t and http_socket_t the cache steps use.  `data` and `expected` are
  // the trace of the running response: the bytes appended to the send buffer while the cache
  // entry is filled and the number announced by stat, or the bytes sent while it is being sent.
  // `closing` is set when a callback has returned -1, so that the server core will disconnect.
  datatype Conn<E> = Conn(
    reader: Reader, writer: Writer, cacheDisconnect: bool, closing: bool,
    cacheFlag: bool, doneFlag: bool, keepFlag: bool,
    slot: Option<Slot<E>>, filelength: int, length: int, sendBuffer: Bytes,
    data: Bytes, expected: int)

  datatype Sys<!E, !S> = Sys(cache: Cache<E>, conns: map<S, Conn<E>>)

  // What does not change while the server runs.
  datatype Setup = Setup(limit: nat, cachesize: int, bufferSize: nat, refreshing: Refreshing)

  const MAX_WRITE: nat := 32768   // SVZ_SOCK_MAX_WRITE << 5

  function Marker(): Bytes { seq(42, _ => 0) }   // send_buffer_fill = 42

  function NewConn<E>(): Conn<E>
  {
    Conn(TcpRead, DefaultWrite, false, false, false, false, false, None, 0, 0, [], [], 0)
  }

  function NoSlot<E>(): Slot<E> { Slot(None, None, 0) }

  function EntryOf<E>(c: Conn<E>): Option<E>
  {
    if c.slot.Some? then c.slot.value.entry else None
  }

  function Content(b: Option<Bytes>): Bytes
  {
    if b.Some? then b.value else []
  }

  // The request as http_get_response sees it at line 1249, with the result of stat.
  datatype Request = Request(name: string, mtime: int, size: int, partial: bool, simple: bool, keep: bool)

  predicate Stale(f: File, r: Request) {
    r.mtime > f.date || r.size != f.size
  }

  // http_refresh_cache, and the new date
  function RefreshedFile(f: File, r: Request, refreshing: Refreshing): File
  {
    f.(buffer := None, ready := false, hits := 0, usage := 0, date := r.mtime,
       size := if refreshing == ClearsSize then 0 else f.size)
  }

  function HitFile(f: File): File
  {
    f.(hits := f.hits + 1, usage := f.usage + 1)
  }

  function Filling<E>(c: Conn<E>, e: E, r: Request): Conn<E>
  {
    c.(reader := CacheRead, cacheDisconnect := true, slot := Some(Slot(Some(e), None, 0)),
       filelength := r.size, data := [], expected := r.size, keepFlag := r.keep)
  }

  function Sending<E>(c: Conn<E>, e: E, f: File, r: Request): Conn<E>
  {
    var c' := c.(cacheFlag := true, slot := Some(Slot(Some(e), f.buffer, f.size)), data := [], keepFlag := r.keep);
    if r.simple then c'.(writer := CacheWrite, sendBuffer := Marker()) else c'
  }

  function Uncached<E>(c: Conn<E>, r: Request): Conn<E>
  {
    c.(reader := FileRead, slot := Some(NoSlot()), filelength := r.size, data := [], keepFlag := r.keep)
  }

  // The cache branch of http_get_response.  `e` is the entry that http_init_cache would create.
  function GetSpec<E(==), S>(cfg: Setup, sys: Sys<E, S>, s: S, r: Request, e: E): Sys<E, S>
    requires s in sys.conns && forall x :: x in sys.cache.order ==> x in sys.cache.files
    requires forall n :: n in sys.cache.index ==> sys.cache.index[n] in sys.cache.files
  {
    var c := sys.conns[s];
    if r.partial then sys.(conns := sys.conns[s := Uncached(c, r)])
    else if r.name in sys.cache.index then
      var x := sys.cache.index[r.name];
      var f := sys.cache.files[x];
      var cache := CheckSpec(sys.cache, r.name);
      if !f.ready then Sys(cache, sys.conns[s := Uncached(c, r)])
      else if Stale(f, r) then
        Sys(cache.(files := cache.files[x := RefreshedFile(f, r, cfg.refreshing)]), sys.conns[s := Filling(c, x, r)])
      else
        Sys(cache.(files := cache.files[x := HitFile(f)]), sys.conns[s := Sending(c, x, f, r)])
    else if 0 < r.size < cfg.cachesize then
      var (ok, cache) := InitSpec(sys.cache, cfg.limit, r.name, e);
      var f := NewFile(r.name).(date := r.mtime);
      if ok then Sys(cache.(files := cache.files[e := f]), sys.conns[s := Filling(c, e, r)])
      else sys.(conns := sys.conns[s := Uncached(c, r)])
    else sys.(conns := sys.conns[s := Uncached(c, r)])
  }

  function Completed<E>(f: File, sl: Slot<E>): File
  {
    f.(size := sl.size, buffer := sl.buffer, ready := true)
  }

  // The slot after `d` has been read into it.
  function Extended<E>(sl: Slot<E>, d: Bytes): Slot<E>
  {
    if d == [] then sl else sl.(buffer := Some(Content(sl.buffer) + d), size := sl.size + |d|)
  }

  // http_cache_read, after `read` has given an error or some bytes (none at the end of file):
  // the connection and its entry.
  function ReadSpec<E>(c: Conn<E>, f: File, got: Option<Bytes>): (Conn<E>, File)
    requires c.slot.Some?
  {
    var sl := c.slot.value;
    if got.None? then
      ((if sl.size > 0 then c.(slot := Some(NoSlot())) else c).(closing := true), f)
    else
      var d := got.value;
      var sl' := Extended(sl, d);
      var c' := c.(slot := Some(sl'), sendBuffer := c.sendBuffer + d, filelength := c.filelength - |d|,
                   length := c.length + |d|, data := c.data + d);
      if d == [] && c.filelength != 0 then
        (c'.(slot := Some(NoSlot()), closing := true), Completed(f, sl'))
      else if c'.filelength <= 0 then
        (c'.(slot := Some(NoSlot()), reader := TcpRead, doneFlag := true), Completed(f, sl'))
      else (c', f)
  }

  // http_keep_alive for a connection to be kept
  function KeptAlive<E>(c: Conn<E>): Conn<E>
  {
    c.(reader := TcpRead, writer := DefaultWrite, cacheFlag := false, doneFlag := false, keepFlag := false,
       slot := None, length := 0, sendBuffer := [], data := [])
  }

  // The decrement of http_free_socket.
  function ReleaseEntry<E>(cache: Cache<E>, c: Conn<E>): Cache<E>
  {
    if c.cacheFlag && EntryOf(c).Some? && EntryOf(c).value in cache.files then
      var f := cache.files[EntryOf(c).value];
      cache.(files := cache.files[EntryOf(c).value := f.(usage := f.usage - 1)])
    else cache
  }

  // A response has been sent: the connection is kept alive, or will be closed.
  function Finish<E, S(==)>(sys: Sys<E, S>, s: S): Sys<E, S>
    requires s in sys.conns
  {
    var c := sys.conns[s];
    if c.keepFlag then Sys(ReleaseEntry(sys.cache, c), sys.conns[s := KeptAlive(c)])
    else sys.(conns := sys.conns[s := c.(closing := true)])
  }

  // http_default_write, after `send` has accepted `n` bytes or failed
  function DefaultWriteSpec<E, S(==)>(sys: Sys<E, S>, s: S, n: nat, failed: bool): Sys<E, S>
    requires s in sys.conns && n <= |sys.conns[s].sendBuffer|
  {
    var c := sys.conns[s];
    var c' := c.(sendBuffer := c.sendBuffer[n..]);
    if c'.doneFlag && c'.sendBuffer == [] then Finish(sys.(conns := sys.conns[s := c']), s)
    else
      var c'' := c'.(closing := failed);
      sys.(conns := sys.conns[s := if c''.sendBuffer == [] && c''.cacheFlag
                                   then c''.(sendBuffer := Marker(), writer := CacheWrite) else c''])
  }

  function Advanced<E>(c: Conn<E>, n: nat): Conn<E>
    requires c.slot.Some? && n <= |Content(c.slot.value.buffer)|
  {
    var sl := c.slot.value;
    var b := Content(sl.buffer);
    c.(slot := Some(sl.(buffer := if sl.buffer.Some? then Some(b[n..]) else None, size := sl.size - n)),
       length := c.length + n, data := c.data + b[..n])
  }

  // http_cache_write, after `send` has accepted `n` bytes or failed
  function CacheWriteSpec<E, S(==)>(sys: Sys<E, S>, s: S, n: nat, failed: bool): Sys<E, S>
    requires s in sys.conns && sys.conns[s].slot.Some?
    requires n <= |Content(sys.conns[s].slot.value.buffer)|
  {
    var c := Advanced(sys.conns[s], n);
    if c.slot.value.size <= 0 then Finish(sys.(conns := sys.conns[s := c]), s)
    else sys.(conns := sys.conns[s := c.(closing := failed)])
  }

  // http_cache_disconnect or http_disconnect
  function DisconnectSpec<E(==), S(==)>(sys: Sys<E, S>, s: S): Sys<E, S>
    requires s in sys.conns
  {
    var c := sys.conns[s];
    if c.cacheDisconnect && EntryOf(c).Some? && EntryOf(c).value in sys.cache.files
       && !sys.cache.files[EntryOf(c).value].ready
    then Sys(DestroySpec(sys.cache, EntryOf(c).value), sys.conns - {s})
    else Sys(ReleaseEntry(sys.cache, c), sys.conns - {s})
  }
}
