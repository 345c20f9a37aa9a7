/**
  The packets of src/libserveez/icmp-socket.c: the header and its wire form, the length-prefixed
  frames of the send buffer, the fragmentation of a message, and the checks of a receiver.
*/
module IcmpPackets {
  import opened Octets

  const HEADER_SIZE := 10
  const PREFIX_SIZE := 10                      // length, address and port
  const MSG_SIZE := 65536
  const BUFFER_SIZE := 20 + HEADER_SIZE + MSG_SIZE

  const CODE_DATA: Byte := 0
  const CODE_CLOSE: Byte := 3

  type Word = w: int | 0 <= w < 0x10000
  type Address = a: Bytes | |a| == 4 witness [0, 0, 0, 0]

  // ----- numbers in memory -----

  // htons
  function Network(w: Word): (r: Bytes)
    ensures |r| == 2
  {
    [w / 256, w % 256]
  }

  function FromNetwork(b: Bytes): Word
    requires |b| == 2
  {
    256 * (b[0] as int) + b[1] as int
  }

  // An unsigned integer of four bytes as the machine stores it, the least significant one first.
  function Stored(n: nat): (r: Bytes)
    requires n < 0x1_0000_0000
    ensures |r| == 4 && Loaded(r) == n
  {
    var (n1, n2, n3) := (n / 256, n / 256 / 256, n / 256 / 256 / 256);
    [n % 256, n1 % 256, n2 % 256, n3]
  }

  function Loaded(b: Bytes): nat
    requires |b| == 4
  {
    b[0] as int + 256 * (b[1] as int + 256 * (b[2] as int + 256 * (b[3] as int)))
  }

  function StoredWord(w: Word): (r: Bytes)
    ensures |r| == 2
  {
    [w % 256, w / 256]
  }

  function LoadedWord(b: Bytes): Word
    requires |b| == 2
  {
    b[0] as int + 256 * (b[1] as int)
  }

  // ----- the header -----

  datatype Header = Header(kind: Byte, code: Byte, checksum: Word, ident: Word, sequence: Word, port: Word)

  // pack_header; the port is stored as it is.
  function Pack(h: Header): (r: Bytes)
    ensures |r| == HEADER_SIZE
  {
    [h.kind, h.code] + Network(h.checksum) + Network(h.ident) + Network(h.sequence) + StoredWord(h.port)
  }

  // unpack_header
  function Unpack(b: Bytes): Header
    requires |b| >= HEADER_SIZE
  {
    Header(b[0], b[1], FromNetwork(b[2..4]), FromNetwork(b[4..6]), FromNetwork(b[6..8]), LoadedWord(b[8..10]))
  }

  lemma Unpacked(h: Header, rest: Bytes)
    ensures Unpack(Pack(h) + rest) == h
  {
    var b := Pack(h) + rest;
    assert b[2..4] == Network(h.checksum);
    assert b[4..6] == Network(h.ident);
    assert b[6..8] == Network(h.sequence);
    assert b[8..10] == StoredWord(h.port);
  }

  // The fields in the order of the wire; all but the port in network byte order.
  lemma HeaderLayout(b: Bytes)
    requires |b| >= HEADER_SIZE
    ensures Unpack(b).kind == b[0] && Unpack(b).code == b[1]
    ensures Unpack(b).checksum == 256 * (b[2] as int) + b[3] as int
    ensures Unpack(b).ident == 256 * (b[4] as int) + b[5] as int
    ensures Unpack(b).sequence == 256 * (b[6] as int) + b[7] as int
    ensures Unpack(b).port == b[8] as int + 256 * (b[9] as int)
  {
  }

  // Every ten bytes are the wire form of exactly one header.
  lemma Repacked(b: Bytes)
    requires |b| == HEADER_SIZE
    ensures Pack(Unpack(b)) == b
  {
    assert Network(FromNetwork(b[2..4])) == b[2..4];
    assert Network(FromNetwork(b[4..6])) == b[4..6];
    assert Network(FromNetwork(b[6..8])) == b[6..8];
    assert StoredWord(LoadedWord(b[8..10])) == b[8..10];
    assert b == [b[0], b[1]] + b[2..4] + b[4..6] + b[6..8] + b[8..10];
  }

  // ----- frames of the send buffer -----

  // What a socket puts into its packets; `ident` is the process id plus the socket id.
  datatype Sender = Sender(kind: Byte, ident: int, address: Address, port: Word)

  // `sum` is the checksum of the payload.
  function Packet(s: Sender, code: Byte, payload: Bytes, seqno: Word, sum: Bytes -> Word): (r: Bytes)
    ensures |r| == HEADER_SIZE + |payload|
  {
    Pack(Header(s.kind, code, sum(payload), s.ident % 0x10000, seqno, s.port)) + payload
  }

  function Frame(s: Sender, code: Byte, payload: Bytes, seqno: Word, sum: Bytes -> Word): (r: Bytes)
    requires |payload| <= MSG_SIZE
    ensures |r| == PREFIX_SIZE + HEADER_SIZE + |payload| <= BUFFER_SIZE
    ensures Framed(r) && r[PREFIX_SIZE..] == Packet(s, code, payload, seqno, sum)
  {
    var packet := Packet(s, code, payload, seqno, sum);
    var length := Stored(PREFIX_SIZE + |packet|);
    var r := length + s.address + StoredWord(s.port) + packet;
    assert r[..4] == length && r[PREFIX_SIZE..] == packet;
    r
  }

  // The places of length, address and port, and what follows them.
  lemma FrameLayout(s: Sender, code: Byte, payload: Bytes, seqno: Word, sum: Bytes -> Word)
    requires |payload| <= MSG_SIZE
    ensures var f := Frame(s, code, payload, seqno, sum);
      && |f| == 20 + |payload| && f[20..] == payload
      && f[0] as int + 256 * (f[1] as int) + 65536 * (f[2] as int) + 16777216 * (f[3] as int) == |f|
      && f[4..8] == s.address && f[8] as int + 256 * (f[9] as int) == s.port
      && Unpack(f[10..]) == Header(s.kind, code, sum(payload), s.ident % 65536, seqno, s.port)
  {
    var f := Frame(s, code, payload, seqno, sum);
    var h := Header(s.kind, code, sum(payload), s.ident % 0x10000, seqno, s.port);
    Unpacked(h, payload);
    assert f[10..] == Pack(h) + payload;
    assert f[..4] == Stored(|f|) && f[8..10] == StoredWord(s.port);
  }

  // A frame begins with its own length.
  predicate Framed(frame: Bytes) {
    |frame| >= PREFIX_SIZE && Loaded(frame[..4]) == |frame|
  }

  ghost predicate AllFramed(frames: seq<Bytes>) {
    forall i :: 0 <= i < |frames| ==> Framed(frames[i])
  }

  // The length at the front of the send buffer is that of its first frame, whatever follows.
  lemma FirstFrame(frames: seq<Bytes>, torn: Bytes)
    requires frames != [] && AllFramed(frames)
    ensures var buffer := Joined(frames) + torn;
      && PREFIX_SIZE <= |frames[0]| <= |buffer| && Loaded(buffer[..4]) == |frames[0]|
      && buffer[..|frames[0]|] == frames[0] && buffer[|frames[0]|..] == Joined(frames[1..]) + torn
  {
    hide Loaded;
    FrontFrame(frames[0], Joined(frames[1..]) + torn);
    assert Joined(frames) + torn == frames[0] + (Joined(frames[1..]) + torn);
  }

  lemma FrontFrame(frame: Bytes, rest: Bytes)
    requires Framed(frame)
    ensures |frame| >= PREFIX_SIZE && Loaded((frame + rest)[..4]) == |frame|
    ensures (frame + rest)[..|frame|] == frame && (frame + rest)[|frame|..] == rest
  {
    assert (frame + rest)[..4] == frame[..4];
  }

  // So the buffer can be read in one way only.
  lemma {:induction false} FramesAreDetermined(a: seq<Bytes>, b: seq<Bytes>)
    requires AllFramed(a) && AllFramed(b) && Joined(a) == Joined(b)
    ensures a == b
  {
    if a != [] && b != [] {
      FirstFrame(a, []);
      FirstFrame(b, []);
      assert Joined(a) + [] == Joined(a);
      assert Joined(a[1..]) + [] == Joined(a[1..]) && Joined(b[1..]) + [] == Joined(b[1..]);
      FramesAreDetermined(a[1..], b[1..]);
      assert a == [a[0]] + a[1..] && b == [b[0]] + b[1..];
    } else if a != [] {
      FirstFrame(a, []);
    } else if b != [] {
      FirstFrame(b, []);
    }
  }

  // ----- fragmentation -----

  function ChunkSize(length: nat): nat {
    if length > MSG_SIZE then MSG_SIZE else length
  }

  function Chunks(message: Bytes): seq<Bytes>
    decreases |message|
  {
    if message == [] then []
    else [message[..ChunkSize(|message|)]] + Chunks(message[ChunkSize(|message|)..])
  }

  // The payloads join up to the message; each fits a packet, and all but the last are full.
  lemma {:induction false} ChunksAreTheMessage(message: Bytes)
    ensures var c := Chunks(message);
      && Joined(c) == message
      && (forall i :: 0 <= i < |c| ==> 1 <= |c[i]| <= 65536 && (i < |c| - 1 ==> |c[i]| == 65536))
      && |c| == (|message| + 65535) / 65536
    decreases |message|
  {
    if message != [] {
      var n := ChunkSize(|message|);
      ChunksAreTheMessage(message[n..]);
      assert Chunks(message)[1..] == Chunks(message[n..]);
      assert message == message[..n] + message[n..];
    }
  }

  function Next(seqno: Word): Word {
    (seqno + 1) % 0x10000
  }

  function Advance(seqno: Word, n: nat): Word {
    (seqno + n) % 0x10000
  }

  lemma AdvanceOne(seqno: Word, n: nat)
    ensures Advance(seqno, n + 1) == Next(Advance(seqno, n))
    ensures if n == 0 then Advance(seqno, n) == seqno else Advance(Next(seqno), n - 1) == Advance(seqno, n)
  {
    Around(seqno + n);
    if n > 0 {
      if seqno == 0xFFFF { Around(0x10000 + (n - 1)); }
    }
  }

  // One number on, with or without the carry.
  lemma Around(x: nat)
    ensures (x + 1) % 0x10000 == if x % 0x10000 == 0xFFFF then 0 else x % 0x10000 + 1
    ensures x >= 0x10000 ==> x % 0x10000 == (x - 0x10000) % 0x10000
  {
  }

  // The frames of the chunks, numbered in order.
  function Frames(s: Sender, chunks: seq<Bytes>, seqno: Word, sum: Bytes -> Word): (r: seq<Bytes>)
    requires forall i :: 0 <= i < |chunks| ==> |chunks[i]| <= MSG_SIZE
    ensures |r| == |chunks|
  {
    if chunks == [] then []
    else [Frame(s, CODE_DATA, chunks[0], seqno, sum)] + Frames(s, chunks[1..], Next(seqno), sum)
  }

  lemma {:induction false} FrameAt(s: Sender, chunks: seq<Bytes>, seqno: Word, sum: Bytes -> Word, i: nat)
    requires forall i :: 0 <= i < |chunks| ==> |chunks[i]| <= MSG_SIZE
    requires i < |chunks|
    ensures Frames(s, chunks, seqno, sum)[i] == Frame(s, CODE_DATA, chunks[i], Advance(seqno, i), sum)
  {
    hide Frame, Advance;
    AdvanceOne(seqno, i);
    if i > 0 {
      FrameAt(s, chunks[1..], Next(seqno), sum, i - 1);
      assert chunks[1..][i - 1] == chunks[i];
    }
  }

  function MessageFrames(s: Sender, message: Bytes, seqno: Word, sum: Bytes -> Word): (r: seq<Bytes>)
    ensures |r| == |Chunks(message)|
  {
    ChunksAreTheMessage(message);
    Frames(s, Chunks(message), seqno, sum)
  }

  // ----- the receiver -----

  datatype Receiver = Receiver(kind: Byte, ident: int, port: Word, listening: bool)

  datatype Verdict = Rejected | Disconnected | Payload(data: Bytes)

  // check_packet on a packet whose IP header has been removed.
  function CheckPacket(r: Receiver, packet: Bytes, sum: Bytes -> Word): (Receiver, Verdict)
    requires |packet| >= HEADER_SIZE
  {
    var h, data := Unpack(packet), packet[HEADER_SIZE..];
    if h.kind != r.kind || h.checksum != sum(data) || h.ident == r.ident then (r, Rejected)
    else if h.port != r.port && !r.listening then (r, Rejected)
    else if h.code == CODE_CLOSE then (r.(port := h.port), Disconnected)
    else (r.(port := h.port), Payload(data))
  }

  // What makes a packet bad: another type, a wrong checksum, the identifier of the receiver
  // itself, or another port. Code 3 closes the connection.
  lemma CheckedIs(r: Receiver, packet: Bytes, sum: Bytes -> Word)
    requires |packet| >= 10
    ensures var (next, v) := CheckPacket(r, packet, sum);
      var port := packet[8] as int + 256 * (packet[9] as int);
      if packet[0] != r.kind || 256 * (packet[2] as int) + packet[3] as int != sum(packet[10..])
         || 256 * (packet[4] as int) + packet[5] as int == r.ident || (port != r.port && !r.listening)
      then v == Rejected && next == r
      else next == r.(port := port) && v == if packet[1] == 3 then Disconnected else Payload(packet[10..])
  {
    HeaderLayout(packet);
  }

  predicate Accepts(r: Receiver, s: Sender) {
    s.kind == r.kind && s.ident % 0x10000 != r.ident && (s.port == r.port || r.listening)
  }

  // A packet gets through to exactly the peers of its type and port that do not have the
  // identifier it carries, and then it delivers its payload or closes the connection.
  lemma AcceptedIff(s: Sender, r: Receiver, code: Byte, payload: Bytes, seqno: Word, sum: Bytes -> Word)
    ensures CheckPacket(r, Packet(s, code, payload, seqno, sum), sum) ==
      if s.kind != r.kind || s.ident % 65536 == r.ident || (s.port != r.port && !r.listening) then (r, Rejected)
      else (r.(port := s.port), if code == CODE_CLOSE then Disconnected else Payload(payload))
  {
    var h := Header(s.kind, code, sum(payload), s.ident % 0x10000, seqno, s.port);
    Unpacked(h, payload);
    assert (Pack(h) + payload)[HEADER_SIZE..] == payload;
  }

  // A socket recognizes its own packets as long as process and socket id add up to 16 bits.
  lemma OwnPacketRejectedIff(s: Sender, payload: Bytes, seqno: Word, sum: Bytes -> Word, listening: bool)
    ensures var r := Receiver(s.kind, s.ident, s.port, listening);
            CheckPacket(r, Packet(s, CODE_DATA, payload, seqno, sum), sum).1.Rejected? <==> 0 <= s.ident < 0x10000
  {
    AcceptedIff(s, Receiver(s.kind, s.ident, s.port, listening), CODE_DATA, payload, seqno, sum);
  }

  // What a receiver delivers of packets that arrive in order, up to a disconnection.
  function Deliver(r: Receiver, packets: seq<Bytes>, sum: Bytes -> Word): Bytes
    requires forall i :: 0 <= i < |packets| ==> |packets[i]| >= HEADER_SIZE
    decreases |packets|
  {
    if packets == [] then []
    else
      var (next, v) := CheckPacket(r, packets[0], sum);
      match v
      case Rejected => Deliver(next, packets[1..], sum)
      case Disconnected => []
      case Payload(data) => data + Deliver(next, packets[1..], sum)
  }

  // The packets of a message: its frames without their prefixes, as FramesHoldPackets says.
  function Packets(s: Sender, chunks: seq<Bytes>, seqno: Word, sum: Bytes -> Word): (r: seq<Bytes>)
    requires forall i :: 0 <= i < |chunks| ==> |chunks[i]| <= MSG_SIZE
    ensures |r| == |chunks| && forall i :: 0 <= i < |r| ==> |r[i]| >= HEADER_SIZE
  {
    seq(|chunks|, i requires 0 <= i < |chunks| => Packet(s, CODE_DATA, chunks[i], Advance(seqno, i), sum))
  }

  function Unframed(frames: seq<Bytes>): (r: seq<Bytes>)
    requires forall i :: 0 <= i < |frames| ==> |frames[i]| >= PREFIX_SIZE + HEADER_SIZE
    ensures |r| == |frames| && forall i :: 0 <= i < |r| ==> |r[i]| >= HEADER_SIZE
  {
    seq(|frames|, i requires 0 <= i < |frames| => frames[i][PREFIX_SIZE..])
  }

  lemma FramesHoldPackets(s: Sender, chunks: seq<Bytes>, seqno: Word, sum: Bytes -> Word, n: nat)
    requires forall k :: 0 <= k < |chunks| ==> |chunks[k]| <= MSG_SIZE
    requires n <= |chunks|
    ensures var frames := Frames(s, chunks, seqno, sum);
      && AllFramed(frames)
      && (forall i :: 0 <= i < n ==> HEADER_SIZE <= |frames[i]| - PREFIX_SIZE <= HEADER_SIZE + MSG_SIZE)
      && Unframed(frames[..n]) == Packets(s, chunks[..n], seqno, sum)
  {
    hide Packet;
    var frames := Frames(s, chunks, seqno, sum);
    forall i | 0 <= i < |chunks|
      ensures HEADER_SIZE <= |frames[i]| - PREFIX_SIZE <= HEADER_SIZE + MSG_SIZE && Framed(frames[i])
      ensures frames[i][PREFIX_SIZE..] == Packet(s, CODE_DATA, chunks[i], Advance(seqno, i), sum)
    {
      FrameAt(s, chunks, seqno, sum, i);
    }
    assert Unframed(frames[..n]) == Packets(s, chunks[..n], seqno, sum);
  }

  lemma {:induction false} DeliverChunks(s: Sender, r: Receiver, chunks: seq<Bytes>, seqno: Word, sum: Bytes -> Word)
    requires forall i :: 0 <= i < |chunks| ==> |chunks[i]| <= MSG_SIZE
    ensures Deliver(r, Packets(s, chunks, seqno, sum), sum) == if Accepts(r, s) then Joined(chunks) else []
    decreases |chunks|
  {
    hide Packet, CheckPacket;
    if chunks != [] {
      AcceptedIff(s, r, CODE_DATA, chunks[0], seqno, sum);
      RestOfPackets(s, chunks, seqno, sum);
      var next := if Accepts(r, s) then r.(port := s.port) else r;
      if Accepts(r, s) { StillAccepts(s, r); }
      DeliverChunks(s, next, chunks[1..], Next(seqno), sum);
    }
  }

  lemma StillAccepts(s: Sender, r: Receiver)
    requires Accepts(r, s)
    ensures Accepts(r.(port := s.port), s)
  {
  }

  lemma RestOfPackets(s: Sender, chunks: seq<Bytes>, seqno: Word, sum: Bytes -> Word)
    requires forall i :: 0 <= i < |chunks| ==> |chunks[i]| <= MSG_SIZE
    requires chunks != []
    ensures Packets(s, chunks, seqno, sum)
         == [Packet(s, CODE_DATA, chunks[0], seqno, sum)] + Packets(s, chunks[1..], Next(seqno), sum)
  {
    hide Packet;
    var (all, rest) := (Packets(s, chunks, seqno, sum), Packets(s, chunks[1..], Next(seqno), sum));
    forall i | 0 < i < |all| ensures all[i] == rest[i - 1] {
      assert chunks[1..][i - 1] == chunks[i] && Advance(Next(seqno), i - 1) == Advance(seqno, i);
    }
    assert Advance(seqno, 0) == seqno;
  }

  // End to end: of the first `n` frames of a message that leave the send buffer, a peer that
  // accepts the sender rebuilds exactly that part of the message, and any other peer nothing.
  lemma EndToEnd(s: Sender, r: Receiver, message: Bytes, seqno: Word, sum: Bytes -> Word, n: nat)
    requires n <= |Chunks(message)|
    ensures var frames := MessageFrames(s, message, seqno, sum);
      && AllFramed(frames)
      && (forall i :: 0 <= i < n ==> HEADER_SIZE <= |frames[i]| - PREFIX_SIZE <= HEADER_SIZE + MSG_SIZE)
      && var delivered := Deliver(r, Unframed(frames[..n]), sum);
      && (!Accepts(r, s) ==> delivered == [])
      && (Accepts(r, s) ==> delivered == message[..Min(n * MSG_SIZE, |message|)])
      && (Accepts(r, s) && n == |frames| ==> delivered == message)
  {
    hide Accepts;
    var chunks := Chunks(message);
    ChunksAreTheMessage(message);
    FramesHoldPackets(s, chunks, seqno, sum, n);
    DeliverChunks(s, r, chunks[..n], seqno, sum);
    FirstChunks(message, n);
  }

  function Min(a: nat, b: nat): nat {
    if a < b then a else b
  }

  lemma {:induction false} FirstChunks(message: Bytes, n: nat)
    requires n <= |Chunks(message)|
    ensures Joined(Chunks(message)[..n]) == message[..Min(n * MSG_SIZE, |message|)]
    decreases n
  {
    var chunks := Chunks(message);
    if n == 0 {
      assert chunks[..0] == [];
    } else {
      var size := ChunkSize(|message|);
      FirstChunks(message[size..], n - 1);
      assert chunks[..n][1..] == chunks[1..][..n - 1] && chunks[1..] == Chunks(message[size..]);
      var m := Min((n - 1) * MSG_SIZE, |message| - size);
      assert message[..size] + message[size..][..m] == message[..size + m];
    }
  }
}
