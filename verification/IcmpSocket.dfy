/**
  The sockets of src/libserveez/icmp-socket.c: messages are queued as whole frames, a frame at
  a time is handed to the network, and received packets are checked and collected.
*/
module IcmpSocket {
  import opened IcmpPackets
  import opened Octets
  import opened Options

  // What `send` or `sendto` comes back with.
  datatype Outcome = Sent | Unavailable | Failed

  // The result of a call in which the assertion of svz_icmp_write_socket fails.
  const ABORTED := -2

  // The beginning of a frame announces more than there is.
  predicate Partial(torn: Bytes) {
    |torn| >= 4 ==> Loaded(torn[..4]) > |torn|
  }

  class Socket {
    const kind: Byte
    const ident: int                       // process id plus socket id
    const connected: bool
    const listening: bool
    const sum: Bytes -> Word               // svz_raw_ip_checksum
    var address: Address
    var port: Word
    var sendSeq: Word
    var killed: bool
    const sendBuffer: array<Byte>
    var sendFill: nat
    const recvBuffer: array<Byte>
    var recvFill: nat

    var wire: seq<Bytes>                   // frames handed to the network
    ghost var queue: seq<Bytes>            // whole frames in the send buffer
    ghost var torn: Bytes                  // the beginning of a frame behind them
    ghost var handed: seq<Bytes>           // what the application has taken

    ghost predicate Buffered()
      reads this, sendBuffer
    {
      && sendFill <= sendBuffer.Length && recvFill <= recvBuffer.Length && sendBuffer != recvBuffer
      && (connected ==> sendBuffer.Length >= 4)
      && sendBuffer[..sendFill] == Joined(queue) + torn
      && AllFramed(queue)
    }

    // The send buffer holds whole frames, unless the socket is about to be closed.
    ghost predicate Valid()
      reads this, sendBuffer
    {
      Buffered() && (killed || torn == [])
    }

    ghost function Traffic(): seq<Bytes>
      reads this
    {
      wire + queue
    }

    // All bytes that have been accepted for the application.
    ghost function Stream(): Bytes
      reads this, recvBuffer
      requires recvFill <= recvBuffer.Length
    {
      Joined(handed) + recvBuffer[..recvFill]
    }

    function Source(): Sender
      reads this
    {
      Sender(kind, ident, address, port)
    }

    function Peer(): Receiver
      reads this
    {
      Receiver(kind, ident, port, listening)
    }

    constructor (kind: Byte, ident: int, address: Address, port: Word, connected: bool, listening: bool,
                 sendSize: nat, recvSize: nat, sum: Bytes -> Word)
      requires connected ==> sendSize >= 4
      ensures Valid() && !killed && Traffic() == [] && Stream() == [] && fresh(sendBuffer) && fresh(recvBuffer)
      ensures Source() == Sender(kind, ident, address, port) && Peer() == Receiver(kind, ident, port, listening)
      ensures this.connected == connected && sendBuffer.Length == sendSize && recvBuffer.Length == recvSize
    {
      this.kind, this.ident, this.address, this.port := kind, ident, address, port;
      this.connected, this.listening, this.sum := connected, listening, sum;
      sendSeq, killed, sendFill, recvFill := 0, false, 0, 0;
      sendBuffer, recvBuffer := new Byte[sendSize], new Byte[recvSize];
      wire, queue, torn, handed := [], [], [], [];
    }

    // svz_icmp_write_socket: the first frame leaves the buffer or nothing does. The assertion
    // fails if and only if there is no whole frame in the buffer.
    method WriteSocket(outcome: Outcome) returns (r: int)
      requires Buffered() && Partial(torn) && (queue == [] ==> torn == [] || |torn| >= 4)
      modifies this`sendFill, this`queue, this`wire, sendBuffer
      ensures Buffered() && Traffic() == old(Traffic()) && old(wire) <= wire
      ensures outcome.Sent? && old(queue) != [] ==>
        queue == old(queue[1..]) && sendFill == old(sendFill) - |old(queue)[0]|
      ensures !outcome.Sent? || old(queue) == [] ==> queue == old(queue) && sendFill == old(sendFill)
      ensures r == ABORTED <==> old(queue) == [] && torn != []
      ensures r == -1 <==> old(queue) != [] && outcome.Failed?
      ensures r in {0, -1, ABORTED}
    {
      hide Framed, Joined;
      if sendFill == 0 {
        Emptied();
        return 0;
      }
      Front();
      var doWrite := Loaded(sendBuffer[..4]);
      if doWrite > sendFill {
        return ABORTED;
      }
      if outcome.Sent? {
        wire, queue := wire + [sendBuffer[..doWrite]], queue[1..];
        Consume(doWrite);
      }
      return if outcome.Failed? then -1 else 0;
    }

    lemma Emptied()
      requires Buffered() && sendFill == 0
      ensures queue == [] && torn == []
    {
      if queue != [] { FirstFrame(queue, torn); }
    }

    // What is at the front of the buffer.
    lemma Front()
      requires Buffered() && Partial(torn) && sendFill > 0 && (queue == [] ==> torn == [] || |torn| >= 4)
      ensures 4 <= sendFill
      ensures queue == [] ==> torn != [] && Loaded(sendBuffer[..4]) > sendFill
      ensures queue != [] ==> var n := Loaded(sendBuffer[..4]);
        n <= sendFill && sendBuffer[..n] == queue[0] && sendBuffer[..sendFill][n..] == Joined(queue[1..]) + torn
    {
      var buffer := sendBuffer[..sendFill];
      if queue == [] { assert torn == buffer; } else { FirstFrame(queue, torn); }
      assert buffer[..4] == sendBuffer[..4];
      if queue != [] { assert buffer[..|queue[0]|] == sendBuffer[..|queue[0]|]; }
    }

    // The `memmove` of the frames that are left.
    method Consume(n: nat)
      requires n <= sendFill <= sendBuffer.Length
      modifies this`sendFill, sendBuffer
      ensures sendFill == old(sendFill) - n && sendBuffer[..sendFill] == old(sendBuffer[..sendFill][n..])
    {
      if sendFill > n {
        forall i | 0 <= i < sendFill - n {
          sendBuffer[i] := sendBuffer[n + i];
        }
      }
      sendFill := sendFill - n;
    }

    // The `memcpy` to the end of the send buffer.
    method Append(part: Bytes)
      requires sendFill + |part| <= sendBuffer.Length
      modifies this`sendFill, sendBuffer
      ensures sendFill == old(sendFill) + |part| && sendBuffer[..sendFill] == old(sendBuffer[..sendFill]) + part
    {
      forall i | 0 <= i < |part| {
        sendBuffer[sendFill + i] := part[i];
      }
      sendFill := sendFill + |part|;
    }

    // svz_sock_write for one frame: it is queued behind the others, or the socket overflows or
    // breaks with a part of it in the buffer; no other frame is lost, repeated or moved. With
    // `ready` the network takes every frame.
    method SockWrite(frame: Bytes, ready: bool) returns (r: int)
      requires Valid() && Framed(frame)
      modifies this`sendFill, this`queue, this`wire, this`torn, sendBuffer
      ensures Buffered() && r in {0, -1, ABORTED} && old(wire) <= wire
      ensures killed ==> r == 0 && Traffic() == old(Traffic()) && torn == old(torn)
      ensures !killed && r == 0 ==> Traffic() == old(Traffic()) + [frame] && torn == []
      ensures !killed && r != 0 ==> Traffic() == old(Traffic()) && torn < frame
      ensures !killed && !connected ==> (r == 0 <==> old(sendFill) + |frame| <= sendBuffer.Length)
      ensures r == ABORTED ==> connected && |frame| > sendBuffer.Length
      ensures !killed && connected && ready ==> r == if |frame| > sendBuffer.Length then ABORTED else 0
    {
      if killed {
        return 0;
      }
      hide Joined, AllFramed, Framed, Partial;
      var done := 0;
      while done < |frame|
        invariant done <= |frame| && done <= sendFill && Buffered() && torn == frame[..done]
        invariant Traffic() == old(Traffic()) && old(wire) <= wire
        invariant 0 < done < |frame| ==> sendFill == sendBuffer.Length
        invariant !connected && done < |frame| ==> sendFill == old(sendFill) + done
        invariant !connected && done == |frame| ==> old(sendFill) + |frame| <= sendBuffer.Length
        invariant !connected && 0 < done < |frame| ==> old(sendFill) + |frame| > sendBuffer.Length
      {
        PartOfFrame(frame, done);
        r := Flush(ready);
        if r != 0 {
          return;
        }
        if sendFill >= sendBuffer.Length {
          return -1;
        }
        var n := Push(frame, done);
        done := done + n;
      }
      assert torn == frame;
      Complete();
      return 0;
    }

    // When the buffer is flushed while a frame is being queued: there is no whole frame in the
    // buffer only if a part of the frame fills it, so that the frame is longer than the buffer.
    lemma PartOfFrame(frame: Bytes, done: nat)
      requires Buffered() && Framed(frame) && done < |frame| && torn == frame[..done]
      requires 0 < done ==> sendFill == sendBuffer.Length
      ensures Partial(torn)
      ensures queue == [] && torn != [] ==> |torn| == sendFill == sendBuffer.Length < |frame|
      ensures queue == [] && torn == [] <==> sendFill == 0
    {
      assert |sendBuffer[..sendFill]| == |Joined(queue)| + |torn|;
      if queue != [] { FirstFrame(queue, torn); }
      if done >= 4 { assert torn[..4] == frame[..4]; }
    }

    // So the assertion fails there if and only if there is no whole frame, and then the frame
    // does not fit the buffer.
    lemma AssertionFailsIff(frame: Bytes, done: nat)
      requires Buffered() && connected && Framed(frame) && 0 < done < |frame| && torn == frame[..done]
      requires sendFill == sendBuffer.Length
      ensures Loaded(sendBuffer[..4]) > sendFill <==> queue == []
      ensures queue == [] ==> |frame| > sendBuffer.Length
    {
      PartOfFrame(frame, done);
      assert sendBuffer[..sendFill][..4] == sendBuffer[..4];
      if queue == [] { assert torn == sendBuffer[..sendFill]; } else { FirstFrame(queue, torn); }
    }

    // The attempt to empty the queue before something is added to it.
    method Flush(ready: bool) returns (r: int)
      requires Buffered() && Partial(torn) && (connected && queue == [] ==> torn == [] || |torn| >= 4)
      modifies this`sendFill, this`queue, this`wire, sendBuffer
      ensures Buffered() && Traffic() == old(Traffic()) && old(wire) <= wire && r in {0, -1, ABORTED}
      ensures !connected ==> r == 0 && sendFill == old(sendFill)
      ensures r == ABORTED ==> connected && old(queue) == [] && torn != []
      ensures r == 0 ==> |torn| <= sendFill
      ensures connected && ready && (old(queue) != [] || torn == []) ==> r == 0
      ensures connected && ready && old(queue) != [] ==> sendFill < old(sendFill)
      ensures connected && ready && old(queue) == [] ==> sendFill == old(sendFill)
      ensures connected && ready && old(queue) == [] && torn != [] ==> r == ABORTED
    {
      r := 0;
      assert |sendBuffer[..sendFill]| == |Joined(queue)| + |torn|;
      if queue != [] { FirstFrame(queue, torn); }
      var available := *;
      var outcome := *;
      if ready {
        available, outcome := true, Sent;
      }
      if connected && available && sendFill > 0 {
        r := WriteSocket(outcome);
        assert |sendBuffer[..sendFill]| == |Joined(queue)| + |torn|;
      }
    }

    // As much of the rest of the frame as there is space for.
    method Push(frame: Bytes, done: nat) returns (n: nat)
      requires Buffered() && done < |frame| && torn == frame[..done] && sendFill < sendBuffer.Length
      modifies this`sendFill, this`torn, sendBuffer
      ensures Buffered() && 0 < n <= |frame| - done && torn == frame[..done + n]
      ensures sendFill == old(sendFill) + n <= sendBuffer.Length
      ensures done + n < |frame| ==> sendFill == sendBuffer.Length
    {
      hide AllFramed, Framed;
      var left := |frame| - done;
      n := if sendFill + left < sendBuffer.Length then left else sendBuffer.Length - sendFill;
      var part := frame[done..done + n];
      Append(part);
      assert Joined(queue) + torn + part == Joined(queue) + (torn + part);
      torn := torn + part;
    }

    // Ghost step: the part has become a whole frame.
    ghost method Complete()
      requires Buffered() && Framed(torn)
      modifies this`queue, this`torn
      ensures Buffered() && torn == [] && wire == old(wire) && queue == old(queue) + [old(torn)]
    {
      JoinedConcat(queue, [torn]);
      JoinedOne(torn);
      queue, torn := queue + [torn], [];
    }

    // svz_icmp_send_control
    method SendControl(code: Byte) returns (ret: int)
      requires Valid()
      modifies this`sendFill, this`queue, this`wire, this`torn, this`killed, sendBuffer
      ensures Buffered() && old(wire) <= wire && ret in {0, -1, ABORTED} && (ret != ABORTED ==> Valid())
      ensures !old(killed) && ret == 0 ==>
        !killed && Traffic() == old(Traffic()) + [Frame(Source(), code, [], sendSeq, sum)]
      ensures old(killed) || ret != 0 ==> Traffic() == old(Traffic())
      ensures old(killed) || ret == -1 ==> killed
      ensures ret == ABORTED ==> connected && PREFIX_SIZE + HEADER_SIZE > sendBuffer.Length
    {
      var frame := Frame(Source(), code, [], sendSeq, sum);
      ret := SockWrite(frame, false);
      if ret == -1 {
        killed := true;
      }
    }

    // svz_icmp_write: the frames of all chunks in order, or of the first few and then the end
    // of the socket, or of the program if a frame does not fit the buffer.
    method Write(message: Bytes) returns (ret: int)
      requires Valid()
      modifies this`sendFill, this`queue, this`wire, this`torn, this`killed, this`sendSeq, sendBuffer
      ensures Buffered() && old(wire) <= wire && ret in {0, -1, ABORTED} && (ret != ABORTED ==> Valid())
      ensures old(killed) ==> ret == 0 && Traffic() == old(Traffic()) && sendSeq == old(sendSeq)
      ensures !old(killed) && ret == 0 ==> !killed && sendSeq == Advance(old(sendSeq), |Chunks(message)|)
      ensures !old(killed) && ret == 0 ==>
        Traffic() == old(Traffic()) + MessageFrames(Source(), message, old(sendSeq), sum)
      ensures !old(killed) && ret != 0 ==>
        CutShort(old(Traffic()), MessageFrames(Source(), message, old(sendSeq), sum), Traffic(), torn)
      ensures ret == -1 ==> killed
      ensures ret == ABORTED ==> connected && PREFIX_SIZE + HEADER_SIZE + ChunkSize(|message|) > sendBuffer.Length
    {
      hide Frame, AllFramed, Framed, Joined, Advance, Chunks, ChunkSize, MessageFrames, Buffered;
      ret := 0;
      if killed {
        return;
      }
      var buf, n := message, 0;
      ghost var frames := MessageFrames(Source(), message, sendSeq, sum);
      Start(message, sendSeq);
      assert frames[..0] == [];
      while buf != []
        invariant Valid() && !killed && ret == 0 && ChunkSize(|buf|) <= ChunkSize(|message|)
        invariant n <= |Chunks(message)| == |frames| && Chunks(message)[n..] == Chunks(buf)
        invariant buf == [] ==> n == |frames|
        invariant Traffic() == old(Traffic()) + frames[..n] && sendSeq == Advance(old(sendSeq), n)
        invariant old(wire) <= wire
        decreases |buf|
      {
        NextFrame(Source(), message, old(sendSeq), sum, buf, n);
        ret := WriteChunk(buf[..ChunkSize(|buf|)]);
        if ret != 0 {
          return;
        }
        buf := buf[ChunkSize(|buf|)..];
        assert frames[..n + 1] == frames[..n] + [frames[n]];
        n := n + 1;
      }
      assert frames[..n] == frames;
    }

    // read_socket for a packet of `data`, whose IP header is `header` bytes long if it is sound;
    // `taken` tells whether the application takes what it is offered then.
    method ReadSocket(data: Bytes, header: Option<nat>, taken: bool) returns (r: int)
      requires Valid() && (header.Some? ==> header.value + HEADER_SIZE <= |data|)
      modifies this`port, this`recvFill, this`handed, recvBuffer
      ensures Valid() && r in {0, -1}
      ensures header.None? ==> r == 0 && Peer() == old(Peer()) && Stream() == old(Stream())
      ensures header.Some? ==> Peer() == CheckPacket(old(Peer()), data[header.value..], sum).0
      ensures header.Some? ==> match CheckPacket(old(Peer()), data[header.value..], sum).1
        case Rejected => r == 0 && Stream() == old(Stream())
        case Disconnected => r == -1 && Stream() == old(Stream())
        case Payload(d) =>
          && (r == 0 <==> old(recvFill) + |d| <= recvBuffer.Length)
          && Stream() == old(Stream()) + if r == 0 then d else []
      ensures recvFill == 0 || recvFill == old(recvFill) || (!taken && recvFill >= old(recvFill))
    {
      r := 0;
      if header.Some? {
        var (next, v) := CheckPacket(Peer(), data[header.value..], sum);
        port := next.port;
        if v.Disconnected? {
          r := -1;
        } else if v.Payload? {
          r := Collect(v.data, taken);
        }
      }
    }

    // The payload goes to the end of the receive buffer, which the application may empty.
    method Collect(payload: Bytes, taken: bool) returns (r: int)
      requires Valid()
      modifies this`recvFill, this`handed, recvBuffer
      ensures Valid() && r == if old(recvFill) + |payload| <= recvBuffer.Length then 0 else -1
      ensures Stream() == old(Stream()) + if r == 0 then payload else []
      ensures recvFill == if r == -1 then old(recvFill) else if taken then 0 else old(recvFill) + |payload|
    {
      if |payload| > recvBuffer.Length - recvFill {
        return -1;
      }
      forall i | 0 <= i < |payload| {
        recvBuffer[recvFill + i] := payload[i];
      }
      recvFill := recvFill + |payload|;
      assert recvBuffer[..recvFill] == old(recvBuffer[..recvFill]) + payload;
      if taken {
        JoinedConcat(handed, [recvBuffer[..recvFill]]);
        JoinedOne(recvBuffer[..recvFill]);
        handed, recvFill := handed + [recvBuffer[..recvFill]], 0;
      }
      return 0;
    }

    // One pass of the loop: a data frame is built, numbered and queued.
    method WriteChunk(chunk: Bytes) returns (ret: int)
      requires Valid() && !killed && |chunk| <= MSG_SIZE
      modifies this`sendFill, this`queue, this`wire, this`torn, this`killed, this`sendSeq, sendBuffer
      ensures Buffered() && old(wire) <= wire && ret in {0, -1, ABORTED} && (ret != ABORTED ==> Valid())
      ensures (killed <==> ret == -1) && sendSeq == Next(old(sendSeq))
      ensures ret == ABORTED ==> connected && PREFIX_SIZE + HEADER_SIZE + |chunk| > sendBuffer.Length
      ensures var frame := Frame(Source(), CODE_DATA, chunk, old(sendSeq), sum);
        if ret == 0 then Traffic() == old(Traffic()) + [frame] else Traffic() == old(Traffic()) && torn < frame
    {
      var frame := Frame(Source(), CODE_DATA, chunk, sendSeq, sum);
      sendSeq := Next(sendSeq);
      ret := SockWrite(frame, false);
      if ret == -1 {
        killed := true;
      }
    }
  }

  // ----- from one socket to another -----

  // The network takes every frame in the send buffer.
  method Drain(a: Socket)
    requires a.Valid() && !a.killed
    modifies a`sendFill, a`queue, a`wire, a.sendBuffer
    ensures a.Valid() && a.queue == [] && a.wire == old(a.Traffic())
  {
    hide AllFramed, Framed;
    QueueIsBuffer(a);
    while a.sendFill > 0
      invariant a.Buffered() && a.torn == [] && a.Traffic() == old(a.Traffic())
      invariant a.sendFill > 0 <==> a.queue != []
      decreases |a.queue|
    {
      var r := a.WriteSocket(Sent);
      QueueIsBuffer(a);
    }
  }

  lemma QueueIsBuffer(a: Socket)
    requires a.Buffered() && a.torn == []
    ensures a.sendFill > 0 <==> a.queue != []
  {
    assert |a.sendBuffer[..a.sendFill]| == |Joined(a.queue)|;
    if a.queue != [] { FirstFrame(a.queue, []); }
  }

  // The packets arrive in order behind the same IP header, until one closes the connection; the
  // application takes what it is offered.
  method Arrive(b: Socket, packets: seq<Bytes>, ip: Bytes)
    requires b.Valid()
    requires forall i :: 0 <= i < |packets| ==> HEADER_SIZE <= |packets[i]|
    requires forall i :: 0 <= i < |packets| ==> b.recvFill + |packets[i]| - HEADER_SIZE <= b.recvBuffer.Length
    modifies b`port, b`recvFill, b`handed, b.recvBuffer
    ensures b.Valid() && b.Stream() == old(b.Stream()) + Deliver(old(b.Peer()), packets, b.sum)
  {
    hide CheckPacket;
    var i := 0;
    while i < |packets|
      invariant i <= |packets| && b.Valid() && b.recvFill <= old(b.recvFill)
      invariant b.Stream() + Deliver(b.Peer(), packets[i..], b.sum)
             == old(b.Stream()) + Deliver(old(b.Peer()), packets, b.sum)
    {
      var data := ip + packets[i];
      assert data[|ip|..] == packets[i] && packets[i..][1..] == packets[i + 1..];
      PayloadSize(b.Peer(), packets[i], b.sum);
      var r := b.ReadSocket(data, Some(|ip|), true);
      if r == -1 {
        return;
      }
      i := i + 1;
    }
  }

  lemma PayloadSize(r: Receiver, packet: Bytes, sum: Bytes -> Word)
    requires |packet| >= HEADER_SIZE
    ensures var v := CheckPacket(r, packet, sum).1; v.Payload? ==> |v.data| == |packet| - HEADER_SIZE
  {
  }

  // What has gone out since is the beginning of the frames of the message.
  lemma OnTheWay(before: seq<Bytes>, frames: seq<Bytes>, wire: seq<Bytes>, queue: seq<Bytes>)
    requires before <= wire && wire + queue <= before + frames
    ensures |wire| - |before| <= |frames| && wire[|before|..] == frames[..|wire| - |before|]
  {
    forall i | |before| <= i < |wire| ensures wire[i] == frames[i - |before|] {
      assert (wire + queue)[i] == (before + frames)[i];
    }
  }

  // The frames of a message that go out, all of them unless writing it fails.
  method Send(a: Socket, message: Bytes) returns (ret: int, out: seq<Bytes>)
    requires a.Valid()
    modifies a`sendFill, a`queue, a`wire, a`torn, a`killed, a`sendSeq, a.sendBuffer
    ensures ret != ABORTED ==> a.Valid()
    ensures out <= MessageFrames(a.Source(), message, old(a.sendSeq), a.sum)
    ensures ret == 0 && !old(a.killed) ==> |out| == |Chunks(message)|
  {
    if a.killed {
      return 0, [];
    }
    hide MessageFrames, Chunks, CutShort, Socket.Buffered;
    Drain(a);
    var sent := |a.wire|;
    ret := Emit(a, message);
    out := a.wire[sent..];
  }

  method Emit(a: Socket, message: Bytes) returns (ret: int)
    requires a.Valid() && !a.killed && a.queue == []
    modifies a`sendFill, a`queue, a`wire, a`torn, a`killed, a`sendSeq, a.sendBuffer
    ensures ret != ABORTED ==> a.Valid()
    ensures old(a.wire) <= a.wire
    ensures a.wire[|old(a.wire)|..] <= MessageFrames(a.Source(), message, old(a.sendSeq), a.sum)
    ensures ret == 0 ==> |a.wire| == |old(a.wire)| + |Chunks(message)|
  {
    hide MessageFrames, Chunks, CutShort, Socket.Buffered;
    ghost var before := a.wire;
    ghost var frames := MessageFrames(a.Source(), message, a.sendSeq, a.sum);
    assert a.Traffic() == before;
    ret := a.Write(message);
    if ret == 0 {
      Drain(a);
    } else {
      PartOnTheWay(before, frames, a.wire, a.queue, a.torn);
    }
    OnTheWay(before, frames, a.wire, a.queue);
  }

  lemma PartOnTheWay(before: seq<Bytes>, frames: seq<Bytes>, wire: seq<Bytes>, queue: seq<Bytes>, torn: Bytes)
    requires CutShort(before, frames, wire + queue, torn)
    ensures wire + queue <= before + frames
  {
  }

  // A message written on one socket arrives whole at any other that accepts its packets, and
  // not at all at the rest; if writing it fails, the frames already on the way arrive.
  method Transfer(a: Socket, b: Socket, message: Bytes, ip: Bytes) returns (ret: int, n: nat)
    requires a.Valid() && b.Valid() && a != b && a.sum == b.sum
    requires {a.sendBuffer, a.recvBuffer} !! {b.sendBuffer, b.recvBuffer}
    requires b.recvFill + MSG_SIZE <= b.recvBuffer.Length
    modifies a`sendFill, a`queue, a`wire, a`torn, a`killed, a`sendSeq, a.sendBuffer
    modifies b`port, b`recvFill, b`handed, b.recvBuffer
    ensures b.Valid() && n <= |Chunks(message)| && (ret != ABORTED ==> a.Valid())
    ensures b.Stream() == old(b.Stream()) +
      if Accepts(old(b.Peer()), old(a.Source())) then message[..Min(n * MSG_SIZE, |message|)] else []
    ensures ret == 0 && !old(a.killed) ==>
      b.Stream() == old(b.Stream()) + if Accepts(old(b.Peer()), old(a.Source())) then message else []
  {
    hide Frame, Framed, AllFramed, MessageFrames, Chunks, ChunkSize, Joined, Deliver, Accepts;
    var out: seq<Bytes>;
    ret, out := Send(a, message);
    n := |out|;
    assert out == MessageFrames(a.Source(), message, old(a.sendSeq), a.sum)[..n];
    EndToEnd(a.Source(), b.Peer(), message, old(a.sendSeq), a.sum, n);
    Arrive(b, Unframed(out), ip);
  }

  // Only the first frames went into the traffic, followed in the buffer by part of the next.
  ghost predicate CutShort(before: seq<Bytes>, frames: seq<Bytes>, after: seq<Bytes>, torn: Bytes) {
    exists n :: 0 <= n < |frames| && after == before + frames[..n] && torn < frames[n]
  }

  lemma Start(message: Bytes, seqno: Word)
    ensures Chunks(message)[0..] == Chunks(message) && Advance(seqno, 0) == seqno
    ensures message == [] ==> Chunks(message) == []
  {
  }

  // What the next pass queues is the next frame of the message.
  lemma NextFrame(s: Sender, message: Bytes, seqno: Word, sum: Bytes -> Word, buf: Bytes, n: nat)
    requires n <= |Chunks(message)| && Chunks(message)[n..] == Chunks(buf) && buf != []
    ensures n < |Chunks(message)| && 0 < ChunkSize(|buf|) <= |buf| && ChunkSize(|buf|) <= MSG_SIZE
    ensures var rest := buf[ChunkSize(|buf|)..];
      && Chunks(message)[n + 1..] == Chunks(rest) && ChunkSize(|rest|) <= ChunkSize(|buf|)
      && (rest == [] ==> n + 1 == |Chunks(message)|)
    ensures Advance(seqno, n + 1) == Next(Advance(seqno, n))
    ensures MessageFrames(s, message, seqno, sum)[n]
         == Frame(s, CODE_DATA, buf[..ChunkSize(|buf|)], Advance(seqno, n), sum)
  {
    hide Frame, Advance;
    var chunks := Chunks(message);
    ChunksAreTheMessage(message);
    assert chunks[n..][0] == chunks[n] && chunks[n..][1..] == chunks[n + 1..];
    FrameAt(s, chunks, seqno, sum, n);
    AdvanceOne(seqno, n);
  }
}
