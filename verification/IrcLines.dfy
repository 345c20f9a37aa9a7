/**
  The request splitter of src/irc-core/irc-core.c: complete lines leave the receive buffer
  and are handed on, the unterminated rest is moved to its front.
*/
module IrcLines {

  import opened Octets

  const LF: Byte := 10
  const CR: Byte := 13

  // ----- what a stream of bytes contains -----

  // The position of the first line feed, or the length of the text if there is none.
  function LineEnd(s: Bytes): (n: nat)
    ensures n <= |s| && (forall i :: 0 <= i < n ==> s[i] != LF) && (n < |s| ==> s[n] == LF)
  {
    if s == [] || s[0] == LF then 0 else 1 + LineEnd(s[1..])
  }

  // A line without its terminator: one trailing carriage return goes with the line feed.
  function Stripped(line: Bytes): Bytes
  {
    if line != [] && line[|line| - 1] == CR then line[..|line| - 1] else line
  }

  function Requests(s: Bytes): seq<Bytes>
    decreases |s|
  {
    var n := LineEnd(s);
    if n == |s| then [] else [Stripped(s[..n])] + Requests(s[n + 1..])
  }

  // What follows the last line feed.
  function Tail(s: Bytes): Bytes
    decreases |s|
  {
    var n := LineEnd(s);
    if n == |s| then s else Tail(s[n + 1..])
  }

  lemma LineEndIs(s: Bytes, n: nat)
    requires n <= |s| && (forall i :: 0 <= i < n ==> s[i] != LF) && (n < |s| ==> s[n] == LF)
    ensures LineEnd(s) == n
  {
  }

  lemma NoLine(s: Bytes)
    requires LF !in s
    ensures LineEnd(s) == |s| && Requests(s) == [] && Tail(s) == s
  {
    LineEndIs(s, |s|);
  }

  // A terminated line at the front of a stream is its first request.
  lemma FirstLine(line: Bytes, rest: Bytes)
    requires LF !in line
    ensures Requests(line + [LF] + rest) == [Stripped(line)] + Requests(rest)
    ensures Tail(line + [LF] + rest) == Tail(rest)
  {
    var s := line + [LF] + rest;
    assert s[..|line|] == line;
    LineEndIs(s, |line|);
    assert s[|line| + 1..] == rest;
  }

  // The rest of a stream after all requests of `a` is the tail of `a` followed by the new bytes.
  lemma {:induction false} Resume(a: Bytes, b: Bytes)
    ensures Requests(a + b) == Requests(a) + Requests(Tail(a) + b)
    ensures Tail(a + b) == Tail(Tail(a) + b)
    decreases |a|
  {
    hide Requests, Tail, Stripped;
    var n := LineEnd(a);
    if n < |a| {
      var line, rest := a[..n], a[n + 1..];
      assert a == line + [LF] + rest;
      assert a + b == line + [LF] + (rest + b);
      FirstLine(line, rest);
      FirstLine(line, rest + b);
      Resume(rest, b);
      assert Requests(a) + Requests(Tail(a) + b) == [Stripped(line)] + (Requests(rest) + Requests(Tail(rest) + b));
    } else {
      NoLine(a);
      assert [] + Requests(a + b) == Requests(a + b);
    }
  }

  lemma {:induction false} TailIsUnterminated(s: Bytes)
    ensures LF !in Tail(s)
    ensures Requests(Tail(s)) == []
    decreases |s|
  {
    var n := LineEnd(s);
    if n == |s| {
      assert LF !in s;
    } else {
      TailIsUnterminated(s[n + 1..]);
    }
  }

  // Terminated lines followed by an unterminated rest are taken apart again: the requests and
  // the tail of a stream are determined by how it is put together, not by how it is read.
  lemma {:induction false} TakenApart(lines: seq<Bytes>, rest: Bytes)
    requires LF !in rest && forall i :: 0 <= i < |lines| ==> LF !in lines[i]
    ensures Requests(Terminated(lines) + rest) == seq(|lines|, i requires 0 <= i < |lines| => Stripped(lines[i]))
    ensures Tail(Terminated(lines) + rest) == rest
  {
    hide Requests, Tail, LineEnd, Stripped;
    if lines == [] {
      assert Terminated(lines) + rest == rest;
      NoLine(rest);
    } else {
      TakenApart(lines[1..], rest);
      FirstLine(lines[0], Terminated(lines[1..]) + rest);
      assert Terminated(lines) + rest == lines[0] + [LF] + (Terminated(lines[1..]) + rest);
    }
  }

  function Terminated(lines: seq<Bytes>): Bytes
  {
    if lines == [] then [] else lines[0] + [LF] + Terminated(lines[1..])
  }

  // Each line behind its own line feed, or carriage return and line feed.
  function Sent(lines: seq<Bytes>, crlf: seq<bool>): Bytes
    requires |crlf| == |lines|
  {
    if lines == [] then [] else lines[0] + (if crlf[0] then [13, 10] else [10]) + Sent(lines[1..], crlf[1..])
  }

  // Lines without terminators in them come out as they were sent, whichever terminator they had.
  lemma {:induction false} LinesComeBack(lines: seq<Bytes>, crlf: seq<bool>, rest: Bytes)
    requires |crlf| == |lines| && 10 !in rest
    requires forall i :: 0 <= i < |lines| ==> 10 !in lines[i] && (lines[i] != [] ==> lines[i][|lines[i]| - 1] != 13)
    ensures Requests(Sent(lines, crlf) + rest) == lines && Tail(Sent(lines, crlf) + rest) == rest
  {
    hide Requests, Tail, LineEnd;
    if lines == [] {
      assert Sent(lines, crlf) + rest == rest;
      NoLine(rest);
    } else {
      LinesComeBack(lines[1..], crlf[1..], rest);
      var line, more := lines[0], Sent(lines[1..], crlf[1..]) + rest;
      var raw := if crlf[0] then line + [13] else line;
      FirstLine(raw, more);
      assert Sent(lines, crlf) + rest == raw + [LF] + more;
      assert Stripped(raw) == line;
    }
  }

  // ----- the splitter -----

  // What one call does with the buffered bytes `s` when `handle` has been given `earlier`
  // before: the requests so far, the bytes left, and the value of the last handler.
  function Serve(handle: seq<Bytes> -> int, earlier: seq<Bytes>, s: Bytes): (seq<Bytes>, Bytes, int)
    decreases |s|
  {
    var n := LineEnd(s);
    if n == |s| then (earlier, s, 0)
    else
      var now := earlier + [Stripped(s[..n])];
      if handle(now) != 0 then (now, s[n + 1..], handle(now)) else Serve(handle, now, s[n + 1..])
  }

  // As long as the handlers return zero, a call serves all complete lines.
  lemma {:induction false} ServeAll(handle: seq<Bytes> -> int, earlier: seq<Bytes>, s: Bytes)
    requires forall k :: 0 <= k <= |Requests(s)| ==> handle(earlier + Requests(s)[..k]) == 0
    ensures Serve(handle, earlier, s) == (earlier + Requests(s), Tail(s), 0)
    decreases |s|
  {
    hide Serve, Requests, Tail, Stripped;
    var n := LineEnd(s);
    if n < |s| {
      var first, rest := Stripped(s[..n]), s[n + 1..];
      var now := earlier + [first];
      RequestsLine(s);
      ServeLine(handle, earlier, s);
      assert earlier + Requests(s)[..1] == now;
      forall k | 0 <= k <= |Requests(rest)| ensures handle(now + Requests(rest)[..k]) == 0 {
        assert now + Requests(rest)[..k] == earlier + Requests(s)[..k + 1];
      }
      ServeAll(handle, now, rest);
      assert now + Requests(rest) == earlier + Requests(s);
    } else {
      NoLine(s);
      UnterminatedServe(handle, earlier, s);
      assert earlier + [] == earlier;
    }
  }

  // In general a call serves the requests in order up to the first that fails and keeps the bytes
  // behind it; its value is that of the last handler.
  lemma {:induction false} ServeUpTo(handle: seq<Bytes> -> int, earlier: seq<Bytes>, s: Bytes) returns (n: nat)
    ensures n <= |Requests(s)|
    ensures var (now, rest, r) := Serve(handle, earlier, s);
      && now == earlier + Requests(s)[..n] && Requests(rest) == Requests(s)[n..] && Tail(rest) == Tail(s)
      && (forall k :: 0 < k < n ==> handle(earlier + Requests(s)[..k]) == 0)
      && (r == 0 ==> n == |Requests(s)| && rest == Tail(s))
      && (n > 0 ==> r == handle(now)) && (n == 0 ==> r == 0)
    decreases |s|
  {
    hide Serve, Requests, Tail, Stripped;
    if LineEnd(s) == |s| {
      NoLine(s);
      UnterminatedServe(handle, earlier, s);
      n := 0;
      assert earlier + [] == earlier;
    } else {
      RequestsLine(s);
      ServeFirst(handle, earlier, s);
      var first, rest := Stripped(s[..LineEnd(s)]), s[LineEnd(s) + 1..];
      var all, now := Requests(s), earlier + [first];
      assert all[..1] == [first] && all[1..] == Requests(rest);
      if handle(now) != 0 {
        n := 1;
      } else {
        var m := ServeUpTo(handle, now, rest);
        n := m + 1;
        ServedOneMore(earlier, all, m);
        forall k | 0 < k < n ensures handle(earlier + all[..k]) == 0 {
          assert earlier + all[..k] == now + Requests(rest)[..k - 1];
        }
      }
    }
  }

  lemma ServeFirst(handle: seq<Bytes> -> int, earlier: seq<Bytes>, s: Bytes)
    requires LineEnd(s) < |s|
    ensures var (now, rest) := (earlier + [Stripped(s[..LineEnd(s)])], s[LineEnd(s) + 1..]);
      Serve(handle, earlier, s) == if handle(now) != 0 then (now, rest, handle(now)) else Serve(handle, now, rest)
  {
  }

  lemma ServedOneMore(earlier: seq<Bytes>, all: seq<Bytes>, m: nat)
    requires m < |all|
    ensures earlier + all[..m + 1] == earlier + [all[0]] + all[1..][..m] && all[1..][m..] == all[m + 1..]
  {
  }

  lemma RequestsLine(s: Bytes)
    requires LineEnd(s) < |s|
    ensures Requests(s) == [Stripped(s[..LineEnd(s)])] + Requests(s[LineEnd(s) + 1..])
    ensures Tail(s) == Tail(s[LineEnd(s) + 1..])
  {
  }

  class Connection {
    const handle: seq<Bytes> -> int    // irc_handle_request, as a function of all requests so far
    var recvBuffer: array<Byte>
    var fill: nat
    var handled: seq<Bytes>            // the requests handed on so far

    ghost predicate Valid()
      reads this
    {
      fill <= recvBuffer.Length
    }

    ghost function Buffered(): Bytes
      reads this, recvBuffer
      requires Valid()
    {
      recvBuffer[..fill]
    }

    constructor (size: nat, handle: seq<Bytes> -> int)
      ensures Valid() && Buffered() == [] && handled == []
      ensures this.handle == handle && fresh(recvBuffer) && recvBuffer.Length == size
    {
      this.handle, fill, handled := handle, 0, [];
      recvBuffer := new Byte[size];
    }

    // The bytes of one read arrive behind those already buffered.
    method Receive(chunk: Bytes)
      requires Valid() && fill + |chunk| <= recvBuffer.Length
      modifies this`fill, recvBuffer
      ensures Valid() && Buffered() == old(Buffered()) + chunk
    {
      forall i | 0 <= i < |chunk| {
        recvBuffer[fill + i] := chunk[i];
      }
      fill := fill + |chunk|;
    }

    // irc_check_request
    method CheckRequest() returns (retval: int)
      requires Valid()
      modifies this`fill, this`handled, recvBuffer
      ensures Valid() && recvBuffer == old(recvBuffer)
      ensures (handled, Buffered(), retval) == Serve(handle, old(handled), old(Buffered()))
    {
      hide Serve, LineEnd, Stripped;
      retval := 0;
      var p, packet := 0, 0;
      ghost var s := Buffered();
      assert s[0..] == s;
      while p < fill && retval == 0
        invariant 0 <= packet <= p <= fill == |s| && recvBuffer[..fill] == s
        invariant packet < p ==> p == fill && retval == 0 && LF !in s[packet..]
        invariant retval == 0 ==> Serve(handle, old(handled), s) == Serve(handle, handled, s[packet..])
        invariant retval != 0 ==> Serve(handle, old(handled), s) == (handled, s[packet..], retval)
        decreases fill - p, if retval == 0 then 1 else 0
      {
        p := Scan(p);
        ScanLine(s, packet, p);
        if p < fill {
          var line := Line(packet, p);
          ServeLine(handle, handled, s[packet..]);
          handled := handled + [line];
          p := p + 1;
          retval := handle(handled);
          packet := p;
        }
      }
      if retval == 0 {
        UnterminatedServe(handle, handled, s[packet..]);
      }
      Shift(packet);
    }

    // The inner loop of the splitter.
    method Scan(start: nat) returns (p: nat)
      requires Valid() && start <= fill
      ensures start <= p <= fill && LF !in recvBuffer[start..p] && (p < fill ==> recvBuffer[p] == LF)
    {
      p := start;
      while p < fill && recvBuffer[p] != LF
        invariant start <= p <= fill && LF !in recvBuffer[start..p]
      {
        p := p + 1;
      }
    }

    // The request handed on for the line that ends at `p`.
    method Line(packet: nat, p: nat) returns (line: Bytes)
      requires Valid() && packet <= p < fill
      ensures line == Stripped(recvBuffer[..fill][packet..p])
    {
      var end := if p > packet && recvBuffer[p - 1] == CR then p - 1 else p;
      line := recvBuffer[packet..end];
      assert recvBuffer[..fill][packet..p] == recvBuffer[packet..p];
    }

    // The `memmove` of the bytes that are left.
    method Shift(packet: nat)
      requires Valid() && packet <= fill
      modifies this`fill, recvBuffer
      ensures Valid() && Buffered() == old(Buffered()[packet..])
    {
      if 0 < packet < fill {
        forall i | 0 <= i < fill - packet {
          recvBuffer[i] := recvBuffer[packet + i];
        }
      }
      fill := fill - packet;
    }
  }

  lemma ScanLine(s: Bytes, packet: nat, p: nat)
    requires packet <= p <= |s| && LF !in s[packet..p] && (p < |s| ==> s[p] == LF)
    ensures LineEnd(s[packet..]) == p - packet
    ensures s[packet..][..p - packet] == s[packet..p]
    ensures p < |s| ==> s[packet..][p - packet + 1..] == s[p + 1..]
    ensures p == |s| ==> s[packet..p] == s[packet..]
  {
    forall i | 0 <= i < p - packet ensures s[packet..][i] != LF {
      assert s[packet..][i] == s[packet..p][i];
    }
    LineEndIs(s[packet..], p - packet);
  }

  lemma ServeLine(handle: seq<Bytes> -> int, earlier: seq<Bytes>, s: Bytes)
    requires LineEnd(s) < |s|
    ensures var rest, now := s[LineEnd(s) + 1..], earlier + [Stripped(s[..LineEnd(s)])];
            Serve(handle, earlier, s) == if handle(now) != 0 then (now, rest, handle(now)) else Serve(handle, now, rest)
  {
  }

  lemma UnterminatedServe(handle: seq<Bytes> -> int, earlier: seq<Bytes>, s: Bytes)
    requires LF !in s
    ensures Serve(handle, earlier, s) == (earlier, s, 0)
  {
    NoLine(s);
  }

  // ----- independence of how the stream is cut -----

  // All chunks of a stream in turn, each read into the free part of the buffer and followed by
  // a call of the splitter.
  method Feed(c: Connection, chunks: seq<Bytes>)
    requires c.Valid() && c.Buffered() == [] && c.handled == []
    requires forall i :: 0 <= i < |chunks| ==> |Tail(Joined(chunks[..i]))| + |chunks[i]| <= c.recvBuffer.Length
    requires forall h :: c.handle(h) == 0
    modifies c, c.recvBuffer
    ensures c.Valid()
    ensures c.handled == Requests(Joined(chunks)) && c.Buffered() == Tail(Joined(chunks))
  {
    var i := 0;
    TailIsUnterminated([]);
    while i < |chunks|
      invariant i <= |chunks| && c.Valid() && c.recvBuffer == old(c.recvBuffer)
      invariant c.handled == Requests(Joined(chunks[..i])) && c.Buffered() == Tail(Joined(chunks[..i]))
    {
      ghost var seen := Joined(chunks[..i]);
      JoinedNext(chunks, i);
      c.Receive(chunks[i]);
      ServeAll(c.handle, c.handled, c.Buffered());
      Resume(seen, chunks[i]);
      var _ := c.CheckRequest();
      i := i + 1;
    }
    assert chunks[..i] == chunks;
  }
}
