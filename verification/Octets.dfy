/**
  Bytes, and what a stream carries that is handed over piece by piece.
*/
module Octets {
  type Byte = c: int | 0 <= c < 256
  type Bytes = seq<Byte>

  function Joined(chunks: seq<Bytes>): Bytes
  {
    if chunks == [] then [] else chunks[0] + Joined(chunks[1..])
  }

  lemma {:induction false} JoinedConcat(a: seq<Bytes>, b: seq<Bytes>)
    ensures Joined(a + b) == Joined(a) + Joined(b)
  {
    if a == [] {
      assert a + b == b;
    } else {
      assert (a + b)[1..] == a[1..] + b;
      JoinedConcat(a[1..], b);
    }
  }

  lemma JoinedOne(chunk: Bytes)
    ensures Joined([chunk]) == chunk
  {
    assert [chunk][1..] == [];
  }

  lemma JoinedNext(chunks: seq<Bytes>, i: nat)
    requires i < |chunks|
    ensures Joined(chunks[..i + 1]) == Joined(chunks[..i]) + chunks[i]
  {
    assert chunks[..i + 1] == chunks[..i] + [chunks[i]];
    JoinedConcat(chunks[..i], [chunks[i]]);
    JoinedOne(chunks[i]);
  }
}
