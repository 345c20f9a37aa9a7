/**
  Strings in buffers of characters, up to a terminating NUL.
*/
module CStrings {
  type Char = bv8
  type Chars = seq<Char>

  // The C string at the front of a buffer.
  function CString(buffer: Chars): (r: Chars)
    requires 0 in buffer
    ensures |r| < |buffer| && r == buffer[..|r|] && buffer[|r|] == 0 && 0 !in r
  {
    if buffer[0] == 0 then [] else [buffer[0]] + CString(buffer[1..])
  }

  lemma {:induction false} CStringIs(buffer: Chars, n: nat)
    requires n < |buffer| && buffer[n] == 0 && 0 !in buffer[..n]
    ensures CString(buffer) == buffer[..n]
  {
    if n > 0 {
      assert buffer[..n][0] == buffer[0] && buffer[1..][..n - 1] == buffer[..n][1..];
      CStringIs(buffer[1..], n - 1);
    }
  }

  // Nothing behind a terminator matters.
  lemma {:induction false} CStringOf(a: Chars, b: Chars, n: nat)
    requires n < |a| && n < |b| && a[n] == b[n] == 0 && a[..n] == b[..n]
    ensures CString(a) == CString(b)
  {
    if n > 0 {
      assert a[..n][0] == a[0] && b[..n][0] == b[0];
      assert a[1..][..n - 1] == a[..n][1..] && b[1..][..n - 1] == b[..n][1..];
      CStringOf(a[1..], b[1..], n - 1);
    }
  }
}
