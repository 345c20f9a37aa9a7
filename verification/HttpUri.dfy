/**
  Percent encoding of file names (src/http-server/http-dirlist.c) and the decoding of request
  URIs in place (src/http-server/http-core.c).
*/
module HttpUri {
  import opened CStrings

  const PERCENT: Char := 37

  // ----- encoding -----

  predicate Safe(c: Char) {
    97 <= c <= 122 || 65 <= c <= 90 || 48 <= c <= 57 || c == 32 || c == 47 || c == 46 || c == 95
  }

  // One digit of "%02X".
  function Digit(n: Char): (c: Char)
    requires n < 16
    ensures HexValue(c) == n && c != 0
  {
    if n < 10 then 48 + n else 55 + n
  }

  function Encode(file: Chars): Chars
  {
    if file == [] then []
    else (if Safe(file[0]) then [file[0]] else Escape(file[0])) + Encode(file[1..])
  }

  function Escape(c: Char): (r: Chars)
    ensures |r| == 3
  {
    [PERCENT, Digit(c >> 4), Digit(c & 15)]
  }

  // ----- decoding -----

  // ASC_TO_HEX; other characters stay as they are.
  function HexValue(c: Char): Char
  {
    if 48 <= c <= 57 then c - 48
    else if 97 <= c <= 102 then c - 87
    else if 65 <= c <= 70 then c - 55
    else c
  }

  function FromHex(h: Char, l: Char): Char
  {
    (HexValue(h) << 4) | HexValue(l)
  }

  // One pass from left to right; it ends at a '%' without two characters behind it.
  function Decode(s: Chars): Chars
    decreases |s|
  {
    if s == [] then []
    else if s[0] != PERCENT then [s[0]] + Decode(s[1..])
    else if |s| < 3 then s
    else [FromHex(s[1], s[2])] + Decode(s[3..])
  }

  lemma HexDigits(c: Char)
    ensures FromHex(Digit(c >> 4), Digit(c & 15)) == c
  {
    assert ((c >> 4) << 4) | (c & 15) == c;
  }

  lemma DecodeStep(c: Char, rest: Chars)
    ensures Decode((if Safe(c) then [c] else Escape(c)) + rest) == [c] + Decode(rest)
  {
    if Safe(c) {
      assert ([c] + rest)[1..] == rest;
    } else {
      HexDigits(c);
      assert (Escape(c) + rest)[3..] == rest;
      DecodeCode(Escape(c) + rest);
    }
  }

  // Encoded text is decoded to the original, whatever follows it; in particular a '%' that was
  // encoded is not taken for the beginning of another code.
  lemma {:induction false} DecodeEncoded(file: Chars, rest: Chars)
    ensures Decode(Encode(file) + rest) == file + Decode(rest)
  {
    hide Safe, Escape, Decode;
    if file == [] {
      assert Encode(file) + rest == rest;
    } else {
      var c, tail := file[0], Encode(file[1..]) + rest;
      DecodeEncoded(file[1..], rest);
      DecodeStep(c, tail);
      assert Encode(file) + rest == (if Safe(c) then [c] else Escape(c)) + tail;
    }
  }

  lemma {:induction false} EncodeHasNoNul(file: Chars)
    requires 0 !in file
    ensures 0 !in Encode(file) && |file| <= |Encode(file)| <= 3 * |file|
  {
    if file != [] {
      EncodeHasNoNul(file[1..]);
    }
  }

  // ----- the codes written out -----

  lemma {:induction false} EncodeConcat(a: Chars, b: Chars)
    ensures Encode(a + b) == Encode(a) + Encode(b)
  {
    hide Encode, EncodedChar;
    EncodeNothing();
    if a == [] {
      assert a + b == b;
    } else {
      EncodeFirst(a);
      EncodeFirst(a + b);
      EncodeConcat(a[1..], b);
      assert (a + b)[1..] == a[1..] + b;
      var code := EncodedChar(a[0]);
      assert code + (Encode(a[1..]) + Encode(b)) == code + Encode(a[1..]) + Encode(b);
    }
  }

  lemma EncodeNothing()
    ensures Encode([]) == []
  {
  }

  function EncodedChar(c: Char): Chars {
    if Safe(c) then [c] else Escape(c)
  }

  lemma EncodeFirst(file: Chars)
    requires file != []
    ensures Encode(file) == EncodedChar(file[0]) + Encode(file[1..])
  {
    hide Safe, Escape;
  }

  // The digits as "%02X" writes them, and as they may be written as well.
  const UPPER: seq<char> := "0123456789ABCDEF"
  const LOWER: seq<char> := "0123456789abcdef"

  // Letters, digits, ' ', '/', '.' and '_' stay; any other character is a '%' and two digits.
  lemma EncodeOne(c: Char, d: char, high: nat, low: nat)
    requires d as int == c as int == 16 * high + low && high < 16 && low < 16
    ensures Encode([c]) ==
      if 'a' <= d <= 'z' || 'A' <= d <= 'Z' || '0' <= d <= '9' || d in " /._" then [c]
      else [0x25, Code(UPPER[high]), Code(UPPER[low])]
  {
    hide Encode, EncodedChar, Code;
    EncodeFirst([c]);
    EncodeNothing();
    assert [c][1..] == [] && EncodedChar(c) + [] == EncodedChar(c);
    EncodedCharIs(c, d, high, low);
  }

  lemma EncodedCharIs(c: Char, d: char, high: nat, low: nat)
    requires d as int == c as int == 16 * high + low && high < 16 && low < 16
    ensures EncodedChar(c) ==
      if 'a' <= d <= 'z' || 'A' <= d <= 'Z' || '0' <= d <= '9' || d in " /._" then [c]
      else [0x25, Code(UPPER[high]), Code(UPPER[low])]
  {
    hide Code, Digit;
    Halves(c);
    UpperDigit(c >> 4, high);
    UpperDigit(c & 15, low);
    SafeIs(c, d);
  }

  lemma SafeIs(c: Char, d: char)
    requires d as int == c as int
    ensures Safe(c) <==> 'a' <= d <= 'z' || 'A' <= d <= 'Z' || '0' <= d <= '9' || d in " /._"
  {
  }

  // A code in upper or lower case or both is one byte, any other character stays, and what
  // follows is decoded for itself.
  lemma DecodeOne(byte: Char, high: nat, low: nat, h: char, l: char, rest: Chars)
    requires byte as int == 16 * high + low && high < 16 && low < 16
    requires h in {UPPER[high], LOWER[high]} && l in {UPPER[low], LOWER[low]}
    ensures Decode([0x25, Code(h), Code(l)] + rest) == [byte] + Decode(rest)
  {
    hide FromHex, HexValue, Code;
    Halves(byte);
    HexIs(byte >> 4, high, h);
    HexIs(byte & 15, low, l);
    FromDigits(byte, Code(h), Code(l));
    DecodeCode([0x25, Code(h), Code(l)] + rest);
    assert ([0x25, Code(h), Code(l)] + rest)[3..] == rest;
  }

  lemma DecodePlain(c: Char, rest: Chars)
    requires c != 0x25
    ensures Decode([c] + rest) == [c] + Decode(rest)
  {
    assert ([c] + rest)[1..] == rest;
  }

  lemma HexIs(v: Char, n: nat, d: char)
    requires n < 16 && v as int == n && d in {UPPER[n], LOWER[n]}
    ensures HexValue(Code(d)) == v
  {
    hide Code;
    if n < 10 || d == UPPER[n] {
      assert d == UPPER[n];
      UpperDigit(v, n);
    } else {
      LowerDigit(v, n);
    }
  }

  lemma LowerDigit(v: Char, n: nat)
    requires 10 <= n < 16 && v as int == n
    ensures HexValue(Code(LOWER[n])) == v
  {
    assert 10 <= v < 16 && Code(LOWER[n]) == 87 + v;
  }

  lemma FromDigits(c: Char, h: Char, l: Char)
    requires HexValue(h) == c >> 4 && HexValue(l) == c & 15
    ensures FromHex(h, l) == c
  {
    assert ((c >> 4) << 4) | (c & 15) == c;
  }

  function Code(d: char): Char
  {
    if d < 128 as char then d as int as Char else 0
  }

  lemma Halves(c: Char)
    ensures (c >> 4) as int == c as int / 16 && (c & 15) as int == c as int % 16
  {
  }

  lemma UpperDigit(v: Char, n: nat)
    requires n < 16 && v as int == n
    ensures v < 16 && Digit(v) == Code(UPPER[n])
  {
  }

  // The round trip through a request.
  lemma RoundTrip(file: Chars)
    requires 0 !in file
    ensures 0 !in Encode(file)
    ensures CString(Decode(CString(Encode(file) + [0])) + [0]) == file
  {
    EncodeHasNoNul(file);
    var uri := Encode(file);
    CStringIs(uri + [0], |uri|);
    assert (uri + [0])[..|uri|] == uri;
    DecodeEncoded(file, []);
    assert uri + [] == uri && file + [] == file;
    CStringIs(file + [0], |file|);
    assert (file + [0])[..|file|] == file;
  }

  // ----- http_create_uri -----

  // The file name in the form it has in a request; the buffer is as large as the code requires.
  method CreateUri(file: Chars, uri: array<Char>)
    requires 0 !in file && |Encode(file)| < uri.Length
    modifies uri
    ensures 0 in uri[..] && CString(uri[..]) == Encode(file)
  {
    hide Safe, Escape, Encode, Digit;
    var p: nat, dst: nat := 0, 0;
    StartEncoding(file, uri[..]);
    while p < |file|
      invariant Encoded(file, p, uri[..], dst)
    {
      p, dst := CopySafe(file, uri, p, dst);
      if p == |file| {
        break;
      }
      EncodeNext(file, p, uri[..], dst);
      WriteEscape(uri, dst, file[p]);
      p, dst := p + 1, dst + 3;
    }
    EncodeEnd(file, p, uri[..], dst);
    uri[dst] := 0;
    EncodeHasNoNul(file);
    CStringIs(uri[..], dst);
  }

  // The first `p` characters are encoded in the first `dst` places.
  ghost predicate Encoded(file: Chars, p: nat, uri: Chars, dst: nat)
  {
    p <= |file| && dst <= |uri| && uri[..dst] + Encode(file[p..]) == Encode(file)
  }

  lemma StartEncoding(file: Chars, uri: Chars)
    ensures Encoded(file, 0, uri, 0)
  {
    assert file[0..] == file;
  }

  lemma EncodeEnd(file: Chars, p: nat, uri: Chars, dst: nat)
    requires p == |file| && Encoded(file, p, uri, dst)
    ensures dst == |Encode(file)| && uri[..dst] == Encode(file)
  {
    assert file[p..] == [];
  }

  // The '%' and the two digits.
  method WriteEscape(uri: array<Char>, dst: nat, c: Char)
    requires dst + 3 <= uri.Length
    modifies uri
    ensures uri[..dst + 3] == old(uri[..dst]) + Escape(c)
  {
    uri[dst] := PERCENT;
    uri[dst + 1], uri[dst + 2] := Digit(c >> 4), Digit(c & 15);
  }

  // The inner loop over characters that need no encoding.
  method CopySafe(file: Chars, uri: array<Char>, p0: nat, dst0: nat) returns (p: nat, dst: nat)
    requires Encoded(file, p0, uri[..], dst0) && |Encode(file)| < uri.Length
    modifies uri
    ensures p0 <= p && Encoded(file, p, uri[..], dst) && (p < |file| ==> !Safe(file[p]))
  {
    hide Safe, Escape, Encode;
    p, dst := p0, dst0;
    while p < |file| && Safe(file[p])
      invariant p0 <= p && Encoded(file, p, uri[..], dst)
    {
      EncodeNext(file, p, uri[..], dst);
      uri[dst] := file[p];
      assert uri[..dst + 1] == uri[..][..dst] + [file[p]];
      p, dst := p + 1, dst + 1;
    }
  }

  lemma EncodeNext(file: Chars, p: nat, uri: Chars, dst: nat)
    requires p < |file| && Encoded(file, p, uri, dst)
    ensures var code := if Safe(file[p]) then [file[p]] else Escape(file[p]);
      dst + |code| <= |Encode(file)| && uri[..dst] + code + Encode(file[p + 1..]) == Encode(file)
  {
    hide Safe, Escape;
    var code := if Safe(file[p]) then [file[p]] else Escape(file[p]);
    assert file[p..][1..] == file[p + 1..];
    assert Encode(file[p..]) == code + Encode(file[p + 1..]);
    assert uri[..dst] + (code + Encode(file[p + 1..])) == uri[..dst] + code + Encode(file[p + 1..]);
  }

  // ----- http_process_uri -----

  method ProcessUri(buffer: array<Char>)
    requires 0 in buffer[..]
    modifies buffer
    ensures 0 in buffer[..] && CString(buffer[..]) == CString(Decode(CString(old(buffer[..]))) + [0])
  {
    hide FromHex, Decode, CString, Progress;
    ghost var result := Decode(CString(buffer[..]));
    ghost var n: nat := |CString(buffer[..])|;      // where the terminator is
    var uri: nat := 0;
    Begun(buffer[..]);
    while true
      invariant Progress(buffer[..], uri, n, result)
      decreases n - uri
    {
      Rest(buffer[..], uri, n, result);
      var p := Strchr(buffer, uri, n);
      Found(buffer[..], uri, p, n, result);
      if buffer[p] == 0 || buffer[p + 1] == 0 || buffer[p + 2] == 0 {
        Ended(buffer[..], p, n, result);
        break;
      }
      ghost var before := buffer[..];
      buffer[p] := FromHex(buffer[p + 1], buffer[p + 2]);
      uri := p + 1;
      CopyRest(buffer, uri, n);
      Replaced(before, p, n, result, buffer[..]);
      n := n - 2;
    }
    assert buffer[..][..n] == buffer[..n];
    CStringOf(buffer[..], result + [0], n);
  }

  // What is before `uri` is final, the rest up to the terminator is still to be decoded.
  ghost predicate Progress(buffer: Chars, uri: nat, n: nat, result: Chars)
  {
    uri <= n < |buffer| && buffer[n] == 0 && 0 !in buffer[uri..n] && buffer[..uri] + Decode(buffer[uri..n]) == result
  }

  lemma Begun(b: Chars)
    requires 0 in b
    ensures Progress(b, 0, |CString(b)|, Decode(CString(b)))
  {
    hide Decode;
    assert b[0..|CString(b)|] == CString(b);
  }

  lemma Rest(b: Chars, uri: nat, n: nat, result: Chars)
    requires Progress(b, uri, n, result)
    ensures uri <= n < |b| && b[n] == 0 && 0 !in b[uri..n]
  {
  }

  lemma Found(b: Chars, uri: nat, p: nat, n: nat, result: Chars)
    requires Progress(b, uri, n, result) && uri <= p <= n && PERCENT !in b[uri..p]
    ensures Progress(b, p, n, result) && forall i :: p <= i < n ==> b[i] != 0
  {
    hide FromHex, Decode;
    assert b[uri..n][..p - uri] == b[uri..p] && b[uri..n][p - uri..] == b[p..n];
    Literal(b[uri..n], p - uri);
    assert b[..uri] + b[uri..p] == b[..p];
    forall i | p <= i < n ensures b[i] != 0 {
      assert b[uri..n][i - uri] == b[i];
    }
  }

  lemma Ended(b: Chars, p: nat, n: nat, result: Chars)
    requires Progress(b, p, n, result) && (b[p] == PERCENT || p == n) && p + 2 >= n
    ensures b[..n] == result
  {
    assert Decode(b[p..n]) == b[p..n];
    assert b[..p] + b[p..n] == b[..n];
  }

  lemma Replaced(b: Chars, p: nat, n: nat, result: Chars, after: Chars)
    requires Progress(b, p, n, result) && p + 2 < n && b[p] == PERCENT && |after| == |b|
    requires after[..p + 1] == b[..p] + [FromHex(b[p + 1], b[p + 2])]
    requires after[p + 1..n - 2] == b[p + 3..n] && after[n - 2] == 0
    ensures Progress(after, p + 1, n - 2, result)
  {
    hide FromHex;
    DecodeCode(b[p..n]);
    assert b[p..n][3..] == b[p + 3..n];
    assert forall c :: c in b[p + 3..n] ==> c in b[p..n];
  }

  lemma {:induction false} Literal(s: Chars, n: nat)
    requires n <= |s| && PERCENT !in s[..n]
    ensures Decode(s) == s[..n] + Decode(s[n..])
  {
    hide FromHex;
    if n == 0 {
      assert s[0..] == s;
    } else {
      var t := s[1..];
      assert s[..n][0] == s[0] && s[..n][1..] == t[..n - 1] && t[n - 1..] == s[n..];
      Literal(t, n - 1);
      assert Decode(s) == [s[0]] + Decode(t);
      assert s[..n] == [s[0]] + t[..n - 1];
    }
  }

  lemma DecodeCode(s: Chars)
    requires |s| >= 3 && s[0] == PERCENT
    ensures Decode(s) == [FromHex(s[1], s[2])] + Decode(s[3..])
  {
  }

  // The next '%' or the terminator.
  method Strchr(buffer: array<Char>, from: nat, ghost n: nat) returns (p: nat)
    requires from <= n < buffer.Length && buffer[n] == 0 && 0 !in buffer[from..n]
    ensures from <= p <= n && PERCENT !in buffer[from..p]
    ensures (buffer[p] == PERCENT && p < n) || (buffer[p] == 0 && p == n)
  {
    p := from;
    while buffer[p] != PERCENT && buffer[p] != 0
      invariant from <= p <= n && PERCENT !in buffer[from..p]
      decreases n - p
    {
      p := p + 1;
    }
    if p < n { assert buffer[from..n][p - from] == buffer[p]; }
  }

  // The copying of the rest two places to the front.
  method CopyRest(buffer: array<Char>, start: nat, ghost n: nat)
    requires start + 2 <= n < buffer.Length && buffer[n] == 0 && forall i :: start + 2 <= i < n ==> buffer[i] != 0
    modifies buffer
    ensures buffer[..start] == old(buffer[..start])
    ensures buffer[start..n - 2] == old(buffer[start + 2..n]) && buffer[n - 2] == 0
  {
    var p := start;
    while buffer[p + 2] != 0
      invariant start <= p <= n - 2
      invariant forall i :: 0 <= i < start ==> buffer[i] == old(buffer[i])
      invariant forall i :: start <= i < p ==> buffer[i] == old(buffer[i + 2])
      invariant forall i :: p <= i < buffer.Length ==> buffer[i] == old(buffer[i])
      decreases n - p
    {
      buffer[p] := buffer[p + 2];
      p := p + 1;
    }
    assert p == n - 2;
    buffer[p] := 0;
  }
}
