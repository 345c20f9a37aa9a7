/**
  The encryption of private messages in src/irc-server/irc-crypt.c: characters are combined with
  a key byte, and codes that a message must not contain are written behind a prefix.
*/
module IrcCrypt {
  import opened CStrings

  const PREFIX: Char := 35            // '#'
  const MAX_MSG_LEN := 512

  function Mask(c: Char, key: Char): Char { c ^ key }

  function Raised(code: Char): Char { code + PREFIX }

  function Lowered(c: Char): Char { c - PREFIX }

  predicate Escaped(code: Char) {
    code < 0x20 || code == PREFIX
  }

  function Encode(code: Char): (r: Chars)
    ensures 1 <= |r| <= 2
  {
    if Escaped(code) then [PREFIX, Raised(code)] else [code]
  }

  function Encrypt(text: Chars, key: Char): Chars
  {
    if text == [] then [] else Encode(Mask(text[0], key)) + Encrypt(text[1..], key)
  }

  // No prefix stands at the end.
  predicate Complete(crypt: Chars) {
    if crypt == [] then true
    else if crypt[0] == PREFIX then |crypt| >= 2 && Complete(crypt[2..])
    else Complete(crypt[1..])
  }

  function Decrypt(crypt: Chars, key: Char): (r: Chars)
    requires Complete(crypt)
    ensures |r| <= |crypt|
  {
    if crypt == [] then []
    else if crypt[0] == PREFIX then [Mask(Lowered(crypt[1]), key)] + Decrypt(crypt[2..], key)
    else [Mask(crypt[0], key)] + Decrypt(crypt[1..], key)
  }

  // ----- the laws -----

  lemma DecryptStep(c: Char, key: Char, rest: Chars)
    requires Complete(rest)
    ensures Complete(Encode(Mask(c, key)) + rest)
    ensures Decrypt(Encode(Mask(c, key)) + rest, key) == [c] + Decrypt(rest, key)
  {
    var code := Mask(c, key);
    assert Mask(code, key) == c;
    if Escaped(code) {
      assert (Encode(code) + rest)[2..] == rest;
      assert Lowered(Raised(code)) == code;
    } else {
      assert (Encode(code) + rest)[1..] == rest;
    }
  }

  lemma {:induction false} RoundTrip(text: Chars, key: Char)
    ensures Complete(Encrypt(text, key)) && Decrypt(Encrypt(text, key), key) == text
  {
    hide Encode, Escaped, Mask, Complete, Decrypt;
    DecryptEnd(key);
    if text != [] {
      RoundTrip(text[1..], key);
      DecryptStep(text[0], key, Encrypt(text[1..], key));
    }
  }

  // ----- what goes over the line -----

  // Each character is encrypted for itself.
  lemma {:induction false} EncryptConcat(a: Chars, b: Chars, key: Char)
    ensures Encrypt(a + b, key) == Encrypt(a, key) + Encrypt(b, key)
  {
    hide Encode, Mask;
    if a == [] {
      assert a + b == b;
    } else {
      EncryptConcat(a[1..], b, key);
      assert (a + b)[1..] == a[1..] + b;
    }
  }

  lemma EncryptOne(c: Char, key: Char)
    ensures Encrypt([c], key) == if (c ^ key) < 0x20 || (c ^ key) == 35 then [35, (c ^ key) + 35] else [c ^ key]
  {
    NothingEncrypted(key);
    assert [c][1..] == [];
  }

  // The first character of a cipher text, and where the next one begins.
  function First(crypt: Chars, key: Char): (r: (Char, nat))
    requires crypt != [] && (crypt[0] == PREFIX ==> |crypt| >= 2)
    ensures r.1 <= |crypt|
  {
    if crypt[0] == PREFIX then (Mask(Lowered(crypt[1]), key), 2) else (Mask(crypt[0], key), 1)
  }

  lemma DecryptFirst(crypt: Chars, key: Char)
    requires crypt != [] && (crypt[0] == PREFIX ==> |crypt| >= 2)
    ensures var (c, n) := First(crypt, key);
      && (Complete(crypt) <==> Complete(crypt[n..]))
      && (Complete(crypt) ==> Decrypt(crypt, key) == [c] + Decrypt(crypt[n..], key))
  {
    hide Mask, Lowered;
  }

  lemma {:induction false} DecryptConcat(a: Chars, b: Chars, key: Char)
    requires Complete(a) && Complete(b)
    ensures Complete(a + b) && Decrypt(a + b, key) == Decrypt(a, key) + Decrypt(b, key)
    decreases |a|
  {
    hide Complete, Decrypt, First;
    DecryptEnd(key);
    if a == [] {
      assert a + b == b;
    } else {
      CompleteFirst(a);
      DecryptFirst(a, key);
      DecryptFirst(a + b, key);
      FirstConcat(a, b, key);
      var (c, n) := First(a, key);
      assert (a + b)[n..] == a[n..] + b;
      DecryptConcat(a[n..], b, key);
      assert [c] + (Decrypt(a[n..], key) + Decrypt(b, key)) == [c] + Decrypt(a[n..], key) + Decrypt(b, key);
    }
  }

  lemma CompleteFirst(crypt: Chars)
    requires crypt != [] && Complete(crypt)
    ensures crypt[0] == PREFIX ==> |crypt| >= 2
  {
  }

  lemma FirstConcat(a: Chars, b: Chars, key: Char)
    requires a != [] && (a[0] == PREFIX ==> |a| >= 2)
    ensures First(a + b, key) == First(a, key) && 1 <= First(a, key).1
  {
    hide Mask, Lowered;
  }

  // Behind a prefix 35 is taken off before the key is applied; any other character is combined
  // with the key as it is.
  lemma DecryptPrefixed(crypt: Chars, key: Char)
    requires |crypt| == 2 && crypt[0] == 35
    ensures Complete(crypt) && Decrypt(crypt, key) == [(crypt[1] - 35) ^ key]
  {
    DecryptFirst(crypt, key);
    hide Complete, Decrypt;
    DecryptEnd(key);
    assert crypt[2..] == [];
  }

  lemma DecryptPlain(crypt: Chars, key: Char)
    requires |crypt| == 1
    ensures Complete(crypt) <==> crypt[0] != 35
    ensures crypt[0] != 35 ==> Decrypt(crypt, key) == [crypt[0] ^ key]
  {
    hide Decrypt;
    DecryptEnd(key);
    assert crypt[1..] == [];
    if crypt[0] != PREFIX { DecryptFirst(crypt, key); }
  }

  // How many characters need a prefix.
  function Prefixes(text: Chars, key: Char): nat
  {
    if text == [] then 0 else (if Escaped(Mask(text[0], key)) then 1 else 0) + Prefixes(text[1..], key)
  }

  // What is sent contains no control character, least of all a terminator.
  lemma {:induction false} EncryptedIsPrintable(text: Chars, key: Char)
    ensures forall i :: 0 <= i < |Encrypt(text, key)| ==> Encrypt(text, key)[i] >= 0x20
    ensures |text| <= |Encrypt(text, key)| == |text| + Prefixes(text, key) <= 2 * |text|
  {
    if text != [] {
      EncryptedIsPrintable(text[1..], key);
      CodesArePrintable(Mask(text[0], key));
    }
  }

  lemma CodesArePrintable(code: Char)
    ensures forall i :: 0 <= i < |Encode(code)| ==> Encode(code)[i] >= 0x20
  {
  }

  // What `Encode` produces: a prefix exactly before the codes that need it.
  predicate Canonical(crypt: Chars)
    requires Complete(crypt)
  {
    if crypt == [] then true
    else if crypt[0] == PREFIX then Escaped(Lowered(crypt[1])) && Canonical(crypt[2..])
    else crypt[0] >= 0x20 && Canonical(crypt[1..])
  }

  // The other direction: exactly the canonical texts come back.
  lemma {:induction false} CanonicalIff(crypt: Chars, key: Char)
    requires Complete(crypt)
    ensures Encrypt(Decrypt(crypt, key), key) == crypt <==> Canonical(crypt)
  {
    hide Encode, Escaped, Encrypt, Mask, Lowered;
    if crypt == [] {
      NothingEncrypted(key);
    } else if crypt[0] == PREFIX {
      var c := Mask(Lowered(crypt[1]), key);
      CanonicalIff(crypt[2..], key);
      PrefixedBack(crypt[1], key);
      EncryptCons(c, Decrypt(crypt[2..], key), key);
      Split(Encode(Mask(c, key)), Encrypt(Decrypt(crypt[2..], key), key), crypt, 2);
    } else {
      var c := Mask(crypt[0], key);
      CanonicalIff(crypt[1..], key);
      PlainBack(crypt[0], key);
      EncryptCons(c, Decrypt(crypt[1..], key), key);
      Split(Encode(Mask(c, key)), Encrypt(Decrypt(crypt[1..], key), key), crypt, 1);
    }
  }

  lemma NothingEncrypted(key: Char)
    ensures Encrypt([], key) == []
  {
  }

  lemma EncryptCons(c: Char, text: Chars, key: Char)
    ensures Encrypt([c] + text, key) == Encode(Mask(c, key)) + Encrypt(text, key)
  {
    assert ([c] + text)[1..] == text;
  }

  // A code that either is the beginning of the text or begins differently.
  lemma Split(code: Chars, rest: Chars, crypt: Chars, n: nat)
    requires n <= |crypt| && code != [] && (code == crypt[..n] || (n > 0 && code[0] != crypt[0]))
    ensures code + rest == crypt <==> code == crypt[..n] && rest == crypt[n..]
  {
    assert crypt == crypt[..n] + crypt[n..];
    if code + rest == crypt {
      assert (code + rest)[0] == code[0];
      if code == crypt[..n] {
        assert (code + rest)[n..] == rest;
      }
    }
  }

  lemma PrefixedBack(c: Char, key: Char)
    ensures var code := Encode(Mask(Mask(Lowered(c), key), key));
      if Escaped(Lowered(c)) then code == [PREFIX, c] else |code| == 1 && code[0] != PREFIX
  {
    assert Mask(Mask(Lowered(c), key), key) == Lowered(c);
  }

  lemma PlainBack(c: Char, key: Char)
    requires c != PREFIX
    ensures var code := Encode(Mask(Mask(c, key), key));
      if c >= 0x20 then code == [c] else code[0] == PREFIX
  {
    assert Mask(Mask(c, key), key) == c;
  }

  // ----- the loops -----

  // irc_encrypt_text; the cipher text replaces the text.
  method EncryptText(text: array<Char>, key: Char)
    requires 0 in text[..]
    requires var n := |Encrypt(CString(text[..]), key)|; n < MAX_MSG_LEN && n < text.Length
    modifies text
    ensures 0 in text[..] && CString(text[..]) == Encrypt(old(CString(text[..])), key)
  {
    hide Encrypt, CString, Encode, Mask, Written;
    ghost var s := CString(text[..]);
    var crypt := new Char[MAX_MSG_LEN](_ => 0);
    var t: nat, c: nat := 0, 0;
    EncryptStart(s, crypt[..], key);
    while text[t] != 0
      invariant t <= |s| && text[..] == old(text[..])
      invariant Written(s, t, crypt[..], c, key)
      decreases |s| - t
    {
      EncryptNext(s, t, crypt[..], c, key);
      ghost var before := crypt[..];
      ghost var c0 := c;
      c := Put(crypt, c, Mask(text[t], key));
      EncryptWrote(s, t, before, c0, key, crypt[..]);
      t := t + 1;
    }
    EncryptEnd(s, t, crypt[..], c, key);
    EncryptedIsPrintable(s, key);
    Strcpy(text, crypt, c);
  }

  // The codes of the first `t` characters are written.
  ghost predicate Written(s: Chars, t: nat, crypt: Chars, c: nat, key: Char) {
    && t <= |s| && c + |Encrypt(s[t..], key)| == |Encrypt(s, key)| < |crypt|
    && crypt[..c] + Encrypt(s[t..], key) == Encrypt(s, key)
    && forall i :: c <= i < |crypt| ==> crypt[i] == 0
  }

  lemma EncryptStart(s: Chars, crypt: Chars, key: Char)
    requires |Encrypt(s, key)| < |crypt| && forall i :: 0 <= i < |crypt| ==> crypt[i] == 0
    ensures Written(s, 0, crypt, 0, key)
  {
    assert s[0..] == s;
  }

  lemma EncryptNext(s: Chars, t: nat, crypt: Chars, c: nat, key: Char)
    requires Written(s, t, crypt, c, key) && t < |s|
    ensures var code := Encode(Mask(s[t], key));
      && c + |code| + |Encrypt(s[t + 1..], key)| == |Encrypt(s, key)|
      && c + |code| < |crypt| && crypt[..c] + code + Encrypt(s[t + 1..], key) == Encrypt(s, key)
  {
    hide Encode;
    assert s[t..][1..] == s[t + 1..];
    var code, rest := Encode(Mask(s[t], key)), Encrypt(s[t + 1..], key);
    assert crypt[..c] + (code + rest) == crypt[..c] + code + rest;
  }

  lemma EncryptWrote(s: Chars, t: nat, crypt: Chars, c: nat, key: Char, after: Chars)
    requires Written(s, t, crypt, c, key) && t < |s| && |after| == |crypt|
    requires var code := Encode(Mask(s[t], key));
      c + |code| <= |crypt| && after[..c + |code|] == crypt[..c] + code && after[c + |code|..] == crypt[c + |code|..]
    ensures Written(s, t + 1, after, c + |Encode(Mask(s[t], key))|, key)
  {
    hide Encode, Mask, Encrypt;
    EncryptNext(s, t, crypt, c, key);
    var next := c + |Encode(Mask(s[t], key))|;
    forall i | next <= i < |after| ensures after[i] == 0 {
      assert after[i] == after[next..][i - next] == crypt[next..][i - next];
    }
  }

  lemma EncryptEnd(s: Chars, t: nat, crypt: Chars, c: nat, key: Char)
    requires Written(s, t, crypt, c, key) && t == |s|
    ensures c == |Encrypt(s, key)| < |crypt| && crypt[..c] == Encrypt(s, key) && crypt[c] == 0
  {
    assert s[t..] == [];
  }

  // One code, with a prefix if it needs one.
  method Put(crypt: array<Char>, c: nat, code: Char) returns (next: nat)
    requires c + |Encode(code)| <= crypt.Length
    modifies crypt
    ensures next == c + |Encode(code)| && crypt[..next] == old(crypt[..c]) + Encode(code)
    ensures crypt[next..] == old(crypt[next..])
  {
    if code < 0x20 || code == PREFIX {
      crypt[c], crypt[c + 1] := PREFIX, Raised(code);
      next := c + 2;
    } else {
      crypt[c] := code;
      next := c + 1;
    }
  }

  method Strcpy(dst: array<Char>, src: array<Char>, n: nat)
    requires n < dst.Length && n < src.Length && dst != src && src[n] == 0
    requires forall i :: 0 <= i < n ==> src[i] != 0
    modifies dst
    ensures 0 in dst[..] && CString(dst[..]) == src[..n]
  {
    var i: nat := 0;
    while src[i] != 0
      invariant i <= n && dst[..i] == src[..i]
      decreases n - i
    {
      dst[i] := src[i];
      i := i + 1;
    }
    dst[i] := 0;
    assert dst[..][n] == 0 && dst[..][..n] == src[..n];
    CStringIs(dst[..], n);
  }

  // irc_decrypt_text
  method DecryptText(crypt: array<Char>, key: Char) returns (text: array<Char>)
    requires 0 in crypt[..] && Complete(CString(crypt[..]))
    requires |Decrypt(CString(crypt[..]), key)| < MAX_MSG_LEN
    ensures fresh(text) && text.Length == MAX_MSG_LEN && 0 in text[..]
    ensures CString(text[..]) == CString(Decrypt(CString(crypt[..]), key) + [0])
  {
    hide Complete, Decrypt, Mask, Lowered, Plain;
    ghost var s := CString(crypt[..]);
    text := new Char[MAX_MSG_LEN](_ => 0);
    var t: nat, c: nat := 0, 0;
    PlainStart(s, text[..], key);
    while crypt[c] != 0
      invariant c <= |s| && t < text.Length && Plain(s, c, text[..], t, key)
      decreases |s| - c
    {
      PlainNext(s, c, text[..], t, key);
      if crypt[c] == PREFIX {
        c := c + 1;
        text[t] := Mask(Lowered(crypt[c]), key);
      } else {
        text[t] := Mask(crypt[c], key);
      }
      t, c := t + 1, c + 1;
    }
    PlainEnd(s, c, text[..], t, key);
  }

  // The characters of the first `c` codes are written; the rest of the buffer is still empty.
  ghost predicate Plain(s: Chars, c: nat, text: Chars, t: nat, key: Char) {
    && c <= |s| && Complete(s) && Complete(s[c..]) && t + |Decrypt(s[c..], key)| < |text|
    && text[..t] + Decrypt(s[c..], key) == Decrypt(s, key)
    && forall i :: t <= i < |text| ==> text[i] == 0
  }

  lemma PlainStart(s: Chars, text: Chars, key: Char)
    requires Complete(s) && |Decrypt(s, key)| < |text| && forall i :: 0 <= i < |text| ==> text[i] == 0
    ensures Plain(s, 0, text, 0, key)
  {
    assert s[0..] == s;
  }

  lemma PlainNext(s: Chars, c: nat, text: Chars, t: nat, key: Char)
    requires Plain(s, c, text, t, key) && c < |s|
    ensures s[c] == PREFIX ==> c + 1 < |s|
    ensures t + 1 < |text|
    ensures var (x, next) := if s[c] == PREFIX then (Mask(Lowered(s[c + 1]), key), c + 2) else (Mask(s[c], key), c + 1);
      Plain(s, next, text[t := x], t + 1, key)
  {
    hide Complete, Decrypt, Mask, Lowered;
    DecryptNext(s, c, key);
    var (x, next) := if s[c] == PREFIX then (Mask(Lowered(s[c + 1]), key), c + 2) else (Mask(s[c], key), c + 1);
    assert text[t := x][..t + 1] == text[..t] + [x];
    assert text[..t] + ([x] + Decrypt(s[next..], key)) == text[..t] + [x] + Decrypt(s[next..], key);
  }

  lemma PlainEnd(s: Chars, c: nat, text: Chars, t: nat, key: Char)
    requires Plain(s, c, text, t, key) && c == |s|
    ensures 0 in text && CString(text) == CString(Decrypt(s, key) + [0])
  {
    assert s[c..] == [] && text[..t] == Decrypt(s, key) && text[t] == 0;
    CStringOf(text, Decrypt(s, key) + [0], t);
  }

  lemma DecryptNext(s: Chars, c: nat, key: Char)
    requires c < |s| && Complete(s[c..])
    ensures if s[c] == PREFIX
      then c + 1 < |s| && Complete(s[c + 2..])
           && Decrypt(s[c..], key) == [Mask(Lowered(s[c + 1]), key)] + Decrypt(s[c + 2..], key)
      else Complete(s[c + 1..]) && Decrypt(s[c..], key) == [Mask(s[c], key)] + Decrypt(s[c + 1..], key)
  {
    assert s[c..][1..] == s[c + 1..];
    if s[c] == PREFIX {
      assert s[c..][2..] == s[c + 2..];
    }
  }

  lemma DecryptEnd(key: Char)
    ensures Complete([]) && Decrypt([], key) == []
  {
  }
}
