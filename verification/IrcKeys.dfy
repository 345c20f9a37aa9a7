/**
  The keys of the nick and channel tables: `make_irc_e_hash_table` of src/irc-server/irc-proto.c
  replaces the comparison of a hash table by the case-insensitive one and keeps the default
  hash code of src/libserveez/hash.c, which is sensitive to case.
*/
module IrcKeys {
  import opened HashSpec
  import opened IrcMatch

  // ----- unsigned words of `width` bits -----

  function Low(n: nat, width: nat): nat
    decreases width
  {
    if width == 0 then 0 else n % 2 + 2 * Low(n / 2, width - 1)
  }

  function Xor(a: nat, b: nat): nat
    decreases a + b
  {
    if a == 0 && b == 0 then 0 else (a + b) % 2 + 2 * Xor(a / 2, b / 2)
  }

  predicate Bit(n: nat, j: nat)
    decreases j
  {
    if j == 0 then n % 2 == 1 else Bit(n / 2, j - 1)
  }

  lemma Halves(bit: nat, rest: nat)
    requires bit < 2
    ensures (bit + 2 * rest) % 2 == bit && (bit + 2 * rest) / 2 == rest
  {
  }

  lemma Parity(a: nat, b: nat)
    ensures (a + b) % 2 == 1 <==> (a % 2 == 1) != (b % 2 == 1)
  {
  }

  lemma {:induction false} LowBit(n: nat, width: nat, j: nat)
    ensures Bit(Low(n, width), j) <==> j < width && Bit(n, j)
    decreases width
  {
    if width == 0 {
      ZeroBit(j);
    } else {
      var rest := Low(n / 2, width - 1);
      Halves(n % 2, rest);
      assert Low(n, width) == n % 2 + 2 * rest;
      if j > 0 { LowBit(n / 2, width - 1, j - 1); }
    }
  }

  lemma {:induction false} ZeroBit(j: nat)
    ensures !Bit(0, j)
  {
    if j > 0 { ZeroBit(j - 1); }
  }

  lemma {:induction false} XorBit(a: nat, b: nat, j: nat)
    ensures Bit(Xor(a, b), j) <==> (Bit(a, j) != Bit(b, j))
    decreases j
  {
    if a == 0 && b == 0 {
      ZeroBit(j);
    } else {
      var rest := Xor(a / 2, b / 2);
      assert Xor(a, b) == (a + b) % 2 + 2 * rest;
      Halves((a + b) % 2, rest);
      Parity(a, b);
      if j > 0 { XorBit(a / 2, b / 2, j - 1); }
    }
  }

  lemma {:induction false} SameBits(a: nat, b: nat)
    requires forall j: nat :: Bit(a, j) <==> Bit(b, j)
    ensures a == b
    decreases a + b
  {
    assert Bit(a, 0) <==> Bit(b, 0);
    if a + b > 0 {
      forall j: nat ensures Bit(a / 2, j) <==> Bit(b / 2, j) {
        assert Bit(a, j + 1) <==> Bit(b, j + 1);
      }
      SameBits(a / 2, b / 2);
    }
  }

  // ----- hash_code -----

  // The code after the characters of `key`, each shifting the code to the left by one bit.
  function HashCode(key: Text, width: nat): nat
  {
    if key == [] then 0
    else
      var n := |key| - 1;
      Low(Xor(2 * HashCode(key[..n], width), key[n]), width)
  }

  lemma CodeBit(key: Text, width: nat, j: nat)
    requires key != []
    ensures var n := |key| - 1;
      Bit(HashCode(key, width), j) <==>
        (j < width && ((j > 0 && Bit(HashCode(key[..n], width), j - 1)) != Bit(key[n], j)))
  {
    var n := |key| - 1;
    var shifted := 2 * HashCode(key[..n], width);
    LowBit(Xor(shifted, key[n]), width, j);
    XorBit(shifted, key[n], j);
  }

  // Characters that differ in case only differ in bit 5.
  lemma CaseBit(a: Ascii, b: Ascii, j: nat)
    requires Lc(a) == Lc(b)
    ensures (Bit(a, j) == Bit(b, j)) <==> a == b || j != 5
  {
    if a != b {
      if a < b { CaseBits(a, j); } else { CaseBits(b, j); }
    }
  }

  lemma CaseBits(a: Ascii, j: nat)
    requires 65 <= a <= 93
    ensures (Bit(a, j) == Bit(a + 32, j)) <==> j != 5
  {
    assert !Bit(a / 32, 0);
    assert Bit(a, 5) == Bit(a / 2, 4) == Bit(a / 4, 3) == Bit(a / 8, 2) == Bit(a / 16, 1);
    SetBit(a, 5, 32, j);
  }

  // Adding a bit that is not set.
  lemma {:induction false} SetBit(n: nat, pos: nat, power: nat, j: nat)
    requires power == Power(pos) && !Bit(n, pos)
    ensures Bit(n + power, j) <==> j == pos || Bit(n, j)
  {
    if pos > 0 {
      assert (n + power) / 2 == n / 2 + power / 2 && (n + power) % 2 == n % 2;
      if j > 0 { SetBit(n / 2, pos - 1, power / 2, j - 1); }
    } else {
      assert power == 1 && (n + 1) / 2 == n / 2;
    }
  }

  function Power(n: nat): nat {
    if n == 0 then 1 else 2 * Power(n - 1)
  }

  // ----- which names are the same key -----

  // Bit `j` of two codes differs where the character `j - 5` places from the end differs in case.
  lemma {:induction false} CodeDifference(a: Text, b: Text, width: nat, j: nat)
    requires Fold(a) == Fold(b) && j < width
    ensures |a| == |b|
    ensures Bit(HashCode(a, width), j) == Bit(HashCode(b, width), j) <==>
      (j < 5 || j - 5 >= |a| || a[|a| - 1 - (j - 5)] == b[|a| - 1 - (j - 5)])
  {
    FoldEqual(a, b);
    if a == [] {
      ZeroBit(j);
    } else {
      var n := |a| - 1;
      FoldEqual(a[..n], b[..n]);
      CodeBit(a, width, j);
      CodeBit(b, width, j);
      CaseBit(a[n], b[n], j);
      if j > 0 {
        CodeDifference(a[..n], b[..n], width, j - 1);
      }
    }
  }

  function Last(s: Text, n: nat): Text {
    if |s| <= n then s else s[|s| - n..]
  }

  lemma SameEnd(a: Text, b: Text, n: nat)
    requires |a| == |b|
    ensures Last(a, n) == Last(b, n) <==> forall i :: 0 <= i < |a| && i >= |a| - n ==> a[i] == b[i]
  {
    var from := if |a| <= n then 0 else |a| - n;
    assert Last(a, n) == a[from..] && Last(b, n) == b[from..];
    if Last(a, n) == Last(b, n) {
      forall i | 0 <= i < |a| && i >= |a| - n ensures a[i] == b[i] {
        assert a[from..][i - from] == a[i] && b[from..][i - from] == b[i];
      }
    }
  }

  lemma EveryBit(a: Text, b: Text, width: nat, j: nat)
    requires Fold(a) == Fold(b) && |a| == |b| && width >= 6
    requires forall i :: 0 <= i < |a| && i >= |a| - (width - 5) ==> a[i] == b[i]
    ensures Bit(HashCode(a, width), j) <==> Bit(HashCode(b, width), j)
  {
    hide HashCode, Bit, Fold;
    if j < width {
      CodeDifference(a, b, width, j);
    } else {
      HighBit(a, width, j);
      HighBit(b, width, j);
    }
  }

  // Equal spelling up to case and equal codes: the same last characters, as many as the code has
  // bits above the bit of the case.
  lemma SameCodeIff(a: Text, b: Text, width: nat)
    requires Fold(a) == Fold(b) && width >= 6
    ensures HashCode(a, width) == HashCode(b, width) <==> Last(a, width - 5) == Last(b, width - 5)
  {
    hide HashCode, Bit, Fold, Last;
    FoldEqual(a, b);
    var n := |a|;
    SameEnd(a, b, width - 5);
    if HashCode(a, width) == HashCode(b, width) {
      forall i | 0 <= i < n && i >= n - (width - 5) ensures a[i] == b[i] {
        CodeDifference(a, b, width, n - 1 - i + 5);
      }
    }
    if Last(a, width - 5) == Last(b, width - 5) {
      forall j: nat ensures Bit(HashCode(a, width), j) <==> Bit(HashCode(b, width), j) {
        EveryBit(a, b, width, j);
      }
      SameBits(HashCode(a, width), HashCode(b, width));
    }
  }

  lemma HighBit(key: Text, width: nat, j: nat)
    requires j >= width
    ensures !Bit(HashCode(key, width), j)
  {
    if key == [] { ZeroBit(j); } else { CodeBit(key, width, j); }
  }

  // irc_string_equal and hash_code as the callbacks of a table on words of `width` bits.
  ghost function Names(width: nat): (keys: Keying<Text>)
    ensures keys.Equivalence()
  {
    Keying((key: Text) => HashCode(key, width), (a: Text, b: Text) => Fold(a) == Fold(b))
  }

  lemma SameNameIff(a: Text, b: Text, width: nat)
    requires width >= 6
    ensures Names(width).Same(a, b) <==> Fold(a) == Fold(b) && Last(a, width - 5) == Last(b, width - 5)
  {
    if Fold(a) == Fold(b) {
      SameCodeIff(a, b, width);
    }
  }

  // So on 64 bits names of up to 59 characters are told apart by case, in tables that are
  // configured to ignore it.
  lemma ShortNamesKeepCase(a: Text, b: Text)
    requires |a| <= 59
    ensures Names(64).Same(a, b) <==> a == b
  {
    SameNameIff(a, b, 64);
    FoldEqual(a, b);
  }
}
