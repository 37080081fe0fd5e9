/** The 32-bit FNV-1a checksum of a crash record. */
module CrashChecksum {
  import opened Words

  const BASIS: u32 := 0x811c_9dc5

  // ---- exclusive or with a byte ----

  /** Exclusive or of two `n`-bit numbers, digit by digit. */
  function Xor(a: nat, b: nat, n: nat): nat {
    if n == 0 then 0 else 2 * Xor(a / 2, b / 2, n - 1) + (a + b) % 2
  }

  lemma {:induction false} XorInRange(a: nat, b: nat, n: nat)
    ensures Xor(a, b, n) < Pow2(n)
  {
    if n > 0 {
      XorInRange(a / 2, b / 2, n - 1);
    }
  }

  /** Applying it twice gives back the number, in either argument. */
  lemma {:induction false} XorTwice(a: nat, b: nat, n: nat)
    requires a < Pow2(n) && b < Pow2(n)
    ensures Xor(Xor(a, b, n), b, n) == a && Xor(a, Xor(a, b, n), n) == b
  {
    if n > 0 {
      var p, q := a / 2, b / 2;
      Halves(a, Pow2(n - 1));
      Halves(b, Pow2(n - 1));
      XorTwice(p, q, n - 1);
      var r, x := Xor(p, q, n - 1), Xor(a, b, n);
      HalfAndDigit(r, (a + b) % 2);
      Parity(a, b, x);
      calc {
        Xor(x, b, n);
        2 * Xor(r, q, n - 1) + (x + b) % 2;
        2 * p + a % 2;
        a;
      }
      calc {
        Xor(a, x, n);
        2 * Xor(p, r, n - 1) + (a + x) % 2;
        2 * q + b % 2;
        b;
      }
    }
  }

  lemma Halves(a: nat, p: nat)
    requires a < 2 * p
    ensures a / 2 < p && a == 2 * (a / 2) + a % 2
  {
  }

  lemma HalfAndDigit(q: nat, d: nat)
    requires d <= 1
    ensures (2 * q + d) / 2 == q && (2 * q + d) % 2 == d
  {
  }

  lemma Parity(a: nat, b: nat, x: nat)
    requires x % 2 == (a + b) % 2
    ensures (x + b) % 2 == a % 2 && (a + x) % 2 == b % 2
  {
  }

  function Xor8(a: u8, b: u8): u8 {
    assert Pow2(8) == 256;
    XorInRange(a, b, 8);
    Xor(a, b, 8)
  }

  lemma Xor8Twice(a: u8, b: u8)
    ensures Xor8(Xor8(a, b), b) == a && Xor8(a, Xor8(a, b)) == b
  {
    assert Pow2(8) == 256;
    XorTwice(a, b, 8);
  }

  /** A word with a byte mixed into its low end. */
  function XorByte(h: u32, b: u8): u32 {
    h / 256 * 256 + Xor8(h % 256, b)
  }

  lemma XorByteInjective(h: u32, h': u32, b: u8, b': u8)
    requires XorByte(h, b) == XorByte(h', b')
    ensures b == b' ==> h == h'
    ensures h == h' ==> b == b'
  {
    Xor8Twice(h % 256, b);
    Xor8Twice(h' % 256, b');
    LowByte(h / 256, Xor8(h % 256, b), h' / 256, Xor8(h' % 256, b'));
  }

  lemma LowByte(q: nat, r: u8, q': nat, r': u8)
    requires q * 256 + r == q' * 256 + r'
    ensures q == q' && r == r'
  {
  }

  // ---- multiplying by the prime ----

  function Times(x: u32): u32 {
    x * 0x0100_0193 % TWO32
  }

  /** The prime is odd, so multiplying by it can be undone: 0x359c449b is its inverse. */
  lemma TimesUndone(x: u32)
    ensures Times(x) * 0x359c_449b % TWO32 == x
  {
    var t := x * 0x0100_0193 / TWO32;
    assert Times(x) == x * 0x0100_0193 - TWO32 * t;
    assert 0x0100_0193 * 0x359c_449b == 1 + TWO32 * 0x359c_99;
    Residue(x, Times(x) * 0x359c_449b, 0x359c_99 * x - t * 0x359c_449b);
  }

  lemma Residue(x: u32, y: int, k: int)
    requires y == x + TWO32 * k
    ensures y % TWO32 == x
  {
  }

  // ---- the checksum ----

  function Mix(h: u32, b: u8): u32 {
    Times(XorByte(h, b))
  }

  function Fold(h: u32, bytes: Bytes): u32
    decreases |bytes|
  {
    if bytes == [] then h else Fold(Mix(h, bytes[0]), bytes[1..])
  }

  method FoldBytes(start: u32, bytes: Bytes) returns (h: u32)
    ensures h == Fold(start, bytes)
  {
    h := start;
    for i := 0 to |bytes|
      invariant Fold(start, bytes) == Fold(h, bytes[i..])
    {
      h := XorByte(h, bytes[i]);
      h := Times(h);
    }
  }

  lemma XorOfBasis()
    ensures Xor(0xc5, 0x61, 8) == 0xa4
  {
    assert Xor(1, 0, 1) == 1;
    assert Xor(3, 1, 2) == 2;
    assert Xor(6, 3, 3) == 5;
    assert Xor(12, 6, 4) == 10;
    assert Xor(24, 12, 5) == 20;
    assert Xor(49, 24, 6) == 41;
    assert Xor(98, 48, 7) == 82;
  }

  lemma TimesOfBasis()
    ensures Times(0x811c_9da4) == 0xe40c_292c
  {
    assert 0x811c_9da4 * 0x0100_0193 == 8461672 * TWO32 + 0xe40c_292c;
  }

  /** The published value for the one-byte message "a". */
  lemma PublishedValue()
    ensures Fold(BASIS, [0x61]) == 0xe40c_292c
  {
    XorOfBasis();
    TimesOfBasis();
    assert BASIS / 256 * 256 == 0x811c_9d00 && BASIS % 256 == 0xc5;
    assert Mix(BASIS, 0x61) == 0xe40c_292c;
    FoldOne(BASIS, 0x61);
  }

  lemma FoldOne(h: u32, b: u8)
    ensures Fold(h, [b]) == Mix(h, b)
  {
    assert [b][1..] == [];
  }

  /** A step forgets neither the state nor the byte. */
  lemma MixInjective(h: u32, h': u32, b: u8, b': u8)
    requires Mix(h, b) == Mix(h', b')
    ensures b == b' ==> h == h'
    ensures h == h' ==> b == b'
  {
    TimesUndone(XorByte(h, b));
    TimesUndone(XorByte(h', b'));
    XorByteInjective(h, h', b, b');
  }

  /** Different states stay different, whatever follows. */
  lemma {:induction false} FoldInjective(h: u32, h': u32, bytes: Bytes)
    requires h != h'
    ensures Fold(h, bytes) != Fold(h', bytes)
    decreases |bytes|
  {
    if bytes != [] {
      if Mix(h, bytes[0]) == Mix(h', bytes[0]) {
        MixInjective(h, h', bytes[0], bytes[0]);
      }
      FoldInjective(Mix(h, bytes[0]), Mix(h', bytes[0]), bytes[1..]);
    }
  }

  /** Changing one byte always changes the checksum. */
  lemma {:induction false} OneByteChanges(h: u32, a: Bytes, i: nat, b: u8)
    requires i < |a| && a[i] != b
    ensures Fold(h, a[i := b]) != Fold(h, a)
    decreases i
  {
    var a' := a[i := b];
    if i == 0 {
      assert a'[1..] == a[1..];
      if Mix(h, a[0]) == Mix(h, b) {
        MixInjective(h, h, a[0], b);
      }
      FoldInjective(Mix(h, a[0]), Mix(h, b), a[1..]);
    } else {
      assert a'[1..] == a[1..][i - 1 := b];
      OneByteChanges(Mix(h, a[0]), a[1..], i - 1, b);
    }
  }
}
