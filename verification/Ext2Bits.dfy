/** Allocation bitmaps: one bit per block or inode, lowest bit of byte 0 first. */
module Ext2Bits {
  import opened Words

  /** Binary digit `k` of `x`. */
  function Digit(x: nat, k: nat): (d: nat)
    ensures d <= 1
  {
    if k == 0 then x % 2 else Digit(x / 2, k - 1)
  }

  /** `x | 1 << k`. */
  function SetDigit(x: nat, k: nat): nat {
    if k == 0 then x / 2 * 2 + 1 else SetDigit(x / 2, k - 1) * 2 + x % 2
  }

  lemma {:induction false} SetDigitInRange(x: nat, k: nat, n: nat)
    requires x < Pow2(n) && k < n
    ensures SetDigit(x, k) < Pow2(n)
  {
    assert Pow2(n) == 2 * Pow2(n - 1) && x / 2 < Pow2(n - 1);
    if k > 0 {
      SetDigitInRange(x / 2, k - 1, n - 1);
    }
  }

  lemma {:induction false} SetDigitOnly(x: nat, k: nat, j: nat)
    ensures Digit(SetDigit(x, k), j) == if j == k then 1 else Digit(x, j)
  {
    if k > 0 && j > 0 {
      SetDigitOnly(x / 2, k - 1, j - 1);
    }
  }

  lemma {:induction false} AllOnes(n: nat, k: nat)
    requires k < n
    ensures Digit(Pow2(n) - 1, k) == 1
  {
    if k > 0 {
      AllOnes(n - 1, k - 1);
    }
    OddHalf(Pow2(n - 1));
  }

  lemma OddHalf(p: nat)
    requires p >= 1
    ensures (2 * p - 1) / 2 == p - 1 && (2 * p - 1) % 2 == 1
  {
  }

  predicate ByteBit(x: u8, k: nat) {
    Digit(x, k) == 1
  }

  predicate Bit(b: Bytes, k: nat)
    requires k < 8 * |b|
  {
    ByteBit(b[k / 8], k % 8)
  }

  function SetByteBit(x: u8, k: nat): u8
    requires k < 8
  {
    assert Pow2(8) == 256;
    SetDigitInRange(x, k, 8);
    SetDigit(x, k)
  }

  function SetBit(b: Bytes, k: nat): (r: Bytes)
    requires k < 8 * |b|
    ensures |r| == |b|
  {
    b[k / 8 := SetByteBit(b[k / 8], k % 8)]
  }

  /** Setting a bit sets that bit and changes no other. */
  lemma SetBitOnly(b: Bytes, k: nat)
    requires k < 8 * |b|
    ensures Bit(SetBit(b, k), k)
    ensures forall j: nat :: j < 8 * |b| && j != k ==> Bit(SetBit(b, k), j) == Bit(b, j)
  {
    forall j: nat | j < 8 * |b| ensures Bit(SetBit(b, k), j) <==> j == k || Bit(b, j) {
      if j / 8 == k / 8 {
        SetDigitOnly(b[k / 8], k % 8, j % 8);
      }
    }
  }

  /** The number of clear bits among the first `n`. */
  function ClearBits(b: Bytes, n: nat): (c: nat)
    requires n <= 8 * |b|
    ensures c <= n
  {
    if n == 0 then 0 else ClearBits(b, n - 1) + if Bit(b, n - 1) then 0 else 1
  }

  /** There is a clear bit exactly when the count says so. */
  lemma {:induction false} ClearBitsNone(b: Bytes, n: nat)
    requires n <= 8 * |b|
    ensures ClearBits(b, n) == 0 <==> forall j: nat :: j < n ==> Bit(b, j)
  {
    if n > 0 {
      ClearBitsNone(b, n - 1);
    }
  }

  /** Taking a clear bit takes one off the count. */
  lemma {:induction false} ClearBitsSet(b: Bytes, n: nat, k: nat)
    requires n <= 8 * |b| && k < 8 * |b| && !Bit(b, k)
    ensures ClearBits(SetBit(b, k), n) == ClearBits(b, n) - if k < n then 1 else 0
  {
    SetBitOnly(b, k);
    if n > 0 {
      ClearBitsSet(b, n - 1, k);
    }
  }

  /** The first clear bit among the first `n`, in a scan by bytes that passes over full ones. */
  method FirstClear(b: Bytes, n: nat) returns (k: Option<nat>)
    requires n <= 8 * |b|
    ensures k.None? ==> ClearBits(b, n) == 0
    ensures k.Some? ==> k.value < n && !Bit(b, k.value) && forall j: nat :: j < k.value ==> Bit(b, j)
  {
    var byteIdx: nat := 0;
    while byteIdx < (n + 7) / 8
      invariant byteIdx <= (n + 7) / 8
      invariant forall j: nat :: j < 8 * byteIdx && j < n ==> Bit(b, j)
    {
      if b[byteIdx] == 0xFF {
        forall j: nat | 8 * byteIdx <= j < 8 * byteIdx + 8 ensures Bit(b, j) {
          AllOnes(8, j % 8);
        }
      } else {
        var bit: nat := 0;
        while bit < 8
          invariant bit <= 8
          invariant forall j: nat :: j < 8 * byteIdx + bit && j < n ==> Bit(b, j)
        {
          var globalBit := 8 * byteIdx + bit;
          if globalBit >= n {
            break;
          }
          if !ByteBit(b[byteIdx], bit) {
            return Some(globalBit);
          }
          bit := bit + 1;
        }
      }
      byteIdx := byteIdx + 1;
    }
    ClearBitsNone(b, n);
    return None;
  }
}
