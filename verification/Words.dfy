/** Machine integers, wrapping arithmetic and little-endian words, shared by every component. */
module Words {

  const TWO16: int := 0x1_0000
  const TWO28: int := 0x1000_0000
  const TWO31: int := 0x8000_0000
  const TWO32: int := 0x1_0000_0000

  type u8 = x: int | 0 <= x < 256
  type u16 = x: int | 0 <= x < 0x1_0000
  type u32 = x: int | 0 <= x < 0x1_0000_0000

  type Bytes = seq<u8>

  datatype Option<+T> = None | Some(value: T)

  function Min(a: int, b: int): int {
    if a < b then a else b
  }

  function Zeros(n: nat): (z: Bytes)
    ensures |z| == n && forall i :: 0 <= i < n ==> z[i] == 0
  {
    seq(n, i => 0)
  }

  /** Bytes `off .. off + len - 1`, as far as they exist. */
  function Slice(b: Bytes, off: nat, len: nat): Bytes {
    b[Min(off, |b|)..Min(off + len, |b|)]
  }

  function Pow2(n: nat): (p: nat)
    ensures p >= 1
  {
    if n == 0 then 1 else 2 * Pow2(n - 1)
  }

  function Wrap32(x: int): u32 {
    x % TWO32
  }

  /** The signed reading of a 32-bit word: C's `(int)`. */
  function AsInt(x: u32): int {
    if x < TWO31 then x else x - TWO32
  }

  function And8(a: u8, b: u8): u8 {
    ((a as bv8) & (b as bv8)) as u8
  }

  /** Bitwise and of the low `n` bits. */
  function AndBits(a: nat, b: nat, n: nat): (r: nat)
    ensures r <= a && (b == 0 ==> r == 0)
  {
    if n == 0 then 0 else 2 * AndBits(a / 2, b / 2, n - 1) + if a % 2 == 1 && b % 2 == 1 then 1 else 0
  }

  function And32(a: u32, b: u32): (r: u32)
    ensures b == 0 ==> r == 0
  {
    AndBits(a, b, 32)
  }

  /** Rust's u32::wrapping_add. */
  function WrapAdd(a: u32, b: u32): u32 {
    if a + b < TWO32 then a + b else a + b - TWO32
  }

  /** Rust's u32::wrapping_sub. */
  function WrapSub(a: u32, b: u32): u32 {
    if a >= b then a - b else a - b + TWO32
  }

  lemma Monotone(a: nat, b: nat, k: nat)
    requires a <= b
    ensures a * k <= b * k
  {
  }

  lemma DivParts(x: nat, k: nat)
    requires k > 0
    ensures x / k * k <= x < x / k * k + k && (x / k == 0 <==> x < k)
  {
    assert x == x / k * k + x % k;
  }

  /** Equal blocks laid end to end do not overlap. */
  lemma BlocksApart(a: nat, b: nat, k: nat)
    requires a < b
    ensures a * k + k <= b * k
  {
    assert b * k == a * k + k + (b - a - 1) * k;
  }
}
