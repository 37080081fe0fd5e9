/** Little-endian words inside byte buffers, and copying into a buffer. */
module LittleEndian {
  import opened Words

  function Get16(b: seq<u8>, off: nat): u16
    requires off + 2 <= |b|
  {
    b[off] as int + 0x100 * (b[off + 1] as int)
  }

  function Get32(b: seq<u8>, off: nat): u32
    requires off + 4 <= |b|
  {
    b[off] as int + 0x100 * (b[off + 1] as int) + 0x1_0000 * (b[off + 2] as int) + 0x100_0000 * (b[off + 3] as int)
  }

  function Enc16(v: u16): (r: seq<u8>)
    ensures |r| == 2
  {
    [v % 0x100, v / 0x100]
  }

  function Enc32(v: u32): (r: seq<u8>)
    ensures |r| == 4
  {
    [v % 0x100, v / 0x100 % 0x100, v / 0x1_0000 % 0x100, v / 0x100_0000]
  }

  /** memcpy of `data` to offset `off` of `b`. */
  function Put(b: seq<u8>, off: nat, data: seq<u8>): (r: seq<u8>)
    requires off + |data| <= |b|
    ensures |r| == |b|
    ensures r[off..off + |data|] == data
    ensures r[..off] == b[..off] && r[off + |data|..] == b[off + |data|..]
  {
    b[..off] + data + b[off + |data|..]
  }

  lemma Digits(v: u32)
    ensures v == v % 0x100 + 0x100 * (v / 0x100 % 0x100) + 0x1_0000 * (v / 0x1_0000 % 0x100) + 0x100_0000 * (v / 0x100_0000)
  {
    assert v == v % 0x100 + 0x100 * (v / 0x100);
    assert v / 0x100 == v / 0x100 % 0x100 + 0x100 * (v / 0x1_0000);
    assert v / 0x1_0000 == v / 0x1_0000 % 0x100 + 0x100 * (v / 0x100_0000);
  }

  lemma Enc32Get(b: seq<u8>, off: nat, v: u32)
    requires off + 4 <= |b| && b[off..off + 4] == Enc32(v)
    ensures Get32(b, off) == v
  {
    var e := Enc32(v);
    assert b[off] == b[off..off + 4][0] == e[0];
    assert b[off + 1] == b[off..off + 4][1] == e[1];
    assert b[off + 2] == b[off..off + 4][2] == e[2];
    assert b[off + 3] == b[off..off + 4][3] == e[3];
    Digits(v);
  }

  lemma GetEnc32(b: seq<u8>, off: nat)
    requires off + 4 <= |b|
    ensures b[off..off + 4] == Enc32(Get32(b, off))
  {
    var v := Get32(b, off);
    var hi := b[off + 2] as int + 0x100 * (b[off + 3] as int);
    var mid := b[off + 1] as int + 0x100 * hi;
    assert v == b[off] as int + 0x100 * mid;
    assert v % 0x100 == b[off] && v / 0x100 == mid;
    assert mid % 0x100 == b[off + 1] && mid / 0x100 == hi;
    assert v / 0x1_0000 == hi && v / 0x100_0000 == b[off + 3];
  }

  lemma Enc16Get(b: seq<u8>, off: nat, v: u16)
    requires off + 2 <= |b| && b[off..off + 2] == Enc16(v)
    ensures Get16(b, off) == v
  {
    assert b[off] == b[off..off + 2][0] && b[off + 1] == b[off..off + 2][1];
  }

  /** A word is read back where it was put, and a word that does not overlap it is not
      disturbed. */
  lemma PutGet32(b: seq<u8>, off: nat, v: u32)
    requires off + 4 <= |b|
    ensures Get32(Put(b, off, Enc32(v)), off) == v
    ensures forall o: nat :: o + 4 <= |b| && (o + 4 <= off || off + 4 <= o) ==>
              Get32(Put(b, off, Enc32(v)), o) == Get32(b, o)
  {
    var r := Put(b, off, Enc32(v));
    Enc32Get(r, off, v);
    forall o: nat | o + 4 <= |b| && (o + 4 <= off || off + 4 <= o) ensures Get32(r, o) == Get32(b, o) {
      SameBytes(b, off, Enc32(v), o);
      SameBytes(b, off, Enc32(v), o + 1);
      SameBytes(b, off, Enc32(v), o + 2);
      SameBytes(b, off, Enc32(v), o + 3);
    }
  }

  lemma SameBytes(b: seq<u8>, off: nat, data: seq<u8>, o: nat)
    requires off + |data| <= |b| && o < |b| && (o < off || off + |data| <= o)
    ensures Put(b, off, data)[o] == b[o]
  {
  }

  /** Words apart from what was put are read as before. */
  lemma GetElsewhere(b: seq<u8>, off: nat, data: seq<u8>, o: nat)
    requires off + |data| <= |b|
    ensures o + 4 <= |b| && (o + 4 <= off || off + |data| <= o) ==> Get32(Put(b, off, data), o) == Get32(b, o)
    ensures o + 2 <= |b| && (o + 2 <= off || off + |data| <= o) ==> Get16(Put(b, off, data), o) == Get16(b, o)
  {
  }

  lemma PutElsewhere(b: seq<u8>, off: nat, data: seq<u8>, o: nat, n: nat)
    requires off + |data| <= |b| && o + n <= |b| && (o + n <= off || off + |data| <= o)
    ensures Put(b, off, data)[o..o + n] == b[o..o + n]
  {
    var r := Put(b, off, data);
    if o + n <= off {
      SubSlice(r, 0, off, o, o + n);
      SubSlice(b, 0, off, o, o + n);
    } else {
      var e := off + |data|;
      SubSlice(r, e, |r|, o - e, o - e + n);
      SubSlice(b, e, |b|, o - e, o - e + n);
    }
  }

  lemma SubSlice(s: seq<u8>, a: nat, b: nat, c: nat, d: nat)
    requires a <= b <= |s| && c <= d <= b - a
    ensures s[a..b][c..d] == s[a + c..a + d]
  {
    var l, r := s[a..b][c..d], s[a + c..a + d];
    forall k | 0 <= k < |l| ensures l[k] == r[k] {
      assert l[k] == s[a..b][c + k] == s[a + c + k];
    }
  }
}
