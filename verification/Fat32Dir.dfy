/** Directory slots of the FAT32 root directory: 32-byte records scanned in order. */
module Fat32Dir {
  import opened Words
  import opened LittleEndian

  const SLOT := 32
  const ATTR_VOLUME_ID: u8 := 0x08
  const ATTR_LFN: u8 := 0x0F
  const DELETED: u8 := 0xE5

  /** The slots of one cluster's bytes. */
  function Slots(b: Bytes): (ss: seq<Bytes>)
    ensures |ss| == |b| / SLOT
    ensures forall i :: 0 <= i < |ss| ==> |ss[i]| == SLOT && ss[i] == b[SLOT * i..SLOT * i + SLOT]
  {
    seq(|b| / SLOT, i requires 0 <= i < |b| / SLOT => b[SLOT * i..SLOT * i + SLOT])
  }

  predicate IsSlot(s: Bytes) {
    |s| == SLOT
  }

  function Name(s: Bytes): Bytes
    requires IsSlot(s)
  {
    s[..11]
  }

  function FirstCluster(s: Bytes): u32
    requires IsSlot(s)
  {
    Get16(s, 20) * 0x1_0000 + Get16(s, 26)
  }

  function Size(s: Bytes): u32
    requires IsSlot(s)
  {
    Get32(s, 28)
  }

  predicate IsEnd(s: Bytes)
    requires IsSlot(s)
  {
    s[0] == 0
  }

  /** A slot a new entry may take. */
  predicate Spare(s: Bytes)
    requires IsSlot(s)
  {
    s[0] == 0 || s[0] == DELETED
  }

  /** Deleted entries, long-name pieces and volume labels are passed over. */
  predicate Skipped(s: Bytes)
    requires IsSlot(s)
  {
    s[0] == DELETED || s[11] == ATTR_LFN || (s[11] / ATTR_VOLUME_ID) % 2 == 1
  }

  predicate Live(s: Bytes)
    requires IsSlot(s)
  {
    !IsEnd(s) && !Skipped(s)
  }

  predicate Named(s: Bytes, name: Bytes)
    requires IsSlot(s)
  {
    Live(s) && Name(s) == name
  }

  ghost predicate AllSlots(ss: seq<Bytes>) {
    forall i :: 0 <= i < |ss| ==> IsSlot(ss[i])
  }

  /** What a walk over slots comes to: the end mark, a match, or the last slot. */
  datatype Scan = End | Found(i: nat) | More

  function ScanFrom(ss: seq<Bytes>, name: Bytes, i: nat): (r: Scan)
    requires AllSlots(ss) && i <= |ss|
    ensures r.Found? ==> i <= r.i < |ss| && Named(ss[r.i], name)
    decreases |ss| - i
  {
    if i == |ss| then More
    else if IsEnd(ss[i]) then End
    else if Named(ss[i], name) then Found(i)
    else ScanFrom(ss, name, i + 1)
  }

  function Find(ss: seq<Bytes>, name: Bytes): (r: Option<nat>)
    requires AllSlots(ss)
    ensures r.Some? ==> r.value < |ss| && Named(ss[r.value], name)
  {
    match ScanFrom(ss, name, 0)
    case Found(i) => Some(i)
    case _ => None
  }

  /** The first spare slot at or after `i`; the number of slots if there is none. */
  function SpareFrom(ss: seq<Bytes>, i: nat): (k: nat)
    requires AllSlots(ss) && i <= |ss|
    ensures i <= k <= |ss| && (k < |ss| ==> Spare(ss[k]))
    ensures forall j :: i <= j < k ==> !Spare(ss[j])
    decreases |ss| - i
  {
    if i == |ss| || Spare(ss[i]) then i else SpareFrom(ss, i + 1)
  }

  // ---- well-formed directories ----

  /** No slot in use follows an end mark. */
  ghost predicate Terminated(ss: seq<Bytes>)
    requires AllSlots(ss)
  {
    forall i, j :: 0 <= i < j < |ss| && IsEnd(ss[i]) ==> IsEnd(ss[j])
  }

  ghost predicate UniqueNames(ss: seq<Bytes>)
    requires AllSlots(ss)
  {
    forall i, j :: 0 <= i < j < |ss| && Live(ss[i]) && Live(ss[j]) ==> Name(ss[i]) != Name(ss[j])
  }

  lemma {:induction false} ScanFinds(ss: seq<Bytes>, name: Bytes, i: nat, k: nat)
    requires AllSlots(ss) && Terminated(ss) && i <= k < |ss| && Named(ss[k], name)
    ensures ScanFrom(ss, name, i).Found?
    decreases k - i
  {
    if i < k && !Named(ss[i], name) {
      ScanFinds(ss, name, i + 1, k);
    }
  }

  /** In any directory the walk finds the first live slot with the name, unless an end mark comes
      before it. */
  lemma {:induction false} ScanExactly(ss: seq<Bytes>, name: Bytes, i: nat, k: nat)
    requires AllSlots(ss) && i <= |ss|
    ensures ScanFrom(ss, name, i) == Found(k) <==>
            i <= k < |ss| && Named(ss[k], name) && forall j :: i <= j < k ==> !IsEnd(ss[j]) && !Named(ss[j], name)
    decreases |ss| - i
  {
    if i < |ss| {
      ScanExactly(ss, name, i + 1, k);
    }
  }

  lemma FindExactly(ss: seq<Bytes>, name: Bytes, k: nat)
    requires AllSlots(ss)
    ensures Find(ss, name) == Some(k) <==>
            k < |ss| && Named(ss[k], name) && forall j :: 0 <= j < k ==> !IsEnd(ss[j]) && !Named(ss[j], name)
  {
    ScanExactly(ss, name, 0, k);
  }

  /** In a well-formed directory the walk finds a name exactly when some live slot carries
      it, and then that slot. */
  lemma FindIff(ss: seq<Bytes>, name: Bytes, k: nat)
    requires AllSlots(ss) && Terminated(ss) && UniqueNames(ss)
    ensures Find(ss, name) == Some(k) <==> k < |ss| && Named(ss[k], name)
  {
    if k < |ss| && Named(ss[k], name) {
      ScanFinds(ss, name, 0, k);
    }
  }

  lemma FindNone(ss: seq<Bytes>, name: Bytes)
    requires AllSlots(ss) && Terminated(ss)
    ensures Find(ss, name) == None <==> forall k :: 0 <= k < |ss| ==> !Named(ss[k], name)
  {
    if k :| 0 <= k < |ss| && Named(ss[k], name) {
      ScanFinds(ss, name, 0, k);
    }
  }

  /** Walking cluster after cluster is walking all their slots. */
  lemma {:induction false} ScanAppend(a: seq<Bytes>, b: seq<Bytes>, name: Bytes, i: nat)
    requires AllSlots(a) && AllSlots(b) && i <= |a|
    ensures ScanFrom(a + b, name, i)
            == match ScanFrom(a, name, i)
               case More => (match ScanFrom(b, name, 0) case Found(j) => Found(|a| + j) case r => r)
               case r => r
    decreases |a| - i
  {
    if i < |a| {
      ScanAppend(a, b, name, i + 1);
    } else {
      ScanShift(a, b, name, 0);
    }
  }

  lemma {:induction false} ScanShift(a: seq<Bytes>, b: seq<Bytes>, name: Bytes, j: nat)
    requires AllSlots(a) && AllSlots(b) && j <= |b|
    ensures ScanFrom(a + b, name, |a| + j)
            == match ScanFrom(b, name, j) case Found(i) => Found(|a| + i) case r => r
    decreases |b| - j
  {
    if j < |b| {
      assert (a + b)[|a| + j] == b[j];
      ScanShift(a, b, name, j + 1);
    }
  }

  lemma {:induction false} SpareAppend(a: seq<Bytes>, b: seq<Bytes>, i: nat)
    requires AllSlots(a) && AllSlots(b) && i <= |a| && SpareFrom(a, i) == |a|
    ensures SpareFrom(a + b, i) == |a| + SpareFrom(b, 0)
    decreases |a| - i
  {
    if i < |a| {
      SpareAppend(a, b, i + 1);
    } else {
      SpareShift(a, b, 0);
    }
  }

  lemma {:induction false} SpareShift(a: seq<Bytes>, b: seq<Bytes>, j: nat)
    requires AllSlots(a) && AllSlots(b) && j <= |b|
    ensures SpareFrom(a + b, |a| + j) == |a| + SpareFrom(b, j)
    decreases |b| - j
  {
    if j < |b| {
      assert (a + b)[|a| + j] == b[j];
      if !Spare(b[j]) {
        SpareShift(a, b, j + 1);
      }
    }
  }

  lemma {:induction false} SpareWithin(a: seq<Bytes>, b: seq<Bytes>, i: nat)
    requires AllSlots(a) && AllSlots(b) && i <= |a| && SpareFrom(a, i) < |a|
    ensures SpareFrom(a + b, i) == SpareFrom(a, i)
    decreases |a| - i
  {
    if !Spare(a[i]) {
      SpareWithin(a, b, i + 1);
    }
  }

  // ---- entries ----

  /** The entry the driver writes for a new file. */
  function Entry(name: Bytes, first: u32, size: u32): (s: Bytes)
    requires |name| == 11
    ensures IsSlot(s)
  {
    name + [0] + Zeros(8) + Enc16(first / 0x1_0000) + Zeros(4) + Enc16(first % 0x1_0000) + Enc32(size)
  }

  /** Every field of a new entry is read back; it is live unless its name says deleted. */
  lemma EntryFields(name: Bytes, first: u32, size: u32)
    requires |name| == 11 && name[0] != 0
    ensures var s := Entry(name, first, size);
            && Name(s) == name && FirstCluster(s) == first && Size(s) == size
            && !IsEnd(s) && (Live(s) <==> name[0] != DELETED)
            && s[11..20] == Zeros(9) && s[22..26] == Zeros(4)
  {
    var s := Entry(name, first, size);
    assert s[20..22] == Enc16(first / 0x1_0000);
    assert s[26..28] == Enc16(first % 0x1_0000);
    assert s[28..32] == Enc32(size);
    Enc16Get(s, 20, first / 0x1_0000);
    Enc16Get(s, 26, first % 0x1_0000);
    Enc32Get(s, 28, size);
  }

  /** What a slot says: the name, the attributes, and around the times the two halves of the first
      cluster, and the size. It is live unless it is free or deleted, a piece of a long name, or
      has the volume bit. */
  lemma SlotMeaning(s: Bytes, name: Bytes, attr: u8, made: Bytes, hi: u16, changed: Bytes, lo: u16, size: u32)
    requires |name| == 11 && |made| == 8 && |changed| == 4
    requires s == name + [attr] + made + Enc16(hi) + changed + Enc16(lo) + Enc32(size)
    ensures IsSlot(s) && Name(s) == name && FirstCluster(s) == lo + 0x1_0000 * hi && Size(s) == size
    ensures Live(s) <==> name[0] != 0 && name[0] != 0xE5 && attr != 0x0F && AndBits(attr, 0x08, 8) == 0
  {
    assert s[20..22] == Enc16(hi) && s[26..28] == Enc16(lo) && s[28..32] == Enc32(size);
    Enc16Get(s, 20, hi);
    Enc16Get(s, 26, lo);
    Enc32Get(s, 28, size);
    VolumeBit(attr);
  }

  lemma VolumeBit(a: u8)
    ensures AndBits(a, 8, 8) == 0 <==> a / 8 % 2 == 0
  {
    assert AndBits(a / 2 / 2 / 2, 1, 5) == 2 * AndBits(a / 16, 0, 4) + if a / 8 % 2 == 1 then 1 else 0;
    assert AndBits(a / 2 / 2, 2, 6) == 2 * AndBits(a / 2 / 2 / 2, 1, 5);
    assert AndBits(a / 2, 4, 7) == 2 * AndBits(a / 2 / 2, 2, 6);
    assert AndBits(a, 8, 8) == 2 * AndBits(a / 2, 4, 7);
  }

  /** Writing a slot in a cluster's bytes changes that slot and no other. */
  lemma PutSlot(b: Bytes, j: nat, s: Bytes)
    requires IsSlot(s) && SLOT * j + SLOT <= |b|
    ensures Slots(Put(b, SLOT * j, s)) == Slots(b)[j := s]
  {
    forall i | 0 <= i < |Slots(b)| && i != j ensures Slots(Put(b, SLOT * j, s))[i] == Slots(b)[i] {
      PutElsewhere(b, SLOT * j, s, SLOT * i, SLOT);
    }
  }
}
