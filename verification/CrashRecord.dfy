/** The crash record: one sector, written at a panic and reported once at the next boot. */
module CrashRecord {
  import opened Words
  import opened LittleEndian
  import opened CrashChecksum

  const SECTOR := 512
  const RECORD := 196
  const REASON_BYTES := 64
  const REGS := 16
  const MAX_FRAMES := 8

  const OFF_MAGIC := 0
  const OFF_PENDING := 4
  const OFF_CHECKSUM := 8
  const OFF_TICKS := 12
  const OFF_REASON_LEN := 16
  const OFF_REASON := 20
  const OFF_HAS_REGS := 84
  const OFF_REGS := 88
  const OFF_HAS_FAULT := 152
  const OFF_FAULT := 156
  const OFF_STACK_COUNT := 160
  const OFF_STACK := 164

  const MAGIC: u32 := 0x4E56_4344
  const PENDING: u32 := 0x5045_4E44

  /** What is known of a crash when it happens. */
  datatype Crash = Crash(ticks: u32, reason: Bytes, hasRegs: bool, regs: seq<u32>, hasFault: bool, fault: u32,
                         stack: seq<u32>)

  /** What is reported of it: the reason ends in zeros, unused frames are zero. */
  datatype Report = Report(ticks: u32, reason: Bytes, hasRegs: u32, regs: seq<u32>, hasFault: u32, fault: u32,
                           stack: seq<u32>, stackCount: nat)

  function Flag(b: bool): u32 {
    if b then 1 else 0
  }

  function WordsAt(b: Bytes, off: nat, n: nat): (ws: seq<u32>)
    requires off + 4 * n <= |b|
    ensures |ws| == n
  {
    seq(n, i requires 0 <= i < n => Get32(b, off + 4 * i))
  }

  /** The first `n` of a list, filled up with zeros to `m`. */
  function Padded(ws: seq<u32>, n: nat, m: nat): (r: seq<u32>)
    requires n <= m && n <= |ws|
    ensures |r| == m
  {
    ws[..n] + seq(m - n, i => 0)
  }

  // ---- reading a record ----

  function Checksum(r: Bytes): u32
    requires |r| == RECORD
  {
    Fold(BASIS, r[OFF_TICKS..])
  }

  /** A record that is reported: its magic, a pending mark and a checksum that fits. */
  predicate Reported(r: Bytes)
    requires |r| == RECORD
  {
    Get32(r, OFF_MAGIC) == MAGIC && Get32(r, OFF_PENDING) == PENDING && Get32(r, OFF_CHECKSUM) == Checksum(r)
  }

  function Decode(r: Bytes): Report
    requires |r| == RECORD
  {
    var len := Min(Get32(r, OFF_REASON_LEN), REASON_BYTES - 1);
    var count := Min(Get32(r, OFF_STACK_COUNT), MAX_FRAMES);
    Report(Get32(r, OFF_TICKS), r[OFF_REASON..OFF_REASON + len] + Zeros(REASON_BYTES - len),
           Get32(r, OFF_HAS_REGS), WordsAt(r, OFF_REGS, REGS), Get32(r, OFF_HAS_FAULT), Get32(r, OFF_FAULT),
           Padded(WordsAt(r, OFF_STACK, MAX_FRAMES), count, MAX_FRAMES), count)
  }

  // ---- writing one ----

  /** What should be read back: at most 63 bytes of the reason and 8 frames. */
  function Expected(c: Crash): Report
    requires |c.regs| == REGS
  {
    var len, count := Min(|c.reason|, REASON_BYTES - 1), Min(|c.stack|, MAX_FRAMES);
    Report(c.ticks, c.reason[..len] + Zeros(REASON_BYTES - len), Flag(c.hasRegs), c.regs, Flag(c.hasFault), c.fault,
           Padded(c.stack, count, MAX_FRAMES), count)
  }

  /** Writes the words `ws` from `at` on. */
  method PutWords(b: Bytes, at: nat, ws: seq<u32>) returns (r: Bytes)
    requires at + 4 * |ws| <= |b|
    ensures |r| == |b| && WordsAt(r, at, |ws|) == ws
    ensures r[..at] == b[..at] && r[at + 4 * |ws|..] == b[at + 4 * |ws|..]
  {
    r := b;
    for i := 0 to |ws|
      invariant |r| == |b| && (forall j :: 0 <= j < i ==> Get32(r, at + 4 * j) == ws[j])
      invariant r[..at] == b[..at] && r[at + 4 * i..] == b[at + 4 * i..]
    {
      PutWord(r, b, at, i, ws[i]);
      r := Put(r, at + 4 * i, Enc32(ws[i]));
    }
  }

  lemma PutWord(r: Bytes, b: Bytes, at: nat, i: nat, w: u32)
    requires |r| == |b| && at + 4 * i + 4 <= |b| && r[..at] == b[..at] && r[at + 4 * i..] == b[at + 4 * i..]
    ensures var r' := Put(r, at + 4 * i, Enc32(w));
            && Get32(r', at + 4 * i) == w && r'[..at] == b[..at] && r'[at + 4 * i + 4..] == b[at + 4 * i + 4..]
            && forall j :: 0 <= j < i ==> Get32(r', at + 4 * j) == Get32(r, at + 4 * j)
  {
    var o := at + 4 * i;
    PutGet32(r, o, w);
    PutElsewhere(r, o, Enc32(w), 0, at);
    SubSlice(r, o, |r|, 4, |r| - o);
    SubSlice(b, o, |b|, 4, |b| - o);
  }

  /** `r` holds the crash `c` in its fields. */
  ghost predicate Holds(r: Bytes, c: Crash) {
    && |r| == RECORD && |c.regs| == REGS
    && var len, count := Min(|c.reason|, REASON_BYTES - 1), Min(|c.stack|, MAX_FRAMES);
    && Get32(r, OFF_TICKS) == c.ticks && Get32(r, OFF_REASON_LEN) == len
    && r[OFF_REASON..OFF_REASON + len] == c.reason[..len]
    && Get32(r, OFF_HAS_REGS) == Flag(c.hasRegs) && WordsAt(r, OFF_REGS, REGS) == c.regs
    && Get32(r, OFF_HAS_FAULT) == Flag(c.hasFault) && Get32(r, OFF_FAULT) == c.fault
    && Get32(r, OFF_STACK_COUNT) == count && WordsAt(r, OFF_STACK, count) == c.stack[..count]
  }

  /** The head of the record, up to the registers. */
  method EncodeHead(c: Crash, pending: bool) returns (b: Bytes)
    ensures |b| == RECORD && Get32(b, OFF_MAGIC) == MAGIC && Get32(b, OFF_PENDING) == (if pending then PENDING else 0)
    ensures Get32(b, OFF_TICKS) == c.ticks && Get32(b, OFF_REASON_LEN) == Min(|c.reason|, REASON_BYTES - 1)
    ensures var len := Min(|c.reason|, REASON_BYTES - 1); b[OFF_REASON..OFF_REASON + len] == c.reason[..len]
  {
    var len := if |c.reason| < REASON_BYTES - 1 then |c.reason| else REASON_BYTES - 1;
    var words := [MAGIC, if pending then PENDING else 0, 0, c.ticks, len];
    b := PutWords(Zeros(RECORD), OFF_MAGIC, words);
    assert words[0] == WordsAt(b, OFF_MAGIC, 5)[0] && words[1] == WordsAt(b, OFF_MAGIC, 5)[1];
    assert words[3] == WordsAt(b, OFF_MAGIC, 5)[3] && words[4] == WordsAt(b, OFF_MAGIC, 5)[4];
    ghost var head := b;
    b := Put(b, OFF_REASON, c.reason[..len]);
    GetElsewhere(head, OFF_REASON, c.reason[..len], OFF_MAGIC);
    GetElsewhere(head, OFF_REASON, c.reason[..len], OFF_PENDING);
    GetElsewhere(head, OFF_REASON, c.reason[..len], OFF_TICKS);
    GetElsewhere(head, OFF_REASON, c.reason[..len], OFF_REASON_LEN);
  }

  /** Words and slices before `at` are those of a buffer that agrees up to there. */
  lemma BeforeSame(b: Bytes, r: Bytes, at: nat, o: nat, n: nat)
    requires at <= |b| == |r| && r[..at] == b[..at] && o + n <= at
    ensures r[o..o + n] == b[o..o + n]
    ensures n == 4 ==> Get32(r, o) == Get32(b, o)
  {
    SubSlice(b, 0, at, o, o + n);
    SubSlice(r, 0, at, o, o + n);
    if n == 4 {
      forall j | o <= j < o + 4 ensures r[j] == b[j] {
        assert r[..at][j] == b[..at][j];
      }
    }
  }

  lemma WordsBefore(b: Bytes, r: Bytes, at: nat, off: nat, n: nat)
    requires at <= |b| == |r| && r[..at] == b[..at] && off + 4 * n <= at
    ensures WordsAt(r, off, n) == WordsAt(b, off, n)
  {
    forall i | 0 <= i < n ensures Get32(r, off + 4 * i) == Get32(b, off + 4 * i) {
      BeforeSame(b, r, at, off + 4 * i, 4);
    }
  }

  /** Registers behind the head. */
  method EncodeRegs(head: Bytes, c: Crash) returns (b: Bytes)
    requires |head| == RECORD && |c.regs| == REGS
    ensures |b| == RECORD && b[..OFF_HAS_REGS] == head[..OFF_HAS_REGS]
    ensures Get32(b, OFF_HAS_REGS) == Flag(c.hasRegs) && WordsAt(b, OFF_REGS, REGS) == c.regs
  {
    var flagged := PutWords(head, OFF_HAS_REGS, [Flag(c.hasRegs)]);
    assert WordsAt(flagged, OFF_HAS_REGS, 1)[0] == Flag(c.hasRegs);
    b := PutWords(flagged, OFF_REGS, c.regs);
    BeforeSame(flagged, b, OFF_REGS, OFF_HAS_REGS, 4);
    BeforeSame(flagged, b, OFF_REGS, 0, OFF_HAS_REGS);
  }

  /** Fault address and frames behind the registers. */
  method EncodeTail(front: Bytes, c: Crash) returns (b: Bytes)
    requires |front| == RECORD
    ensures |b| == RECORD && b[..OFF_HAS_FAULT] == front[..OFF_HAS_FAULT]
    ensures Get32(b, OFF_HAS_FAULT) == Flag(c.hasFault) && Get32(b, OFF_FAULT) == c.fault
    ensures var count := Min(|c.stack|, MAX_FRAMES);
            Get32(b, OFF_STACK_COUNT) == count && WordsAt(b, OFF_STACK, count) == c.stack[..count]
  {
    var count := if |c.stack| < MAX_FRAMES then |c.stack| else MAX_FRAMES;
    var fault := PutWords(front, OFF_HAS_FAULT, [Flag(c.hasFault), c.fault, count]);
    assert WordsAt(fault, OFF_HAS_FAULT, 3)[0] == Flag(c.hasFault);
    assert WordsAt(fault, OFF_HAS_FAULT, 3)[1] == c.fault && WordsAt(fault, OFF_HAS_FAULT, 3)[2] == count;
    b := PutWords(fault, OFF_STACK, c.stack[..count]);
    BeforeSame(fault, b, OFF_STACK, OFF_HAS_FAULT, 4);
    BeforeSame(fault, b, OFF_STACK, OFF_FAULT, 4);
    BeforeSame(fault, b, OFF_STACK, OFF_STACK_COUNT, 4);
    BeforeSame(fault, b, OFF_STACK, 0, OFF_HAS_FAULT);
  }

  /** The whole record with its checksum: it holds the crash, and is reported exactly if it
      was marked pending. */
  method EncodeRecord(c: Crash, pending: bool) returns (r: Bytes)
    requires |c.regs| == REGS
    ensures Holds(r, c) && (Reported(r) <==> pending)
  {
    var head := EncodeHead(c, pending);
    var front := EncodeRegs(head, c);
    var b := EncodeTail(front, c);
    BeforeSame(front, b, OFF_HAS_FAULT, 0, OFF_HAS_REGS);
    PartsHold(head, front, b, c);
    var sum := FoldBytes(BASIS, b[OFF_TICKS..]);
    r := Put(b, OFF_CHECKSUM, Enc32(sum));
    Summed(b, c, sum);
    BeforeSame(head, b, OFF_HAS_REGS, OFF_MAGIC, 4);
    BeforeSame(head, b, OFF_HAS_REGS, OFF_PENDING, 4);
  }

  lemma PartsHold(head: Bytes, front: Bytes, b: Bytes, c: Crash)
    requires |head| == |front| == |b| == RECORD && |c.regs| == REGS
    requires front[..OFF_HAS_REGS] == head[..OFF_HAS_REGS] && b[..OFF_HAS_FAULT] == front[..OFF_HAS_FAULT]
    requires Get32(head, OFF_TICKS) == c.ticks && Get32(head, OFF_REASON_LEN) == Min(|c.reason|, REASON_BYTES - 1)
    requires var len := Min(|c.reason|, REASON_BYTES - 1); head[OFF_REASON..OFF_REASON + len] == c.reason[..len]
    requires Get32(front, OFF_HAS_REGS) == Flag(c.hasRegs) && WordsAt(front, OFF_REGS, REGS) == c.regs
    requires Get32(b, OFF_HAS_FAULT) == Flag(c.hasFault) && Get32(b, OFF_FAULT) == c.fault
    requires var count := Min(|c.stack|, MAX_FRAMES);
             Get32(b, OFF_STACK_COUNT) == count && WordsAt(b, OFF_STACK, count) == c.stack[..count]
    ensures Holds(b, c)
  {
    var len := Min(|c.reason|, REASON_BYTES - 1);
    BeforeSame(head, front, OFF_HAS_REGS, OFF_TICKS, 4);
    BeforeSame(head, front, OFF_HAS_REGS, OFF_REASON_LEN, 4);
    BeforeSame(head, front, OFF_HAS_REGS, OFF_REASON, len);
    BeforeSame(front, b, OFF_HAS_FAULT, OFF_TICKS, 4);
    BeforeSame(front, b, OFF_HAS_FAULT, OFF_REASON_LEN, 4);
    BeforeSame(front, b, OFF_HAS_FAULT, OFF_REASON, len);
    BeforeSame(front, b, OFF_HAS_FAULT, OFF_HAS_REGS, 4);
    WordsBefore(front, b, OFF_HAS_FAULT, OFF_REGS, REGS);
  }

  /** Everything from the ticks on is behind the checksum. */
  lemma BehindSum(b: Bytes, r: Bytes, o: nat, n: nat)
    requires |b| == |r| == RECORD && r[OFF_TICKS..] == b[OFF_TICKS..] && OFF_TICKS <= o && o + n <= RECORD
    ensures r[o..o + n] == b[o..o + n]
    ensures n == 4 ==> Get32(r, o) == Get32(b, o)
  {
    SubSlice(b, OFF_TICKS, RECORD, o - OFF_TICKS, o + n - OFF_TICKS);
    SubSlice(r, OFF_TICKS, RECORD, o - OFF_TICKS, o + n - OFF_TICKS);
    if n == 4 {
      forall j | o <= j < o + 4 ensures r[j] == b[j] {
        assert r[OFF_TICKS..][j - OFF_TICKS] == b[OFF_TICKS..][j - OFF_TICKS];
      }
    }
  }

  lemma WordsBehind(b: Bytes, r: Bytes, off: nat, n: nat)
    requires |b| == |r| == RECORD && r[OFF_TICKS..] == b[OFF_TICKS..] && OFF_TICKS <= off && off + 4 * n <= RECORD
    ensures WordsAt(r, off, n) == WordsAt(b, off, n)
  {
    forall i | 0 <= i < n ensures Get32(r, off + 4 * i) == Get32(b, off + 4 * i) {
      BehindSum(b, r, off + 4 * i, 4);
    }
  }

  /** The fields depend on nothing before the ticks. */
  lemma HoldsBehind(b: Bytes, r: Bytes, c: Crash)
    requires Holds(b, c) && |r| == RECORD && r[OFF_TICKS..] == b[OFF_TICKS..]
    ensures Holds(r, c)
  {
    BehindSum(b, r, OFF_TICKS, 4);
    BehindSum(b, r, OFF_REASON_LEN, 4);
    BehindSum(b, r, OFF_REASON, Min(|c.reason|, REASON_BYTES - 1));
    BehindSum(b, r, OFF_HAS_REGS, 4);
    BehindSum(b, r, OFF_HAS_FAULT, 4);
    BehindSum(b, r, OFF_FAULT, 4);
    BehindSum(b, r, OFF_STACK_COUNT, 4);
    WordsBehind(b, r, OFF_REGS, REGS);
    WordsBehind(b, r, OFF_STACK, Min(|c.stack|, MAX_FRAMES));
  }

  lemma Summed(b: Bytes, c: Crash, sum: u32)
    requires Holds(b, c) && sum == Checksum(b)
    ensures var r := Put(b, OFF_CHECKSUM, Enc32(sum));
            && Holds(r, c) && Get32(r, OFF_CHECKSUM) == Checksum(r)
            && Get32(r, OFF_MAGIC) == Get32(b, OFF_MAGIC) && Get32(r, OFF_PENDING) == Get32(b, OFF_PENDING)
  {
    Enc32Get(Put(b, OFF_CHECKSUM, Enc32(sum)), OFF_CHECKSUM, sum);
    GetElsewhere(b, OFF_CHECKSUM, Enc32(sum), OFF_MAGIC);
    GetElsewhere(b, OFF_CHECKSUM, Enc32(sum), OFF_PENDING);
    HoldsBehind(b, Put(b, OFF_CHECKSUM, Enc32(sum)), c);
  }

  // ---- round trip ----

  lemma TakeWords(b: Bytes, off: nat, n: nat, m: nat)
    requires n <= m && off + 4 * m <= |b|
    ensures WordsAt(b, off, m)[..n] == WordsAt(b, off, n)
  {
  }

  /** Decoding what was encoded gives every field back, the reason cut to 63 bytes and the
      stack to 8 frames. */
  lemma RoundTrip(r: Bytes, c: Crash)
    requires Holds(r, c)
    ensures Decode(r) == Expected(c)
  {
    TakeWords(r, OFF_STACK, Min(|c.stack|, MAX_FRAMES), MAX_FRAMES);
  }

  // ---- damage ----

  /** A word with one of its bytes changed is another word. */
  lemma WordChanged(r: Bytes, i: nat, b: u8, o: nat)
    requires o + 4 <= |r| && o <= i < o + 4 && r[i] != b
    ensures Get32(r[i := b], o) != Get32(r, o)
  {
  }

  lemma WordSame(r: Bytes, i: nat, b: u8, o: nat)
    requires o + 4 <= |r| && i < |r| && !(o <= i < o + 4)
    ensures Get32(r[i := b], o) == Get32(r, o)
  {
  }

  /** A reported record with any one of its 196 bytes changed is not reported. */
  lemma OneByteUnreported(r: Bytes, i: nat, b: u8)
    requires |r| == RECORD && Reported(r) && i < RECORD && r[i] != b
    ensures !Reported(r[i := b])
  {
    var r' := r[i := b];
    if i < OFF_PENDING {
      WordChanged(r, i, b, OFF_MAGIC);
    } else if i < OFF_CHECKSUM {
      WordChanged(r, i, b, OFF_PENDING);
    } else if i < OFF_TICKS {
      WordChanged(r, i, b, OFF_CHECKSUM);
      assert r'[OFF_TICKS..] == r[OFF_TICKS..];
    } else {
      WordSame(r, i, b, OFF_CHECKSUM);
      assert r'[OFF_TICKS..] == r[OFF_TICKS..][i - OFF_TICKS := b];
      OneByteChanges(BASIS, r[OFF_TICKS..], i - OFF_TICKS, b);
    }
  }

  // ---- the sector ----

  class CrashRegion {
    var sector: Bytes

    /** Writes one record as a sector; the device may refuse. */
    method WriteRecord(record: Bytes, works: bool) returns (ok: bool)
      requires |record| == RECORD
      modifies this
      ensures ok == works && sector == if works then record + Zeros(SECTOR - RECORD) else old(sector)
    {
      if works {
        sector := record + Zeros(SECTOR - RECORD);
      }
      return works;
    }

    /** Saves a crash. */
    method Save(c: Crash, works: bool) returns (ok: bool)
      requires |c.regs| == REGS
      modifies this
      ensures ok == works && (!ok ==> sector == old(sector))
      ensures ok ==> |sector| == SECTOR && Holds(sector[..RECORD], c) && Reported(sector[..RECORD])
    {
      var record := EncodeRecord(c, true);
      ok := WriteRecord(record, works);
      assert ok ==> sector[..RECORD] == record;
    }

    /** Reports the record in the sector and marks it as seen: -1 if the sector cannot be read,
        0 if there is nothing to report, 1 with the report otherwise. */
    method ReadAndDecode(readable: bool, writable: bool) returns (code: int, report: Option<Report>)
      requires |sector| == SECTOR
      modifies this
      ensures |sector| == SECTOR
      ensures code == if !readable then -1 else if Reported(old(sector)[..RECORD]) then 1 else 0
      ensures report == if code == 1 then Some(Decode(old(sector)[..RECORD])) else None
      ensures code != 1 || !writable ==> sector == old(sector)
      ensures code == 1 && writable ==> !Reported(sector[..RECORD])
      ensures code == 1 && writable ==> sector[OFF_CHECKSUM..RECORD] == old(sector)[OFF_CHECKSUM..RECORD]
    {
      if !readable {
        return -1, None;
      }
      var record := sector[..RECORD];
      if Get32(record, OFF_MAGIC) != MAGIC || Get32(record, OFF_PENDING) != PENDING {
        return 0, None;
      }
      var sum := FoldBytes(BASIS, record[OFF_TICKS..]);
      if sum != Get32(record, OFF_CHECKSUM) {
        return 0, None;
      }
      var cleared := Put(record, OFF_PENDING, Enc32(0));
      Enc32Get(cleared, OFF_PENDING, 0);
      PutElsewhere(record, OFF_PENDING, Enc32(0), OFF_CHECKSUM, RECORD - OFF_CHECKSUM);
      var written := WriteRecord(cleared, writable);
      if writable {
        assert sector[..RECORD] == cleared;
        assert sector[OFF_CHECKSUM..RECORD] == cleared[OFF_CHECKSUM..RECORD];
        assert old(sector)[OFF_CHECKSUM..RECORD] == record[OFF_CHECKSUM..RECORD];
      }
      return 1, Some(Decode(record));
    }

    /** A saved crash is reported in full, and then not again if the mark could be written. */
    method SaveAndReportTwice(c: Crash, writable: bool) returns (first: Option<Report>, again: int)
      requires |c.regs| == REGS
      modifies this
      ensures first == Some(Expected(c)) && again == if writable then 0 else 1
    {
      var saved := Save(c, true);
      RoundTrip(sector[..RECORD], c);
      var code;
      code, first := ReadAndDecode(true, writable);
      var second;
      again, second := ReadAndDecode(true, writable);
    }
  }
}
