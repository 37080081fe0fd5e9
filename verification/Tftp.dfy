/** The TFTP client's receive loop, against any order of arrival (RFC 1350). */
module Tftp {
  import opened Words

  const OPCODE_DATA := 3
  const OPCODE_ERROR := 5
  const BLOCK := 512
  const RECV_BUF := 600
  const SERVER_PORT: u16 := 69

  /** What one turn of the loop meets: the deadline, nothing to receive, or a datagram. */
  datatype Event = Deadline | Quiet | Datagram(port: u16, bytes: Bytes)

  function Word(b: Bytes, off: nat): u16
    requires off + 2 <= |b|
  {
    0x100 * (b[off] as int) + (b[off + 1] as int)
  }

  predicate IsData(e: Event) {
    e.Datagram? && |e.bytes| >= 4 && Word(e.bytes, 0) == OPCODE_DATA
  }

  /** The client: what the caller's buffer holds, the block it waits for, the server's port
      once known, the acknowledgements sent, and the value returned. */
  datatype Client = Client(got: Bytes, expected: u16, port: u16, locked: bool, acks: seq<u16>, result: Option<int>)

  function Start(): Client {
    Client([], 1, SERVER_PORT, false, [], None)
  }

  /** A 32-bit count as the signed int that is returned. */
  function Signed(n: nat): int {
    if n < TWO31 then n else n - TWO32
  }

  function Next(n: u16): u16 {
    if n == 0xFFFF then 0 else n + 1
  }

  function Previous(n: u16): u16 {
    if n == 0 then 0xFFFF else n - 1
  }

  /** A data block from the server the client listens to. */
  function TakeBlock(c: Client, cap: nat, block: u16, data: Bytes): Client {
    if block == c.expected then
      if |c.got| + |data| > cap then c.(result := Some(-1))
      else
        var d := c.(got := c.got + data, acks := c.acks + [block]);
        if |data| < BLOCK then d.(result := Some(Signed(|d.got|))) else d.(expected := Next(c.expected))
    else if block == Previous(c.expected) then c.(acks := c.acks + [block])
    else c
  }

  /** One turn of the loop; nothing happens after the return. */
  function Step(c: Client, cap: nat, e: Event): Client {
    if c.result.Some? then c
    else
      match e
      case Deadline => c.(result := Some(-1))
      case Quiet => c
      case Datagram(port, bytes) =>
        if |bytes| < 4 then c
        else if Word(bytes, 0) == OPCODE_ERROR then c.(result := Some(-1))
        else if Word(bytes, 0) != OPCODE_DATA then c
        else if c.locked && port != c.port then c
        else TakeBlock(c.(port := port, locked := true), cap, Word(bytes, 2), bytes[4..])
  }

  function Run(cap: nat, es: seq<Event>): Client {
    if es == [] then Start() else Step(Run(cap, es[..|es| - 1]), cap, es[|es| - 1])
  }

  // ---- the loop ----

  /** A datagram that arrives while the client waits. */
  method Receive(buf: array<u8>, c: Client, received: nat, from: u16, bytes: Bytes) returns (d: Client, total: nat)
    requires received <= buf.Length && c.got == buf[..received] && c.result.None?
    requires buf.Length + RECV_BUF < TWO32 && |bytes| <= RECV_BUF
    modifies buf
    ensures d == Step(c, buf.Length, Datagram(from, bytes))
    ensures total <= buf.Length && d.got == buf[..total] && buf[total..] == old(buf[total..])
  {
    d, total := c, received;
    if |bytes| < 4 {
      return;
    }
    var opcode := Word(bytes, 0);
    if opcode == OPCODE_ERROR {
      d := d.(result := Some(-1));
      return;
    }
    if opcode != OPCODE_DATA {
      return;
    }
    if !d.locked {
      d := d.(port := from, locked := true);
    } else if from != d.port {
      return;
    }
    var block, len := Word(bytes, 2), |bytes| - 4;
    if block == d.expected {
      if total + len > buf.Length {
        d := d.(result := Some(-1));
        return;
      }
      CopyIn(buf, total, bytes[4..]);
      total := total + len;
      d := d.(got := buf[..total], acks := d.acks + [block]);
      d := if len < BLOCK then d.(result := Some(Signed(total))) else d.(expected := Next(d.expected));
    } else if block == Previous(d.expected) {
      d := d.(acks := d.acks + [block]);
    }
  }

  /** The loop over the arrivals `es`, filling the caller's buffer in place. */
  method Get(buf: array<u8>, es: seq<Event>) returns (result: Option<int>, received: nat, acks: seq<u16>)
    requires buf.Length + RECV_BUF < TWO32
    requires forall i :: 0 <= i < |es| && es[i].Datagram? ==> |es[i].bytes| <= RECV_BUF
    modifies buf
    ensures received <= buf.Length && buf[..received] == Run(buf.Length, es).got
    ensures result == Run(buf.Length, es).result && acks == Run(buf.Length, es).acks
    ensures buf[received..] == old(buf[received..])
  {
    var c := Start();
    received := 0;
    var i: nat := 0;
    while i < |es| && c.result.None?
      invariant i <= |es| && received <= buf.Length && c.got == buf[..received]
      invariant c == Run(buf.Length, es[..i])
      invariant buf[received..] == old(buf[received..])
      decreases |es| - i
    {
      assert es[..i + 1][..i] == es[..i];
      match es[i] {
        case Deadline =>
          c := c.(result := Some(-1));
        case Quiet =>
        case Datagram(from, bytes) =>
          c, received := Receive(buf, c, received, from, bytes);
      }
      i := i + 1;
    }
    RunDone(buf.Length, es, i);
    result, acks := c.result, c.acks;
  }

  /** memcpy into the buffer. */
  method CopyIn(buf: array<u8>, at: nat, data: Bytes)
    requires at + |data| <= buf.Length
    modifies buf
    ensures buf[..at] == old(buf[..at]) && buf[at..at + |data|] == data
    ensures buf[..at + |data|] == old(buf[..at]) + data
    ensures buf[at + |data|..] == old(buf[at + |data|..])
  {
    for k := 0 to |data|
      invariant forall j :: 0 <= j < buf.Length ==> buf[j] == if at <= j < at + k then data[j - at] else old(buf[j])
    {
      buf[at + k] := data[k];
    }
  }

  /** A client that has returned ignores the rest. */
  lemma {:induction false} RunDone(cap: nat, es: seq<Event>, i: nat)
    requires i <= |es| && (i == |es| || Run(cap, es[..i]).result.Some?)
    ensures Run(cap, es) == Run(cap, es[..i])
    decreases |es|
  {
    if i == |es| {
      assert es[..i] == es;
    } else {
      var n := |es| - 1;
      assert es[..n][..i] == es[..i];
      RunDone(cap, es[..n], i);
    }
  }

  // ---- a file and its blocks ----

  /** The number of blocks of a file: the last one is short, perhaps empty. */
  function BlockCount(file: Bytes): nat {
    |file| / BLOCK + 1
  }

  function BlockOf(file: Bytes, b: nat): Bytes
    requires 1 <= b <= BlockCount(file)
  {
    file[(b - 1) * BLOCK..Min(b * BLOCK, |file|)]
  }

  /** A data datagram with the true content of block `b`, whose number is sent in 16 bits. */
  predicate Carries(e: Event, file: Bytes, b: nat) {
    && IsData(e) && 1 <= b <= BlockCount(file)
    && Word(e.bytes, 2) == b % TWO16 && e.bytes[4..] == BlockOf(file, b)
  }

  /** Any loss, duplication and reordering: every data datagram from `port` carries some true
      block, and the first data datagram to arrive is from there. */
  ghost predicate Honest(file: Bytes, port: u16, es: seq<Event>) {
    && (forall i :: 0 <= i < |es| && IsData(es[i]) && es[i].port == port ==> exists b: nat :: Carries(es[i], file, b))
    && (forall i :: 0 <= i < |es| && IsData(es[i]) && es[i].port != port ==>
          exists j :: 0 <= j < i && IsData(es[j]) && es[j].port == port)
  }

  lemma HonestPrefix(file: Bytes, port: u16, es: seq<Event>, e: Event)
    requires Honest(file, port, es + [e])
    ensures Honest(file, port, es)
    ensures IsData(e) && e.port == port ==> exists b: nat :: Carries(e, file, b)
    ensures IsData(e) && e.port != port ==> exists j :: 0 <= j < |es| && IsData(es[j]) && es[j].port == port
  {
    var fs := es + [e];
    assert fs[|es|] == e;
    forall i | 0 <= i < |es| ensures fs[i] == es[i] {}
    forall i | 0 <= i < |es| && IsData(es[i]) && es[i].port != port
      ensures exists j :: 0 <= j < i && IsData(es[j]) && es[j].port == port
    {
      var j :| 0 <= j < i && IsData(fs[j]) && fs[j].port == port;
      assert es[j] == fs[j];
    }
  }

  // ---- the buffer is a prefix of the file ----

  /** `k` whole blocks have been received and the next is awaited, or all of the file. */
  ghost predicate InStep(c: Client, file: Bytes, k: nat) {
    && k * BLOCK <= |file| && c.got == (if c.result.Some? && c.result.value >= 0 then file else file[..k * BLOCK])
    && c.expected == (k + 1) % TWO16
    && (c.result.Some? ==> c.result.value == -1 || c.result.value == Signed(|file|))
  }

  lemma NextNumber(k: nat)
    ensures Next((k + 1) % TWO16) == (k + 2) % TWO16
  {
  }

  /** The block a client in step takes next is the block that comes next. */
  lemma RightBlock(k: nat, b: nat, n: nat)
    requires b % TWO16 == (k + 1) % TWO16 && 1 <= b <= n && k + 1 <= n <= TWO16
    ensures b == k + 1
  {
  }

  lemma TakeInStep(c: Client, file: Bytes, k: nat, cap: nat, e: Event, b: nat)
    requires InStep(c, file, k) && c.result.None? && Carries(e, file, b) && BlockCount(file) <= TWO16
    ensures exists j: nat :: InStep(TakeBlock(c, cap, Word(e.bytes, 2), e.bytes[4..]), file, j)
  {
    var d := TakeBlock(c, cap, Word(e.bytes, 2), e.bytes[4..]);
    if Word(e.bytes, 2) == c.expected {
      RightBlock(k, b, BlockCount(file));
      NextNumber(k);
      assert file[..k * BLOCK] + BlockOf(file, k + 1) == file[..Min((k + 1) * BLOCK, |file|)];
      if d.result.None? {
        assert InStep(d, file, k + 1);
      } else if d.result.value != -1 {
        assert file[..|file|] == file;
        assert InStep(d, file, k);
      } else {
        assert InStep(d, file, k);
      }
    } else {
      assert InStep(d, file, k);
    }
  }

  /** A datagram the client looks into. */
  predicate Heeded(c: Client, e: Event) {
    c.result.None? && IsData(e) && (c.locked ==> e.port == c.port)
  }

  /** Locked means locked to the honest port; a client that is not has met no data. */
  ghost predicate Aimed(c: Client, port: u16, es: seq<Event>) {
    && (c.locked ==> c.port == port)
    && (!c.locked && c.result.None? ==> forall i :: 0 <= i < |es| ==> !IsData(es[i]))
  }

  lemma StepAimed(file: Bytes, port: u16, cap: nat, c: Client, pre: seq<Event>, e: Event)
    requires Honest(file, port, pre + [e]) && Aimed(c, port, pre)
    ensures Aimed(Step(c, cap, e), port, pre + [e])
    ensures Heeded(c, e) ==> exists b: nat :: Carries(e, file, b)
  {
    HonestPrefix(file, port, pre, e);
  }

  lemma StepInStep(c: Client, file: Bytes, k: nat, cap: nat, e: Event)
    requires InStep(c, file, k) && BlockCount(file) <= TWO16
    requires Heeded(c, e) ==> exists b: nat :: Carries(e, file, b)
    ensures exists j: nat :: InStep(Step(c, cap, e), file, j)
  {
    if Heeded(c, e) {
      var b: nat :| Carries(e, file, b);
      TakeInStep(c.(port := e.port, locked := true), file, k, cap, e, b);
    } else {
      assert InStep(Step(c, cap, e), file, k);
    }
  }

  lemma {:induction false} StaysInStep(file: Bytes, port: u16, cap: nat, es: seq<Event>)
    requires Honest(file, port, es) && BlockCount(file) <= TWO16
    ensures Aimed(Run(cap, es), port, es) && exists k: nat :: InStep(Run(cap, es), file, k)
  {
    if es == [] {
      assert InStep(Run(cap, es), file, 0);
    } else {
      var pre, e := es[..|es| - 1], es[|es| - 1];
      assert es == pre + [e];
      HonestPrefix(file, port, pre, e);
      StaysInStep(file, port, cap, pre);
      var k: nat :| InStep(Run(cap, pre), file, k);
      StepAimed(file, port, cap, Run(cap, pre), pre, e);
      StepInStep(Run(cap, pre), file, k, cap, e);
    }
  }

  /** A file of at most 65536 blocks: however its blocks are lost, repeated and reordered, the
      buffer is always a prefix of the file, and a non-negative return means it is the file. */
  lemma PrefixOfFile(file: Bytes, port: u16, cap: nat, es: seq<Event>)
    requires Honest(file, port, es) && BlockCount(file) <= TWO16
    ensures Run(cap, es).got <= file
    ensures Run(cap, es).result.Some? && Run(cap, es).result.value >= 0 ==>
              Run(cap, es).got == file && Run(cap, es).result.value == |file|
  {
    StaysInStep(file, port, cap, es);
  }

  // ---- and for no longer file ----

  function Packet(port: u16, file: Bytes, b: nat): Event
    requires 1 <= b <= BlockCount(file)
  {
    Datagram(port, [0, OPCODE_DATA, b % TWO16 / 0x100, b % 0x100] + BlockOf(file, b))
  }

  lemma PacketCarries(port: u16, file: Bytes, b: nat)
    requires 1 <= b <= BlockCount(file)
    ensures Carries(Packet(port, file, b), file, b)
  {
    assert Packet(port, file, b).bytes[4..] == BlockOf(file, b);
  }

  /** The first `n` blocks, in order. */
  function InOrder(port: u16, file: Bytes, n: nat): seq<Event>
    requires n < BlockCount(file)
  {
    if n == 0 then [] else InOrder(port, file, n - 1) + [Packet(port, file, n)]
  }

  lemma {:induction false} InOrderRun(port: u16, file: Bytes, n: nat, cap: nat)
    requires n < BlockCount(file) && n * BLOCK <= cap
    ensures var c := Run(cap, InOrder(port, file, n));
            && c.got == file[..n * BLOCK] && c.expected == (n + 1) % TWO16 && c.result.None?
            && (c.locked ==> c.port == port)
  {
    if n > 0 {
      var es := InOrder(port, file, n);
      assert es[..|es| - 1] == InOrder(port, file, n - 1);
      InOrderRun(port, file, n - 1, cap);
      NextInOrder(Run(cap, InOrder(port, file, n - 1)), port, file, n, cap);
    }
  }

  lemma NextInOrder(c: Client, port: u16, file: Bytes, n: nat, cap: nat)
    requires 1 <= n < BlockCount(file) && n * BLOCK <= cap
    requires c.got == file[..(n - 1) * BLOCK] && c.expected == n % TWO16 && c.result.None? && (c.locked ==> c.port == port)
    ensures var d := Step(c, cap, Packet(port, file, n));
            && d.got == file[..n * BLOCK] && d.expected == (n + 1) % TWO16 && d.result.None? && d.port == port
  {
    PacketCarries(port, file, n);
    NextNumber(n - 1);
    assert file[..(n - 1) * BLOCK] + BlockOf(file, n) == file[..n * BLOCK];
  }

  lemma {:induction false} InOrderHonest(port: u16, file: Bytes, n: nat)
    requires n < BlockCount(file)
    ensures forall i :: 0 <= i < |InOrder(port, file, n)| ==>
              InOrder(port, file, n)[i].Datagram? && InOrder(port, file, n)[i].port == port
              && exists b: nat :: Carries(InOrder(port, file, n)[i], file, b)
  {
    if n > 0 {
      InOrderHonest(port, file, n - 1);
      PacketCarries(port, file, n);
    }
  }

  /** Packets all from one port that carry true blocks make an honest schedule. */
  lemma OnePort(file: Bytes, port: u16, es: seq<Event>, e: Event, b: nat)
    requires forall i :: 0 <= i < |es| ==>
               es[i].Datagram? && es[i].port == port && exists b: nat :: Carries(es[i], file, b)
    requires e.Datagram? && e.port == port && Carries(e, file, b)
    ensures Honest(file, port, es + [e])
  {
  }

  /** A whole block with the awaited number is added to the buffer, whatever it is. */
  lemma AnyBlock(c: Client, cap: nat, e: Event)
    requires c.result.None? && IsData(e) && (c.locked ==> c.port == e.port)
    requires Word(e.bytes, 2) == c.expected && |e.bytes| == 4 + BLOCK && |c.got| + BLOCK <= cap
    ensures |Step(c, cap, e).got| == |c.got| + BLOCK
  {
  }

  lemma SameNumber(n: nat)
    requires n >= TWO16
    ensures (n - TWO16) % TWO16 == n % TWO16
  {
  }

  /** With more blocks than numbers, a late copy of an earlier block passes for the last. */
  lemma LateCopy(file: Bytes, port: u16, cap: nat)
    requires BlockCount(file) > TWO16 && cap >= BlockCount(file) * BLOCK
    ensures exists es: seq<Event> :: Honest(file, port, es) && !(Run(cap, es).got <= file)
  {
    var n := BlockCount(file) - 1;
    var b := n + 1 - TWO16;
    var pre, e := InOrder(port, file, n), Packet(port, file, b);
    var es := pre + [e];
    InOrderHonest(port, file, n);
    PacketCarries(port, file, b);
    OnePort(file, port, pre, e, b);
    InOrderRun(port, file, n, cap);
    SameNumber(n + 1);
    assert |e.bytes| == 4 + BLOCK;
    AnyBlock(Run(cap, pre), cap, e);
    assert es[..|es| - 1] == pre;
    assert |Run(cap, es).got| > |file|;
  }

  /** The buffer is a prefix of the file on every honest schedule exactly for files of at most
      65536 blocks. */
  lemma ExactBound(file: Bytes, port: u16, cap: nat)
    requires cap >= BlockCount(file) * BLOCK
    ensures BlockCount(file) <= TWO16 <==>
            forall es: seq<Event> :: Honest(file, port, es) ==> Run(cap, es).got <= file
  {
    if BlockCount(file) <= TWO16 {
      forall es: seq<Event> | Honest(file, port, es) ensures Run(cap, es).got <= file {
        PrefixOfFile(file, port, cap, es);
      }
    } else {
      LateCopy(file, port, cap);
    }
  }

  // ---- acknowledgements ----

  /** The number of blocks taken so far. */
  function Taken(c: Client): nat {
    |c.got| / BLOCK + if c.result.Some? && c.result.value >= 0 then 1 else 0
  }

  predicate Acknowledges(ack: u16, b: nat) {
    ack == b % TWO16
  }

  /** The acknowledgement of one of the first `n` blocks. */
  ghost predicate ForOneOf(ack: u16, n: nat) {
    exists b: nat :: 1 <= b <= n && Acknowledges(ack, b)
  }

  ghost predicate AllFor(acks: seq<u16>, n: nat) {
    forall i :: 0 <= i < |acks| ==> ForOneOf(acks[i], n)
  }

  /** Every acknowledgement sent is for a block that was taken. */
  ghost predicate AcksEarned(c: Client) {
    AllFor(c.acks, Taken(c))
  }

  lemma EarnedMore(acks: seq<u16>, m: nat, n: nat, ack: u16, b: nat)
    requires AllFor(acks, m) && m <= n && 1 <= b <= n && Acknowledges(ack, b)
    ensures AllFor(acks + [ack], n)
  {
    assert ForOneOf(ack, n);
    forall i | 0 <= i < |acks| ensures ForOneOf(acks[i], n) {
      var b' :| 1 <= b' <= m && Acknowledges(acks[i], b');
    }
  }

  lemma TakenInStep(c: Client, file: Bytes, k: nat)
    requires InStep(c, file, k) && c.result.None?
    ensures Taken(c) == k
  {
  }

  lemma TakeEarned(c: Client, file: Bytes, k: nat, cap: nat, e: Event, b: nat)
    requires InStep(c, file, k) && c.result.None? && Carries(e, file, b) && BlockCount(file) < TWO16 && AcksEarned(c)
    ensures AcksEarned(TakeBlock(c, cap, Word(e.bytes, 2), e.bytes[4..]))
  {
    var block := Word(e.bytes, 2);
    var d := TakeBlock(c, cap, block, e.bytes[4..]);
    TakenInStep(c, file, k);
    if block == c.expected {
      RightBlock(k, b, BlockCount(file));
      if |c.got| + |e.bytes[4..]| <= cap {
        assert Taken(d) == k + 1;
        assert Acknowledges(block, k + 1);
        EarnedMore(c.acks, k, k + 1, block, k + 1);
      }
    } else if block == Previous(c.expected) {
      assert k >= 1;
      assert Acknowledges(block, k);
      EarnedMore(c.acks, k, k, block, k);
    }
  }

  lemma StepEarned(c: Client, file: Bytes, k: nat, cap: nat, e: Event)
    requires InStep(c, file, k) && BlockCount(file) < TWO16 && AcksEarned(c)
    requires Heeded(c, e) ==> exists b: nat :: Carries(e, file, b)
    ensures AcksEarned(Step(c, cap, e))
  {
    if Heeded(c, e) {
      var b: nat :| Carries(e, file, b);
      TakeEarned(c.(port := e.port, locked := true), file, k, cap, e, b);
    }
  }

  /** A file of at most 65535 blocks: every acknowledgement is for a block that was taken. */
  lemma {:induction false} AcksAreEarned(file: Bytes, port: u16, cap: nat, es: seq<Event>)
    requires Honest(file, port, es) && BlockCount(file) < TWO16
    ensures AcksEarned(Run(cap, es))
  {
    if es != [] {
      var pre, e := es[..|es| - 1], es[|es| - 1];
      assert es == pre + [e];
      HonestPrefix(file, port, pre, e);
      AcksAreEarned(file, port, cap, pre);
      StaysInStep(file, port, cap, pre);
      StepAimed(file, port, cap, Run(cap, pre), pre, e);
      var k: nat :| InStep(Run(cap, pre), file, k);
      StepEarned(Run(cap, pre), file, k, cap, e);
    }
  }

  lemma NumberZero(port: u16, file: Bytes, cap: nat)
    requires BlockCount(file) >= TWO16
    ensures !AcksEarned(Step(Start(), cap, Packet(port, file, TWO16)))
  {
    var e := Packet(port, file, TWO16);
    assert Word(e.bytes, 2) == 0;
    var c := Step(Start(), cap, e);
    assert c.acks == [0] && Taken(c) == 0;
    assert !ForOneOf(c.acks[0], 0);
  }

  /** Block 65536, whose number is sent as zero, is acknowledged before anything was taken if
      it comes first. */
  lemma EarlyAck(file: Bytes, port: u16, cap: nat)
    requires BlockCount(file) >= TWO16
    ensures exists es: seq<Event> :: Honest(file, port, es) && !AcksEarned(Run(cap, es))
  {
    var e := Packet(port, file, TWO16);
    var es := [] + [e];
    PacketCarries(port, file, TWO16);
    OnePort(file, port, [], e, TWO16);
    assert es[..|es| - 1] == [] && Run(cap, []) == Start();
    assert Run(cap, es) == Step(Run(cap, es[..|es| - 1]), cap, es[|es| - 1]) == Step(Start(), cap, e);
    NumberZero(port, file, cap);
  }

  /** Acknowledgements are earned on every honest schedule exactly for files of at most 65535
      blocks. */
  lemma ExactAcks(file: Bytes, port: u16, cap: nat)
    ensures BlockCount(file) < TWO16 <==>
            forall es: seq<Event> :: Honest(file, port, es) ==> AcksEarned(Run(cap, es))
  {
    if BlockCount(file) < TWO16 {
      forall es: seq<Event> | Honest(file, port, es) ensures AcksEarned(Run(cap, es)) {
        AcksAreEarned(file, port, cap, es);
      }
    } else {
      EarlyAck(file, port, cap);
    }
  }
}
