/** A tracked flow is the history of its packets: what the table says of it is what was let
    through since it started. */
module FirewallHistory {
  import opened Words
  import opened FirewallTypes
  import opened FirewallSpec
  import opened FirewallRuns
  import opened FirewallDryRun
  import opened FirewallFlows
  import opened FirewallClock

  /** A packet of a flow, and the end it came from. */
  datatype Heard = Heard(side: u8, p: Pkt, now: u32)

  /** The packet that started a flow, whether it was expected, and the packets since. */
  datatype Story = Story(first: Pkt, at: u32, related: bool, rest: seq<Heard>)

  /** What a packet that is let through adds to the story of slot `i`. */
  ghost function Told(f: Fw, st: Option<Story>, p: Pkt, now: u32, i: nat): Option<Story>
    requires f.Valid()
  {
    match ClassOf(f, p, now)
    case Existing(idx, side, _, _) =>
      if idx == i && st.Some? then Some(st.value.(rest := st.value.rest + [Heard(side, p, now)])) else st
    case New => if FreeFrom(f.conns, now, 0) == Some(i) then Some(Story(p, now, false, [])) else st
    case RelatedNew(_) => if FreeFrom(f.conns, now, 0) == Some(i) then Some(Story(p, now, true, [])) else st
    case Replace(idx) => if idx == i then Some(Story(p, now, false, [])) else st
    case _ => st
  }

  ghost function StoryAfter(f: Fw, st: Option<Story>, e: Event, i: nat): Option<Story>
    requires f.Valid()
  {
    match e
    case Packet(p, now, commit) =>
      if commit && !f.cfg.disabled && Decide(f, p, now).v.accept then Told(f, st, p, now, i) else st
    case Admin(op) => if op.FlushConns? then None else st
  }

  /** The story of slot `i` after a run. */
  ghost function StoryOf(es: seq<Event>, i: nat): Option<Story> {
    if es == [] then None
    else StoryAfter(Run(es[..|es| - 1]), StoryOf(es[..|es| - 1], i), es[|es| - 1], i)
  }

  // ---- what a history says ----

  /** What may be asked of a segment: its flag class and the end it came from. */
  datatype What = What(fc: Option<Fc>, side: Option<u8>)

  predicate Fits(x: Heard, w: What) {
    (w.fc.Some? ==> TcpClass(x.p.flags) == w.fc) && (w.side.Some? ==> x.side == w.side.value)
  }

  ghost predicate Ever(h: seq<Heard>, w: What) {
    exists j :: 0 <= j < |h| && Fits(h[j], w)
  }

  lemma EverNext(h: seq<Heard>, x: Heard, w: What)
    ensures Ever(h + [x], w) <==> Ever(h, w) || Fits(x, w)
  {
    var g := h + [x];
    assert g[|h|] == x;
    if Ever(h, w) {
      var j :| 0 <= j < |h| && Fits(h[j], w);
      assert Fits(g[j], w);
    }
  }

  /** How many packets came from an end, and their bytes. */
  function Packets(h: seq<Heard>, side: u8): nat {
    if h == [] then 0 else Packets(h[..|h| - 1], side) + if h[|h| - 1].side == side then 1 else 0
  }

  function Octets(h: seq<Heard>, side: u8): nat {
    if h == [] then 0 else Octets(h[..|h| - 1], side) + if h[|h| - 1].side == side then h[|h| - 1].p.len else 0
  }

  ghost predicate Answered(h: seq<Heard>) {
    Ever(h, What(None, Some(1)))
  }

  ghost predicate Sent(h: seq<Heard>, fc: Fc) {
    Ever(h, What(Some(fc), None))
  }

  ghost predicate SentBy(h: seq<Heard>, fc: Fc, side: u8) {
    Ever(h, What(Some(fc), Some(side)))
  }

  function Other(side: u8): u8 {
    if side == 0 then 1 else 0
  }

  /** The end that sent the first FIN. */
  function FirstFin(h: seq<Heard>): Option<u8> {
    if h == [] then None
    else
      var x, before := h[|h| - 1], FirstFin(h[..|h| - 1]);
      if before.None? && TcpClass(x.p.flags) == Some(FinAck) then Some(x.side) else before
  }

  /** The end `side` has acknowledged something after the other end's FIN. */
  ghost predicate AckedFin(h: seq<Heard>, side: u8) {
    exists m: nat :: m < |h| && Fits(h[m], What(Some(Ack), Some(side))) && SentBy(h[..m], FinAck, Other(side))
  }

  /** The state of a connection: whether it was reset, whether the other end has answered,
      whether either has acknowledged anything, who sent the first FIN, whether both have sent
      one, and whether the first to do so has acknowledged the other's. */
  predicate StateIs(reset: bool, answered: bool, acked: bool, fin: Option<u8>, both: bool, over: bool, state: u8, finFrom: u8) {
    if reset then state == TCP_CLOSE
    else if !answered then state == TCP_SYN_SENT && !acked && fin.None?
    else
      match fin
      case None => state == if acked then TCP_ESTABLISHED else TCP_SYN_RECV
      case Some(side) =>
        finFrom == side <= 1 && state == if !both then TCP_FIN_WAIT else if over then TCP_TIME_WAIT else TCP_LAST_ACK
  }

  ghost predicate BothFin(h: seq<Heard>) {
    FirstFin(h).Some? && SentBy(h, FinAck, Other(FirstFin(h).value))
  }

  ghost predicate Over(h: seq<Heard>) {
    FirstFin(h).Some? && AckedFin(h, FirstFin(h).value)
  }

  /** The state by what has been said since the SYN. */
  ghost predicate TcpState(h: seq<Heard>, state: u8, finFrom: u8) {
    StateIs(Sent(h, Rst), Answered(h), Sent(h, Ack), FirstFin(h), BothFin(h), Over(h), state, finFrom)
  }

  /** Requests less replies. */
  function Outstanding(h: seq<Heard>): int {
    1 + Packets(h, 0) - Packets(h, 1)
  }

  ghost predicate NeverOver(h: seq<Heard>, n: nat) {
    forall k :: 0 <= k <= |h| ==> Outstanding(h[..k]) <= n
  }

  /** How long a flow may be idle, in seconds. */
  function Patience(proto: u8, state: u8, replied: bool): nat {
    if proto == PROTO_TCP then
      match state
      case 1 => 60
      case 2 => 60
      case 3 => 3600
      case 4 => 120
      case 5 => 30
      case 6 => 120
      case _ => 10
    else if proto == PROTO_UDP && replied then 180
    else 30
  }

  function LastTime(st: Story): u32 {
    if st.rest == [] then st.at else st.rest[|st.rest| - 1].now
  }

  predicate OnFlow(x: Heard, k: Key) {
    x.side <= 1 && KeyOf(x.p) == if x.side == 0 then k else k.Swap()
  }

  ghost predicate AllOnFlow(h: seq<Heard>, k: Key) {
    forall j :: 0 <= j < |h| ==> OnFlow(h[j], k)
  }

  /** What the counters and marks of a flow have to say. */
  ghost predicate Counts(st: Story, c: Conn) {
    && c.pkts == ((1 + Packets(st.rest, 0)) % TWO32, Packets(st.rest, 1) % TWO32)
    && c.bytes == ((st.first.len + Octets(st.rest, 0)) % TWO32, Octets(st.rest, 1) % TWO32)
  }

  /** And its state. */
  ghost predicate Says(st: Story, c: Conn) {
    && (c.replied <==> st.related || Answered(st.rest))
    && (c.proto == PROTO_TCP ==>
          !st.related && TcpClass(st.first.flags) == Some(Syn) && TcpState(st.rest, c.state, c.finFrom))
    && (c.proto == PROTO_UDP ==> c.state == if c.replied then UDP_REPLIED else UDP_UNREPLIED)
    && (c.proto == PROTO_ICMP ==> NeverOver(st.rest, 255) ==> c.pending == Outstanding(st.rest))
  }

  /** How long it lives after its last packet. */
  ghost predicate Lasts(st: Story, c: Conn) {
    c.expires == (LastTime(st) + Patience(c.proto, c.state, c.replied) * TICK_HZ) % TWO32
  }

  ghost predicate Describes(st: Story, c: Conn) {
    && c.used && c.Tuple() == KeyOf(st.first) && c.origDir == st.first.dir && c.created == st.at
    && AllOnFlow(st.rest, c.Tuple()) && Counts(st, c) && Says(st, c) && Lasts(st, c)
  }

  // ---- one packet more ----

  lemma PatienceIs(proto: u8, state: u8, replied: bool, now: u32)
    ensures WrapAdd(now, ConnTimeout(proto, state, replied)) == (now + Patience(proto, state, replied) * TICK_HZ) % TWO32
  {
  }

  lemma Front(h: seq<Heard>, x: Heard)
    ensures (h + [x])[..|h + [x]| - 1] == h && (h + [x])[|h + [x]| - 1] == x
  {
  }

  lemma {:induction false} FirstFinIs(h: seq<Heard>)
    ensures FirstFin(h).None? <==> !Sent(h, FinAck)
  {
    if h != [] {
      var n := |h| - 1;
      FirstFinIs(h[..n]);
      assert h == h[..n] + [h[n]];
      EverNext(h[..n], h[n], What(Some(FinAck), None));
    }
  }

  lemma ByIsSent(h: seq<Heard>, fc: Fc, side: u8)
    requires SentBy(h, fc, side)
    ensures Sent(h, fc)
  {
    var j :| 0 <= j < |h| && Fits(h[j], What(Some(fc), Some(side)));
    assert Fits(h[j], What(Some(fc), None));
  }

  lemma AckedFinNext(h: seq<Heard>, x: Heard, side: u8)
    ensures AckedFin(h + [x], side) <==>
            AckedFin(h, side) || (Fits(x, What(Some(Ack), Some(side))) && SentBy(h, FinAck, Other(side)))
    ensures AckedFin(h, side) ==> SentBy(h, FinAck, Other(side))
  {
    var g := h + [x];
    forall m: nat | m < |h| ensures g[m] == h[m] && g[..m] == h[..m] {
    }
    assert g[|h|] == x && g[..|h|] == h;
    if AckedFin(h, side) {
      var m: nat :| m < |h| && Fits(h[m], What(Some(Ack), Some(side))) && SentBy(h[..m], FinAck, Other(side));
      assert Fits(g[m], What(Some(Ack), Some(side))) && SentBy(g[..m], FinAck, Other(side));
      var j :| 0 <= j < m && Fits(h[..m][j], What(Some(FinAck), Some(Other(side))));
      assert Fits(h[j], What(Some(FinAck), Some(Other(side))));
    }
  }

  lemma FinsNext(h: seq<Heard>, x: Heard, fc: Fc)
    requires x.side <= 1 && TcpClass(x.p.flags) == Some(fc)
    ensures FirstFin(h + [x]) == if FirstFin(h).None? && fc == FinAck then Some(x.side) else FirstFin(h)
    ensures FirstFin(h).None? ==> !BothFin(h + [x])
    ensures FirstFin(h).Some? ==>
              && (BothFin(h + [x]) <==> BothFin(h) || (fc == FinAck && x.side == Other(FirstFin(h).value)))
              && (Over(h + [x]) <==> Over(h) || (fc == Ack && x.side == FirstFin(h).value && BothFin(h)))
    ensures Over(h) ==> BothFin(h)
  {
    Front(h, x);
    FirstFinIs(h);
    var side := if FirstFin(h).Some? then FirstFin(h).value else x.side;
    EverNext(h, x, What(Some(FinAck), Some(Other(side))));
    AckedFinNext(h, x, side);
    if SentBy(h, FinAck, Other(side)) {
      ByIsSent(h, FinAck, Other(side));
    }
  }

  /** The state machine keeps exactly those facts. */
  lemma StateStep(reset: bool, answered: bool, acked: bool, fin: Option<u8>, both: bool, over: bool,
                  state: u8, finFrom: u8, side: u8, fc: Fc, both': bool, over': bool)
    requires StateIs(reset, answered, acked, fin, both, over, state, finFrom) && side <= 1 && (over ==> both)
    requires TcpNext(state, side, fc, finFrom).Some?
    requires fin.None? ==> !both'
    requires fin.Some? ==> (both' <==> both || (fc == FinAck && side == Other(fin.value)))
    requires fin.Some? ==> (over' <==> over || (fc == Ack && side == fin.value && both))
    ensures var (next, ff) := TcpNext(state, side, fc, finFrom).value;
            StateIs(reset || fc == Rst, answered || side == 1, acked || fc == Ack,
                    if fin.None? && fc == FinAck then Some(side) else fin, both', over', next, ff)
  {
  }

  /** What a segment that is let through adds. */
  lemma TcpStateNext(h: seq<Heard>, x: Heard, state: u8, finFrom: u8, fc: Fc)
    requires TcpState(h, state, finFrom) && x.side <= 1 && TcpClass(x.p.flags) == Some(fc)
    requires TcpNext(state, x.side, fc, finFrom).Some?
    ensures var (next, ff) := TcpNext(state, x.side, fc, finFrom).value; TcpState(h + [x], next, ff)
  {
    EverNext(h, x, What(Some(Rst), None));
    EverNext(h, x, What(None, Some(1)));
    EverNext(h, x, What(Some(Ack), None));
    FinsNext(h, x, fc);
    StateStep(Sent(h, Rst), Answered(h), Sent(h, Ack), FirstFin(h), BothFin(h), Over(h),
              state, finFrom, x.side, fc, BothFin(h + [x]), Over(h + [x]));
  }

  lemma WrapAddMod(x: nat, y: u32)
    ensures WrapAdd(x % TWO32, y) == (x + y) % TWO32
  {
  }

  lemma CountsNext(st: Story, c: Conn, x: Heard, next: u8, ff: u8)
    requires Counts(st, c) && x.side <= 1
    ensures Counts(st.(rest := st.rest + [x]), Touch(c, x.p, x.side, next, ff, x.now))
  {
    Front(st.rest, x);
    var n := if x.side == 0 then 1 + Packets(st.rest, 0) else Packets(st.rest, 1);
    var m := if x.side == 0 then st.first.len + Octets(st.rest, 0) else Octets(st.rest, 1);
    WrapAddMod(n, 1);
    WrapAddMod(m, x.p.len);
  }

  lemma PendingNext(h: seq<Heard>, x: Heard)
    requires NeverOver(h + [x], 255) && x.side <= 1
    ensures NeverOver(h, 255) && Outstanding(h + [x]) == Outstanding(h) + (if x.side == 0 then 1 else -1)
    ensures Outstanding(h + [x]) <= 255
  {
    Front(h, x);
    var g := h + [x];
    forall k | 0 <= k <= |h| ensures Outstanding(h[..k]) <= 255 {
      assert g[..k] == h[..k];
    }
    assert g[..|g|] == g;
  }

  lemma SaysNext(st: Story, c: Conn, x: Heard, next: u8, ff: u8)
    requires Says(st, c) && x.side <= 1 && x.p.proto == c.proto
    requires c.proto == PROTO_TCP ==>
               TcpClass(x.p.flags).Some? && TcpNext(c.state, x.side, TcpClass(x.p.flags).value, c.finFrom) == Some((next, ff))
    requires c.proto == PROTO_ICMP && x.side == 1 ==> c.pending > 0
    ensures Says(st.(rest := st.rest + [x]), Touch(c, x.p, x.side, next, ff, x.now))
  {
    EverNext(st.rest, x, What(None, Some(1)));
    if c.proto == PROTO_TCP {
      TcpStateNext(st.rest, x, c.state, c.finFrom, TcpClass(x.p.flags).value);
    } else if c.proto == PROTO_ICMP && NeverOver(st.rest + [x], 255) {
      PendingNext(st.rest, x);
    }
  }

  lemma TouchDescribes(st: Story, c: Conn, x: Heard, next: u8, ff: u8)
    requires Describes(st, c) && OnFlow(x, c.Tuple())
    requires c.proto == PROTO_TCP ==>
               TcpClass(x.p.flags).Some? && TcpNext(c.state, x.side, TcpClass(x.p.flags).value, c.finFrom) == Some((next, ff))
    requires c.proto == PROTO_ICMP && x.side == 1 ==> c.pending > 0
    ensures Describes(st.(rest := st.rest + [x]), Touch(c, x.p, x.side, next, ff, x.now))
  {
    CountsNext(st, c, x, next, ff);
    SaysNext(st, c, x, next, ff);
    LastsNext(st, c, x, next, ff);
  }

  lemma LastsNext(st: Story, c: Conn, x: Heard, next: u8, ff: u8)
    ensures Lasts(st.(rest := st.rest + [x]), Touch(c, x.p, x.side, next, ff, x.now))
  {
    var d := Touch(c, x.p, x.side, next, ff, x.now);
    PatienceIs(d.proto, d.state, d.replied, x.now);
    Front(st.rest, x);
  }

  lemma NothingYet()
    ensures !Answered([]) && !Sent([], Rst) && !Sent([], Ack) && FirstFin([]) == None && Outstanding([]) == 1
  {
  }

  lemma StartDescribes(p: Pkt, now: u32, related: bool)
    requires (related ==> p.proto == PROTO_UDP) && (p.proto == PROTO_TCP ==> TcpClass(p.flags) == Some(Syn))
    ensures Describes(Story(p, now, related, []), Started(p, now, related))
  {
    NothingYet();
    var c := Started(p, now, related);
    PatienceIs(c.proto, c.state, c.replied, now);
  }

  // ---- a run ----

  /** The slot of a flow, the end and the transition an accepted packet on it is given. */
  lemma ExistingFacts(f: Fw, p: Pkt, now: u32)
    requires f.Valid() && ClassOf(f, p, now).Existing?
    ensures var cls := ClassOf(f, p, now);
            var c := f.conns[cls.idx];
            && c.used && OnFlow(Heard(cls.side, p, now), c.Tuple())
            && (c.proto == PROTO_TCP ==>
                  && TcpClass(p.flags).Some?
                  && TcpNext(c.state, cls.side, TcpClass(p.flags).value, c.finFrom) == Some((cls.next, cls.finFrom)))
            && (c.proto == PROTO_ICMP && cls.side == 1 ==> c.pending > 0)
  {
  }

  /** Mentioned where what is known of a slot matters. */
  predicate LookAtKnown(k: int) {
    true
  }

  ghost predicate Known(st: Option<Story>, c: Conn) {
    c.used ==> st.Some? && forall k: int :: LookAtKnown(k) ==> Describes(st.value, c)
  }

  lemma TouchKnown(f: Fw, st: Option<Story>, p: Pkt, now: u32)
    requires f.Valid() && ClassOf(f, p, now).Existing? && Known(st, f.conns[ClassOf(f, p, now).idx])
    ensures var cls := ClassOf(f, p, now);
            && st.Some?
            && Known(Some(st.value.(rest := st.value.rest + [Heard(cls.side, p, now)])),
                     Touch(f.conns[cls.idx], p, cls.side, cls.next, cls.finFrom, now))
  {
    assert LookAtKnown(0);
    var cls := ClassOf(f, p, now);
    ExistingFacts(f, p, now);
    TouchDescribes(st.value, f.conns[cls.idx], Heard(cls.side, p, now), cls.next, cls.finFrom);
  }

  lemma StartKnown(p: Pkt, now: u32, related: bool)
    requires (related ==> p.proto == PROTO_UDP) && (p.proto == PROTO_TCP ==> TcpClass(p.flags) == Some(Syn))
    ensures Known(Some(Story(p, now, related, [])), Started(p, now, related))
  {
    StartDescribes(p, now, related);
  }

  /** Slot `i` after a packet of class `cls` was let through. */
  function SlotAfter(conns: seq<Conn>, p: Pkt, cls: Cls<nat>, now: u32, i: nat): Conn
    requires i < |conns|
  {
    match cls
    case Existing(idx, side, next, ff) => if idx == i then Touch(conns[i], p, side, next, ff, now) else conns[i]
    case New => if FreeFrom(conns, now, 0) == Some(i) then Started(p, now, false) else conns[i]
    case RelatedNew(_) => if FreeFrom(conns, now, 0) == Some(i) then Started(p, now, true) else conns[i]
    case Replace(idx) => if idx == i then Started(p, now, false) else conns[i]
    case _ => conns[i]
  }

  lemma CommitSlot(conns: seq<Conn>, expects: seq<Expect>, p: Pkt, cls: Cls<nat>, now: u32, i: nat)
    requires InTable(cls, conns, expects) && |expects| > 0 && i < |conns|
    ensures Commit(conns, expects, p, cls, now).conns[i] == SlotAfter(conns, p, cls, now, i)
  {
  }

  lemma FilterSlot(f: Fw, p: Pkt, now: u32, i: nat)
    requires f.Valid() && i < MAX_CONNS && !f.cfg.disabled && Decide(f, p, now).v.accept
    ensures Filter(f, p, now).f.conns[i] == SlotAfter(f.conns, p, ClassOf(f, p, now), now, i)
    ensures ClassOf(f, p, now).RelatedNew? ==> p.proto == PROTO_UDP
    ensures (ClassOf(f, p, now).New? && p.proto == PROTO_TCP) || ClassOf(f, p, now).Replace? ==> TcpClass(p.flags) == Some(Syn)
  {
    CommitSlot(f.conns, f.expects, p, ClassOf(f, p, now), now, i);
  }

  lemma FilterKnown(f: Fw, st: Option<Story>, p: Pkt, now: u32, i: nat)
    requires f.Valid() && i < MAX_CONNS && Known(st, f.conns[i]) && !f.cfg.disabled && Decide(f, p, now).v.accept
    ensures Known(Told(f, st, p, now, i), Filter(f, p, now).f.conns[i])
  {
    FilterSlot(f, p, now, i);
    match ClassOf(f, p, now)
    case Existing(idx, side, next, ff) =>
      if idx == i {
        TouchKnown(f, st, p, now);
      }
    case New => StartKnown(p, now, false);
    case RelatedNew(_) => StartKnown(p, now, true);
    case Replace(_) => StartKnown(p, now, false);
    case _ =>
  }

  /** In every run, whatever the rules, the clock and the administration, a tracked flow is its
      history: who started it and when, how many packets and bytes came from each end, whether
      the other end has answered, the TCP state those segments lead to, the echo requests that
      are still unanswered, and how long it lives after the last packet. */
  lemma FlowIsItsHistory(es: seq<Event>, i: nat)
    requires i < MAX_CONNS
    ensures Run(es).conns[i].used ==> StoryOf(es, i).Some? && Describes(StoryOf(es, i).value, Run(es).conns[i])
  {
    RunKnown(es, i);
    assert LookAtKnown(0);
  }

  lemma {:induction false} RunKnown(es: seq<Event>, i: nat)
    requires i < MAX_CONNS
    ensures Known(StoryOf(es, i), Run(es).conns[i])
  {
    if es != [] {
      var pre, e := es[..|es| - 1], es[|es| - 1];
      RunKnown(pre, i);
      match e
      case Packet(p, now, commit) =>
        var f := Run(pre);
        if commit && !f.cfg.disabled && Decide(f, p, now).v.accept {
          FilterKnown(f, StoryOf(pre, i), p, now, i);
        }
      case Admin(op) =>
    }
  }
}
