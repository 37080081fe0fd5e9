/** Exactly which packets are let through: under any configuration, in terms of the class of the
    packet, and under the baseline in terms of the flows that are tracked. */
module FirewallAccepts {
  import opened Words
  import opened FirewallTypes
  import opened FirewallSpec
  import opened FirewallRuns
  import opened FirewallDryRun
  import opened FirewallFlows
  import opened FirewallSolicited
  import opened FirewallAdmin

  // ---- TCP segments ----

  const TCP_PSH: u8 := 0x08
  const TCP_URG: u8 := 0x20

  predicate Has(flags: u8, bit: u8) {
    And8(flags, bit) != 0
  }

  predicate Only(flags: u8, syn: bool, ack: bool, fin: bool, rst: bool) {
    Has(flags, TCP_SYN) == syn && Has(flags, TCP_ACK) == ack && Has(flags, TCP_FIN) == fin && Has(flags, TCP_RST) == rst
  }

  /** The flag classes, by the flags that are set: a segment that opens a connection carries
      nothing besides, the others may urge and push. */
  lemma ClassByFlags(flags: u8)
    ensures var plain := !Has(flags, TCP_PSH) && !Has(flags, TCP_URG);
            && (TcpClass(flags) == Some(Syn) <==> Only(flags, true, false, false, false) && plain)
            && (TcpClass(flags) == Some(SynAck) <==> Only(flags, true, true, false, false) && plain)
            && (TcpClass(flags) == Some(Ack) <==> Only(flags, false, true, false, false))
            && (TcpClass(flags) == Some(FinAck) <==> Only(flags, false, true, true, false))
            && (TcpClass(flags) == Some(Rst) <==> Has(flags, TCP_RST) && !Has(flags, TCP_SYN) && !Has(flags, TCP_FIN))
  {
    var f := And8(flags, 0x3F);
    Converts(flags, 0x3F);
    Masks(flags, f);
    OpeningFlags(flags, f);
  }

  lemma Converts(a: u8, b: u8)
    ensures And8(a, b) as bv8 == (a as bv8) & (b as bv8)
    ensures And8(a, b) == 0 <==> (a as bv8) & (b as bv8) == 0
  {
  }

  lemma Masks(flags: u8, f: u8)
    requires f as bv8 == (flags as bv8) & 0x3F
    ensures And8(f, TCP_SYN + TCP_FIN + TCP_RST) == 0 <==> !Has(flags, TCP_SYN) && !Has(flags, TCP_FIN) && !Has(flags, TCP_RST)
    ensures And8(f, TCP_SYN + TCP_RST) == 0 <==> !Has(flags, TCP_SYN) && !Has(flags, TCP_RST)
    ensures And8(f, TCP_SYN + TCP_FIN) == 0 <==> !Has(flags, TCP_SYN) && !Has(flags, TCP_FIN)
    ensures And8(f, TCP_ACK) == 0 <==> !Has(flags, TCP_ACK)
    ensures And8(f, TCP_FIN) == 0 <==> !Has(flags, TCP_FIN)
    ensures And8(f, TCP_RST) == 0 <==> !Has(flags, TCP_RST)
  {
    MaskedFlags(flags as bv8);
  }

  lemma OpeningFlags(flags: u8, f: u8)
    requires f as bv8 == (flags as bv8) & 0x3F
    ensures f == TCP_SYN <==>
            Only(flags, true, false, false, false) && !Has(flags, TCP_PSH) && !Has(flags, TCP_URG)
    ensures f == TCP_SYN + TCP_ACK <==>
            Only(flags, true, true, false, false) && !Has(flags, TCP_PSH) && !Has(flags, TCP_URG)
  {
    MaskedFlags(flags as bv8);
  }

  lemma MaskedFlags(f: bv8)
    ensures f & 0x3F & 0x07 == 0 <==> f & 0x02 == 0 && f & 0x01 == 0 && f & 0x04 == 0
    ensures f & 0x3F & 0x06 == 0 <==> f & 0x02 == 0 && f & 0x04 == 0
    ensures f & 0x3F & 0x03 == 0 <==> f & 0x02 == 0 && f & 0x01 == 0
    ensures f & 0x3F & 0x10 == f & 0x10 && f & 0x3F & 0x01 == f & 0x01 && f & 0x3F & 0x04 == f & 0x04
    ensures f & 0x3F == 0x02 <==> f & 0x02 != 0 && f & 0x10 == 0 && f & 0x01 == 0 && f & 0x04 == 0 && f & 0x08 == 0 && f & 0x20 == 0
    ensures f & 0x3F == 0x12 <==> f & 0x02 != 0 && f & 0x10 != 0 && f & 0x01 == 0 && f & 0x04 == 0 && f & 0x08 == 0 && f & 0x20 == 0
  {
  }

  /** The segments that cannot happen on a flow in a given state: a SYN once both ends have
      spoken, an answer to it once the connection is under way, and anything that speaks of an
      established connection before the other end has answered. */
  predicate Impossible(state: u8, side: u8, fc: Fc) {
    match fc
    case Syn => !(state == TCP_SYN_SENT || (state == TCP_SYN_RECV && side == 0))
    case SynAck =>
      !(state == TCP_SYN_RECV || (side == 1 && (state == TCP_SYN_SENT || state == TCP_ESTABLISHED)))
    case Rst => false
    case _ => state == TCP_SYN_SENT
  }

  /** Exactly those are refused. In particular an ACK, a FIN or a reset from either end never
      is, from the answer to the SYN on. */
  lemma RefusedExactly(state: u8, side: u8, fc: Fc, finFrom: u8)
    requires TCP_SYN_SENT <= state <= TCP_CLOSE && side <= 1
    ensures TcpNext(state, side, fc, finFrom).None? <==> Impossible(state, side, fc)
  {
  }

  predicate Finished(state: u8) {
    state == TCP_TIME_WAIT || state == TCP_CLOSE
  }

  // ---- any configuration ----

  ghost predicate Room(conns: seq<Conn>, now: u32) {
    exists i :: 0 <= i < |conns| && !Live(conns[i], now)
  }

  /** A packet is let through exactly if it is valid, the rules allow it, and where it starts a
      flow there is room for one, and, for an inbound TCP flow, fewer than 64 are half-open. */
  lemma AcceptedExactly(f: Fw, p: Pkt, now: u32)
    requires f.Valid() && !f.cfg.disabled
    ensures var cls := ClassOf(f, p, now);
            Filter(f, p, now).v.accept <==>
            && !cls.Invalid? && Says(RulesOf(f.cfg), PolicyFor(f.cfg, p), p, StateOf(f.conns, cls))
            && (cls.New? || cls.RelatedNew? ==> Room(f.conns, now))
            && (cls.New? && p.proto == PROTO_TCP && p.dir == DIR_IN ==> |Opening(f.conns, now)| < 64)
  {
    DecisionIs(f.cfg, p, StateOf(f.conns, ClassOf(f, p, now)));
    OpeningCount(f.conns, now);
    assert FreeFrom(f.conns, now, 0).Some? <==> Room(f.conns, now);
  }

  /** The slots of live inbound connections that are not established yet. */
  ghost function Opening(conns: seq<Conn>, now: u32): set<nat> {
    set i | 0 <= i < |conns| && Live(conns[i], now) && NotYetOpen(conns[i])
  }

  predicate NotYetOpen(c: Conn) {
    c.proto == PROTO_TCP && c.origDir == DIR_IN && c.state in {TCP_SYN_SENT, TCP_SYN_RECV}
  }

  lemma {:induction false} OpeningCount(conns: seq<Conn>, now: u32)
    ensures CountFlows(conns, now, true) == |Opening(conns, now)|
  {
    if conns == [] {
      assert Opening(conns, now) == {};
    } else {
      var n := |conns| - 1;
      OpeningCount(conns[..n], now);
      var before := Opening(conns[..n], now);
      assert Opening(conns, now) == if Live(conns[n], now) && NotYetOpen(conns[n]) then before + {n} else before;
    }
  }

  /** The state the rules see, which the verdict reports. */
  lemma StateSeen(f: Fw, p: Pkt, now: u32)
    requires f.Valid()
    ensures var cls, state := ClassOf(f, p, now), Decide(f, p, now).v.state;
            && (state == ST_INVALID <==> cls.Invalid?)
            && (state == ST_RELATED <==> cls.Related? || cls.RelatedNew?)
            && (state == ST_ESTABLISHED <==> cls.Existing? && (cls.side == 1 || f.conns[cls.idx].replied))
            && (state == ST_NEW <==> cls.New? || cls.Replace? || (cls.Existing? && cls.side != 1 && !f.conns[cls.idx].replied))
  {
  }

  /** Why a packet was let through or dropped. */
  lemma ReasonsExactly(f: Fw, p: Pkt, now: u32)
    requires f.Valid()
    ensures var v, cls := Decide(f, p, now).v, ClassOf(f, p, now);
            && (v.reason == R_FRAGMENT <==> p.bad == BAD_FRAGMENT)
            && (v.reason == R_UNSUPPORTED <==> p.bad == BAD_UNSUPPORTED)
            && (v.reason == R_MALFORMED <==> p.bad !in {BAD_NONE, BAD_FRAGMENT, BAD_UNSUPPORTED})
            && (v.reason == R_INVALID <==> p.bad == BAD_NONE && cls.Invalid?)
            && (v.reason == R_INVALID ==> v.detail == cls.detail)
            && (v.reason == R_TABLE_FULL <==> Refused(f, p, now) && (cls.New? || cls.RelatedNew?) && !Room(f.conns, now))
            && (v.reason == R_HALF_OPEN <==> Refused(f, p, now) && cls.New? && Room(f.conns, now))
            && (v.reason == R_RULE ==> 0 <= v.rule < f.cfg.nrules && v.accept == f.cfg.rules[v.rule].accept)
            && (v.reason == R_POLICY ==> v.rule == -1 && v.accept == PolicyFor(f.cfg, p))
            && v.reason in {R_FRAGMENT, R_UNSUPPORTED, R_MALFORMED, R_INVALID, R_TABLE_FULL, R_HALF_OPEN, R_RULE, R_POLICY}
  {
    assert FreeFrom(f.conns, now, 0).Some? <==> Room(f.conns, now);
  }

  /** The rules allow a valid packet, and yet it is dropped. */
  predicate Refused(f: Fw, p: Pkt, now: u32)
    requires f.Valid()
  {
    && !ClassOf(f, p, now).Invalid? && !Decide(f, p, now).v.accept
    && RuleDecision(f.cfg, p, StateOf(f.conns, ClassOf(f, p, now))).v.accept
  }

  /** When a log line is wanted: for whatever is dropped but by rules and policy, and where the
      rule that decides says so. */
  lemma LogWanted(f: Fw, p: Pkt, now: u32)
    requires f.Valid()
    ensures var d := Decide(f, p, now);
            d.wantLog <==> (d.v.reason != R_RULE && d.v.reason != R_POLICY) || (d.v.reason == R_RULE && f.cfg.rules[d.v.rule].log)
  {
  }

  // ---- the flow a packet belongs to ----

  /** There is one such flow at most, so the scan finds it. */
  lemma OnlyHit(conns: seq<Conn>, k: Key, now: u32, want: Option<u8>, i: nat)
    requires Unique(conns, now) && i < |conns| && Hit(conns[i], k, now, want)
    requires k.proto != PROTO_ICMP || want.Some?
    ensures FindFrom(conns, k, now, want, 0) == Some(i)
  {
    var j := FindFrom(conns, k, now, want, 0).value;
    if j < i {
      assert !Clash(conns[j], conns[i]);
      SameTuple(conns[j], conns[i], k, want);
    }
  }

  lemma SameTuple(c: Conn, d: Conn, k: Key, want: Option<u8>)
    requires SideOf(c, k).Some? && SideOf(d, k).Some? && (k.proto != PROTO_ICMP || want.Some?)
    requires want.Some? ==> SideOf(c, k) == want == SideOf(d, k)
    ensures Clash(c, d)
  {
    assert c.Tuple().Swap().Swap() == c.Tuple() && d.Tuple().Swap().Swap() == d.Tuple();
  }

  ghost predicate Tracked(conns: seq<Conn>, k: Key, now: u32, want: Option<u8>) {
    exists i :: 0 <= i < |conns| && Hit(conns[i], k, now, want)
  }

  // ---- the baseline ----

  /** Under the baseline what goes out is allowed, and what comes in as part of something. */
  lemma BaselineAllows(cfg: Config, p: Pkt, state: u8)
    requires IsBaseline(cfg) && cfg.nrules <= |cfg.rules| && state in {ST_NEW, ST_ESTABLISHED, ST_RELATED, ST_INVALID}
    ensures RuleDecision(cfg, p, state).v.accept <==> p.dir != DIR_IN || state == ST_ESTABLISHED || state == ST_RELATED
  {
    assert And8(ST_ESTABLISHED + ST_RELATED, ST_NEW) == 0 && And8(ST_ESTABLISHED + ST_RELATED, ST_INVALID) == 0;
    assert And8(ST_ESTABLISHED + ST_RELATED, ST_ESTABLISHED) != 0 && And8(ST_ESTABLISHED + ST_RELATED, ST_RELATED) != 0;
    assert cfg.rules[0].Matches(p, state) <==> p.dir == DIR_IN && (state == ST_ESTABLISHED || state == ST_RELATED);
  }

  lemma BaselineAccepts(f: Fw, p: Pkt, now: u32)
    requires f.Valid() && IsBaseline(f.cfg)
    ensures var cls := ClassOf(f, p, now);
            Filter(f, p, now).v.accept <==>
            match cls
            case Invalid(_) => false
            case Existing(idx, side, _, _) => p.dir != DIR_IN || side == 1 || f.conns[idx].replied
            case Related(_) => true
            case RelatedNew(_) => FreeFrom(f.conns, now, 0).Some?
            case New => p.dir != DIR_IN && FreeFrom(f.conns, now, 0).Some?
            case Replace(_) => p.dir != DIR_IN
  {
    var cls := ClassOf(f, p, now);
    BaselineAllows(f.cfg, p, StateOf(f.conns, cls));
  }

  /** The same way between the same ends; an echo's end is its identifier. */
  predicate SameWay(p: Pkt, q: Pkt) {
    && q.proto == p.proto && q.src == p.src && q.dst == p.dst
    && if p.proto == PROTO_ICMP then q.id == p.id else q.sport == p.sport && q.dport == p.dport
  }

  predicate WayBack(p: Pkt, q: Pkt) {
    && q.proto == p.proto && q.src == p.dst && q.dst == p.src
    && if p.proto == PROTO_ICMP then q.id == p.id else q.sport == p.dport && q.dport == p.sport
  }

  /** The flow that `p` opens takes the packets that go its way, and back. */
  lemma FlowTakes(c: Conn, p: Pkt, q: Pkt)
    requires c.Tuple() == KeyOf(p)
    ensures SideOf(c, KeyOf(q)) == Some(0) <==> SameWay(p, q)
    ensures SideOf(c, KeyOf(q)) == Some(1) <==> WayBack(p, q) && !SameWay(p, q)
  {
  }

  /** A well-formed TCP segment. */
  predicate ProperTcp(p: Pkt, fc: Fc) {
    p.bad == BAD_NONE && p.proto == PROTO_TCP && p.sport != 0 && p.dport != 0 && TcpClass(p.flags) == Some(fc)
  }

  /** A segment on a tracked flow passes exactly if it can happen, and, if it comes in, comes
      from the other end or after that has been heard from; a SYN that reopens a finished flow
      passes outward. */
  lemma TcpOnFlow(f: Fw, p: Pkt, now: u32, i: nat, fc: Fc)
    requires f.Valid() && IsBaseline(f.cfg) && AllSound(f.conns) && Unique(f.conns, now)
    requires ProperTcp(p, fc) && i < MAX_CONNS && Hit(f.conns[i], KeyOf(p), now, None)
    ensures var c, side := f.conns[i], SideOf(f.conns[i], KeyOf(p)).value;
            Filter(f, p, now).v.accept <==>
            if fc == Syn && Finished(c.state) then p.dir != DIR_IN
            else !Impossible(c.state, side, fc) && (p.dir != DIR_IN || side == 1 || c.replied)
    ensures var c, side := f.conns[i], SideOf(f.conns[i], KeyOf(p)).value;
            Filter(f, p, now).v.accept && !(fc == Syn && Finished(c.state)) ==>
              && TcpNext(c.state, side, fc, c.finFrom).Some?
              && var (next, ff) := TcpNext(c.state, side, fc, c.finFrom).value;
                 ClassOf(f, p, now) == Existing(i, side, next, ff)
  {
    var c, side := f.conns[i], SideOf(f.conns[i], KeyOf(p)).value;
    OnlyHit(f.conns, KeyOf(p), now, None, i);
    assert StateSound(c);
    RefusedExactly(c.state, side, fc, c.finFrom);
    BaselineAccepts(f, p, now);
  }

  /** Without a flow only a SYN passes, outward, if there is room. */
  lemma TcpWithoutFlow(f: Fw, p: Pkt, now: u32, fc: Fc)
    requires f.Valid() && IsBaseline(f.cfg) && ProperTcp(p, fc) && !Tracked(f.conns, KeyOf(p), now, None)
    ensures Filter(f, p, now).v.accept <==> fc == Syn && p.dir != DIR_IN && Room(f.conns, now)
    ensures Filter(f, p, now).v.accept ==> ClassOf(f, p, now) == New
  {
    BaselineAccepts(f, p, now);
    assert FreeFrom(f.conns, now, 0).Some? <==> Room(f.conns, now);
  }

  /** A datagram on a tracked flow passes if it goes out, or comes from the other end, or after
      that has been heard from. */
  lemma UdpOnFlow(f: Fw, p: Pkt, now: u32, i: nat)
    requires f.Valid() && IsBaseline(f.cfg) && Unique(f.conns, now) && p.bad == BAD_NONE && p.proto == PROTO_UDP
    requires i < MAX_CONNS && Hit(f.conns[i], KeyOf(p), now, None)
    ensures Filter(f, p, now).v.accept <==>
            p.dport != 0 && (p.dir != DIR_IN || SideOf(f.conns[i], KeyOf(p)) == Some(1) || f.conns[i].replied)
    ensures Filter(f, p, now).v.accept ==>
              ClassOf(f, p, now) == Existing(i, SideOf(f.conns[i], KeyOf(p)).value, UDP_REPLIED, 0)
  {
    OnlyHit(f.conns, KeyOf(p), now, None, i);
    BaselineAccepts(f, p, now);
  }

  ghost predicate Awaited(f: Fw, p: Pkt, now: u32) {
    exists j :: 0 <= j < |f.expects| && Expects(f.expects[j], p, now)
  }

  /** Without one it passes if there is room, outward, or inward where one is expected. */
  lemma UdpWithoutFlow(f: Fw, p: Pkt, now: u32)
    requires f.Valid() && IsBaseline(f.cfg) && p.bad == BAD_NONE && p.proto == PROTO_UDP
    requires !Tracked(f.conns, KeyOf(p), now, None)
    ensures Filter(f, p, now).v.accept <==>
            p.dport != 0 && Room(f.conns, now) && (p.dir != DIR_IN || Awaited(f, p, now))
  {
    BaselineAccepts(f, p, now);
    assert FreeFrom(f.conns, now, 0).Some? <==> Room(f.conns, now);
  }

  /** An echo request passes outward, if there is room or it repeats one, and inward only
      where it repeats one that has been answered. */
  lemma EchoRequest(f: Fw, p: Pkt, now: u32)
    requires f.Valid() && IsBaseline(f.cfg) && Unique(f.conns, now)
    requires p.bad == BAD_NONE && p.proto == PROTO_ICMP && p.icmpType == 8
    ensures Filter(f, p, now).v.accept <==>
            && p.icmpCode == 0
            && (|| (p.dir != DIR_IN && (Tracked(f.conns, KeyOf(p), now, Some(0)) || Room(f.conns, now)))
                || exists i :: 0 <= i < MAX_CONNS && Hit(f.conns[i], KeyOf(p), now, Some(0)) && f.conns[i].replied)
  {
    BaselineAccepts(f, p, now);
    assert FreeFrom(f.conns, now, 0).Some? <==> Room(f.conns, now);
    forall i | 0 <= i < MAX_CONNS && Hit(f.conns[i], KeyOf(p), now, Some(0))
      ensures FindFrom(f.conns, KeyOf(p), now, Some(0), 0) == Some(i)
    {
      OnlyHit(f.conns, KeyOf(p), now, Some(0), i);
    }
  }

  /** An echo reply passes exactly if a request on its flow awaits one. */
  lemma EchoReply(f: Fw, p: Pkt, now: u32)
    requires f.Valid() && IsBaseline(f.cfg) && Unique(f.conns, now)
    requires p.bad == BAD_NONE && p.proto == PROTO_ICMP && p.icmpType == 0
    ensures Filter(f, p, now).v.accept <==>
            && p.icmpCode == 0
            && exists i :: 0 <= i < MAX_CONNS && Hit(f.conns[i], KeyOf(p), now, Some(1)) && f.conns[i].pending > 0
  {
    BaselineAccepts(f, p, now);
    forall i | 0 <= i < MAX_CONNS && Hit(f.conns[i], KeyOf(p), now, Some(1))
      ensures FindFrom(f.conns, KeyOf(p), now, Some(1), 0) == Some(i)
    {
      OnlyHit(f.conns, KeyOf(p), now, Some(1), i);
    }
  }

  const UNREACHABLE: u8 := 3
  const SOURCE_QUENCH: u8 := 4
  const REDIRECT: u8 := 5
  const TIME_EXCEEDED: u8 := 11
  const PARAMETER_PROBLEM: u8 := 12

  const ERRORS: set<u8> := {UNREACHABLE, SOURCE_QUENCH, REDIRECT, TIME_EXCEEDED, PARAMETER_PROBLEM}

  /** An ICMP error passes exactly if it quotes a tracked flow. */
  lemma IcmpError(f: Fw, p: Pkt, now: u32)
    requires f.Valid() && IsBaseline(f.cfg) && p.bad == BAD_NONE && p.proto == PROTO_ICMP && p.icmpType in ERRORS
    ensures Filter(f, p, now).v.accept <==> p.inner.Some? && Tracked(f.conns, p.inner.value, now, None)
  {
    BaselineAccepts(f, p, now);
  }

  /** Nothing else does. */
  lemma NothingElse(f: Fw, p: Pkt, now: u32)
    requires f.Valid() && IsBaseline(f.cfg) && Filter(f, p, now).v.accept
    ensures p.bad == BAD_NONE
    ensures || (p.proto == PROTO_TCP && TcpClass(p.flags).Some? && p.sport != 0 && p.dport != 0)
            || p.proto == PROTO_UDP
            || (p.proto == PROTO_ICMP && p.icmpType in {0, 8} + ERRORS)
  {
    BaselineAccepts(f, p, now);
  }

  /** What is wrong with a packet that is invalid. */
  lemma DetailsExactly(f: Fw, p: Pkt, now: u32)
    requires f.Valid() && p.bad == BAD_NONE
    ensures var cls, tcp, icmp := ClassOf(f, p, now), p.proto == PROTO_TCP, p.proto == PROTO_ICMP;
            && (cls == Invalid(INV_PORT0) <==> (tcp && (p.sport == 0 || p.dport == 0)) || (p.proto == PROTO_UDP && p.dport == 0))
            && (cls == Invalid(INV_FLAGS) <==> tcp && p.sport != 0 && p.dport != 0 && TcpClass(p.flags) == None)
            && (cls == Invalid(INV_STATE) ==> tcp && Tracked(f.conns, KeyOf(p), now, None))
            && (cls == Invalid(INV_ICMP) <==>
                  icmp && p.icmpType !in ERRORS && (p.icmpCode != 0 || p.icmpType !in {0, 8}))
            && (cls == Invalid(INV_RELATED) <==>
                  icmp && p.icmpType in ERRORS && !(p.inner.Some? && Tracked(f.conns, p.inner.value, now, None)))
            && (cls == Invalid(INV_NO_CONN) ==>
                  || (tcp && TcpClass(p.flags) != Some(Syn) && !Tracked(f.conns, KeyOf(p), now, None))
                  || (icmp && p.icmpType == 0 && p.icmpCode == 0))
            && (cls == Invalid(INV_NONE) <==> !tcp && !icmp && p.proto != PROTO_UDP)
  {
  }

  // ---- expectations ----

  /** Slot `j` of the table holds the new expectation; it held the same one before, or none that
      counts, or the table was full of others and `j` is the first. */
  ghost predicate ExpectedAt(es: seq<Expect>, es': seq<Expect>, remote: u32, local: u32, port: u16, now: u32, j: nat) {
    && j < |es| == |es'| && es' == es[j := Expect(true, remote, local, port, WrapAdd(now, 30 * TICK_HZ))]
    && (|| SameExpect(es[j], remote, local, port)
        || ((!es[j].used || Expired(es[j].expires, now)) && forall i :: 0 <= i < |es| ==> !SameExpect(es[i], remote, local, port))
        || (j == 0 && forall i :: 0 <= i < |es| ==>
              es[i].used && !Expired(es[i].expires, now) && !SameExpect(es[i], remote, local, port)))
  }

  lemma {:induction false} SameFound(es: seq<Expect>, remote: u32, local: u32, port: u16, i: nat)
    requires i <= |es|
    ensures match SameExpectFrom(es, remote, local, port, i)
            case Some(j) => SameExpect(es[j], remote, local, port)
            case None => forall j :: i <= j < |es| ==> !SameExpect(es[j], remote, local, port)
    decreases |es| - i
  {
    if i < |es| {
      SameFound(es, remote, local, port, i + 1);
    }
  }

  lemma {:induction false} SpareFound(es: seq<Expect>, now: u32, i: nat)
    requires i <= |es|
    ensures match SpareExpectFrom(es, now, i)
            case Some(j) => !es[j].used || Expired(es[j].expires, now)
            case None => forall j :: i <= j < |es| ==> es[j].used && !Expired(es[j].expires, now)
    decreases |es| - i
  {
    if i < |es| {
      SpareFound(es, now, i + 1);
    }
  }

  lemma ExpectationAdded(es: seq<Expect>, remote: u32, local: u32, port: u16, now: u32)
    requires |es| > 0
    ensures exists j: nat :: ExpectedAt(es, AddExpect(es, remote, local, port, now), remote, local, port, now, j)
  {
    SameFound(es, remote, local, port, 0);
    SpareFound(es, now, 0);
    assert ExpectedAt(es, AddExpect(es, remote, local, port, now), remote, local, port, now,
                      ExpectSlot(es, remote, local, port, now));
  }

  /** After a TFTP request that is let through, a datagram from the server it went to, to the port
      it came from, is awaited for 30 seconds. */
  lemma RequestIsAwaited(f: Fw, p: Pkt, now: u32, q: Pkt, later: u32)
    requires f.Valid() && !f.cfg.disabled && Filter(f, p, now).v.accept && ClassOf(f, p, now) == New
    requires p.proto == PROTO_UDP && p.dir == DIR_OUT && p.dport == 69 && q.src == p.dst && q.dst == p.src && q.dport == p.sport
    requires WrapSub(later, now) < 30 * TICK_HZ
    ensures Awaited(Filter(f, p, now).f, q, later)
  {
    AdmittedHasRoom(f, p, now);
    ExpectationAdded(f.expects, p.dst, p.src, p.sport, now);
    var g := Filter(f, p, now).f;
    var j: nat :| ExpectedAt(f.expects, g.expects, p.dst, p.src, p.sport, now, j);
    StillAwaited(now, later);
    assert Expects(g.expects[j], q, later);
  }

  lemma StillAwaited(now: u32, later: u32)
    requires WrapSub(later, now) < 30 * TICK_HZ
    ensures !Expired(WrapAdd(now, 30 * TICK_HZ), later)
  {
  }

  /** Only such a request adds one, and only a datagram that meets one takes it away. */
  lemma ExpectationsChange(f: Fw, p: Pkt, now: u32)
    requires f.Valid() && Filter(f, p, now).f.expects != f.expects
    ensures Filter(f, p, now).v.accept && p.proto == PROTO_UDP
    ensures (p.dir == DIR_OUT && p.dport == 69 && ClassOf(f, p, now) == New) || (p.dir == DIR_IN && Awaited(f, p, now))
  {
  }

  /** An expectation lets one flow in. */
  lemma ExpectationIsSpent(f: Fw, p: Pkt, now: u32)
    requires f.Valid() && !f.cfg.disabled && Filter(f, p, now).v.accept && ClassOf(f, p, now).RelatedNew?
    ensures var ex := ClassOf(f, p, now).ex;
            Expects(f.expects[ex], p, now) && Filter(f, p, now).f.expects == f.expects[ex := f.expects[ex].(used := false)]
  {
  }
}
