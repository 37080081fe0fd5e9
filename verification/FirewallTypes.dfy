/** Packets, rules, tracked flows and the pure decision tables of the firewall
    (kernel/rust/firewall.rs). */
module FirewallTypes {
  import opened Words

  const MAX_RULES := 32
  const MAX_CONNS := 256
  const MAX_EXPECT := 16
  const HALF_OPEN_MAX := 64
  const TICK_HZ := 100

  const PROTO_ICMP: u8 := 1
  const PROTO_TCP: u8 := 6
  const PROTO_UDP: u8 := 17

  const DIR_IN: u8 := 0
  const DIR_OUT: u8 := 1
  const DIR_ANY: u8 := 2

  // The state of a packet as rules see it: a bit each, so that a rule can name several.
  const ST_NEW: u8 := 1
  const ST_ESTABLISHED: u8 := 2
  const ST_RELATED: u8 := 4
  const ST_INVALID: u8 := 8

  const TCP_FIN: u8 := 0x01
  const TCP_SYN: u8 := 0x02
  const TCP_RST: u8 := 0x04
  const TCP_ACK: u8 := 0x10

  const R_RULE: u8 := 1
  const R_POLICY: u8 := 2
  const R_INVALID: u8 := 3
  const R_FRAGMENT: u8 := 4
  const R_UNSUPPORTED: u8 := 5
  const R_MALFORMED: u8 := 6
  const R_TABLE_FULL: u8 := 7
  const R_HALF_OPEN: u8 := 8
  const R_DISABLED: u8 := 9

  const INV_NONE: u8 := 0
  const INV_FLAGS: u8 := 1
  const INV_NO_CONN: u8 := 2
  const INV_STATE: u8 := 3
  const INV_PORT0: u8 := 4
  const INV_ICMP: u8 := 5
  const INV_RELATED: u8 := 6

  const TCP_SYN_SENT: u8 := 1
  const TCP_SYN_RECV: u8 := 2
  const TCP_ESTABLISHED: u8 := 3
  const TCP_FIN_WAIT: u8 := 4
  const TCP_LAST_ACK: u8 := 5
  const TCP_TIME_WAIT: u8 := 6
  const TCP_CLOSE: u8 := 7
  const UDP_UNREPLIED: u8 := 1
  const UDP_REPLIED: u8 := 2
  const ICMP_ECHO: u8 := 1

  const TFTP_PORT: u16 := 69

  const T_SYN: u32 := 60 * TICK_HZ
  const T_ESTABLISHED: u32 := 3600 * TICK_HZ
  const T_FIN_WAIT: u32 := 120 * TICK_HZ
  const T_LAST_ACK: u32 := 30 * TICK_HZ
  const T_TIME_WAIT: u32 := 120 * TICK_HZ
  const T_CLOSE: u32 := 10 * TICK_HZ
  const T_UDP_UNREPLIED: u32 := 30 * TICK_HZ
  const T_UDP_REPLIED: u32 := 180 * TICK_HZ
  const T_ICMP: u32 := 30 * TICK_HZ
  const T_EXPECT: u32 := 30 * TICK_HZ

  const BAD_NONE: u8 := 0
  const BAD_UNSUPPORTED: u8 := 2
  const BAD_FRAGMENT: u8 := 3

  /** One end-to-end tuple, in the orientation of some packet. */
  datatype Key = Key(proto: u8, src: u32, sport: u16, dst: u32, dport: u16) {
    function Swap(): Key {
      Key(proto, dst, dport, src, sport)
    }
  }

  /** What the filter needs to know about one IP packet; `inner` is the tuple an
      ICMP error message quotes. */
  datatype Pkt = Pkt(
    dir: u8, proto: u8, src: u32, dst: u32, sport: u16, dport: u16, flags: u8,
    icmpType: u8, icmpCode: u8, id: u16, len: u16, bad: u8, inner: Option<Key>)

  datatype Rule = Rule(
    dir: u8, proto: u8, accept: bool, log: bool,
    srcIp: u32, srcMask: u32, dstIp: u32, dstMask: u32,
    spSet: bool, spLo: u16, spHi: u16, dpSet: bool, dpLo: u16, dpHi: u16,
    states: u8, icmpSet: bool, icmpType: u8)
  {
    predicate Matches(p: Pkt, state: u8) {
      && (dir == DIR_ANY || dir == p.dir)
      && (proto == 0 || proto == p.proto)
      && And32(p.src, srcMask) == srcIp && And32(p.dst, dstMask) == dstIp
      && var hasPorts := p.proto == PROTO_TCP || p.proto == PROTO_UDP;
      && (spSet ==> hasPorts && spLo <= p.sport <= spHi)
      && (dpSet ==> hasPorts && dpLo <= p.dport <= dpHi)
      && (states != 0 ==> And8(states, state) != 0)
      && (icmpSet ==> p.proto == PROTO_ICMP && p.icmpType == icmpType)
    }
  }

  const EMPTY_RULE: Rule :=
    Rule(DIR_IN, 0, false, false, 0, 0, 0, 0, false, 0, 0, false, 0, 0, 0, false, 0)

  /** One slot of the connection table. Side 0 is the initiator, side 1 the responder. */
  datatype Conn = Conn(
    used: bool, proto: u8, origDir: u8, state: u8, finFrom: u8, replied: bool, pending: u8,
    aIp: u32, bIp: u32, aPort: u16, bPort: u16, expires: u32, created: u32,
    pkts: (u32, u32), bytes: (u32, u32))
  {
    /** The tuple of the packet that started the flow. */
    function Tuple(): Key {
      Key(proto, aIp, aPort, bIp, bPort)
    }
  }

  const EMPTY_CONN: Conn :=
    Conn(false, 0, 0, 0, 0, false, 0, 0, 0, 0, 0, 0, 0, (0, 0), (0, 0))

  /** A flow the TFTP helper has been told to expect. */
  datatype Expect = Expect(used: bool, remoteIp: u32, localIp: u32, localPort: u16, expires: u32)

  const EMPTY_EXPECT: Expect := Expect(false, 0, 0, 0, 0)

  /** The flag classes a real TCP sends. */
  datatype Fc = Syn | SynAck | Ack | FinAck | Rst

  /** How a packet relates to the tracked flows; `idx` says which flow, a slot of the
      table or whatever else names one. */
  datatype Cls<+T> =
    | Invalid(detail: u8)
    | Existing(idx: T, side: u8, next: u8, finFrom: u8)
    | Related(idx: T)
    | RelatedNew(ex: nat)
    | New
    | Replace(idx: T)

  datatype Verdict = Verdict(
    accept: bool, state: u8, rule: int, reason: u8, detail: u8, ctState: u8, log: bool)

  datatype Stats = Stats(
    acceptedIn: u32, acceptedOut: u32, droppedIn: u32, droppedOut: u32, invalid: u32,
    fragments: u32, tableFull: u32, halfOpen: u32, newConns: u32, related: u32,
    unsupported: u32, malformed: u32, logged: u32)

  const ZERO_STATS: Stats := Stats(0, 0, 0, 0, 0, 0, 0, 0, 0, 0, 0, 0, 0)

  predicate IsIcmpError(t: u8) {
    t == 3 || t == 4 || t == 5 || t == 11 || t == 12
  }

  /** An echo's identifier stands in for both ports. */
  function KeyOf(p: Pkt): Key {
    if p.proto == PROTO_ICMP
    then Key(p.proto, p.src, p.id, p.dst, p.id)
    else Key(p.proto, p.src, p.sport, p.dst, p.dport)
  }

  /** Which end of flow `c` a packet with tuple `k` comes from. */
  function SideOf(c: Conn, k: Key): Option<u8> {
    if c.Tuple() == k then Some(0)
    else if c.Tuple().Swap() == k then Some(1)
    else None
  }

  /** The signed reading of the wrapped difference `now - expires` is not negative. */
  predicate Expired(expires: u32, now: u32) {
    WrapSub(now, expires) < TWO31
  }

  predicate Live(c: Conn, now: u32) {
    c.used && !Expired(c.expires, now)
  }

  function TcpClass(flags: u8): Option<Fc> {
    var f := And8(flags, 0x3F);
    if f == TCP_SYN then Some(Syn)
    else if f == TCP_SYN + TCP_ACK then Some(SynAck)
    else if And8(f, TCP_SYN + TCP_FIN + TCP_RST) == 0 && And8(f, TCP_ACK) != 0 then Some(Ack)
    else if And8(f, TCP_SYN + TCP_RST) == 0 && And8(f, TCP_FIN) != 0 && And8(f, TCP_ACK) != 0 then Some(FinAck)
    else if And8(f, TCP_SYN + TCP_FIN) == 0 && And8(f, TCP_RST) != 0 then Some(Rst)
    else None
  }

  /** The TCP state machine: the next state and the side that sent the first FIN,
      or None if this packet cannot happen in this state. */
  function TcpNext(state: u8, side: u8, fc: Fc, finFrom: u8): Option<(u8, u8)> {
    if state == TCP_SYN_SENT then
      match fc
      case Syn => if side == 0 then Some((TCP_SYN_SENT, finFrom))
                  else if side == 1 then Some((TCP_SYN_RECV, finFrom)) else None
      case SynAck => if side == 1 then Some((TCP_SYN_RECV, finFrom)) else None
      case Rst => Some((TCP_CLOSE, finFrom))
      case _ => None
    else if state == TCP_SYN_RECV then
      match fc
      case Syn => if side == 0 then Some((TCP_SYN_RECV, finFrom)) else None
      case SynAck => if side == 0 || side == 1 then Some((TCP_SYN_RECV, finFrom)) else None
      case Ack => if side == 0 || side == 1 then Some((TCP_ESTABLISHED, finFrom)) else None
      case FinAck => Some((TCP_FIN_WAIT, side))
      case Rst => Some((TCP_CLOSE, finFrom))
    else if state == TCP_ESTABLISHED then
      match fc
      case Syn => None
      case SynAck => if side == 1 then Some((TCP_ESTABLISHED, finFrom)) else None
      case Ack => Some((TCP_ESTABLISHED, finFrom))
      case FinAck => Some((TCP_FIN_WAIT, side))
      case Rst => Some((TCP_CLOSE, finFrom))
    else if state == TCP_FIN_WAIT then
      match fc
      case Ack => Some((TCP_FIN_WAIT, finFrom))
      case FinAck => Some((if side == finFrom then TCP_FIN_WAIT else TCP_LAST_ACK, finFrom))
      case Rst => Some((TCP_CLOSE, finFrom))
      case _ => None
    else if state == TCP_LAST_ACK then
      match fc
      case Ack => Some((if side == finFrom then TCP_TIME_WAIT else TCP_LAST_ACK, finFrom))
      case FinAck => Some((TCP_LAST_ACK, finFrom))
      case Rst => Some((TCP_CLOSE, finFrom))
      case _ => None
    else if state == TCP_TIME_WAIT then
      match fc
      case Ack => Some((TCP_TIME_WAIT, finFrom))
      case FinAck => Some((TCP_TIME_WAIT, finFrom))
      case Rst => Some((TCP_CLOSE, finFrom))
      case _ => None
    else if state == TCP_CLOSE then
      match fc
      case Ack => Some((TCP_CLOSE, finFrom))
      case FinAck => Some((TCP_CLOSE, finFrom))
      case Rst => Some((TCP_CLOSE, finFrom))
      case _ => None
    else None
  }

  function ConnTimeout(proto: u8, state: u8, replied: bool): (t: u32)
    ensures 0 < t <= T_ESTABLISHED
  {
    if proto == PROTO_TCP then
      if state == TCP_SYN_SENT || state == TCP_SYN_RECV then T_SYN
      else if state == TCP_ESTABLISHED then T_ESTABLISHED
      else if state == TCP_FIN_WAIT then T_FIN_WAIT
      else if state == TCP_LAST_ACK then T_LAST_ACK
      else if state == TCP_TIME_WAIT then T_TIME_WAIT
      else T_CLOSE
    else if proto == PROTO_UDP then
      if replied then T_UDP_REPLIED else T_UDP_UNREPLIED
    else T_ICMP
  }
}
