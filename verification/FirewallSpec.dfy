/** The firewall as a value: one decision, and one step, as functions of the whole
    state. The class in FirewallEngine computes exactly these functions in place. */
module FirewallSpec {
  import opened Words
  import opened FirewallTypes

  /** Everything a decision depends on besides the connection table. */
  datatype Config = Config(
    rules: seq<Rule>, nrules: nat, policyIn: bool, policyOut: bool, disabled: bool, locked: bool)

  datatype Counters = Counters(hits: seq<u32>, hitBytes: seq<u32>, stats: Stats, logSeq: u32)

  datatype Fw = Fw(cfg: Config, counters: Counters, conns: seq<Conn>, expects: seq<Expect>) {
    ghost predicate Valid() {
      && |cfg.rules| == MAX_RULES && cfg.nrules <= MAX_RULES
      && |counters.hits| == MAX_RULES && |counters.hitBytes| == MAX_RULES
      && |conns| == MAX_CONNS && |expects| == MAX_EXPECT
    }
  }

  // ---- scans ----

  predicate Hit(c: Conn, k: Key, now: u32, want: Option<u8>) {
    Live(c, now) && SideOf(c, k).Some? && (want.Some? ==> SideOf(c, k) == want)
  }

  /** The first live flow at or after slot `i` that `k` belongs to. */
  function FindFrom(conns: seq<Conn>, k: Key, now: u32, want: Option<u8>, i: nat): (r: Option<nat>)
    requires i <= |conns|
    ensures r.Some? ==> i <= r.value < |conns| && Hit(conns[r.value], k, now, want)
                        && forall j :: i <= j < r.value ==> !Hit(conns[j], k, now, want)
    ensures r.None? ==> forall j :: i <= j < |conns| ==> !Hit(conns[j], k, now, want)
    decreases |conns| - i
  {
    if i == |conns| then None
    else if Hit(conns[i], k, now, want) then Some(i)
    else FindFrom(conns, k, now, want, i + 1)
  }

  /** The first slot at or after `i` that holds no live flow. */
  function FreeFrom(conns: seq<Conn>, now: u32, i: nat): (r: Option<nat>)
    requires i <= |conns|
    ensures r.Some? ==> i <= r.value < |conns| && !Live(conns[r.value], now)
                        && forall j :: i <= j < r.value ==> Live(conns[j], now)
    ensures r.None? ==> forall j :: i <= j < |conns| ==> Live(conns[j], now)
    decreases |conns| - i
  {
    if i == |conns| then None
    else if !Live(conns[i], now) then Some(i)
    else FreeFrom(conns, now, i + 1)
  }

  predicate HalfOpen(c: Conn, now: u32) {
    && Live(c, now) && c.proto == PROTO_TCP && c.origDir == DIR_IN
    && (c.state == TCP_SYN_SENT || c.state == TCP_SYN_RECV)
  }

  /** How many flows are live, or, with `halfOpen`, how many of those are half-open inbound. */
  function CountFlows(conns: seq<Conn>, now: u32, halfOpen: bool): nat {
    if conns == [] then 0
    else CountFlows(conns[..|conns| - 1], now, halfOpen)
         + if Counted(conns[|conns| - 1], now, halfOpen) then 1 else 0
  }

  predicate Counted(c: Conn, now: u32, halfOpen: bool) {
    if halfOpen then HalfOpen(c, now) else Live(c, now)
  }

  predicate Expects(e: Expect, p: Pkt, now: u32) {
    && e.used && !Expired(e.expires, now)
    && e.remoteIp == p.src && e.localIp == p.dst && e.localPort == p.dport
  }

  function ExpectFrom(expects: seq<Expect>, p: Pkt, now: u32, i: nat): (r: Option<nat>)
    requires i <= |expects|
    ensures r.Some? ==> i <= r.value < |expects| && Expects(expects[r.value], p, now)
    ensures r.None? ==> forall j :: i <= j < |expects| ==> !Expects(expects[j], p, now)
    decreases |expects| - i
  {
    if i == |expects| then None
    else if Expects(expects[i], p, now) then Some(i)
    else ExpectFrom(expects, p, now, i + 1)
  }

  function FindExpect(expects: seq<Expect>, p: Pkt, now: u32): (r: Option<nat>)
    ensures r.Some? ==> r.value < |expects| && Expects(expects[r.value], p, now)
                        && p.dir == DIR_IN && p.proto == PROTO_UDP
  {
    if p.dir != DIR_IN || p.proto != PROTO_UDP then None else ExpectFrom(expects, p, now, 0)
  }

  // ---- classification ----

  /** How a packet relates to the flow `c` in slot `idx` that it was found to belong to. */
  function ClassifyTcp<T>(c: Conn, idx: T, k: Key, fc: Fc): Cls<T>
    requires SideOf(c, k).Some?
  {
    if fc == Syn && (c.state == TCP_TIME_WAIT || c.state == TCP_CLOSE) then Replace(idx)
    else
      var side := SideOf(c, k).value;
      match TcpNext(c.state, side, fc, c.finFrom)
      case Some((next, ff)) => Existing(idx, side, next, ff)
      case None => Invalid(INV_STATE)
  }

  function Classify(conns: seq<Conn>, expects: seq<Expect>, p: Pkt, now: u32): Cls<nat> {
    if p.proto == PROTO_TCP then
      if p.sport == 0 || p.dport == 0 then Invalid(INV_PORT0)
      else match TcpClass(p.flags)
           case None => Invalid(INV_FLAGS)
           case Some(fc) =>
             match FindFrom(conns, KeyOf(p), now, None, 0)
             case Some(idx) => ClassifyTcp(conns[idx], idx, KeyOf(p), fc)
             case None => if fc == Syn then New else Invalid(INV_NO_CONN)
    else if p.proto == PROTO_UDP then
      if p.dport == 0 then Invalid(INV_PORT0)
      else match FindFrom(conns, KeyOf(p), now, None, 0)
           case Some(idx) => Existing(idx, SideOf(conns[idx], KeyOf(p)).value, UDP_REPLIED, 0)
           case None => match FindExpect(expects, p, now)
                        case Some(ex) => RelatedNew(ex)
                        case None => New
    else if p.proto == PROTO_ICMP then
      if p.icmpCode != 0 && (p.icmpType == 0 || p.icmpType == 8) then Invalid(INV_ICMP)
      else if p.icmpType == 8 then
        match FindFrom(conns, KeyOf(p), now, Some(0), 0)
        case Some(idx) => Existing(idx, 0, ICMP_ECHO, 0)
        case None => New
      else if p.icmpType == 0 then
        match FindFrom(conns, KeyOf(p), now, Some(1), 0)
        case Some(idx) => if conns[idx].pending > 0 then Existing(idx, 1, ICMP_ECHO, 0) else Invalid(INV_NO_CONN)
        case None => Invalid(INV_NO_CONN)
      else if IsIcmpError(p.icmpType) then
        match p.inner
        case None => Invalid(INV_RELATED)
        case Some(k) => match FindFrom(conns, k, now, None, 0)
                        case Some(idx) => Related(idx)
                        case None => Invalid(INV_RELATED)
      else Invalid(INV_ICMP)
    else Invalid(INV_NONE)
  }

  /** Slots named by a class are slots of the tables. */
  ghost predicate InTable(cls: Cls<nat>, conns: seq<Conn>, expects: seq<Expect>) {
    match cls
    case Existing(idx, _, _, _) => idx < |conns|
    case Related(idx) => idx < |conns|
    case Replace(idx) => idx < |conns|
    case RelatedNew(ex) => ex < |expects|
    case _ => true
  }

  function StateOf(conns: seq<Conn>, cls: Cls<nat>): u8
    requires cls.Existing? ==> cls.idx < |conns|
  {
    match cls
    case Invalid(_) => ST_INVALID
    case New => ST_NEW
    case Replace(_) => ST_NEW
    case Related(_) => ST_RELATED
    case RelatedNew(_) => ST_RELATED
    case Existing(idx, side, _, _) =>
      if side == 1 || conns[idx].replied then ST_ESTABLISHED else ST_NEW
  }

  // ---- rules ----

  /** The first rule at or after `i` that matches; `nrules` if none does. */
  function RuleFrom(rules: seq<Rule>, n: nat, p: Pkt, state: u8, i: nat): (r: nat)
    requires i <= n <= |rules|
    ensures i <= r <= n
    ensures r < n ==> rules[r].Matches(p, state)
    ensures forall j :: i <= j < r ==> !rules[j].Matches(p, state)
    decreases n - i
  {
    if i == n || rules[i].Matches(p, state) then i else RuleFrom(rules, n, p, state, i + 1)
  }

  /** A verdict before the connection table has been touched, and whether a log line is wanted. */
  datatype Decision = Decision(v: Verdict, wantLog: bool)

  const DROPPED: Verdict := Verdict(false, ST_INVALID, -1, R_INVALID, INV_NONE, 0, false)

  function RuleDecision(cfg: Config, p: Pkt, state: u8): (d: Decision)
    requires cfg.nrules <= |cfg.rules|
    ensures -1 <= d.v.rule < cfg.nrules && d.v.state == state
  {
    var r := RuleFrom(cfg.rules, cfg.nrules, p, state, 0);
    if r < cfg.nrules
    then Decision(Verdict(cfg.rules[r].accept, state, r, R_RULE, INV_NONE, 0, false), cfg.rules[r].log)
    else Decision(Verdict(if p.dir == DIR_IN then cfg.policyIn else cfg.policyOut,
                          state, -1, R_POLICY, INV_NONE, 0, false), false)
  }

  /** A new flow needs room, and an inbound one must not use the table up half-open. */
  function Admit<T>(d: Decision, p: Pkt, cls: Cls<T>, room: bool, halfOpen: nat): (r: Decision)
    ensures r.v.rule == d.v.rule && r.v.state == d.v.state && (r.v.accept ==> r == d)
  {
    if d.v.accept && (cls.New? || cls.RelatedNew?) && !room then
      Decision(d.v.(accept := false, reason := R_TABLE_FULL), true)
    else if d.v.accept && cls.New? && p.proto == PROTO_TCP && p.dir == DIR_IN && halfOpen >= HALF_OPEN_MAX then
      Decision(d.v.(accept := false, reason := R_HALF_OPEN), true)
    else d
  }

  function BadReason(bad: u8): u8 {
    if bad == BAD_FRAGMENT then R_FRAGMENT
    else if bad == BAD_UNSUPPORTED then R_UNSUPPORTED
    else R_MALFORMED
  }

  /** The decision on a packet of class `cls` and rule-visible state `state`. */
  function DecideAs<T>(cfg: Config, p: Pkt, cls: Cls<T>, state: u8, room: bool, halfOpen: nat): (d: Decision)
    requires cfg.nrules <= |cfg.rules|
    ensures -1 <= d.v.rule < cfg.nrules
    ensures d.v.accept ==> !cls.Invalid?
  {
    if cls.Invalid? then Decision(DROPPED.(detail := cls.detail), true)
    else Admit(RuleDecision(cfg, p, state), p, cls, room, halfOpen)
  }

  lemma ClassifyInTable(conns: seq<Conn>, expects: seq<Expect>, p: Pkt, now: u32)
    ensures InTable(Classify(conns, expects, p, now), conns, expects)
  {
  }

  function ClassOf(f: Fw, p: Pkt, now: u32): (cls: Cls<nat>)
    ensures InTable(cls, f.conns, f.expects)
  {
    ClassifyInTable(f.conns, f.expects, p, now);
    if p.bad != BAD_NONE then Invalid(INV_NONE) else Classify(f.conns, f.expects, p, now)
  }

  function Decide(f: Fw, p: Pkt, now: u32): (d: Decision)
    requires f.Valid()
    ensures -1 <= d.v.rule < f.cfg.nrules
    ensures d.v.accept ==> !ClassOf(f, p, now).Invalid?
  {
    var cls := ClassOf(f, p, now);
    if p.bad != BAD_NONE then Decision(DROPPED.(reason := BadReason(p.bad)), true)
    else DecideAs(f.cfg, p, cls, StateOf(f.conns, cls),
                  FreeFrom(f.conns, now, 0).Some?, CountFlows(f.conns, now, true))
  }

  // ---- committing ----

  /** A flow after one more of its packets, from `side`. */
  function Touch(c: Conn, p: Pkt, side: u8, next: u8, finFrom: u8, now: u32): Conn {
    var pkts := if side == 0 then (WrapAdd(c.pkts.0, 1), c.pkts.1) else (c.pkts.0, WrapAdd(c.pkts.1, 1));
    var bytes := if side == 0 then (WrapAdd(c.bytes.0, p.len), c.bytes.1) else (c.bytes.0, WrapAdd(c.bytes.1, p.len));
    var d :=
      if p.proto == PROTO_TCP then
        c.(state := next, finFrom := finFrom, replied := c.replied || side == 1)
      else if p.proto == PROTO_UDP then
        if side == 1 then c.(replied := true, state := UDP_REPLIED) else c
      else if side == 0 then c.(pending := if c.pending == 255 then 255 else c.pending + 1)
      else c.(pending := if c.pending == 0 then 0 else c.pending - 1, replied := true);
    d.(pkts := pkts, bytes := bytes, expires := WrapAdd(now, ConnTimeout(d.proto, d.state, d.replied)))
  }

  function FirstState(proto: u8): u8 {
    if proto == PROTO_TCP then TCP_SYN_SENT
    else if proto == PROTO_UDP then UDP_UNREPLIED
    else ICMP_ECHO
  }

  function Started(p: Pkt, now: u32, related: bool): (c: Conn)
    ensures c.used && c.Tuple() == KeyOf(p)
  {
    var k := KeyOf(p);
    var state := if related then UDP_REPLIED else FirstState(p.proto);
    Conn(true, p.proto, p.dir, state, 0, related, if p.proto == PROTO_ICMP then 1 else 0,
         k.src, k.dst, k.sport, k.dport,
         WrapAdd(now, ConnTimeout(p.proto, state, related)), now, (1, 0), (p.len, 0))
  }

  predicate SameExpect(e: Expect, remote: u32, local: u32, port: u16) {
    e.used && e.remoteIp == remote && e.localIp == local && e.localPort == port
  }

  function SameExpectFrom(es: seq<Expect>, remote: u32, local: u32, port: u16, i: nat): (r: Option<nat>)
    requires i <= |es|
    ensures r.Some? ==> i <= r.value < |es|
    decreases |es| - i
  {
    if i == |es| then None
    else if SameExpect(es[i], remote, local, port) then Some(i)
    else SameExpectFrom(es, remote, local, port, i + 1)
  }

  function SpareExpectFrom(es: seq<Expect>, now: u32, i: nat): (r: Option<nat>)
    requires i <= |es|
    ensures r.Some? ==> i <= r.value < |es|
    decreases |es| - i
  {
    if i == |es| then None
    else if !es[i].used || Expired(es[i].expires, now) then Some(i)
    else SpareExpectFrom(es, now, i + 1)
  }

  function ExpectSlot(es: seq<Expect>, remote: u32, local: u32, port: u16, now: u32): (i: nat)
    requires |es| > 0
    ensures i < |es|
  {
    match SameExpectFrom(es, remote, local, port, 0)
    case Some(i) => i
    case None => match SpareExpectFrom(es, now, 0)
                 case Some(i) => i
                 case None => 0
  }

  function AddExpect(es: seq<Expect>, remote: u32, local: u32, port: u16, now: u32): seq<Expect>
    requires |es| > 0
  {
    es[ExpectSlot(es, remote, local, port, now) := Expect(true, remote, local, port, WrapAdd(now, T_EXPECT))]
  }

  /** The tables and the flow's state after an accepted packet. */
  datatype Outcome = Outcome(conns: seq<Conn>, expects: seq<Expect>, ctState: u8, started: bool)

  predicate TftpRequest(p: Pkt) {
    p.proto == PROTO_UDP && p.dir == DIR_OUT && p.dport == TFTP_PORT
  }

  function Commit(conns: seq<Conn>, expects: seq<Expect>, p: Pkt, cls: Cls<nat>, now: u32): (o: Outcome)
    requires InTable(cls, conns, expects) && |expects| > 0
    ensures |o.conns| == |conns| && |o.expects| == |expects|
  {
    match cls
    case Invalid(_) => Outcome(conns, expects, 0, false)
    case Existing(idx, side, next, ff) =>
      var c := Touch(conns[idx], p, side, next, ff, now);
      Outcome(conns[idx := c], expects, c.state, false)
    case Related(idx) => Outcome(conns, expects, conns[idx].state, false)
    case RelatedNew(ex) =>
      var es := expects[ex := expects[ex].(used := false)];
      (match FreeFrom(conns, now, 0)
       case Some(i) => Outcome(conns[i := Started(p, now, true)], es, UDP_REPLIED, true)
       case None => Outcome(conns, es, 0, false))
    case New =>
      (match FreeFrom(conns, now, 0)
       case Some(i) =>
         Outcome(conns[i := Started(p, now, false)],
                 if TftpRequest(p) then AddExpect(expects, p.dst, p.src, p.sport, now) else expects,
                 FirstState(p.proto), true)
       case None => Outcome(conns, expects, 0, false))
    case Replace(idx) =>
      Outcome(conns[idx := Started(p, now, false)], expects, FirstState(p.proto), true)
  }

  // ---- counters ----

  function CountVerdict(s: Stats, v: Verdict, inbound: bool): Stats {
    var t :=
      if v.accept then
        if inbound then s.(acceptedIn := WrapAdd(s.acceptedIn, 1)) else s.(acceptedOut := WrapAdd(s.acceptedOut, 1))
      else
        if inbound then s.(droppedIn := WrapAdd(s.droppedIn, 1)) else s.(droppedOut := WrapAdd(s.droppedOut, 1));
    if v.reason == R_INVALID then t.(invalid := WrapAdd(t.invalid, 1))
    else if v.reason == R_FRAGMENT then t.(fragments := WrapAdd(t.fragments, 1))
    else if v.reason == R_UNSUPPORTED then t.(unsupported := WrapAdd(t.unsupported, 1))
    else if v.reason == R_MALFORMED then t.(malformed := WrapAdd(t.malformed, 1))
    else if v.reason == R_TABLE_FULL then t.(tableFull := WrapAdd(t.tableFull, 1))
    else if v.reason == R_HALF_OPEN then t.(halfOpen := WrapAdd(t.halfOpen, 1))
    else t
  }

  function CountCommit<T>(s: Stats, cls: Cls<T>, started: bool): Stats {
    var t := if cls.Related? || cls.RelatedNew? then s.(related := WrapAdd(s.related, 1)) else s;
    if started then t.(newConns := WrapAdd(t.newConns, 1)) else t
  }

  /** The first 32 log lines, then one in 256. */
  predicate LogNow(logSeq: u32) {
    logSeq < 32 || logSeq % 256 == 0
  }

  function CountLog(c: Counters, wanted: bool): Counters {
    if !wanted then c
    else c.(logSeq := WrapAdd(c.logSeq, 1),
            stats := if LogNow(c.logSeq) then c.stats.(logged := WrapAdd(c.stats.logged, 1)) else c.stats)
  }

  /** Counting a verdict: by direction, by reason, by rule, and the log. */
  function Tally(c: Counters, v: Verdict, p: Pkt, wantLog: bool): (r: Counters)
    requires -1 <= v.rule < |c.hits| && |c.hits| == |c.hitBytes|
    ensures |r.hits| == |c.hits| && |r.hitBytes| == |c.hitBytes|
  {
    var d := c.(stats := CountVerdict(c.stats, v, p.dir == DIR_IN));
    var e := if v.rule >= 0
             then d.(hits := d.hits[v.rule := WrapAdd(d.hits[v.rule], 1)],
                     hitBytes := d.hitBytes[v.rule := WrapAdd(d.hitBytes[v.rule], p.len)])
             else d;
    CountLog(e, wantLog)
  }

  function Count<T>(c: Counters, v: Verdict, p: Pkt, cls: Cls<T>, started: bool, wantLog: bool): (r: Counters)
    requires -1 <= v.rule < |c.hits| && |c.hits| == |c.hitBytes|
    ensures |r.hits| == |c.hits| && |r.hitBytes| == |c.hitBytes|
  {
    Tally(c.(stats := if v.accept then CountCommit(c.stats, cls, started) else c.stats), v, p, wantLog)
  }

  // ---- one packet ----

  /** What a dry run reports as the flow's state, without touching it. */
  function Forecast<T>(p: Pkt, cls: Cls<T>): u8 {
    match cls
    case Existing(_, _, next, _) => next
    case New => FirstState(p.proto)
    case Replace(_) => FirstState(p.proto)
    case _ => 0
  }

  const PASSED: Verdict := DROPPED.(accept := true, reason := R_DISABLED)

  function DryRun(f: Fw, p: Pkt, now: u32): Verdict
    requires f.Valid()
  {
    if f.cfg.disabled then PASSED
    else
      var d := Decide(f, p, now);
      d.v.(ctState := if d.v.accept then Forecast(p, ClassOf(f, p, now)) else 0)
  }

  /** The verdict of a committing run and the state after it. */
  datatype Result = Result(f: Fw, v: Verdict)

  /** Carrying a decision out: the tables, the counters and the final verdict. */
  function Settle(f: Fw, p: Pkt, cls: Cls<nat>, d: Decision, now: u32): (r: Result)
    requires f.Valid() && InTable(cls, f.conns, f.expects) && -1 <= d.v.rule < MAX_RULES
    ensures r.f.Valid() && r.f.cfg == f.cfg
  {
    var o := if d.v.accept then Commit(f.conns, f.expects, p, cls, now)
             else Outcome(f.conns, f.expects, 0, false);
    var v := d.v.(ctState := o.ctState);
    Result(Fw(f.cfg, Count(f.counters, v, p, cls, o.started, d.wantLog), o.conns, o.expects),
           v.(log := d.wantLog && LogNow(f.counters.logSeq)))
  }

  function Filter(f: Fw, p: Pkt, now: u32): (r: Result)
    requires f.Valid()
    ensures r.f.Valid() && r.f.cfg == f.cfg
  {
    if f.cfg.disabled then Result(f, PASSED)
    else Settle(f, p, ClassOf(f, p, now), Decide(f, p, now), now)
  }
}
