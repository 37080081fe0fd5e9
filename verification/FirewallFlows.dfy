/** The scanned connection table against a plain finite map of flows: a firewall that looks
    tuples up in a map, has no slots and forgets flows as they expire gives the same verdict on
    a packet, and goes on holding the same flows. */
module FirewallFlows {
  import opened Words
  import opened FirewallTypes
  import opened FirewallSpec
  import opened FirewallRuns
  import opened FirewallDryRun

  // ---- the reference firewall ----

  /** `flows` maps the tuple of the packet that started a flow to the flow; `at` is the
      time of the last packet that was filtered. */
  datatype MapFw = MapFw(cfg: Config, counters: Counters, flows: map<Key, Conn>, expects: seq<Expect>, at: u32)

  function Alive(flows: map<Key, Conn>, now: u32): map<Key, Conn> {
    map k | k in flows && Live(flows[k], now) :: flows[k]
  }

  /** The flow a tuple belongs to, from either end. */
  function Lookup(flows: map<Key, Conn>, k: Key): Option<Key> {
    if k in flows then Some(k) else if k.Swap() in flows then Some(k.Swap()) else None
  }

  ghost predicate Keyed(flows: map<Key, Conn>) {
    forall k :: k in flows ==> flows[k].Tuple() == k
  }

  function MapClassify(flows: map<Key, Conn>, expects: seq<Expect>, p: Pkt, now: u32): (cls: Cls<Key>)
    requires Keyed(flows)
    ensures cls.Existing? || cls.Related? || cls.Replace? ==> cls.idx in flows
    ensures cls.RelatedNew? ==> cls.ex < |expects|
  {
    var k := KeyOf(p);
    if p.proto == PROTO_TCP then
      if p.sport == 0 || p.dport == 0 then Invalid(INV_PORT0)
      else match TcpClass(p.flags)
           case None => Invalid(INV_FLAGS)
           case Some(fc) =>
             match Lookup(flows, k)
             case Some(j) => ClassifyTcp(flows[j], j, k, fc)
             case None => if fc == Syn then New else Invalid(INV_NO_CONN)
    else if p.proto == PROTO_UDP then
      if p.dport == 0 then Invalid(INV_PORT0)
      else match Lookup(flows, k)
           case Some(j) => Existing(j, if j == k then 0 else 1, UDP_REPLIED, 0)
           case None => match FindExpect(expects, p, now)
                        case Some(ex) => RelatedNew(ex)
                        case None => New
    else if p.proto == PROTO_ICMP then
      if p.icmpCode != 0 && (p.icmpType == 0 || p.icmpType == 8) then Invalid(INV_ICMP)
      else if p.icmpType == 8 then
        if k in flows then Existing(k, 0, ICMP_ECHO, 0) else New
      else if p.icmpType == 0 then
        if k.Swap() in flows && k.Swap() != k && flows[k.Swap()].pending > 0
        then Existing(k.Swap(), 1, ICMP_ECHO, 0) else Invalid(INV_NO_CONN)
      else if IsIcmpError(p.icmpType) then
        if p.inner.Some? && Lookup(flows, p.inner.value).Some?
        then Related(Lookup(flows, p.inner.value).value) else Invalid(INV_RELATED)
      else Invalid(INV_ICMP)
    else Invalid(INV_NONE)
  }

  function MapStateOf(flows: map<Key, Conn>, cls: Cls<Key>): u8
    requires cls.Existing? ==> cls.idx in flows
  {
    match cls
    case Invalid(_) => ST_INVALID
    case New => ST_NEW
    case Replace(_) => ST_NEW
    case Related(_) => ST_RELATED
    case RelatedNew(_) => ST_RELATED
    case Existing(k, side, _, _) => if side == 1 || flows[k].replied then ST_ESTABLISHED else ST_NEW
  }

  function HalfOpenKeys(flows: map<Key, Conn>, now: u32): set<Key> {
    set k | k in flows && HalfOpen(flows[k], now)
  }

  function HalfOpenFlows(flows: map<Key, Conn>, now: u32): nat {
    |HalfOpenKeys(flows, now)|
  }

  function MapClassOf(flows: map<Key, Conn>, expects: seq<Expect>, p: Pkt, now: u32): (cls: Cls<Key>)
    requires Keyed(flows)
    ensures cls.Existing? || cls.Related? || cls.Replace? ==> cls.idx in flows
    ensures cls.RelatedNew? ==> cls.ex < |expects|
  {
    if p.bad != BAD_NONE then Invalid(INV_NONE) else MapClassify(flows, expects, p, now)
  }

  function MapDecide(cfg: Config, flows: map<Key, Conn>, p: Pkt, cls: Cls<Key>, now: u32): (d: Decision)
    requires cfg.nrules <= |cfg.rules| && (cls.Existing? ==> cls.idx in flows)
    ensures -1 <= d.v.rule < cfg.nrules
  {
    if p.bad != BAD_NONE then Decision(DROPPED.(reason := BadReason(p.bad)), true)
    else DecideAs(cfg, p, cls, MapStateOf(flows, cls), |flows| < MAX_CONNS, HalfOpenFlows(flows, now))
  }

  datatype MapOutcome = MapOutcome(flows: map<Key, Conn>, expects: seq<Expect>, ctState: u8, started: bool)

  /** No slots: a new flow is simply added. */
  function MapCommit(flows: map<Key, Conn>, expects: seq<Expect>, p: Pkt, cls: Cls<Key>, now: u32): MapOutcome
    requires cls.Existing? || cls.Related? || cls.Replace? ==> cls.idx in flows
    requires cls.RelatedNew? ==> cls.ex < |expects|
    requires |expects| > 0
  {
    match cls
    case Invalid(_) => MapOutcome(flows, expects, 0, false)
    case Existing(k, side, next, ff) =>
      var c := Touch(flows[k], p, side, next, ff, now);
      MapOutcome(flows[k := c], expects, c.state, false)
    case Related(k) => MapOutcome(flows, expects, flows[k].state, false)
    case RelatedNew(ex) =>
      MapOutcome(flows[KeyOf(p) := Started(p, now, true)], expects[ex := expects[ex].(used := false)], UDP_REPLIED, true)
    case New =>
      MapOutcome(flows[KeyOf(p) := Started(p, now, false)],
                 if TftpRequest(p) then AddExpect(expects, p.dst, p.src, p.sport, now) else expects,
                 FirstState(p.proto), true)
    case Replace(k) =>
      MapOutcome((flows - {k})[KeyOf(p) := Started(p, now, false)], expects, FirstState(p.proto), true)
  }

  datatype MapResult = MapResult(m: MapFw, v: Verdict)

  ghost predicate MapValid(m: MapFw) {
    && |m.cfg.rules| == MAX_RULES && m.cfg.nrules <= MAX_RULES
    && |m.counters.hits| == MAX_RULES && |m.counters.hitBytes| == MAX_RULES
    && |m.expects| == MAX_EXPECT && Keyed(m.flows)
  }

  function MapSettle(m: MapFw, flows: map<Key, Conn>, p: Pkt, cls: Cls<Key>, d: Decision, now: u32): MapResult
    requires MapValid(m) && -1 <= d.v.rule < MAX_RULES
    requires cls.Existing? || cls.Related? || cls.Replace? ==> cls.idx in flows
    requires cls.RelatedNew? ==> cls.ex < |m.expects|
  {
    var o := if d.v.accept then MapCommit(flows, m.expects, p, cls, now)
             else MapOutcome(flows, m.expects, 0, false);
    var v := d.v.(ctState := o.ctState);
    MapResult(MapFw(m.cfg, Count(m.counters, v, p, cls, o.started, d.wantLog), o.flows, o.expects, now),
              v.(log := d.wantLog && LogNow(m.counters.logSeq)))
  }

  function MapFilter(m: MapFw, p: Pkt, now: u32): MapResult
    requires MapValid(m)
  {
    if m.cfg.disabled then MapResult(m, PASSED)
    else
      var flows := Alive(m.flows, now);
      var cls := MapClassOf(flows, m.expects, p, now);
      MapSettle(m, flows, p, cls, MapDecide(m.cfg, flows, p, cls, now), now)
  }

  // ---- the table holds a map ----

  /** One tuple could belong to both flows: in either orientation for TCP and UDP, in the
      same orientation for ICMP echo, where each direction is a flow of its own. */
  predicate Clash(c: Conn, d: Conn) {
    c.Tuple() == d.Tuple() || (c.proto != PROTO_ICMP && c.Tuple().Swap() == d.Tuple())
  }

  ghost predicate Unique(conns: seq<Conn>, now: u32) {
    forall i, j :: 0 <= i < j < |conns| && Live(conns[i], now) && Live(conns[j], now) ==> !Clash(conns[i], conns[j])
  }

  /** The live flows of a table, by tuple. */
  function Flows(conns: seq<Conn>, now: u32): (m: map<Key, Conn>)
    ensures forall k :: k in m ==> m[k].Tuple() == k && Live(m[k], now)
  {
    if conns == [] then map[]
    else
      var c, m := conns[|conns| - 1], Flows(conns[..|conns| - 1], now);
      if Live(c, now) then m[c.Tuple() := c] else m
  }

  ghost function Abs(f: Fw, at: u32): MapFw {
    MapFw(f.cfg, f.counters, Flows(f.conns, at), f.expects, at)
  }

  lemma {:induction false} SlotFor(conns: seq<Conn>, now: u32, k: Key) returns (i: nat)
    requires k in Flows(conns, now)
    ensures i < |conns| && Live(conns[i], now) && conns[i] == Flows(conns, now)[k] && conns[i].Tuple() == k
  {
    var n := |conns| - 1;
    if Live(conns[n], now) && conns[n].Tuple() == k {
      i := n;
    } else {
      i := SlotFor(conns[..n], now, k);
    }
  }

  lemma UniquePrefix(conns: seq<Conn>, n: nat, now: u32)
    requires n <= |conns| && Unique(conns, now)
    ensures Unique(conns[..n], now)
  {
  }

  lemma {:induction false} FlowAt(conns: seq<Conn>, now: u32, i: nat)
    requires i < |conns| && Unique(conns, now) && Live(conns[i], now)
    ensures conns[i].Tuple() in Flows(conns, now) && Flows(conns, now)[conns[i].Tuple()] == conns[i]
  {
    var n := |conns| - 1;
    if i < n {
      UniquePrefix(conns, n, now);
      FlowAt(conns[..n], now, i);
      assert Live(conns[n], now) ==> !Clash(conns[i], conns[n]);
    }
  }

  /** Putting a live flow `c` in slot `i` removes what was live there and adds `c`. */
  lemma FlowsUpdate(conns: seq<Conn>, i: nat, c: Conn, now: u32)
    requires i < |conns| && Unique(conns, now) && Live(c, now) && Unique(conns[i := c], now)
    ensures Flows(conns[i := c], now)
            == (if Live(conns[i], now) then Flows(conns, now) - {conns[i].Tuple()} else Flows(conns, now))[c.Tuple() := c]
  {
    var next := conns[i := c];
    var a := Flows(next, now);
    var b := (if Live(conns[i], now) then Flows(conns, now) - {conns[i].Tuple()} else Flows(conns, now))[c.Tuple() := c];
    forall k | k in a ensures k in b && b[k] == a[k] {
      var j := SlotFor(next, now, k);
      if j != i {
        FlowAt(conns, now, j);
        DistinctSlots(next, now, i, j);
        if Live(conns[i], now) {
          DistinctSlots(conns, now, i, j);
        }
      }
    }
    forall k | k in b ensures k in a {
      if k == c.Tuple() {
        FlowAt(next, now, i);
      } else {
        var j := SlotFor(conns, now, k);
        FlowAt(next, now, j);
      }
    }
  }

  lemma DistinctSlots(conns: seq<Conn>, now: u32, i: nat, j: nat)
    requires Unique(conns, now) && i < |conns| && j < |conns| && i != j
    requires Live(conns[i], now) && Live(conns[j], now)
    ensures !Clash(conns[i], conns[j])
  {
    if j < i {
      assert !Clash(conns[j], conns[i]);
      assert conns[j].Tuple().Swap().Swap() == conns[j].Tuple();
    }
  }

  lemma UniqueUpdate(conns: seq<Conn>, i: nat, c: Conn, now: u32)
    requires i < |conns| && Unique(conns, now)
    requires forall j :: 0 <= j < |conns| && j != i && Live(conns[j], now) ==> !Clash(conns[j], c)
    ensures Unique(conns[i := c], now)
  {
    assert forall j :: 0 <= j < |conns| && j != i && Live(conns[j], now) ==> !Clash(c, conns[j]) by {
      forall j | 0 <= j < |conns| && j != i && Live(conns[j], now) ensures !Clash(c, conns[j]) {
        assert c.Tuple().Swap().Swap() == c.Tuple();
        assert conns[j].Tuple().Swap().Swap() == conns[j].Tuple();
      }
    }
  }

  // ---- counting ----

  lemma LastTupleIsNew(conns: seq<Conn>, now: u32)
    requires conns != [] && Unique(conns, now) && Live(conns[|conns| - 1], now)
    ensures conns[|conns| - 1].Tuple() !in Flows(conns[..|conns| - 1], now)
  {
    var n := |conns| - 1;
    if conns[n].Tuple() in Flows(conns[..n], now) {
      var i := SlotFor(conns[..n], now, conns[n].Tuple());
      assert false;
    }
  }

  lemma {:induction false} LiveCount(conns: seq<Conn>, now: u32)
    requires Unique(conns, now)
    ensures |Flows(conns, now)| == CountFlows(conns, now, false)
  {
    if conns != [] {
      var n := |conns| - 1;
      UniquePrefix(conns, n, now);
      LiveCount(conns[..n], now);
      if Live(conns[n], now) {
        LastTupleIsNew(conns, now);
      }
    }
  }

  lemma HalfOpenAdded(flows: map<Key, Conn>, k: Key, c: Conn, now: u32)
    requires k !in flows
    ensures HalfOpenFlows(flows[k := c], now) == HalfOpenFlows(flows, now) + if HalfOpen(c, now) then 1 else 0
  {
    var half := HalfOpenKeys(flows, now);
    assert HalfOpenKeys(flows[k := c], now) == if HalfOpen(c, now) then half + {k} else half;
  }

  lemma {:induction false} HalfOpenCount(conns: seq<Conn>, now: u32)
    requires Unique(conns, now)
    ensures HalfOpenFlows(Flows(conns, now), now) == CountFlows(conns, now, true)
  {
    if conns == [] {
      assert HalfOpenKeys(Flows(conns, now), now) == {};
    } else {
      var n := |conns| - 1;
      UniquePrefix(conns, n, now);
      HalfOpenCount(conns[..n], now);
      if Live(conns[n], now) {
        LastTupleIsNew(conns, now);
        HalfOpenAdded(Flows(conns[..n], now), conns[n].Tuple(), conns[n], now);
      }
    }
  }

  lemma {:induction false} CountFull(conns: seq<Conn>, now: u32)
    ensures CountFlows(conns, now, false) <= |conns|
    ensures CountFlows(conns, now, false) == |conns| <==> forall i :: 0 <= i < |conns| ==> Live(conns[i], now)
  {
    if conns != [] {
      var n := |conns| - 1;
      CountFull(conns[..n], now);
      assert forall i :: 0 <= i < n ==> conns[..n][i] == conns[i];
    }
  }

  /** There is a free slot exactly when the map holds fewer flows than the table has slots,
      and the half-open count is that of the map. */
  lemma CountsAgree(conns: seq<Conn>, now: u32)
    requires Unique(conns, now)
    ensures FreeFrom(conns, now, 0).Some? <==> |Flows(conns, now)| < |conns|
    ensures HalfOpenFlows(Flows(conns, now), now) == CountFlows(conns, now, true)
  {
    LiveCount(conns, now);
    HalfOpenCount(conns, now);
    CountFull(conns, now);
  }

  // ---- one packet ----

  /** A table class and the map class it stands for. */
  ghost function ByTuple(cls: Cls<nat>, conns: seq<Conn>): Cls<Key>
    requires cls.Existing? || cls.Related? || cls.Replace? ==> cls.idx < |conns|
  {
    match cls
    case Invalid(d) => Invalid(d)
    case Existing(i, side, next, ff) => Existing(conns[i].Tuple(), side, next, ff)
    case Related(i) => Related(conns[i].Tuple())
    case RelatedNew(ex) => RelatedNew(ex)
    case New => New
    case Replace(i) => Replace(conns[i].Tuple())
  }

  /** Scanning finds a flow exactly when looking up does, and, but for ICMP, the same one. */
  lemma FindIsLookup(conns: seq<Conn>, k: Key, now: u32)
    requires Unique(conns, now)
    ensures var r, m := FindFrom(conns, k, now, None, 0), Flows(conns, now);
            && (r.Some? <==> Lookup(m, k).Some?)
            && (r.Some? ==> conns[r.value].used && SideOf(conns[r.value], k).Some?)
            && (r.Some? && k.proto != PROTO_ICMP ==>
                  Lookup(m, k) == Some(conns[r.value].Tuple()) && m[conns[r.value].Tuple()] == conns[r.value])
  {
    var m := Flows(conns, now);
    var r := FindFrom(conns, k, now, None, 0);
    assert k.Swap().Swap() == k;
    if r.Some? {
      FlowAt(conns, now, r.value);
      if conns[r.value].Tuple() != k && k in m && k.proto != PROTO_ICMP {
        var j := SlotFor(conns, now, k);
        DistinctSlots(conns, now, j, r.value);
      }
    }
    if Lookup(m, k).Some? {
      var j := SlotFor(conns, now, Lookup(m, k).value);
      assert Hit(conns[j], k, now, None);
    }
  }

  /** The flow an ICMP error quotes a tuple of. */
  lemma FindQuoted(conns: seq<Conn>, k: Key, now: u32)
    requires Unique(conns, now)
    ensures var r, m := FindFrom(conns, k, now, None, 0), Flows(conns, now);
            && (r.Some? <==> Lookup(m, k).Some?)
            && (r.Some? ==> SameFlow(conns[r.value], Lookup(m, k).value, m))
  {
    var m := Flows(conns, now);
    var r := FindFrom(conns, k, now, None, 0);
    FindIsLookup(conns, k, now);
    if r.Some? {
      var j := SlotFor(conns, now, Lookup(m, k).value);
      FlowAt(conns, now, r.value);
      assert k.Swap().Swap() == k;
    }
  }

  /** Key `x` names the flow `c` or, for an echo, the flow the other way, where there are both. */
  predicate SameFlow(c: Conn, x: Key, flows: map<Key, Conn>) {
    && c.used && x in flows && flows[x].used
    && (x == c.Tuple() || (x.proto == PROTO_ICMP && x == c.Tuple().Swap() && x.Swap() in flows))
    && (x == c.Tuple() ==> flows[x] == c)
  }

  lemma FindOwnSide(conns: seq<Conn>, k: Key, now: u32)
    requires Unique(conns, now)
    ensures var r, m := FindFrom(conns, k, now, Some(0), 0), Flows(conns, now);
            && (r.Some? <==> k in m)
            && (r.Some? ==> conns[r.value].Tuple() == k && m[k] == conns[r.value])
  {
    var m := Flows(conns, now);
    var r := FindFrom(conns, k, now, Some(0), 0);
    if r.Some? {
      FlowAt(conns, now, r.value);
    }
    if k in m {
      var j := SlotFor(conns, now, k);
      assert Hit(conns[j], k, now, Some(0));
    }
  }

  lemma FindOtherSide(conns: seq<Conn>, k: Key, now: u32)
    requires Unique(conns, now)
    ensures var r, m := FindFrom(conns, k, now, Some(1), 0), Flows(conns, now);
            && (r.Some? <==> k.Swap() in m && k.Swap() != k)
            && (r.Some? ==> conns[r.value].Tuple() == k.Swap() && m[k.Swap()] == conns[r.value])
  {
    var m := Flows(conns, now);
    var r := FindFrom(conns, k, now, Some(1), 0);
    assert k.Swap().Swap() == k;
    if r.Some? {
      FlowAt(conns, now, r.value);
    }
    if k.Swap() in m && k.Swap() != k {
      var j := SlotFor(conns, now, k.Swap());
      assert Hit(conns[j], k, now, Some(1));
    }
  }

  /** The same class; only, where there are echo flows both ways between two hosts under one
      identifier, an ICMP error about an echo may be put down to the one or the other. */
  ghost predicate SameClass(cls: Cls<nat>, mcls: Cls<Key>, conns: seq<Conn>, flows: map<Key, Conn>)
    requires cls.Existing? || cls.Related? || cls.Replace? ==> cls.idx < |conns|
    requires mcls.Related? ==> mcls.idx in flows
  {
    if cls.Related? then
      mcls.Related? && SameFlow(conns[cls.idx], mcls.idx, flows)
    else
      && mcls == ByTuple(cls, conns)
      && (cls.Existing? || cls.Replace? ==> conns[cls.idx].Tuple() in flows && flows[conns[cls.idx].Tuple()] == conns[cls.idx])
  }

  lemma ClassesAgreeTcp(conns: seq<Conn>, expects: seq<Expect>, p: Pkt, now: u32)
    requires Unique(conns, now) && p.proto == PROTO_TCP
    requires InTable(Classify(conns, expects, p, now), conns, expects)
    ensures SameClass(Classify(conns, expects, p, now), MapClassify(Flows(conns, now), expects, p, now),
                      conns, Flows(conns, now))
  {
    FindIsLookup(conns, KeyOf(p), now);
  }

  lemma ClassesAgreeOther(conns: seq<Conn>, expects: seq<Expect>, p: Pkt, now: u32)
    requires Unique(conns, now) && p.proto != PROTO_ICMP && p.proto != PROTO_TCP
    requires InTable(Classify(conns, expects, p, now), conns, expects)
    ensures SameClass(Classify(conns, expects, p, now), MapClassify(Flows(conns, now), expects, p, now),
                      conns, Flows(conns, now))
  {
    FindIsLookup(conns, KeyOf(p), now);
  }

  lemma ClassesAgreeIcmp(conns: seq<Conn>, expects: seq<Expect>, p: Pkt, now: u32)
    requires Unique(conns, now) && p.proto == PROTO_ICMP
    requires InTable(Classify(conns, expects, p, now), conns, expects)
    ensures SameClass(Classify(conns, expects, p, now), MapClassify(Flows(conns, now), expects, p, now),
                      conns, Flows(conns, now))
  {
    var k := KeyOf(p);
    FindOwnSide(conns, k, now);
    FindOtherSide(conns, k, now);
    if p.inner.Some? {
      FindQuoted(conns, p.inner.value, now);
    }
  }

  lemma ClassesAgree(f: Fw, p: Pkt, now: u32)
    requires f.Valid() && Unique(f.conns, now)
    ensures SameClass(ClassOf(f, p, now), MapClassOf(Flows(f.conns, now), f.expects, p, now),
                      f.conns, Flows(f.conns, now))
  {
    if p.bad == BAD_NONE {
      if p.proto == PROTO_ICMP {
        ClassesAgreeIcmp(f.conns, f.expects, p, now);
      } else if p.proto == PROTO_TCP {
        ClassesAgreeTcp(f.conns, f.expects, p, now);
      } else {
        ClassesAgreeOther(f.conns, f.expects, p, now);
      }
    }
  }

  lemma DecideIgnoresNames(cfg: Config, p: Pkt, cls: Cls<nat>, mcls: Cls<Key>, state: u8, room: bool, halfOpen: nat)
    requires cfg.nrules <= |cfg.rules|
    requires cls.New? == mcls.New? && cls.RelatedNew? == mcls.RelatedNew?
    requires if cls.Invalid? then mcls.Invalid? && mcls.detail == cls.detail else !mcls.Invalid?
    ensures DecideAs(cfg, p, cls, state, room, halfOpen) == DecideAs(cfg, p, mcls, state, room, halfOpen)
  {
  }

  lemma DecisionsAgree(f: Fw, p: Pkt, now: u32)
    requires f.Valid() && Unique(f.conns, now)
    ensures var m := Flows(f.conns, now);
            Decide(f, p, now) == MapDecide(f.cfg, m, p, MapClassOf(m, f.expects, p, now), now)
  {
    ClassesAgree(f, p, now);
    CountsAgree(f.conns, now);
    var cls, m := ClassOf(f, p, now), Flows(f.conns, now);
    DecideIgnoresNames(f.cfg, p, cls, MapClassOf(m, f.expects, p, now), StateOf(f.conns, cls),
                       |m| < MAX_CONNS, HalfOpenFlows(m, now));
  }

  lemma RefreshedIsLive(c: Conn, now: u32)
    requires c.used && c.expires == WrapAdd(now, ConnTimeout(c.proto, c.state, c.replied))
    ensures Live(c, now)
  {
  }

  /** A packet classed as starting a flow clashes with no live flow. */
  lemma FreshTuple(f: Fw, p: Pkt, now: u32, related: bool)
    requires f.Valid() && (ClassOf(f, p, now).New? || ClassOf(f, p, now).RelatedNew?)
    ensures forall j :: 0 <= j < |f.conns| && Live(f.conns[j], now) ==> !Clash(f.conns[j], Started(p, now, related))
  {
    var want := if p.proto == PROTO_ICMP then Some(0) else None;
    assert FindFrom(f.conns, KeyOf(p), now, want, 0).None?;
    forall j | 0 <= j < |f.conns| && Live(f.conns[j], now) ensures !Clash(f.conns[j], Started(p, now, related)) {
      assert !Hit(f.conns[j], KeyOf(p), now, want);
    }
  }

  /** Replacing a finished TCP flow by a SYN on its own tuple clashes with no other. */
  lemma ReplacedTuple(conns: seq<Conn>, i: nat, c: Conn, now: u32)
    requires i < |conns| && Unique(conns, now) && Live(conns[i], now)
    requires c.Tuple() == conns[i].Tuple() || (c.proto != PROTO_ICMP && c.Tuple() == conns[i].Tuple().Swap())
    ensures forall j :: 0 <= j < |conns| && j != i && Live(conns[j], now) ==> !Clash(conns[j], c)
  {
    forall j | 0 <= j < |conns| && j != i && Live(conns[j], now) ensures !Clash(conns[j], c) {
      DistinctSlots(conns, now, j, i);
      assert conns[i].Tuple().Swap().Swap() == conns[i].Tuple();
      assert conns[j].Tuple().Swap().Swap() == conns[j].Tuple();
    }
  }

  ghost predicate SameOutcome(o: Outcome, m: MapOutcome, now: u32) {
    && Unique(o.conns, now) && m.flows == Flows(o.conns, now)
    && m.expects == o.expects && m.ctState == o.ctState && m.started == o.started
  }

  lemma StartAgrees(f: Fw, p: Pkt, now: u32, i: nat, related: bool)
    requires f.Valid() && Unique(f.conns, now) && (ClassOf(f, p, now).New? || ClassOf(f, p, now).RelatedNew?)
    requires i < |f.conns| && !Live(f.conns[i], now)
    ensures var c := Started(p, now, related);
            Unique(f.conns[i := c], now) && Flows(f.conns[i := c], now) == Flows(f.conns, now)[KeyOf(p) := c]
  {
    var c := Started(p, now, related);
    RefreshedIsLive(c, now);
    FreshTuple(f, p, now, related);
    UniqueUpdate(f.conns, i, c, now);
    FlowsUpdate(f.conns, i, c, now);
  }

  lemma TouchAgrees(conns: seq<Conn>, i: nat, p: Pkt, side: u8, next: u8, ff: u8, now: u32)
    requires i < |conns| && Unique(conns, now) && Live(conns[i], now)
    ensures var c := Touch(conns[i], p, side, next, ff, now);
            && Unique(conns[i := c], now)
            && Flows(conns[i := c], now) == Flows(conns, now)[conns[i].Tuple() := c]
  {
    var c := Touch(conns[i], p, side, next, ff, now);
    RefreshedIsLive(c, now);
    ReplacedTuple(conns, i, c, now);
    UniqueUpdate(conns, i, c, now);
    FlowsUpdate(conns, i, c, now);
    assert (Flows(conns, now) - {c.Tuple()})[c.Tuple() := c] == Flows(conns, now)[c.Tuple() := c];
  }

  lemma ReplaceAgrees(conns: seq<Conn>, i: nat, p: Pkt, now: u32)
    requires i < |conns| && Unique(conns, now) && Live(conns[i], now) && p.proto == PROTO_TCP
    requires SideOf(conns[i], KeyOf(p)).Some?
    ensures var c := Started(p, now, false);
            && Unique(conns[i := c], now)
            && Flows(conns[i := c], now) == (Flows(conns, now) - {conns[i].Tuple()})[KeyOf(p) := c]
  {
    var c := Started(p, now, false);
    RefreshedIsLive(c, now);
    assert conns[i].Tuple().Swap().Swap() == conns[i].Tuple();
    ReplacedTuple(conns, i, c, now);
    UniqueUpdate(conns, i, c, now);
    FlowsUpdate(conns, i, c, now);
  }

  /** Where the flow an accepted packet belongs to sits. */
  lemma MatchedSlot(f: Fw, p: Pkt, now: u32)
    requires f.Valid()
    ensures var cls := ClassOf(f, p, now);
            && (cls.Existing? || cls.Replace? ==> Live(f.conns[cls.idx], now) && SideOf(f.conns[cls.idx], KeyOf(p)).Some?)
            && (cls.Replace? ==>
                  && p.proto == PROTO_TCP && TcpClass(p.flags) == Some(Syn)
                  && (f.conns[cls.idx].state == TCP_TIME_WAIT || f.conns[cls.idx].state == TCP_CLOSE))
  {
  }

  lemma CommitsAgree(f: Fw, p: Pkt, now: u32)
    requires f.Valid() && Unique(f.conns, now) && AllSound(f.conns) && Decide(f, p, now).v.accept
    ensures var m := Flows(f.conns, now);
            SameOutcome(Commit(f.conns, f.expects, p, ClassOf(f, p, now), now),
                        MapCommit(m, f.expects, p, MapClassOf(m, f.expects, p, now), now), now)
  {
    var cls, m := ClassOf(f, p, now), Flows(f.conns, now);
    AdmittedHasRoom(f, p, now);
    ClassesAgree(f, p, now);
    MatchedSlot(f, p, now);
    match cls
    case Existing(idx, side, next, ff) => TouchAgrees(f.conns, idx, p, side, next, ff, now);
    case Related(idx) =>
      var k := MapClassOf(m, f.expects, p, now).idx;
      var j := SlotFor(f.conns, now, k);
      assert StateSound(f.conns[j]) && StateSound(f.conns[idx]);
    case RelatedNew(_) => StartAgrees(f, p, now, FreeFrom(f.conns, now, 0).value, true);
    case New => StartAgrees(f, p, now, FreeFrom(f.conns, now, 0).value, false);
    case Replace(idx) => ReplaceAgrees(f.conns, idx, p, now);
  }

  lemma CountIgnoresNames(c: Counters, v: Verdict, p: Pkt, cls: Cls<nat>, mcls: Cls<Key>, started: bool, wantLog: bool)
    requires -1 <= v.rule < |c.hits| && |c.hits| == |c.hitBytes|
    requires cls.Related? == mcls.Related? && cls.RelatedNew? == mcls.RelatedNew?
    ensures Count(c, v, p, cls, started, wantLog) == Count(c, v, p, mcls, started, wantLog)
  {
  }

  lemma SettlesAgree(f: Fw, p: Pkt, cls: Cls<nat>, mcls: Cls<Key>, d: Decision, now: u32)
    requires f.Valid() && InTable(cls, f.conns, f.expects) && -1 <= d.v.rule < MAX_RULES
    requires mcls.Existing? || mcls.Related? || mcls.Replace? ==> mcls.idx in Flows(f.conns, now)
    requires mcls.RelatedNew? ==> mcls.ex < |f.expects|
    requires cls.Related? == mcls.Related? && cls.RelatedNew? == mcls.RelatedNew?
    requires d.v.accept ==> SameOutcome(Commit(f.conns, f.expects, p, cls, now),
                                        MapCommit(Flows(f.conns, now), f.expects, p, mcls, now), now)
    ensures MapSettle(Abs(f, now), Flows(f.conns, now), p, mcls, d, now)
            == MapResult(Abs(Settle(f, p, cls, d, now).f, now), Settle(f, p, cls, d, now).v)
  {
    var o := if d.v.accept then Commit(f.conns, f.expects, p, cls, now) else Outcome(f.conns, f.expects, 0, false);
    CountIgnoresNames(f.counters, d.v.(ctState := o.ctState), p, cls, mcls, o.started, d.wantLog);
  }

  /** One packet: the table and the map give the same verdict, count the same, and leave
      the table holding the map; no two live flows clash afterwards either. */
  lemma FilterRefinesMap(f: Fw, p: Pkt, now: u32)
    requires f.Valid() && Unique(f.conns, now) && AllSound(f.conns) && !f.cfg.disabled
    ensures Unique(Filter(f, p, now).f.conns, now)
    ensures MapFilter(Abs(f, now), p, now) == MapResult(Abs(Filter(f, p, now).f, now), Filter(f, p, now).v)
  {
    var m := Flows(f.conns, now);
    assert Alive(m, now) == m;
    ClassesAgree(f, p, now);
    DecisionsAgree(f, p, now);
    if Decide(f, p, now).v.accept {
      CommitsAgree(f, p, now);
    }
    SettlesAgree(f, p, ClassOf(f, p, now), MapClassOf(m, f.expects, p, now), Decide(f, p, now), now);
  }
}
