/** Whole runs of the table against whole runs of the map, on an unbounded clock of which the
    firewall sees the low 32 bits. */
module FirewallClock {
  import opened Words
  import opened FirewallTypes
  import opened FirewallSpec
  import opened FirewallRuns
  import opened FirewallDryRun
  import opened FirewallFlows

  // ---- deadlines on the real clock ----

  /** A deadline that has passed looks passed on the wrapping counter: the half turns since then
      are even in number. In particular for the first half turn, 248 days of 100 Hz ticks. */
  predicate Legible(due: nat, now: nat) {
    now < due || (now - due) / TWO31 % 2 == 0
  }

  lemma WrapDifference(due: nat, now: nat)
    ensures WrapSub(Wrap32(now), Wrap32(due)) == (now - due) % TWO32
  {
    var d, n := Wrap32(due), Wrap32(now);
    assert (now - due) - WrapSub(n, d) == TWO32 * (now / TWO32 - due / TWO32 - if n >= d then 0 else 1);
  }

  lemma HalfTurns(x: nat)
    ensures x % TWO32 < TWO31 <==> x / TWO31 % 2 == 0
  {
    assert x == TWO32 * (x / TWO32) + x % TWO32;
  }

  /** The signed reading of the wrapped difference tells past from future exactly where the
      deadline is legible. */
  lemma ExpiryExactly(due: nat, now: nat)
    requires due <= now + TWO31
    ensures (Expired(Wrap32(due), Wrap32(now)) <==> due <= now) <==> Legible(due, now)
    ensures due > now ==> !Expired(Wrap32(due), Wrap32(now))
  {
    WrapDifference(due, now);
    if now >= due {
      HalfTurns(now - due);
    }
  }

  lemma FreshIsLegible(due: nat, now: nat)
    requires now < due + TWO31
    ensures Legible(due, now)
  {
  }

  /** The slot an accepted packet refreshes or takes. */
  function Written(f: Fw, p: Pkt, now: u32): (r: Option<nat>)
    requires f.Valid()
    ensures r.Some? ==> r.value < MAX_CONNS
  {
    if f.cfg.disabled || !Decide(f, p, now).v.accept then None
    else match ClassOf(f, p, now)
         case Existing(idx, _, _, _) => Some(idx)
         case Replace(idx) => Some(idx)
         case New => FreeFrom(f.conns, now, 0)
         case RelatedNew(_) => FreeFrom(f.conns, now, 0)
         case _ => None
  }

  /** When each slot runs out, on the real clock. */
  type Deadlines = seq<nat>

  function DueAfter(f: Fw, due: Deadlines, p: Pkt, now: nat): (r: Deadlines)
    requires f.Valid() && |due| == MAX_CONNS
    ensures |r| == MAX_CONNS
  {
    match Written(f, p, Wrap32(now))
    case None => due
    case Some(i) =>
      var c := Filter(f, p, Wrap32(now)).f.conns[i];
      due[i := now + ConnTimeout(c.proto, c.state, c.replied)]
  }

  /** The deadlines after a run whose events come at the times `ts`. */
  function Due(es: seq<Event>, ts: seq<nat>): (r: Deadlines)
    requires |ts| == |es|
    ensures |r| == MAX_CONNS
  {
    if es == [] then Repeat(0, MAX_CONNS)
    else
      var n := |es| - 1;
      var due := Due(es[..n], ts[..n]);
      if es[n].Packet? && es[n].commit then DueAfter(Run(es[..n]), due, es[n].p, ts[n]) else due
  }

  /** The table's deadlines are the low bits of `due`, none further ahead of `now` than the
      longest timeout. */
  ghost predicate Timely(conns: seq<Conn>, due: Deadlines, now: nat) {
    && |due| == |conns|
    && forall i :: 0 <= i < |conns| && conns[i].used ==>
         conns[i].expires == Wrap32(due[i]) && due[i] <= now + T_ESTABLISHED
  }

  /** Every slot that has run out looks so. */
  ghost predicate AllLegible(conns: seq<Conn>, due: Deadlines, now: nat) {
    |due| == |conns| && forall i :: 0 <= i < |conns| && conns[i].used ==> Legible(due[i], now)
  }

  /** The table reads as it should: a slot is live exactly until it runs out. */
  ghost predicate ReadsTrue(conns: seq<Conn>, due: Deadlines, now: nat) {
    |due| == |conns| && forall i :: 0 <= i < |conns| && conns[i].used ==> (Live(conns[i], Wrap32(now)) <==> now < due[i])
  }

  lemma TrueIffLegible(conns: seq<Conn>, due: Deadlines, since: nat, now: nat)
    requires Timely(conns, due, since) && since <= now
    ensures ReadsTrue(conns, due, now) <==> AllLegible(conns, due, now)
  {
    forall i | 0 <= i < |conns| && conns[i].used
      ensures (Live(conns[i], Wrap32(now)) <==> now < due[i]) <==> Legible(due[i], now)
    {
      ExpiryExactly(due[i], now);
    }
  }

  lemma WrapLater(now: nat, t: u32)
    requires t <= T_ESTABLISHED
    ensures WrapAdd(Wrap32(now), t) == Wrap32(now + t)
  {
    assert now + t == TWO32 * (now / TWO32) + (Wrap32(now) + t);
  }

  /** Slot `i` was refreshed at `now`. */
  predicate Refreshed(c: Conn, now: u32) {
    c.used && c.expires == WrapAdd(now, ConnTimeout(c.proto, c.state, c.replied))
  }

  lemma TouchRefreshes(c: Conn, p: Pkt, side: u8, next: u8, ff: u8, now: u32)
    requires c.used
    ensures Refreshed(Touch(c, p, side, next, ff, now), now)
  {
  }

  lemma StartRefreshes(p: Pkt, now: u32, related: bool)
    ensures Refreshed(Started(p, now, related), now)
  {
  }

  lemma CommitWrites(f: Fw, p: Pkt, now: u32)
    requires f.Valid() && Decide(f, p, now).v.accept && !f.cfg.disabled
    ensures var r := Commit(f.conns, f.expects, p, ClassOf(f, p, now), now).conns;
            match Written(f, p, now)
            case None => r == f.conns
            case Some(i) => r == f.conns[i := r[i]] && Refreshed(r[i], now)
  {
    AdmittedHasRoom(f, p, now);
    MatchedSlot(f, p, now);
    match ClassOf(f, p, now)
    case Existing(idx, side, next, ff) => TouchRefreshes(f.conns[idx], p, side, next, ff, now);
    case RelatedNew(_) => StartRefreshes(p, now, true);
    case New => StartRefreshes(p, now, false);
    case Replace(_) => StartRefreshes(p, now, false);
    case _ =>
  }

  lemma WrittenSlot(f: Fw, p: Pkt, now: u32)
    requires f.Valid()
    ensures var r := Filter(f, p, now).f.conns;
            match Written(f, p, now)
            case None => r == f.conns
            case Some(i) => r == f.conns[i := r[i]] && Refreshed(r[i], now)
  {
    if !f.cfg.disabled && Decide(f, p, now).v.accept {
      CommitWrites(f, p, now);
    }
  }

  lemma TimelyLater(conns: seq<Conn>, due: Deadlines, since: nat, now: nat)
    requires Timely(conns, due, since) && since <= now
    ensures Timely(conns, due, now)
  {
  }

  lemma TimelyUpdate(conns: seq<Conn>, due: Deadlines, i: nat, c: Conn, t: u32, since: nat, now: nat)
    requires Timely(conns, due, since) && since <= now && i < |conns|
    requires c.expires == Wrap32(now + t) && t <= T_ESTABLISHED
    ensures Timely(conns[i := c], due[i := now + t], now)
  {
  }

  lemma FilterTimely(f: Fw, due: Deadlines, p: Pkt, since: nat, now: nat)
    requires f.Valid() && Timely(f.conns, due, since) && since <= now
    ensures Timely(Filter(f, p, Wrap32(now)).f.conns, DueAfter(f, due, p, now), now)
  {
    var r := Filter(f, p, Wrap32(now)).f.conns;
    WrittenSlot(f, p, Wrap32(now));
    match Written(f, p, Wrap32(now)) {
      case None =>
        assert r == f.conns && DueAfter(f, due, p, now) == due;
        TimelyLater(f.conns, due, since, now);
      case Some(i) =>
        var t := ConnTimeout(r[i].proto, r[i].state, r[i].replied);
        WrapLater(now, t);
        TimelyUpdate(f.conns, due, i, r[i], t, since, now);
        assert r == f.conns[i := r[i]] && DueAfter(f, due, p, now) == due[i := now + t];
    }
  }

  // ---- runs on a clock ----

  /** The time after `n` events. */
  function At(ts: seq<nat>, n: nat): nat
    requires n <= |ts|
  {
    if n == 0 then 0 else ts[n - 1]
  }

  /** The clock never goes back, and every packet sees its low 32 bits. */
  ghost predicate Clocked(es: seq<Event>, ts: seq<nat>) {
    && |ts| == |es|
    && (forall i, j :: 0 <= i <= j < |ts| ==> ts[i] <= ts[j])
    && (forall i :: 0 <= i < |es| && es[i].Packet? ==> es[i].now == Wrap32(ts[i]))
  }

  /** At event `n`, every tracked slot that has run out looks so. */
  ghost predicate LegibleAt(es: seq<Event>, ts: seq<nat>, n: nat)
    requires |ts| == |es| && n < |es|
  {
    AllLegible(Run(es[..n]).conns, Due(es[..n], ts[..n]), ts[n])
  }

  /** So it is at every packet of the first `m` events. */
  ghost predicate Honest(es: seq<Event>, ts: seq<nat>, m: nat)
    requires |ts| == |es| && m <= |es|
  {
    forall n: nat :: n < m && es[n].Packet? ==> LegibleAt(es, ts, n)
  }

  lemma DueExtends(es: seq<Event>, ts: seq<nat>, n: nat)
    requires Clocked(es, ts) && n < |es|
    ensures Run(es[..n + 1]) == Step(Run(es[..n]), es[n])
    ensures Due(es[..n + 1], ts[..n + 1])
            == if es[n].Packet? && es[n].commit then DueAfter(Run(es[..n]), Due(es[..n], ts[..n]), es[n].p, ts[n])
               else Due(es[..n], ts[..n])
    ensures At(ts, n) <= ts[n] == At(ts, n + 1)
  {
    assert es[..n + 1] == es[..n] + [es[n]];
    RunExtends(es[..n], es[n]);
    assert es[..n + 1][..n] == es[..n] && ts[..n + 1][..n] == ts[..n];
  }

  lemma StepTimely(f: Fw, e: Event, due: Deadlines, since: nat, now: nat)
    requires f.Valid() && |due| == MAX_CONNS && Timely(f.conns, due, since) && since <= now
    requires e.Packet? ==> e.now == Wrap32(now)
    ensures Timely(Step(f, e).conns, if e.Packet? && e.commit then DueAfter(f, due, e.p, now) else due, now)
  {
    TimelyLater(f.conns, due, since, now);
    if e.Packet? {
      FilterTimely(f, due, e.p, since, now);
    }
  }

  /** Over every run, whatever the clock does to it. */
  lemma {:induction false} RunTimely(es: seq<Event>, ts: seq<nat>, n: nat)
    requires Clocked(es, ts) && n <= |es|
    ensures Timely(Run(es[..n]).conns, Due(es[..n], ts[..n]), At(ts, n))
    decreases n
  {
    if n > 0 {
      RunTimely(es, ts, n - 1);
      DueExtends(es, ts, n - 1);
      StepTimely(Run(es[..n - 1]), es[n - 1], Due(es[..n - 1], ts[..n - 1]), At(ts, n - 1), ts[n - 1]);
    }
  }

  // ---- runs of the map ----

  function MapAdminister(m: MapFw, op: Op): (r: MapFw)
    requires MapValid(m)
    ensures MapValid(r)
  {
    var f := Administer(Fw(m.cfg, m.counters, Repeat(EMPTY_CONN, MAX_CONNS), m.expects), op).f;
    MapFw(f.cfg, f.counters, if op.FlushConns? then map[] else m.flows, f.expects, m.at)
  }

  function MapInit(): MapFw {
    MapFw(Init().cfg, Init().counters, map[], Init().expects, 0)
  }

  lemma MapCommitKeyed(flows: map<Key, Conn>, expects: seq<Expect>, p: Pkt, cls: Cls<Key>, now: u32)
    requires cls.Existing? || cls.Related? || cls.Replace? ==> cls.idx in flows
    requires cls.RelatedNew? ==> cls.ex < |expects|
    requires |expects| > 0 && Keyed(flows)
    ensures var o := MapCommit(flows, expects, p, cls, now);
            Keyed(o.flows) && |o.expects| == |expects|
  {
  }

  lemma MapFilterValid(m: MapFw, p: Pkt, now: u32)
    requires MapValid(m)
    ensures MapValid(MapFilter(m, p, now).m)
  {
    if !m.cfg.disabled {
      var flows := Alive(m.flows, now);
      var cls := MapClassOf(flows, m.expects, p, now);
      MapCommitKeyed(flows, m.expects, p, cls, now);
    }
  }

  function MapStep(m: MapFw, e: Event): (r: MapFw)
    requires MapValid(m)
    ensures MapValid(r)
  {
    match e
    case Packet(p, now, commit) => MapFilterValid(m, p, now); if commit then MapFilter(m, p, now).m else m
    case Admin(op) => MapAdminister(m, op)
  }

  function MapRun(es: seq<Event>): (m: MapFw)
    ensures MapValid(m)
  {
    if es == [] then MapInit() else MapStep(MapRun(es[..|es| - 1]), es[|es| - 1])
  }

  /** When the map last looked at its flows. */
  function LookedAt(es: seq<Event>, ts: seq<nat>): nat
    requires |ts| == |es|
  {
    if es == [] then 0
    else
      var n := |es| - 1;
      if es[n].Packet? && es[n].commit && !Run(es[..n]).cfg.disabled then ts[n] else LookedAt(es[..n], ts[..n])
  }

  // ---- the table holds the map ----

  /** Time passing only takes flows away. */
  lemma {:induction false} FlowsShrink(conns: seq<Conn>, due: Deadlines, since: nat, now: nat)
    requires since <= now && ReadsTrue(conns, due, since) && ReadsTrue(conns, due, now)
    requires Unique(conns, Wrap32(since))
    ensures Unique(conns, Wrap32(now)) && Flows(conns, Wrap32(now)) == Alive(Flows(conns, Wrap32(since)), Wrap32(now))
  {
    var at, t := Wrap32(since), Wrap32(now);
    assert forall i :: 0 <= i < |conns| && Live(conns[i], t) ==> Live(conns[i], at);
    assert Unique(conns, t);
    var a, b := Flows(conns, t), Alive(Flows(conns, at), t);
    forall k | k in a ensures k in b && b[k] == a[k] {
      var i := SlotFor(conns, t, k);
      FlowAt(conns, at, i);
    }
    forall k | k in b ensures k in a {
      var i := SlotFor(conns, at, k);
      FlowAt(conns, t, i);
    }
  }

  /** The map `m`, which last looked at its flows at `at`, is what the table holds. */
  ghost predicate Holds(f: Fw, m: MapFw, due: Deadlines, at: nat) {
    && m == Abs(f, Wrap32(at)) && Unique(f.conns, Wrap32(at)) && AllSound(f.conns)
    && ReadsTrue(f.conns, due, at)
  }

  lemma WrittenReadsTrue(f: Fw, due: Deadlines, p: Pkt, now: nat)
    requires f.Valid() && ReadsTrue(f.conns, due, now)
    ensures ReadsTrue(Filter(f, p, Wrap32(now)).f.conns, DueAfter(f, due, p, now), now)
  {
    WrittenSlot(f, p, Wrap32(now));
    match Written(f, p, Wrap32(now))
    case None =>
    case Some(i) => RefreshedIsLive(Filter(f, p, Wrap32(now)).f.conns[i], Wrap32(now));
  }

  lemma PacketHolds(f: Fw, m: MapFw, due: Deadlines, at: nat, p: Pkt, now: nat)
    requires f.Valid() && MapValid(m) && Holds(f, m, due, at) && at <= now && ReadsTrue(f.conns, due, now)
    ensures var r := Filter(f, p, Wrap32(now)).f;
            Holds(r, MapFilter(m, p, Wrap32(now)).m, DueAfter(f, due, p, now), if f.cfg.disabled then at else now)
    ensures MapFilter(m, p, Wrap32(now)).v == Filter(f, p, Wrap32(now)).v
  {
    var t := Wrap32(now);
    if !f.cfg.disabled {
      FlowsShrink(f.conns, due, at, now);
      assert Alive(Flows(f.conns, t), t) == Flows(f.conns, t);
      assert MapFilter(m, p, t) == MapFilter(Abs(f, t), p, t);
      FilterRefinesMap(f, p, t);
      WrittenReadsTrue(f, due, p, now);
      CommitSound(f, p, t);
    }
  }

  lemma {:induction false} FlowsNone(conns: seq<Conn>, now: u32)
    requires forall i :: 0 <= i < |conns| ==> !Live(conns[i], now)
    ensures Flows(conns, now) == map[]
  {
    if conns != [] {
      FlowsNone(conns[..|conns| - 1], now);
    }
  }

  lemma AdminHolds(f: Fw, m: MapFw, due: Deadlines, at: nat, op: Op)
    requires f.Valid() && MapValid(m) && Holds(f, m, due, at)
    ensures Holds(Administer(f, op).f, MapAdminister(m, op), due, at)
  {
    var g := Administer(f, op).f;
    if op.FlushConns? {
      FlowsNone(g.conns, Wrap32(at));
    } else {
      assert g.conns == f.conns;
    }
  }

  lemma MapRunExtends(es: seq<Event>, ts: seq<nat>, n: nat)
    requires Clocked(es, ts) && n < |es|
    ensures MapRun(es[..n + 1]) == MapStep(MapRun(es[..n]), es[n])
    ensures LookedAt(es[..n + 1], ts[..n + 1])
            == if es[n].Packet? && es[n].commit && !Run(es[..n]).cfg.disabled then ts[n] else LookedAt(es[..n], ts[..n])
  {
    assert es[..n + 1][..n] == es[..n] && ts[..n + 1][..n] == ts[..n];
  }

  lemma {:induction false} LookedBefore(es: seq<Event>, ts: seq<nat>, n: nat)
    requires Clocked(es, ts) && n <= |es|
    ensures LookedAt(es[..n], ts[..n]) <= At(ts, n)
    decreases n
  {
    if n > 0 {
      LookedBefore(es, ts, n - 1);
      MapRunExtends(es, ts, n - 1);
      DueExtends(es, ts, n - 1);
    }
  }

  /** Where every slot that has run out looks so, the table reads true. */
  lemma PacketReadsTrue(es: seq<Event>, ts: seq<nat>, n: nat)
    requires Clocked(es, ts) && n < |es| && LegibleAt(es, ts, n)
    ensures ReadsTrue(Run(es[..n]).conns, Due(es[..n], ts[..n]), ts[n])
  {
    RunTimely(es, ts, n);
    DueExtends(es, ts, n);
    TrueIffLegible(Run(es[..n]).conns, Due(es[..n], ts[..n]), At(ts, n), ts[n]);
  }

  /** Over every run, however long, at whose packets every slot that has run out looks so, the
      table holds exactly the flows of the map, and every packet gets the verdict the map
      gives it. */
  lemma {:induction false} TableIsAMap(es: seq<Event>, ts: seq<nat>, n: nat)
    requires Clocked(es, ts) && n <= |es| && Honest(es, ts, n)
    ensures Holds(Run(es[..n]), MapRun(es[..n]), Due(es[..n], ts[..n]), LookedAt(es[..n], ts[..n]))
    ensures n < |es| && es[n].Packet? && LegibleAt(es, ts, n) ==>
              && ReadsTrue(Run(es[..n]).conns, Due(es[..n], ts[..n]), ts[n])
              && MapFilter(MapRun(es[..n]), es[n].p, es[n].now).v == Filter(Run(es[..n]), es[n].p, es[n].now).v
    decreases n
  {
    if n == 0 {
      FlowsNone(Run([]).conns, 0);
      assert es[..0] == [] && ts[..0] == [];
    } else {
      TableIsAMap(es, ts, n - 1);
      StepHolds(es, ts, n - 1);
    }
    if n < |es| && es[n].Packet? && LegibleAt(es, ts, n) {
      VerdictsAgree(es, ts, n);
    }
  }

  lemma VerdictsAgree(es: seq<Event>, ts: seq<nat>, n: nat)
    requires Clocked(es, ts) && n < |es| && es[n].Packet? && LegibleAt(es, ts, n)
    requires Holds(Run(es[..n]), MapRun(es[..n]), Due(es[..n], ts[..n]), LookedAt(es[..n], ts[..n]))
    ensures ReadsTrue(Run(es[..n]).conns, Due(es[..n], ts[..n]), ts[n])
    ensures MapFilter(MapRun(es[..n]), es[n].p, es[n].now).v == Filter(Run(es[..n]), es[n].p, es[n].now).v
  {
    PacketReadsTrue(es, ts, n);
    LookedBefore(es, ts, n);
    DueExtends(es, ts, n);
    PacketHolds(Run(es[..n]), MapRun(es[..n]), Due(es[..n], ts[..n]), LookedAt(es[..n], ts[..n]), es[n].p, ts[n]);
  }

  lemma StepHolds(es: seq<Event>, ts: seq<nat>, n: nat)
    requires Clocked(es, ts) && n < |es| && (es[n].Packet? ==> LegibleAt(es, ts, n))
    requires Holds(Run(es[..n]), MapRun(es[..n]), Due(es[..n], ts[..n]), LookedAt(es[..n], ts[..n]))
    ensures Holds(Run(es[..n + 1]), MapRun(es[..n + 1]), Due(es[..n + 1], ts[..n + 1]), LookedAt(es[..n + 1], ts[..n + 1]))
  {
    var f, m := Run(es[..n]), MapRun(es[..n]);
    var due, at := Due(es[..n], ts[..n]), LookedAt(es[..n], ts[..n]);
    DueExtends(es, ts, n);
    MapRunExtends(es, ts, n);
    LookedBefore(es, ts, n);
    match es[n]
    case Packet(p, now, commit) =>
      if commit {
        PacketReadsTrue(es, ts, n);
        PacketHolds(f, m, due, at, p, ts[n]);
      }
    case Admin(op) => AdminHolds(f, m, due, at, op);
  }

  /** At every point of such a run, at any time every slot that has run out looks so, no tuple
      belongs to two live flows. */
  lemma NoTwoLiveFlowsClash(es: seq<Event>, ts: seq<nat>, now: nat)
    requires Clocked(es, ts) && Honest(es, ts, |es|) && At(ts, |ts|) <= now && AllLegible(Run(es).conns, Due(es, ts), now)
    ensures Unique(Run(es).conns, Wrap32(now))
  {
    var n := |es|;
    TableIsAMap(es, ts, n);
    RunTimely(es, ts, n);
    LookedBefore(es, ts, n);
    assert es[..n] == es && ts[..n] == ts;
    TrueIffLegible(Run(es).conns, Due(es, ts), At(ts, n), now);
    FlowsShrink(Run(es).conns, Due(es, ts), LookedAt(es, ts), now);
  }
}
