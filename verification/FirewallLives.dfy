/** How long a tracked flow lives, and what goes wrong where the counter has turned too far. */
module FirewallLives {
  import opened Words
  import opened FirewallTypes
  import opened FirewallSpec
  import opened FirewallRuns
  import opened FirewallDryRun
  import opened FirewallFlows
  import opened FirewallClock

  /** A SYN on the tuple of the finished flow in slot `i`, from either end. */
  predicate Reopens(f: Fw, p: Pkt, i: nat) {
    && i < |f.conns| && SideOf(f.conns[i], KeyOf(p)).Some?
    && p.proto == PROTO_TCP && TcpClass(p.flags) == Some(Syn)
    && (f.conns[i].state == TCP_TIME_WAIT || f.conns[i].state == TCP_CLOSE)
  }

  /** The same flow in the same slot. */
  predicate SameSlot(c: Conn, d: Conn) {
    d.used && d.Tuple() == c.Tuple() && d.created == c.created && d.origDir == c.origDir
  }

  /** Mentioned where the deadlines of a run matter. */
  predicate LookAtDue(k: int) {
    true
  }

  /** After `n` events slot `i` runs out later than `now`. */
  ghost predicate TimeLeft(es: seq<Event>, ts: seq<nat>, n: nat, i: nat, now: nat)
    requires |ts| == |es| && n <= |es| && i < MAX_CONNS
  {
    forall k: int :: LookAtDue(k) ==> now < Due(es[..n], ts[..n])[i]
  }

  /** Event `n` of the run ends the flow in slot `i`: its time ran out before, a SYN reopened it
      and was let through, or all flows were forgotten. */
  ghost predicate Ends(es: seq<Event>, ts: seq<nat>, n: nat, i: nat)
    requires |ts| == |es| && n < |es| && i < MAX_CONNS
  {
    || !TimeLeft(es, ts, n, i, ts[n])
    || (Accepted(es, n) && Reopens(Run(es[..n]), es[n].p, i))
    || es[n] == Admin(FlushConns)
  }

  /** A packet leaves a live flow in its slot and refreshes it at most. */
  lemma FilterKeepsSlot(f: Fw, due: Deadlines, p: Pkt, now: nat, i: nat)
    requires f.Valid() && ReadsTrue(f.conns, due, now) && i < MAX_CONNS && f.conns[i].used && now < due[i]
    ensures var r := Filter(f, p, Wrap32(now));
            || (SameSlot(f.conns[i], r.f.conns[i]) && now < DueAfter(f, due, p, now)[i])
            || (r.v.accept && Reopens(f, p, i))
  {
    WrittenSlot(f, p, Wrap32(now));
    if Written(f, p, Wrap32(now)) == Some(i) {
      MatchedSlot(f, p, Wrap32(now));
    }
  }

  lemma StepSlot(f: Fw, e: Event, due: Deadlines, now: nat, i: nat)
    requires f.Valid() && |due| == MAX_CONNS && i < MAX_CONNS && f.conns[i].used && now < due[i]
    requires e.Packet? ==> e.now == Wrap32(now) && ReadsTrue(f.conns, due, now)
    ensures || (SameSlot(f.conns[i], Step(f, e).conns[i])
                && now < (if e.Packet? && e.commit then DueAfter(f, due, e.p, now) else due)[i])
            || (e.Packet? && e.commit && Filter(f, e.p, e.now).v.accept && Reopens(f, e.p, i))
            || e == Admin(FlushConns)
  {
    if e.Packet? {
      FilterKeepsSlot(f, due, e.p, now, i);
    }
  }

  /** After `n` events the flow `c` is in slot `i`, with time left. */
  ghost predicate InSlot(es: seq<Event>, ts: seq<nat>, n: nat, i: nat, c: Conn)
    requires |ts| == |es| && n <= |es| && i < MAX_CONNS
  {
    SameSlot(c, Run(es[..n]).conns[i]) && TimeLeft(es, ts, n, i, At(ts, n))
  }

  lemma StepKeepsSlot(es: seq<Event>, ts: seq<nat>, n: nat, i: nat, c: Conn)
    requires Clocked(es, ts) && n < |es| && (es[n].Packet? ==> LegibleAt(es, ts, n))
    requires i < MAX_CONNS && InSlot(es, ts, n, i, c)
    ensures InSlot(es, ts, n + 1, i, c) || Ends(es, ts, n, i)
  {
    assert LookAtDue(0);
    DueExtends(es, ts, n);
    if es[n].Packet? {
      PacketReadsTrue(es, ts, n);
    }
    if ts[n] < Due(es[..n], ts[..n])[i] {
      StepSlot(Run(es[..n]), es[n], Due(es[..n], ts[..n]), ts[n], i);
    }
  }

  /** Over any stretch of such a run, a flow that was live stays in its slot, live, unless
      something in between ended it. */
  lemma LiveFlowsSurvive(es: seq<Event>, ts: seq<nat>, m: nat, n: nat, i: nat, c: Conn)
    requires Clocked(es, ts) && m <= n <= |es| && Honest(es, ts, n) && i < MAX_CONNS && InSlot(es, ts, m, i, c)
    ensures InSlot(es, ts, n, i, c) || exists j: nat :: m <= j < n && Ends(es, ts, j, i)
  {
    forall k: nat | m <= k < n && InSlot(es, ts, k, i, c) ensures InSlot(es, ts, k + 1, i, c) || Ends(es, ts, k, i) {
      StepKeepsSlot(es, ts, k, i, c);
    }
    SlotStretch(es, ts, m, n, i, c);
  }

  lemma SlotStretch(es: seq<Event>, ts: seq<nat>, m: nat, n: nat, i: nat, c: Conn)
    requires |ts| == |es| && m <= n <= |es| && i < MAX_CONNS && InSlot(es, ts, m, i, c)
    requires forall k: nat :: m <= k < n && InSlot(es, ts, k, i, c) ==> InSlot(es, ts, k + 1, i, c) || Ends(es, ts, k, i)
    ensures InSlot(es, ts, n, i, c) || exists j: nat :: m <= j < n && Ends(es, ts, j, i)
  {
    var holds := (k: nat) => k <= |es| && InSlot(es, ts, k, i, c);
    var ends := (k: nat) => k < |es| && Ends(es, ts, k, i);
    Stretch(holds, ends, m, n);
    if !holds(n) {
      var j: nat :| m <= j < n && ends(j);
      assert Ends(es, ts, j, i);
    }
  }

  /** An accepted new flow of such a run always gets a slot, and is then found under its tuple. */
  lemma AcceptedFlowIsTracked(es: seq<Event>, ts: seq<nat>, n: nat)
    requires Clocked(es, ts) && n < |es| && Honest(es, ts, n + 1) && Accepted(es, n) && !Run(es[..n]).cfg.disabled
    requires var cls := ClassOf(Run(es[..n]), es[n].p, es[n].now); cls.New? || cls.RelatedNew? || cls.Replace?
    ensures var g, k := Flows(Run(es[..n + 1]).conns, es[n].now), KeyOf(es[n].p);
            k in g && g[k].created == es[n].now && g[k].origDir == es[n].p.dir
  {
    var f, p, now := Run(es[..n]), es[n].p, es[n].now;
    PointIsUnique(es, ts, n);
    DueExtends(es, ts, n);
    CommitsAgree(f, p, now);
    ClassesAgree(f, p, now);
  }

  lemma PointIsUnique(es: seq<Event>, ts: seq<nat>, n: nat)
    requires Clocked(es, ts) && n < |es| && Honest(es, ts, n + 1) && es[n].Packet?
    ensures Unique(Run(es[..n]).conns, es[n].now) && AllSound(Run(es[..n]).conns)
  {
    TableIsAMap(es, ts, n);
    LookedBefore(es, ts, n);
    DueExtends(es, ts, n);
    FlowsShrink(Run(es[..n]).conns, Due(es[..n], ts[..n]), LookedAt(es[..n], ts[..n]), ts[n]);
  }

  // ---- past the half turn ----

  const OUT: Pkt := Pkt(DIR_OUT, PROTO_UDP, 1, 2, 5000, 53, 0, 0, 0, 0, 8, BAD_NONE, None)
  const BACK: Pkt := Pkt(DIR_IN, PROTO_UDP, 2, 1, 53, 5000, 0, 0, 0, 0, 8, BAD_NONE, None)

  /** Half a turn after the deadline of the flow `OUT` starts at time 0. */
  const LATE: nat := TWO31 + T_UDP_UNREPLIED

  /** One flow in the first slot, started by `OUT` at time 0, and nothing else tracked. */
  ghost predicate OnlyOut(f: Fw) {
    && f.Valid() && f.cfg == Init().cfg && f.expects == Init().expects
    && |f.conns| == MAX_CONNS && f.conns[0] == Started(OUT, 0, false)
    && forall i :: 1 <= i < MAX_CONNS ==> !f.conns[i].used
  }

  lemma AfterOut(f: Fw)
    requires f == Init()
    ensures OnlyOut(Filter(f, OUT, 0).f) && Written(f, OUT, 0) == Some(0)
  {
    assert ClassOf(f, OUT, 0) == New;
    assert !f.cfg.rules[0].Matches(OUT, ST_NEW);
    assert Decide(f, OUT, 0).v.accept;
    assert FreeFrom(f.conns, 0, 0) == Some(0);
  }

  /** Inbound datagrams that belong to no flow are dropped. */
  lemma UnknownIsDropped(cfg: Config)
    requires cfg == Init().cfg
    ensures !RuleDecision(cfg, BACK, ST_NEW).v.accept
  {
    assert !cfg.rules[0].Matches(BACK, ST_NEW);
  }

  /** The answer is dropped once the flow has run out. */
  lemma DroppedAfterDeadline(f: Fw)
    requires OnlyOut(f)
    ensures !Filter(f, BACK, 4000).v.accept && OnlyOut(Filter(f, BACK, 4000).f) && Written(f, BACK, 4000).None?
  {
    assert FindFrom(f.conns, KeyOf(BACK), 4000, None, 0).None?;
    assert ClassOf(f, BACK, 4000) == New;
    UnknownIsDropped(f.cfg);
  }

  /** And let in again half a turn later. */
  lemma AcceptedLate(f: Fw)
    requires OnlyOut(f)
    ensures Filter(f, BACK, LATE).v.accept
  {
    var c := f.conns[0];
    assert Live(c, LATE) && Hit(c, KeyOf(BACK), LATE, None);
    assert ClassOf(f, BACK, LATE) == Existing(0, 1, UDP_REPLIED, 0);
    assert f.cfg.rules[0].Matches(BACK, ST_ESTABLISHED);
  }

  lemma MapDrops(m: MapFw)
    requires MapValid(m) && m.cfg == Init().cfg && m.expects == Init().expects && m.flows == map[]
    ensures !MapFilter(m, BACK, LATE).v.accept
  {
    assert Alive(m.flows, LATE) == map[];
    assert MapClassOf(map[], m.expects, BACK, LATE) == New;
    UnknownIsDropped(m.cfg);
  }

  lemma OutLegible(f: Fw, due: Deadlines, now: nat)
    requires OnlyOut(f) && |due| == MAX_CONNS && due[0] == T_UDP_UNREPLIED
    ensures now == 4000 ==> AllLegible(f.conns, due, now)
    ensures now == LATE ==> !AllLegible(f.conns, due, now)
  {
    assert f.conns[0].used;
    assert Legible(T_UDP_UNREPLIED, 4000) && !Legible(T_UDP_UNREPLIED, LATE);
  }

  /** Mentioned where the events of the story matter. */
  predicate LookAtStory(k: int) {
    true
  }

  /** A datagram at time 0, and its answer at 4000 and again half a turn after the deadline. */
  ghost predicate Story(es: seq<Event>, ts: seq<nat>) {
    && |es| == |ts| == 3
    && forall k: int :: LookAtStory(k) ==>
         && es[0] == Packet(OUT, 0, true) && es[1] == Packet(BACK, 4000, true) && es[2] == Packet(BACK, LATE, true)
         && ts[0] == 0 && ts[1] == 4000 && ts[2] == LATE
  }

  lemma StoryClocked(es: seq<Event>, ts: seq<nat>)
    requires Story(es, ts)
    ensures Clocked(es, ts) && ts[1] == 4000 && ts[2] == LATE && es[2].Packet?
  {
    assert LookAtStory(0);
  }

  lemma RunNothing(es: seq<Event>, ts: seq<nat>)
    requires |es| == |ts| == 0
    ensures Run(es) == Init() && Due(es, ts) == Repeat(0, MAX_CONNS)
  {
  }

  lemma FirstState(f: Fw, due: Deadlines)
    requires f == Init() && |due| == MAX_CONNS
    ensures OnlyOut(Step(f, Packet(OUT, 0, true))) && DueAfter(f, due, OUT, 0)[0] == T_UDP_UNREPLIED
  {
    AfterOut(f);
  }

  lemma SecondState(f: Fw, due: Deadlines)
    requires OnlyOut(f) && |due| == MAX_CONNS
    ensures OnlyOut(Step(f, Packet(BACK, 4000, true))) && DueAfter(f, due, BACK, 4000) == due
  {
    DroppedAfterDeadline(f);
  }

  lemma StoryFirst(es: seq<Event>, ts: seq<nat>)
    requires Story(es, ts)
    ensures Clocked(es, ts) && OnlyOut(Run(es[..1])) && Due(es[..1], ts[..1])[0] == T_UDP_UNREPLIED
  {
    assert LookAtStory(0);
    RunNothing(es[..0], ts[..0]);
    DueExtends(es, ts, 0);
    FirstState(Run(es[..0]), Due(es[..0], ts[..0]));
  }

  lemma StorySecond(es: seq<Event>, ts: seq<nat>)
    requires Story(es, ts)
    ensures Clocked(es, ts) && OnlyOut(Run(es[..2])) && Due(es[..2], ts[..2])[0] == T_UDP_UNREPLIED
  {
    assert LookAtStory(0);
    StoryFirst(es, ts);
    DueExtends(es, ts, 1);
    SecondState(Run(es[..1]), Due(es[..1], ts[..1]));
  }

  lemma StoryLegible(es: seq<Event>, ts: seq<nat>)
    requires Story(es, ts)
    ensures LegibleAt(es, ts, 0) && LegibleAt(es, ts, 1) && !LegibleAt(es, ts, 2)
  {
    StoryClocked(es, ts);
    RunNothing(es[..0], ts[..0]);
    StoryFirst(es, ts);
    OutLegible(Run(es[..1]), Due(es[..1], ts[..1]), ts[1]);
    StorySecond(es, ts);
    OutLegible(Run(es[..2]), Due(es[..2], ts[..2]), ts[2]);
  }

  lemma StoryHonest(es: seq<Event>, ts: seq<nat>)
    requires Story(es, ts)
    ensures Clocked(es, ts) && Honest(es, ts, 2) && !Honest(es, ts, 3)
  {
    StoryClocked(es, ts);
    StoryLegible(es, ts);
    assert es[2].Packet?;
  }

  lemma StoryMap(es: seq<Event>, ts: seq<nat>)
    requires Story(es, ts)
    ensures !MapFilter(MapRun(es[..2]), BACK, LATE).v.accept
  {
    StorySecond(es, ts);
    StoryHolds(es, ts);
    MapIsEmpty(Run(es[..2]), MapRun(es[..2]));
    MapDrops(MapRun(es[..2]));
  }

  lemma StoryHolds(es: seq<Event>, ts: seq<nat>)
    requires Story(es, ts) && Clocked(es, ts)
    ensures MapRun(es[..2]) == Abs(Run(es[..2]), Wrap32(4000))
  {
    StoryHonest(es, ts);
    StoryLooked(es, ts);
    TableIsAMap(es, ts, 2);
  }

  lemma StoryLooked(es: seq<Event>, ts: seq<nat>)
    requires Story(es, ts) && Clocked(es, ts)
    ensures LookedAt(es[..2], ts[..2]) == 4000
  {
    assert LookAtStory(0);
    StoryFirst(es, ts);
    MapRunExtends(es, ts, 1);
  }

  lemma MapIsEmpty(f: Fw, m: MapFw)
    requires OnlyOut(f) && m == Abs(f, Wrap32(4000))
    ensures m.cfg == Init().cfg && m.expects == Init().expects && m.flows == map[]
  {
    FlowsNone(f.conns, 4000);
  }

  /** A flow can return: the answer is dropped after the deadline and let in half a turn later,
      while the map, which forgot the flow at the packet in between, drops it both times. The
      deadline has become illegible. */
  lemma FlowsCanReturn(es: seq<Event>, ts: seq<nat>)
    requires Story(es, ts)
    ensures Clocked(es, ts) && Honest(es, ts, 2) && !Honest(es, ts, 3)
    ensures !Filter(Run(es[..1]), BACK, 4000).v.accept && Filter(Run(es[..2]), BACK, LATE).v.accept
    ensures !MapFilter(MapRun(es[..2]), BACK, LATE).v.accept
  {
    StoryFirst(es, ts);
    StorySecond(es, ts);
    StoryHonest(es, ts);
    DroppedAfterDeadline(Run(es[..1]));
    AcceptedLate(Run(es[..2]));
    StoryMap(es, ts);
  }
}
