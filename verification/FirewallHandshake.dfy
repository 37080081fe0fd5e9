/** Under the baseline a connection can be opened and used: the handshake gets through, and
    every acknowledgement after it. */
module FirewallHandshake {
  import opened Words
  import opened FirewallTypes
  import opened FirewallSpec
  import opened FirewallRuns
  import opened FirewallDryRun
  import opened FirewallFlows
  import opened FirewallSolicited
  import opened FirewallClock
  import opened FirewallLives
  import opened FirewallAccepts
  import opened FirewallHistory
  import opened FirewallConnections

  // ---- one event and one slot ----

  /** What an event does to a slot that holds a live flow and is not concerned. */
  lemma Undisturbed(f: Fw, due: Deadlines, e: Event, now: nat, i: nat)
    requires Holding(f, due, now, i) && e != Admin(FlushConns) && !(e.Packet? && OnTuple(e.p, f.conns[i].Tuple()))
    requires e.Packet? ==> e.now == Wrap32(now) && ReadsTrue(f.conns, due, now) && Unique(f.conns, Wrap32(now))
    ensures Step(f, e).conns[i] == f.conns[i]
    ensures (if e.Packet? && e.commit then DueAfter(f, due, e.p, now) else due)[i] == due[i]
  {
    if Passes(f, e) {
      GivenToFlow(f, due, e.p, now, i);
      FilterSlot(f, e.p, Wrap32(now), i);
    }
  }

  /** What a segment that passes does to its flow. */
  lemma Applied(f: Fw, due: Deadlines, p: Pkt, now: nat, i: nat, side: u8, next: u8, ff: u8)
    requires Holding(f, due, now, i) && !f.cfg.disabled && Decide(f, p, Wrap32(now)).v.accept
    requires ClassOf(f, p, Wrap32(now)) == Existing(i, side, next, ff)
    ensures var c := Touch(f.conns[i], p, side, next, ff, Wrap32(now));
            && Filter(f, p, Wrap32(now)).f.conns[i] == c
            && DueAfter(f, due, p, now)[i] == now + ConnTimeout(c.proto, c.state, c.replied)
  {
    FilterSlot(f, p, Wrap32(now), i);
  }

  /** What the SYN that opens a flow does. */
  lemma OpenedHere(f: Fw, due: Deadlines, p: Pkt, now: nat) returns (i: nat)
    requires f.Valid() && |due| == MAX_CONNS && !f.cfg.disabled && Decide(f, p, Wrap32(now)).v.accept
    requires ClassOf(f, p, Wrap32(now)) == New
    ensures i < MAX_CONNS && Filter(f, p, Wrap32(now)).f.conns[i] == Started(p, Wrap32(now), false)
    ensures var c := Started(p, Wrap32(now), false);
            DueAfter(f, due, p, now)[i] == now + ConnTimeout(c.proto, c.state, c.replied)
  {
    AdmittedHasRoom(f, p, Wrap32(now));
    i := FreeFrom(f.conns, Wrap32(now), 0).value;
    FilterSlot(f, p, Wrap32(now), i);
  }

  // ---- points of a run ----

  // Mentioned where a point of a run is looked into, each at what its name says.

  predicate LookAtPoint(k: int) {
    true
  }

  predicate LookAtRun(k: int) {
    true
  }

  predicate LookAtQuiet(k: int) {
    true
  }

  predicate LookAtSegment(k: int) {
    true
  }

  predicate LookAtStart(k: int) {
    true
  }

  predicate LookAtVerdict(k: int) {
    true
  }

  /** After `n` events slot `i` holds the connection `k`, opened from inside, in `state`, until
      `due`. */
  ghost predicate Connection(es: seq<Event>, ts: seq<nat>, n: nat, i: nat, k: Key, state: u8, replied: bool, due: nat)
    requires |ts| == |es| && n <= |es|
  {
    && i < MAX_CONNS && k.Swap() != k && k.proto == PROTO_TCP
    && forall x: int :: LookAtPoint(x) ==>
         Tracks(Run(es[..n]).conns[i], k, state, replied) && Due(es[..n], ts[..n])[i] == due
  }

  predicate Tracks(c: Conn, k: Key, state: u8, replied: bool) {
    c.used && c.Tuple() == k && c.state == state && c.replied == replied
  }

  /** The run so far under the baseline, with true deadlines. */
  ghost predicate Going(es: seq<Event>, ts: seq<nat>, n: nat) {
    && |ts| == |es| && n <= |es|
    && forall x: int :: LookAtRun(x) ==> Clocked(es, ts) && Honest(es, ts, n) && ConfigUntouched(es)
  }

  lemma Later(es: seq<Event>, ts: seq<nat>, n: nat, i: nat, j: nat)
    requires Going(es, ts, n) && i <= j < |ts|
    ensures ts[i] <= ts[j]
  {
    assert LookAtRun(0);
  }

  lemma BaselineAt(es: seq<Event>, n: nat)
    requires ConfigUntouched(es) && n <= |es|
    ensures IsBaseline(Run(es[..n]).cfg)
  {
    var pre := es[..n];
    assert ConfigUntouched(pre) by {
      forall j: nat | j < |pre| ensures es[..j] == pre[..j] {}
    }
    RunTraced(pre);
  }

  /** At a packet of such a run. */
  lemma PacketPoint(es: seq<Event>, ts: seq<nat>, n: nat)
    requires Going(es, ts, n + 1) && es[n].Packet?
    ensures var f := Run(es[..n]);
            && IsBaseline(f.cfg) && AllSound(f.conns) && Unique(f.conns, es[n].now) && es[n].now == Wrap32(ts[n])
            && ReadsTrue(f.conns, Due(es[..n], ts[..n]), ts[n])
  {
    assert LookAtRun(0);
    BaselineAt(es, n);
    PacketReadsTrue(es, ts, n);
    PointIsUnique(es, ts, n);
  }

  /** No event in between concerns the tuple, and the flows are not flushed. */
  ghost predicate QuietOn(es: seq<Event>, m: nat, n: nat, k: Key)
    requires n <= |es|
  {
    forall x: int :: LookAtQuiet(x) ==>
      forall j: nat :: m <= j < n ==> es[j] != Admin(FlushConns) && !(es[j].Packet? && OnTuple(es[j].p, k))
  }

  lemma QuietAt(es: seq<Event>, m: nat, n: nat, k: Key, j: nat)
    requires m <= j < n <= |es| && QuietOn(es, m, n, k)
    ensures es[j] != Admin(FlushConns) && !(es[j].Packet? && OnTuple(es[j].p, k))
  {
    assert LookAtQuiet(0);
  }

  lemma StaysOne(es: seq<Event>, ts: seq<nat>, n: nat, i: nat, k: Key, state: u8, replied: bool, due: nat)
    requires Going(es, ts, n + 1) && Connection(es, ts, n, i, k, state, replied, due) && ts[n] < due
    requires es[n] != Admin(FlushConns) && !(es[n].Packet? && OnTuple(es[n].p, k))
    ensures Connection(es, ts, n + 1, i, k, state, replied, due)
  {
    assert LookAtPoint(0) && LookAtRun(0);
    DueExtends(es, ts, n);
    if es[n].Packet? {
      PacketPoint(es, ts, n);
    }
    Undisturbed(Run(es[..n]), Due(es[..n], ts[..n]), es[n], ts[n], i);
  }

  /** Meanwhile the connection stays as it is. */
  lemma Stays(es: seq<Event>, ts: seq<nat>, m: nat, n: nat, i: nat, k: Key, state: u8, replied: bool, due: nat)
    requires m <= n && Going(es, ts, n) && Connection(es, ts, m, i, k, state, replied, due) && QuietOn(es, m, n, k)
    requires m < n ==> ts[n - 1] < due
    ensures Connection(es, ts, n, i, k, state, replied, due)
  {
    var holds := (j: nat) => j <= |es| && Connection(es, ts, j, i, k, state, replied, due);
    forall j: nat | m <= j < n && holds(j) ensures holds(j + 1) {
      StaysNext(es, ts, m, n, j, i, k, state, replied, due);
    }
    FirewallRuns.Stretch(holds, j => false, m, n);
  }

  lemma StaysNext(es: seq<Event>, ts: seq<nat>, m: nat, n: nat, j: nat, i: nat, k: Key, state: u8, replied: bool, due: nat)
    requires m <= j < n && Going(es, ts, n) && QuietOn(es, m, n, k) && ts[n - 1] < due
    requires Connection(es, ts, j, i, k, state, replied, due)
    ensures Connection(es, ts, j + 1, i, k, state, replied, due)
  {
    GoingTo(es, ts, j + 1, n);
    QuietAt(es, m, n, k, j);
    Later(es, ts, n, j, n - 1);
    StaysOne(es, ts, j, i, k, state, replied, due);
  }

  /** A segment of the connection: outward from the end that opened it, inward from the other. */
  ghost predicate Segment(e: Event, k: Key, out: bool, fc: Fc) {
    && e.Packet?
    && forall x: int :: LookAtSegment(x) ==>
         && e.commit && ProperTcp(e.p, fc)
         && KeyOf(e.p) == (if out then k else k.Swap()) && e.p.dir == (if out then DIR_OUT else DIR_IN)
  }

  /** Event `n` is a packet that is let through. */
  ghost predicate LetThrough(es: seq<Event>, n: nat) {
    forall x: int :: LookAtVerdict(x) ==> Accepted(es, n)
  }

  /** Such a segment passes exactly if it can happen, and the connection goes on as it says. */
  lemma SegmentOn(es: seq<Event>, ts: seq<nat>, n: nat, i: nat, k: Key, state: u8, replied: bool, due: nat, out: bool, fc: Fc)
    returns (ff: u8)
    requires Going(es, ts, n + 1) && Connection(es, ts, n, i, k, state, replied, due) && ts[n] < due
    requires Segment(es[n], k, out, fc) && !(fc == Syn && Finished(state))
    ensures Accepted(es, n) <==> !Impossible(state, if out then 0 else 1, fc)
    ensures Accepted(es, n) ==> TcpNext(state, if out then 0 else 1, fc, ff).Some?
    ensures Accepted(es, n) ==>
              var next := TcpNext(state, if out then 0 else 1, fc, ff).value.0;
              Connection(es, ts, n + 1, i, k, next, replied || !out, ts[n] + ConnTimeout(PROTO_TCP, next, replied || !out))
  {
    assert LookAtPoint(0) && LookAtRun(0) && LookAtSegment(0);
    var f, p := Run(es[..n]), es[n].p;
    PacketPoint(es, ts, n);
    DueExtends(es, ts, n);
    ff := f.conns[i].finFrom;
    SegmentAt(f, Due(es[..n], ts[..n]), p, ts[n], i, k, state, replied, out, fc);
  }

  lemma SegmentAt(f: Fw, due: Deadlines, p: Pkt, now: nat, i: nat, k: Key, state: u8, replied: bool, out: bool, fc: Fc)
    requires Holding(f, due, now, i) && ReadsTrue(f.conns, due, now) && Unique(f.conns, Wrap32(now))
    requires IsBaseline(f.cfg) && AllSound(f.conns) && Tracks(f.conns[i], k, state, replied) && k.Swap() != k
    requires ProperTcp(p, fc) && !(fc == Syn && Finished(state))
    requires KeyOf(p) == (if out then k else k.Swap()) && p.dir == (if out then DIR_OUT else DIR_IN)
    ensures var r, side := Filter(f, p, Wrap32(now)), if out then 0 else 1;
            && (r.v.accept <==> !Impossible(state, side, fc))
            && (r.v.accept ==>
                  && TcpNext(state, side, fc, f.conns[i].finFrom).Some?
                  && var next := TcpNext(state, side, fc, f.conns[i].finFrom).value.0;
                     Tracks(r.f.conns[i], k, next, replied || !out)
                     && DueAfter(f, due, p, now)[i] == now + ConnTimeout(PROTO_TCP, next, replied || !out))
  {
    assert k.Swap().Swap() == k;
    TcpOnFlow(f, p, Wrap32(now), i, fc);
    var side := if out then 0 else 1;
    if Filter(f, p, Wrap32(now)).v.accept {
      var (next, ff) := TcpNext(state, side, fc, f.conns[i].finFrom).value;
      Applied(f, due, p, now, i, side, next, ff);
    }
  }

  /** Before event `n` no live flow has the tuple, and there is room for one. */
  ghost predicate Opening(es: seq<Event>, n: nat, k: Key) {
    && n < |es| && es[n].Packet?
    && forall x: int :: LookAtStart(x) ==>
         !Tracked(Run(es[..n]).conns, k, es[n].now, None) && Room(Run(es[..n]).conns, es[n].now)
  }

  /** A SYN that goes out on a tuple of no live flow opens one, if there is room. */
  lemma SynOpens(es: seq<Event>, ts: seq<nat>, n: nat, k: Key) returns (i: nat)
    requires Going(es, ts, n + 1) && Segment(es[n], k, true, Syn) && k.Swap() != k
    requires Opening(es, n, k)
    ensures LetThrough(es, n) && Connection(es, ts, n + 1, i, k, TCP_SYN_SENT, false, ts[n] + T_SYN)
  {
    assert LookAtPoint(0) && LookAtRun(0) && LookAtSegment(0) && LookAtStart(0);
    var f, p := Run(es[..n]), es[n].p;
    PacketPoint(es, ts, n);
    DueExtends(es, ts, n);
    TcpWithoutFlow(f, p, es[n].now, Syn);
    i := OpenedHere(f, Due(es[..n], ts[..n]), p, ts[n]);
  }

  lemma GoingTo(es: seq<Event>, ts: seq<nat>, m: nat, n: nat)
    requires Going(es, ts, n) && m <= n
    ensures Going(es, ts, m)
  {
    assert LookAtRun(0);
  }

  /** A handshake: an outbound SYN on a tuple of no live flow, while there is room, its answer
      and the acknowledgement, each within a minute of the one before. */
  ghost predicate Handshake(es: seq<Event>, ts: seq<nat>, a: nat, b: nat, c: nat, k: Key) {
    && a < b < c < |es| == |ts| && k.Swap() != k
    && Segment(es[a], k, true, Syn) && Segment(es[b], k, false, SynAck) && Segment(es[c], k, true, Ack)
    && Opening(es, a, k) && QuietOn(es, a + 1, b, k) && QuietOn(es, b + 1, c, k)
    && ts[b] < ts[a] + 60 * TICK_HZ && ts[c] < ts[b] + 60 * TICK_HZ
  }

  /** It is let through, and the connection is established. */
  lemma HandshakePasses(es: seq<Event>, ts: seq<nat>, a: nat, b: nat, c: nat, k: Key) returns (i: nat)
    requires Handshake(es, ts, a, b, c, k) && Going(es, ts, c + 1)
    ensures LetThrough(es, a) && LetThrough(es, b) && LetThrough(es, c)
    ensures Connection(es, ts, c + 1, i, k, TCP_ESTABLISHED, true, ts[c] + 3600 * TICK_HZ)
  {
    GoingTo(es, ts, a + 1, c + 1);
    GoingTo(es, ts, b + 1, c + 1);
    i := SynOpens(es, ts, a, k);
    AnswerPasses(es, ts, a + 1, b, i, k, ts[a] + T_SYN);
    AckPasses(es, ts, b + 1, c, i, k, ts[b] + T_SYN);
  }

  /** The answer to the SYN, in time. */
  lemma AnswerPasses(es: seq<Event>, ts: seq<nat>, m: nat, n: nat, i: nat, k: Key, due: nat)
    requires m <= n && Going(es, ts, n + 1) && Connection(es, ts, m, i, k, TCP_SYN_SENT, false, due)
    requires QuietOn(es, m, n, k) && Segment(es[n], k, false, SynAck) && ts[n] < due
    ensures LetThrough(es, n) && Connection(es, ts, n + 1, i, k, TCP_SYN_RECV, true, ts[n] + T_SYN)
  {
    StaysUntil(es, ts, m, n, i, k, TCP_SYN_SENT, false, due);
    var _ := SegmentOn(es, ts, n, i, k, TCP_SYN_SENT, false, due, false, SynAck);
  }

  /** The acknowledgement of the answer, in time. */
  lemma AckPasses(es: seq<Event>, ts: seq<nat>, m: nat, n: nat, i: nat, k: Key, due: nat)
    requires m <= n && Going(es, ts, n + 1) && Connection(es, ts, m, i, k, TCP_SYN_RECV, true, due)
    requires QuietOn(es, m, n, k) && Segment(es[n], k, true, Ack) && ts[n] < due
    ensures LetThrough(es, n) && Connection(es, ts, n + 1, i, k, TCP_ESTABLISHED, true, ts[n] + T_ESTABLISHED)
  {
    StaysUntil(es, ts, m, n, i, k, TCP_SYN_RECV, true, due);
    var _ := SegmentOn(es, ts, n, i, k, TCP_SYN_RECV, true, due, true, Ack);
  }

  lemma StaysUntil(es: seq<Event>, ts: seq<nat>, m: nat, n: nat, i: nat, k: Key, state: u8, replied: bool, due: nat)
    requires m <= n && Going(es, ts, n + 1) && Connection(es, ts, m, i, k, state, replied, due) && QuietOn(es, m, n, k)
    requires ts[n] < due
    ensures Connection(es, ts, n, i, k, state, replied, due)
  {
    GoingTo(es, ts, n, n + 1);
    if m < n {
      Later(es, ts, n, n - 1, n);
    }
    Stays(es, ts, m, n, i, k, state, replied, due);
  }

  // ---- afterwards ----

  /** The connection has been answered and has time left. */
  ghost predicate Standing(es: seq<Event>, ts: seq<nat>, n: nat, i: nat, k: Key)
    requires |ts| == |es| && n <= |es|
  {
    && i < MAX_CONNS && k.Swap() != k && k.proto == PROTO_TCP
    && forall x: int :: LookAtPoint(x) ==> HoldingAt(es, ts, n, i) && Answering(Run(es[..n]).conns[i], k)
  }

  predicate Answering(c: Conn, k: Key) {
    c.used && c.Tuple() == k && c.replied && TCP_SYN_RECV <= c.state <= TCP_CLOSE
  }

  lemma TouchAnswers(c: Conn, p: Pkt, side: u8, next: u8, ff: u8, now: u32, fc: Fc, k: Key)
    requires Answering(c, k) && c.proto == PROTO_TCP && p.proto == PROTO_TCP && side <= 1
    requires TcpNext(c.state, side, fc, c.finFrom) == Some((next, ff))
    ensures Answering(Touch(c, p, side, next, ff, now), k)
  {
  }

  lemma PacketStands(f: Fw, due: Deadlines, p: Pkt, now: nat, i: nat, k: Key)
    requires Holding(f, due, now, i) && ReadsTrue(f.conns, due, now) && Unique(f.conns, Wrap32(now))
    requires !f.cfg.disabled && Decide(f, p, Wrap32(now)).v.accept
    requires Answering(f.conns[i], k) && k.proto == PROTO_TCP && !Reopens(f, p, i)
    ensures Answering(Filter(f, p, Wrap32(now)).f.conns[i], k) && now < DueAfter(f, due, p, now)[i]
  {
    var t := Wrap32(now);
    GivenToFlow(f, due, p, now, i);
    FilterSlot(f, p, t, i);
    MatchedSlot(f, p, t);
    if OnTuple(p, k) {
      var cls := ClassOf(f, p, t);
      ExistingFacts(f, p, t);
      TouchAnswers(f.conns[i], p, cls.side, cls.next, cls.finFrom, t, TcpClass(p.flags).value, k);
    }
  }

  lemma EventStands(f: Fw, due: Deadlines, e: Event, now: nat, i: nat, k: Key)
    requires Holding(f, due, now, i) && Answering(f.conns[i], k) && k.proto == PROTO_TCP
    requires e.Packet? ==> e.now == Wrap32(now) && ReadsTrue(f.conns, due, now) && Unique(f.conns, Wrap32(now))
    requires e != Admin(FlushConns) && !(Passes(f, e) && Reopens(f, e.p, i))
    ensures Answering(Step(f, e).conns[i], k)
    ensures Holding(Step(f, e), if e.Packet? && e.commit then DueAfter(f, due, e.p, now) else due, now, i)
  {
    if Passes(f, e) {
      PacketStands(f, due, e.p, now, i, k);
    }
  }

  lemma StandsOn(es: seq<Event>, ts: seq<nat>, n: nat, i: nat, k: Key)
    requires Going(es, ts, n + 1) && Standing(es, ts, n, i, k)
    ensures Standing(es, ts, n + 1, i, k) || Ends(es, ts, n, i)
  {
    if !Ends(es, ts, n, i) {
      var f, due := Run(es[..n]), Due(es[..n], ts[..n]);
      NotEnded(es, ts, n, i);
      assert LookAtPoint(0) && LookAtRun(0);
      DueExtends(es, ts, n);
      if es[n].Packet? {
        PacketPoint(es, ts, n);
      }
      EventStands(f, due, es[n], ts[n], i, k);
    }
  }

  lemma NotEnded(es: seq<Event>, ts: seq<nat>, n: nat, i: nat)
    requires |ts| == |es| && n < |es| && i < MAX_CONNS && !Ends(es, ts, n, i)
    ensures ts[n] < Due(es[..n], ts[..n])[i] && es[n] != Admin(FlushConns)
    ensures !(Passes(Run(es[..n]), es[n]) && Reopens(Run(es[..n]), es[n].p, i))
  {
    assert LookAtDue(0);
  }

  /** Event `n` passes, or something from event `m` on has ended the flow in slot `i`. */
  ghost predicate PassesUnlessEnded(es: seq<Event>, ts: seq<nat>, m: nat, n: nat, i: nat)
    requires |ts| == |es| && n < |es| && i < MAX_CONNS
  {
    forall x: int :: LookAtVerdict(x) ==> Accepted(es, n) || exists j: nat :: m <= j <= n && Ends(es, ts, j, i)
  }

  /** From the answer to its SYN on, every acknowledgement of a connection passes, from either
      end, unless its time has run out in between, a SYN has reopened it after it was finished,
      or all flows were flushed. */
  lemma AcknowledgementsPass(es: seq<Event>, ts: seq<nat>, m: nat, n: nat, i: nat, k: Key, out: bool)
    requires m <= n && Going(es, ts, n + 1) && Standing(es, ts, m, i, k) && Segment(es[n], k, out, Ack)
    ensures PassesUnlessEnded(es, ts, m, n, i)
  {
    GoingTo(es, ts, n, n + 1);
    StandsUntil(es, ts, m, n, i, k);
    if Standing(es, ts, n, i, k) {
      var due := Due(es[..n], ts[..n])[i];
      assert LookAtDue(0) && LookAtPoint(0);
      if ts[n] < due {
        var _ := SegmentOn(es, ts, n, i, k, Run(es[..n]).conns[i].state, true, due, out, Ack);
      } else {
        assert Ends(es, ts, n, i);
      }
    }
  }

  lemma StandsUntil(es: seq<Event>, ts: seq<nat>, m: nat, n: nat, i: nat, k: Key)
    requires m <= n && Going(es, ts, n) && Standing(es, ts, m, i, k)
    ensures Standing(es, ts, n, i, k) || exists j: nat :: m <= j < n && Ends(es, ts, j, i)
  {
    var holds := (j: nat) => j <= |es| && Standing(es, ts, j, i, k);
    var ends := (j: nat) => j < |es| && i < MAX_CONNS && Ends(es, ts, j, i);
    forall j: nat | m <= j < n && holds(j) ensures holds(j + 1) || ends(j) {
      GoingTo(es, ts, j + 1, n);
      StandsOn(es, ts, j, i, k);
    }
    FirewallRuns.Stretch(holds, ends, m, n);
    if !holds(n) {
      var j: nat :| m <= j < n && ends(j);
      assert Ends(es, ts, j, i);
    }
  }

  lemma ConnectionStands(es: seq<Event>, ts: seq<nat>, n: nat, i: nat, k: Key, state: u8, due: nat)
    requires |ts| == |es| && n <= |es| && Connection(es, ts, n, i, k, state, true, due)
    requires TCP_SYN_RECV <= state <= TCP_CLOSE && At(ts, n) < due
    ensures Standing(es, ts, n, i, k)
  {
    assert LookAtPoint(0);
  }

  /** So a connection opened from inside can be used: after the handshake every acknowledgement
      of either end passes, unless the flow was idle for its whole lifetime in between, was
      finished and reopened, or was flushed. */
  lemma ConnectionCanBeUsed(es: seq<Event>, ts: seq<nat>, a: nat, b: nat, c: nat, d: nat, k: Key, out: bool) returns (i: nat)
    requires Handshake(es, ts, a, b, c, k) && c < d && Going(es, ts, d + 1) && Segment(es[d], k, out, Ack)
    ensures i < MAX_CONNS && PassesUnlessEnded(es, ts, c + 1, d, i)
  {
    GoingTo(es, ts, c + 1, d + 1);
    i := HandshakePasses(es, ts, a, b, c, k);
    ConnectionStands(es, ts, c + 1, i, k, TCP_ESTABLISHED, ts[c] + 3600 * TICK_HZ);
    AcknowledgementsPass(es, ts, c + 1, d, i, k, out);
  }
}
