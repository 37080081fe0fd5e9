/** Connections under the baseline: the history of a live flow is all that passed on its tuple,
    a handshake gets through, and an established connection goes on. */
module FirewallConnections {
  import opened Words
  import opened FirewallTypes
  import opened FirewallSpec
  import opened FirewallRuns
  import opened FirewallDryRun
  import opened FirewallFlows
  import opened FirewallSolicited
  import opened FirewallClock
  import opened FirewallLives
  import opened FirewallAccepts
  import opened FirewallHistory

  /** A packet of the flow `k`, from either end. */
  predicate OnTuple(p: Pkt, k: Key) {
    KeyOf(p) == k || KeyOf(p) == k.Swap()
  }

  /** The firewall, enabled, lets the packet through. */
  ghost predicate Passes(f: Fw, e: Event)
    requires f.Valid()
  {
    e.Packet? && e.commit && !f.cfg.disabled && Decide(f, e.p, e.now).v.accept
  }

  /** All that passed on the tuple `k` from event `s` on, in order. */
  ghost function Passed(es: seq<Event>, s: nat, k: Key): seq<Heard> {
    if |es| <= s then []
    else
      var n := |es| - 1;
      Passed(es[..n], s, k)
      + if Passes(Run(es[..n]), es[n]) && OnTuple(es[n].p, k)
        then [Heard(if KeyOf(es[n].p) == k then 0 else 1, es[n].p, es[n].now)] else []
  }

  // ---- one packet and one live slot ----

  /** The slot holds a live TCP or UDP flow. */
  ghost predicate Holding(f: Fw, due: Deadlines, now: nat, i: nat) {
    && f.Valid() && |due| == MAX_CONNS && i < MAX_CONNS && f.conns[i].used && f.conns[i].proto != PROTO_ICMP
    && now < due[i]
  }

  /** Packets on its tuple are given to it; others leave it alone. */
  lemma GivenToFlow(f: Fw, due: Deadlines, p: Pkt, now: nat, i: nat)
    requires Holding(f, due, now, i) && ReadsTrue(f.conns, due, now) && Unique(f.conns, Wrap32(now))
    requires !f.cfg.disabled && Decide(f, p, Wrap32(now)).v.accept
    ensures var cls, k := ClassOf(f, p, Wrap32(now)), f.conns[i].Tuple();
            if OnTuple(p, k)
            then (cls.Existing? && cls.idx == i && cls.side == if KeyOf(p) == k then 0 else 1) || cls == Replace(i)
            else !(cls.Existing? && cls.idx == i) && cls != Replace(i)
    ensures FreeFrom(f.conns, Wrap32(now), 0) != Some(i)
  {
    var t, k := Wrap32(now), f.conns[i].Tuple();
    MatchedSlot(f, p, t);
    if OnTuple(p, k) {
      assert k.Swap().Swap() == k;
      assert Hit(f.conns[i], KeyOf(p), t, None);
      OnlyHit(f.conns, KeyOf(p), t, None, i);
    } else {
      assert SideOf(f.conns[i], KeyOf(p)).None?;
    }
  }

  // ---- the story of a live flow is complete ----

  /** Event `s` was let through. */
  ghost predicate PassedAt(es: seq<Event>, s: nat) {
    s < |es| && es[s].Packet? && forall k: int :: LookAtKnown(k) ==> Passes(Run(es[..s]), es[s])
  }

  /** The story of slot `i` after `n` events began with event `s` and is all that passed on
      that event's tuple since. */
  ghost predicate Complete(es: seq<Event>, n: nat, i: nat, s: nat)
    requires n <= |es|
  {
    && s < n && PassedAt(es, s) && StoryOf(es[..n], i).Some?
    && var st := StoryOf(es[..n], i).value;
       st.first == es[s].p && st.at == es[s].now && st.rest == Passed(es[..n], s + 1, KeyOf(es[s].p))
  }

  lemma PassedNext(es: seq<Event>, n: nat, s: nat, k: Key)
    requires n < |es|
    ensures s <= n ==> Passed(es[..n + 1], s, k)
                       == Passed(es[..n], s, k)
                          + if Passes(Run(es[..n]), es[n]) && OnTuple(es[n].p, k)
                            then [Heard(if KeyOf(es[n].p) == k then 0 else 1, es[n].p, es[n].now)] else []
    ensures Passed(es[..n + 1], n + 1, k) == []
  {
    assert es[..n + 1][..n] == es[..n];
  }

  lemma StoryNext(es: seq<Event>, n: nat, i: nat)
    requires n < |es|
    ensures StoryOf(es[..n + 1], i) == StoryAfter(Run(es[..n]), StoryOf(es[..n], i), es[n], i)
  {
    assert es[..n + 1][..n] == es[..n];
  }

  /** An event that leaves the slot alone. */
  lemma CompleteSame(es: seq<Event>, n: nat, i: nat, s: nat)
    requires n < |es| && Complete(es, n, i, s) && StoryOf(es[..n + 1], i) == StoryOf(es[..n], i)
    requires !(Passes(Run(es[..n]), es[n]) && OnTuple(es[n].p, KeyOf(es[s].p)))
    ensures Complete(es, n + 1, i, s)
  {
    PassedNext(es, n, s + 1, KeyOf(es[s].p));
    assert Passed(es[..n], s + 1, KeyOf(es[s].p)) + [] == Passed(es[..n], s + 1, KeyOf(es[s].p));
  }

  lemma CompleteStart(es: seq<Event>, n: nat, i: nat, related: bool)
    requires n < |es| && Passes(Run(es[..n]), es[n]) && StoryOf(es[..n + 1], i) == Some(Story(es[n].p, es[n].now, related, []))
    ensures Complete(es, n + 1, i, n)
  {
    PassedNext(es, n, n, KeyOf(es[n].p));
  }

  lemma CompleteMore(es: seq<Event>, n: nat, i: nat, s: nat, st: Story, x: Heard)
    requires n < |es| && Complete(es, n, i, s) && StoryOf(es[..n], i) == Some(st)
    requires Passed(es[..n + 1], s + 1, KeyOf(es[s].p)) == Passed(es[..n], s + 1, KeyOf(es[s].p)) + [x]
    requires StoryOf(es[..n + 1], i) == Some(st.(rest := st.rest + [x]))
    ensures Complete(es, n + 1, i, s)
  {
  }

  ghost predicate HoldingAt(es: seq<Event>, ts: seq<nat>, n: nat, i: nat)
    requires |ts| == |es| && n <= |es|
  {
    Holding(Run(es[..n]), Due(es[..n], ts[..n]), At(ts, n), i)
  }

  /** A packet that passes while the slot holds a live flow. */
  lemma CompletePacket(es: seq<Event>, ts: seq<nat>, n: nat, i: nat, s: nat)
    requires Clocked(es, ts) && n < |es| && Honest(es, ts, n + 1) && Passes(Run(es[..n]), es[n])
    requires Complete(es, n, i, s) && Holding(Run(es[..n]), Due(es[..n], ts[..n]), ts[n], i)
    ensures Complete(es, n + 1, i, s) || Complete(es, n + 1, i, n)
  {
    var k := KeyOf(es[s].p);
    TupleOfStory(es, n, i, s);
    var st := StoryOf(es[..n], i).value;
    var x := Heard(if KeyOf(es[n].p) == k then 0 else 1, es[n].p, es[n].now);
    var kept := SlotStory(es, ts, n, i, k, st, x);
    if !OnTuple(es[n].p, k) {
      CompleteSame(es, n, i, s);
    } else if kept {
      PassedNext(es, n, s + 1, k);
      CompleteMore(es, n, i, s, st, x);
    } else {
      CompleteStart(es, n, i, false);
    }
  }

  lemma TupleOfStory(es: seq<Event>, n: nat, i: nat, s: nat)
    requires n <= |es| && i < MAX_CONNS && Complete(es, n, i, s) && Run(es[..n]).conns[i].used
    ensures Run(es[..n]).conns[i].Tuple() == KeyOf(es[s].p)
  {
    FlowIsItsHistory(es[..n], i);
  }

  /** What such a packet does to the story: nothing, or it is told as the next, or it starts a new
      one. */
  lemma SlotStory(es: seq<Event>, ts: seq<nat>, n: nat, i: nat, k: Key, st: Story, x: Heard) returns (kept: bool)
    requires Clocked(es, ts) && n < |es| && Honest(es, ts, n + 1) && Passes(Run(es[..n]), es[n])
    requires Holding(Run(es[..n]), Due(es[..n], ts[..n]), ts[n], i) && k == Run(es[..n]).conns[i].Tuple()
    requires StoryOf(es[..n], i) == Some(st) && x == Heard(if KeyOf(es[n].p) == k then 0 else 1, es[n].p, es[n].now)
    ensures StoryOf(es[..n + 1], i)
            == if !OnTuple(es[n].p, k) then Some(st)
               else if kept then Some(st.(rest := st.rest + [x])) else Some(Story(es[n].p, es[n].now, false, []))
  {
    StoryNext(es, n, i);
    PacketReadsTrue(es, ts, n);
    PointIsUnique(es, ts, n);
    GivenToFlow(Run(es[..n]), Due(es[..n], ts[..n]), es[n].p, ts[n], i);
    kept := ClassOf(Run(es[..n]), es[n].p, es[n].now).Existing?;
  }

  /** A slot that holds a live flow after a packet and did not before was given to it. */
  lemma FreshSlot(f: Fw, due: Deadlines, p: Pkt, now: nat, i: nat, st: Option<Story>)
    requires f.Valid() && |due| == MAX_CONNS && ReadsTrue(f.conns, due, now) && i < MAX_CONNS
    requires !f.cfg.disabled && Decide(f, p, Wrap32(now)).v.accept && !Holding(f, due, now, i)
    requires Holding(Filter(f, p, Wrap32(now)).f, DueAfter(f, due, p, now), now, i)
    ensures Told(f, st, p, Wrap32(now), i) == Some(Story(p, Wrap32(now), ClassOf(f, p, Wrap32(now)).RelatedNew?, []))
  {
    WrittenSlot(f, p, Wrap32(now));
    MatchedSlot(f, p, Wrap32(now));
    FilterSlot(f, p, Wrap32(now), i);
  }

  lemma CompleteFresh(es: seq<Event>, ts: seq<nat>, n: nat, i: nat)
    requires Clocked(es, ts) && n < |es| && Honest(es, ts, n + 1) && i < MAX_CONNS
    requires HoldingAt(es, ts, n + 1, i) && !Holding(Run(es[..n]), Due(es[..n], ts[..n]), ts[n], i)
    ensures Complete(es, n + 1, i, n)
  {
    var f, due := Run(es[..n]), Due(es[..n], ts[..n]);
    DueExtends(es, ts, n);
    OnlyPackets(f, es[n], due, ts[n], i);
    StoryNext(es, n, i);
    PacketReadsTrue(es, ts, n);
    FreshSlot(f, due, es[n].p, ts[n], i, StoryOf(es[..n], i));
    CompleteStart(es, n, i, ClassOf(f, es[n].p, es[n].now).RelatedNew?);
  }

  /** Only a packet that passes makes a slot hold a live flow. */
  lemma OnlyPackets(f: Fw, e: Event, due: Deadlines, now: nat, i: nat)
    requires f.Valid() && |due| == MAX_CONNS && i < MAX_CONNS && (e.Packet? ==> e.now == Wrap32(now))
    requires !Holding(f, due, now, i)
    requires Holding(Step(f, e), if e.Packet? && e.commit then DueAfter(f, due, e.p, now) else due, now, i)
    ensures Passes(f, e)
  {
  }

  /** An event that is no packet that passes leaves a slot that goes on holding a flow alone. */
  lemma CompleteOther(es: seq<Event>, ts: seq<nat>, n: nat, i: nat, s: nat)
    requires Clocked(es, ts) && n < |es| && !Passes(Run(es[..n]), es[n])
    requires Complete(es, n, i, s) && HoldingAt(es, ts, n + 1, i)
    ensures Complete(es, n + 1, i, s)
  {
    DueExtends(es, ts, n);
    assert es[n] != Admin(FlushConns);
    StoryNext(es, n, i);
    CompleteSame(es, n, i, s);
  }

  lemma NothingHeld(es: seq<Event>, ts: seq<nat>, i: nat)
    requires |ts| == |es|
    ensures !HoldingAt(es, ts, 0, i)
  {
    assert es[..0] == [];
  }

  lemma HeldBefore(es: seq<Event>, ts: seq<nat>, n: nat, i: nat)
    requires Clocked(es, ts) && n < |es| && Holding(Run(es[..n]), Due(es[..n], ts[..n]), ts[n], i)
    ensures HoldingAt(es, ts, n, i)
  {
    DueExtends(es, ts, n);
  }

  /** In every run at whose packets each slot that has run out looks so, the story of a live TCP
      or UDP flow is all that passed on its tuple since the packet that started it. So its state
      is decided by what was let through. */
  lemma {:induction false} StoryIsComplete(es: seq<Event>, ts: seq<nat>, n: nat, i: nat)
    requires Clocked(es, ts) && n <= |es| && Honest(es, ts, n) && i < MAX_CONNS && HoldingAt(es, ts, n, i)
    ensures exists s: nat :: Complete(es, n, i, s)
    decreases n
  {
    NothingHeld(es, ts, i);
    if n > 0 {
      var m := n - 1;
      if Holding(Run(es[..m]), Due(es[..m], ts[..m]), ts[m], i) {
        HeldBefore(es, ts, m, i);
        StoryIsComplete(es, ts, m, i);
        var s: nat :| Complete(es, m, i, s);
        if Passes(Run(es[..m]), es[m]) {
          CompletePacket(es, ts, m, i, s);
        } else {
          CompleteOther(es, ts, m, i, s);
        }
      } else {
        CompleteFresh(es, ts, m, i);
      }
    }
  }

  /** The state of a live connection is what the segments that passed since its SYN lead to. */
  lemma StateIsDecided(es: seq<Event>, ts: seq<nat>, n: nat, i: nat)
    requires Clocked(es, ts) && n <= |es| && Honest(es, ts, n) && i < MAX_CONNS && HoldingAt(es, ts, n, i)
    requires Run(es[..n]).conns[i].proto == PROTO_TCP
    ensures exists s: nat :: OpenedBy(es, n, i, s)
  {
    StoryIsComplete(es, ts, n, i);
    FlowIsItsHistory(es[..n], i);
    var s: nat :| Complete(es, n, i, s);
    assert LookAtKnown(0);
    assert OpenedBy(es, n, i, s);
  }

  /** Event `s` let through the SYN of the connection in slot `i`. */
  ghost predicate OpenedBy(es: seq<Event>, n: nat, i: nat, s: nat)
    requires n <= |es| && i < MAX_CONNS
  {
    var c := Run(es[..n]).conns[i];
    && s < n && Passes(Run(es[..s]), es[s]) && TcpClass(es[s].p.flags) == Some(Syn) && KeyOf(es[s].p) == c.Tuple()
    && TcpState(Passed(es[..n], s + 1, c.Tuple()), c.state, c.finFrom)
  }
}
