/** A dry run against the real thing. */
module FirewallDryRun {
  import opened Words
  import opened FirewallTypes
  import opened FirewallSpec
  import opened FirewallRuns

  /** The state numbers a tracked flow can carry; only an echo flow has requests pending. */
  predicate StateSound(c: Conn) {
    c.used ==>
      || (c.proto == PROTO_TCP && TCP_SYN_SENT <= c.state <= TCP_CLOSE && c.pending == 0)
      || (c.proto == PROTO_UDP && (c.state == UDP_REPLIED || (c.state == UDP_UNREPLIED && !c.replied)) && c.pending == 0)
      || (c.proto == PROTO_ICMP && c.state == ICMP_ECHO)
  }

  predicate AllSound(conns: seq<Conn>) {
    forall i :: 0 <= i < |conns| ==> StateSound(conns[i])
  }

  lemma TouchSound(f: Fw, p: Pkt, now: u32)
    requires f.Valid() && AllSound(f.conns) && ClassOf(f, p, now).Existing?
    ensures var cls := ClassOf(f, p, now);
            StateSound(Touch(f.conns[cls.idx], p, cls.side, cls.next, cls.finFrom, now))
  {
    var cls := ClassOf(f, p, now);
    assert f.conns[cls.idx].used && f.conns[cls.idx].proto == p.proto;
  }

  lemma CommitSound(f: Fw, p: Pkt, now: u32)
    requires f.Valid() && AllSound(f.conns)
    ensures AllSound(Commit(f.conns, f.expects, p, ClassOf(f, p, now), now).conns)
  {
    var cls := ClassOf(f, p, now);
    if cls.Existing? {
      TouchSound(f, p, now);
    } else {
      assert cls.RelatedNew? ==> p.proto == PROTO_UDP;
      assert cls.New? || cls.Replace? ==> p.proto == PROTO_TCP || p.proto == PROTO_UDP || p.proto == PROTO_ICMP;
    }
  }

  /** In every run every tracked flow carries a state number of its own protocol, and only echo
      flows have requests pending. */
  lemma {:induction false} RunSound(es: seq<Event>)
    ensures AllSound(Run(es).conns)
  {
    if es != [] {
      var pre, e := es[..|es| - 1], es[|es| - 1];
      assert es == pre + [e];
      RunSound(pre);
      RunExtends(pre, e);
      if e.Packet? {
        CommitSound(Run(pre), e.p, e.now);
      }
    }
  }

  /** The packets on which the forecast of the flow's state is wrong: an ICMP error about a
      flow, the first packet of an expected flow, and a further datagram from the side that
      opened a UDP flow nobody has answered yet. */
  predicate ForecastMisses(f: Fw, p: Pkt, now: u32)
    requires f.Valid()
  {
    match ClassOf(f, p, now)
    case Related(_) => true
    case RelatedNew(_) => true
    case Existing(idx, side, _, _) =>
      p.proto == PROTO_UDP && side == 0 && f.conns[idx].state == UDP_UNREPLIED
    case _ => false
  }

  lemma CommitForecast(f: Fw, p: Pkt, now: u32)
    requires f.Valid() && AllSound(f.conns)
    requires var cls := ClassOf(f, p, now);
             !cls.Invalid? && (cls.New? || cls.RelatedNew? ==> FreeFrom(f.conns, now, 0).Some?)
    ensures Commit(f.conns, f.expects, p, ClassOf(f, p, now), now).ctState == Forecast(p, ClassOf(f, p, now))
            <==> !ForecastMisses(f, p, now)
  {
    var cls := ClassOf(f, p, now);
    if cls.Existing? || cls.Related? {
      assert f.conns[cls.idx].used;
    }
  }

  lemma AdmittedHasRoom(f: Fw, p: Pkt, now: u32)
    requires f.Valid() && Decide(f, p, now).v.accept
    ensures var cls := ClassOf(f, p, now);
            !cls.Invalid? && (cls.New? || cls.RelatedNew? ==> FreeFrom(f.conns, now, 0).Some?)
  {
  }

  /** For every reachable state and every packet, a dry run and a committing run agree on
      the verdict, the packet's state, the rule, the reason and the detail; and on the
      flow's state exactly when the packet is not one of those the forecast misses -- so
      for every TCP packet. A packet that is dropped moves no flow and no expectation. */
  lemma DryRunAgrees(es: seq<Event>, p: Pkt, now: u32)
    ensures var f := Run(es);
            var dry, wet := DryRun(f, p, now), Filter(f, p, now);
            && dry == wet.v.(ctState := dry.ctState, log := false)
            && (!wet.v.accept ==> wet.f.conns == f.conns && wet.f.expects == f.expects && dry.ctState == 0)
            && (wet.v.accept && !f.cfg.disabled ==>
                  (dry.ctState == wet.v.ctState <==> !ForecastMisses(f, p, now)))
            && (p.proto == PROTO_TCP ==> !ForecastMisses(f, p, now))
  {
    RunSound(es);
    var f := Run(es);
    if !f.cfg.disabled && Decide(f, p, now).v.accept {
      AdmittedHasRoom(f, p, now);
      CommitForecast(f, p, now);
    }
  }

  /** The report is not always the state the flow would be in: the second datagram of an
      unanswered UDP flow is forecast as UDP_REPLIED and leaves the flow UDP_UNREPLIED. */
  lemma ForecastCanBeWrong()
    ensures exists es, p, now ::
              DryRun(Run(es), p, now).ctState == UDP_REPLIED
              && Filter(Run(es), p, now).v.ctState == UDP_UNREPLIED
  {
    var p := Pkt(DIR_OUT, PROTO_UDP, 1, 2, 5000, 53, 0, 0, 0, 0, 8, BAD_NONE, None);
    var e := Packet(p, 0, true);
    var f := Run([]);
    assert ClassOf(f, p, 0) == New;
    assert !f.cfg.rules[0].Matches(p, ST_NEW);
    assert Decide(f, p, 0).v.accept;
    RunExtends([], e);
    assert [] + [e] == [e];
    var g := Run([e]);
    var c := Started(p, 0, false);
    assert g.conns == f.conns[0 := c];
    assert Hit(c, KeyOf(p), 0, None);
    assert ClassOf(g, p, 0) == Existing(0, 0, UDP_REPLIED, 0);
    assert Decide(g, p, 0).v.accept;
    assert DryRun(Run([e]), p, 0).ctState == UDP_REPLIED;
    assert Filter(Run([e]), p, 0).v.ctState == UDP_UNREPLIED;
  }
}
