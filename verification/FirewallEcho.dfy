/** Echo replies never outnumber echo requests. */
module FirewallEcho {
  import opened Words
  import opened FirewallTypes
  import opened FirewallSpec
  import opened FirewallRuns

  predicate IsRequest(p: Pkt, k: Key) {
    p.proto == PROTO_ICMP && p.icmpType == 8 && KeyOf(p) == k
  }

  predicate IsReply(p: Pkt, k: Key) {
    p.proto == PROTO_ICMP && p.icmpType == 0 && KeyOf(p) == k.Swap()
  }

  /** Accepted requests with tuple `k`: address pair and identifier, as asked. */
  ghost function Requests(es: seq<Event>, k: Key): nat {
    if es == [] then 0
    else Requests(es[..|es| - 1], k)
         + if Accepted(es, |es| - 1) && IsRequest(es[|es| - 1].p, k) then 1 else 0
  }

  /** Accepted replies to requests with tuple `k`. */
  ghost function Replies(es: seq<Event>, k: Key): nat {
    if es == [] then 0
    else Replies(es[..|es| - 1], k)
         + if Accepted(es, |es| - 1) && IsReply(es[|es| - 1].p, k) then 1 else 0
  }

  /** Unanswered requests recorded for `k`, over every slot ever used, expired ones included. */
  function Pending(conns: seq<Conn>, k: Key): nat {
    if conns == [] then 0
    else Pending(conns[..|conns| - 1], k) + Weight(conns[|conns| - 1], k)
  }

  function Weight(c: Conn, k: Key): nat {
    if c.used && c.Tuple() == k then c.pending else 0
  }

  lemma {:induction false} PendingUpdate(conns: seq<Conn>, i: nat, c: Conn, k: Key)
    requires i < |conns|
    ensures Pending(conns[i := c], k) == Pending(conns, k) - Weight(conns[i], k) + Weight(c, k)
    ensures Weight(conns[i], k) <= Pending(conns, k)
  {
    var n := |conns| - 1;
    if i < n {
      PendingUpdate(conns[..n], i, c, k);
      assert conns[i := c][..n] == conns[..n][i := c];
    } else {
      assert conns[i := c][..n] == conns[..n];
    }
  }

  lemma {:induction false} PendingNone(conns: seq<Conn>, k: Key)
    requires forall i :: 0 <= i < |conns| ==> !conns[i].used
    ensures Pending(conns, k) == 0
  {
    if conns != [] {
      PendingNone(conns[..|conns| - 1], k);
    }
  }

  /** One accepted packet moves the recorded requests by at most what it is itself. */
  lemma CommitPending(f: Fw, p: Pkt, now: u32, k: Key)
    requires f.Valid() && k.proto == PROTO_ICMP && p.bad == BAD_NONE
    requires !ClassOf(f, p, now).Invalid?
    ensures Pending(Commit(f.conns, f.expects, p, ClassOf(f, p, now), now).conns, k)
            + (if IsReply(p, k) then 1 else 0)
            <= Pending(f.conns, k) + if IsRequest(p, k) then 1 else 0
  {
    var cls := ClassOf(f, p, now);
    match cls
    case Existing(idx, side, next, ff) =>
      var c := Touch(f.conns[idx], p, side, next, ff, now);
      PendingUpdate(f.conns, idx, c, k);
      if p.proto == PROTO_ICMP {
        assert side == 0 ==> f.conns[idx].Tuple() == KeyOf(p);
        assert side == 1 ==> f.conns[idx].Tuple().Swap() == KeyOf(p);
      }
    case Related(_) =>
    case RelatedNew(_) =>
      if FreeFrom(f.conns, now, 0).Some? {
        PendingUpdate(f.conns, FreeFrom(f.conns, now, 0).value, Started(p, now, true), k);
      }
    case New =>
      if FreeFrom(f.conns, now, 0).Some? {
        PendingUpdate(f.conns, FreeFrom(f.conns, now, 0).value, Started(p, now, false), k);
      }
    case Replace(idx) => PendingUpdate(f.conns, idx, Started(p, now, false), k);
  }

  /** The firewall was never switched off during the run. */
  ghost predicate AlwaysEnabled(es: seq<Event>) {
    forall i: nat :: i <= |es| ==> !Run(es[..i]).cfg.disabled
  }

  lemma AlwaysEnabledPrefix(pre: seq<Event>, e: Event)
    requires AlwaysEnabled(pre + [e])
    ensures AlwaysEnabled(pre) && !Run(pre).cfg.disabled
  {
    var es := pre + [e];
    forall i: nat | i <= |pre| ensures es[..i] == pre[..i] && !Run(pre[..i]).cfg.disabled {}
    assert pre[..|pre|] == pre;
  }

  /** The same for any one event. */
  lemma PendingStep(f: Fw, e: Event, k: Key)
    requires f.Valid() && k.proto == PROTO_ICMP && !f.cfg.disabled
    ensures var accepted := e.Packet? && e.commit && Filter(f, e.p, e.now).v.accept;
            Pending(Step(f, e).conns, k) + (if accepted && IsReply(e.p, k) then 1 else 0)
            <= Pending(f.conns, k) + if accepted && IsRequest(e.p, k) then 1 else 0
  {
    match e
    case Packet(p, now, commit) =>
      if commit && Decide(f, p, now).v.accept {
        CommitPending(f, p, now, k);
      }
    case Admin(op) =>
      if op.FlushConns? {
        PendingNone(Step(f, e).conns, k);
      }
  }

  lemma {:induction false} PendingBound(es: seq<Event>, k: Key)
    requires k.proto == PROTO_ICMP && AlwaysEnabled(es)
    ensures Pending(Run(es).conns, k) + Replies(es, k) <= Requests(es, k)
  {
    if es == [] {
      PendingNone(Run(es).conns, k);
    } else {
      var pre, e := es[..|es| - 1], es[|es| - 1];
      assert es == pre + [e];
      AlwaysEnabledPrefix(pre, e);
      PendingBound(pre, k);
      RunExtends(pre, e);
      PendingStep(Run(pre), e, k);
    }
  }

  /** For every ordered pair of addresses and every echo identifier, in every run during
      which the firewall stays enabled -- whatever the rules, the clock, the table's
      reuse of slots, flushes and rule changes -- no more replies are accepted than
      requests were. */
  lemma RepliesNeverOutnumberRequests(es: seq<Event>, asker: u32, target: u32, id: u16)
    requires AlwaysEnabled(es)
    ensures var k := Key(PROTO_ICMP, asker, id, target, id);
            Replies(es, k) <= Requests(es, k)
  {
    PendingBound(es, Key(PROTO_ICMP, asker, id, target, id));
  }
}
