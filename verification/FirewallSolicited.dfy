/** Nothing unsolicited gets in: under the baseline configuration every accepted inbound
    packet answers something that was accepted outbound earlier in the run. */
module FirewallSolicited {
  import opened Words
  import opened FirewallTypes
  import opened FirewallSpec
  import opened FirewallRuns

  /** Some earlier accepted outbound packet has tuple `k`, up to swapping its ends. */
  ghost predicate Opened(es: seq<Event>, k: Key) {
    exists i: nat :: Accepted(es, i) && es[i].p.dir != DIR_IN && SameFlow(KeyOf(es[i].p), k)
  }

  predicate SameFlow(j: Key, k: Key) {
    j == k || j.Swap() == k
  }

  /** Some earlier accepted outbound TFTP request came from this local end to this server. */
  ghost predicate Asked(es: seq<Event>, remote: u32, local: u32, port: u16) {
    exists i: nat :: Accepted(es, i) && TftpRequest(es[i].p)
                     && es[i].p.dst == remote && es[i].p.src == local && es[i].p.sport == port
  }

  /** `k` is the tuple of a UDP flow a TFTP server opens towards the port that asked it. */
  ghost predicate Expected(es: seq<Event>, k: Key) {
    k.proto == PROTO_UDP && Asked(es, k.src, k.dst, k.dport)
  }

  ghost predicate Solicited(es: seq<Event>, k: Key) {
    Opened(es, k) || Expected(es, k) || Expected(es, k.Swap())
  }

  /** A packet is solicited by its own tuple, or, if it is an ICMP error, by the one it quotes. */
  ghost predicate PacketSolicited(es: seq<Event>, p: Pkt) {
    || Solicited(es, KeyOf(p))
    || (p.proto == PROTO_ICMP && IsIcmpError(p.icmpType) && p.inner.Some? && Solicited(es, p.inner.value))
  }

  predicate IsBaseline(cfg: Config) {
    && !cfg.disabled && !cfg.policyIn && cfg.policyOut
    && cfg.nrules == 1 && |cfg.rules| > 0 && cfg.rules[0] == BASELINE_RULE
  }

  /** No event changes rules, policies or the enable flag: administration is limited to
      locking and flushing flows until the lock is set, and unlimited afterwards. */
  ghost predicate ConfigUntouched(es: seq<Event>) {
    forall i: nat :: i < |es| && es[i].Admin? ==>
      es[i].op.Lock? || es[i].op.FlushConns? || Run(es[..i]).cfg.locked
  }

  ghost predicate Traced(es: seq<Event>, f: Fw) {
    && (forall i :: 0 <= i < |f.conns| && f.conns[i].used ==> Solicited(es, f.conns[i].Tuple()))
    && (forall i :: 0 <= i < |f.expects| && f.expects[i].used ==>
          Asked(es, f.expects[i].remoteIp, f.expects[i].localIp, f.expects[i].localPort))
  }

  lemma SolicitedSwap(es: seq<Event>, k: Key)
    ensures Solicited(es, k) == Solicited(es, k.Swap())
  {
    assert k.Swap().Swap() == k;
    forall i: nat | Accepted(es, i) ensures SameFlow(KeyOf(es[i].p), k) == SameFlow(KeyOf(es[i].p), k.Swap()) {
    }
  }

  lemma SolicitedGrows(pre: seq<Event>, e: Event, k: Key)
    requires Solicited(pre, k)
    ensures Solicited(pre + [e], k)
  {
    RunExtends(pre, e);
    if Opened(pre, k) {
      var i: nat :| Accepted(pre, i) && pre[i].p.dir != DIR_IN && SameFlow(KeyOf(pre[i].p), k);
      assert Accepted(pre + [e], i);
    } else if Expected(pre, k) {
      AskedGrows(pre, e, k.src, k.dst, k.dport);
    } else {
      AskedGrows(pre, e, k.dst, k.src, k.sport);
    }
  }

  lemma AskedGrows(pre: seq<Event>, e: Event, remote: u32, local: u32, port: u16)
    requires Asked(pre, remote, local, port)
    ensures Asked(pre + [e], remote, local, port)
  {
    RunExtends(pre, e);
    var i: nat :| Accepted(pre, i) && TftpRequest(pre[i].p)
                  && pre[i].p.dst == remote && pre[i].p.src == local && pre[i].p.sport == port;
    assert Accepted(pre + [e], i);
  }

  lemma TracedGrows(pre: seq<Event>, e: Event, f: Fw)
    requires Traced(pre, f)
    ensures Traced(pre + [e], f)
  {
    forall i | 0 <= i < |f.conns| && f.conns[i].used ensures Solicited(pre + [e], f.conns[i].Tuple()) {
      SolicitedGrows(pre, e, f.conns[i].Tuple());
    }
    forall i | 0 <= i < |f.expects| && f.expects[i].used
      ensures Asked(pre + [e], f.expects[i].remoteIp, f.expects[i].localIp, f.expects[i].localPort)
    {
      AskedGrows(pre, e, f.expects[i].remoteIp, f.expects[i].localIp, f.expects[i].localPort);
    }
  }

  /** Under the baseline an inbound packet is accepted only as established or related. */
  lemma BaselineDecision(f: Fw, p: Pkt, now: u32)
    requires f.Valid() && IsBaseline(f.cfg) && p.dir == DIR_IN && Decide(f, p, now).v.accept
    ensures var cls := ClassOf(f, p, now);
            cls.Existing? || cls.Related? || cls.RelatedNew?
  {
    assert And8(ST_ESTABLISHED + ST_RELATED, ST_NEW) == 0;
    assert !f.cfg.rules[0].Matches(p, ST_NEW);
  }

  /** What the packet was matched against: a flow it belongs to, or an expectation. */
  lemma ClassMatches(f: Fw, p: Pkt, now: u32)
    requires f.Valid()
    ensures var cls := ClassOf(f, p, now);
            && (cls.Existing? || cls.Replace? ==>
                  f.conns[cls.idx].used && SameFlow(f.conns[cls.idx].Tuple(), KeyOf(p)))
            && (cls.Related? ==>
                  && p.proto == PROTO_ICMP && IsIcmpError(p.icmpType) && p.inner.Some?
                  && f.conns[cls.idx].used && SameFlow(f.conns[cls.idx].Tuple(), p.inner.value))
            && (cls.RelatedNew? ==>
                  p.proto == PROTO_UDP && p.dir == DIR_IN && Expects(f.expects[cls.ex], p, now))
  {
  }

  lemma AcceptedIsSolicited(pre: seq<Event>, f: Fw, p: Pkt, now: u32)
    requires f.Valid() && IsBaseline(f.cfg) && Traced(pre, f)
    requires p.dir == DIR_IN && Filter(f, p, now).v.accept
    ensures PacketSolicited(pre, p)
  {
    BaselineDecision(f, p, now);
    ClassMatches(f, p, now);
    var cls := ClassOf(f, p, now);
    if cls.Existing? {
      SolicitedSwap(pre, f.conns[cls.idx].Tuple());
    } else if cls.Related? {
      SolicitedSwap(pre, f.conns[cls.idx].Tuple());
    } else {
      assert Expected(pre, KeyOf(p));
    }
  }

  /** A flow that a packet starts, or carries on, is traced once the packet is in the history. */
  lemma StartedIsSolicited(pre: seq<Event>, p: Pkt, now: u32)
    requires var e := Packet(p, now, true); Accepted(pre + [e], |pre|)
    requires p.dir != DIR_IN || PacketSolicited(pre, p)
    requires p.proto != PROTO_ICMP || p.dir != DIR_IN
    ensures Solicited(pre + [Packet(p, now, true)], KeyOf(p))
  {
    var e := Packet(p, now, true);
    var es := pre + [e];
    if p.dir != DIR_IN {
      assert es[|pre|].p == p;
      assert Opened(es, KeyOf(p));
    } else {
      SolicitedGrows(pre, e, KeyOf(p));
    }
  }

  lemma OutcomeTraced(es: seq<Event>, f: Fw, p: Pkt, cls: Cls<nat>, now: u32)
    requires f.Valid() && Traced(es, f) && InTable(cls, f.conns, f.expects)
    requires cls.New? || cls.Replace? || cls.RelatedNew? ==> Solicited(es, KeyOf(p))
    requires TftpRequest(p) ==> Asked(es, p.dst, p.src, p.sport)
    ensures var o := Commit(f.conns, f.expects, p, cls, now);
            Traced(es, f.(conns := o.conns, expects := o.expects))
  {
  }

  lemma CommitTraced(pre: seq<Event>, f: Fw, p: Pkt, now: u32)
    requires f == Run(pre) && IsBaseline(f.cfg) && Traced(pre, f)
    ensures Traced(pre + [Packet(p, now, true)], Filter(f, p, now).f)
  {
    var e := Packet(p, now, true);
    var es := pre + [e];
    TracedGrows(pre, e, f);
    RunExtends(pre, e);
    var cls := ClassOf(f, p, now);
    if Decide(f, p, now).v.accept {
      ClassMatches(f, p, now);
      if p.dir == DIR_IN {
        BaselineDecision(f, p, now);
        AcceptedIsSolicited(pre, f, p, now);
      }
      if cls.New? || cls.Replace? || cls.RelatedNew? {
        StartedIsSolicited(pre, p, now);
      }
      if TftpRequest(p) {
        assert Asked(es, p.dst, p.src, p.sport) by { assert es[|pre|].p == p; }
      }
      OutcomeTraced(es, f, p, cls, now);
    }
  }

  lemma {:induction false} RunTraced(es: seq<Event>)
    requires ConfigUntouched(es)
    ensures IsBaseline(Run(es).cfg) && Traced(es, Run(es))
  {
    if es != [] {
      var pre, e := es[..|es| - 1], es[|es| - 1];
      assert es == pre + [e];
      assert ConfigUntouched(pre) by {
        forall i: nat | i < |pre| ensures es[..i] == pre[..i] {}
      }
      RunTraced(pre);
      RunExtends(pre, e);
      TracedGrows(pre, e, Run(pre));
      match e
      case Packet(p, now, commit) => if commit { CommitTraced(pre, Run(pre), p, now); }
      case Admin(op) => assert es[..|pre|] == pre;
    }
  }

  /** In every run from boot in which nobody changes the configuration, every inbound
      packet that is accepted answers an earlier accepted outbound packet: it has that
      packet's tuple up to swapping ends, or quotes it in an ICMP error, or is on the flow
      a TFTP server opens towards a port that sent it a request. No assumption on time. */
  lemma NothingUnsolicitedGetsIn(es: seq<Event>, i: nat)
    requires ConfigUntouched(es)
    requires Accepted(es, i) && es[i].p.dir == DIR_IN
    ensures PacketSolicited(es[..i], es[i].p)
  {
    var pre := es[..i];
    assert ConfigUntouched(pre) by {
      forall j: nat | j < |pre| ensures es[..j] == pre[..j] {}
    }
    RunTraced(pre);
    AcceptedIsSolicited(pre, Run(pre), es[i].p, es[i].now);
  }
}
