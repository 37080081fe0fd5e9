/** What a tracked TCP flow's state says about the packets that were let through. */
module FirewallTcp {
  import opened Words
  import opened FirewallTypes
  import opened FirewallSpec
  import opened FirewallRuns

  /** An accepted TCP segment: its tuple and its flag class. */
  datatype Mark = NoSegment | Segment(k: Key, fc: Fc)

  ghost function MarkOf(es: seq<Event>, i: nat): Mark {
    if Accepted(es, i) && es[i].p.proto == PROTO_TCP && TcpClass(es[i].p.flags).Some?
    then Segment(KeyOf(es[i].p), TcpClass(es[i].p.flags).value)
    else NoSegment
  }

  /** The accepted TCP segments of a run, at their positions in it. */
  ghost function Segments(es: seq<Event>): (log: seq<Mark>)
    ensures |log| == |es|
  {
    seq(|es|, i requires i >= 0 => MarkOf(es, i))
  }

  predicate SentBy(log: seq<Mark>, i: nat, k: Key, side: u8) {
    i < |log| && log[i].Segment? && log[i].k == (if side == 0 then k else k.Swap())
  }

  predicate Sent(log: seq<Mark>, i: nat, k: Key, side: u8, fc: Fc) {
    SentBy(log, i, k, side) && log[i].fc == fc
  }

  /** Positions of the segments that brought a flow to its state: the SYN that started it,
      the responder's first word, the first FIN, the other end's FIN, the last ACK. */
  datatype Trail = Trail(syn: nat, answer: nat, fin: nat, otherFin: nat, lastAck: nat)

  predicate Backed(log: seq<Mark>, k: Key, t: Trail, state: u8, finFrom: u8) {
    && Sent(log, t.syn, k, 0, Syn)
    && TCP_SYN_SENT <= state <= TCP_CLOSE && finFrom <= 1
    && (TCP_SYN_RECV <= state <= TCP_TIME_WAIT ==> t.syn < t.answer && SentBy(log, t.answer, k, 1))
    && (TCP_FIN_WAIT <= state <= TCP_TIME_WAIT ==> t.syn < t.fin && Sent(log, t.fin, k, finFrom, FinAck))
    && (TCP_LAST_ACK <= state <= TCP_TIME_WAIT ==> t.fin < t.otherFin && Sent(log, t.otherFin, k, 1 - finFrom, FinAck))
    && (state == TCP_TIME_WAIT ==> t.otherFin < t.lastAck && Sent(log, t.lastAck, k, finFrom, Ack))
  }

  ghost predicate Justified(log: seq<Mark>, c: Conn) {
    c.used && c.proto == PROTO_TCP ==> exists t: Trail :: Backed(log, c.Tuple(), t, c.state, c.finFrom)
  }

  ghost predicate AllJustified(log: seq<Mark>, conns: seq<Conn>) {
    forall i :: 0 <= i < |conns| ==> Justified(log, conns[i])
  }

  lemma SegmentsExtend(pre: seq<Event>, e: Event)
    ensures Segments(pre + [e]) == Segments(pre) + [MarkOf(pre + [e], |pre|)]
  {
    var es := pre + [e];
    RunExtends(pre, e);
    forall i | 0 <= i < |pre| ensures MarkOf(es, i) == MarkOf(pre, i) {
      assert es[i] == pre[i];
    }
  }

  lemma BackedGrows(log: seq<Mark>, m: Mark, k: Key, t: Trail, state: u8, finFrom: u8)
    requires Backed(log, k, t, state, finFrom)
    ensures Backed(log + [m], k, t, state, finFrom)
  {
  }

  lemma AllJustifiedGrows(log: seq<Mark>, m: Mark, conns: seq<Conn>)
    requires AllJustified(log, conns)
    ensures AllJustified(log + [m], conns)
  {
    forall i | 0 <= i < |conns| ensures Justified(log + [m], conns[i]) {
      var c := conns[i];
      if c.used && c.proto == PROTO_TCP {
        var t: Trail :| Backed(log, c.Tuple(), t, c.state, c.finFrom);
        BackedGrows(log, m, c.Tuple(), t, c.state, c.finFrom);
      }
    }
  }

  /** One transition of the state machine adds exactly the segment the new state calls for. */
  lemma TransitionBacked(log: seq<Mark>, k: Key, t: Trail, state: u8, finFrom: u8, side: u8, fc: Fc)
    returns (u: Trail)
    requires Backed(log, k, t, state, finFrom) && side <= 1
    requires TcpNext(state, side, fc, finFrom).Some?
    ensures var (next, ff) := TcpNext(state, side, fc, finFrom).value;
            && Backed(log + [Segment(if side == 0 then k else k.Swap(), fc)], k, u, next, ff)
            && state <= next
  {
    var m := Segment(if side == 0 then k else k.Swap(), fc);
    var (next, ff) := TcpNext(state, side, fc, finFrom).value;
    var n := |log|;
    BackedGrows(log, m, k, t, state, finFrom);
    u := t.(answer := if state == TCP_SYN_SENT then n else t.answer,
            fin := if state < TCP_FIN_WAIT then n else t.fin,
            otherFin := if state == TCP_FIN_WAIT then n else t.otherFin,
            lastAck := if state == TCP_LAST_ACK then n else t.lastAck);
  }

  /** What a TCP packet's class says, in terms of the packet and the flow it matched. */
  lemma TcpClassFacts(f: Fw, p: Pkt, now: u32)
    requires f.Valid() && !ClassOf(f, p, now).Invalid? && p.proto == PROTO_TCP
    ensures TcpClass(p.flags).Some?
    ensures match ClassOf(f, p, now)
            case Existing(idx, side, next, ff) =>
              var c := f.conns[idx];
              && Live(c, now) && SideOf(c, KeyOf(p)) == Some(side)
              && TcpNext(c.state, side, TcpClass(p.flags).value, c.finFrom) == Some((next, ff))
            case Replace(idx) =>
              && TcpClass(p.flags) == Some(Syn) && SideOf(f.conns[idx], KeyOf(p)).Some?
              && (f.conns[idx].state == TCP_TIME_WAIT || f.conns[idx].state == TCP_CLOSE)
            case New => TcpClass(p.flags) == Some(Syn)
            case _ => false
  {
  }

  lemma OtherClassFacts(f: Fw, p: Pkt, now: u32)
    requires f.Valid() && p.proto != PROTO_TCP
    ensures var cls := ClassOf(f, p, now);
            && (cls.Existing? ==> f.conns[cls.idx].proto != PROTO_TCP)
            && !cls.Replace?
  {
  }

  lemma TouchJustified(log: seq<Mark>, c: Conn, p: Pkt, now: u32, side: u8, fc: Fc)
    requires Justified(log, c) && c.used && p.proto == PROTO_TCP && SideOf(c, KeyOf(p)) == Some(side)
    requires TcpNext(c.state, side, fc, c.finFrom).Some?
    ensures var (next, ff) := TcpNext(c.state, side, fc, c.finFrom).value;
            && Justified(log + [Segment(KeyOf(p), fc)], Touch(c, p, side, next, ff, now))
            && c.state <= next
  {
    var t: Trail :| Backed(log, c.Tuple(), t, c.state, c.finFrom);
    var u := TransitionBacked(log, c.Tuple(), t, c.state, c.finFrom, side, fc);
    var (next, ff) := TcpNext(c.state, side, fc, c.finFrom).value;
    var d := Touch(c, p, side, next, ff, now);
    assert Backed(log + [Segment(KeyOf(p), fc)], d.Tuple(), u, d.state, d.finFrom);
  }

  lemma StartJustified(log: seq<Mark>, p: Pkt, now: u32)
    requires p.proto == PROTO_TCP
    ensures Justified(log + [Segment(KeyOf(p), Syn)], Started(p, now, false))
  {
    assert Backed(log + [Segment(KeyOf(p), Syn)], KeyOf(p), Trail(|log|, 0, 0, 0, 0), TCP_SYN_SENT, 0);
  }

  lemma CommitJustified(log: seq<Mark>, f: Fw, p: Pkt, now: u32)
    requires f.Valid() && AllJustified(log, f.conns)
    requires !ClassOf(f, p, now).Invalid? && p.proto == PROTO_TCP
    ensures TcpClass(p.flags).Some?
    ensures AllJustified(log + [Segment(KeyOf(p), TcpClass(p.flags).value)],
                         Commit(f.conns, f.expects, p, ClassOf(f, p, now), now).conns)
  {
    TcpClassFacts(f, p, now);
    var cls, fc := ClassOf(f, p, now), TcpClass(p.flags).value;
    AllJustifiedGrows(log, Segment(KeyOf(p), fc), f.conns);
    if cls.Existing? {
      TouchJustified(log, f.conns[cls.idx], p, now, cls.side, fc);
    } else {
      StartJustified(log, p, now);
    }
  }

  lemma CommitJustifiedOther(log: seq<Mark>, f: Fw, p: Pkt, now: u32)
    requires f.Valid() && AllJustified(log, f.conns) && p.proto != PROTO_TCP
    ensures AllJustified(log, Commit(f.conns, f.expects, p, ClassOf(f, p, now), now).conns)
  {
    OtherClassFacts(f, p, now);
  }

  lemma FilterJustified(pre: seq<Event>, e: Event)
    requires e.Packet? && e.commit && AllJustified(Segments(pre), Run(pre).conns)
    ensures AllJustified(Segments(pre + [e]), Filter(Run(pre), e.p, e.now).f.conns)
  {
    var f, log := Run(pre), Segments(pre);
    SegmentsExtend(pre, e);
    RunExtends(pre, e);
    AllJustifiedGrows(log, MarkOf(pre + [e], |pre|), f.conns);
    if !f.cfg.disabled && Decide(f, e.p, e.now).v.accept {
      assert (pre + [e])[|pre|] == e;
      if e.p.proto == PROTO_TCP {
        CommitJustified(log, f, e.p, e.now);
      } else {
        CommitJustifiedOther(log + [NoSegment], f, e.p, e.now);
      }
    }
  }

  /** In every run from boot, at every point, the state of every tracked TCP flow is
      backed by accepted packets after the SYN that started it: ESTABLISHED by packets
      from both ends, LAST_ACK by a FIN from both ends, TIME_WAIT by a later ACK from the
      end that sent the first FIN. Any rules, any clock, administration included. */
  lemma {:induction false} TcpStatesAreEarned(es: seq<Event>)
    ensures AllJustified(Segments(es), Run(es).conns)
  {
    if es != [] {
      var pre, e := es[..|es| - 1], es[|es| - 1];
      assert es == pre + [e];
      TcpStatesAreEarned(pre);
      RunExtends(pre, e);
      if e.Packet? && e.commit {
        FilterJustified(pre, e);
      } else {
        SegmentsExtend(pre, e);
        AllJustifiedGrows(Segments(pre), MarkOf(es, |pre|), Run(pre).conns);
      }
    }
  }

  /** Slot `i` was restarted by this very packet: a SYN on its own finished tuple, or a
      new flow in a slot that held no live one. */
  predicate Restarted(f: Fw, p: Pkt, now: u32, i: nat)
    requires f.Valid() && i < |f.conns|
  {
    match ClassOf(f, p, now)
    case Replace(idx) =>
      && idx == i && TcpClass(p.flags) == Some(Syn) && SideOf(f.conns[i], KeyOf(p)).Some?
      && (f.conns[i].state == TCP_TIME_WAIT || f.conns[i].state == TCP_CLOSE)
    case New => FreeFrom(f.conns, now, 0) == Some(i)
    case RelatedNew(_) => FreeFrom(f.conns, now, 0) == Some(i)
    case _ => false
  }

  predicate Advanced(c: Conn, d: Conn) {
    d.used && d.Tuple() == c.Tuple() && c.state <= d.state
  }

  lemma CommitAdvances(log: seq<Mark>, f: Fw, p: Pkt, now: u32, i: nat)
    requires f.Valid() && AllJustified(log, f.conns)
    requires i < |f.conns| && f.conns[i].used && f.conns[i].proto == PROTO_TCP
    ensures var o := Commit(f.conns, f.expects, p, ClassOf(f, p, now), now);
            Advanced(f.conns[i], o.conns[i]) || Restarted(f, p, now, i)
  {
    var cls := ClassOf(f, p, now);
    if cls.Existing? && cls.idx == i {
      if p.proto == PROTO_TCP {
        TcpClassFacts(f, p, now);
        TouchJustified(log, f.conns[i], p, now, cls.side, TcpClass(p.flags).value);
      } else {
        OtherClassFacts(f, p, now);
      }
    } else if cls.Replace? && cls.idx == i {
      if p.proto == PROTO_TCP {
        TcpClassFacts(f, p, now);
      } else {
        OtherClassFacts(f, p, now);
      }
    }
  }

  lemma StepAdvances(log: seq<Mark>, f: Fw, e: Event, i: nat)
    requires f.Valid() && AllJustified(log, f.conns)
    requires i < |f.conns| && f.conns[i].used && f.conns[i].proto == PROTO_TCP
    ensures || Advanced(f.conns[i], Step(f, e).conns[i])
            || (e.Packet? && e.commit && Filter(f, e.p, e.now).v.accept && Restarted(f, e.p, e.now, i))
            || e == Admin(FlushConns)
  {
    if e.Packet? {
      CommitAdvances(log, f, e.p, e.now, i);
    }
  }

  /** Event `n` of the run lets a packet through that takes slot `i` anew, or all flows are
      forgotten. */
  ghost predicate Interrupts(es: seq<Event>, n: nat, i: nat)
    requires n < |es| && i < MAX_CONNS
  {
    || (Accepted(es, n) && Restarted(Run(es[..n]), es[n].p, es[n].now, i))
    || es[n] == Admin(FlushConns)
  }

  lemma EventAdvances(es: seq<Event>, n: nat, i: nat)
    requires n < |es| && i < MAX_CONNS && Run(es[..n]).conns[i].used && Run(es[..n]).conns[i].proto == PROTO_TCP
    ensures Advanced(Run(es[..n]).conns[i], Run(es[..n + 1]).conns[i]) || Interrupts(es, n, i)
  {
    assert es[..n + 1] == es[..n] + [es[n]];
    RunExtends(es[..n], es[n]);
    TcpStatesAreEarned(es[..n]);
    StepAdvances(Segments(es[..n]), Run(es[..n]), es[n], i);
  }

  /** Over any stretch of any run, a tracked TCP flow stays in its slot with a state number no
      smaller, unless in between a SYN that was let through restarted it, its expired slot
      was given away, or every flow was flushed. */
  lemma TcpStateNeverDecreases(es: seq<Event>, m: nat, n: nat, i: nat)
    requires m <= n <= |es| && i < MAX_CONNS
    requires Run(es[..m]).conns[i].used && Run(es[..m]).conns[i].proto == PROTO_TCP
    ensures || Advanced(Run(es[..m]).conns[i], Run(es[..n]).conns[i])
            || exists j: nat :: m <= j < n && Interrupts(es, j, i)
  {
    var c := Run(es[..m]).conns[i];
    var holds := (k: nat) => k <= |es| && Advanced(c, Run(es[..k]).conns[i]);
    var ends := (k: nat) => k < |es| && Interrupts(es, k, i);
    forall k: nat | m <= k < n && holds(k) ensures holds(k + 1) || ends(k) {
      EventAdvances(es, k, i);
    }
    Stretch(holds, ends, m, n);
    if !holds(n) {
      var j: nat :| m <= j < n && ends(j);
      assert Interrupts(es, j, i);
    }
  }
}
