/** The firewall's counters tell what it did. */
module FirewallCounts {
  import opened Words
  import opened FirewallTypes
  import opened FirewallSpec
  import opened FirewallRuns
  import opened FirewallDryRun

  /** What is counted: packets by verdict and direction, by the reason of the verdict, those that
      start a flow, those that are related to one, those a rule decides and the bytes in them,
      those a log line is wanted for and those one is written for. */
  datatype Sort =
    By(accept: bool, inbound: bool) | Reason(reason: u8) | Starts | Relates | Hits(rule: nat) | Octets(rule: nat) | Wants | Logs

  /** The event is a packet the firewall, enabled, decides on. */
  predicate Filters(f: Fw, e: Event) {
    e.Packet? && e.commit && !f.cfg.disabled
  }

  /** It is of the sort `s`. */
  predicate OfSort(f: Fw, e: Event, s: Sort)
    requires f.Valid() && Filters(f, e)
  {
    var d := Decide(f, e.p, e.now);
    Fits(d.v, e.p, ClassOf(f, e.p, e.now), d.wantLog, Filter(f, e.p, e.now).v.log, s)
  }

  predicate Fits(v: Verdict, p: Pkt, cls: Cls<nat>, wantLog: bool, log: bool, s: Sort) {
    match s
    case By(accept, inbound) => v.accept == accept && (p.dir == DIR_IN) == inbound
    case Reason(reason) => v.reason == reason
    case Starts => v.accept && Opens(cls)
    case Relates => v.accept && (cls.Related? || cls.RelatedNew?)
    case Hits(r) => v.rule == r
    case Octets(r) => v.rule == r
    case Wants => wantLog
    case Logs => log
  }

  /** What one packet adds to a count. */
  function Weight(p: Pkt, s: Sort): u32 {
    if s.Octets? then p.len else 1
  }

  predicate Opens(cls: Cls<nat>) {
    cls.New? || cls.RelatedNew? || cls.Replace?
  }

  /** What an event adds to the count of a sort. */
  ghost predicate AddsIs(f: Fw, e: Event, s: Sort, n: u32)
    requires f.Valid()
  {
    forall k: int :: LookAtAdded(k) ==> n == if Filters(f, e) && OfSort(f, e, s) then Weight(e.p, s) else 0
  }

  predicate LookAtAdded(k: int) { true }

  ghost function Adds(f: Fw, e: Event, s: Sort): (n: u32)
    requires f.Valid()
    ensures AddsIs(f, e, s, n)
  {
    assert AddsIs(f, e, s, if Filters(f, e) && OfSort(f, e, s) then Weight(e.p, s) else 0);
    var n: u32 :| AddsIs(f, e, s, n);
    n
  }

  /** How many packets of a run from `f` are of the sort `s`, or how many bytes are in them. */
  ghost function Many(f: Fw, es: seq<Event>, s: Sort): nat
    requires f.Valid()
  {
    if es == [] then 0
    else
      var g, e := After(f, es[..|es| - 1]), es[|es| - 1];
      Many(f, es[..|es| - 1], s) + Adds(g, e, s)
  }

  function Filtered(f: Fw, es: seq<Event>): nat
    requires f.Valid()
  {
    if es == [] then 0
    else Filtered(f, es[..|es| - 1]) + if Filters(After(f, es[..|es| - 1]), es[|es| - 1]) then 1 else 0
  }

  predicate Wide(c: Counters) {
    |c.hits| == |c.hitBytes| == MAX_RULES
  }

  /** The counter of a sort, where there is one. */
  function Counter(c: Counters, s: Sort): Option<u32>
    requires Wide(c)
  {
    match s
    case By(accept, inbound) =>
      Some(if accept then (if inbound then c.stats.acceptedIn else c.stats.acceptedOut)
           else if inbound then c.stats.droppedIn else c.stats.droppedOut)
    case Reason(r) => ReasonCounter(c.stats, r)
    case Starts => Some(c.stats.newConns)
    case Relates => Some(c.stats.related)
    case Hits(r) => if r < MAX_RULES then Some(c.hits[r]) else None
    case Octets(r) => if r < MAX_RULES then Some(c.hitBytes[r]) else None
    case Wants => Some(c.logSeq)
    case Logs => Some(c.stats.logged)
  }

  function ReasonCounter(t: Stats, r: u8): Option<u32> {
    if r == R_INVALID then Some(t.invalid) else if r == R_FRAGMENT then Some(t.fragments)
    else if r == R_UNSUPPORTED then Some(t.unsupported) else if r == R_MALFORMED then Some(t.malformed)
    else if r == R_TABLE_FULL then Some(t.tableFull) else if r == R_HALF_OPEN then Some(t.halfOpen)
    else None
  }

  lemma CountStats(c: Counters, v: Verdict, p: Pkt, cls: Cls<nat>, started: bool, wantLog: bool)
    requires Wide(c) && -1 <= v.rule < MAX_RULES
    ensures var d := Count(c, v, p, cls, started, wantLog);
            var t := if v.accept then CountCommit(c.stats, cls, started) else c.stats;
            && Wide(d) && d.stats == CountVerdict(t, v, p.dir == DIR_IN).(logged := d.stats.logged)
            && d.stats.logged == WrapAdd(c.stats.logged, if wantLog && LogNow(c.logSeq) then 1 else 0)
            && d.logSeq == WrapAdd(c.logSeq, if wantLog then 1 else 0)
            && forall r :: 0 <= r < MAX_RULES ==>
                 && d.hits[r] == WrapAdd(c.hits[r], if v.rule == r then 1 else 0)
                 && d.hitBytes[r] == WrapAdd(c.hitBytes[r], if v.rule == r then p.len else 0)
  {
  }

  lemma VerdictStats(t: Stats, v: Verdict, inbound: bool, r: u8)
    ensures var u := CountVerdict(t, v, inbound);
            && u.newConns == t.newConns && u.related == t.related
            && (ReasonCounter(t, r).Some? ==>
                  ReasonCounter(u, r) == Some(WrapAdd(ReasonCounter(t, r).value, if v.reason == r then 1 else 0)))
  {
  }

  lemma VerdictSides(t: Stats, v: Verdict, inbound: bool)
    ensures var u := CountVerdict(t, v, inbound);
            && u.acceptedIn == WrapAdd(t.acceptedIn, if v.accept && inbound then 1 else 0)
            && u.acceptedOut == WrapAdd(t.acceptedOut, if v.accept && !inbound then 1 else 0)
            && u.droppedIn == WrapAdd(t.droppedIn, if !v.accept && inbound then 1 else 0)
            && u.droppedOut == WrapAdd(t.droppedOut, if !v.accept && !inbound then 1 else 0)
  {
  }

  lemma CommitStats(t: Stats, cls: Cls<nat>, started: bool)
    ensures var u := CountCommit(t, cls, started);
            && u == t.(newConns := u.newConns, related := u.related)
            && u.newConns == WrapAdd(t.newConns, if started then 1 else 0)
            && u.related == WrapAdd(t.related, if cls.Related? || cls.RelatedNew? then 1 else 0)
  {
  }

  /** What counting a verdict does to each counter. */
  lemma CountIs(c: Counters, v: Verdict, p: Pkt, cls: Cls<nat>, started: bool, wantLog: bool, s: Sort)
    requires Wide(c) && -1 <= v.rule < MAX_RULES && Counter(c, s).Some? && started == (v.accept && Opens(cls))
    ensures var d := Count(c, v, p, cls, started, wantLog);
            && Wide(d)
            && Counter(d, s) == Some(WrapAdd(Counter(c, s).value,
                                             if Fits(v, p, cls, wantLog, wantLog && LogNow(c.logSeq), s) then Weight(p, s) else 0))
  {
    var t := if v.accept then CountCommit(c.stats, cls, started) else c.stats;
    CountStats(c, v, p, cls, started, wantLog);
    CommitStats(c.stats, cls, started);
    match s
    case By(_, _) => VerdictSides(t, v, p.dir == DIR_IN);
    case Reason(r) => VerdictStats(t, v, p.dir == DIR_IN, r);
    case Starts => VerdictStats(t, v, p.dir == DIR_IN, 0);
    case Relates => VerdictStats(t, v, p.dir == DIR_IN, 0);
    case _ =>
  }

  lemma FilterTally(f: Fw, p: Pkt, now: u32) returns (v: Verdict, wantLog: bool)
    requires f.Valid() && !f.cfg.disabled
    ensures var cls, d := ClassOf(f, p, now), Decide(f, p, now).v;
            && v == d.(ctState := v.ctState) && wantLog == Decide(f, p, now).wantLog
            && Filter(f, p, now).v.log == (wantLog && LogNow(f.counters.logSeq))
            && Filter(f, p, now).f.counters == Count(f.counters, v, p, cls, d.accept && Opens(cls), wantLog)
  {
    var d := Decide(f, p, now);
    wantLog := d.wantLog;
    if d.v.accept {
      AdmittedHasRoom(f, p, now);
      v := d.v.(ctState := Commit(f.conns, f.expects, p, ClassOf(f, p, now), now).ctState);
    } else {
      v := d.v.(ctState := 0);
    }
  }

  lemma FilterCounts(f: Fw, p: Pkt, now: u32, s: Sort)
    requires f.Valid() && !f.cfg.disabled && Counter(f.counters, s).Some?
    ensures Counter(Filter(f, p, now).f.counters, s)
            == Some(WrapAdd(Counter(f.counters, s).value, if OfSort(f, Packet(p, now, true), s) then Weight(p, s) else 0))
  {
    var cls := ClassOf(f, p, now);
    var v, wantLog := FilterTally(f, p, now);
    CountIs(f.counters, v, p, cls, v.accept && Opens(cls), wantLog, s);
  }

  /** Administration that leaves the rules as they are. */
  predicate KeepsRules(f: Fw, e: Event) {
    e.Packet? || f.cfg.locked || e.op.Lock? || e.op.FlushConns? || e.op.SetPolicy? || e.op.SetEnabled?
  }

  predicate RulesKept(f: Fw, es: seq<Event>)
    requires f.Valid()
  {
    es == [] || (RulesKept(f, es[..|es| - 1]) && KeepsRules(After(f, es[..|es| - 1]), es[|es| - 1]))
  }

  predicate OfRule(s: Sort) {
    s.Hits? || s.Octets?
  }

  lemma OtherCounts(f: Fw, e: Event, s: Sort)
    requires f.Valid() && !Filters(f, e) && (OfRule(s) ==> KeepsRules(f, e))
    ensures Counter(Step(f, e).counters, s) == Counter(f.counters, s)
  {
  }

  /** What a 32-bit counter shows after counting to `n`. */
  function Shown(n: nat): u32 {
    if n < TWO32 then n else Shown(n - TWO32)
  }

  lemma {:induction false} ShownIs(n: nat)
    ensures Shown(n) == n % TWO32
  {
    if n >= TWO32 {
      ShownIs(n - TWO32);
    }
  }

  lemma {:induction false} ShownMore(n: nat, y: u32)
    ensures WrapAdd(Shown(n), y) == Shown(n + y)
  {
    if n >= TWO32 {
      ShownMore(n - TWO32, y);
    }
  }

  predicate LookAtCounter(k: int) { true }

  /** The counter of `s` shows `n`. */
  ghost predicate Reads(f: Fw, s: Sort, n: nat)
    requires f.Valid()
  {
    forall k: int :: LookAtCounter(k) ==> Counter(f.counters, s) == Some(Shown(n))
  }

  lemma StepCounts(f: Fw, e: Event, g: Fw, s: Sort, n: nat, m: nat)
    requires f.Valid() && (OfRule(s) ==> KeepsRules(f, e)) && Reads(f, s, n)
    requires g == Step(f, e) && m == n + Adds(f, e, s)
    ensures Reads(g, s, m)
  {
    assert LookAtCounter(0) && LookAtAdded(0);
    if Filters(f, e) {
      FilterCounts(f, e.p, e.now, s);
    } else {
      OtherCounts(f, e, s);
    }
    ShownMore(n, Adds(f, e, s));
  }

  /** Over every run, from any state, each counter grows, in 32 bits, by the number of packets of
      its sort or of the bytes in them; a rule's as long as the rules stay as they are. */
  lemma {:induction false} CountersAreTrue(f: Fw, es: seq<Event>, s: Sort, n: nat)
    requires f.Valid() && (OfRule(s) ==> RulesKept(f, es)) && Reads(f, s, n)
    ensures Reads(After(f, es), s, n + Many(f, es, s))
  {
    if es != [] {
      var pre, e := es[..|es| - 1], es[|es| - 1];
      CountersAreTrue(f, pre, s, n);
      StepCounts(After(f, pre), e, After(f, es), s, n + Many(f, pre, s), n + Many(f, es, s));
    }
  }

  /** Every packet that is filtered is counted once, as accepted or dropped, in or out. */
  lemma {:induction false} CountedOnce(f: Fw, es: seq<Event>)
    requires f.Valid()
    ensures Filtered(f, es) == Many(f, es, By(true, true)) + Many(f, es, By(true, false))
                               + Many(f, es, By(false, true)) + Many(f, es, By(false, false))
  {
    if es != [] {
      CountedOnce(f, es[..|es| - 1]);
      assert LookAtAdded(0);
    }
  }

  /** Of the log lines that are wanted the first 32 are written, and then one in 256. */
  lemma LogIsLimited(es: seq<Event>, p: Pkt, now: u32)
    requires !Run(es).cfg.disabled
    ensures var n := Shown(Many(Init(), es, Wants));
            Filter(Run(es), p, now).v.log <==> Decide(Run(es), p, now).wantLog && (n < 32 || n % 256 == 0)
  {
    CountersAreTrue(Init(), es, Wants, 0);
    assert LookAtCounter(0);
  }
}
