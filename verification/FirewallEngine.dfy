/** The firewall engine itself: fixed tables scanned and updated in place. Every method
    computes the function of FirewallSpec or FirewallRuns with the same name. */
module FirewallEngine {
  import opened Words
  import opened FirewallTypes
  import Spec = FirewallSpec
  import Runs = FirewallRuns

  class Firewall {
    const rules: array<Rule>
    var nrules: nat
    const hits: array<u32>
    const hitBytes: array<u32>
    var policyIn: bool
    var policyOut: bool
    var disabled: bool
    var locked: bool
    const conns: array<Conn>
    const expects: array<Expect>
    var stats: Stats
    var logSeq: u32

    ghost predicate Valid()
      reads this
    {
      && rules.Length == MAX_RULES && nrules <= MAX_RULES
      && hits.Length == MAX_RULES && hitBytes.Length == MAX_RULES && hits != hitBytes
      && conns.Length == MAX_CONNS && expects.Length == MAX_EXPECT
    }

    ghost function Config(): Spec.Config
      reads this, rules
    {
      Spec.Config(rules[..], nrules, policyIn, policyOut, disabled, locked)
    }

    ghost function Counters(): Spec.Counters
      reads this, hits, hitBytes
    {
      Spec.Counters(hits[..], hitBytes[..], stats, logSeq)
    }

    ghost function Value(): (f: Spec.Fw)
      requires Valid()
      reads this, rules, hits, hitBytes, conns, expects
      ensures f.Valid()
    {
      Spec.Fw(Config(), Counters(), conns[..], expects[..])
    }

    /** All-zero: fails closed until `Init`. */
    constructor ()
      ensures Valid() && Value() == Runs.Blank()
      ensures fresh(rules) && fresh(hits) && fresh(hitBytes) && fresh(conns) && fresh(expects)
    {
      rules := new Rule[MAX_RULES](_ => EMPTY_RULE);
      hits := new u32[MAX_RULES](_ => 0);
      hitBytes := new u32[MAX_RULES](_ => 0);
      conns := new Conn[MAX_CONNS](_ => EMPTY_CONN);
      expects := new Expect[MAX_EXPECT](_ => EMPTY_EXPECT);
      nrules, policyIn, policyOut, disabled, locked := 0, false, false, false, false;
      stats, logSeq := ZERO_STATS, 0;
      new;
      assert rules[..] == Runs.Repeat(EMPTY_RULE, MAX_RULES);
      assert hits[..] == Runs.Repeat(0, MAX_RULES);
      assert hitBytes[..] == Runs.Repeat(0, MAX_RULES);
      assert conns[..] == Runs.Repeat(EMPTY_CONN, MAX_CONNS);
      assert expects[..] == Runs.Repeat(EMPTY_EXPECT, MAX_EXPECT);
    }

    // ---- scans ----

    method Find(k: Key, now: u32, want: Option<u8>) returns (r: Option<nat>)
      requires Valid()
      ensures r == Spec.FindFrom(conns[..], k, now, want, 0)
    {
      for i := 0 to MAX_CONNS
        invariant Spec.FindFrom(conns[..], k, now, want, 0) == Spec.FindFrom(conns[..], k, now, want, i)
      {
        var c := conns[i];
        if c.used && !Expired(c.expires, now) {
          var s := SideOf(c, k);
          if s.Some? && (want.None? || want == s) {
            return Some(i);
          }
        }
      }
      return None;
    }

    method FreeSlot(now: u32) returns (r: Option<nat>)
      requires Valid()
      ensures r == Spec.FreeFrom(conns[..], now, 0)
    {
      for i := 0 to MAX_CONNS
        invariant Spec.FreeFrom(conns[..], now, 0) == Spec.FreeFrom(conns[..], now, i)
      {
        if !conns[i].used || Expired(conns[i].expires, now) {
          return Some(i);
        }
      }
      return None;
    }

    method HalfOpenInbound(now: u32) returns (n: nat)
      requires Valid()
      ensures n == Spec.CountFlows(conns[..], now, true)
    {
      n := 0;
      for i := 0 to MAX_CONNS
        invariant n == Spec.CountFlows(conns[..i], now, true)
      {
        assert conns[..i + 1][..i] == conns[..i];
        var c := conns[i];
        if c.used && !Expired(c.expires, now) && c.proto == PROTO_TCP && c.origDir == DIR_IN
           && (c.state == TCP_SYN_SENT || c.state == TCP_SYN_RECV) {
          n := n + 1;
        }
      }
      assert conns[..MAX_CONNS] == conns[..];
    }

    method FindExpect(p: Pkt, now: u32) returns (r: Option<nat>)
      requires Valid()
      ensures r == Spec.FindExpect(expects[..], p, now)
    {
      if p.dir != DIR_IN || p.proto != PROTO_UDP {
        return None;
      }
      for i := 0 to MAX_EXPECT
        invariant Spec.ExpectFrom(expects[..], p, now, 0) == Spec.ExpectFrom(expects[..], p, now, i)
      {
        var e := expects[i];
        if e.used && !Expired(e.expires, now) && e.remoteIp == p.src && e.localIp == p.dst && e.localPort == p.dport {
          return Some(i);
        }
      }
      return None;
    }

    method Classify(p: Pkt, now: u32) returns (cls: Cls<nat>)
      requires Valid()
      ensures cls == Spec.Classify(conns[..], expects[..], p, now)
    {
      var k := KeyOf(p);
      if p.proto == PROTO_TCP {
        if p.sport == 0 || p.dport == 0 {
          return Invalid(INV_PORT0);
        }
        var fc := TcpClass(p.flags);
        if fc.None? {
          return Invalid(INV_FLAGS);
        }
        var found := Find(k, now, None);
        if found.None? {
          return if fc.value == Syn then New else Invalid(INV_NO_CONN);
        }
        var idx := found.value;
        var c := conns[idx];
        if fc.value == Syn && (c.state == TCP_TIME_WAIT || c.state == TCP_CLOSE) {
          return Replace(idx);
        }
        var side := SideOf(c, k).value;
        var next := TcpNext(c.state, side, fc.value, c.finFrom);
        return if next.Some? then Existing(idx, side, next.value.0, next.value.1) else Invalid(INV_STATE);
      } else if p.proto == PROTO_UDP {
        if p.dport == 0 {
          return Invalid(INV_PORT0);
        }
        var found := Find(k, now, None);
        if found.Some? {
          return Existing(found.value, SideOf(conns[found.value], k).value, UDP_REPLIED, 0);
        }
        var ex := FindExpect(p, now);
        return if ex.Some? then RelatedNew(ex.value) else New;
      } else if p.proto == PROTO_ICMP {
        cls := ClassifyIcmp(p, now);
      } else {
        return Invalid(INV_NONE);
      }
    }

    method ClassifyIcmp(p: Pkt, now: u32) returns (cls: Cls<nat>)
      requires Valid() && p.proto == PROTO_ICMP
      ensures cls == Spec.Classify(conns[..], expects[..], p, now)
    {
      if p.icmpCode != 0 && (p.icmpType == 0 || p.icmpType == 8) {
        return Invalid(INV_ICMP);
      }
      if p.icmpType == 8 {
        var found := Find(KeyOf(p), now, Some(0));
        return if found.Some? then Existing(found.value, 0, ICMP_ECHO, 0) else New;
      } else if p.icmpType == 0 {
        var found := Find(KeyOf(p), now, Some(1));
        return if found.Some? && conns[found.value].pending > 0
               then Existing(found.value, 1, ICMP_ECHO, 0) else Invalid(INV_NO_CONN);
      } else if IsIcmpError(p.icmpType) {
        if p.inner.None? {
          return Invalid(INV_RELATED);
        }
        var found := Find(p.inner.value, now, None);
        return if found.Some? then Related(found.value) else Invalid(INV_RELATED);
      } else {
        return Invalid(INV_ICMP);
      }
    }

    // ---- committing ----

    method AddExpect(remote: u32, local: u32, port: u16, now: u32)
      requires Valid()
      modifies expects
      ensures expects[..] == Spec.AddExpect(old(expects[..]), remote, local, port, now)
    {
      var slot: Option<nat> := None;
      for i := 0 to MAX_EXPECT
        invariant slot.None?
        invariant Spec.SameExpectFrom(expects[..], remote, local, port, 0)
                  == Spec.SameExpectFrom(expects[..], remote, local, port, i)
      {
        if Spec.SameExpect(expects[i], remote, local, port) {
          slot := Some(i);
          break;
        }
      }
      if slot.None? {
        for i := 0 to MAX_EXPECT
          invariant slot.None?
          invariant Spec.SpareExpectFrom(expects[..], now, 0) == Spec.SpareExpectFrom(expects[..], now, i)
        {
          if !expects[i].used || Expired(expects[i].expires, now) {
            slot := Some(i);
            break;
          }
        }
      }
      var at := if slot.Some? then slot.value else 0;
      expects[at] := Expect(true, remote, local, port, WrapAdd(now, T_EXPECT));
    }

    method Commit(p: Pkt, cls: Cls<nat>, now: u32) returns (ctState: u8)
      requires Valid() && Spec.InTable(cls, conns[..], expects[..])
      modifies conns, expects, this`stats
      ensures var o := Spec.Commit(old(conns[..]), old(expects[..]), p, cls, now);
              && conns[..] == o.conns && expects[..] == o.expects && ctState == o.ctState
              && stats == Spec.CountCommit(old(stats), cls, o.started)
    {
      ctState := 0;
      match cls
      case Existing(idx, side, next, ff) =>
        conns[idx] := Spec.Touch(conns[idx], p, side, next, ff, now);
        ctState := conns[idx].state;
      case Related(idx) =>
        stats := stats.(related := WrapAdd(stats.related, 1));
        ctState := conns[idx].state;
      case RelatedNew(ex) =>
        expects[ex] := expects[ex].(used := false);
        stats := stats.(related := WrapAdd(stats.related, 1));
        var slot := FreeSlot(now);
        if slot.Some? {
          conns[slot.value] := Spec.Started(p, now, true);
          stats := stats.(newConns := WrapAdd(stats.newConns, 1));
          ctState := conns[slot.value].state;
        }
      case New =>
        var slot := FreeSlot(now);
        if slot.Some? {
          conns[slot.value] := Spec.Started(p, now, false);
          stats := stats.(newConns := WrapAdd(stats.newConns, 1));
          ctState := conns[slot.value].state;
          if p.proto == PROTO_UDP && p.dir == DIR_OUT && p.dport == TFTP_PORT {
            AddExpect(p.dst, p.src, p.sport, now);
          }
        }
      case Replace(idx) =>
        conns[idx] := Spec.Started(p, now, false);
        stats := stats.(newConns := WrapAdd(stats.newConns, 1));
        ctState := conns[idx].state;
      case Invalid(_) =>
    }

    // ---- the filter ----

    method FirstMatch(p: Pkt, state: u8) returns (r: nat)
      requires Valid()
      ensures r == Spec.RuleFrom(rules[..], nrules, p, state, 0)
    {
      for i := 0 to nrules
        invariant Spec.RuleFrom(rules[..], nrules, p, state, 0) == Spec.RuleFrom(rules[..], nrules, p, state, i)
      {
        if rules[i].Matches(p, state) {
          return i;
        }
      }
      return nrules;
    }

    /** First match wins; no match falls to the direction's policy. */
    method ApplyRules(p: Pkt, state: u8) returns (d: Spec.Decision)
      requires Valid()
      ensures d == Spec.RuleDecision(Config(), p, state)
    {
      var r := FirstMatch(p, state);
      if r < nrules {
        d := Spec.Decision(Verdict(rules[r].accept, state, r, R_RULE, INV_NONE, 0, false), rules[r].log);
      } else {
        d := Spec.Decision(Verdict(if p.dir == DIR_IN then policyIn else policyOut, state, -1, R_POLICY, INV_NONE, 0, false), false);
      }
    }

    method Admit(d: Spec.Decision, p: Pkt, cls: Cls<nat>, now: u32) returns (r: Spec.Decision)
      requires Valid()
      ensures r == Spec.Admit(d, p, cls, Spec.FreeFrom(conns[..], now, 0).Some?, Spec.CountFlows(conns[..], now, true))
    {
      r := d;
      if d.v.accept {
        var slot := FreeSlot(now);
        var half := HalfOpenInbound(now);
        if (cls.New? || cls.RelatedNew?) && slot.None? {
          r := Spec.Decision(d.v.(accept := false, reason := R_TABLE_FULL), true);
        } else if cls.New? && p.proto == PROTO_TCP && p.dir == DIR_IN && half >= HALF_OPEN_MAX {
          r := Spec.Decision(d.v.(accept := false, reason := R_HALF_OPEN), true);
        }
      }
    }

    method StateOf(cls: Cls<nat>) returns (state: u8)
      requires Valid() && (cls.Existing? ==> cls.idx < MAX_CONNS)
      ensures state == Spec.StateOf(conns[..], cls)
    {
      match cls
      case Invalid(_) => state := ST_INVALID;
      case New => state := ST_NEW;
      case Replace(_) => state := ST_NEW;
      case Related(_) => state := ST_RELATED;
      case RelatedNew(_) => state := ST_RELATED;
      case Existing(idx, side, _, _) =>
        state := if side == 1 || conns[idx].replied then ST_ESTABLISHED else ST_NEW;
    }

    method Decide(p: Pkt, now: u32) returns (d: Spec.Decision, cls: Cls<nat>)
      requires Valid()
      ensures d == Spec.Decide(Value(), p, now) && cls == Spec.ClassOf(Value(), p, now)
    {
      if p.bad != BAD_NONE {
        return Spec.Decision(Spec.DROPPED.(reason := Spec.BadReason(p.bad)), true), Invalid(INV_NONE);
      }
      cls := Classify(p, now);
      if cls.Invalid? {
        return Spec.Decision(Spec.DROPPED.(detail := cls.detail), true), cls;
      }
      Spec.ClassifyInTable(conns[..], expects[..], p, now);
      var state := StateOf(cls);
      d := ApplyRules(p, state);
      d := Admit(d, p, cls, now);
    }

    method Record(v: Verdict, p: Pkt, wantLog: bool) returns (log: bool)
      requires Valid() && -1 <= v.rule < MAX_RULES
      modifies hits, hitBytes, this`stats, this`logSeq
      ensures log == (wantLog && Spec.LogNow(old(logSeq)))
      ensures Counters() == Spec.Tally(old(Counters()), v, p, wantLog)
    {
      stats := Spec.CountVerdict(stats, v, p.dir == DIR_IN);
      if v.rule >= 0 {
        hits[v.rule] := WrapAdd(hits[v.rule], 1);
        hitBytes[v.rule] := WrapAdd(hitBytes[v.rule], p.len);
      }
      log := false;
      if wantLog {
        var n := logSeq;
        logSeq := WrapAdd(logSeq, 1);
        if n < 32 || n % 256 == 0 {
          stats := stats.(logged := WrapAdd(stats.logged, 1));
          log := true;
        }
      }
    }

    /** The committing half of `Filter`. */
    method Apply(d: Spec.Decision, p: Pkt, cls: Cls<nat>, now: u32) returns (v: Verdict)
      requires Valid() && Spec.InTable(cls, conns[..], expects[..]) && -1 <= d.v.rule < MAX_RULES
      modifies hits, hitBytes, conns, expects, this`stats, this`logSeq
      ensures Valid()
      ensures var r := Spec.Settle(old(Value()), p, cls, d, now);
              Value() == r.f && v == r.v
    {
      ghost var f := Value();
      v := d.v;
      if v.accept {
        var ct := Commit(p, cls, now);
        v := v.(ctState := ct);
      } else {
        v := v.(ctState := 0);
      }
      ghost var o := if d.v.accept then Spec.Commit(f.conns, f.expects, p, cls, now)
                     else Spec.Outcome(f.conns, f.expects, 0, false);
      assert Counters() == f.counters.(stats := if v.accept then Spec.CountCommit(f.counters.stats, cls, o.started)
                                                else f.counters.stats);
      var log := Record(v, p, d.wantLog);
      assert conns[..] == o.conns && expects[..] == o.expects && Config() == f.cfg;
      v := v.(log := log);
    }

    /** Decides one packet. Without `commit` nothing at all changes. */
    method Filter(p: Pkt, now: u32, commit: bool) returns (v: Verdict)
      requires Valid()
      modifies hits, hitBytes, conns, expects, this`stats, this`logSeq
      ensures Valid()
      ensures commit ==> Value() == Spec.Filter(old(Value()), p, now).f && v == Spec.Filter(old(Value()), p, now).v
      ensures !commit ==> Value() == old(Value()) && v == Spec.DryRun(old(Value()), p, now)
    {
      if disabled {
        return Spec.PASSED;
      }
      var d, cls := Decide(p, now);
      if commit {
        v := Apply(d, p, cls, now);
      } else {
        v := d.v.(ctState := 0);
        if v.accept {
          v := v.(ctState := if cls.Existing? then cls.next
                             else if cls.New? || cls.Replace? then Spec.FirstState(p.proto) else 0);
        }
      }
    }

    // ---- administration ----

    method ResetRules(rs: seq<Rule>)
      requires Valid() && |rs| <= MAX_RULES
      modifies rules, hits, hitBytes, this`nrules
      ensures Valid() && nrules == |rs| && rules[..] == rs + Runs.Repeat(EMPTY_RULE, MAX_RULES - |rs|)
      ensures hits[..] == Runs.Repeat(0, MAX_RULES) && hitBytes[..] == Runs.Repeat(0, MAX_RULES)
    {
      forall i | 0 <= i < MAX_RULES {
        rules[i] := if i < |rs| then rs[i] else EMPTY_RULE;
      }
      forall i | 0 <= i < MAX_RULES {
        hits[i] := 0;
      }
      forall i | 0 <= i < MAX_RULES {
        hitBytes[i] := 0;
      }
      nrules := |rs|;
    }

    method FlushConns()
      requires Valid()
      modifies conns, expects
      ensures Valid() && Value() == Runs.Administer(old(Value()), Runs.FlushConns).f
    {
      forall i | 0 <= i < MAX_CONNS {
        conns[i] := EMPTY_CONN;
      }
      forall i | 0 <= i < MAX_EXPECT {
        expects[i] := EMPTY_EXPECT;
      }
      assert conns[..] == Runs.Repeat(EMPTY_CONN, MAX_CONNS);
      assert expects[..] == Runs.Repeat(EMPTY_EXPECT, MAX_EXPECT);
    }

    /** Boot: the baseline, no flows, counters at zero, unlocked. */
    method Init()
      requires Valid()
      modifies this, rules, hits, hitBytes, conns, expects
      ensures Valid() && Value() == Runs.Init()
    {
      FlushConns();
      disabled, locked, stats, logSeq := false, false, ZERO_STATS, 0;
      ResetRules(Runs.BASELINE.rules);
      policyIn, policyOut := Runs.BASELINE.policyIn, Runs.BASELINE.policyOut;
    }

    method AddRule(pos: nat, rule: Rule) returns (error: Option<Runs.AdminError>)
      requires Valid()
      modifies rules, hits, hitBytes, this`nrules
      ensures Valid()
      ensures var r := Runs.Administer(old(Value()), Runs.AddRule(pos, rule));
              Value() == r.f && error == r.error
    {
      if locked {
        return Some(Runs.Locked);
      }
      var n := nrules;
      if n >= MAX_RULES {
        return Some(Runs.Full);
      }
      if pos > n {
        return Some(Runs.BadIndex);
      }
      OpenGap(rules, n, pos, rule);
      OpenGap(hits, n, pos, 0);
      OpenGap(hitBytes, n, pos, 0);
      nrules := n + 1;
      return None;
    }

    /** Moves slots `pos .. n - 1` up by one and puts `x` in the gap. */
    static method OpenGap<T>(a: array<T>, n: nat, pos: nat, x: T)
      requires pos <= n < a.Length
      modifies a
      ensures a[..] == Runs.Inserted(old(a[..]), n, pos, x)
    {
      var i := n;
      while i > pos
        invariant pos <= i <= n
        invariant forall j :: 0 <= j <= i ==> a[j] == old(a[j])
        invariant forall j :: i < j <= n ==> a[j] == old(a[j - 1])
        invariant forall j :: n < j < a.Length ==> a[j] == old(a[j])
      {
        a[i] := a[i - 1];
        i := i - 1;
      }
      a[pos] := x;
    }

    method DelRule(idx: nat) returns (error: Option<Runs.AdminError>)
      requires Valid()
      modifies rules, hits, hitBytes, this`nrules
      ensures Valid()
      ensures var r := Runs.Administer(old(Value()), Runs.DelRule(idx));
              Value() == r.f && error == r.error
    {
      if locked {
        return Some(Runs.Locked);
      }
      var n := nrules;
      if idx >= n {
        return Some(Runs.BadIndex);
      }
      CloseGap(rules, n, idx, EMPTY_RULE);
      CloseGap(hits, n, idx, 0);
      CloseGap(hitBytes, n, idx, 0);
      nrules := n - 1;
      return None;
    }

    /** Moves slots `idx + 1 .. n - 1` down by one and blanks the last. */
    static method CloseGap<T>(a: array<T>, n: nat, idx: nat, blank: T)
      requires idx < n <= a.Length
      modifies a
      ensures a[..] == Runs.Deleted(old(a[..]), n, idx, blank)
    {
      for i := idx to n - 1
        invariant forall j :: 0 <= j < idx ==> a[j] == old(a[j])
        invariant forall j :: idx <= j < i ==> a[j] == old(a[j + 1])
        invariant forall j :: i <= j < a.Length ==> a[j] == old(a[j])
      {
        a[i] := a[i + 1];
      }
      a[n - 1] := blank;
    }

    method FlushRules() returns (error: Option<Runs.AdminError>)
      requires Valid()
      modifies rules, hits, hitBytes, this`nrules
      ensures Valid()
      ensures var r := Runs.Administer(old(Value()), Runs.FlushRules);
              Value() == r.f && error == r.error
    {
      if locked {
        return Some(Runs.Locked);
      }
      ResetRules([]);
      return None;
    }

    /** Atomic: a text that does not parse changes nothing. */
    method ApplyConfig(parsed: Option<Runs.Parsed>) returns (error: Option<Runs.AdminError>)
      requires Valid()
      modifies rules, hits, hitBytes, this`nrules, this`policyIn, this`policyOut
      ensures Valid()
      ensures var r := Runs.Administer(old(Value()), Runs.Load(parsed));
              Value() == r.f && error == r.error
    {
      if locked {
        return Some(Runs.Locked);
      }
      if parsed.None? || |parsed.value.rules| > MAX_RULES {
        return Some(Runs.BadConfig);
      }
      ResetRules(parsed.value.rules);
      policyIn, policyOut := parsed.value.policyIn, parsed.value.policyOut;
      return None;
    }

    method SetPolicy(dir: u8, accept: bool) returns (error: Option<Runs.AdminError>)
      requires Valid()
      modifies this`policyIn, this`policyOut
      ensures Valid()
      ensures var r := Runs.Administer(old(Value()), Runs.SetPolicy(dir, accept));
              Value() == r.f && error == r.error
    {
      if locked {
        return Some(Runs.Locked);
      }
      if dir == DIR_IN {
        policyIn := accept;
      } else if dir == DIR_OUT {
        policyOut := accept;
      } else {
        return Some(Runs.BadIndex);
      }
      return None;
    }

    method SetEnabled(on: bool) returns (error: Option<Runs.AdminError>)
      requires Valid()
      modifies this`disabled
      ensures Valid()
      ensures var r := Runs.Administer(old(Value()), Runs.SetEnabled(on));
              Value() == r.f && error == r.error
    {
      if locked {
        return Some(Runs.Locked);
      }
      disabled := !on;
      return None;
    }

    method Lock()
      requires Valid()
      modifies this`locked
      ensures Valid() && Value() == Runs.Administer(old(Value()), Runs.Lock).f
    {
      locked := true;
    }
  }
}
