/** What administration means for the packets that follow. */
module FirewallAdmin {
  import opened Words
  import opened FirewallTypes
  import opened FirewallSpec
  import opened FirewallRuns

  /** What the first of the rules that matches says; none if none does. */
  function FirstSays(rs: seq<Rule>, p: Pkt, state: u8): Option<bool> {
    if rs == [] then None
    else if rs[0].Matches(p, state) then Some(rs[0].accept)
    else FirstSays(rs[1..], p, state)
  }

  /** The rules in force. */
  function RulesOf(cfg: Config): seq<Rule>
    requires cfg.nrules <= |cfg.rules|
  {
    cfg.rules[..cfg.nrules]
  }

  function PolicyFor(cfg: Config, p: Pkt): bool {
    if p.dir == DIR_IN then cfg.policyIn else cfg.policyOut
  }

  /** The verdict of rules and policy. */
  function Says(rs: seq<Rule>, policy: bool, p: Pkt, state: u8): bool {
    match FirstSays(rs, p, state) case Some(accept) => accept case None => policy
  }

  lemma {:induction false} FirstFrom(rules: seq<Rule>, n: nat, p: Pkt, state: u8, i: nat)
    requires i <= n <= |rules|
    ensures var r := RuleFrom(rules, n, p, state, i);
            FirstSays(rules[i..n], p, state) == if r < n then Some(rules[r].accept) else None
    decreases n - i
  {
    if i < n {
      FirstFrom(rules, n, p, state, i + 1);
      assert rules[i..n][1..] == rules[i + 1..n];
    }
  }

  lemma DecisionIs(cfg: Config, p: Pkt, state: u8)
    requires cfg.nrules <= |cfg.rules|
    ensures RuleDecision(cfg, p, state).v.accept == Says(RulesOf(cfg), PolicyFor(cfg, p), p, state)
  {
    FirstFrom(cfg.rules, cfg.nrules, p, state, 0);
    assert cfg.rules[0..cfg.nrules] == RulesOf(cfg);
  }

  lemma {:induction false} FirstOfTwo(a: seq<Rule>, b: seq<Rule>, p: Pkt, state: u8)
    ensures FirstSays(a + b, p, state) == if FirstSays(a, p, state).Some? then FirstSays(a, p, state) else FirstSays(b, p, state)
  {
    if a == [] {
      assert a + b == b;
    } else {
      FirstOfTwo(a[1..], b, p, state);
      assert (a + b)[1..] == a[1..] + b;
    }
  }

  /** A rule that was added decides what the rules before it leave open, before those after it. */
  lemma AddedRuleDecides(f: Fw, pos: nat, rule: Rule, p: Pkt, state: u8)
    requires f.Valid() && !f.cfg.locked && pos <= f.cfg.nrules < MAX_RULES
    ensures var cfg := Administer(f, AddRule(pos, rule)).f.cfg;
            RuleDecision(cfg, p, state).v.accept
            == match FirstSays(RulesOf(f.cfg)[..pos], p, state)
               case Some(accept) => accept
               case None =>
                 if rule.Matches(p, state) then rule.accept
                 else Says(RulesOf(f.cfg)[pos..], PolicyFor(f.cfg, p), p, state)
  {
    var cfg := Administer(f, AddRule(pos, rule)).f.cfg;
    var rs := RulesOf(f.cfg);
    DecisionIs(cfg, p, state);
    assert RulesOf(cfg) == rs[..pos] + ([rule] + rs[pos..]);
    FirstOfTwo(rs[..pos], [rule] + rs[pos..], p, state);
    FirstOfTwo([rule], rs[pos..], p, state);
    assert [rule][1..] == [];
  }

  /** A rule that was deleted decides nothing any more; the others do as before. */
  lemma DeletedRuleIsGone(f: Fw, idx: nat, p: Pkt, state: u8)
    requires f.Valid() && !f.cfg.locked && idx < f.cfg.nrules
    ensures var cfg := Administer(f, DelRule(idx)).f.cfg;
            RuleDecision(cfg, p, state).v.accept
            == Says(RulesOf(f.cfg)[..idx] + RulesOf(f.cfg)[idx + 1..], PolicyFor(f.cfg, p), p, state)
  {
    var cfg := Administer(f, DelRule(idx)).f.cfg;
    DecisionIs(cfg, p, state);
    assert RulesOf(cfg) == RulesOf(f.cfg)[..idx] + RulesOf(f.cfg)[idx + 1..];
  }

  /** The counters of a rule move with it, and a new rule starts at zero. */
  lemma CountersMove(f: Fw, pos: nat, rule: Rule, i: nat)
    requires f.Valid() && !f.cfg.locked && pos <= f.cfg.nrules < MAX_RULES && i <= f.cfg.nrules
    ensures var g := Administer(f, AddRule(pos, rule)).f;
            if i == pos then g.cfg.rules[i] == rule && g.counters.hits[i] == 0 && g.counters.hitBytes[i] == 0
            else var j := if i < pos then i else i - 1;
              && g.cfg.rules[i] == f.cfg.rules[j]
              && g.counters.hits[i] == f.counters.hits[j] && g.counters.hitBytes[i] == f.counters.hitBytes[j]
  {
  }

  lemma CountersMoveBack(f: Fw, idx: nat, i: nat)
    requires f.Valid() && !f.cfg.locked && idx < f.cfg.nrules && i < f.cfg.nrules - 1
    ensures var g, j := Administer(f, DelRule(idx)).f, if i < idx then i else i + 1;
            && g.cfg.nrules == f.cfg.nrules - 1 && g.cfg.rules[i] == f.cfg.rules[j]
            && g.counters.hits[i] == f.counters.hits[j] && g.counters.hitBytes[i] == f.counters.hitBytes[j]
  {
  }

  /** A loaded configuration decides, and its counters start at zero; flows are kept. */
  lemma LoadedConfigDecides(f: Fw, c: Parsed, p: Pkt, state: u8)
    requires f.Valid() && !f.cfg.locked && |c.rules| <= MAX_RULES
    ensures var g := Administer(f, Load(Some(c))).f;
            && RuleDecision(g.cfg, p, state).v.accept
               == Says(c.rules, if p.dir == DIR_IN then c.policyIn else c.policyOut, p, state)
            && g.conns == f.conns && g.expects == f.expects && g.cfg.disabled == f.cfg.disabled
            && forall i :: 0 <= i < MAX_RULES ==> g.counters.hits[i] == 0 && g.counters.hitBytes[i] == 0
  {
    var g := Administer(f, Load(Some(c))).f;
    DecisionIs(g.cfg, p, state);
    assert RulesOf(g.cfg) == c.rules;
  }

  /** Without rules the policies decide. */
  lemma FlushedRulesDecideNothing(f: Fw, p: Pkt, state: u8)
    requires f.Valid() && !f.cfg.locked
    ensures RuleDecision(Administer(f, FlushRules).f.cfg, p, state).v.accept == PolicyFor(f.cfg, p)
  {
  }

  /** A policy decides the packets of its direction that no rule matches, and no others. */
  lemma PolicyDecides(f: Fw, dir: u8, accept: bool, p: Pkt, state: u8)
    requires f.Valid() && !f.cfg.locked
    ensures RuleDecision(Administer(f, SetPolicy(dir, accept)).f.cfg, p, state).v.accept
            == Says(RulesOf(f.cfg),
                    if (dir == DIR_IN && p.dir == DIR_IN) || (dir == DIR_OUT && p.dir != DIR_IN) then accept
                    else PolicyFor(f.cfg, p), p, state)
  {
    DecisionIs(Administer(f, SetPolicy(dir, accept)).f.cfg, p, state);
  }

  /** Switched off, every packet passes and leaves no trace; switched on again, what was tracked
      before still is. */
  lemma SwitchedOff(f: Fw, p: Pkt, now: u32)
    requires f.Valid() && !f.cfg.locked
    ensures var off := Administer(f, SetEnabled(false)).f;
            && Filter(off, p, now).v.accept && Filter(off, p, now).f == off
            && Administer(off, SetEnabled(true)).f == f.(cfg := f.cfg.(disabled := false))
  {
  }

  /** Flushed, nothing is tracked and nothing expected. */
  lemma NothingTracked(f: Fw, i: nat)
    requires f.Valid()
    ensures var g := Administer(f, FlushConns).f;
            && g.cfg == f.cfg && g.counters == f.counters
            && (i < MAX_CONNS ==> !g.conns[i].used) && (i < MAX_EXPECT ==> !g.expects[i].used)
  {
  }

  /** What is refused, and why; a refusal changes nothing. */
  lemma RefusalsExactly(f: Fw, op: Op)
    requires f.Valid()
    ensures var r := Administer(f, op);
            && (r.error == Some(Locked) <==> f.cfg.locked && !op.Lock? && !op.FlushConns?)
            && (r.error == Some(Full) <==> !f.cfg.locked && op.AddRule? && f.cfg.nrules == MAX_RULES)
            && (r.error == Some(BadIndex) <==>
                  && !f.cfg.locked
                  && (|| (op.AddRule? && f.cfg.nrules < MAX_RULES && op.pos > f.cfg.nrules)
                      || (op.DelRule? && op.idx >= f.cfg.nrules)
                      || (op.SetPolicy? && op.dir != DIR_IN && op.dir != DIR_OUT)))
            && (r.error == Some(BadConfig) <==>
                  !f.cfg.locked && op.Load? && (op.parsed.None? || |op.parsed.value.rules| > MAX_RULES))
            && (r.error.Some? ==> r.f == f)
  {
  }
}
