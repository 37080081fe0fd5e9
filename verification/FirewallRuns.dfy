/** Whole runs of the firewall: packets interleaved with administration. */
module FirewallRuns {
  import opened Words
  import opened FirewallTypes
  import opened FirewallSpec

  /** A configuration file that parsed. */
  datatype Parsed = Parsed(rules: seq<Rule>, policyIn: bool, policyOut: bool)

  datatype Op =
    | AddRule(pos: nat, rule: Rule)
    | DelRule(idx: nat)
    | FlushRules
    | SetPolicy(dir: u8, accept: bool)
    | SetEnabled(on: bool)
    | Load(parsed: Option<Parsed>)
    | Lock
    | FlushConns

  datatype AdminError = Locked | BadIndex | Full | BadConfig

  datatype Reply = Reply(f: Fw, error: Option<AdminError>)

  function Inserted<T>(s: seq<T>, n: nat, pos: nat, x: T): seq<T>
    requires pos <= n < |s|
  {
    s[..pos] + [x] + s[pos..n] + s[n + 1..]
  }

  function Deleted<T>(s: seq<T>, n: nat, idx: nat, blank: T): seq<T>
    requires idx < n <= |s|
  {
    s[..idx] + s[idx + 1..n] + [blank] + s[n..]
  }

  function Repeat<T>(x: T, n: nat): (s: seq<T>)
    ensures |s| == n && forall i :: 0 <= i < n ==> s[i] == x
  {
    seq(n, i => x)
  }

  function WithConfig(f: Fw, c: Parsed): Fw
    requires |c.rules| <= MAX_RULES
  {
    f.(cfg := f.cfg.(rules := c.rules + Repeat(EMPTY_RULE, MAX_RULES - |c.rules|), nrules := |c.rules|,
                     policyIn := c.policyIn, policyOut := c.policyOut),
       counters := f.counters.(hits := Repeat(0, MAX_RULES), hitBytes := Repeat(0, MAX_RULES)))
  }

  /** Administration. Every change of rules, policies or the enable flag is refused once
      locked; forgetting flows, and locking itself, are not. */
  function Administer(f: Fw, op: Op): (r: Reply)
    requires f.Valid()
    ensures r.f.Valid()
    ensures f.cfg.locked ==> r.f.cfg == f.cfg && r.f.counters == f.counters
    ensures r.error.Some? ==> r.f == f
  {
    match op
    case Lock => Reply(f.(cfg := f.cfg.(locked := true)), None)
    case FlushConns =>
      Reply(f.(conns := Repeat(EMPTY_CONN, MAX_CONNS), expects := Repeat(EMPTY_EXPECT, MAX_EXPECT)), None)
    case _ => if f.cfg.locked then Reply(f, Some(Locked)) else Change(f, op)
  }

  function Change(f: Fw, op: Op): (r: Reply)
    requires f.Valid() && !op.Lock? && !op.FlushConns?
    ensures r.f.Valid()
    ensures r.f.conns == f.conns && r.f.expects == f.expects
    ensures r.error.Some? ==> r.f == f
  {
    var n := f.cfg.nrules;
    match op
    case AddRule(pos, rule) =>
      if n >= MAX_RULES then Reply(f, Some(Full))
      else if pos > n then Reply(f, Some(BadIndex))
      else Reply(f.(cfg := f.cfg.(rules := Inserted(f.cfg.rules, n, pos, rule), nrules := n + 1),
                    counters := f.counters.(hits := Inserted(f.counters.hits, n, pos, 0),
                                            hitBytes := Inserted(f.counters.hitBytes, n, pos, 0))), None)
    case DelRule(idx) =>
      if idx >= n then Reply(f, Some(BadIndex))
      else Reply(f.(cfg := f.cfg.(rules := Deleted(f.cfg.rules, n, idx, EMPTY_RULE), nrules := n - 1),
                    counters := f.counters.(hits := Deleted(f.counters.hits, n, idx, 0),
                                            hitBytes := Deleted(f.counters.hitBytes, n, idx, 0))), None)
    case FlushRules => Reply(WithConfig(f, Parsed([], f.cfg.policyIn, f.cfg.policyOut)), None)
    case SetPolicy(dir, accept) =>
      if dir == DIR_IN then Reply(f.(cfg := f.cfg.(policyIn := accept)), None)
      else if dir == DIR_OUT then Reply(f.(cfg := f.cfg.(policyOut := accept)), None)
      else Reply(f, Some(BadIndex))
    case SetEnabled(on) => Reply(f.(cfg := f.cfg.(disabled := !on)), None)
    case Load(parsed) =>
      if parsed.None? || |parsed.value.rules| > MAX_RULES then Reply(f, Some(BadConfig))
      else Reply(WithConfig(f, parsed.value), None)
  }

  /** The all-zero firewall: no rules, both policies drop, nothing tracked. */
  function Blank(): (f: Fw)
    ensures f.Valid()
  {
    Fw(Config(Repeat(EMPTY_RULE, MAX_RULES), 0, false, false, false, false),
       Counters(Repeat(0, MAX_RULES), Repeat(0, MAX_RULES), ZERO_STATS, 0),
       Repeat(EMPTY_CONN, MAX_CONNS), Repeat(EMPTY_EXPECT, MAX_EXPECT))
  }

  /** rule accept in state established,related */
  const BASELINE_RULE: Rule := EMPTY_RULE.(accept := true, states := ST_ESTABLISHED + ST_RELATED)

  const BASELINE: Parsed := Parsed([BASELINE_RULE], false, true)

  function Init(): (f: Fw)
    ensures f.Valid()
  {
    WithConfig(Blank(), BASELINE)
  }

  datatype Event = Packet(p: Pkt, now: u32, commit: bool) | Admin(op: Op)

  function Step(f: Fw, e: Event): (r: Fw)
    requires f.Valid()
    ensures r.Valid()
  {
    match e
    case Packet(p, now, commit) => if commit then Filter(f, p, now).f else f
    case Admin(op) => Administer(f, op).f
  }

  /** The state after the events `es`, from `f`. */
  function After(f: Fw, es: seq<Event>): (r: Fw)
    requires f.Valid()
    ensures r.Valid()
  {
    if es == [] then f else Step(After(f, es[..|es| - 1]), es[|es| - 1])
  }

  function Run(es: seq<Event>): (r: Fw)
    ensures r.Valid()
  {
    After(Init(), es)
  }

  /** Event `i` of the run is a packet that was really filtered, and accepted. */
  predicate Accepted(es: seq<Event>, i: nat) {
    && i < |es| && es[i].Packet? && es[i].commit
    && Filter(Run(es[..i]), es[i].p, es[i].now).v.accept
  }

  lemma RunExtends(pre: seq<Event>, e: Event)
    ensures Run(pre + [e]) == Step(Run(pre), e)
    ensures forall i: nat :: i < |pre| ==> Accepted(pre + [e], i) == Accepted(pre, i)
    ensures Accepted(pre + [e], |pre|) <==>
            e.Packet? && e.commit && Filter(Run(pre), e.p, e.now).v.accept
  {
    var es := pre + [e];
    assert es[..|es| - 1] == pre && es[..|pre|] == pre;
    forall i: nat | i < |pre| ensures Accepted(es, i) == Accepted(pre, i) {
      assert es[..i] == pre[..i];
    }
  }

  /** What each event of a stretch of a run keeps, unless it ends it, the whole stretch keeps,
      unless something in it ended it. */
  lemma {:induction false} Stretch(holds: nat -> bool, ends: nat -> bool, m: nat, n: nat)
    requires m <= n && holds(m) && forall k: nat :: m <= k < n && holds(k) ==> holds(k + 1) || ends(k)
    ensures holds(n) || exists j: nat :: m <= j < n && ends(j)
    decreases n - m
  {
    if m < n {
      Stretch(holds, ends, m, n - 1);
      if holds(n - 1) {
        assert holds(n - 1 + 1) || ends(n - 1);
      }
    }
  }

  /** Locking is one way: whatever is asked afterwards, packets included, the rules,
      policies, enable flag and lock stay as they were. */
  lemma {:induction false} LockIsForever(f: Fw, es: seq<Event>)
    requires f.Valid() && f.cfg.locked
    ensures After(f, es).cfg == f.cfg
  {
    if es != [] {
      LockIsForever(f, es[..|es| - 1]);
    }
  }

  /** Past the last rule the tables are blank. */
  ghost predicate BlankAfter(f: Fw) {
    && f.Valid()
    && forall i :: f.cfg.nrules <= i < MAX_RULES ==>
         f.cfg.rules[i] == EMPTY_RULE && f.counters.hits[i] == 0 && f.counters.hitBytes[i] == 0
  }

  lemma InsertBlank<T>(s: seq<T>, n: nat, pos: nat, x: T, blank: T)
    requires pos <= n < |s| && forall i :: n <= i < |s| ==> s[i] == blank
    ensures |Inserted(s, n, pos, x)| == |s| && forall i :: n + 1 <= i < |s| ==> Inserted(s, n, pos, x)[i] == blank
  {
  }

  lemma DeleteBlank<T>(s: seq<T>, n: nat, idx: nat, blank: T)
    requires idx < n <= |s| && forall i :: n <= i < |s| ==> s[i] == blank
    ensures |Deleted(s, n, idx, blank)| == |s| && forall i :: n - 1 <= i < |s| ==> Deleted(s, n, idx, blank)[i] == blank
  {
  }

  lemma AddBlank(f: Fw, pos: nat, rule: Rule)
    requires BlankAfter(f)
    ensures BlankAfter(Change(f, AddRule(pos, rule)).f)
  {
    var n := f.cfg.nrules;
    if n < MAX_RULES && pos <= n {
      InsertBlank(f.cfg.rules, n, pos, rule, EMPTY_RULE);
      InsertBlank(f.counters.hits, n, pos, 0, 0);
      InsertBlank(f.counters.hitBytes, n, pos, 0, 0);
    }
  }

  lemma DelBlank(f: Fw, idx: nat)
    requires BlankAfter(f)
    ensures BlankAfter(Change(f, DelRule(idx)).f)
  {
    var n := f.cfg.nrules;
    if idx < n {
      DeleteBlank(f.cfg.rules, n, idx, EMPTY_RULE);
      DeleteBlank(f.counters.hits, n, idx, 0);
      DeleteBlank(f.counters.hitBytes, n, idx, 0);
    }
  }

  lemma AdministerBlank(f: Fw, op: Op)
    requires BlankAfter(f)
    ensures BlankAfter(Administer(f, op).f)
  {
    match op
    case AddRule(pos, rule) => AddBlank(f, pos, rule);
    case DelRule(idx) => DelBlank(f, idx);
    case _ =>
  }

  lemma FilterBlank(f: Fw, p: Pkt, now: u32)
    requires BlankAfter(f)
    ensures BlankAfter(Filter(f, p, now).f)
  {
  }

  lemma {:induction false} RunBlank(es: seq<Event>)
    ensures BlankAfter(Run(es))
  {
    if es != [] {
      var pre, e := es[..|es| - 1], es[|es| - 1];
      RunBlank(pre);
      match e
      case Packet(p, now, commit) => if commit { FilterBlank(Run(pre), p, now); }
      case Admin(op) => AdministerBlank(Run(pre), op);
    }
  }

  /** In every reachable state, deleting the rule that was just inserted gives the whole state
      back, hit counters included. */
  lemma InsertThenDelete(es: seq<Event>, pos: nat, rule: Rule)
    requires !Run(es).cfg.locked && pos <= Run(es).cfg.nrules < MAX_RULES
    ensures Administer(Administer(Run(es), AddRule(pos, rule)).f, DelRule(pos)).f == Run(es)
  {
    RunBlank(es);
    var f := Run(es);
    InsertedDeleted(f.cfg.rules, f.cfg.nrules, pos, rule, EMPTY_RULE);
    InsertedDeleted(f.counters.hits, f.cfg.nrules, pos, 0, 0);
    InsertedDeleted(f.counters.hitBytes, f.cfg.nrules, pos, 0, 0);
  }

  lemma InsertedDeleted<T>(s: seq<T>, n: nat, pos: nat, x: T, blank: T)
    requires pos <= n < |s| && s[n] == blank
    ensures |Inserted(s, n, pos, x)| == |s| && Deleted(Inserted(s, n, pos, x), n + 1, pos, blank) == s
  {
  }
}
