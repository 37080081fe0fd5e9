/** What a rule means: the packets it asks for, against the masks and flags it is stored as. */
module FirewallRules {
  import opened Words
  import opened FirewallTypes

  /** Addresses that agree with `ip` in their first `bits` bits. */
  datatype Net = Anywhere | Net(ip: u32, bits: nat)

  datatype Ports = AnyPort | Ports(lo: u16, hi: u16)

  /** A rule as its text puts it; protocol 0 is any, no state listed is any state. */
  datatype Wish = Wish(dir: u8, proto: u8, accept: bool, log: bool, src: Net, dst: Net,
                       sport: Ports, dport: Ports, states: set<u8>, icmpType: Option<u8>)

  const STATES: set<u8> := {ST_NEW, ST_ESTABLISHED, ST_RELATED, ST_INVALID}

  predicate Proper(w: Wish) {
    && (w.src.Net? ==> w.src.bits <= 32) && (w.dst.Net? ==> w.dst.bits <= 32) && w.states <= STATES
  }

  // ---- how it is stored ----

  /** The `bits` high bits of a word. */
  function Mask(bits: nat): u32
    requires bits <= 32
  {
    Pow2AtMost(32 - bits);
    Power32();
    if bits == 0 then 0 else TWO32 - Pow2(32 - bits)
  }

  function MaskOf(n: Net): u32
    requires n.Net? ==> n.bits <= 32
  {
    match n case Anywhere => 0 case Net(_, bits) => Mask(bits)
  }

  function NetworkOf(n: Net): u32
    requires n.Net? ==> n.bits <= 32
  {
    match n case Anywhere => 0 case Net(ip, bits) => And32(ip, Mask(bits))
  }

  function Flag(states: set<u8>, s: u8): u8
    requires s in STATES
  {
    if s in states then s else 0
  }

  function StateMask(states: set<u8>): u8 {
    Flag(states, ST_NEW) + Flag(states, ST_ESTABLISHED) + Flag(states, ST_RELATED) + Flag(states, ST_INVALID)
  }

  function Stored(w: Wish): Rule
    requires Proper(w)
  {
    Rule(w.dir, w.proto, w.accept, w.log, NetworkOf(w.src), MaskOf(w.src), NetworkOf(w.dst), MaskOf(w.dst),
         w.sport.Ports?, if w.sport.Ports? then w.sport.lo else 0, if w.sport.Ports? then w.sport.hi else 0,
         w.dport.Ports?, if w.dport.Ports? then w.dport.lo else 0, if w.dport.Ports? then w.dport.hi else 0,
         StateMask(w.states), w.icmpType.Some?, if w.icmpType.Some? then w.icmpType.value else 0)
  }

  // ---- what it asks for ----

  predicate Within(ip: u32, n: Net) {
    n.Anywhere? || (n.bits <= 32 && ip / Pow2(32 - n.bits) == n.ip / Pow2(32 - n.bits))
  }

  predicate PortIn(p: Pkt, port: u16, ports: Ports) {
    ports.AnyPort? || ((p.proto == PROTO_TCP || p.proto == PROTO_UDP) && ports.lo <= port <= ports.hi)
  }

  predicate AsksFor(w: Wish, p: Pkt, state: u8) {
    && w.dir in {DIR_ANY, p.dir} && w.proto in {0, p.proto}
    && Within(p.src, w.src) && Within(p.dst, w.dst) && PortIn(p, p.sport, w.sport) && PortIn(p, p.dport, w.dport)
    && (w.states == {} || state in w.states)
    && (w.icmpType.None? || (p.proto == PROTO_ICMP && p.icmpType == w.icmpType.value))
  }

  // ---- the two agree ----

  lemma {:induction false} Pow2AtMost(k: nat)
    requires k <= 32
    ensures Pow2(k) <= Pow2(32)
    decreases 32 - k
  {
    if k < 32 {
      Pow2AtMost(k + 1);
    }
  }

  lemma Power32()
    ensures Pow2(32) == TWO32
  {
    assert Pow2(8) == 0x100 && Pow2(16) == 0x1_0000 && Pow2(24) == 0x100_0000;
  }

  /** A mask of all bits keeps every bit. */
  lemma {:induction false} AndAll(x: nat, n: nat)
    requires x < Pow2(n)
    ensures AndBits(x, Pow2(n) - 1, n) == x
  {
    if n > 0 {
      var m := Pow2(n) - 1;
      assert m == 2 * (Pow2(n - 1) - 1) + 1;
      assert m / 2 == Pow2(n - 1) - 1 && m % 2 == 1;
      AndAll(x / 2, n - 1);
    }
  }

  /** A mask of the high bits clears the `k` low ones. */
  lemma {:induction false} AndHigh(x: nat, n: nat, k: nat)
    requires x < Pow2(n) && k <= n
    ensures Pow2(k) <= Pow2(n) && AndBits(x, Pow2(n) - Pow2(k), n) == x / Pow2(k) * Pow2(k)
    decreases k
  {
    if k == 0 {
      AndAll(x, n);
    } else {
      AndHigh(x / 2, n - 1, k - 1);
      var m := Pow2(n) - Pow2(k);
      assert m == 2 * (Pow2(n - 1) - Pow2(k - 1));
      assert m / 2 == Pow2(n - 1) - Pow2(k - 1) && m % 2 == 0;
      HalfQuotient(x, Pow2(k - 1));
    }
  }

  lemma HalfQuotient(x: nat, q: nat)
    requires q > 0
    ensures x / (2 * q) == x / 2 / q && 2 * (x / 2 / q * q) == x / (2 * q) * (2 * q)
  {
    var a := x / 2 / q;
    DivParts(x / 2, q);
    DivParts(x, 2 * q);
    var b := x / (2 * q);
    assert a * (2 * q) == 2 * (a * q);
    if a < b {
      BlocksApart(a, b, 2 * q);
    } else if b < a {
      BlocksApart(b, a, 2 * q);
    }
  }

  lemma MaskedIs(x: u32, bits: nat)
    requires bits <= 32
    ensures And32(x, Mask(bits)) == x / Pow2(32 - bits) * Pow2(32 - bits)
  {
    Power32();
    AndHigh(x, 32, 32 - bits);
    if bits == 0 {
      assert x / Pow2(32) == 0;
    }
  }

  lemma SameQuotient(x: nat, y: nat, q: nat)
    requires q > 0
    ensures x / q * q == y / q * q <==> x / q == y / q
  {
    if x / q < y / q {
      BlocksApart(x / q, y / q, q);
    } else if y / q < x / q {
      BlocksApart(y / q, x / q, q);
    }
  }

  /** An address passes the mask exactly if it is in the network. */
  lemma PrefixMatches(x: u32, n: Net)
    requires n.Net? ==> n.bits <= 32
    ensures And32(x, MaskOf(n)) == NetworkOf(n) <==> Within(x, n)
  {
    if n.Net? {
      MaskedIs(x, n.bits);
      MaskedIs(n.ip, n.bits);
      SameQuotient(x, n.ip, Pow2(32 - n.bits));
    }
  }

  lemma StatesMatch(states: set<u8>, state: u8)
    requires states <= STATES && state in STATES
    ensures StateMask(states) == 0 <==> states == {}
    ensures And8(StateMask(states), state) != 0 <==> state in states
  {
    if states != {} {
      var s :| s in states;
      assert s in STATES;
    }
    StateBits(ST_NEW in states, ST_ESTABLISHED in states, ST_RELATED in states, ST_INVALID in states);
  }

  function Bits(n: bool, e: bool, r: bool, i: bool): u8 {
    (if n then ST_NEW else 0) + (if e then ST_ESTABLISHED else 0) + (if r then ST_RELATED else 0)
    + (if i then ST_INVALID else 0)
  }

  lemma StateBits(n: bool, e: bool, r: bool, i: bool)
    ensures And8(Bits(n, e, r, i), ST_NEW) != 0 <==> n
    ensures And8(Bits(n, e, r, i), ST_ESTABLISHED) != 0 <==> e
    ensures And8(Bits(n, e, r, i), ST_RELATED) != 0 <==> r
    ensures And8(Bits(n, e, r, i), ST_INVALID) != 0 <==> i
  {
  }

  /** A stored rule matches a packet exactly if the rule as written asks for it. */
  lemma MatchesExactly(w: Wish, p: Pkt, state: u8)
    requires Proper(w) && state in STATES
    ensures Stored(w).Matches(p, state) <==> AsksFor(w, p, state)
  {
    PrefixMatches(p.src, w.src);
    PrefixMatches(p.dst, w.dst);
    StatesMatch(w.states, state);
  }
}
