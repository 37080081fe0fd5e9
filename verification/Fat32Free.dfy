/** Counting free clusters, and what taking and freeing chains does to them. */
module Fat32Free {
  import opened Words
  import opened Fat32Chain

  ghost function FreeSet(fat: seq<nat>): set<nat> {
    set c | 2 <= c < |fat| && fat[c] == 0
  }

  ghost function Clusters(cs: seq<nat>): set<nat> {
    set c | c in cs
  }

  /** `cs` are different clusters, free in `fat`. */
  ghost predicate FreshIn(fat: seq<nat>, cs: seq<nat>) {
    Distinct(cs) && forall i :: 0 <= i < |cs| ==> 2 <= cs[i] < |fat| && fat[cs[i]] == 0
  }

  lemma {:induction false} ClustersSize(cs: seq<nat>)
    requires Distinct(cs)
    ensures |Clusters(cs)| == |cs|
  {
    if cs != [] {
      var n := |cs| - 1;
      ClustersSize(cs[..n]);
      assert Clusters(cs) == Clusters(cs[..n]) + {cs[n]};
    }
  }

  /** Taking free clusters removes exactly those from the free set. */
  lemma FreeAfterLink(fat: seq<nat>, cs: seq<nat>)
    requires FreshIn(fat, cs)
    ensures FreeSet(Linked(fat, cs)) == FreeSet(fat) - Clusters(cs)
    ensures |FreeSet(Linked(fat, cs))| == |FreeSet(fat)| - |cs|
  {
    var f := Linked(fat, cs);
    forall c | 2 <= c < |fat| ensures c in FreeSet(f) <==> c in FreeSet(fat) - Clusters(cs) {
      if c in cs {
        LinkedIsChain(fat, cs);
        ChainInUse(f, cs, c);
      } else {
        LinkedFrame(fat, cs, c);
      }
    }
    assert Clusters(cs) <= FreeSet(fat);
    ClustersSize(cs);
  }

  lemma FreshExtends(fat: seq<nat>, cs: seq<nat>, c: nat)
    requires FreshIn(fat, cs) && 2 <= c < |fat| && Linked(fat, cs)[c] == 0
    ensures FreshIn(fat, cs + [c])
  {
    if c in cs {
      LinkedIsChain(fat, cs);
      ChainInUse(Linked(fat, cs), cs, c);
    } else {
      LinkedFrame(fat, cs, c);
    }
  }

  // ---- freeing ----

  /** Part-way through freeing: `zs` are zeroed, all reached from `first` in the original
      table, and the walk is at `c`, the only place a pointer out of `zs` can lead. */
  ghost predicate Zeroed(fat: seq<nat>, cur: seq<nat>, first: nat, zs: set<nat>, n: nat, c: nat) {
    && |cur| == |fat|
    && (forall x :: 0 <= x < |fat| ==> cur[x] == if x in zs then 0 else fat[x])
    && (forall z :: z in zs ==> InTable(fat, z) && Reaches(fat, first, z))
    && (forall z :: z in zs && InTable(fat, fat[z]) ==> fat[z] in zs || fat[z] == c)
    && (InTable(fat, first) ==> first in zs || first == c)
    && (InTable(fat, c) ==> Walk(fat, first, n) == c)
  }

  /** `Freeing` is unfolded where `LookAtFreeing(0)` is asserted and nowhere else: it is kept out of
      the proofs that do not need to look inside. */
  predicate LookAtFreeing(k: int) {
    true
  }

  ghost predicate Freeing(fat: seq<nat>, cur: seq<nat>, first: nat, zs: set<nat>, n: nat, c: nat) {
    && |cur| == |fat| && (c < |fat| || c >= EOC)
    && forall k: int :: LookAtFreeing(k) ==> Zeroed(fat, cur, first, zs, n, c)
  }

  lemma FreeStart(fat: seq<nat>, first: nat)
    requires first < |fat| || first >= EOC
    ensures Freeing(fat, fat, first, {}, 0, first)
  {
  }

  /** Every pointer met on the way from `c` stays in the table or ends the chain. */
  ghost predicate ClosedFrom(fat: seq<nat>, c: nat) {
    && (c < |fat| || c >= EOC)
    && forall x: nat :: Reaches(fat, c, x) ==> fat[x] < |fat| || fat[x] >= EOC
  }

  /** What is left to free. */
  ghost function Left(fat: seq<nat>, zs: set<nat>): set<nat> {
    set x | 2 <= x < |fat| && x !in zs
  }

  lemma FreeStep(fat: seq<nat>, cur: seq<nat>, first: nat, zs: set<nat>, n: nat, c: nat)
    requires |fat| <= EOC && ClosedFrom(fat, first) && Freeing(fat, cur, first, zs, n, c) && InTable(fat, c)
    ensures Freeing(fat, cur[c := 0], first, zs + {c}, n + 1, cur[c])
    ensures c in zs ==> cur[c] == 0
    ensures c !in zs ==> |Left(fat, zs + {c})| < |Left(fat, zs)|
    ensures c in zs ==> Left(fat, zs + {c}) == Left(fat, zs)
  {
    assert LookAtFreeing(0);
    assert Reaches(fat, first, c);
    WalkStep(fat, first, n);
    if c !in zs {
      assert Left(fat, zs + {c}) == Left(fat, zs) - {c};
    }
  }

  /** Exactly the clusters `first` reaches are zeroed. */
  ghost predicate FreedFrom(fat: seq<nat>, fat': seq<nat>, first: nat) {
    |fat'| == |fat| && forall x :: 0 <= x < |fat| ==> fat'[x] == if Reaches(fat, first, x) then 0 else fat[x]
  }

  /** When the walk has left the table, exactly the reachable clusters are zeroed. */
  lemma FreeDone(fat: seq<nat>, cur: seq<nat>, first: nat, zs: set<nat>, n: nat, c: nat)
    requires Freeing(fat, cur, first, zs, n, c) && !InTable(fat, c)
    ensures FreedFrom(fat, cur, first)
  {
    assert LookAtFreeing(0);
    forall x | 0 <= x < |fat| ensures Reaches(fat, first, x) <==> x in zs {
      if Reaches(fat, first, x) {
        var k: nat :| Walk(fat, first, k) == x;
        ClosedUnderWalk(fat, zs, first, k);
      }
    }
  }

  // ---- taking ----

  /** Taking one more free cluster: mark it as the end, then link it from the one before. */
  lemma TakeStep(fat: seq<nat>, cs: seq<nat>, c: nat)
    requires |fat| <= EOC && FreshIn(fat, cs) && 2 <= c < |fat| && Linked(fat, cs)[c] == 0
    ensures FreshIn(fat, cs + [c])
    ensures var f := Linked(fat, cs)[c := EOC];
            Linked(fat, cs + [c]) == if cs == [] then f else f[cs[|cs| - 1] := c]
  {
    FreshExtends(fat, cs, c);
    LinkedStep(fat, cs, c);
  }

  /** The clusters `cs`, and only those, are zeroed. */
  ghost predicate Freed(fat: seq<nat>, fat': seq<nat>, cs: seq<nat>) {
    |fat'| == |fat| && forall c :: 0 <= c < |fat| ==> fat'[c] == if c in cs then 0 else fat[c]
  }

  lemma ChainCloses(fat: seq<nat>, cs: seq<nat>)
    requires |fat| <= EOC && IsChain(fat, cs)
    ensures ClosedFrom(fat, cs[0])
  {
    forall x: nat | Reaches(fat, cs[0], x) ensures fat[x] < |fat| || fat[x] >= EOC {
      ChainReaches(fat, cs, x);
      var i :| 0 <= i < |cs| && cs[i] == x;
      assert i < |cs| - 1 ==> fat[cs[i]] == cs[i + 1];
    }
  }

  lemma NothingToFree(fat: seq<nat>, c: nat)
    requires 2 <= |fat| <= EOC && (c < 2 || c >= EOC)
    ensures ClosedFrom(fat, c) && forall x: nat :: !Reaches(fat, c, x)
  {
  }

  /** Freeing what a chain reaches frees the chain. */
  lemma FreedChain(fat: seq<nat>, fat': seq<nat>, cs: seq<nat>)
    requires |fat| <= EOC && IsChain(fat, cs) && FreedFrom(fat, fat', cs[0])
    ensures Freed(fat, fat', cs)
  {
    forall x | 0 <= x < |fat| ensures fat'[x] == if x in cs then 0 else fat[x] {
      ChainReaches(fat, cs, x);
    }
  }

  /** Freeing the clusters that were just taken gives the table back as it was. */
  lemma TakeThenFree(fat: seq<nat>, cs: seq<nat>, fat': seq<nat>)
    requires FreshIn(fat, cs) && Freed(Linked(fat, cs), fat', cs)
    ensures fat' == fat
  {
    forall c | 0 <= c < |fat| ensures fat'[c] == fat[c] {
      if c !in cs {
        LinkedFrame(fat, cs, c);
      }
    }
  }

  lemma FreedSet(fat: seq<nat>, fat': seq<nat>, cs: seq<nat>)
    requires Freed(fat, fat', cs) && forall i :: 0 <= i < |cs| ==> InTable(fat, cs[i])
    ensures FreeSet(fat') == FreeSet(fat) + Clusters(cs)
  {
  }
}
