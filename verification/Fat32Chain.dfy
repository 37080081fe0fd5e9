/** Cluster chains in a file allocation table, as a sequence of 28-bit entries. */
module Fat32Chain {

  /** FAT32_END_OF_CHAIN: this value and everything above it ends a chain. */
  const EOC := 0x0FFF_FFF8

  predicate InTable(fat: seq<nat>, c: nat) {
    2 <= c < |fat|
  }

  ghost predicate Distinct(cs: seq<nat>) {
    forall i, j :: 0 <= i < j < |cs| ==> cs[i] != cs[j]
  }

  /** `cs` lists, in order, the clusters of a chain that ends. */
  ghost predicate IsChain(fat: seq<nat>, cs: seq<nat>) {
    && cs != [] && Distinct(cs)
    && (forall i :: 0 <= i < |cs| ==> InTable(fat, cs[i]))
    && (forall i :: 0 <= i < |cs| - 1 ==> fat[cs[i]] == cs[i + 1])
    && fat[cs[|cs| - 1]] >= EOC
  }

  /** Following the table from `c` while the pointer stays in it, for at most `fuel` steps. */
  function Follow(fat: seq<nat>, c: nat, fuel: nat): seq<nat>
    decreases fuel
  {
    if fuel == 0 || !InTable(fat, c) then [] else [c] + Follow(fat, fat[c], fuel - 1)
  }

  /** The chain that starts at `c`; no chain that ends is longer than the table. */
  function Chain(fat: seq<nat>, c: nat): seq<nat> {
    Follow(fat, c, |fat|)
  }

  lemma {:induction false} FollowIsChain(fat: seq<nat>, cs: seq<nat>, fuel: nat)
    requires |fat| <= EOC && IsChain(fat, cs) && |cs| <= fuel
    ensures Follow(fat, cs[0], fuel) == cs
  {
    if |cs| == 1 {
      assert Follow(fat, fat[cs[0]], fuel - 1) == [];
    } else {
      var rest := cs[1..];
      assert IsChain(fat, rest) by {
        assert forall i :: 0 <= i < |rest| ==> rest[i] == cs[i + 1];
      }
      FollowIsChain(fat, rest, fuel - 1);
      assert cs == [cs[0]] + rest;
    }
  }

  lemma {:induction false} DistinctBound(cs: seq<nat>, n: nat)
    requires Distinct(cs) && forall i :: 0 <= i < |cs| ==> cs[i] < n
    ensures |cs| <= n
  {
    if cs != [] {
      assert cs[0] < n;
      if n - 1 in cs {
        var k :| 0 <= k < |cs| && cs[k] == n - 1;
        var rest := cs[..k] + cs[k + 1..];
        assert forall i :: 0 <= i < |rest| ==> rest[i] == if i < k then cs[i] else cs[i + 1];
        DistinctBound(rest, n - 1);
      } else {
        DistinctBound(cs, n - 1);
      }
    }
  }

  lemma ChainIs(fat: seq<nat>, cs: seq<nat>)
    requires |fat| <= EOC && IsChain(fat, cs)
    ensures Chain(fat, cs[0]) == cs
  {
    DistinctBound(cs, |fat|);
    FollowIsChain(fat, cs, |fat|);
  }

  /** A chain is not disturbed by changes elsewhere in the table. */
  lemma ChainFrame(fat: seq<nat>, fat': seq<nat>, cs: seq<nat>)
    requires IsChain(fat, cs) && |fat'| == |fat|
    requires forall i :: 0 <= i < |cs| ==> fat'[cs[i]] == fat[cs[i]]
    ensures IsChain(fat', cs)
  {
  }

  /** Every cluster of a chain is in use. */
  lemma ChainInUse(fat: seq<nat>, cs: seq<nat>, c: nat)
    requires IsChain(fat, cs) && c in cs
    ensures InTable(fat, c) && fat[c] != 0
  {
    var i :| 0 <= i < |cs| && cs[i] == c;
    assert i < |cs| - 1 ==> fat[cs[i]] == cs[i + 1] && InTable(fat, cs[i + 1]);
  }

  // ---- allocation ----

  /** The table after `cs` have been taken one by one, each marked as the end and then
      linked from the one before. */
  function Linked(fat: seq<nat>, cs: seq<nat>): (r: seq<nat>)
    requires forall i :: 0 <= i < |cs| ==> cs[i] < |fat|
    ensures |r| == |fat|
  {
    if cs == [] then fat
    else
      var n := |cs| - 1;
      var f := Linked(fat, cs[..n])[cs[n] := EOC];
      if n == 0 then f else f[cs[n - 1] := cs[n]]
  }

  lemma LinkedStep(fat: seq<nat>, cs: seq<nat>, c: nat)
    requires c < |fat| && forall i :: 0 <= i < |cs| ==> cs[i] < |fat|
    ensures var f := Linked(fat, cs)[c := EOC];
            Linked(fat, cs + [c]) == if cs == [] then f else f[cs[|cs| - 1] := c]
  {
    assert (cs + [c])[..|cs|] == cs;
  }

  lemma {:induction false} LinkedFrame(fat: seq<nat>, cs: seq<nat>, c: nat)
    requires forall i :: 0 <= i < |cs| ==> cs[i] < |fat|
    requires c < |fat| && c !in cs
    ensures Linked(fat, cs)[c] == fat[c]
  {
    if cs != [] {
      assert forall i :: 0 <= i < |cs| ==> cs[i] in cs;
      LinkedFrame(fat, cs[..|cs| - 1], c);
    }
  }

  /** Taking distinct clusters one by one leaves them a chain in that order. */
  lemma {:induction false} LinkedIsChain(fat: seq<nat>, cs: seq<nat>)
    requires cs != [] && Distinct(cs) && forall i :: 0 <= i < |cs| ==> 2 <= cs[i] < |fat|
    ensures IsChain(Linked(fat, cs), cs)
  {
    var n := |cs| - 1;
    var f := Linked(fat, cs);
    if n > 0 {
      var pre := cs[..n];
      LinkedIsChain(fat, pre);
      forall i | 0 <= i < n ensures f[cs[i]] == cs[i + 1] {
        if i < n - 1 {
          assert pre[i] == cs[i] && pre[i + 1] == cs[i + 1];
        }
      }
    }
  }

  /** Hanging one more cluster, marked as an end, on the last cluster of a chain. */
  lemma ChainExtends(fat: seq<nat>, cs: seq<nat>, c: nat)
    requires IsChain(fat, cs) && c !in cs && InTable(fat, c) && fat[c] >= EOC
    ensures IsChain(fat[cs[|cs| - 1] := c], cs + [c])
  {
    var fat', ds := fat[cs[|cs| - 1] := c], cs + [c];
    assert forall i :: 0 <= i < |cs| ==> cs[i] in cs;
    forall i | 0 <= i < |ds| - 1 ensures fat'[ds[i]] == ds[i + 1] {
      if i < |cs| - 1 {
        assert cs[i] != cs[|cs| - 1];
      }
    }
  }

  // ---- freeing ----

  /** Where `k` steps along the table lead; 0 once the walk has left it. */
  function Walk(fat: seq<nat>, c: nat, k: nat): nat
    decreases k
  {
    if k == 0 then c else if InTable(fat, c) then Walk(fat, fat[c], k - 1) else 0
  }

  ghost predicate Reaches(fat: seq<nat>, c: nat, x: nat) {
    InTable(fat, x) && exists k: nat :: Walk(fat, c, k) == x
  }

  lemma {:induction false} WalkStep(fat: seq<nat>, c: nat, k: nat)
    ensures Walk(fat, c, k + 1) == if InTable(fat, Walk(fat, c, k)) then fat[Walk(fat, c, k)] else 0
    decreases k
  {
    if k > 0 && InTable(fat, c) {
      WalkStep(fat, fat[c], k - 1);
    }
  }

  /** A set of clusters that contains `c` and that no pointer leaves contains all `c` reaches. */
  lemma {:induction false} ClosedUnderWalk(fat: seq<nat>, zs: set<nat>, c: nat, k: nat)
    requires InTable(fat, c) ==> c in zs
    requires forall z :: z in zs ==> InTable(fat, z) && (InTable(fat, fat[z]) ==> fat[z] in zs)
    ensures InTable(fat, Walk(fat, c, k)) ==> Walk(fat, c, k) in zs
    decreases k
  {
    if k > 0 && InTable(fat, c) {
      ClosedUnderWalk(fat, zs, fat[c], k - 1);
    }
  }

  /** A chain that ends reaches exactly its own clusters. */
  lemma ChainReaches(fat: seq<nat>, cs: seq<nat>, x: nat)
    requires |fat| <= EOC && IsChain(fat, cs)
    ensures Reaches(fat, cs[0], x) <==> x in cs
  {
    var zs := set c | c in cs;
    if Reaches(fat, cs[0], x) {
      var k: nat :| Walk(fat, cs[0], k) == x;
      forall z | z in zs ensures InTable(fat, z) && (InTable(fat, fat[z]) ==> fat[z] in zs) {
        var i :| 0 <= i < |cs| && cs[i] == z;
        if i < |cs| - 1 {
          assert fat[z] == cs[i + 1];
        }
      }
      ClosedUnderWalk(fat, zs, cs[0], k);
    }
    if x in cs {
      var i :| 0 <= i < |cs| && cs[i] == x;
      WalkAlong(fat, cs, i);
    }
  }

  lemma {:induction false} WalkAlong(fat: seq<nat>, cs: seq<nat>, i: nat)
    requires IsChain(fat, cs) && i < |cs|
    ensures Walk(fat, cs[0], i) == cs[i]
  {
    if i > 0 {
      WalkAlong(fat, cs, i - 1);
      WalkStep(fat, cs[0], i - 1);
    }
  }
}
