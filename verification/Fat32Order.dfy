/** Which free entries the allocator takes: the first ones in cyclic order from its hint; and
    exactly when those all stand for clusters of the volume. */
module Fat32Order {
  import opened Words
  import opened Fat32Chain
  import opened Fat32Free

  /** Where the cyclic scan for a free entry starts. */
  function ScanStart(hint: nat, entries: nat): nat {
    if hint < 2 || hint >= entries then 2 else hint
  }

  /** `r` is the first free entry at or after `start`, wrapping round to 2; 0 if none is free. */
  ghost predicate FirstFree(fat: seq<nat>, start: nat, r: nat) {
    if r == 0 then forall c :: 2 <= c < |fat| ==> fat[c] != 0
    else
      && 2 <= r < |fat| && fat[r] == 0
      && (r >= start ==> forall c :: start <= c < r ==> fat[c] != 0)
      && (r < start ==> (forall c :: start <= c < |fat| ==> fat[c] != 0) && forall c :: 2 <= c < r ==> fat[c] != 0)
  }

  /** How far round the table of `n` entries `c` is from `start`. */
  function Rank(start: nat, n: nat, c: nat): int {
    if c >= start then c - start else c + n - start
  }

  /** `cs` are the first free entries of `fat`, cyclically from `start`, in that order. */
  ghost predicate InOrder(fat: seq<nat>, start: nat, cs: seq<nat>) {
    && FreshIn(fat, cs)
    && (forall i, j :: 0 <= i < j < |cs| ==> Rank(start, |fat|, cs[i]) < Rank(start, |fat|, cs[j]))
    && (forall i, c :: 0 <= i < |cs| && c in FreeSet(fat) && c !in cs ==>
          Rank(start, |fat|, cs[i]) < Rank(start, |fat|, c))
  }

  /** Where the hint stands once `cs` have been taken. */
  function HintAfter(hint: nat, cs: seq<nat>): nat {
    if cs == [] then hint else cs[|cs| - 1] + 1
  }

  lemma FirstIsLeast(fat: seq<nat>, start: nat, r: nat, c: nat)
    requires FirstFree(fat, start, r) && r != 0 && c in FreeSet(fat) && c != r && start < |fat|
    ensures Rank(start, |fat|, r) < Rank(start, |fat|, c)
  {
  }

  /** Going on from just past `last` meets what is left in the same order. */
  lemma Rotate(start: nat, n: nat, last: nat, r: nat, c: nat)
    requires 2 <= start < n && 2 <= last < n && 2 <= r < n && 2 <= c < n
    requires Rank(start, n, last) < Rank(start, n, r) && Rank(start, n, last) < Rank(start, n, c)
    requires Rank(ScanStart(last + 1, n), n, r) < Rank(ScanStart(last + 1, n), n, c)
    ensures Rank(start, n, r) < Rank(start, n, c)
  {
  }

  /** The next entry taken is the next in order. */
  lemma NextInOrder(fat: seq<nat>, hint: nat, cs: seq<nat>, r: nat)
    requires |fat| > 2 && InOrder(fat, ScanStart(hint, |fat|), cs) && r != 0
    requires FirstFree(Linked(fat, cs), ScanStart(HintAfter(hint, cs), |fat|), r)
    ensures InOrder(fat, ScanStart(hint, |fat|), cs + [r])
  {
    var start := ScanStart(hint, |fat|);
    FreeAfterLink(fat, cs);
    assert r in FreeSet(Linked(fat, cs));
    FreshExtends(fat, cs, r);
    forall c | c in FreeSet(fat) && c !in cs && c != r ensures Rank(start, |fat|, r) < Rank(start, |fat|, c) {
      assert c in FreeSet(Linked(fat, cs));
      NextBefore(fat, hint, cs, r, c);
    }
    OrderExtends(fat, start, cs, r);
  }

  lemma NextBefore(fat: seq<nat>, hint: nat, cs: seq<nat>, r: nat, c: nat)
    requires |fat| > 2 && InOrder(fat, ScanStart(hint, |fat|), cs) && r != 0
    requires FirstFree(Linked(fat, cs), ScanStart(HintAfter(hint, cs), |fat|), r)
    requires r in FreeSet(fat) && r !in cs && c in FreeSet(fat) && c !in cs && c != r && c in FreeSet(Linked(fat, cs))
    ensures Rank(ScanStart(hint, |fat|), |fat|, r) < Rank(ScanStart(hint, |fat|), |fat|, c)
  {
    FirstIsLeast(Linked(fat, cs), ScanStart(HintAfter(hint, cs), |fat|), r, c);
    if cs != [] {
      Rotate(ScanStart(hint, |fat|), |fat|, cs[|cs| - 1], r, c);
    }
  }

  lemma OrderExtends(fat: seq<nat>, start: nat, cs: seq<nat>, r: nat)
    requires InOrder(fat, start, cs) && FreshIn(fat, cs + [r]) && r !in cs
    requires forall c :: c in FreeSet(fat) && c !in cs && c != r ==> Rank(start, |fat|, r) < Rank(start, |fat|, c)
    ensures InOrder(fat, start, cs + [r])
  {
    assert (cs + [r])[|cs|] == r;
    assert r in FreeSet(fat);
  }

  /** `Taken` is unfolded where `LookAtTaken(0)` is asserted and nowhere else. */
  predicate LookAtTaken(k: int) {
    true
  }

  /** From the table `all` and the hint `from`, taking `cs` has led to `now` and `hint`. */
  ghost predicate Taken(all: seq<nat>, from: nat, cs: seq<nat>, now: seq<nat>, hint: nat) {
    forall k: int :: LookAtTaken(k) ==>
      InOrder(all, ScanStart(from, |all|), cs) && now == Linked(all, cs) && hint == HintAfter(from, cs)
  }

  lemma TakenStart(all: seq<nat>, from: nat)
    ensures Taken(all, from, [], all, from)
  {
  }

  lemma TakenFacts(all: seq<nat>, from: nat, cs: seq<nat>, now: seq<nat>, hint: nat)
    requires Taken(all, from, cs, now, hint)
    ensures InOrder(all, ScanStart(from, |all|), cs) && now == Linked(all, cs) && hint == HintAfter(from, cs)
    ensures |cs| <= |FreeSet(all)| && (FreeSet(now) == {} ==> |cs| == |FreeSet(all)|)
  {
    assert LookAtTaken(0);
    FreeAfterLink(all, cs);
  }

  /** One more: it is marked as the end, and the one before linked to it. */
  lemma TakenNext(all: seq<nat>, from: nat, cs: seq<nat>, now: seq<nat>, hint: nat, r: nat)
    requires 2 < |all| <= EOC && |now| == |all| && Taken(all, from, cs, now, hint)
    requires r != 0 && FirstFree(now, ScanStart(hint, |all|), r) && (cs != [] ==> cs[|cs| - 1] < |now|)
    ensures var f := now[r := EOC];
            Taken(all, from, cs + [r], if cs == [] then f else f[cs[|cs| - 1] := r], r + 1)
    ensures |cs| < |FreeSet(all)|
  {
    assert LookAtTaken(0);
    assert r in FreeSet(now);
    FreeAfterLink(all, cs);
    NextInOrder(all, from, cs, r);
    TakeStep(all, cs, r);
  }

  // ---- staying in the volume ----

  ghost function FreeIn(fat: seq<nat>, from: nat, to: nat): set<nat> {
    set c | 2 <= c < |fat| && from <= c < to && fat[c] == 0
  }

  /** All of `cs` stand for clusters of a volume whose entries end at `limit`. */
  ghost predicate Below(cs: seq<nat>, limit: nat) {
    forall i :: 0 <= i < |cs| ==> cs[i] < limit
  }

  /** Taking up to `count` entries from `start` on does not come to one at or past `limit`: none
      of those is free, or there are enough free ones before them. */
  ghost predicate Stays(fat: seq<nat>, start: nat, limit: nat, count: nat) {
    || FreeIn(fat, limit, |fat|) == {}
    || (if start < limit then count <= |FreeIn(fat, start, limit)|
        else FreeIn(fat, start, |fat|) == {} && count <= |FreeIn(fat, 2, limit)|)
  }

  /** A full volume whose table has a free entry left: the allocator does not find it full. */
  lemma FullVolumeLeaves(fat: seq<nat>, rest: seq<nat>, start: nat, count: nat)
    requires FreeSet(fat) == {} && FreeSet(fat + rest) != {} && count > 0 && start >= 2
    ensures !Stays(fat + rest, start, |fat|, count)
  {
    FreeSplits(fat, rest);
    if start < |fat| {
      assert FreeIn(fat + rest, start, |fat|) <= FreeSet(fat);
    }
  }

  lemma StaysFewer(fat: seq<nat>, start: nat, limit: nat, count: nat, fewer: nat)
    requires Stays(fat, start, limit, count) && fewer <= count
    ensures Stays(fat, start, limit, fewer)
  {
  }

  lemma SubsetSize(a: set<nat>, b: set<nat>)
    requires a <= b
    ensures |a| <= |b| && (|a| == |b| ==> a == b)
  {
    assert b == a + (b - a);
    assert |b| == |a| + |b - a|;
  }

  lemma TakenAreFree(fat: seq<nat>, cs: seq<nat>)
    requires FreshIn(fat, cs)
    ensures Clusters(cs) <= FreeSet(fat) && |Clusters(cs)| == |cs| <= |FreeSet(fat)|
  {
    ClustersSize(cs);
    SubsetSize(Clusters(cs), FreeSet(fat));
  }

  /** All free entries that come before one taken are taken too, so there are fewer of them. */
  lemma BeforeTaken(fat: seq<nat>, start: nat, cs: seq<nat>, i: nat, s: set<nat>)
    requires InOrder(fat, start, cs) && i < |cs| && s <= FreeSet(fat) && cs[i] !in s
    requires forall c :: c in s ==> Rank(start, |fat|, c) < Rank(start, |fat|, cs[i])
    ensures |s| < |cs|
  {
    assert forall c :: c in s ==> c in cs;
    TakenAreFree(fat, cs);
    assert s + {cs[i]} <= Clusters(cs);
    SubsetSize(s + {cs[i]}, Clusters(cs));
  }

  lemma StaysBelow(fat: seq<nat>, start: nat, limit: nat, cs: seq<nat>, count: nat)
    requires InOrder(fat, start, cs) && 2 <= start < |fat| && 2 <= limit && |cs| <= count
    requires Stays(fat, start, limit, count)
    ensures Below(cs, limit)
  {
    forall i | 0 <= i < |cs| ensures cs[i] < limit {
      if cs[i] >= limit {
        assert cs[i] in FreeIn(fat, limit, |fat|);
        if start < limit {
          BeforeTaken(fat, start, cs, i, FreeIn(fat, start, limit));
        } else {
          assert cs[i] !in FreeIn(fat, start, |fat|);
          BeforeTaken(fat, start, cs, i, FreeIn(fat, 2, limit));
        }
        assert false;
      }
    }
  }

  /** If all that is taken lies in `s`, and a free entry outside is left, `s` had enough. */
  lemma EnoughIn(fat: seq<nat>, cs: seq<nat>, count: nat, s: set<nat>, x: nat)
    requires FreshIn(fat, cs) && |cs| == Min(count, |FreeSet(fat)|) && Clusters(cs) <= s
    requires x in FreeSet(fat) && x !in cs
    ensures count <= |s|
  {
    TakenAreFree(fat, cs);
    SubsetSize(Clusters(cs), s);
    if |cs| == |FreeSet(fat)| {
      SubsetSize(Clusters(cs), FreeSet(fat));
      assert false;
    }
  }

  lemma BelowStays(fat: seq<nat>, start: nat, limit: nat, cs: seq<nat>, count: nat)
    requires InOrder(fat, start, cs) && 2 <= start < |fat| && 2 <= limit
    requires count > 0 && |cs| == Min(count, |FreeSet(fat)|) && Below(cs, limit)
    ensures Stays(fat, start, limit, count)
  {
    if FreeIn(fat, limit, |fat|) != {} {
      if start < limit {
        var x :| x in FreeIn(fat, limit, |fat|);
        EnoughBefore(fat, start, limit, cs, count, x, FreeIn(fat, start, limit));
      } else if FreeIn(fat, start, |fat|) != {} {
        var x :| x in FreeIn(fat, start, |fat|);
        NoneTaken(fat, start, limit, cs, count, x);
      } else {
        var x :| x in FreeIn(fat, limit, |fat|);
        assert x !in FreeIn(fat, start, |fat|);
        EnoughBefore(fat, start, limit, cs, count, x, FreeIn(fat, 2, limit));
      }
    }
  }

  lemma EnoughBefore(fat: seq<nat>, start: nat, limit: nat, cs: seq<nat>, count: nat, x: nat, s: set<nat>)
    requires InOrder(fat, start, cs) && |cs| == Min(count, |FreeSet(fat)|) && Below(cs, limit)
    requires x in FreeSet(fat) && x >= limit
    requires forall c :: c in FreeSet(fat) && c < limit && Rank(start, |fat|, c) < Rank(start, |fat|, x) ==> c in s
    ensures count <= |s|
  {
    forall i | 0 <= i < |cs| ensures cs[i] in s {
      assert cs[i] in FreeSet(fat);
    }
    EnoughIn(fat, cs, count, s, x);
  }

  lemma NoneTaken(fat: seq<nat>, start: nat, limit: nat, cs: seq<nat>, count: nat, x: nat)
    requires InOrder(fat, start, cs) && count > 0 && |cs| == Min(count, |FreeSet(fat)|)
    requires limit <= start <= x && x in FreeSet(fat)
    ensures !Below(cs, limit)
  {
    TakenAreFree(fat, []);
    SubsetSize({x}, FreeSet(fat));
    assert cs != [];
    if x in cs {
      var j :| 0 <= j < |cs| && cs[j] == x;
    } else {
      assert Rank(start, |fat|, cs[0]) < Rank(start, |fat|, x);
    }
  }

  /** The allocator takes only clusters of the volume if and only if `Stays` says so. */
  lemma StaysExactly(fat: seq<nat>, start: nat, limit: nat, cs: seq<nat>, count: nat)
    requires InOrder(fat, start, cs) && 2 <= start < |fat| && 2 <= limit
    requires count > 0 && |cs| == Min(count, |FreeSet(fat)|)
    ensures Below(cs, limit) <==> Stays(fat, start, limit, count)
  {
    if Stays(fat, start, limit, count) {
      StaysBelow(fat, start, limit, cs, count);
    }
    if Below(cs, limit) {
      BelowStays(fat, start, limit, cs, count);
    }
  }

  lemma {:induction false} LeastFree(fat: seq<nat>, from: nat, end: nat) returns (r: nat)
    requires 2 <= from && end <= |fat| && FreeIn(fat, from, end) != {}
    ensures from <= r < end && fat[r] == 0 && forall c :: from <= c < r ==> fat[c] != 0
    decreases end - from
  {
    var x :| x in FreeIn(fat, from, end);
    if fat[from] == 0 {
      r := from;
    } else {
      assert x in FreeIn(fat, from + 1, end);
      r := LeastFree(fat, from + 1, end);
    }
  }

  lemma FirstExists(fat: seq<nat>, start: nat) returns (r: nat)
    requires 2 <= start < |fat| && FreeSet(fat) != {}
    ensures r != 0 && FirstFree(fat, start, r)
  {
    if FreeIn(fat, start, |fat|) != {} {
      r := LeastFree(fat, start, |fat|);
    } else {
      var x :| x in FreeSet(fat);
      assert x !in FreeIn(fat, start, |fat|) && x in FreeIn(fat, 2, start);
      forall c | start <= c < |fat| ensures fat[c] != 0 {
        assert c !in FreeIn(fat, start, |fat|);
      }
      r := LeastFree(fat, 2, start);
    }
  }

  /** Where `count` entries could be taken, and fewer have been, another one can. */
  lemma OneMoreStays(fat: seq<nat>, hint: nat, limit: nat, cs: seq<nat>, count: nat)
    requires |fat| > 2 && 2 <= limit && InOrder(fat, ScanStart(hint, |fat|), cs) && |cs| < count
    requires Stays(fat, ScanStart(hint, |fat|), limit, count)
    ensures Stays(Linked(fat, cs), ScanStart(HintAfter(hint, cs), |fat|), limit, 1)
  {
    var next, start := Linked(fat, cs), ScanStart(HintAfter(hint, cs), |fat|);
    if FreeSet(next) == {} {
      assert FreeIn(next, limit, |next|) <= FreeSet(next);
    } else {
      var r := FirstExists(next, start);
      NextInOrder(fat, hint, cs, r);
      StaysBelow(fat, ScanStart(hint, |fat|), limit, cs + [r], count);
      assert (cs + [r])[|cs|] == r;
      OnlyFirst(next, start, r);
      BelowStays(next, start, limit, [r], 1);
    }
  }

  lemma OnlyFirst(fat: seq<nat>, start: nat, r: nat)
    requires FirstFree(fat, start, r) && r != 0 && start < |fat|
    ensures InOrder(fat, start, [r]) && 1 == Min(1, |FreeSet(fat)|)
  {
    assert r in FreeSet(fat);
    SubsetSize({r}, FreeSet(fat));
    forall c | c in FreeSet(fat) && c !in [r] ensures Rank(start, |fat|, r) < Rank(start, |fat|, c) {
      FirstIsLeast(fat, start, r, c);
    }
  }

  // ---- the volume's part of the table ----

  lemma FreeSplits(fat: seq<nat>, rest: seq<nat>)
    ensures FreeSet(fat) == FreeIn(fat + rest, 2, |fat|)
    ensures FreeSet(fat + rest) == FreeSet(fat) + FreeIn(fat + rest, |fat|, |fat + rest|)
  {
  }

  /** Where the allocator stays in the volume, only the volume's free entries matter. */
  lemma StaysCounts(fat: seq<nat>, rest: seq<nat>, start: nat, count: nat)
    requires |fat| >= 2 && start >= 2 && Stays(fat + rest, start, |fat|, count)
    ensures count <= |FreeSet(fat + rest)| <==> count <= |FreeSet(fat)|
    ensures count > |FreeSet(fat + rest)| ==> FreeSet(fat + rest) == FreeSet(fat)
  {
    FreeSplits(fat, rest);
    SubsetSize(FreeSet(fat), FreeSet(fat + rest));
    SubsetSize(FreeIn(fat + rest, start, |fat|), FreeSet(fat));
  }

  lemma {:induction false} LinkedInside(fat: seq<nat>, rest: seq<nat>, cs: seq<nat>)
    requires Below(cs, |fat|)
    ensures Linked(fat + rest, cs) == Linked(fat, cs) + rest
  {
    if cs != [] {
      LinkedInside(fat, rest, cs[..|cs| - 1]);
    }
  }

  lemma FreshInside(fat: seq<nat>, rest: seq<nat>, cs: seq<nat>)
    requires FreshIn(fat + rest, cs) && Below(cs, |fat|)
    ensures FreshIn(fat, cs)
  {
  }

  lemma SplitEqual(a: seq<nat>, b: seq<nat>, c: seq<nat>, d: seq<nat>)
    requires a + b == c + d && |a| == |c|
    ensures a == c && b == d
  {
    assert (a + b)[..|a|] == a && (c + d)[..|c|] == c;
    assert (a + b)[|a|..] == b && (c + d)[|c|..] == d;
  }

  /** Taking clusters of the volume changes the volume's part of the table only. */
  lemma TakenInside(fat: seq<nat>, rest: seq<nat>, fat': seq<nat>, rest': seq<nat>, cs: seq<nat>)
    requires FreshIn(fat + rest, cs) && Below(cs, |fat|) && |fat'| == |fat| && fat' + rest' == Linked(fat + rest, cs)
    ensures FreshIn(fat, cs) && fat' == Linked(fat, cs) && rest' == rest
  {
    FreshInside(fat, rest, cs);
    LinkedInside(fat, rest, cs);
    SplitEqual(fat', rest', Linked(fat, cs), rest);
  }

  /** So does freeing them. */
  lemma FreedInside(fat: seq<nat>, rest: seq<nat>, fat': seq<nat>, rest': seq<nat>, cs: seq<nat>)
    requires Freed(fat + rest, fat' + rest', cs) && Below(cs, |fat|) && |fat'| == |fat|
    ensures Freed(fat, fat', cs) && rest' == rest
  {
    forall c | 0 <= c < |fat| ensures fat'[c] == if c in cs then 0 else fat[c] {
      assert (fat' + rest')[c] == fat'[c] && (fat + rest)[c] == fat[c];
    }
    forall k | 0 <= k < |rest| ensures rest'[k] == rest[k] {
      assert (fat' + rest')[|fat| + k] == rest'[k] && (fat + rest)[|fat| + k] == rest[k];
    }
  }

  lemma ChainInside(fat: seq<nat>, rest: seq<nat>, cs: seq<nat>)
    requires IsChain(fat, cs)
    ensures IsChain(fat + rest, cs) && Below(cs, |fat|)
  {
  }
}
