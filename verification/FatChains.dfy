/**
 The allocation table as a sequence of entries: cluster chains, forests of chains,
 reachability and the set of free clusters.
 */
module FatChains {

  predicate IsCluster(fat: seq<nat>, c: nat) {
    2 <= c < |fat|
  }

  /** `ch` lists the clusters of one chain from some cluster to its end mark. */
  ghost predicate IsChain(fat: seq<nat>, ch: seq<nat>) {
    && 0 < |ch|
    && (forall i :: 0 <= i < |ch| ==> IsCluster(fat, ch[i]))
    && (forall i :: 0 <= i < |ch| - 1 ==> fat[ch[i]] == ch[i + 1])
    && fat[ch[|ch| - 1]] >= |fat|
  }

  ghost predicate Disjoint(a: seq<nat>, b: seq<nat>) {
    forall c :: c in a ==> c !in b
  }

  /**
   The table is exactly this set of chains: each one ends, no two share a cluster,
   and every cluster in use is on one of them.
   */
  ghost predicate Forest(fat: seq<nat>, chains: set<seq<nat>>) {
    && (forall ch :: ch in chains ==> IsChain(fat, ch))
    && (forall a, b :: a in chains && b in chains && a != b ==> Disjoint(a, b))
    && (forall c: nat :: IsCluster(fat, c) && fat[c] != 0 ==> Covered(chains, c))
  }

  ghost predicate Covered(chains: set<seq<nat>>, c: nat) {
    exists ch :: ch in chains && c in ch
  }

  ghost function FreeSet(fat: seq<nat>): set<nat> {
    set c: nat | 2 <= c < |fat| && fat[c] == 0
  }

  /** No cluster appears twice on a chain: a chain that ends has no cycle. */
  lemma {:induction false} ChainDistinct(fat: seq<nat>, ch: seq<nat>, i: nat, j: nat)
    requires IsChain(fat, ch) && i < j < |ch|
    ensures ch[i] != ch[j]
    decreases |ch| - j
  {
    if ch[i] == ch[j] {
      assert fat[ch[i]] == ch[i + 1];
      if j + 1 < |ch| {
        ChainDistinct(fat, ch, i + 1, j + 1);
      }
    }
  }

  /** Appending a free cluster to a chain, or starting one, in the terms of the table. */
  ghost function Linked(fat: seq<nat>, last: nat, ncl: nat, mark: nat): (r: seq<nat>)
    requires IsCluster(fat, ncl) && (last == 0 || IsCluster(fat, last))
    ensures |r| == |fat|
  {
    if last == 0 then fat[ncl := mark] else fat[ncl := mark][last := ncl]
  }

  /** Some entry holds the reserved value 1. */
  ghost predicate HasReserved(fat: seq<nat>) {
    exists c: nat :: IsCluster(fat, c) && fat[c] == 1
  }

  /**
   The outcome `r` of a search for a free cluster to put behind `last` (0: to start a chain):
   0 when none is free, 1 when the search met a reserved entry, else the cluster now linked.
   */
  ghost predicate Allocated(fat: seq<nat>, last: nat, mark: nat, r: nat, after: seq<nat>) {
    && (r == 0 ==> FreeSet(fat) == {} && after == fat)
    && (r == 1 ==> HasReserved(fat) && after == fat)
    && (r >= 2 ==>
          && IsCluster(fat, r) && fat[r] == 0
          && (last == 0 || IsCluster(fat, last))
          && after == Linked(fat, last, r, mark))
  }

  /** The place of cluster `c` on the circular scan that starts behind `scl`. */
  function Rank(n: nat, scl: nat, c: nat): int {
    if c > scl then c - scl else c + n - scl
  }

  /** `c` is the first entry on that scan that is free or reserved. */
  ghost predicate FirstStop(fat: seq<nat>, scl: nat, c: nat) {
    && IsCluster(fat, c) && fat[c] < 2
    && forall d: nat :: IsCluster(fat, d) && Rank(|fat|, scl, d) < Rank(|fat|, scl, c) ==> fat[d] >= 2
  }

  /** The answer of the scan: 0 when no entry stops it, 1 when a reserved one does, else the free cluster. */
  ghost predicate Found(fat: seq<nat>, scl: nat, r: nat) {
    if r == 0 then forall c: nat :: IsCluster(fat, c) ==> fat[c] >= 2
    else if r == 1 then exists c: nat :: FirstStop(fat, scl, c) && fat[c] == 1
    else FirstStop(fat, scl, r) && fat[r] == 0
  }

  /** So the answer depends on the table and the starting point only. */
  lemma FoundUnique(fat: seq<nat>, scl: nat, r: nat, r': nat)
    requires Found(fat, scl, r) && Found(fat, scl, r') && scl < |fat|
    ensures r == r'
  {
    if r != 0 && r' != 0 {
      var c := if r == 1 then StopOf(fat, scl) else r;
      var c' := if r' == 1 then StopOf(fat, scl) else r';
      assert FirstStop(fat, scl, c) && FirstStop(fat, scl, c');
      assert Rank(|fat|, scl, c) == Rank(|fat|, scl, c');
    }
  }

  ghost function StopOf(fat: seq<nat>, scl: nat): (c: nat)
    requires exists c: nat :: FirstStop(fat, scl, c) && fat[c] == 1
    ensures FirstStop(fat, scl, c) && fat[c] == 1
  {
    var c: nat :| FirstStop(fat, scl, c) && fat[c] == 1;
    c
  }

  /** That answer. */
  ghost function Answer(fat: seq<nat>, scl: nat): nat {
    if exists r: nat :: Found(fat, scl, r) then FoundBy(fat, scl) else 0
  }

  ghost function FoundBy(fat: seq<nat>, scl: nat): (r: nat)
    requires exists r: nat :: Found(fat, scl, r)
    ensures Found(fat, scl, r)
  {
    var r: nat :| Found(fat, scl, r);
    r
  }

  lemma AnswerIs(fat: seq<nat>, scl: nat, r: nat)
    requires Found(fat, scl, r) && scl < |fat|
    ensures Answer(fat, scl) == r
  {
    FoundUnique(fat, scl, r, FoundBy(fat, scl));
  }

  /** A chain made longer: its clusters, and 2 or the answer of the scan that ended it early. */
  datatype Growth = Growth(ch: seq<nat>, why: nat)

  /** The next cluster for a chain: the scan starts behind its last one, or for an empty chain behind `first`. */
  ghost function NextFor(fat: seq<nat>, ch: seq<nat>, first: nat): nat {
    Answer(fat, if ch == [] then first else ch[|ch| - 1])
  }

  /** What create_chain makes of a chain that is to have `n` clusters. */
  ghost function Grow(fat: seq<nat>, ch: seq<nat>, first: nat, n: nat, mark: nat): (r: Growth)
    ensures ch <= r.ch && (n <= |ch| ==> r.ch == ch && r.why == 2)
    ensures (forall i :: 0 <= i < |ch| ==> 2 <= ch[i]) ==> forall i :: 0 <= i < |r.ch| ==> 2 <= r.ch[i]
    decreases n - |ch|
  {
    var c := NextFor(fat, ch, first);
    if n <= |ch| then Growth(ch, 2)
    else if c < 2 then Growth(ch, c)
    else Grow(LinkedTo(fat, ch, c, mark), ch + [c], first, n, mark)
  }

  /** The table with cluster `c` linked behind the chain. */
  ghost function LinkedTo(fat: seq<nat>, ch: seq<nat>, c: nat, mark: nat): seq<nat> {
    if IsCluster(fat, c) && (ch == [] || IsCluster(fat, ch[|ch| - 1]))
    then Linked(fat, if ch == [] then 0 else ch[|ch| - 1], c, mark)
    else fat
  }

  /** A link made as the scan says does not change what the chain is to become. */
  lemma GrowStep(fat: seq<nat>, ch: seq<nat>, first: nat, first': nat, c: nat, n: nat, mark: nat)
    requires c == NextFor(fat, ch, first) && 2 <= c && |ch| < n
    ensures Grow(LinkedTo(fat, ch, c, mark), ch + [c], first', n, mark) == Grow(fat, ch, first, n, mark)
  {
    FirstIsPast(LinkedTo(fat, ch, c, mark), ch + [c], first, first', n, mark);
  }

  lemma GrowSteps(fat: seq<nat>, ch: seq<nat>, first: nat, first': nat, c: nat, mark: nat)
    requires Found(fat, if ch == [] then first else ch[|ch| - 1], c) && 2 <= c && first < |fat|
    requires ch == [] || IsCluster(fat, ch[|ch| - 1])
    ensures forall n :: |ch| < n ==>
              Grow(LinkedTo(fat, ch, c, mark), ch + [c], first', n, mark) == Grow(fat, ch, first, n, mark)
  {
    AnswerIs(fat, if ch == [] then first else ch[|ch| - 1], c);
    forall n | |ch| < n
      ensures Grow(LinkedTo(fat, ch, c, mark), ch + [c], first', n, mark) == Grow(fat, ch, first, n, mark)
    {
      GrowStep(fat, ch, first, first', c, n, mark);
    }
  }

  /** For a chain that has clusters the start of the search for a first one does not matter. */
  lemma {:induction false} FirstIsPast(fat: seq<nat>, ch: seq<nat>, first: nat, first': nat, n: nat, mark: nat)
    requires ch != []
    ensures Grow(fat, ch, first, n, mark) == Grow(fat, ch, first', n, mark)
    decreases n - |ch|
  {
    var c := NextFor(fat, ch, first);
    if |ch| < n && c >= 2 {
      FirstIsPast(LinkedTo(fat, ch, c, mark), ch + [c], first, first', n, mark);
    }
  }

  /** What the answer says of the table as a whole. */
  lemma FoundMeans(fat: seq<nat>, scl: nat, r: nat)
    requires Found(fat, scl, r)
    ensures r == 0 ==> FreeSet(fat) == {}
    ensures r == 1 ==> HasReserved(fat)
    ensures r >= 2 ==> IsCluster(fat, r) && fat[r] == 0
  {}

  lemma ChainExtended(fat: seq<nat>, ch: seq<nat>, ncl: nat, mark: nat)
    requires IsChain(fat, ch) && IsCluster(fat, ncl) && fat[ncl] == 0 && mark >= |fat|
    ensures IsChain(Linked(fat, ch[|ch| - 1], ncl, mark), ch + [ncl])
    ensures ncl !in ch
  {
    var last := ch[|ch| - 1];
    var r := Linked(fat, last, ncl, mark);
    forall i | 0 <= i < |ch| ensures ch[i] != ncl {
      if i < |ch| - 1 {
        assert fat[ch[i]] == ch[i + 1];
      }
    }
    var ext := ch + [ncl];
    forall i | 0 <= i < |ext| - 1 ensures r[ext[i]] == ext[i + 1] {
      if i < |ch| - 1 {
        ChainDistinct(fat, ch, i, |ch| - 1);
        assert r[ch[i]] == fat[ch[i]] == ch[i + 1];
      }
    }
  }

  /** A chain none of whose clusters is written stays a chain. */
  lemma ChainFrame(fat: seq<nat>, r: seq<nat>, ch: seq<nat>)
    requires IsChain(fat, ch) && |r| == |fat|
    requires forall i :: 0 <= i < |ch| ==> r[ch[i]] == fat[ch[i]]
    ensures IsChain(r, ch)
  {}

  lemma ChainInUse(fat: seq<nat>, ch: seq<nat>, c: nat)
    requires IsChain(fat, ch) && c in ch
    ensures IsCluster(fat, c) && fat[c] >= 2
  {
    var i :| 0 <= i < |ch| && ch[i] == c;
    if i < |ch| - 1 {
      assert fat[ch[i]] == ch[i + 1];
    }
  }

  /** create_chain with no chain to stretch adds a one-cluster chain to the forest. */
  lemma ForestAfterNew(fat: seq<nat>, chains: set<seq<nat>>, ncl: nat, mark: nat)
    requires Forest(fat, chains) && IsCluster(fat, ncl) && fat[ncl] == 0 && mark >= |fat|
    ensures Forest(Linked(fat, 0, ncl, mark), chains + {[ncl]})
  {
    hide IsChain;
    var r := Linked(fat, 0, ncl, mark);
    var after := chains + {[ncl]};
    forall ch | ch in chains ensures IsChain(r, ch) && Disjoint(ch, [ncl]) && Disjoint([ncl], ch) {
      NewBesides(fat, ch, ncl, mark);
    }
    NewAlone(fat, ncl, mark);
    forall c: nat | IsCluster(r, c) && r[c] != 0 ensures Covered(after, c) {
      if c == ncl {
        assert [ncl] in after && c in [ncl];
      } else {
        assert Covered(chains, c);
        var ch :| ch in chains && c in ch;
        assert ch in after;
      }
    }
  }

  lemma NewAlone(fat: seq<nat>, ncl: nat, mark: nat)
    requires IsCluster(fat, ncl) && mark >= |fat|
    ensures IsChain(Linked(fat, 0, ncl, mark), [ncl])
  {}

  lemma NewBesides(fat: seq<nat>, ch: seq<nat>, ncl: nat, mark: nat)
    requires IsChain(fat, ch) && IsCluster(fat, ncl) && fat[ncl] == 0
    ensures IsChain(Linked(fat, 0, ncl, mark), ch) && Disjoint(ch, [ncl]) && Disjoint([ncl], ch)
  {
    if ncl in ch { ChainInUse(fat, ch, ncl); }
    ChainFrame(fat, Linked(fat, 0, ncl, mark), ch);
  }

  /** create_chain on the last cluster of a chain replaces that chain by the longer one. */
  lemma ForestAfterStretch(fat: seq<nat>, chains: set<seq<nat>>, ch: seq<nat>, ncl: nat, mark: nat)
    requires Forest(fat, chains) && ch in chains && IsCluster(fat, ncl) && fat[ncl] == 0 && mark >= |fat|
    ensures Forest(Linked(fat, ch[|ch| - 1], ncl, mark), chains - {ch} + {ch + [ncl]})
  {
    hide IsChain, Disjoint;
    ChainNotEmpty(fat, ch);
    var last := ch[|ch| - 1];
    ChainInUse(fat, ch, last);
    var r := Linked(fat, last, ncl, mark);
    var ext := ch + [ncl];
    var after := chains - {ch} + {ext};
    ChainExtended(fat, ch, ncl, mark);
    forall b | b in chains && b != ch ensures IsChain(r, b) && Disjoint(b, ext) && Disjoint(ext, b) {
      StretchOther(fat, chains, ch, ncl, mark, b);
    }
    forall c: nat | IsCluster(r, c) && r[c] != 0 ensures Covered(after, c) {
      if c in ext {
        assert ext in after;
      } else {
        assert c != ncl && c != last && Covered(chains, c);
        var b :| b in chains && c in b;
        assert b in after;
      }
    }
  }

  lemma StretchOther(fat: seq<nat>, chains: set<seq<nat>>, ch: seq<nat>, ncl: nat, mark: nat, b: seq<nat>)
    requires Forest(fat, chains) && ch in chains && b in chains && b != ch
    requires IsCluster(fat, ncl) && fat[ncl] == 0
    ensures IsChain(Linked(fat, ch[|ch| - 1], ncl, mark), b)
    ensures Disjoint(b, ch + [ncl]) && Disjoint(ch + [ncl], b)
  {
    assert Disjoint(b, ch) && ch[|ch| - 1] in ch;
    if ncl in b { ChainInUse(fat, b, ncl); }
    ChainFrame(fat, Linked(fat, ch[|ch| - 1], ncl, mark), b);
  }

  /** The table with every cluster of `cs` freed. */
  ghost function Freed(fat: seq<nat>, cs: set<nat>): (r: seq<nat>)
    ensures |r| == |fat|
    ensures forall c :: 0 <= c < |fat| ==> r[c] == if c in cs then 0 else fat[c]
  {
    seq(|fat|, c requires 0 <= c < |fat| => if c in cs then 0 else fat[c])
  }

  ghost function Elements(ch: seq<nat>): set<nat> {
    set c | c in ch
  }

  /** Freeing a whole chain takes exactly it out of the forest. */
  lemma ForestAfterRemove(fat: seq<nat>, chains: set<seq<nat>>, ch: seq<nat>)
    requires Forest(fat, chains) && ch in chains
    ensures Forest(Freed(fat, Elements(ch)), chains - {ch})
  {
    var r := Freed(fat, Elements(ch));
    forall b | b in chains - {ch} ensures IsChain(r, b) {
      assert Disjoint(b, ch);
      assert forall i :: 0 <= i < |b| ==> b[i] in b;
      ChainFrame(fat, r, b);
    }
    forall c: nat | IsCluster(r, c) && r[c] != 0 ensures Covered(chains - {ch}, c) {
      assert Covered(chains, c);
      var b :| b in chains && c in b;
      assert b != ch;
    }
  }

  /**
   Freeing the tail of a chain from a cluster that is not its first leaves a link to a
   free cluster, so the table is no forest: remove_chain must be given a first cluster.
   */
  lemma NoForestAfterTailRemove(fat: seq<nat>, ch: seq<nat>, k: nat, chains: set<seq<nat>>)
    requires IsChain(fat, ch) && 0 < k < |ch|
    ensures !Forest(Freed(fat, Elements(ch[k..])), chains)
  {
    var r := Freed(fat, Elements(ch[k..]));
    TailLinkDangles(fat, ch, k);
    if Forest(r, chains) {
      assert Covered(chains, ch[k - 1]);
      var b :| b in chains && ch[k - 1] in b;
      DanglingNotOnChain(r, b, ch[k - 1]);
    }
  }

  lemma TailLinkDangles(fat: seq<nat>, ch: seq<nat>, k: nat)
    requires IsChain(fat, ch) && 0 < k < |ch|
    ensures var r := Freed(fat, Elements(ch[k..])); r[ch[k - 1]] == ch[k] && r[ch[k]] == 0
  {
    forall j | k <= j < |ch| ensures ch[j] != ch[k - 1] { ChainDistinct(fat, ch, k - 1, j); }
    assert ch[k - 1] !in ch[k..];
    assert ch[k..][0] == ch[k];
    assert fat[ch[k - 1]] == ch[k];
  }

  lemma DanglingNotOnChain(r: seq<nat>, b: seq<nat>, p: nat)
    requires IsCluster(r, p) && IsCluster(r, r[p]) && r[r[p]] == 0
    ensures !(IsChain(r, b) && p in b)
  {
    if IsChain(r, b) && p in b {
      var i :| 0 <= i < |b| && b[i] == p;
      assert b[i + 1] == r[p];
      ChainInUse(r, b, r[p]);
    }
  }

  /** The cluster reached after `k` links from `c`; the walk stays put once it leaves the table. */
  ghost function Nth(fat: seq<nat>, c: nat, k: nat): nat
    decreases k
  {
    if k == 0 then c
    else
      var d := Nth(fat, c, k - 1);
      if IsCluster(fat, d) then fat[d] else d
  }

  ghost predicate Reaches(fat: seq<nat>, c: nat, d: nat) {
    exists k: nat :: Nth(fat, c, k) == d
  }

  lemma {:induction false} NthAdd(fat: seq<nat>, c: nat, i: nat, j: nat)
    ensures Nth(fat, c, i + j) == Nth(fat, Nth(fat, c, i), j)
    decreases j
  {
    if j > 0 { NthAdd(fat, c, i, j - 1); }
  }

  /** A walk that does not come back to `c` does not see that `c` is freed. */
  lemma {:induction false} NthAvoiding(fat: seq<nat>, c: nat, m: nat)
    requires IsCluster(fat, c) && 1 <= m
    requires forall i: nat :: 1 <= i < m ==> Nth(fat, c, i) != c
    ensures Nth(fat[c := 0], fat[c], m - 1) == Nth(fat, c, m)
    decreases m
  {
    assert Nth(fat, c, 1) == fat[Nth(fat, c, 0)];
    if m > 1 { NthAvoiding(fat, c, m - 1); }
  }

  lemma {:induction false} ReachesForward(fat: seq<nat>, c: nat, m: nat)
    requires IsCluster(fat, c) && Nth(fat, c, m) != c
    ensures Reaches(fat[c := 0], fat[c], Nth(fat, c, m))
    decreases m
  {
    if i: nat :| 1 <= i < m && Nth(fat, c, i) == c {
      NthAdd(fat, c, i, m - i);
      ReachesForward(fat, c, m - i);
    } else {
      NthAvoiding(fat, c, m);
    }
  }

  lemma {:induction false} ReachesBackward(fat: seq<nat>, c: nat, j: nat)
    requires IsCluster(fat, c) && IsCluster(fat, Nth(fat[c := 0], fat[c], j))
    ensures Reaches(fat, c, Nth(fat[c := 0], fat[c], j))
    decreases j
  {
    if j == 0 {
      assert Nth(fat, c, 1) == fat[Nth(fat, c, 0)];
    } else {
      var e := Nth(fat[c := 0], fat[c], j - 1);
      ReachesBackward(fat, c, j - 1);
      var k: nat :| Nth(fat, c, k) == e;
      assert Nth(fat, c, k + 1) == fat[e];
    }
  }

  /** Freeing `c` and going on from its link reaches the same other clusters. */
  lemma ReachesAfterFree(fat: seq<nat>, c: nat, d: nat)
    requires IsCluster(fat, c) && IsCluster(fat, d) && d != c
    ensures Reaches(fat, c, d) <==> Reaches(fat[c := 0], fat[c], d)
  {
    if Reaches(fat, c, d) {
      var m: nat :| Nth(fat, c, m) == d;
      ReachesForward(fat, c, m);
    }
    if Reaches(fat[c := 0], fat[c], d) {
      var j: nat :| Nth(fat[c := 0], fat[c], j) == d;
      ReachesBackward(fat, c, j);
    }
  }

  /** A walk that leaves the table stays where it left. */
  lemma {:induction false} NthStuck(fat: seq<nat>, c: nat, k: nat, m: nat)
    requires !IsCluster(fat, Nth(fat, c, k)) && k <= m
    ensures Nth(fat, c, m) == Nth(fat, c, k)
    decreases m
  {
    if m > k { NthStuck(fat, c, k, m - 1); }
  }

  /** On a chain, the clusters reached from element `k` are exactly the elements from `k` on. */
  lemma {:induction false} NthOnChain(fat: seq<nat>, ch: seq<nat>, k: nat, m: nat)
    requires IsChain(fat, ch) && k < |ch|
    ensures k + m < |ch| ==> Nth(fat, ch[k], m) == ch[k + m]
    ensures k + m >= |ch| ==> Nth(fat, ch[k], m) >= |fat|
    decreases m
  {
    if m > 0 { NthOnChain(fat, ch, k, m - 1); }
  }

  lemma ReachesOnChain(fat: seq<nat>, ch: seq<nat>, k: nat, d: nat)
    requires IsChain(fat, ch) && k < |ch| && IsCluster(fat, d)
    ensures Reaches(fat, ch[k], d) <==> d in ch[k..]
  {
    if Reaches(fat, ch[k], d) {
      var m: nat :| Nth(fat, ch[k], m) == d;
      NthOnChain(fat, ch, k, m);
      assert ch[k..][m] == d;
    }
    if d in ch[k..] {
      var m: nat :| m < |ch[k..]| && ch[k..][m] == d;
      NthOnChain(fat, ch, k, m);
      assert Nth(fat, ch[k], m) == d;
    }
  }

  lemma FreeSetAfter(fat: seq<nat>, c: nat, v: nat)
    requires IsCluster(fat, c)
    ensures FreeSet(fat[c := v]) == if v == 0 then FreeSet(fat) + {c} else FreeSet(fat) - {c}
  {}

  lemma FreeSetUpdate(fat: seq<nat>, c: nat, v: nat)
    requires IsCluster(fat, c)
    ensures v == 0 && fat[c] != 0 ==> |FreeSet(fat[c := v])| == |FreeSet(fat)| + 1
    ensures v != 0 && fat[c] == 0 ==> |FreeSet(fat[c := v])| == |FreeSet(fat)| - 1
    ensures (v == 0) == (fat[c] == 0) ==> FreeSet(fat[c := v]) == FreeSet(fat)
  {
    FreeSetAfter(fat, c, v);
    assert c in FreeSet(fat) <==> fat[c] == 0;
  }

  lemma {:induction false} FreeBelow(fat: seq<nat>, n: nat)
    requires n <= |fat|
    ensures |set c: nat | 2 <= c < n && fat[c] == 0| <= if n <= 2 then 0 else n - 2
    decreases n
  {
    var s := set c: nat | 2 <= c < n && fat[c] == 0;
    if n <= 2 {
      assert s == {};
    } else {
      FreeBelow(fat, n - 1);
      var t := set c: nat | 2 <= c < n - 1 && fat[c] == 0;
      assert s == t || s == t + {n - 1};
    }
  }

  /** There are fewer free clusters than entries. */
  lemma FreeSetBound(fat: seq<nat>)
    requires |fat| >= 2
    ensures |FreeSet(fat)| <= |fat| - 2
  {
    FreeBelow(fat, |fat|);
    assert FreeSet(fat) == set c: nat | 2 <= c < |fat| && fat[c] == 0;
  }

  /** The table with every cluster reached from `c` freed, except entries with the reserved value 1. */
  ghost function Removed(fat: seq<nat>, c: nat): (r: seq<nat>)
    ensures |r| == |fat|
  {
    seq(|fat|, d requires 0 <= d < |fat| => if IsCluster(fat, d) && Reaches(fat, c, d) && fat[d] != 1 then 0
      else fat[d])
  }

  /** Some cluster reached from `c` holds the reserved entry value 1. */
  ghost predicate HitsReserved(fat: seq<nat>, c: nat) {
    exists d: nat :: IsCluster(fat, d) && fat[d] == 1 && Reaches(fat, c, d)
  }

  /** One turn of remove_chain leaves the same work to its rest. */
  lemma RemovedStep(fat: seq<nat>, c: nat)
    requires IsCluster(fat, c) && fat[c] >= 2
    ensures Removed(fat, c) == Removed(fat[c := 0], fat[c])
    ensures HitsReserved(fat, c) <==> HitsReserved(fat[c := 0], fat[c])
  {
    var a, b := Removed(fat, c), Removed(fat[c := 0], fat[c]);
    assert Nth(fat, c, 0) == c && Reaches(fat, c, c);
    forall d | 0 <= d < |fat| ensures a[d] == b[d] {
      if 2 <= d != c { ReachesAfterFree(fat, c, d); }
    }
    forall d: nat | IsCluster(fat, d) && fat[d] == 1 ensures Reaches(fat, c, d) <==> Reaches(fat[c := 0], fat[c], d) {
      ReachesAfterFree(fat, c, d);
    }
  }

  /** Where remove_chain stops there is nothing more to free. */
  lemma RemovedDone(fat: seq<nat>, c: nat)
    requires IsCluster(fat, c) ==> fat[c] < 2
    ensures Removed(fat, c) == fat
    ensures HitsReserved(fat, c) <==> IsCluster(fat, c) && fat[c] == 1
  {
    forall d: nat | IsCluster(fat, d) && Reaches(fat, c, d) ensures d == c {
      var m: nat :| Nth(fat, c, m) == d;
      if m > 0 {
        assert Nth(fat, c, 1) == if IsCluster(fat, c) then fat[c] else c;
        NthStuck(fat, c, 1, m);
      }
    }
    assert Nth(fat, c, 0) == c;
    var a := Removed(fat, c);
    forall d | 0 <= d < |fat| ensures a[d] == fat[d] {}
  }

  /** remove_chain on the first cluster of a chain frees the chain and nothing else. */
  lemma RemovedChain(fat: seq<nat>, ch: seq<nat>, k: nat)
    requires IsChain(fat, ch) && k < |ch|
    ensures Removed(fat, ch[k]) == Freed(fat, Elements(ch[k..]))
  {
    var a, b := Removed(fat, ch[k]), Freed(fat, Elements(ch[k..]));
    forall d | 0 <= d < |fat| ensures a[d] == b[d] {
      if d >= 2 {
        ReachesOnChain(fat, ch, k, d);
      }
      if d in ch[k..] {
        ChainInUse(fat, ch, d);
      }
    }
  }

  ghost function Zero(e: nat): nat {
    if e == 0 then 1 else 0
  }

  /** Zero entries among the first `k`. */
  ghost function ZeroCount(fat: seq<nat>, k: nat): nat
    requires k <= |fat|
    decreases k
  {
    if k == 0 then 0 else ZeroCount(fat, k - 1) + Zero(fat[k - 1])
  }

  lemma {:induction false} ZeroCountBelow(fat: seq<nat>, k: nat)
    requires 2 <= k <= |fat|
    ensures ZeroCount(fat, k) == Zero(fat[0]) + Zero(fat[1]) + |set c: nat | 2 <= c < k && fat[c] == 0|
    decreases k
  {
    var s := set c: nat | 2 <= c < k && fat[c] == 0;
    if k == 2 {
      assert s == {};
      assert ZeroCount(fat, 1) == Zero(fat[0]);
    } else {
      ZeroCountBelow(fat, k - 1);
      var t := set c: nat | 2 <= c < k - 1 && fat[c] == 0;
      assert s == if fat[k - 1] == 0 then t + {k - 1} else t;
    }
  }

  /** A scan of the whole table also counts the two entries that stand for no cluster. */
  lemma ZeroCountIsFree(fat: seq<nat>)
    requires 2 <= |fat|
    ensures ZeroCount(fat, |fat|) == |FreeSet(fat)| + Zero(fat[0]) + Zero(fat[1])
  {
    ZeroCountBelow(fat, |fat|);
    assert FreeSet(fat) == set c: nat | 2 <= c < |fat| && fat[c] == 0;
  }

  /** `r` is the first reserved entry. */
  ghost predicate FirstReserved(fat: seq<nat>, r: nat) {
    IsCluster(fat, r) && fat[r] == 1 && forall c :: 2 <= c < r ==> fat[c] != 1
  }

  lemma FirstReservedUnique(fat: seq<nat>, q: nat, r: nat)
    requires FirstReserved(fat, q) && FirstReserved(fat, r)
    ensures q == r
  {}

  ghost predicate NoneFreeFrom(fat: seq<nat>, r: nat) {
    forall c: nat :: r <= c && IsCluster(fat, c) ==> fat[c] != 0
  }

  /** A count that stops at an entry is the whole count exactly when no free cluster is behind it. */
  lemma {:induction false} PartialCount(fat: seq<nat>, r: nat, n: nat)
    requires 2 <= r <= n <= |fat|
    ensures ZeroCount(fat, r) <= ZeroCount(fat, n)
    ensures ZeroCount(fat, r) == ZeroCount(fat, n) <==> forall c :: r <= c < n ==> fat[c] != 0
    decreases n
  {
    if n > r {
      PartialCount(fat, r, n - 1);
    }
  }

  ghost predicate IsForest(fat: seq<nat>) {
    exists chains :: Forest(fat, chains)
  }

  /** A cluster in use that no other links to. */
  ghost predicate IsFirst(fat: seq<nat>, c: nat) {
    IsCluster(fat, c) && fat[c] != 0 && forall d: nat :: IsCluster(fat, d) ==> fat[d] != c
  }

  /** create_chain on the end of a chain or on 0, with any outcome. */
  ghost predicate CreateStep(fat: seq<nat>, mark: nat, last: nat, r: nat, after: seq<nat>) {
    (last == 0 || (IsCluster(fat, last) && fat[last] >= |fat|)) && Allocated(fat, last, mark, r, after)
  }

  ghost predicate RemoveStep(fat: seq<nat>, c: nat, after: seq<nat>) {
    IsFirst(fat, c) && after == Removed(fat, c)
  }

  ghost predicate AllocatorStep(fat: seq<nat>, mark: nat, after: seq<nat>) {
    || (exists last, r :: CreateStep(fat, mark, last, r, after))
    || (exists c :: RemoveStep(fat, c, after))
  }

  /** The chain of a cluster that holds an end mark ends there. */
  lemma EndsChain(fat: seq<nat>, chains: set<seq<nat>>, c: nat) returns (ch: seq<nat>)
    requires Forest(fat, chains) && IsCluster(fat, c) && fat[c] >= |fat|
    ensures ch in chains && ch[|ch| - 1] == c
  {
    assert Covered(chains, c);
    ch :| ch in chains && c in ch;
    forall j | 0 <= j < |ch| - 1 ensures ch[j] != c {
      assert fat[ch[j]] == ch[j + 1];
    }
  }

  lemma StartsChain(fat: seq<nat>, chains: set<seq<nat>>, c: nat) returns (ch: seq<nat>)
    requires Forest(fat, chains) && IsFirst(fat, c)
    ensures ch in chains && ch[0] == c
  {
    assert Covered(chains, c);
    ch :| ch in chains && c in ch;
    forall j | 0 < j < |ch| ensures ch[j] != c {
      assert fat[ch[j - 1]] == ch[j];
    }
  }

  lemma CreateKeepsForest(fat: seq<nat>, mark: nat, last: nat, r: nat, after: seq<nat>)
    requires IsForest(fat) && mark >= |fat| && CreateStep(fat, mark, last, r, after)
    ensures IsForest(after) && |after| == |fat|
  {
    hide Forest, IsChain, Linked;
    var chains :| Forest(fat, chains);
    if r >= 2 {
      if last == 0 {
        ForestAfterNew(fat, chains, r, mark);
      } else {
        var ch := EndsChain(fat, chains, last);
        ForestAfterStretch(fat, chains, ch, r, mark);
      }
    }
  }

  lemma RemoveKeepsForest(fat: seq<nat>, c: nat, after: seq<nat>)
    requires IsForest(fat) && RemoveStep(fat, c, after)
    ensures IsForest(after) && |after| == |fat|
  {
    var chains :| Forest(fat, chains);
    var ch := StartsChain(fat, chains, c);
    RemovedChain(fat, ch, 0);
    assert ch[0..] == ch;
    ForestAfterRemove(fat, chains, ch);
  }

  /** Over any run of the allocator the table stays a set of disjoint chains that all end. */
  lemma {:induction false} RunKeepsForest(run: seq<seq<nat>>, mark: nat)
    requires 0 < |run| && IsForest(run[0]) && mark >= |run[0]|
    requires forall i :: 0 <= i < |run| - 1 ==> AllocatorStep(run[i], mark, run[i + 1])
    ensures IsForest(run[|run| - 1]) && |run[|run| - 1]| == |run[0]|
    decreases |run|
  {
    hide IsForest, RemoveStep, CreateStep;
    if |run| > 1 {
      var fat, after := run[|run| - 2], run[|run| - 1];
      RunKeepsForest(run[..|run| - 1], mark);
      assert AllocatorStep(fat, mark, after);
      if c :| RemoveStep(fat, c, after) {
        RemoveKeepsForest(fat, c, after);
      } else {
        var last, r :| CreateStep(fat, mark, last, r, after);
        CreateKeepsForest(fat, mark, last, r, after);
      }
    }
  }

  /** remove_chain keeps the table a forest exactly when it is given a free cluster or the first of a chain. */
  lemma RemoveKeepsForestIff(fat: seq<nat>, chains: set<seq<nat>>, c: nat)
    requires Forest(fat, chains) && IsCluster(fat, c)
    ensures IsForest(Removed(fat, c)) <==> fat[c] == 0 || IsFirst(fat, c)
  {
    if fat[c] == 0 {
      RemovedDone(fat, c);
    } else {
      assert Covered(chains, c);
      var ch :| ch in chains && c in ch;
      var k: nat :| k < |ch| && ch[k] == c;
      RemoveOnChain(fat, chains, ch, k);
      if k == 0 {
        ChainStartIsFirst(fat, chains, ch);
      } else {
        assert fat[ch[k - 1]] == ch[k] && IsCluster(fat, ch[k - 1]);
      }
    }
  }

  /** No entry links to the first cluster of a chain. */
  lemma ChainStartIsFirst(fat: seq<nat>, chains: set<seq<nat>>, ch: seq<nat>)
    requires Forest(fat, chains) && ch in chains
    ensures IsFirst(fat, ch[0])
  {
    hide IsChain, Disjoint;
    ChainNotEmpty(fat, ch);
    ChainInUse(fat, ch, ch[0]);
    forall d: nat | IsCluster(fat, d) ensures fat[d] != ch[0] {
      if fat[d] == ch[0] {
        assert Covered(chains, d);
        var b :| b in chains && d in b;
        LinkIsOnChain(fat, b, d);
        SharedCluster(chains, b, ch, ch[0]);
        NotFollowed(fat, ch, d);
      }
    }
  }

  /** What a cluster of a chain links to, if a cluster, is on the chain. */
  lemma LinkIsOnChain(fat: seq<nat>, b: seq<nat>, d: nat)
    requires IsChain(fat, b) && d in b && fat[d] < |fat|
    ensures fat[d] in b
  {
    var j: nat :| j < |b| && b[j] == d;
    assert fat[b[j]] == b[j + 1];
  }

  lemma SharedCluster(chains: set<seq<nat>>, a: seq<nat>, b: seq<nat>, c: nat)
    requires forall x, y :: x in chains && y in chains && x != y ==> Disjoint(x, y)
    requires a in chains && b in chains && c in a && c in b
    ensures a == b
  {}

  lemma NotFollowed(fat: seq<nat>, ch: seq<nat>, d: nat)
    requires IsChain(fat, ch) && d in ch
    ensures fat[d] != ch[0]
  {
    var j: nat :| j < |ch| && ch[j] == d;
    if j + 1 < |ch| {
      assert fat[ch[j]] == ch[j + 1];
      ChainDistinct(fat, ch, 0, j + 1);
    }
  }

  /** Freeing from element `k` of a chain on keeps the table a forest only from its first cluster. */
  lemma RemoveOnChain(fat: seq<nat>, chains: set<seq<nat>>, ch: seq<nat>, k: nat)
    requires Forest(fat, chains) && ch in chains && k < |ch|
    ensures IsForest(Removed(fat, ch[k])) <==> k == 0
  {
    RemovedChain(fat, ch, k);
    if k == 0 {
      assert ch[0..] == ch;
      ForestAfterRemove(fat, chains, ch);
    } else {
      forall cs ensures !Forest(Removed(fat, ch[k]), cs) {
        NoForestAfterTailRemove(fat, ch, k, cs);
      }
    }
  }

  /** A chain of two clusters, of which the second alone is freed: the first links to a free cluster. */
  lemma TailRemoveFails()
    ensures var fat := [0, 0, 3, 9];
            Forest(fat, {[2, 3]}) && Removed(fat, 3) == [0, 0, 3, 0] && !IsForest(Removed(fat, 3))
  {
    var fat: seq<nat>, ch: seq<nat> := [0, 0, 3, 9], [2, 3];
    assert IsChain(fat, ch);
    forall c: nat | IsCluster(fat, c) && fat[c] != 0 ensures Covered({ch}, c) {
      assert c in ch;
    }
    RemoveOnChain(fat, {ch}, ch, 1);
    RemovedChain(fat, ch, 1);
    assert ch[1..] == [3];
    assert Freed(fat, Elements(ch[1..])) == [0, 0, 3, 0];
  }

  lemma ChainHasNoReserved(fat: seq<nat>, ch: seq<nat>, k: nat)
    requires IsChain(fat, ch) && k < |ch|
    ensures !HitsReserved(fat, ch[k])
  {
    forall d: nat | IsCluster(fat, d) && fat[d] == 1 ensures !Reaches(fat, ch[k], d) {
      ReachesOnChain(fat, ch, k, d);
      if d in ch[k..] {
        ChainInUse(fat, ch, d);
      }
    }
  }

  /** The table after a chain has been cut behind its first `k` clusters and the rest freed. */
  ghost function Cut(fat: seq<nat>, ch: seq<nat>, k: nat, mark: nat): (r: seq<nat>)
    requires IsChain(fat, ch) && k <= |ch|
    ensures |r| == |fat|
  {
    if k == |ch| then fat
    else if k == 0 then Freed(fat, Elements(ch))
    else Freed(fat[ch[k - 1] := mark], Elements(ch[k..]))
  }

  /** The end mark put behind the first `k` clusters makes two chains of one. */
  lemma SplitChain(fat: seq<nat>, ch: seq<nat>, k: nat, mark: nat)
    requires IsChain(fat, ch) && 0 < k < |ch| && mark >= |fat|
    ensures IsChain(fat[ch[k - 1] := mark], ch[k..]) && IsChain(fat[ch[k - 1] := mark], ch[..k])
    ensures Disjoint(ch[..k], ch[k..])
  {
    var fat1 := fat[ch[k - 1] := mark];
    forall i, j | 0 <= i < j < |ch| ensures ch[i] != ch[j] { ChainDistinct(fat, ch, i, j); }
    var a, b := ch[..k], ch[k..];
    forall i | 0 <= i < |b| - 1 ensures fat1[b[i]] == b[i + 1] {
      assert fat[ch[k + i]] == ch[k + i + 1];
    }
    forall i | 0 <= i < |a| - 1 ensures fat1[a[i]] == a[i + 1] {
      assert fat[ch[i]] == ch[i + 1];
    }
  }

  /** remove_chain behind the cut frees exactly the tail and leaves the head a chain. */
  lemma CutTail(fat: seq<nat>, ch: seq<nat>, k: nat, mark: nat)
    requires IsChain(fat, ch) && 0 < k < |ch| && mark >= |fat|
    ensures var fat1 := fat[ch[k - 1] := mark];
            Removed(fat1, ch[k]) == Cut(fat, ch, k, mark) && !HitsReserved(fat1, ch[k])
    ensures IsChain(Cut(fat, ch, k, mark), ch[..k])
  {
    var fat1 := fat[ch[k - 1] := mark];
    SplitChain(fat, ch, k, mark);
    RemovedChain(fat1, ch[k..], 0);
    assert ch[k..][0..] == ch[k..];
    ChainHasNoReserved(fat1, ch[k..], 0);
    var r := Cut(fat, ch, k, mark);
    assert forall i :: 0 <= i < k ==> ch[..k][i] in ch[..k];
    ChainFrame(fat1, r, ch[..k]);
  }

  lemma CutAll(fat: seq<nat>, ch: seq<nat>, mark: nat)
    requires IsChain(fat, ch)
    ensures Removed(fat, ch[0]) == Cut(fat, ch, 0, mark) && !HitsReserved(fat, ch[0])
  {
    RemovedChain(fat, ch, 0);
    assert ch[0..] == ch;
    ChainHasNoReserved(fat, ch, 0);
  }

  /** A chain that shares no cluster with the one that is cut stays as it is. */
  lemma CutOther(fat: seq<nat>, ch: seq<nat>, k: nat, mark: nat, b: seq<nat>)
    requires IsChain(fat, ch) && IsChain(fat, b) && Disjoint(b, ch) && 0 < k < |ch|
    ensures IsChain(Cut(fat, ch, k, mark), b) && Disjoint(b, ch[..k]) && Disjoint(ch[..k], b)
  {
    assert ch[k - 1] in ch;
    assert forall i :: 0 <= i < |b| ==> b[i] in b;
    ChainFrame(fat, Cut(fat, ch, k, mark), b);
  }

  lemma CutCovered(fat: seq<nat>, chains: set<seq<nat>>, ch: seq<nat>, k: nat, mark: nat, c: nat)
    requires Forest(fat, chains) && ch in chains && 0 < k < |ch|
    requires IsCluster(fat, c) && Cut(fat, ch, k, mark)[c] != 0
    ensures Covered(chains - {ch} + {ch[..k]}, c)
  {
    var after := chains - {ch} + {ch[..k]};
    assert ch[..k][k - 1] == ch[k - 1] && ch[..k] in after;
    if c !in ch[..k] {
      assert fat[c] != 0 && Covered(chains, c);
      var b :| b in chains && c in b;
      assert ch == ch[..k] + ch[k..];
      assert b in after;
    }
  }

  /** f_truncate shortens one chain of the forest, or takes it out, and keeps the others. */
  lemma ForestAfterCut(fat: seq<nat>, chains: set<seq<nat>>, ch: seq<nat>, k: nat, mark: nat)
    requires Forest(fat, chains) && ch in chains && k <= |ch| && mark >= |fat|
    ensures Forest(Cut(fat, ch, k, mark), chains - {ch} + (if k == 0 then {} else {ch[..k]}))
  {
    hide Freed, IsChain, Disjoint, Covered;
    if k == |ch| {
      assert 0 < |ch| by { ChainNotEmpty(fat, ch); }
      assert ch[..k] == ch && chains - {ch} + {ch} == chains;
    } else if k == 0 {
      ForestAfterRemove(fat, chains, ch);
      assert chains - {ch} + {} == chains - {ch};
    } else {
      CutTail(fat, ch, k, mark);
      forall b | b in chains && b != ch
        ensures IsChain(Cut(fat, ch, k, mark), b) && Disjoint(b, ch[..k]) && Disjoint(ch[..k], b)
      {
        CutOther(fat, ch, k, mark, b);
      }
      forall c: nat | IsCluster(fat, c) && Cut(fat, ch, k, mark)[c] != 0 ensures Covered(chains - {ch} + {ch[..k]}, c) {
        CutCovered(fat, chains, ch, k, mark, c);
      }
    }
  }

  lemma ChainNotEmpty(fat: seq<nat>, ch: seq<nat>)
    requires IsChain(fat, ch)
    ensures 0 < |ch|
  {}
}
