/**
 What a call on one file may do to the volume: give its chain another shape, and write to the
 sectors of its chain. Every other chain, and every byte on it, stays as it is.
 */
module FatReshape {
  import opened FatLayout
  import opened FatChains
  import opened FatFileSpec

  /**
   The chain `ch` has become `ch'`: clusters it has gained were free, clusters it has lost are free,
   and every other entry is as before.
   */
  ghost predicate Reshaped(fat: seq<nat>, ch: seq<nat>, fat': seq<nat>, ch': seq<nat>) {
    && |fat'| == |fat| && (ch == [] || IsChain(fat, ch)) && (ch' == [] || IsChain(fat', ch'))
    && (forall c :: c in ch' ==> c in ch || (IsCluster(fat, c) && fat[c] == 0))
    && (forall c: nat :: IsCluster(fat, c) && c !in ch' ==> fat'[c] == if c in ch then 0 else fat[c])
  }

  lemma ReshapedReflexive(fat: seq<nat>, ch: seq<nat>)
    requires ch == [] || IsChain(fat, ch)
    ensures Reshaped(fat, ch, fat, ch)
  {}

  lemma ReshapedByGrowth(fat: seq<nat>, ch: seq<nat>, fat': seq<nat>, ch': seq<nat>)
    requires ChainGrown(fat, ch, fat', ch') && (ch == [] || IsChain(fat, ch)) && (ch' == [] || IsChain(fat', ch'))
    ensures Reshaped(fat, ch, fat', ch')
  {
    assert forall c :: c in ch ==> c in ch';
    forall c | c in ch' ensures c in ch || (IsCluster(fat, c) && fat[c] == 0) {
      var i :| 0 <= i < |ch'| && ch'[i] == c;
      assert i < |ch| ==> ch[i] == c;
    }
  }

  lemma ReshapedByCut(fat: seq<nat>, ch: seq<nat>, k: nat, mark: nat)
    requires IsChain(fat, ch) && k <= |ch| && mark >= |fat|
    ensures Reshaped(fat, ch, Cut(fat, ch, k, mark), ch[..k])
  {
    hide IsChain;
    if k == |ch| {
      assert ch[..k] == ch;
    } else if k > 0 {
      CutTail(fat, ch, k, mark);
      assert ch == ch[..k] + ch[k..] && ch[k - 1] in ch[..k];
    }
  }

  lemma ReshapedTwice(a: seq<nat>, ch0: seq<nat>, b: seq<nat>, ch1: seq<nat>, c: seq<nat>, ch2: seq<nat>)
    requires Reshaped(a, ch0, b, ch1) && Reshaped(b, ch1, c, ch2)
    ensures Reshaped(a, ch0, c, ch2)
  {}

  /** Another chain is still a chain, and still apart. */
  lemma ReshapedOther(fat: seq<nat>, ch: seq<nat>, fat': seq<nat>, ch': seq<nat>, b: seq<nat>)
    requires Reshaped(fat, ch, fat', ch') && (b == [] || IsChain(fat, b)) && Disjoint(b, ch)
    ensures (b == [] || IsChain(fat', b)) && Disjoint(b, ch')
  {
    forall c | c in b ensures IsCluster(fat, c) && c !in ch' && fat'[c] == fat[c] {
      ChainInUse(fat, b, c);
    }
    if b != [] {
      assert forall i :: 0 <= i < |b| ==> b[i] in b;
      ChainFrame(fat, fat', b);
    }
  }

  /** The chains of the volume when one of them has become another, has gone or has come. */
  ghost function Replaced(chains: set<seq<nat>>, ch: seq<nat>, ch': seq<nat>): set<seq<nat>> {
    chains - {ch} + (if ch' == [] then {} else {ch'})
  }

  /** A forest stays a forest when one chain of it is given another shape, or a new chain comes. */
  lemma ReshapedForest(fat: seq<nat>, chains: set<seq<nat>>, ch: seq<nat>, fat': seq<nat>, ch': seq<nat>)
    requires Forest(fat, chains) && (ch == [] || ch in chains) && Reshaped(fat, ch, fat', ch')
    ensures Forest(fat', Replaced(chains, ch, ch'))
  {
    hide IsChain, Disjoint, Reshaped, Covered;
    var after := Replaced(chains, ch, ch');
    forall b | b in chains && b != ch ensures IsChain(fat', b) && Disjoint(b, ch') && Disjoint(ch', b) {
      ApartFromNone(b);
      ReshapedOther(fat, ch, fat', ch', b);
      NotNil(fat, b);
      DisjointSym(b, ch');
    }
    Shapes(fat, ch, fat', ch');
    forall c: nat | IsCluster(fat', c) && fat'[c] != 0 ensures Covered(after, c) {
      StillCovered(fat, chains, ch, fat', ch', c);
    }
  }

  lemma ApartFromNone(b: seq<nat>)
    ensures Disjoint(b, [])
  {}

  lemma DisjointSym(a: seq<nat>, b: seq<nat>)
    requires Disjoint(a, b)
    ensures Disjoint(b, a)
  {}

  lemma NotNil(fat: seq<nat>, b: seq<nat>)
    requires IsChain(fat, b)
    ensures b != []
  {}

  lemma Shapes(fat: seq<nat>, ch: seq<nat>, fat': seq<nat>, ch': seq<nat>)
    requires Reshaped(fat, ch, fat', ch')
    ensures |fat'| == |fat| && (ch == [] || IsChain(fat, ch)) && (ch' == [] || IsChain(fat', ch'))
  {}

  lemma StillCovered(fat: seq<nat>, chains: set<seq<nat>>, ch: seq<nat>, fat': seq<nat>, ch': seq<nat>, c: nat)
    requires Forest(fat, chains) && Reshaped(fat, ch, fat', ch') && IsCluster(fat', c) && fat'[c] != 0
    ensures Covered(Replaced(chains, ch, ch'), c)
  {
    var after := Replaced(chains, ch, ch');
    if c in ch' {
      assert ch' in after;
    } else {
      assert Covered(chains, c);
      var b :| b in chains && c in b;
      assert b in after;
    }
  }

  /** The chains of a row of files; a file without clusters has none. */
  ghost function ChainSet(chs: seq<seq<nat>>): set<seq<nat>> {
    set i | 0 <= i < |chs| && chs[i] != [] :: chs[i]
  }

  /** The table is the forest of the chains of these files and of the rest of the volume. */
  ghost predicate Housed(fat: seq<nat>, chs: seq<seq<nat>>, rest: set<seq<nat>>) {
    && Forest(fat, rest + ChainSet(chs)) && rest !! ChainSet(chs)
    && forall i, j :: 0 <= i < |chs| && 0 <= j < |chs| && i != j ==> Disjoint(chs[i], chs[j])
  }

  /** When one of the files has its chain reshaped, that is so still, with the rest of the volume as it was. */
  lemma HousedStep(fat: seq<nat>, chs: seq<seq<nat>>, rest: set<seq<nat>>, k: nat, fat': seq<nat>, ch': seq<nat>)
    requires Housed(fat, chs, rest) && k < |chs| && Reshaped(fat, chs[k], fat', ch')
    ensures Housed(fat', chs[k := ch'], rest)
  {
    hide IsChain, Reshaped, Forest;
    var all := rest + ChainSet(chs);
    NoEmptyChain(fat, all);
    assert chs[k] != [] ==> chs[k] in ChainSet(chs);
    ReshapedForest(fat, all, chs[k], fat', ch');
    forall b | b in rest ensures b != ch' {
      NewChain(fat, all, chs[k], fat', ch', b);
    }
    forall j | 0 <= j < |chs| && j != k ensures Disjoint(chs[j], ch') && Disjoint(ch', chs[j]) {
      InForest(fat, all, chs[j]);
      ReshapedOther(fat, chs[k], fat', ch', chs[j]);
    }
    SetReplaced(chs, k, ch');
    assert Replaced(all, chs[k], ch') == rest + ChainSet(chs[k := ch']);
  }

  lemma SetReplaced(chs: seq<seq<nat>>, k: nat, ch': seq<nat>)
    requires k < |chs| && forall i, j :: 0 <= i < |chs| && 0 <= j < |chs| && i != j ==> Disjoint(chs[i], chs[j])
    ensures ChainSet(chs[k := ch']) == Replaced(ChainSet(chs), chs[k], ch')
  {
    var a, b := ChainSet(chs[k := ch']), Replaced(ChainSet(chs), chs[k], ch');
    forall j | 0 <= j < |chs| && j != k && chs[j] != [] ensures chs[j] != chs[k] {
      assert chs[j][0] in chs[j] && Disjoint(chs[j], chs[k]);
    }
    forall c | c in a ensures c in b {
      var i :| 0 <= i < |chs| && chs[k := ch'][i] == c && c != [];
    }
    forall c | c in b ensures c in a {
      if c != ch' || ch' == [] {
        var i :| 0 <= i < |chs| && chs[i] == c && c != [];
        assert chs[k := ch'][i] == c;
      } else {
        assert chs[k := ch'][k] == c;
      }
    }
  }

  lemma NoEmptyChain(fat: seq<nat>, chains: set<seq<nat>>)
    requires Forest(fat, chains)
    ensures [] !in chains
  {}

  lemma InForest(fat: seq<nat>, chains: set<seq<nat>>, ch: seq<nat>)
    requires Forest(fat, chains) && (ch == [] || ch in chains)
    ensures ch == [] || IsChain(fat, ch)
  {}

  /** The reshaped chain is none of the other chains of the volume. */
  lemma NewChain(fat: seq<nat>, chains: set<seq<nat>>, ch: seq<nat>, fat': seq<nat>, ch': seq<nat>, b: seq<nat>)
    requires Forest(fat, chains) && (ch == [] || ch in chains) && Reshaped(fat, ch, fat', ch') && b in chains && b != ch
    ensures b != ch'
  {
    hide Reshaped;
    ReshapedOther(fat, ch, fat', ch', b);
    assert b[0] in b;
  }

  /** No call makes a reserved entry, and none takes one away. */
  lemma ReshapedReserved(fat: seq<nat>, ch: seq<nat>, fat': seq<nat>, ch': seq<nat>)
    requires Reshaped(fat, ch, fat', ch')
    ensures HasReserved(fat') <==> HasReserved(fat)
  {
    if HasReserved(fat) {
      var c: nat :| IsCluster(fat, c) && fat[c] == 1;
      if c in ch { ChainInUse(fat, ch, c); }
      assert fat'[c] == 1;
    }
    if HasReserved(fat') {
      var c: nat :| IsCluster(fat', c) && fat'[c] == 1;
      if c in ch' { ChainInUse(fat', ch', c); }
      assert fat[c] == 1;
    }
  }

  /** A volume that is a forest has no reserved entry. */
  lemma ForestHasNoReserved(fat: seq<nat>, chains: set<seq<nat>>)
    requires Forest(fat, chains)
    ensures !HasReserved(fat)
  {
    if HasReserved(fat) {
      var c: nat :| IsCluster(fat, c) && fat[c] == 1;
      assert Covered(chains, c);
      var b :| b in chains && c in b;
      ChainInUse(fat, b, c);
    }
  }

  /** Every sector outside the FAT copies that is on neither shape of the chain is as it was. */
  ghost predicate SectorsKept(g: Geometry, img: Image, ch: seq<nat>, img': Image, ch': seq<nat>)
    requires forall i :: 0 <= i < |ch| ==> 2 <= ch[i]
    requires forall i :: 0 <= i < |ch'| ==> 2 <= ch'[i]
  {
    |img| == |img'| &&
    forall s: nat {:trigger img[s]} {:trigger img'[s]} ::
      s < |img| && !InFat(g, s) && !InMirror(g, s) && Clear(g, ch, s) && Clear(g, ch', s) ==> img'[s] == img[s]
  }

  /** The sectors of chains that share no cluster are different. */
  lemma OtherSectors(g: Geometry, ch: seq<nat>, b: seq<nat>, s: nat)
    requires (forall i :: 0 <= i < |ch| ==> 2 <= ch[i]) && (forall i :: 0 <= i < |b| ==> 2 <= b[i])
    requires Disjoint(b, ch) && !Clear(g, b, s)
    ensures Clear(g, ch, s)
  {
    var j :| 0 <= j < |b| && ClusterSector(g, b[j]) <= s < ClusterSector(g, b[j]) + g.csize;
    forall i | 0 <= i < |ch| ensures !(ClusterSector(g, ch[i]) <= s < ClusterSector(g, ch[i]) + g.csize) {
      assert b[j] in b && ch[i] in ch;
      if ClusterSector(g, ch[i]) <= s < ClusterSector(g, ch[i]) + g.csize {
        ClustersApart(g, b[j], ch[i], s - ClusterSector(g, b[j]), s - ClusterSector(g, ch[i]));
      }
    }
  }
}
