/**
 The cluster link map: a table of the contiguous fragments of a file, built once by f_lseek and
 searched instead of the chain from then on.
 */
module FatLinkMap {
  import opened FatLayout
  import opened FatChains
  import opened FatVolume
  import opened FatFileSpec
  import opened FatFile

  /** `len` clusters from `top` on. */
  datatype Fragment = Fragment(len: nat, top: nat)

  ghost function Clusters(fr: Fragment): (ch: seq<nat>)
    ensures |ch| == fr.len && forall i :: 0 <= i < fr.len ==> ch[i] == fr.top + i
  {
    seq(fr.len, i => fr.top + i)
  }

  /** The fragments laid end to end. */
  ghost function Flat(frs: seq<Fragment>): seq<nat> {
    if frs == [] then [] else Flat(frs[..|frs| - 1]) + Clusters(frs[|frs| - 1])
  }

  /** No fragment is empty, and none goes on where the one before it ends. */
  ghost predicate Maximal(frs: seq<Fragment>) {
    && (forall i :: 0 <= i < |frs| ==> frs[i].len > 0)
    && (forall i :: 0 < i < |frs| ==> frs[i - 1].top + frs[i - 1].len != frs[i].top)
  }

  /** `frs` are the maximal contiguous fragments of the chain. */
  ghost predicate Fragmentation(ch: seq<nat>, frs: seq<Fragment>) {
    Flat(frs) == ch && Maximal(frs)
  }

  /** The chain ends in its last fragment, before which the other fragments lie. */
  lemma LastFragment(ch: seq<nat>, frs: seq<Fragment>)
    requires Fragmentation(ch, frs) && frs != []
    ensures var fr := frs[|frs| - 1];
            && 0 < fr.len <= |ch| && Fragmentation(ch[..|ch| - fr.len], frs[..|frs| - 1])
            && forall i :: |ch| - fr.len <= i < |ch| ==> ch[i] == fr.top + i - (|ch| - fr.len)
  {
    var fr := frs[|frs| - 1];
    assert ch == Flat(frs[..|frs| - 1]) + Clusters(fr);
    assert ch[..|ch| - fr.len] == Flat(frs[..|frs| - 1]);
  }

  lemma NoFragments(ch: seq<nat>, frs: seq<Fragment>)
    requires Fragmentation(ch, frs)
    ensures frs == [] <==> ch == []
  {
    if frs != [] { LastFragment(ch, frs); }
  }

  /** The last fragment of a fragmentation is no shorter than any run of consecutive clusters at the end. */
  lemma LastIsLongest(ch: seq<nat>, frs: seq<Fragment>, n: nat)
    requires Fragmentation(ch, frs) && frs != [] && 0 < n <= |ch|
    requires forall i :: |ch| - n < i < |ch| ==> ch[i] == ch[i - 1] + 1
    ensures n <= frs[|frs| - 1].len
  {
    hide Fragmentation, Maximal;
    var fr, head := frs[|frs| - 1], frs[..|frs| - 1];
    LastFragment(ch, frs);
    if fr.len < |ch| {
      var before := ch[..|ch| - fr.len];
      NoFragments(before, head);
      LastFragment(before, head);
      assert before[|before| - 1] == ch[|ch| - fr.len - 1];
      GapBefore(ch, frs);
      assert ch[|ch| - fr.len] != ch[|ch| - fr.len - 1] + 1;
    }
  }

  lemma GapBefore(ch: seq<nat>, frs: seq<Fragment>)
    requires Fragmentation(ch, frs) && |frs| > 1
    ensures frs[|frs| - 2].top + frs[|frs| - 2].len != frs[|frs| - 1].top
  {}

  lemma LastConsecutive(ch: seq<nat>, frs: seq<Fragment>)
    requires Fragmentation(ch, frs) && frs != []
    ensures var n := frs[|frs| - 1].len;
            0 < n <= |ch| && ch[|ch| - n] == frs[|frs| - 1].top && forall i :: |ch| - n < i < |ch| ==>
              ch[i] == ch[i - 1] + 1
  {
    hide Fragmentation;
    LastFragment(ch, frs);
  }

  /** A chain has one fragmentation, so the number of its fragments is well defined. */
  lemma {:induction false} FragmentationUnique(ch: seq<nat>, a: seq<Fragment>, b: seq<Fragment>)
    requires Fragmentation(ch, a) && Fragmentation(ch, b)
    ensures a == b
    decreases |a|
  {
    hide Fragmentation;
    NoFragments(ch, a);
    NoFragments(ch, b);
    if ch != [] {
      LastConsecutive(ch, a);
      LastConsecutive(ch, b);
      var x, y := a[|a| - 1], b[|b| - 1];
      LastIsLongest(ch, a, y.len);
      LastIsLongest(ch, b, x.len);
      LastFragment(ch, a);
      LastFragment(ch, b);
      FragmentationUnique(ch[..|ch| - x.len], a[..|a| - 1], b[..|b| - 1]);
      assert a == a[..|a| - 1] + [x] && b == b[..|b| - 1] + [y];
    }
  }

  /** The end mark of the chain is the number after its last cluster, as if a link to the next one. */
  ghost predicate EndLooksContiguous(fat: seq<nat>, ch: seq<nat>) {
    IsChain(fat, ch) && fat[ch[|ch| - 1]] == ch[|ch| - 1] + 1
  }

  /** That can only be so in the last cluster of the volume. */
  lemma EndLooksContiguousWhere(fat: seq<nat>, ch: seq<nat>)
    requires IsChain(fat, ch)
    ensures EndLooksContiguous(fat, ch) <==> ch[|ch| - 1] == |fat| - 1 && fat[|fat| - 1] == |fat|
  {}

  /** Such a chain: two clusters at the end of a volume, whose end mark is the number of entries. */
  lemma LinkMapFails()
    ensures IsChain([0, 0, 3, 4], [2, 3]) && EndLooksContiguous([0, 0, 3, 4], [2, 3])
  {}

  /** The link of the last of some consecutive clusters of a chain. */
  lemma LinkOf(fat: seq<nat>, ch: seq<nat>, k: nat)
    requires IsChain(fat, ch) && 0 < k <= |ch|
    ensures var c := ch[k - 1];
            && 2 <= c < |fat| && fat[c] >= 2
            && (k < |ch| ==> fat[c] == ch[k] < |fat|)
            && (k == |ch| ==> fat[c] >= |fat| && (EndLooksContiguous(fat, ch) <==> fat[c] == c + 1))
  {
    ChainLink(fat, ch, k);
  }

  lemma OneMoreCluster(ch: seq<nat>, j: nat, top: nat, n: nat)
    requires j + n < |ch| && ch[j + n] == top + n && ch[j..j + n] == Clusters(Fragment(n, top))
    ensures ch[j..j + (n + 1)] == Clusters(Fragment(n + 1, top))
  {
    assert ch[j..j + (n + 1)] == ch[j..j + n] + [ch[j + n]];
    assert Clusters(Fragment(n + 1, top)) == Clusters(Fragment(n, top)) + [top + n];
  }

  /** The entries of a table of size `tlen` for the fragments that fit into it. */
  ghost predicate Stored(t: seq<nat>, frs: seq<Fragment>, tlen: nat) {
    forall i :: 0 <= i < |frs| && 4 + 2 * i <= tlen ==>
                  2 + 2 * i < |t| && t[1 + 2 * i] == frs[i].len && t[2 + 2 * i] == frs[i].top
  }

  /** A finished link map. */
  ghost predicate LinkMap(t: seq<nat>, frs: seq<Fragment>) {
    && |t| >= 2 + 2 * |frs| && t[0] == 2 + 2 * |frs| && t[1 + 2 * |frs|] == 0
    && (forall i :: 0 <= i < |frs| ==> t[1 + 2 * i] == frs[i].len && t[2 + 2 * i] == frs[i].top)
    && Maximal(frs)
  }

  /** Follow the chain from element `j` while the clusters are consecutive. */
  method NextFragment(fs: Volume, start: nat, ghost ch: seq<nat>, ghost j: nat)
    returns (res: FResult, ncl: nat, cl: nat)
    requires fs.Valid() && IsChain(fs.Fat(), ch) && j < |ch| && start == ch[j]
    modifies fs`disk, fs`wflag, fs`winsect, fs.win
    ensures fs.Valid() && fs.Logical() == old(fs.Logical()) && fs.Fat() == old(fs.Fat()) && InFat(fs.geo, fs.winsect)
    ensures res == Ok || res == IntErr
    ensures res == IntErr ==> EndLooksContiguous(fs.Fat(), ch)
    ensures res == Ok ==>
              && 0 < ncl && j + ncl <= |ch| && ch[j..j + ncl] == Clusters(Fragment(ncl, start)) && cl != start + ncl
              && (if j + ncl < |ch| then cl == ch[j + ncl] < fs.geo.nFatent
                  else cl >= fs.geo.nFatent && !EndLooksContiguous(fs.Fat(), ch))
  {
    hide Volume.Valid, Volume.Logical, Volume.Fat, Volume.Reserved, IsChain, EndLooksContiguous, Clusters;
    ghost var fat := fs.Fat();
    cl, ncl := start, 0;
    res := Ok;
    assert ch[j..j] == Clusters(Fragment(0, start));
    LinkOf(fat, ch, j + 1);
    LinkOf(fat, ch, |ch|);
    while true
      invariant fs.Valid() && fs.Logical() == old(fs.Logical()) && fs.Fat() == fat && res == Ok
      invariant cl == start + ncl && j + ncl <= |ch| && (ncl > 0 ==> InFat(fs.geo, fs.winsect))
      invariant ch[j..j + ncl] == Clusters(Fragment(ncl, start))
      invariant if j + ncl < |ch| then cl == ch[j + ncl] else EndLooksContiguous(fat, ch) && cl == fs.geo.nFatent
      decreases |ch| - (j + ncl)
    {
      if j + ncl < |ch| {
        LinkOf(fat, ch, j + ncl + 1);
        OneMoreCluster(ch, j, start, ncl);
      }
      var pcl := cl;
      ncl := ncl + 1;
      cl := fs.GetFat(cl);
      if cl <= 1 {
        return IntErr, ncl, cl;
      }
      if cl != pcl + 1 {
        return;
      }
    }
  }

  /** One more fragment, maximal because the next cluster does not follow on. */
  lemma Append(frs: seq<Fragment>, fr: Fragment, ch: seq<nat>, j: nat)
    requires j + fr.len <= |ch| && Fragmentation(ch[..j], frs) && 0 < fr.len && ch[j..j + fr.len] == Clusters(fr)
    requires frs != [] ==> frs[|frs| - 1].top + frs[|frs| - 1].len != fr.top
    ensures Fragmentation(ch[..j + fr.len], frs + [fr])
  {
    assert (frs + [fr])[..|frs|] == frs;
    assert ch[..j + fr.len] == ch[..j] + ch[j..j + fr.len];
  }

  /**
   f_lseek with CREATE_LINKMAP. The required size is reported even when the table is too small.
   It fails only on a chain that ends in the last cluster of the volume with the end mark that
   looks like a link to the next one.
   */
  method CreateLinkMap(fs: Volume, sclust: nat, cltbl: array<nat>, ghost ch: seq<nat>)
    returns (res: FResult, ghost frs: seq<Fragment>)
    requires fs.Valid() && 0 < cltbl.Length && cltbl[0] <= cltbl.Length
    requires if sclust == 0 then ch == [] else IsChain(fs.Fat(), ch) && ch[0] == sclust
    modifies fs`disk, fs`wflag, fs`winsect, fs.win, cltbl
    ensures fs.Valid() && fs.Logical() == old(fs.Logical()) && fs.Fat() == old(fs.Fat())
    ensures fs.winsect == old(fs.winsect) || InFat(fs.geo, fs.winsect)
    ensures res == IntErr <==> EndLooksContiguous(fs.Fat(), ch)
    ensures res != IntErr ==> Fragmentation(ch, frs) && cltbl[0] == 2 + 2 * |frs|
    ensures res == Ok ==> 2 + 2 * |frs| <= old(cltbl[0]) && LinkMap(cltbl[..], frs)
    ensures res == Ok || res == IntErr || (res == NotEnoughCore && 2 + 2 * |frs| > old(cltbl[0]))
  {
    hide Volume.Valid, Volume.Logical, Volume.Fat, Volume.Reserved, Fragmentation, EndLooksContiguous, IsChain,
      Stored, LinkMap, Clusters;
    ghost var fat := fs.Fat();
    var tlen, ulen, p := cltbl[0], 2, 1;
    var cl := sclust;
    res, frs := Ok, [];
    ghost var j := 0;
    StartFragments(fat, ch, cltbl[..], tlen);
    if cl != 0 {
      while true
        invariant fs.Valid() && fs.Logical() == old(fs.Logical()) && fs.Fat() == fat && res == Ok
        invariant fs.winsect == old(fs.winsect) || InFat(fs.geo, fs.winsect)
        invariant j < |ch| && cl == ch[j] && Fragmentation(ch[..j], frs)
        invariant frs != [] ==> frs[|frs| - 1].top + frs[|frs| - 1].len != cl
        invariant ulen == 2 + 2 * |frs| && (ulen <= tlen ==> p == 1 + 2 * |frs|)
        invariant tlen <= cltbl.Length && Stored(cltbl[..], frs, tlen)
        decreases |ch| - j
      {
        var tcl := cl;
        ulen := ulen + 2;
        var ncl;
        res, ncl, cl := NextFragment(fs, tcl, ch, j);
        if res != Ok {
          return;
        }
        if ulen <= tlen {
          StoreFragment(cltbl, p, Fragment(ncl, tcl), frs, tlen);
          p := p + 2;
        } else {
          StoredOneMore(cltbl[..], frs, Fragment(ncl, tcl), tlen, cltbl[..]);
        }
        Append(frs, Fragment(ncl, tcl), ch, j);
        frs := frs + [Fragment(ncl, tcl)];
        j := j + ncl;
        if cl >= fs.geo.nFatent {
          break;
        }
      }
    }
    assert ch[..j] == ch;
    res := CloseTable(cltbl, tlen, ulen, p, ch, frs);
  }

  /** Record the size the table needs, and end the table if it is large enough. */
  method CloseTable(cltbl: array<nat>, tlen: nat, ulen: nat, p: nat, ghost ch: seq<nat>, ghost frs: seq<Fragment>)
    returns (res: FResult)
    requires 0 < cltbl.Length && tlen <= cltbl.Length && Fragmentation(ch, frs) && Stored(cltbl[..], frs, tlen)
    requires ulen == 2 + 2 * |frs| && (ulen <= tlen ==> p == 1 + 2 * |frs|)
    modifies cltbl
    ensures cltbl[0] == ulen && res == (if ulen <= tlen then Ok else NotEnoughCore)
    ensures res == Ok ==> LinkMap(cltbl[..], frs)
  {
    hide Fragmentation, Stored, LinkMap;
    ghost var t := cltbl[..];
    cltbl[0] := ulen;
    if ulen <= tlen {
      cltbl[p] := 0;
      Finished(ch, t, frs, tlen, cltbl[..]);
      res := Ok;
    } else {
      res := NotEnoughCore;
    }
  }

  /** The link map of an open file; neither the file nor the table is changed by building it. */
  method MapFile(f: File, cltbl: array<nat>) returns (res: FResult, ghost frs: seq<Fragment>)
    requires f.Valid() && 0 < cltbl.Length && cltbl[0] <= cltbl.Length
    modifies f.fs`disk, f.fs`wflag, f.fs`winsect, f.fs.win, f`err, cltbl
    ensures f.Valid() && f.Data() == old(f.Data()) && f.Table() == old(f.Table())
    ensures old(f.err) != Ok ==> res == f.err == old(f.err)
    ensures old(f.err) == Ok ==>
              && (res == IntErr <==> EndLooksContiguous(f.Table(), f.chain))
              && f.err == if res == IntErr then IntErr else Ok
    ensures f.err == Ok ==>
              && Fragmentation(f.chain, frs) && cltbl[0] == 2 + 2 * |frs|
              && res == (if 2 + 2 * |frs| <= old(cltbl[0]) then Ok else NotEnoughCore)
              && (res == Ok ==> LinkMap(cltbl[..], frs))
  {
    hide Volume.Valid, Volume.Logical, Volume.Fat, Volume.Reserved, Fragmentation, EndLooksContiguous, IsChain,
      LinkMap, Clear, Capacity, ClusterAt, SectorAt;
    if f.err != Ok {
      return f.err, [];
    }
    res, frs := CreateLinkMap(f.fs, f.sclust, cltbl, f.chain);
    f.WindowMoved();
    if res == IntErr {
      f.err := IntErr;
    }
  }

  lemma StartFragments(fat: seq<nat>, ch: seq<nat>, t: seq<nat>, tlen: nat)
    ensures Fragmentation(ch[..0], []) && Stored(t, [], tlen) && (IsChain(fat, ch) ==> ch != [])
    ensures ch == [] ==> !EndLooksContiguous(fat, ch)
  {}

  lemma Finished(ch: seq<nat>, t: seq<nat>, frs: seq<Fragment>, tlen: nat, t': seq<nat>)
    requires Fragmentation(ch, frs) && Stored(t, frs, tlen) && 2 + 2 * |frs| <= tlen <= |t|
    requires t' == t[0 := 2 + 2 * |frs|][1 + 2 * |frs| := 0]
    ensures LinkMap(t', frs)
  {}

  method StoreFragment(cltbl: array<nat>, p: nat, fr: Fragment, ghost frs: seq<Fragment>, ghost tlen: nat)
    requires p == 1 + 2 * |frs| && 4 + 2 * |frs| <= tlen <= cltbl.Length && Stored(cltbl[..], frs, tlen)
    modifies cltbl
    ensures Stored(cltbl[..], frs + [fr], tlen)
  {
    ghost var t := cltbl[..];
    cltbl[p] := fr.len;
    cltbl[p + 1] := fr.top;
    StoredOneMore(t, frs, fr, tlen, cltbl[..]);
  }

  lemma StoredOneMore(t: seq<nat>, frs: seq<Fragment>, fr: Fragment, tlen: nat, t': seq<nat>)
    requires Stored(t, frs, tlen) && |t'| == |t| >= tlen
    requires t' == if 4 + 2 * |frs| <= tlen then t[1 + 2 * |frs| := fr.len][2 + 2 * |frs| := fr.top] else t
    ensures Stored(t', frs + [fr], tlen)
  {}

  lemma {:induction false} FlatPrefix(frs: seq<Fragment>, k: nat)
    requires k <= |frs|
    ensures Flat(frs[..k]) <= Flat(frs)
    decreases |frs|
  {
    if k == |frs| {
      assert frs[..k] == frs;
    } else {
      FlatPrefix(frs[..|frs| - 1], k);
      assert frs[..|frs| - 1][..k] == frs[..k];
    }
  }

  /** Where fragment `k` lies in the chain. */
  lemma FlatAt(frs: seq<Fragment>, k: nat)
    requires k < |frs|
    ensures var o := |Flat(frs[..k])|;
            && o + frs[k].len == |Flat(frs[..k + 1])| <= |Flat(frs)|
            && Flat(frs)[o..o + frs[k].len] == Clusters(frs[k])
  {
    FlatPrefix(frs, k + 1);
    assert frs[..k + 1][..k] == frs[..k];
    assert Flat(frs[..k + 1]) == Flat(frs[..k]) + Clusters(frs[k]);
  }

  /** clmt_clust: the cluster that holds byte `ofs` of the file, 0 when the file has none. */
  method ClmtClust(g: Geometry, cltbl: array<nat>, ofs: nat, ghost frs: seq<Fragment>) returns (clst: nat)
    requires 0 < g.csize && LinkMap(cltbl[..], frs)
    ensures clst == ClusterAt(g, Flat(frs), ofs)
  {
    hide Flat, LinkMap;
    var tbl := 1;
    var cl: nat := ofs / 512 / g.csize;
    ghost var i := 0;
    FlatNil(frs);
    MapAt(cltbl[..], frs, 0);
    while true
      invariant 0 <= i <= |frs| && tbl == 1 + 2 * i
      invariant cl + |Flat(frs[..i])| == ofs / 512 / g.csize
      decreases |frs| - i
    {
      MapAt(cltbl[..], frs, i);
      var ncl := cltbl[tbl];
      tbl := tbl + 1;
      if ncl == 0 {
        assert frs[..i] == frs;
        return 0;
      }
      FlatAt(frs, i);
      if cl < ncl {
        assert Clusters(frs[i])[cl] == frs[i].top + cl;
        clst := cl + cltbl[tbl];
        return;
      }
      cl := cl - ncl;
      tbl := tbl + 1;
      i := i + 1;
    }
  }

  /** What the search finds at fragment `i`. */
  lemma MapAt(t: seq<nat>, frs: seq<Fragment>, i: nat)
    requires LinkMap(t, frs) && i <= |frs|
    ensures 1 + 2 * i < |t|
    ensures if i == |frs| then t[1 + 2 * i] == 0
            else 2 + 2 * i < |t| && t[1 + 2 * i] == frs[i].len > 0 && t[2 + 2 * i] == frs[i].top
  {}

  lemma FlatNil(frs: seq<Fragment>)
    ensures |Flat(frs[..0])| == 0
  {
    assert frs[..0] == [];
  }
}
