/**
 f_lseek, f_read and f_write on a file with a link map: clusters come from the map and not from the
 allocation table, so a file with clusters never gets more of them.
 */
module FatMappedFile {
  import opened Bounds
  import opened FatLayout
  import opened FatChains
  import opened FatVolume
  import opened FatFileSpec
  import opened FatBuffer
  import opened FatFile
  import opened FatLinkMap
  import opened FatReshape
  import opened FatFileRun

  /** The map is that of the chain, or it was made before the file had its first cluster. */
  ghost predicate Current(ch: seq<nat>, frs: seq<Fragment>) {
    Flat(frs) == ch || (Flat(frs) == [] && |ch| == 1)
  }

  /** Or it was made before f_truncate cut the chain, and still has the clusters cut off. */
  ghost predicate Serves(ch: seq<nat>, frs: seq<Fragment>) {
    Current(ch, frs) || (ch <= Flat(frs) && forall i :: 0 <= i < |Flat(frs)| ==> 2 <= Flat(frs)[i])
  }

  /** Behind the first cluster a current map gives what the chain has. */
  lemma CurrentAt(g: Geometry, ch: seq<nat>, frs: seq<Fragment>, p: nat)
    requires Current(ch, frs) && ClusterStart(g, p) && 0 < p
    ensures ClusterAt(g, Flat(frs), p) == ClusterAt(g, ch, p)
  {
    hide Flat;
    StartIs(g, p);
  }

  /** A map that has more clusters than the chain gives those of the chain, and behind them the first one cut off. */
  lemma OutdatedAt(g: Geometry, ch: seq<nat>, frs: seq<Fragment>, p: nat)
    requires ch <= Flat(frs) && 0 < g.csize
    ensures p < Capacity(g, ch) ==> ClusterAt(g, Flat(frs), p) == ClusterAt(g, ch, p)
    ensures p == Capacity(g, ch) && |ch| < |Flat(frs)| ==> ClusterAt(g, Flat(frs), p) == Flat(frs)[|ch|]
  {
    hide Flat;
    if p < Capacity(g, ch) {
      DivRange(p / 512, g.csize, |ch|);
    } else if p == Capacity(g, ch) {
      ModUnique(p, 512, |ch| * g.csize, 0);
      ModUnique(p / 512, g.csize, |ch|, 0);
    }
  }

  /** The map of a file without clusters has nothing. */
  lemma EmptyMap(g: Geometry, frs: seq<Fragment>, p: nat)
    requires Flat(frs) == []
    ensures ClusterAt(g, Flat(frs), p) == 0
  {}

  /**
   f_lseek on a file with a link map: the target is clipped to the file size, and the file is
   where the walk along the chain would have put it, also after f_truncate. It fails exactly when the
   file got its first cluster after the map was made and the target is behind its start.
   */
  method FastSeek(f: File, cltbl: array<nat>, target: nat, ghost frs: seq<Fragment>) returns (res: FResult)
    requires f.Valid() && LinkMap(cltbl[..], frs) && Serves(f.chain, frs)
    modifies f.fs`disk, f`clust, f`dirty, f`dsect, f`fptr, f`err, f.buf
    ensures f.Valid() && f.Data() == old(f.Data()) && f.Table() == old(f.Table()) && res == f.err
    ensures old(f.err) != Ok ==> f.err == old(f.err) && f.fptr == old(f.fptr)
    ensures old(f.err) == Ok ==>
              && f.fptr == Least(target, f.fsize)
              && res == if Flat(frs) == [] && f.chain != [] && f.fptr != 0 then IntErr else Ok
  {
    hide File.Core, File.Base, File.Data, File.Table, File.Spare, LinkMap, Clear, Capacity, ClusterAt, SectorAt, Flat;
    if f.err != Ok {
      return f.err;
    }
    f.StartOfChain();
    var ofs := if target > f.fsize then f.fsize else target;
    f.fptr := ofs;
    res := Ok;
    if ofs != 0 {
      f.CoversLess(ofs, f.fsize);
      if f.chain == [] { f.NoChain(ofs); }
      f.PtrFacts(ofs - 1);
      f.clust := ClmtClust(f.fs.geo, cltbl, ofs - 1, frs);
      if Flat(frs) == [] {
        EmptyMap(f.fs.geo, frs, ofs - 1);
      } else {
        f.CoversAtMost(ofs);
        OutdatedAt(f.fs.geo, f.chain, frs, ofs - 1);
      }
      res := SeekInside(f, ofs);
    }
  }

  /** The end of a fast seek: from the cluster of the byte before the target to its sector. */
  method SeekInside(f: File, ofs: nat) returns (res: FResult)
    requires f.Core() && 0 < ofs && f.Covers(ofs) && f.fptr == ofs && f.err == Ok
    requires f.clust == 0 || f.clust == ClusterAt(f.fs.geo, f.chain, ofs - 1)
    modifies f.fs`disk, f`dirty, f`dsect, f`err, f.buf
    ensures f.Core() && f.Data() == old(f.Data()) && f.Table() == old(f.Table()) && res == f.err
    ensures res == if f.clust == 0 then IntErr else Ok
    ensures res == Ok ==> f.AtPtr()
  {
    hide File.Core, File.Base, File.Data, File.Table, File.Spare, Clear, Capacity, ClusterAt, SectorAt, ClusterStart,
      SectorInCluster;
    f.PtrFacts(ofs - 1);
    var dsc := Clust2Sect(f.fs.geo, f.clust);
    if f.clust != 0 { f.SectorFound(ofs - 1); }
    if dsc == 0 {
      f.err := IntErr;
      return IntErr;
    }
    dsc := dsc + SectorInCluster(f.fs.geo, ofs - 1);
    if ofs % 512 != 0 {
      f.OneSector(ofs - 1);
      f.RunOnVolume(dsc, ofs - 1, 1);
      f.LoadSector(dsc);
      f.SameHolder(dsc, ofs - 1, 1);
    }
    res := Ok;
  }

  /** Find the sector at the file pointer by way of the map. */
  method MappedFollowRead(f: File, cltbl: array<nat>, ghost frs: seq<Fragment>) returns (sect: nat)
    requires f.Core() && f.Covers(f.fptr + 1) && f.AtPtr() && f.fptr % 512 == 0
    requires LinkMap(cltbl[..], frs) && Serves(f.chain, frs)
    modifies f`clust
    ensures f.Core() && f.Data() == old(f.Data()) && f.Table() == old(f.Table())
    ensures f.OnCluster(f.fptr) && f.HoldsByte(sect, f.fptr) && 0 < f.fs.geo.csize
  {
    hide File.Core, File.Base, File.Data, File.Table, File.Spare, LinkMap, File.Covers, Capacity, ClusterAt, SectorAt,
      Clust2Sect, Serves, Flat, ClusterStart, SectorInCluster;
    f.PtrFacts(f.fptr);
    var csect := SectorInCluster(f.fs.geo, f.fptr);
    InClusterIs(f.fs.geo, f.fptr);
    ZeroStart(f.fs.geo);
    if csect == 0 {
      var clst;
      if f.fptr == 0 {
        clst := f.sclust;
      } else {
        f.CoversLess(f.fptr, f.fptr + 1);
        f.CoversAtMost(f.fptr + 1);
        clst := MappedNext(f, cltbl, frs);
      }
      f.clust := clst;
    }
    sect := Clust2Sect(f.fs.geo, f.clust);
    sect := sect + csect;
    f.SectorFound(f.fptr);
  }

  /** One turn of the loop of f_read. */
  method MappedReadChunk(f: File, cltbl: array<nat>, btr: nat, ghost frs: seq<Fragment>) returns (chunk: seq<Byte>)
    requires f.Steady() && 0 < btr <= f.fsize - f.fptr && LinkMap(cltbl[..], frs) && Serves(f.chain, frs)
    modifies f.fs`disk, f`clust, f`dirty, f`dsect, f`fptr, f.buf
    ensures f.Steady() && f.Data() == old(f.Data()) && f.Table() == old(f.Table()) && cltbl[..] == old(cltbl[..])
    ensures 0 < |chunk| <= btr && f.fptr == old(f.fptr) + |chunk|
    ensures chunk == f.Contents(f.fsize)[old(f.fptr)..f.fptr]
  {
    hide File.Core, File.Base, File.Data, File.Table, File.Spare, Content, SectorAt, ClusterAt, File.Covers, LinkMap,
      Serves;
    if f.fptr % 512 == 0 {
      f.CoversLess(f.fptr + 1, f.fsize);
      var sect := MappedFollowRead(f, cltbl, frs);
      chunk := f.ReadHere(sect, btr);
    } else {
      f.InsideSector(f.fsize);
      chunk := f.ReadPart(btr);
    }
  }

  /** f_read with a link map: the bytes at the file pointer, and the table is not even looked at. */
  method MappedRead(f: File, cltbl: array<nat>, btr: nat, ghost frs: seq<Fragment>)
    returns (res: FResult, data: seq<Byte>)
    requires f.Valid() && LinkMap(cltbl[..], frs) && Serves(f.chain, frs)
    modifies f.fs`disk, f`clust, f`dirty, f`dsect, f`fptr, f.buf
    ensures f.Valid() && f.Data() == old(f.Data()) && f.Table() == old(f.Table()) && cltbl[..] == old(cltbl[..])
    ensures f.err != Ok ==> res == f.err && data == [] && f.fptr == old(f.fptr)
    ensures f.err == Ok && !f.canRead ==> res == Denied && data == [] && f.fptr == old(f.fptr)
    ensures f.err == Ok && f.canRead ==>
              && res == Ok && |data| == Least(btr, f.fsize - old(f.fptr))
              && f.fptr == old(f.fptr) + |data| && data == f.Contents(f.fsize)[old(f.fptr)..f.fptr]
  {
    hide File.Core, File.Base, File.Data, File.Table, File.Spare, File.AtPtr, Content, LinkMap, Serves;
    data := [];
    if f.err != Ok {
      return f.err, data;
    }
    if !f.canRead {
      return Denied, data;
    }
    var left := if btr > f.fsize - f.fptr then f.fsize - f.fptr else btr;
    while left > 0
      invariant f.Steady() && f.Data() == old(f.Data()) && f.Table() == old(f.Table()) && cltbl[..] == old(cltbl[..])
      invariant f.fptr == old(f.fptr) + |data| && 0 <= left <= f.fsize - f.fptr
      invariant |data| + left == Least(btr, f.fsize - old(f.fptr))
      invariant data == f.Contents(f.fsize)[old(f.fptr)..f.fptr]
    {
      ghost var c := f.Contents(f.fsize);
      ghost var p := f.fptr;
      var chunk := MappedReadChunk(f, cltbl, left, frs);
      assert f.Contents(f.fsize) == c;
      assert c[old(f.fptr)..f.fptr] == c[old(f.fptr)..p] + c[p..f.fptr];
      data := data + chunk;
      left := left - |chunk|;
    }
    res := Ok;
  }

  /**
   The cluster for the byte at the pointer, when that starts a cluster behind another. Inside the chain the map
   has it; at its end the map has none exactly if it is current, and else one that f_truncate has cut off.
   Whether a cluster is free does not matter.
   */
  method MappedNext(f: File, cltbl: array<nat>, ghost frs: seq<Fragment>) returns (clst: nat)
    requires f.Core() && f.fptr > 0 && ClusterStart(f.fs.geo, f.fptr) && f.Covers(f.fptr)
    requires LinkMap(cltbl[..], frs) && Serves(f.chain, frs)
    ensures f.Covers(f.fptr + 1) ==> 2 <= clst == ClusterAt(f.fs.geo, f.chain, f.fptr)
    ensures !f.Covers(f.fptr + 1) ==> f.fptr == Capacity(f.fs.geo, f.chain) && (clst == 0 <==> Current(f.chain, frs))
    ensures !f.Covers(f.fptr + 1) && clst != 0 ==> |f.chain| < |Flat(frs)| && clst == Flat(frs)[|f.chain|]
  {
    hide File.Core, File.Base, File.Data, File.Table, File.Spare, LinkMap, Capacity, ClusterAt, SectorAt, Flat;
    f.StartOfChain();
    clst := ClmtClust(f.fs.geo, cltbl, f.fptr, frs);
    f.CoversAtMost(f.fptr + 1);
    if f.fptr < Capacity(f.fs.geo, f.chain) {
      f.PtrFacts(f.fptr);
    } else {
      NoneBeyond(f.fs.geo, f.chain, f.fptr);
    }
    if Current(f.chain, frs) {
      CurrentAt(f.fs.geo, f.chain, frs, f.fptr);
    } else {
      OutdatedAt(f.fs.geo, f.chain, frs, f.fptr);
    }
  }

  lemma NoneBeyond(g: Geometry, ch: seq<nat>, p: nat)
    requires p >= Capacity(g, ch)
    ensures ClusterAt(g, ch, p) == 0
  {
    if 0 < g.csize && p / 512 / g.csize < |ch| {
      MulMonotone(g.csize, p / 512 / g.csize + 1, |ch|);
    }
  }

  /** Bytes up to `end` can be written without a cluster that f_truncate has cut off. */
  ghost predicate Reaches(g: Geometry, ch: seq<nat>, frs: seq<Fragment>, end: nat) {
    Serves(ch, frs) && (Current(ch, frs) || end <= Capacity(g, ch))
  }

  /** The first cluster of a file does not matter to that. */
  lemma ReachesFirst(g: Geometry, frs: seq<Fragment>, ch: seq<nat>, end: nat)
    requires Reaches(g, [], frs, end) && 0 < end && |ch| <= 1
    ensures Reaches(g, ch, frs, end)
  {}

  lemma ReachesMeans(g: Geometry, ch: seq<nat>, frs: seq<Fragment>, p: nat, end: nat)
    requires Reaches(g, ch, frs, end) && p < end
    ensures Serves(ch, frs) && (p == Capacity(g, ch) ==> Current(ch, frs))
  {}

  /** What a step through the map may do to the chain: the first cluster at most. */
  twostate predicate FirstOnly(f: File)
    reads f`sclust, f`chain, f`dsect, f`dirty, f`owned, f`shy, f.fs`disk, f.fs`wflag, f.fs`winsect, f.fs.win, f.buf
    requires old(f.Base()) && f.Base()
  {
    if old(f.chain) == [] then |f.chain| <= 1 else f.chain == old(f.chain) && f.Table() == old(f.Table())
  }

  /** The first half of f_write at a sector boundary, with a link map. */
  method MappedFollowWrite(f: File, cltbl: array<nat>, ghost frs: seq<Fragment>, ghost end: nat)
    returns (why: nat, sect: nat)
    requires f.Writing() && f.fptr % 512 == 0 && LinkMap(cltbl[..], frs)
    requires f.fptr < end && Reaches(f.fs.geo, f.chain, frs, end)
    modifies f.fs`disk, f.fs`wflag, f.fs`winsect, f.fs.win, f.fs`freeClust, f.fs`fsiDirty, f.fs`lastClust
    modifies f`sclust, f`chain, f`clust, f`dirty
    ensures f.Core() && f.Covers(f.Extent()) && f.Contents(f.Extent()) == old(f.Contents(f.Extent()))
    ensures f.OnlyGrown() && FirstOnly(f) && Reaches(f.fs.geo, f.chain, frs, end) && cltbl[..] == old(cltbl[..]) &&
              why <= 2
    ensures why < 2 ==>
              f.AtPtr() && f.fptr == Capacity(f.fs.geo, f.chain) && (f.chain == [] ==> NoCluster(f.Table(), why))
    ensures why == 1 ==> f.chain == []
    ensures why == 2 ==> !f.dirty && f.Covers(f.fptr + 1) && f.OnCluster(f.fptr) && f.HoldsByte(sect, f.fptr)
    ensures old(f.CountExact()) ==> f.CountExact()
  {
    hide File.Core, File.Base, File.Data, File.Table, File.Spare, ClusterAt, SectorAt, Content, ChainGrown,
      OthersKept, File.Covers, Capacity, Clust2Sect, NoCluster, LinkMap, Flat, ClusterStart, SectorInCluster, Reaches,
      Current;
    f.StartOfChain();
    f.ChainLegal();
    GrownReflexive(f.fs.geo, f.Table(), f.Data(), f.chain);
    why := 2;
    var csect := SectorInCluster(f.fs.geo, f.fptr);
    InClusterIs(f.fs.geo, f.fptr);
    if csect == 0 {
      var clst := MappedCluster(f, cltbl, frs, end);
      if clst < 2 {
        return clst, 0;
      }
      f.clust := clst;
    } else {
      f.InsideCluster();
    }
    f.Flush();
    sect := Clust2Sect(f.fs.geo, f.clust) + csect;
    f.SectorFound(f.fptr);
  }

  /** The cluster for the byte at the pointer, which starts one: the first of the file, or one of the map. */
  method MappedCluster(f: File, cltbl: array<nat>, ghost frs: seq<Fragment>, ghost end: nat) returns (clst: nat)
    requires f.Writing() && ClusterStart(f.fs.geo, f.fptr) && LinkMap(cltbl[..], frs)
    requires f.fptr < end && Reaches(f.fs.geo, f.chain, frs, end)
    modifies f.fs`disk, f.fs`wflag, f.fs`winsect, f.fs.win, f.fs`freeClust, f.fs`fsiDirty, f.fs`lastClust
    modifies f`sclust, f`chain
    ensures f.Core() && f.Covers(f.Extent()) && f.Contents(f.Extent()) == old(f.Contents(f.Extent()))
    ensures f.OnlyGrown() && FirstOnly(f) && Reaches(f.fs.geo, f.chain, frs, end) && cltbl[..] == old(cltbl[..])
    ensures clst < 2 ==>
              && f.AtPtr() && f.fptr == Capacity(f.fs.geo, f.chain) && (clst == 1 ==> f.chain == [])
              && (f.chain == [] ==> NoCluster(f.Table(), clst))
    ensures clst >= 2 ==> f.Covers(f.fptr + 1) && clst == ClusterAt(f.fs.geo, f.chain, f.fptr)
    ensures old(f.CountExact()) ==> f.CountExact()
  {
    hide File.Core, File.Base, File.Data, File.Table, File.Spare, ClusterAt, SectorAt, Content, ChainGrown,
      OthersKept, File.Covers, Capacity, NoCluster, LinkMap, Flat, ClusterStart, Reaches, Current;
    if f.fptr == 0 {
      clst := f.FirstForWrite(f.Extent());
      if clst < 2 { f.NoChain(0); }
      if old(f.chain) == [] { ReachesFirst(f.fs.geo, frs, f.chain, end); }
    } else {
      f.ChainLegal();
      GrownReflexive(f.fs.geo, f.Table(), f.Data(), f.chain);
      f.CoversLess(f.fptr, f.Extent());
      ReachesMeans(f.fs.geo, f.chain, frs, f.fptr, end);
      clst := MappedNext(f, cltbl, frs);
      if f.chain == [] { f.NoChain(f.fptr); }
    }
  }

  /** One turn of the loop of f_write, with a link map. */
  method MappedWriteChunk(f: File, cltbl: array<nat>, wbuff: seq<Byte>, ghost frs: seq<Fragment>, ghost end: nat)
    returns (why: nat, n: nat)
    requires f.Writing() && 0 < |wbuff| && f.fptr + |wbuff| < TWO32 && LinkMap(cltbl[..], frs)
    requires f.fptr + |wbuff| <= end && Reaches(f.fs.geo, f.chain, frs, end)
    modifies f.fs`disk, f.fs`wflag, f.fs`winsect, f.fs.win, f.fs`freeClust, f.fs`fsiDirty, f.fs`lastClust
    modifies f`sclust, f`chain, f`clust, f`dirty, f`dsect, f`fptr, f`lim, f.buf
    ensures f.Writing() && f.OnlyGrown() && f.fptr == old(f.fptr) + n && n <= |wbuff|
    ensures FirstOnly(f) && Reaches(f.fs.geo, f.chain, frs, end) && cltbl[..] == old(cltbl[..])
    ensures why <= 2 && (why == 2 ==> n > 0)
    ensures why < 2 ==> n == 0 && f.fptr == Capacity(f.fs.geo, f.chain) && (f.chain == [] ==> NoCluster(f.Table(), why))
    ensures why == 1 ==> f.chain == []
    ensures f.Contents(f.Extent()) == Splice(old(f.Contents(f.Extent())), old(f.fptr), wbuff[..n])
    ensures old(f.CountExact()) ==> f.CountExact()
  {
    hide File.Core, File.Base, File.Data, File.Table, File.Spare, SectorAt, ClusterAt, Content, OthersKept,
      ChainGrown, HasReserved, File.Covers, NoCluster, Capacity, LinkMap, Reaches;
    why := 2;
    if f.fptr % 512 != 0 {
      n := f.WriteInside(wbuff);
      SameChain(f);
      return;
    }
    var sect;
    why, sect := MappedFollowWrite(f, cltbl, frs, end);
    if why < 2 {
      n := 0;
      return;
    }
    ghost var img := f.Data();
    f.ChainLegal();
    n := f.WriteHere(sect, wbuff);
    OthersKeptTwice(f.fs.geo, old(f.Data()), img, f.Data(), f.chain, f.chain);
  }

  twostate lemma SameChain(f: File)
    requires old(f.Core()) && f.Core() && f.chain == old(f.chain) && f.Table() == old(f.Table())
    ensures FirstOnly(f)
  {}

  /** The loop of f_write, with a link map. */
  method MappedWriteLoop(f: File, cltbl: array<nat>, wbuff: seq<Byte>, ghost frs: seq<Fragment>, ghost end: nat)
    returns (why: nat, bw: nat)
    requires f.Writing() && f.fptr + |wbuff| < TWO32 && LinkMap(cltbl[..], frs)
    requires f.fptr + |wbuff| <= end && Reaches(f.fs.geo, f.chain, frs, end)
    modifies f.fs`disk, f.fs`wflag, f.fs`winsect, f.fs.win, f.fs`freeClust, f.fs`fsiDirty, f.fs`lastClust
    modifies f`sclust, f`chain, f`clust, f`dirty, f`dsect, f`fptr, f`lim, f.buf
    ensures f.Writing() && f.OnlyGrown() && bw <= |wbuff| && f.fptr == old(f.fptr) + bw
    ensures FirstOnly(f) && Reaches(f.fs.geo, f.chain, frs, end) && cltbl[..] == old(cltbl[..])
    ensures why <= 2 && (why == 2 ==> bw == |wbuff|)
    ensures f.Contents(f.Extent()) == Splice(old(f.Contents(f.Extent())), old(f.fptr), wbuff[..bw])
    ensures why < 2 ==>
              bw < |wbuff| && f.fptr == Capacity(f.fs.geo, f.chain) && (f.chain == [] ==> NoCluster(f.Table(), why))
    ensures why == 1 ==> f.chain == []
    ensures old(f.CountExact()) ==> f.CountExact()
  {
    hide File.Core, File.Base, File.Data, File.Table, File.Spare, Content, OthersKept, ChainGrown, HasReserved,
      File.Covers, File.AtPtr, NoCluster, Capacity, LinkMap, Reaches, Splice;
    f.ChainLegal();
    GrownReflexive(f.fs.geo, f.Table(), f.Data(), f.chain);
    SpliceNothing(f.Contents(f.Extent()), f.fptr);
    assert wbuff[..0] == [];
    ghost var c0 := f.Contents(f.Extent());
    why, bw := 2, 0;
    while bw < |wbuff|
      invariant f.Writing() && f.OnlyGrown() && FirstOnly(f) && cltbl[..] == old(cltbl[..])
      invariant Reaches(f.fs.geo, f.chain, frs, end)
      invariant old(f.CountExact()) ==> f.CountExact()
      invariant why == 2 && bw <= |wbuff| && f.fptr == old(f.fptr) + bw
      invariant f.Contents(f.Extent()) == Splice(c0, old(f.fptr), wbuff[..bw])
    {
      ghost var fat, ch, img := f.Table(), f.chain, f.Data();
      f.ChainLegal();
      var n;
      why, n := MappedWriteChunk(f, cltbl, wbuff[bw..], frs, end);
      f.ChainLegal();
      f.OnlyGrownTwice(old(f.Table()), old(f.chain), old(f.Data()), fat, ch, img);
      SpliceStep(c0, old(f.fptr), wbuff, bw, n);
      bw := bw + n;
      if why < 2 {
        return;
      }
    }
  }

  /** Why and where the loop has ended, in terms of the clusters of the file. */
  lemma WhereEnded(f: File, start: nat, len: nat, why: nat, bw: nat)
    requires f.Core() && f.Covers(f.Extent()) && f.fptr == start + bw && bw <= len && why <= 2 &&
              (why == 2 ==> bw == len)
    requires why < 2 ==>
              bw < len && f.fptr == Capacity(f.fs.geo, f.chain) && (f.chain == [] ==> NoCluster(f.Table(), why))
    requires why == 1 ==> f.chain == []
    ensures f.Covers(f.fsize) && f.Covers(f.fptr) && start <= Capacity(f.fs.geo, f.chain)
    ensures bw == Least(len, Capacity(f.fs.geo, f.chain) - start)
    ensures why == 1 ==> bw == 0 && f.fsize == 0 && HasReserved(f.Table())
    ensures f.chain == [] ==> start == 0
    ensures f.chain == [] && 0 < len && why != 1 ==> FreeSet(f.Table()) == {}
  {
    hide File.Core, File.Base, File.Table, File.Spare, HasReserved, Capacity;
    if f.chain == [] { f.NoChain(f.Extent()); }
  }

  /** f_write with a link map on a file that can be written to. */
  method MappedPut(f: File, cltbl: array<nat>, wbuff: seq<Byte>, ghost frs: seq<Fragment>)
    returns (res: FResult, bw: nat)
    requires f.Steady() && f.err == Ok && |wbuff| < TWO32 && LinkMap(cltbl[..], frs)
    requires Reaches(f.fs.geo, f.chain, frs, f.fptr + |wbuff|)
    modifies f.fs`disk, f.fs`wflag, f.fs`winsect, f.fs.win, f.fs`freeClust, f.fs`fsiDirty, f.fs`lastClust
    modifies f`sclust, f`chain, f`clust, f`dirty, f`dsect, f`fptr, f`lim, f`fsize, f`written, f`err, f.buf
    ensures f.Valid() && f.err == res && f.OnlyGrown() && f.fptr == old(f.fptr) + bw && bw <= |wbuff|
    ensures FirstOnly(f) && Reaches(f.fs.geo, f.chain, frs, old(f.fptr) + |wbuff|) && cltbl[..] == old(cltbl[..])
    ensures f.fsize == Max(f.fptr, old(f.fsize))
    ensures f.Contents(f.fsize) == Splice(old(f.Contents(f.fsize)), old(f.fptr), wbuff[..bw])
    ensures res != Ok ==> res == IntErr && bw == 0 && f.chain == [] && HasReserved(f.Table())
    ensures res == Ok ==>
              bw == if old(f.fptr) + |wbuff| >= TWO32 then 0
                    else Least(|wbuff|, Capacity(f.fs.geo, f.chain) - old(f.fptr))
    ensures f.chain == [] && 0 < |wbuff| && res == Ok ==> FreeSet(f.Table()) == {}
    ensures (old(f.CountExact()) ==> f.CountExact()) && if res == Ok then f.written else f.written == old(f.written)
  {
    hide File.Core, File.Base, File.Data, File.Table, File.Spare, Content, OthersKept, ChainGrown, HasReserved,
      File.AtPtr, Capacity, LinkMap, Reaches, FirstOnly, Splice, File.Covers, NoCluster, File.OnlyGrown,
      File.CountExact;
    var data := wbuff;
    if Add32(f.fptr, |wbuff|) < f.fptr {
      data := [];
    }
    var why;
    why, bw := MappedWriteLoop(f, cltbl, data, frs, f.fptr + |wbuff|);
    WhereEnded(f, old(f.fptr), |data|, why, bw);
    if why == 1 {
      f.err := IntErr;
      return IntErr, bw;
    }
    f.UpdateSize();
    res := Ok;
  }

  /**
   f_write with a link map: a file with clusters gets no more of them, the table stays as it is, and
   the write stops at the end of the last cluster. Only a file without clusters is given one.
   */
  method MappedWrite(f: File, cltbl: array<nat>, wbuff: seq<Byte>, ghost frs: seq<Fragment>)
    returns (res: FResult, bw: nat)
    requires f.Valid() && |wbuff| < TWO32 && LinkMap(cltbl[..], frs)
    requires Reaches(f.fs.geo, f.chain, frs, f.fptr + |wbuff|)
    modifies f.fs`disk, f.fs`wflag, f.fs`winsect, f.fs.win, f.fs`freeClust, f.fs`fsiDirty, f.fs`lastClust
    modifies f`sclust, f`chain, f`clust, f`dirty, f`dsect, f`fptr, f`lim, f`fsize, f`written, f`err, f.buf
    ensures f.Valid() && f.OnlyGrown() && f.fptr == old(f.fptr) + bw && bw <= |wbuff|
    ensures FirstOnly(f) && Reaches(f.fs.geo, f.chain, frs, old(f.fptr) + |wbuff|) && cltbl[..] == old(cltbl[..])
    ensures old(f.err) != Ok || !f.canWrite ==>
              && res == (if old(f.err) != Ok then f.err else Denied) && f.err == old(f.err) && bw == 0
              && f.fsize == old(f.fsize) && f.Contents(f.fsize) == old(f.Contents(f.fsize))
    ensures old(f.err) == Ok && f.canWrite ==>
              && f.err == res && f.fsize == Max(f.fptr, old(f.fsize))
              && f.Contents(f.fsize) == Splice(old(f.Contents(f.fsize)), old(f.fptr), wbuff[..bw])
    ensures old(f.err) == Ok && f.canWrite && res != Ok ==>
              res == IntErr && bw == 0 && f.chain == [] && HasReserved(f.Table())
    ensures old(f.err) == Ok && f.canWrite && res == Ok ==>
              bw == if old(f.fptr) + |wbuff| >= TWO32 then 0
                    else Least(|wbuff|, Capacity(f.fs.geo, f.chain) - old(f.fptr))
    ensures f.chain == [] && 0 < |wbuff| && old(f.err) == Ok && f.canWrite && res == Ok ==> FreeSet(f.Table()) == {}
    ensures if res == Ok && old(f.err) == Ok && f.canWrite then f.written else f.written == old(f.written)
    ensures old(f.CountExact()) ==> f.CountExact()
  {
    hide File.Core, File.Base, File.Data, File.Table, File.Spare, Content, OthersKept, ChainGrown, HasReserved,
      File.AtPtr, Capacity, LinkMap, Reaches, FirstOnly, File.Covers, NoCluster;
    if f.err != Ok || !f.canWrite {
      f.ChainLegal();
      GrownReflexive(f.fs.geo, f.Table(), f.Data(), f.chain);
      SameChain(f);
      return if f.err != Ok then f.err else Denied, 0;
    }
    res, bw := MappedPut(f, cltbl, wbuff, frs);
  }

  /**
   f_write of one sector at the end of a file whose map has a cluster more than its chain: the sector goes to that
   cluster, the table stays as it is, and the file ends behind its last cluster.
   */
  method WriteAstray(f: File, cltbl: array<nat>, wbuff: seq<Byte>, ghost frs: seq<Fragment>)
    requires f.Steady() && LinkMap(cltbl[..], frs) && Serves(f.chain, frs) && !Current(f.chain, frs)
    requires 0 < f.fptr == f.fsize == Capacity(f.fs.geo, f.chain) && |wbuff| == 512
    requires OnVolume(f.fs.geo, |f.fs.disk|, Flat(frs)) && Clear(f.fs.geo, Flat(frs), f.fs.winsect)
    modifies f.fs`disk, f`clust, f`dirty, f`fptr, f`fsize, f`written, f.buf
    ensures |f.chain| < |Flat(frs)| && f.clust == Flat(frs)[|f.chain|] && f.Core() && f.Table() == old(f.Table())
    ensures ClusterSector(f.fs.geo, f.clust) < |f.fs.disk| == old(|f.fs.disk|)
    ensures f.Data()[ClusterSector(f.fs.geo, f.clust)] == wbuff
    ensures f.fsize == f.fptr == old(f.fptr) + 512 > Capacity(f.fs.geo, f.chain) && !f.Standing() && f.written
  {
    hide File.Core, File.Base, File.Data, File.Table, File.Spare, LinkMap, ClusterAt, SectorAt, Flat, Clust2Sect,
      Clear, Capacity;
    f.StartOfChain();
    EndIsStart(f.fs.geo, f.chain);
    f.CoversAtMost(f.fptr + 1);
    var clst := MappedNext(f, cltbl, frs);
    f.clust := clst;
    PutAstray(f, wbuff, frs);
    f.fptr := f.fptr + 512;
    f.CoversAtMost(f.fptr);
    f.fsize := f.fptr;
    f.written := true;
  }

  /** The transfer of that sector. */
  method PutAstray(f: File, wbuff: seq<Byte>, ghost frs: seq<Fragment>)
    requires f.Core() && |wbuff| == 512 && |f.chain| < |Flat(frs)| && f.clust == Flat(frs)[|f.chain|]
    requires OnVolume(f.fs.geo, |f.fs.disk|, Flat(frs)) && Clear(f.fs.geo, Flat(frs), f.fs.winsect)
    modifies f.fs`disk, f`dirty, f.buf
    ensures f.Core() && f.Table() == old(f.Table()) && 2 <= f.clust
    ensures ClusterSector(f.fs.geo, f.clust) < |f.fs.disk| == old(|f.fs.disk|)
    ensures f.Data()[ClusterSector(f.fs.geo, f.clust)] == wbuff
  {
    hide File.Core, File.Base, File.Data, File.Table, File.Spare, Flat, Clust2Sect, Clear;
    f.Flush();
    var sect := Clust2Sect(f.fs.geo, f.clust);
    CutOffSector(f.fs.geo, |f.fs.disk|, Flat(frs), |f.chain|, f.fs.winsect);
    f.PutRun(sect, 1, wbuff);
  }

  lemma EndIsStart(g: Geometry, ch: seq<nat>)
    requires 0 < g.csize
    ensures ClusterStart(g, Capacity(g, ch))
  {
    ModUnique(Capacity(g, ch), 512, |ch| * g.csize, 0);
    ModUnique(|ch| * g.csize, g.csize, |ch|, 0);
  }

  lemma CutOffSector(g: Geometry, nSectors: nat, ch: seq<nat>, k: nat, w: nat)
    requires OnVolume(g, nSectors, ch) && k < |ch| && Clear(g, ch, w)
    ensures Clust2Sect(g, ch[k]) == ClusterSector(g, ch[k]) && g.database <= ClusterSector(g, ch[k]) < nSectors <= TWO32
    ensures w != ClusterSector(g, ch[k])
  {
    Clust2SectIs(g, nSectors, ch[k]);
    ClusterOnVolume(g, nSectors, ch[k], 0);
  }

  /** Have the window stay away from the clusters of the file, whatever becomes of them. */
  method KeepAway(f: File)
    requires f.Valid()
    modifies f`shy
    ensures f.Valid() && f.shy == f.chain && f.Table() == old(f.Table())
  {
    hide Volume.Valid, Volume.Fat, Volume.Reserved, Volume.Logical, IsChain, ValidGeometry, Clear, SectorAt,
      ClusterAt, Capacity, Agrees;
    f.shy := f.chain;
  }

  lemma MoreThanOne(f: File)
    requires f.Standing() && f.fs.geo.csize * 512 < f.fsize
    ensures 1 < |f.chain| && ClustersFor(f.fs.geo, f.fs.geo.csize * 512) == 1 && 0 < f.fs.geo.csize
  {
    hide Volume.Fat, Volume.Reserved, Volume.Logical, IsChain, Clear, SectorAt, ClusterAt, Agrees;
    if |f.chain| <= 1 { MulMonotone(f.fs.geo.csize, |f.chain|, 1); }
    var c := f.fs.geo.csize;
    ModUnique(c * 512 - 1, 512, c - 1, 511);
    ModUnique(c - 1, c, 0, c - 1);
  }

  /** After the cut the map has the clusters that have been freed. */
  lemma AfterCut(f: File, fat: seq<nat>, ch: seq<nat>, frs: seq<Fragment>, mark: nat)
    requires f.Valid() && IsChain(fat, ch) && 1 < |ch| && f.shy == ch == Flat(frs) && f.chain == ch[..1]
    requires f.Table() == Cut(fat, ch, 1, mark) && f.fptr == f.fsize == f.fs.geo.csize * 512
    ensures Serves(f.chain, frs) && !Current(f.chain, frs) && 0 < f.fptr == Capacity(f.fs.geo, f.chain)
    ensures OnVolume(f.fs.geo, |f.fs.disk|, Flat(frs)) && Clear(f.fs.geo, Flat(frs), f.fs.winsect)
    ensures ch[1] < |f.Table()| && f.Table()[ch[1]] == 0
  {
    hide Volume.Fat, Volume.Reserved, Volume.Logical, Clear, SectorAt, ClusterAt, Agrees, Flat;
    assert ch[1..][0] == ch[1] && ch[1] in ch[1..];
    assert IsCluster(fat, ch[1]);
  }

  /**
   The run that makes a map outdated: a file of more than one cluster with its map, f_lseek to the end of the first
   cluster, f_truncate and f_write of a sector. The sector is written to a free cluster.
   */
  method WritesFreeCluster(f: File, cltbl: array<nat>, wbuff: seq<Byte>, ghost frs: seq<Fragment>)
    requires f.Valid() && f.err == Ok && f.canWrite && LinkMap(cltbl[..], frs) && Flat(frs) == f.chain
    requires f.fs.geo.csize * 512 < f.fsize && |wbuff| == 512
    modifies f.fs`disk, f.fs`wflag, f.fs`winsect, f.fs.win, f.fs`freeClust, f.fs`fsiDirty
    modifies f`sclust, f`chain, f`clust, f`dirty, f`dsect, f`fptr, f`fsize, f`written, f`err, f`lim, f`owned, f`shy,
      f.buf
    ensures f.Base() && |f.chain| == 1 < |old(f.chain)| && f.clust == old(f.chain)[1]
    ensures f.clust < |f.Table()| && f.Table()[f.clust] == 0
    ensures ClusterSector(f.fs.geo, f.clust) < |f.Data()| && f.Data()[ClusterSector(f.fs.geo, f.clust)] == wbuff
    ensures f.fsize > Capacity(f.fs.geo, f.chain) && !f.Standing()
  {
    hide File.Core, File.Base, File.Data, File.Table, File.Spare, LinkMap, ClusterAt, SectorAt, Flat, Clear, Capacity,
      Cut, Kept, SameOutsideFat, IsChain;
    MoreThanOne(f);
    KeepAway(f);
    var res := FastSeek(f, cltbl, f.fs.geo.csize * 512, frs);
    ghost var ch, fat := f.chain, f.Table();
    res := f.Truncate();
    AfterCut(f, fat, ch, frs, Kept(f.fs.geo.fsType, END_OF_CHAIN));
    WriteAstray(f, cltbl, wbuff, frs);
  }

  /** A map made of an empty file, f_write of a byte and f_lseek behind it: the seek fails. */
  method MapTooEarly(f: File, cltbl: array<nat>) returns (res: FResult)
    requires f.Valid() && f.err == Ok && f.canWrite && f.chain == [] && f.fptr == f.fsize == 0
    requires FreeSet(f.Table()) != {} && !HasReserved(f.Table()) && 2 <= cltbl.Length && 2 <= cltbl[0] <= cltbl.Length
    modifies f.fs`disk, f.fs`wflag, f.fs`winsect, f.fs.win, f.fs`freeClust, f.fs`fsiDirty, f.fs`lastClust, cltbl
    modifies f`sclust, f`chain, f`clust, f`dirty, f`dsect, f`fptr, f`lim, f`fsize, f`written, f`err, f.buf
    ensures res == IntErr
  {
    hide File.Core, File.Base, File.Data, File.Table, File.Spare, LinkMap, Clear, Capacity, Flat, HasReserved,
      OthersKept, FreeSet, Content, Splice, File.Covers, File.AtPtr, ChainGrown;
    ghost var frs;
    res, frs := MapFile(f, cltbl);
    FlatOf(f.chain, frs);
    NoFragments(f.chain, frs);
    ghost var fat := f.Table();
    var bw;
    res, bw := MappedWrite(f, cltbl, [7], frs);
    TakesCluster(f, fat);
    res := FastSeek(f, cltbl, 1, frs);
  }

  lemma FlatOf(ch: seq<nat>, frs: seq<Fragment>)
    requires Fragmentation(ch, frs)
    ensures Flat(frs) == ch
  {}

  /** An empty file that is written to takes a cluster, if one is free and none reserved. */
  lemma TakesCluster(f: File, fat: seq<nat>)
    requires f.Core() && ChainGrown(fat, [], f.Table(), f.chain) && FreeSet(fat) != {} && !HasReserved(fat)
    ensures !HasReserved(f.Table()) && 0 < f.fs.geo.csize
    ensures f.chain == [] ==> FreeSet(f.Table()) != {}
    ensures f.chain != [] ==> Capacity(f.fs.geo, f.chain) >= 512
  {
    hide Volume.Valid, Volume.Fat, Volume.Reserved, Volume.Logical, Clear, Agrees;
    ThisChain(f);
    ReshapedByGrowth(fat, [], f.Table(), f.chain);
    ReshapedReserved(fat, [], f.Table(), f.chain);
    f.StartOfChain();
    if f.chain == [] {
      var c :| c in FreeSet(fat);
      assert c in FreeSet(f.Table());
    } else {
      MulMonotone(f.fs.geo.csize, 1, |f.chain|);
    }
  }
}
