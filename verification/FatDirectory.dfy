/**
 Directory tables: the index of an entry and where it is, found from scratch or step by step.
 An entry takes 32 bytes, so 16 of them make a sector.
 */
module FatDirectory {
  import opened FatLayout
  import opened FatChains
  import opened FatVolume
  import opened FatFileSpec

  /** What mounting establishes about the root directory. */
  predicate RootGeometry(g: Geometry) {
    if g.fsType.Fat32? then g.nRootdir == 0
    else g.nRootdir % 16 == 0 && g.fatbase + FatSpan(g) <= g.dirbase && g.dirbase + g.nRootdir / 16 <= g.database
  }

  /** The cluster of entry `i`, counted along the table. */
  function ClusterNo(csize: nat, i: nat): nat {
    if csize == 0 then 0 else i / 16 / csize
  }

  /** The sector of entry `i` in its cluster. */
  function SectorNo(csize: nat, i: nat): nat {
    if csize == 0 then 0 else i / 16 % csize
  }

  /**
   The table that starts in cluster `start` has an entry `i`; cluster 0 stands for the static
   root table. The links are followed wherever they lead.
   */
  ghost predicate InTable(g: Geometry, fat: seq<nat>, start: nat, i: nat) {
    if start == 0 then i < g.nRootdir else IsCluster(fat, Nth(fat, start, ClusterNo(g.csize, i)))
  }

  /** The cluster, the sector and the byte in it of an entry. */
  datatype Place = Place(clust: nat, sect: nat, off: nat)

  ghost function PlaceOf(g: Geometry, fat: seq<nat>, start: nat, i: nat): (p: Place)
    requires InTable(g, fat, start, i)
  {
    if start == 0 then Place(0, g.dirbase + i / 16, i % 16 * 32)
    else
      var c := Nth(fat, start, ClusterNo(g.csize, i));
      Place(c, ClusterSector(g, c) + SectorNo(g.csize, i), i % 16 * 32)
  }

  /** Different entries of a table, the static one or one on a chain, are at different places. */
  lemma PlacesApart(g: Geometry, fat: seq<nat>, start: nat, ch: seq<nat>, i: nat, j: nat)
    requires 0 < g.csize && (start != 0 ==> IsChain(fat, ch) && ch[0] == start)
    requires InTable(g, fat, start, i) && InTable(g, fat, start, j)
    requires PlaceOf(g, fat, start, i).sect == PlaceOf(g, fat, start, j).sect
    requires PlaceOf(g, fat, start, i).off == PlaceOf(g, fat, start, j).off
    ensures i == j
  {
    hide IsChain, Nth, ClusterNo, SectorNo, ClusterSector;
    IndexSplit(g.csize, i);
    IndexSplit(g.csize, j);
    if start != 0 {
      var a, b := ClusterNo(g.csize, i), ClusterNo(g.csize, j);
      ChainStart(fat, ch);
      NthOnChain(fat, ch, 0, a);
      NthOnChain(fat, ch, 0, b);
      ClustersApart(g, Nth(fat, ch[0], a), Nth(fat, ch[0], b), SectorNo(g.csize, i), SectorNo(g.csize, j));
      ChainInjective(fat, ch, a, b);
    }
  }

  /** The entries of the static root table follow each other, 32 bytes each, from the start of the root area on. */
  lemma StaticPlace(g: Geometry, fat: seq<nat>, i: nat)
    requires InTable(g, fat, 0, i) && g.nRootdir % 16 == 0
    ensures var p := PlaceOf(g, fat, 0, i);
            && p.clust == 0 && g.dirbase <= p.sect < g.dirbase + g.nRootdir / 16 && p.off + 32 <= 512
            && p.sect * 512 + p.off == g.dirbase * 512 + 32 * i
  {}

  /**
   A table on a chain is a file of entries of 32 bytes: it has an entry exactly if the chain has room for its bytes,
   and the entry is where those bytes of the file are.
   */
  lemma ChainedPlace(g: Geometry, fat: seq<nat>, ch: seq<nat>, i: nat)
    requires 0 < g.csize && IsChain(fat, ch)
    ensures InTable(g, fat, ch[0], i) <==> 32 * i + 32 <= Capacity(g, ch)
    ensures InTable(g, fat, ch[0], i) ==>
              var p := PlaceOf(g, fat, ch[0], i);
              && 32 * i / 512 < |ch| * g.csize && p.sect == Sec(g, ch, 32 * i / 512) && p.off == 32 * i % 512
              && p.clust == ClusterAt(g, ch, 32 * i)
  {
    hide IsChain, Nth, ClusterSector;
    ChainStart(fat, ch);
    var m := ClusterNo(g.csize, i);
    NthOnChain(fat, ch, 0, m);
    EntryBytes(i);
    QuotientBelow(i / 16, g.csize, |ch|);
    if m < |ch| { InChain(fat, ch, m); }
  }

  lemma EntryBytes(i: nat)
    ensures 32 * i / 512 == i / 16 && 32 * i % 512 == i % 16 * 32
    ensures forall n: nat :: 32 * i + 32 <= n * 512 <==> i / 16 < n
  {
    ModUnique(32 * i, 512, i / 16, i % 16 * 32);
  }

  lemma InChain(fat: seq<nat>, ch: seq<nat>, m: nat)
    requires IsChain(fat, ch) && m < |ch|
    ensures IsCluster(fat, ch[m])
  {}

  lemma ChainStart(fat: seq<nat>, ch: seq<nat>)
    requires IsChain(fat, ch)
    ensures 0 < |ch| && IsCluster(fat, ch[0])
  {}

  lemma IndexSplit(c: nat, i: nat)
    requires 0 < c
    ensures i == 16 * (c * ClusterNo(c, i) + SectorNo(c, i)) + i % 16 && 0 <= SectorNo(c, i) < c
  {
    assert i / 16 == c * (i / 16 / c) + i / 16 % c;
  }

  /** Where entry `i + 1` is, from where entry `i` is. */
  lemma NextIndex(c: nat, i: nat)
    requires 0 < c
    ensures (i + 1) % 16 != 0 ==>
              (i + 1) / 16 == i / 16 && ClusterNo(c, i + 1) == ClusterNo(c, i) && SectorNo(c, i + 1) == SectorNo(c, i)
    ensures (i + 1) % 16 == 0 ==> (i + 1) / 16 == i / 16 + 1
    ensures (i + 1) % 16 == 0 && SectorNo(c, i + 1) == 0 ==> ClusterNo(c, i + 1) == ClusterNo(c, i) + 1
    ensures (i + 1) % 16 == 0 && SectorNo(c, i + 1) != 0 ==>
              ClusterNo(c, i + 1) == ClusterNo(c, i) && SectorNo(c, i + 1) == SectorNo(c, i) + 1
  {
    var s := i / 16;
    assert s == c * (s / c) + s % c;
    if (i + 1) % 16 == 0 {
      assert (i + 1) / 16 == s + 1;
      if s % c + 1 == c {
        ModUnique(s + 1, c, s / c + 1, 0);
      } else {
        ModUnique(s + 1, c, s / c, s % c + 1);
      }
    } else {
      assert (i + 1) / 16 == s;
    }
  }

  /** The remainder dir_sdi is left with after `k` clusters. */
  lemma RemainderIndex(c: nat, i: nat, k: nat, r: nat)
    requires 0 < c && i == r + k * (16 * c) && r < 16 * c
    ensures ClusterNo(c, i) == k && SectorNo(c, i) == r / 16 && i % 16 == r % 16
  {
    assert i == r + 16 * (k * c);
    ModUnique(i, 16, r / 16 + k * c, r % 16);
    ModUnique(r / 16 + k * c, c, k, r / 16);
  }

  /** Following a link; a walk that has left the table has left it for good. */
  lemma NthNext(fat: seq<nat>, start: nat, k: nat, m: nat)
    requires k <= m
    ensures IsCluster(fat, Nth(fat, start, k)) ==> Nth(fat, start, k + 1) == fat[Nth(fat, start, k)]
    ensures !IsCluster(fat, Nth(fat, start, k)) ==> !IsCluster(fat, Nth(fat, start, m))
  {
    if !IsCluster(fat, Nth(fat, start, k)) {
      NthStuck(fat, start, k, m);
    }
  }

  /** Linking a free cluster behind the one the walk has reached does not change the way to it. */
  lemma {:induction false} NthLinked(fat: seq<nat>, start: nat, k: nat, r: nat, mark: nat, j: nat)
    requires IsCluster(fat, Nth(fat, start, k)) && fat[Nth(fat, start, k)] >= |fat|
    requires IsCluster(fat, r) && fat[r] == 0 && j <= k
    ensures Nth(Linked(fat, Nth(fat, start, k), r, mark), start, j) == Nth(fat, start, j)
    decreases j
  {
    if j > 0 {
      NthLinked(fat, start, k, r, mark, j - 1);
      var d := Nth(fat, start, j - 1);
      NthNext(fat, start, j - 1, k);
      NthNext(fat, start, j, k);
      assert IsCluster(fat, fat[d]);
    }
  }

  /** `img` with every byte of `n` sectors from `s` on set to zero. */
  ghost function Zeroed(img: Image, s: nat, n: nat): (r: Image)
    requires s + n <= |img|
    ensures |r| == |img|
  {
    WriteRun(img, s, n, seq(n * 512, i => 0))
  }

  lemma ZeroedOneMore(img: Image, s: nat, n: nat, sec: Sector)
    requires s + n < |img| && |sec| == 512 && forall i :: 0 <= i < 512 ==> sec[i] == 0
    ensures Zeroed(img, s, n + 1) == Zeroed(img, s, n)[s + n := sec]
  {
    var a, b := Zeroed(img, s, n + 1), Zeroed(img, s, n)[s + n := sec];
    forall t | 0 <= t < |img| ensures a[t] == b[t] {
      if s <= t <= s + n {
        assert a[t] == seq((n + 1) * 512, i => 0)[(t - s) * 512..(t - s + 1) * 512];
      }
    }
  }

  lemma ZeroedNone(img: Image, s: nat)
    requires s <= |img|
    ensures Zeroed(img, s, 0) == img
  {}

  /** The zero fill of sectors in the data area touches no FAT sector. */
  lemma ZeroedElsewhere(g: Geometry, img: Image, s: nat, n: nat)
    requires ValidGeometry(g, |img|) && WellSized(g, img) && Mirrored(g, img)
    requires g.database <= s && s + n <= |img|
    ensures WellSized(g, Zeroed(img, s, n)) && Mirrored(g, Zeroed(img, s, n))
    ensures forall t: nat :: t < |img| && !(s <= t < s + n) ==> Zeroed(img, s, n)[t] == img[t]
    ensures forall t :: s <= t < s + n ==> Zeroed(img, s, n)[t] == seq(512, i => 0)
    ensures !InMirror(g, s + n) && !InFat(g, s + n)
  {
    var r := Zeroed(img, s, n);
    forall t | s <= t < s + n ensures r[t] == seq(512, i => 0) {
      assert r[t] == seq(n * 512, i => 0)[(t - s) * 512..(t - s + 1) * 512];
    }
  }

  lemma ZeroedFat(g: Geometry, img: Image, s: nat, n: nat)
    requires ValidGeometry(g, |img|) && WellSized(g, img) && Mirrored(g, img)
    requires g.database <= s && s + n <= |img| && WellSized(g, Zeroed(img, s, n))
    ensures FatBytes(g, Zeroed(img, s, n)) == FatBytes(g, img)
  {
    hide Zeroed;
    ZeroedElsewhere(g, img, s, n);
    var a, b := FatBytes(g, Zeroed(img, s, n)), FatBytes(g, img);
    forall i | 0 <= i < g.fsize * 512 ensures a[i] == b[i] {
      assert g.fatbase + i / 512 < g.database;
    }
  }

  lemma ZeroedAlike(g: Geometry, a: Image, b: Image, s: nat, n: nat)
    requires SameOutsideFat(g, a, b) && s + n <= |a|
    ensures SameOutsideFat(g, Zeroed(a, s, n), Zeroed(b, s, n))
  {}

  class Directory {
    const fs: Volume
    var sclust: nat
    var index: nat
    var clust: nat
    var sect: nat
    var off: nat  // of the entry in the window

    /** The first cluster of the table; 0 for the static root table. */
    ghost function Start(): nat
      reads `sclust
    {
      if sclust == 0 && fs.geo.fsType.Fat32? then fs.geo.dirbase else sclust
    }

    ghost predicate Ready()
      reads fs`disk, fs`wflag, fs`winsect, fs.win
    {
      fs.Valid() && 0 < fs.geo.csize && RootGeometry(fs.geo)
    }

    ghost predicate Has(i: nat)
      reads `sclust, fs`disk, fs`wflag, fs`winsect, fs.win
      requires Ready()
    {
      InTable(fs.geo, fs.Fat(), Start(), i)
    }

    /** The object stands on entry `i`. */
    ghost predicate At(i: nat)
      reads this, fs`disk, fs`wflag, fs`winsect, fs.win
      requires Ready()
    {
      index == i < 0x1_0000 && Has(i) && Place(clust, sect, off) == PlaceOf(fs.geo, fs.Fat(), Start(), i)
    }

    constructor (fs: Volume, start: nat)
      ensures this.fs == fs && sclust == start
    {
      this.fs := fs;
      sclust, index, clust, sect, off := start, 0, 0, 0, 0;
    }

    /** The loop of dir_sdi: skip whole clusters; it fails when the links end first. */
    method Walk(start: nat, idx: nat) returns (ok: bool, clst: nat, rest: nat)
      requires Ready() && start != 0
      modifies fs`disk, fs`wflag, fs`winsect, fs.win
      ensures Ready() && fs.Logical() == old(fs.Logical()) && fs.Fat() == old(fs.Fat())
      ensures !ok ==> !InTable(fs.geo, fs.Fat(), start, idx)
      ensures ok ==> clst == Nth(fs.Fat(), start, ClusterNo(fs.geo.csize, idx))
      ensures ok ==> rest / 16 == SectorNo(fs.geo.csize, idx) && rest % 16 == idx % 16
    {
      hide Volume.Valid, Volume.Logical, Volume.Fat, Volume.Reserved, Nth, ClusterNo, SectorNo;
      ghost var fat := fs.Fat();
      var ic := 16 * fs.geo.csize;
      clst, rest := start, idx;
      ghost var k := 0;
      NthZero(fat, start);
      while rest >= ic
        invariant Ready() && fs.Logical() == old(fs.Logical()) && fs.Fat() == fat
        invariant 0 <= k && clst == Nth(fat, start, k) && idx == rest + k * (16 * fs.geo.csize)
      {
        WalkStep(fs.geo, fat, start, idx, k, rest);
        clst := fs.GetFat(clst);
        if clst < 2 || clst >= fs.geo.nFatent {
          return false, clst, rest;
        }
        rest := rest - ic;
        k := k + 1;
      }
      RemainderIndex(fs.geo.csize, idx, k, rest);
      ok := true;
    }

    /** Set the index and find the entry from the start of the table. */
    method Sdi(idx: nat) returns (res: FResult)
      requires Ready()
      modifies `index, `clust, `sect, `off, fs`disk, fs`wflag, fs`winsect, fs.win
      ensures Ready() && fs.Logical() == old(fs.Logical()) && fs.Fat() == old(fs.Fat())
      ensures res == (if Has(idx) then Ok else IntErr) && index == idx % 0x1_0000
      ensures Has(idx) && idx < 0x1_0000 ==> At(idx)
    {
      hide Volume.Valid, Volume.Logical, Volume.Fat, Volume.Reserved, Nth, ClusterSector, Clust2Sect, ClusterNo,
        SectorNo, ValidGeometry;
      index := idx % 0x1_0000;
      var clst, rest := sclust, idx;
      BadStart(fs.geo, fs.Fat(), Start(), idx);
      RootFacts();
      if clst == 1 || clst >= fs.geo.nFatent {
        return IntErr;
      }
      if clst == 0 && fs.geo.fsType.Fat32? {
        clst := fs.geo.dirbase;
      }
      var s;
      if clst == 0 {
        if idx >= fs.geo.nRootdir {
          return IntErr;
        }
        s := fs.geo.dirbase;
      } else {
        var ok;
        ok, clst, rest := Walk(clst, idx);
        if !ok {
          return IntErr;
        }
        SectorOfCluster(fs.geo, |fs.disk|, clst);
        s := Clust2Sect(fs.geo, clst);
      }
      clust := clst;
      if s == 0 {
        return IntErr;
      }
      sect := s + rest / 16;
      off := rest % 16 * 32;
      res := Ok;
    }

    lemma RootFacts()
      requires Ready()
      ensures !fs.geo.fsType.Fat32? ==> 0 < fs.geo.dirbase
      ensures fs.geo.nRootdir % 16 == 0 && (fs.geo.fsType.Fat32? ==> fs.geo.nRootdir == 0)
      ensures 3 <= fs.geo.nFatent == |fs.Fat()| && ValidGeometry(fs.geo, |fs.disk|)
    {}

    /** Between two sectors of the zero fill: the window holds zeros and is not tied to a sector. */
    ghost predicate Clearing(img: Image, s: nat, c: nat)
      reads fs`disk, fs`wflag, fs.win
    {
      && ValidGeometry(fs.geo, |img|) && WellSized(fs.geo, img) && Mirrored(fs.geo, img)
      && fs.geo.database <= s && s + c <= |img| && fs.disk == Zeroed(img, s, c) && !fs.wflag
      && fs.win.Length == 512 && (forall i :: 0 <= i < 512 ==> fs.win[i] == 0)
      && (fs.fsiEnabled ==> fs.geo.fsType.Fat32?)
    }

    /** One turn of the loop that fills the new cluster with zeros. */
    method ClearSector(ghost img: Image, ghost s: nat, ghost c: nat)
      requires Clearing(img, s, c) && s + c < |img| && fs.winsect == s + c
      modifies fs`disk, fs`wflag, fs`winsect
      ensures Clearing(img, s, c + 1) && fs.winsect == s + c + 1
    {
      hide Zeroed, ValidGeometry;
      ZeroedElsewhere(fs.geo, img, s, c);
      ZeroedOneMore(img, s, c, fs.win[..]);
      fs.wflag := true;
      fs.SyncWindow();
      fs.winsect := fs.winsect + 1;
    }

    /** The clean-up of a stretched table: only the new cluster changes, and it is all zeros. */
    method ClearCluster(clst: nat)
      requires fs.Valid() && 2 <= clst < fs.geo.nFatent
      modifies fs`disk, fs`wflag, fs`winsect, fs.win
      ensures fs.Valid() && fs.Fat() == old(fs.Fat()) && |fs.disk| == old(|fs.disk|)
      ensures ClusterSector(fs.geo, clst) + fs.geo.csize <= |fs.disk|
      ensures fs.Logical() == Zeroed(old(fs.Logical()), ClusterSector(fs.geo, clst), fs.geo.csize)
    {
      hide Volume.Valid, Volume.Logical, Volume.Fat, Volume.Reserved, Clearing, ClusterSector, Clust2Sect, Zeroed,
        TableOf, ValidGeometry, WellSized, Mirrored;
      ghost var img := fs.Logical();
      FatOf(img);
      ClusterFacts(clst);
      fs.SyncWindow();
      fs.FillWindow(seq(512, i => 0));
      fs.winsect := Clust2Sect(fs.geo, clst);
      ghost var s := fs.winsect;
      StartClearing(img, s);
      ClearSectors(img, s);
      Cleared(img, s);
    }

    method ClearSectors(ghost img: Image, ghost s: nat)
      requires Clearing(img, s, 0) && fs.winsect == s && s + fs.geo.csize <= |img|
      modifies fs`disk, fs`wflag, fs`winsect
      ensures Clearing(img, s, fs.geo.csize) && fs.winsect == s
    {
      hide Clearing;
      for c := 0 to fs.geo.csize
        invariant Clearing(img, s, c) && fs.winsect == s + c
      {
        ClearSector(img, s, c);
      }
      fs.winsect := fs.winsect - fs.geo.csize;
    }

    lemma ClusterFacts(clst: nat)
      requires fs.Valid() && 2 <= clst < fs.geo.nFatent
      ensures 0 < fs.geo.csize && Clust2Sect(fs.geo, clst) == ClusterSector(fs.geo, clst)
      ensures fs.geo.database <= ClusterSector(fs.geo, clst) && ClusterSector(fs.geo, clst) + fs.geo.csize <= |fs.disk|
      ensures fs.win.Length == 512
      ensures ValidGeometry(fs.geo, |fs.disk|)
      ensures fs.fsiEnabled ==> fs.geo.fsType.Fat32?
    {
      Clust2SectIs(fs.geo, |fs.disk|, clst);
      ClusterOnVolume(fs.geo, |fs.disk|, clst, fs.geo.csize - 1);
      ClusterOnVolume(fs.geo, |fs.disk|, clst, 0);
    }

    lemma StartClearing(img: Image, s: nat)
      requires ValidGeometry(fs.geo, |img|) && WellSized(fs.geo, img) && Mirrored(fs.geo, img)
      requires fs.geo.database <= s <= |img| && fs.disk == img && fs.winsect == s && !fs.wflag
      requires fs.win.Length == 512 && fs.win[..] == seq(512, i => 0)
      requires fs.fsiEnabled ==> fs.geo.fsType.Fat32?
      ensures Clearing(img, s, 0)
    {
      hide ValidGeometry;
      ZeroedNone(img, s);
      assert forall i :: 0 <= i < 512 ==> fs.win[i] == fs.win[..][i];
    }

    lemma FatOf(img: Image)
      requires fs.Valid() && fs.Logical() == img
      ensures ValidGeometry(fs.geo, |img|) && WellSized(fs.geo, img) && Mirrored(fs.geo, img) && |fs.disk| == |img|
      ensures fs.Fat() == TableOf(fs.geo, img)
    {
      hide FatBytes, Entries;
    }

    lemma Cleared(img: Image, s: nat)
      requires Clearing(img, s, fs.geo.csize) && fs.winsect == s && 0 < fs.geo.csize
      ensures fs.Valid() && fs.Logical() == Zeroed(img, s, fs.geo.csize)
      ensures fs.Fat() == TableOf(fs.geo, img)
    {
      hide Zeroed, FatBytes, Entries;
      ZeroedElsewhere(fs.geo, img, s, fs.geo.csize);
      assert fs.win[..] == seq(512, i => 0);
      ZeroedFat(fs.geo, img, s, fs.geo.csize);
    }

    /** The answer of dir_next that is not FR_OK. */
    ghost function Stop(i: nat): FResult
      reads `sclust, fs`disk, fs`wflag, fs`winsect, fs.win
      requires Ready()
    {
      if i < 0x1_0000 && Start() != 0 && Nth(fs.Fat(), Start(), ClusterNo(fs.geo.csize, i)) < 2 then IntErr else NoFile
    }

    /** The links of the table end before entry `i`. */
    ghost predicate OffEnd(i: nat)
      reads `sclust, fs`disk, fs`wflag, fs`winsect, fs.win
      requires Ready()
    {
      i < 0x1_0000 && Start() != 0 && Nth(fs.Fat(), Start(), ClusterNo(fs.geo.csize, i)) >= fs.geo.nFatent
    }

    /** The free cluster `c` has been linked behind `last` and filled with zeros; nothing else has changed. */
    twostate predicate Stretched(last: nat, c: nat)
      reads fs`disk, fs`wflag, fs`winsect, fs.win
      requires old(Ready()) && Ready()
    {
      && IsCluster(old(fs.Fat()), last) && IsCluster(old(fs.Fat()), c) && old(fs.Fat())[c] == 0
      && fs.Fat() == Linked(old(fs.Fat()), last, c, Kept(fs.geo.fsType, END_OF_CHAIN))
      && ClusterSector(fs.geo, c) + fs.geo.csize <= |old(fs.Logical())|
      && SameOutsideFat(fs.geo, fs.Logical(), Zeroed(old(fs.Logical()), ClusterSector(fs.geo, c), fs.geo.csize))
    }

    /** create_chain and the clean-up of the new cluster. */
    method Stretch() returns (res: FResult, clst: nat)
      requires Ready() && IsCluster(fs.Fat(), clust) && fs.Fat()[clust] >= fs.geo.nFatent
      modifies fs`disk, fs`wflag, fs`winsect, fs.win, fs`freeClust, fs`fsiDirty, fs`lastClust
      ensures Ready() && (res == Ok || res == Denied || res == IntErr)
      ensures res == Ok ==> Stretched(clust, clst)
      ensures res == Denied ==> FreeSet(fs.Fat()) == {}
      ensures res == IntErr ==> HasReserved(fs.Fat())
      ensures res != Ok ==> fs.Logical() == old(fs.Logical()) && fs.Fat() == old(fs.Fat())
    {
      hide Volume.Valid, Volume.Logical, Volume.Fat, Volume.Reserved, ClusterSector, Zeroed, ValidGeometry, Kept,
        WellSized, Mirrored;
      clst := fs.CreateChain(clust);
      if clst == 0 {
        return Denied, 0;
      }
      if clst == 1 {
        return IntErr, 0;
      }
      ghost var img := fs.Logical();
      ClusterFacts(clst);
      ClearCluster(clst);
      ZeroedAlike(fs.geo, img, old(fs.Logical()), ClusterSector(fs.geo, clst), fs.geo.csize);
      res := Ok;
    }

    /** The next cluster of the table, stretched if asked for. */
    method NextCluster(stretch: bool) returns (res: FResult, clst: nat)
      requires Ready() && IsCluster(fs.Fat(), clust)
      modifies fs`disk, fs`wflag, fs`winsect, fs.win, fs`freeClust, fs`fsiDirty, fs`lastClust
      ensures Ready()
      ensures old(fs.Fat())[clust] <= 1 ==> res == IntErr
      ensures IsCluster(old(fs.Fat()), old(fs.Fat())[clust]) ==> res == Ok && clst == old(fs.Fat())[clust]
      ensures old(fs.Fat())[clust] >= fs.geo.nFatent && !stretch ==> res == NoFile
      ensures old(fs.Fat())[clust] < fs.geo.nFatent || !stretch || res != Ok ==>
                fs.Logical() == old(fs.Logical()) && fs.Fat() == old(fs.Fat())
      ensures old(fs.Fat())[clust] >= fs.geo.nFatent && stretch ==>
                && (res == Ok || res == Denied || res == IntErr)
                && (res == Ok ==> Stretched(clust, clst))
                && (res == Denied ==> FreeSet(fs.Fat()) == {}) && (res == IntErr ==> HasReserved(fs.Fat()))
    {
      hide Volume.Valid, Volume.Logical, Volume.Fat, Volume.Reserved, ClusterSector, Zeroed, ValidGeometry, Kept,
        SameOutsideFat, RootGeometry, Linked;
      clst := fs.GetFat(clust);
      if clst <= 1 {
        return IntErr, clst;
      }
      if clst >= fs.geo.nFatent {
        if !stretch {
          return NoFile, clst;
        }
        res, clst := Stretch();
        return;
      }
      res := Ok;
    }

    /** The current cluster is that of entry `i`. */
    ghost predicate InCluster(i: nat)
      reads `sclust, `clust, fs`disk, fs`wflag, fs`winsect, fs.win
      requires Ready()
    {
      Has(i) && Start() != 0 && clust == Nth(fs.Fat(), Start(), ClusterNo(fs.geo.csize, i))
    }

    /** The object stands on the first entry of the new cluster. */
    twostate lemma OnStretched(new i: nat)
      requires old(Ready()) && Ready() && old(InCluster(i)) && sclust == old(sclust) && old(OffEnd(i + 1))
      requires (i + 1) % 16 == 0 && SectorNo(fs.geo.csize, i + 1) == 0
      requires Stretched(old(clust), clust)
      ensures Has(i + 1) && PlaceOf(fs.geo, fs.Fat(), Start(), i + 1) == Place(clust, ClusterSector(fs.geo, clust), 0)
    {
      hide Volume.Valid, Volume.Logical, Volume.Fat, Volume.Reserved, Nth, ClusterSector, ClusterNo, SectorNo,
        ValidGeometry, Zeroed;
      NextIndex(fs.geo.csize, i);
      RootFacts();
      var k := ClusterNo(fs.geo.csize, i);
      var mark := Kept(fs.geo.fsType, END_OF_CHAIN);
      NthNext(old(fs.Fat()), Start(), k, k);
      NthLinked(old(fs.Fat()), Start(), k, clust, mark, k);
      NthNext(fs.Fat(), Start(), k, k);
    }

    /** What dir_next answers, and what it changes, when it does not find the next entry in the table. */
    twostate predicate Stepped(stretch: bool, new res: FResult, new i: nat)
      reads this, fs`disk, fs`wflag, fs`winsect, fs.win
      requires old(Ready()) && Ready()
    {
      && (i + 1 < 0x1_0000 && old(Has(i + 1)) ==> res == Ok)
      && (!(i + 1 < 0x1_0000 && old(Has(i + 1))) && !(stretch && old(OffEnd(i + 1))) ==> res == old(Stop(i + 1)))
      && (!(stretch && old(OffEnd(i + 1))) || res != Ok ==>
        fs.Logical() == old(fs.Logical()) && fs.Fat() == old(fs.Fat()))
      && (stretch && old(OffEnd(i + 1)) ==>
            && (res == Ok || res == Denied || res == IntErr)
            && (res == Ok ==> Stretched(old(clust), clust))
            && (res == Denied ==> FreeSet(fs.Fat()) == {}) && (res == IntErr ==> HasReserved(fs.Fat())))
    }

    /** The part of dir_next for an index that starts a cluster. */
    method EnterNext(stretch: bool, ghost i: nat) returns (res: FResult)
      requires Ready() && InCluster(i) && (i + 1) % 16 == 0 && SectorNo(fs.geo.csize, i + 1) == 0 && i + 1 < 0x1_0000
      modifies `clust, `sect
      modifies fs`disk, fs`wflag, fs`winsect, fs.win, fs`freeClust, fs`fsiDirty, fs`lastClust
      ensures Ready() && Stepped(stretch, res, i)
      ensures res == Ok ==> Has(i + 1) && Place(clust, sect, 0) == PlaceOf(fs.geo, fs.Fat(), Start(), i + 1)
    {
      hide Volume.Valid, Volume.Logical, Volume.Fat, Volume.Reserved, Nth, ClusterSector, Clust2Sect, ClusterNo,
        SectorNo, ValidGeometry, RootGeometry, Zeroed, Linked, Kept, Stretched, HasReserved;
      RootFacts();
      NextIndex(fs.geo.csize, i);
      NthNext(fs.Fat(), Start(), ClusterNo(fs.geo.csize, i), ClusterNo(fs.geo.csize, i));
      var clst;
      res, clst := NextCluster(stretch);
      if res != Ok {
        return;
      }
      clust := clst;
      RootFacts();
      if old(OffEnd(i + 1)) {
        OnStretched(i);
      }
      SectorOfCluster(fs.geo, |fs.disk|, clst);
      sect := Clust2Sect(fs.geo, clst);
    }

    /**
     Step to the next entry: the answer and the place are those dir_sdi would give for the next
     index, except that the table may be stretched by an empty cluster.
     */
    method Next(stretch: bool, ghost i: nat) returns (res: FResult)
      requires Ready() && At(i)
      modifies `index, `clust, `sect, `off
      modifies fs`disk, fs`wflag, fs`winsect, fs.win, fs`freeClust, fs`fsiDirty, fs`lastClust
      ensures Ready() && Stepped(stretch, res, i) && (res == Ok ==> At(i + 1))
    {
      hide Volume.Valid, Volume.Logical, Volume.Fat, Volume.Reserved, InTable, PlaceOf, SectorNo, ClusterNo,
        RootGeometry, HasReserved, Nth, Zeroed, Linked, Kept, SameOutsideFat, ClusterSector, FreeSet;
      var n := index + 1;
      WhereAt(i);
      if n == 0x1_0000 || sect == 0 {
        return NoFile;
      }
      if n % 16 == 0 {
        sect := sect + 1;
        if clust == 0 {
          if n >= fs.geo.nRootdir {
            return NoFile;
          }
          StepWithin(fs.geo, fs.Fat(), Start(), i);
        } else {
          if SectorNo(fs.geo.csize, n) == 0 {
            res := EnterNext(stretch, i);
            if res != Ok {
              return;
            }
          } else {
            StepWithin(fs.geo, fs.Fat(), Start(), i);
          }
        }
      } else {
        StepWithin(fs.geo, fs.Fat(), Start(), i);
      }
      index := n % 0x1_0000;
      off := n % 16 * 32;
      res := Ok;
    }

    lemma WhereAt(i: nat)
      requires Ready() && At(i)
      ensures sect != 0 && fs.geo.nRootdir % 16 == 0 && (clust == 0 <==> Start() == 0)
      ensures clust != 0 ==> InCluster(i)
      ensures clust == 0 && i + 1 >= fs.geo.nRootdir ==> !Has(i + 1) && Stop(i + 1) == NoFile && !OffEnd(i + 1)
    {
      hide Volume.Valid, Volume.Logical, Volume.Fat, Volume.Reserved, Nth, ClusterSector, ClusterNo, SectorNo,
        ValidGeometry, RootGeometry;
      RootFacts();
      SectorOfCluster(fs.geo, |fs.disk|, clust);
    }

    /** Stepping `i` times from entry 0 is finding entry `i` from scratch: the same place, or no such entry. */
    method Steps(i: nat) returns (res: FResult)
      requires Ready() && i < 0x1_0000
      modifies `index, `clust, `sect, `off
      modifies fs`disk, fs`wflag, fs`winsect, fs.win, fs`freeClust, fs`fsiDirty, fs`lastClust
      ensures Ready() && fs.Logical() == old(fs.Logical()) && fs.Fat() == old(fs.Fat())
      ensures (res == Ok <==> Has(i)) && (res == Ok ==> At(i))
    {
      hide Volume.Valid, Volume.Logical, Volume.Fat, Volume.Reserved, InTable, PlaceOf, ValidGeometry, RootGeometry,
        OffEnd, Stretched;
      res := Sdi(0);
      if res == Ok {
        for k := 0 to i
          invariant Ready() && fs.Logical() == old(fs.Logical()) && fs.Fat() == old(fs.Fat())
          invariant At(k) && res == Ok
        {
          Earlier(fs.geo, fs.Fat(), Start(), k + 1, i);
          res := Next(false, k);
          if res != Ok {
            return;
          }
        }
      } else {
        Earlier(fs.geo, fs.Fat(), Start(), 0, i);
      }
    }
  }

  /** A table with an entry has all the entries before it. */
  lemma Earlier(g: Geometry, fat: seq<nat>, start: nat, i: nat, j: nat)
    requires i <= j && 0 < g.csize
    ensures InTable(g, fat, start, j) ==> InTable(g, fat, start, i)
  {
    hide Nth;
    NotLater(g.csize, i / 16, j / 16);
    NthNext(fat, start, ClusterNo(g.csize, i), ClusterNo(g.csize, j));
  }

  lemma NotLater(c: nat, a: nat, b: nat)
    requires 0 < c && a <= b
    ensures a / c <= b / c
  {
    var d := a / c - b / c;
    assert a == c * (a / c) + a % c && b == c * (b / c) + b % c;
    assert c * d == c * (a / c) - c * (b / c);
    if d >= 1 { MulLower(c, d); }
  }

  /** The next entry, when it is in the same cluster or in the static table. */
  lemma StepWithin(g: Geometry, fat: seq<nat>, start: nat, i: nat)
    requires 0 < g.csize && g.nRootdir % 16 == 0 && InTable(g, fat, start, i)
    requires start == 0 && (i + 1) % 16 == 0 ==> i + 1 < g.nRootdir
    requires start != 0 && (i + 1) % 16 == 0 ==> SectorNo(g.csize, i + 1) != 0
    ensures InTable(g, fat, start, i + 1)
    ensures start != 0 ==> IsCluster(fat, Nth(fat, start, ClusterNo(g.csize, i + 1)))
    ensures var p := PlaceOf(g, fat, start, i);
            PlaceOf(g, fat, start, i + 1) ==
              Place(p.clust, if (i + 1) % 16 == 0 then p.sect + 1 else p.sect, (i + 1) % 16 * 32)
  {
    hide Nth, ClusterNo, SectorNo, ClusterSector;
    NextIndex(g.csize, i);
  }

  lemma NthZero(fat: seq<nat>, start: nat)
    ensures Nth(fat, start, 0) == start
  {}

  /** A start that is no cluster has no entry. */
  lemma BadStart(g: Geometry, fat: seq<nat>, start: nat, idx: nat)
    requires 0 < g.csize
    ensures start != 0 && !IsCluster(fat, start) ==> !InTable(g, fat, start, idx)
  {
    NthZero(fat, start);
    NthNext(fat, start, 0, ClusterNo(g.csize, idx));
  }

  /** One turn of the walk: a link that leaves the table ends it before the entry is reached. */
  lemma WalkStep(g: Geometry, fat: seq<nat>, start: nat, idx: nat, k: nat, rest: nat)
    requires 0 < g.csize && start != 0 && idx == rest + k * (16 * g.csize) && 16 * g.csize <= rest
    ensures var c := Nth(fat, start, k);
            && (IsCluster(fat, c) ==> Nth(fat, start, k + 1) == fat[c])
            && (!IsCluster(fat, c) || !IsCluster(fat, fat[c]) ==> !InTable(g, fat, start, idx))
  {
    hide Nth, ClusterNo, SectorNo;
    var ic := 16 * g.csize;
    var q, r := rest / ic, rest % ic;
    assert rest == ic * q + r;
    MulLower(ic, 1);
    assert q >= 1;
    assert (k + q) * ic == k * ic + q * ic;
    RemainderIndex(g.csize, idx, k + q, r);
    NthNext(fat, start, k, k + q);
    NthNext(fat, start, k + 1, k + q);
  }

  lemma SectorOfCluster(g: Geometry, nSectors: nat, c: nat)
    requires ValidGeometry(g, nSectors)
    ensures if 2 <= c < g.nFatent then Clust2Sect(g, c) == ClusterSector(g, c) != 0 else Clust2Sect(g, c) == 0
  {}
}
