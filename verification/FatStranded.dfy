/**
 Where an open file is no plain byte sequence: f_truncate leaves the buffer with a sector of a cluster it
 frees, another file is given the cluster and writes to it, and f_lseek past the end links it to the first
 file again with the old bytes still in the buffer.
 */
module FatStranded {
  import opened Bounds
  import opened FatLayout
  import opened FatChains
  import opened FatVolume
  import opened FatFileSpec
  import opened FatBuffer
  import opened FatFile
  import opened FatReshape
  import opened FatFileRun
  import opened FatOpenFiles

  /** A byte of the file, in the sector of its clean buffer, that the buffer does not show. */
  ghost predicate Hidden(f: File, p: nat)
    reads f, f.fs, f.fs.win, f.buf
    requires f.Core()
  {
    && p < f.fsize && f.Covers(f.fsize) && f.dsect != 0 && !f.dirty && SectorAt(f.fs.geo, f.chain, p) == f.dsect
    && f.buf[p % 512] != f.fs.Logical()[f.dsect][p % 512]
  }

  /** A buffer that is not right about the file hides one of its bytes. */
  lemma HidesByte(f: File) returns (p: nat)
    requires f.Core() && f.Covers(f.fsize) && !f.Right()
    ensures Hidden(f, p)
  {
    hide Volume.Valid, Volume.Fat, Volume.Reserved, Volume.Logical, IsChain, ValidGeometry, Clear, SectorAt,
      ClusterAt, ClusterSector, Sec;
    var g, ch, b, sec := f.fs.geo, f.chain, f.buf[..], f.fs.Logical()[f.dsect];
    var j: nat, i: nat :| j < |ch| * g.csize && Sec(g, ch, j) == f.dsect && i < 512 && j * 512 + i < f.fsize &&
      b[i] != sec[i];
    p := j * 512 + i;
    ModUnique(p, 512, j, i);
    AtCovered(g, |f.fs.disk|, ch, p);
  }

  /** The bytes of a file are those of its sectors. */
  lemma ByteOf512(f: File, p: nat)
    requires f.Core() && p < f.fsize && f.Covers(f.fsize)
    ensures SectorAt(f.fs.geo, f.chain, p) < |f.fs.disk| && |f.Data()[SectorAt(f.fs.geo, f.chain, p)]| == 512
    ensures f.Contents(f.fsize)[p] == f.Data()[SectorAt(f.fs.geo, f.chain, p)][p % 512]
  {
    hide Volume.Valid, Volume.Fat, Volume.Reserved, Volume.Logical, IsChain, ValidGeometry, Clear, SectorAt,
      ClusterAt, File.Data, Sec;
    AtCovered(f.fs.geo, |f.fs.disk|, f.chain, p);
  }

  /** f_lseek to a hidden byte and f_read of it give what is in the buffer, and not the byte of the file. */
  method ReadsHidden(f: File, p: nat) returns (data: seq<Byte>)
    requires f.Standing() && f.err == Ok && f.canRead && Hidden(f, p)
    modifies f.fs`disk, f.fs`wflag, f.fs`winsect, f.fs.win, f.fs`freeClust, f.fs`fsiDirty, f.fs`lastClust
    modifies f`sclust, f`chain, f`clust, f`dirty, f`dsect, f`fptr, f`lim, f`fsize, f`written, f`err, f.buf
    ensures f.Standing() && f.fsize == old(f.fsize) && f.Contents(f.fsize) == old(f.Contents(f.fsize))
    ensures |data| == 1 && data[0] == old(f.buf[p % 512]) != f.Contents(f.fsize)[p]
  {
    hide File.Core, File.Base, File.Table, File.Spare, OthersKept, ChainGrown, HasReserved, File.AtPtr, Content,
      Clear, SectorAt, ClusterAt, Capacity, File.Exposes, SameOutsideFat, File.Right;
    f.BufferSize();
    ByteOf512(f, p);
    var res := f.Lseek(p);
    res, data := f.Read(1);
  }

  /**
   Whenever f_lseek past the end misleads a file that can be read, a byte of the file is then answered wrongly: the
   condition under which CallOn leaves a file unusable is no stricter than it has to be.
   */
  method SeekMisleads(f: File, target: nat) returns (res: FResult, ghost p: nat)
    requires f.Valid() && target < TWO32 && Misleads(f, OpSeek(target))
    modifies f.fs`disk, f.fs`wflag, f.fs`winsect, f.fs.win, f.fs`freeClust, f.fs`fsiDirty, f.fs`lastClust
    modifies f`sclust, f`chain, f`clust, f`dirty, f`dsect, f`fptr, f`lim, f`fsize, f`written, f`err, f.buf
    ensures res == Ok && f.Standing() && f.err == Ok && Hidden(f, p)
  {
    hide File.Core, File.Base, File.Table, File.Spare, OthersKept, ChainGrown, HasReserved, File.AtPtr, Content,
      Clear, SectorAt, ClusterAt, Capacity, File.Exposes, SameOutsideFat, File.Right, Hidden;
    f.ExposesWhen(target);
    res := f.Lseek(target);
    p := HidesByte(f);
  }

  /** An empty file opened for writing on a volume whose only cluster is free. */
  ghost predicate FirstOnVolume(f: File)
    reads f, f.fs, f.fs.win, f.buf
  {
    && f.Valid() && f.err == Ok && f.canWrite && f.chain == [] && f.fptr == f.fsize == 0
    && |f.Table()| == 3 && f.Table()[2] == 0
  }

  /** The only cluster of such a volume is free, or it is the file. */
  lemma OnlyCluster(fat: seq<nat>, ch: seq<nat>, fat': seq<nat>, ch': seq<nat>)
    requires Reshaped(fat, ch, fat', ch') && |fat| == 3 && ch == [] && fat[2] == 0
    ensures !HasReserved(fat')
    ensures if ch' == [] then fat'[2] == 0 && 2 in FreeSet(fat') else ch'[0] == 2
  {
    if ch' != [] { ChainInUse(fat', ch', ch'[0]); }
    if HasReserved(fat') { ReshapedReserved(fat, ch, fat', ch'); }
  }

  /** What f_write has done to such a file leaves no choice. */
  twostate lemma WriteFirstIs(f: File, new w: seq<Byte>, new res: FResult, new bw: nat)
    requires old(FirstOnVolume(f)) && 0 < |w| <= 512 && f.Valid() && f.OnlyGrown() && f.fptr == bw <= |w|
    requires (res == Ok || (res == IntErr && HasReserved(f.Table()))) && f.err == res && f.fsize <= Max(bw, 0)
    requires f.Covers(bw)
    requires res == Ok && bw < |w| ==> FreeSet(f.Table()) == {} && bw == Capacity(f.fs.geo, f.chain)
    ensures res == Ok && bw == |w| && f.chain != [] && f.chain[0] == 2 && |f.Table()| == 3
  {
    hide File.Core, File.Base, File.Data, File.Table, File.Spare, OthersKept, IsChain, ChainGrown, Reshaped,
      HasReserved, File.AtPtr;
    OwnByGrowth(f);
    OnlyCluster(old(f.Table()), [], f.Table(), f.chain);
    f.StartOfChain();
    RoomForOne(f.fs.geo, f.chain);
    assert |f.Table()| == 3 by { SameSize(old(f.Table()), [], f.Table(), f.chain); }
  }

  lemma SameSize(fat: seq<nat>, ch: seq<nat>, fat': seq<nat>, ch': seq<nat>)
    requires Reshaped(fat, ch, fat', ch')
    ensures |fat'| == |fat|
  {}

  lemma RoomForOne(g: Geometry, ch: seq<nat>)
    requires 0 < g.csize
    ensures ch != [] ==> Capacity(g, ch) >= 512
    ensures ch == [] ==> Capacity(g, ch) == 0
  {
    if ch != [] { MulMonotone(g.csize, 1, |ch|); }
  }

  /** The first byte of a file that starts with the first cluster. */
  lemma FirstByte(f: File, n: nat)
    requires f.Core() && f.chain != [] && f.chain[0] == 2 && f.Covers(n) && 0 < n
    ensures f.fs.geo.database < |f.fs.disk| && |f.Data()[f.fs.geo.database]| == 512
    ensures f.Contents(n)[0] == f.Data()[f.fs.geo.database][0]
  {
    hide Volume.Valid, Volume.Fat, Volume.Reserved, Volume.Logical, IsChain, ValidGeometry, Clear, SectorAt,
      ClusterAt, File.Data;
    SecOnVolume(f.fs.geo, |f.fs.disk|, f.chain, 0);
    assert Sec(f.fs.geo, f.chain, 0) == f.fs.geo.database;
  }

  /** The buffer shows the first sector when the file pointer is in it. */
  lemma FirstSector(f: File)
    requires f.Usable() && f.chain != [] && f.chain[0] == 2 && 0 < f.fptr < 512 && f.Covers(512)
    ensures f.dsect == f.fs.geo.database != 0 && f.dsect < |f.fs.disk| && f.buf.Length == 512
    ensures 0 < f.lim ==> |f.Data()[f.dsect]| == 512 && f.buf[0] == f.Data()[f.dsect][0]
  {
    hide Volume.Valid, Volume.Fat, Volume.Reserved, Volume.Logical, IsChain, ValidGeometry, Clear, SectorAt,
      ClusterAt, File.Data, Agrees;
    f.CoversLess(f.fptr + 1, 512);
    f.BufferIsData(f.fptr);
    AtCovered(f.fs.geo, |f.fs.disk|, f.chain, f.fptr);
    assert Sec(f.fs.geo, f.chain, 0) == f.fs.geo.database;
  }

  /** Where the bytes of the first sectors are. */
  lemma FirstSectors(f: File, p: nat)
    requires f.Core() && f.chain != [] && f.chain[0] == 2 && p / 512 < f.fs.geo.csize
    ensures SectorAt(f.fs.geo, f.chain, p) == f.fs.geo.database + p / 512 && 0 < f.fs.geo.database
  {
    hide Volume.Fat, Volume.Reserved, Volume.Logical, IsChain, Clear, Agrees;
    var c := f.fs.geo.csize;
    ModUnique(p / 512, c, 0, p / 512);
  }

  twostate lemma SameDisk(f: File)
    requires old(f.Core()) && f.Core() && OnlyOwn(f)
    ensures |f.fs.disk| == old(|f.fs.disk|)
  {
    hide Volume.Valid, Volume.Fat, Volume.Reserved, Volume.Logical, IsChain, ValidGeometry, Clear, Reshaped;
    assert |f.Data()| == |f.fs.disk| && |old(f.Data())| == |old(f.fs.disk)|;
  }

  /** The first write to an empty file takes the only cluster. */
  method WriteFirst(f: File, w: seq<Byte>)
    requires FirstOnVolume(f) && 0 < |w| <= 512
    modifies f.fs`disk, f.fs`wflag, f.fs`winsect, f.fs.win, f.fs`freeClust, f.fs`fsiDirty, f.fs`lastClust
    modifies f`sclust, f`chain, f`clust, f`dirty, f`dsect, f`fptr, f`lim, f`fsize, f`written, f`err, f.buf
    ensures f.Valid() && f.err == Ok && f.fptr == f.fsize == |w| && f.chain != [] && f.chain[0] == 2 && |f.Table()| == 3
    ensures f.Covers(512) && f.Contents(|w|) == w && |f.fs.disk| == old(|f.fs.disk|)
  {
    hide File.Core, File.Base, File.Data, File.Table, File.Spare, OthersKept, IsChain, ChainGrown, HasReserved,
      File.AtPtr, Content, Clear;
    var res, bw := f.Write(w);
    WriteFirstIs(f, w, res, bw);
    OwnByGrowth(f);
    SameDisk(f);
    f.StartOfChain();
    RoomForOne(f.fs.geo, f.chain);
    assert Splice([], 0, w) == w;
  }

  /** f_truncate at the start of such a file frees the cluster again and keeps the buffer. */
  method TruncateAll(f: File)
    requires f.Valid() && f.err == Ok && f.canWrite && f.fptr == 0 < f.fsize
    requires f.chain != [] && f.chain[0] == 2 && |f.Table()| == 3
    modifies f.fs`disk, f.fs`wflag, f.fs`winsect, f.fs.win, f.fs`freeClust, f.fs`fsiDirty
    modifies f`sclust, f`chain, f`dirty, f`fsize, f`written, f`lim, f`owned
    ensures FirstOnVolume(f) && !f.dirty && (f.dsect != 0 ==> !f.owned) && |f.fs.disk| == old(|f.fs.disk|)
    ensures SameOutsideFat(f.fs.geo, f.Data(), old(f.Data()))
  {
    hide File.Core, File.Data, IsChain, File.AtPtr, Content, Volume.Valid, Volume.Fat, Volume.Reserved,
      Volume.Logical, SameOutsideFat, Kept;
    ghost var fat, ch := f.Table(), f.chain;
    var res := f.Truncate();
    assert f.CutAt(0);
    OwnByCut(f, 0);
    SameDisk(f);
    CutFrees(fat, ch, Kept(f.fs.geo.fsType, END_OF_CHAIN));
  }

  lemma CutFrees(fat: seq<nat>, ch: seq<nat>, mark: nat)
    requires IsChain(fat, ch)
    ensures Cut(fat, ch, 0, mark)[ch[0]] == 0
  {
    assert ch[0] in ch;
  }

  /** Open a new file on the volume. */
  method OpenEmpty(fs: Volume) returns (f: File)
    requires fs.Valid() && |fs.Fat()| == 3 && fs.Fat()[2] == 0
    ensures fresh(f) && fresh(f.buf) && f.fs == fs && FirstOnVolume(f) && f.canRead && f.shy == []
  {
    hide Volume.Fat, Volume.Reserved, Volume.Logical, IsChain, ValidGeometry, Agrees;
    f := new File.Open(fs, 0, 0, true, true, []);
  }

  /** An empty file with an old byte in its buffer. */
  ghost predicate Left(f: File)
    reads f, f.fs, f.fs.win, f.buf
  {
    && FirstOnVolume(f) && f.canRead && !f.dirty && !f.whole && !f.owned && f.shy == []
    && 0 != f.dsect == f.fs.geo.database < |f.fs.disk| && f.buf.Length == 512 && f.buf[0] == 1
  }

  /** f_lseek to the start of a file leaves the buffer alone. */
  method SeekHome(f: File)
    requires f.Standing() && f.err == Ok
    modifies f.fs`disk, f.fs`wflag, f.fs`winsect, f.fs.win, f.fs`freeClust, f.fs`fsiDirty, f.fs`lastClust
    modifies f`sclust, f`chain, f`clust, f`dirty, f`dsect, f`fptr, f`lim, f`fsize, f`written, f`err, f.buf
    ensures f.Standing() && f.err == Ok && (old(f.Valid()) ==> f.Valid()) && f.fptr == 0 && f.fsize == old(f.fsize)
    ensures f.BufferKept() && f.chain == old(f.chain) && f.Table() == old(f.Table())
    ensures SameOutsideFat(f.fs.geo, f.Data(), old(f.Data())) && |f.fs.disk| == old(|f.fs.disk|)
  {
    hide File.Core, File.Base, File.Data, File.Table, File.Spare, IsChain, File.AtPtr, Content, OthersKept,
      ChainGrown, SameOutsideFat, File.Exposes, File.Right, HasReserved, Capacity, File.Covers, SectorAt;
    f.StartOfChain();
    f.ChainLegal();
    f.ExposesWhen(0);
    var res := f.Lseek(0);
    OwnByGrowth(f);
    SameDisk(f);
  }

  /** f_write of a byte to a new file. */
  method OneByte(fs: Volume) returns (f: File)
    requires fs.Valid() && |fs.Fat()| == 3 && fs.Fat()[2] == 0
    modifies fs`disk, fs`wflag, fs`winsect, fs.win, fs`freeClust, fs`fsiDirty, fs`lastClust
    ensures fresh(f) && fresh(f.buf) && f.fs == fs && f.Valid() && f.err == Ok && f.canRead && f.canWrite && f.shy == []
    ensures f.fsize == 1 && f.chain != [] && f.chain[0] == 2 && |f.Table()| == 3
    ensures 0 != f.dsect == fs.geo.database < |fs.disk| && f.buf.Length == 512 && f.buf[0] == 1
  {
    hide File.Core, File.Base, File.Data, File.Table, File.Spare, IsChain, File.AtPtr, Content, Volume.Valid;
    f := OpenEmpty(fs);
    WriteFirst(f, [1]);
    FirstByte(f, 1);
    FirstSector(f);
  }

  /** And f_lseek to its start and f_truncate: the buffer stays behind. */
  method Leave(fs: Volume) returns (f: File)
    requires fs.Valid() && |fs.Fat()| == 3 && fs.Fat()[2] == 0
    modifies fs`disk, fs`wflag, fs`winsect, fs.win, fs`freeClust, fs`fsiDirty, fs`lastClust
    ensures fresh(f) && fresh(f.buf) && f.fs == fs && Left(f)
  {
    hide File.Core, File.Base, File.Data, File.Table, File.Spare, IsChain, File.AtPtr, File.Covers, SameOutsideFat,
      Volume.Valid;
    f := OneByte(fs);
    SeekHome(f);
    assert f.buf[..][0] == 1;
    TruncateAll(f);
    Forget(f);
  }

  /** The buffer is no longer said to show all of its sector. */
  method Forget(f: File)
    requires f.Valid()
    modifies f`whole
    ensures f.Valid() && !f.whole && f.Table() == old(f.Table())
  {
    hide Volume.Valid, Volume.Fat, Volume.Reserved, Volume.Logical, IsChain, ValidGeometry, Clear, Agrees;
    f.whole := false;
  }

  /** What a second file that is empty again means for the first. */
  lemma LeftAsItIs(f: File, g: File, img: Image)
    requires FirstOnVolume(g) && !g.dirty && g.fs == f.fs && f.buf != f.fs.win && f.chain == [] && f.shy == []
    requires f.sclust == 0 && f.err == Ok && f.canWrite && f.canRead && f.fptr == f.fsize == f.lim == 0
    requires !f.dirty && !f.whole && f.dsect == f.fs.geo.database != 0 && f.dsect < |f.fs.disk|
    requires !f.owned && f.buf.Length == 512 && f.buf[0] == 1
    requires |img| == |f.fs.disk| && SameOutsideFat(f.fs.geo, g.Data(), img)
    ensures Left(f) && f.Data()[f.dsect] == img[f.dsect]
  {
    hide Volume.Fat, Volume.Reserved, Volume.Logical, IsChain, Agrees;
    SectorBehindFat(f.fs.geo, |f.fs.disk|, f.dsect);
    AgreesOff(f.fs.geo, [], f.dsect, f.buf[..], f.fs.Logical()[f.dsect], 0);
  }

  /**
   A second file: f_write of a sector of zeros, f_lseek to its start and f_truncate. The first sector of the
   only cluster is left with zeros, and the cluster free again.
   */
  method Overwrite(f: File)
    requires Left(f)
    modifies f.fs`disk, f.fs`wflag, f.fs`winsect, f.fs.win, f.fs`freeClust, f.fs`fsiDirty, f.fs`lastClust
    ensures Left(f) && |f.Data()[f.dsect]| == 512 && f.Data()[f.dsect][0] == 0
  {
    hide File.Core, File.Base, File.Data, File.Table, File.Spare, IsChain, File.AtPtr, File.Covers, Content,
      SameOutsideFat, Volume.Fat, Volume.Reserved;
    TableIs(f);
    OwnBuffer(f);
    f.StartOfChain();
    f.NoChain(1);
    var g := OpenEmpty(f.fs);
    WriteFirst(g, seq(512, i => 0));
    FirstByte(g, 512);
    ghost var img := g.Data();
    SeekHome(g);
    ghost var mid := g.Data();
    TruncateAll(g);
    SameTwice(f.fs.geo, img, mid, g.Data());
    LeftAsItIs(f, g, img);
  }

  /** The file has the only cluster again, and its buffer is on the first sector with the old byte in it. */
  ghost predicate Regained(f: File)
    reads f, f.fs, f.fs.win, f.buf
  {
    && f.Standing() && f.err == Ok && f.canRead && f.canWrite && f.chain != [] && f.chain[0] == 2 && 1 < f.fs.geo.csize
    && |f.Table()| == 3 && f.fsize == 100 && f.dsect == f.fs.geo.database < |f.fs.disk| && f.buf.Length == 512 &&
      f.buf[0] == 1
    && |f.Data()[f.dsect]| == 512 && f.Data()[f.dsect][0] == 0
  }

  /** f_lseek past the end links the cluster again. */
  method Regain(f: File)
    requires Left(f) && |f.Data()[f.dsect]| == 512 && f.Data()[f.dsect][0] == 0 && 1 < f.fs.geo.csize
    modifies f.fs`disk, f.fs`wflag, f.fs`winsect, f.fs.win, f.fs`freeClust, f.fs`fsiDirty, f.fs`lastClust
    modifies f`sclust, f`chain, f`clust, f`dirty, f`dsect, f`fptr, f`lim, f`fsize, f`written, f`err, f.buf
    ensures Regained(f)
  {
    hide File.Core, File.Base, File.Data, File.Table, File.Spare, IsChain, File.AtPtr, Content, OthersKept,
      ChainGrown, SameOutsideFat, File.Exposes, File.Right, HasReserved, Capacity, SectorAt;
    OwnBuffer(f);
    var res := f.Lseek(100);
    OwnByGrowth(f);
    SameDisk(f);
    OnlyCluster(old(f.Table()), [], f.Table(), f.chain);
    SameSize(old(f.Table()), [], f.Table(), f.chain);
    RoomForOne(f.fs.geo, f.chain);
    OwnBuffer(f);
    FirstSectors(f, 100);
    SectorKept(f, old(f.Data()));
    assert f.buf[..][0] == 1;
  }

  lemma SectorKept(f: File, img: Image)
    requires f.Core() && SameOutsideFat(f.fs.geo, f.Data(), img)
    ensures |img| == |f.Data()| == |f.fs.disk|
    ensures f.fs.geo.database < |f.fs.disk| ==> f.Data()[f.fs.geo.database] == img[f.fs.geo.database]
  {
    hide Volume.Fat, Volume.Reserved, Volume.Logical, IsChain, Agrees, Clear;
    SectorBehindFat(f.fs.geo, |f.fs.disk|, f.fs.geo.database);
  }

  /** f_lseek to the start and f_read of one byte: it comes from the buffer. */
  method ReadOld(f: File) returns (data: seq<Byte>)
    requires Regained(f)
    modifies f.fs`disk, f.fs`wflag, f.fs`winsect, f.fs.win, f.fs`freeClust, f.fs`fsiDirty, f.fs`lastClust
    modifies f`sclust, f`chain, f`clust, f`dirty, f`dsect, f`fptr, f`lim, f`fsize, f`written, f`err, f.buf
    ensures Regained(f) && data == [1]
  {
    hide File.Core, File.Base, File.Data, File.Table, File.Spare, IsChain, File.AtPtr, Content, SameOutsideFat,
      Capacity, SectorAt, File.Covers;
    OwnBuffer(f);
    SeekHome(f);
    OwnBuffer(f);
    SectorKept(f, old(f.Data()));
    FirstSectors(f, 0);
    assert f.buf[..][0] == 1;
    var res;
    res, data := f.Read(1);
  }

  /** f_lseek into the second sector loads that. */
  method SeekAway(f: File)
    requires Regained(f)
    modifies f.fs`disk, f.fs`wflag, f.fs`winsect, f.fs.win, f.fs`freeClust, f.fs`fsiDirty, f.fs`lastClust
    modifies f`sclust, f`chain, f`clust, f`dirty, f`dsect, f`fptr, f`lim, f`fsize, f`written, f`err, f.buf
    ensures f.Valid() && f.err == Ok && f.fsize == 600 && f.chain != [] && f.chain[0] == 2
    ensures f.fs.geo.database < |f.fs.disk| && |f.Data()[f.fs.geo.database]| == 512
    ensures f.Data()[f.fs.geo.database][0] == 0
  {
    hide File.Core, File.Base, File.Data, File.Table, File.Spare, IsChain, File.AtPtr, Content, OthersKept,
      ChainGrown, SameOutsideFat, File.Exposes, File.Right, HasReserved, Capacity, SectorAt, Reshaped;
    OwnBuffer(f);
    OneClusterFile(f);
    var res := f.Lseek(600);
    OwnBuffer(f);
    OwnByGrowth(f);
    SameSize(old(f.Table()), old(f.chain), f.Table(), f.chain);
    StillFirst(old(f.Table()), old(f.chain), f.Table(), f.chain);
    OneClusterFile(f);
    RoomForTwo(f.fs.geo, f.chain);
    FirstSectors(f, 600);
    SectorKept(f, old(f.Data()));
    SameDisk(f);
    LoadedIsRight(f);
  }

  lemma OneClusterFile(f: File)
    requires f.Core() && f.chain != [] && |f.Table()| == 3
    ensures f.chain[0] == 2 && !HasReserved(f.Table())
  {
    hide Volume.Valid, Volume.Fat, Volume.Reserved, Volume.Logical, Clear, Agrees;
    ChainInUse(f.Table(), f.chain, f.chain[0]);
  }

  lemma StillFirst(fat: seq<nat>, ch: seq<nat>, fat': seq<nat>, ch': seq<nat>)
    requires ChainGrown(fat, ch, fat', ch') && ch != []
    ensures ch' != []
  {}

  lemma RoomForTwo(g: Geometry, ch: seq<nat>)
    requires 1 < g.csize && ch != []
    ensures Capacity(g, ch) >= 1024
  {
    MulMonotone(g.csize, 1, |ch|);
  }

  lemma LoadedIsRight(f: File)
    requires f.Core()
    ensures 0 < f.dsect < |f.fs.disk| && !f.dirty && f.buf[..] == f.Data()[f.dsect] ==> f.Right()
  {
    hide Volume.Valid, Volume.Fat, Volume.Reserved, Volume.Logical, IsChain, Clear, Agrees;
    if 0 < f.dsect && !f.dirty {
      AgreesSame(f.fs.geo, f.chain, f.dsect, f.buf[..], f.fsize);
    }
  }

  /** f_lseek into another sector, to the start again and f_read of one byte: it comes from the medium. */
  method ReadNew(f: File) returns (data: seq<Byte>)
    requires Regained(f)
    modifies f.fs`disk, f.fs`wflag, f.fs`winsect, f.fs.win, f.fs`freeClust, f.fs`fsiDirty, f.fs`lastClust
    modifies f`sclust, f`chain, f`clust, f`dirty, f`dsect, f`fptr, f`lim, f`fsize, f`written, f`err, f.buf
    ensures data == [0]
  {
    hide File.Core, File.Base, File.Data, File.Table, File.Spare, IsChain, File.AtPtr, Content, SameOutsideFat,
      Capacity, SectorAt, File.Covers, ChainGrown, OthersKept, HasReserved, File.Exposes, File.Right;
    SeekAway(f);
    OwnBuffer(f);
    ghost var img := f.Data();
    SeekHome(f);
    OwnBuffer(f);
    SectorKept(f, img);
    FirstByte(f, f.fsize);
    var res;
    res, data := f.Read(1);
  }

  /**
   On any volume with one cluster of more than one sector, and that free: twelve calls on two files, after which
   the same byte of the first has been read as 1 and, without a write to the file in between, as 0.
   */
  method TwoAnswers(fs: Volume) returns (first: seq<Byte>, second: seq<Byte>)
    requires fs.Valid() && |fs.Fat()| == 3 && fs.Fat()[2] == 0 && 1 < fs.geo.csize
    modifies fs`disk, fs`wflag, fs`winsect, fs.win, fs`freeClust, fs`fsiDirty, fs`lastClust
    ensures first == [1] && second == [0]
  {
    hide Left, Regained, Volume.Valid, Volume.Fat, Volume.Reserved, File.Base, File.Data;
    var f := Leave(fs);
    LeftBase(f);
    Overwrite(f);
    LeftBase(f);
    Regain(f);
    first := ReadOld(f);
    second := ReadNew(f);
  }

  lemma LeftBase(f: File)
    requires Left(f)
    ensures f.Base()
  {
    OwnBuffer(f);
  }

  /** No plain file answers so: reading a byte, seeking away and back and reading it again gives it twice. */
  lemma PlainAnswersAgree(states: seq<Plain>, replies: seq<Reply>, rooms: seq<Room>)
    requires PlainRun(true, true, states, [OpSeek(0), OpRead(1), OpSeek(600), OpSeek(0), OpRead(1)], replies, rooms)
    requires states[0].ok && 0 < |states[0].bytes| && !rooms[2].reserved
    ensures replies[1].data == replies[4].data
  {
    var ops := [OpSeek(0), OpRead(1), OpSeek(600), OpSeek(0), OpRead(1)];
    assert PlainStep(true, true, states[0], ops[0], replies[0], states[1], rooms[0]);
    assert PlainStep(true, true, states[1], ops[1], replies[1], states[2], rooms[1]);
    assert PlainStep(true, true, states[2], ops[2], replies[2], states[3], rooms[2]);
    assert PlainStep(true, true, states[3], ops[3], replies[3], states[4], rooms[3]);
    assert PlainStep(true, true, states[4], ops[4], replies[4], states[5], rooms[4]);
  }
}
