/**
 f_sync, and what a later mount finds: the directory entry with the start cluster and the size, the
 table and the bytes of the file are on the medium itself.
 */
module FatSync {
  import opened FatLayout
  import opened FatChains
  import opened FatMount
  import opened FatMountSpec
  import opened FatVolume
  import opened FatFileSpec
  import opened FatBuffer
  import opened FatFile
  import opened FatFileRun

  /** The attribute byte with the archive bit set. */
  function Archived(a: Byte): Byte {
    if a / 32 % 2 == 0 then a + 32 else a
  }

  function PutWord(s: seq<Byte>, p: nat, v: nat): (r: seq<Byte>)
    requires p + 2 <= |s|
    ensures |r| == |s|
  {
    s[p := ByteOf(v, 0)][p + 1 := ByteOf(v, 1)]
  }

  function PutDword(s: seq<Byte>, p: nat, v: nat): (r: seq<Byte>)
    requires p + 4 <= |s|
    ensures |r| == |s|
  {
    s[p := ByteOf(v, 0)][p + 1 := ByteOf(v, 1)][p + 2 := ByteOf(v, 2)][p + 3 := ByteOf(v, 3)]
  }

  /** A sector with the directory entry at offset `o` brought up to date. */
  function Entered(s: seq<Byte>, o: nat, start: nat, size: nat, tm: nat): (r: seq<Byte>)
    requires o + 32 <= |s|
    ensures |r| == |s|
  {
    var a := PutDword(s[o + 11 := Archived(s[o + 11])], o + 28, size);
    var b := PutWord(PutWord(a, o + 26, start), o + 20, start / 0x1_0000);
    PutWord(PutDword(b, o + 22, tm), o + 18, 0)
  }

  /** ld_clust: the start cluster of a directory entry. */
  function StartOf(t: FatType, s: seq<Byte>, o: nat): nat
    requires o + 32 <= |s|
  {
    if t.Fat32? then Word(s, o + 26) + 0x1_0000 * Word(s, o + 20) else Word(s, o + 26)
  }

  function SizeIn(s: seq<Byte>, o: nat): nat
    requires o + 32 <= |s|
  {
    Dword(s, o + 28)
  }

  /**
   The size is read back, and the start cluster exactly if it is below 65536 or the volume is FAT32. Name,
   creation time and the other entries of the sector stay.
   */
  lemma EnteredReadsBack(t: FatType, s: seq<Byte>, o: nat, start: nat, size: nat, tm: nat)
    requires o + 32 <= |s| && start < TWO32 && size < TWO32
    ensures var r := Entered(s, o, start, size, tm);
            && SizeIn(r, o) == size && (StartOf(t, r, o) == start <==> t.Fat32? || start < 0x1_0000)
            && forall i :: 0 <= i < |s| && i != o + 11 && !(o + 18 <= i < o + 32) ==> r[i] == s[i]
  {
    hide ByteOf, LoadDword, LoadWord;
    var r := Entered(s, o, start, size, tm);
    var hi, lo := start / 0x1_0000, start % 0x1_0000;
    DwordBack(size);
    HighByte(start);
    WordBack(hi);
    WordBack(lo);
    LowBytes(start);
    assert Word(r, o + 26) == LoadWord(ByteOf(start, 0), ByteOf(start, 1));
    assert Word(r, o + 20) == LoadWord(ByteOf(hi, 0), ByteOf(hi, 1));
    assert SizeIn(r, o) == LoadDword(ByteOf(size, 0), ByteOf(size, 1), ByteOf(size, 2), ByteOf(size, 3));
    assert start == lo + 0x1_0000 * hi;
  }

  /**
   The fields of the entry at their offsets: archive bit, access date, start cluster in two halves, time and size. No
   other attribute changes.
   */
  lemma EntryFields(s: seq<Byte>, o: nat, start: nat, size: nat, tm: nat)
    requires o + 32 <= |s| && start < TWO32 && size < TWO32 && tm < TWO32
    ensures var r := Entered(s, o, start, size, tm);
            && Little(r, o + 28, 4) == size && Little(r, o + 22, 4) == tm && Little(r, o + 18, 2) == 0
            && Little(r, o + 26, 2) == start % 0x1_0000 && Little(r, o + 20, 2) == start / 0x1_0000
            && r[o + 11] / 64 == s[o + 11] / 64 && r[o + 11] / 32 % 2 == 1 && r[o + 11] % 32 == s[o + 11] % 32
  {
    hide ByteOf, LoadDword, LoadWord, Little, Word, Dword, Archived;
    var r := Entered(s, o, start, size, tm);
    HighByte(start);
    ReadDword(r, o + 28, size);
    ReadDword(r, o + 22, tm);
    ReadWord(r, o + 18, 0);
    LowBytes(start);
    ReadWord(r, o + 26, start % 0x1_0000);
    ReadWord(r, o + 20, start / 0x1_0000);
    assert r[o + 11] == Archived(s[o + 11]);
    ArchivedIs(s[o + 11]);
  }

  lemma ArchivedIs(a: Byte)
    ensures var b := Archived(a); b / 64 == a / 64 && b / 32 % 2 == 1 && b % 32 == a % 32
  {}

  lemma ReadWord(s: seq<Byte>, p: nat, v: nat)
    requires p + 2 <= |s| && v < 0x1_0000 && s[p] == ByteOf(v, 0) && s[p + 1] == ByteOf(v, 1)
    ensures Little(s, p, 2) == v
  {
    hide ByteOf;
    WordBack(v);
    WordIs(s, p);
  }

  lemma ReadDword(s: seq<Byte>, p: nat, v: nat)
    requires p + 4 <= |s| && v < TWO32 && s[p] == ByteOf(v, 0) && s[p + 1] == ByteOf(v, 1)
    requires s[p + 2] == ByteOf(v, 2) && s[p + 3] == ByteOf(v, 3)
    ensures Little(s, p, 4) == v
  {
    hide ByteOf;
    DwordBack(v);
    DwordIs(s, p);
  }

  /** Where ld_clust and f_open look for the start cluster and the size. */
  lemma EntryReadAt(t: FatType, s: seq<Byte>, o: nat)
    requires o + 32 <= |s|
    ensures SizeIn(s, o) == Little(s, o + 28, 4)
    ensures StartOf(t, s, o) == Little(s, o + 26, 2) + (if t.Fat32? then 0x1_0000 * Little(s, o + 20, 2) else 0)
  {
    hide Little, Word, Dword;
    WordIs(s, o + 26);
    WordIs(s, o + 20);
    DwordIs(s, o + 28);
  }

  lemma LowBytes(v: nat)
    ensures ByteOf(v % 0x1_0000, 0) == ByteOf(v, 0) && ByteOf(v % 0x1_0000, 1) == ByteOf(v, 1)
  {
    SplitMod16(v);
    SplitMod16(v % 0x1_0000);
  }

  method StoreWord(win: array<Byte>, p: nat, v: nat)
    requires p + 2 <= win.Length
    modifies win
    ensures win[..] == PutWord(old(win[..]), p, v)
  {
    hide ByteOf;
    win[p] := ByteOf(v, 0);
    win[p + 1] := ByteOf(v, 1);
  }

  method StoreDword(win: array<Byte>, p: nat, v: nat)
    requires p + 4 <= win.Length
    modifies win
    ensures win[..] == PutDword(old(win[..]), p, v)
  {
    hide ByteOf;
    win[p] := ByteOf(v, 0);
    win[p + 1] := ByteOf(v, 1);
    win[p + 2] := ByteOf(v, 2);
    win[p + 3] := ByteOf(v, 3);
  }

  /** Bring the directory entry in the window up to date. */
  method UpdateEntry(win: array<Byte>, o: nat, start: nat, size: nat, tm: nat)
    requires o + 32 <= win.Length
    modifies win
    ensures win[..] == Entered(old(win[..]), o, start, size, tm)
  {
    hide ByteOf, PutWord, PutDword, Archived;
    win[o + 11] := Archived(win[o + 11]);
    StoreDword(win, o + 28, size);
    StoreWord(win, o + 26, start);
    StoreWord(win, o + 20, start / 0x1_0000);
    StoreDword(win, o + 22, tm);
    StoreWord(win, o + 18, 0);
  }

  /** A sector of a directory lies behind the FAT copies. */
  ghost predicate EntryPlace(g: Geometry, nSectors: nat, s: nat) {
    g.fatbase + FatSpan(g) <= s < nSectors
  }

  /** The sector of the FSINFO data, if it is written, is not the first of the table. */
  ghost predicate FsInfoApart(fs: Volume)
    reads fs`fsiDirty
  {
    FsInfoDue(fs) ==> fs.geo.volbase + 1 < fs.geo.fatbase
  }

  /** sync_fs is to write the FSINFO sector. */
  ghost predicate FsInfoDue(fs: Volume)
    reads fs`fsiDirty
  {
    fs.fsiEnabled && fs.fsiDirty
  }

  /** The sector behind the boot sector is an FSINFO sector with the free count and the last cluster. */
  ghost predicate ShowsCounts(fs: Volume)
    reads fs`disk, fs`freeClust, fs`lastClust
  {
    fs.geo.volbase + 1 < |fs.disk| && fs.disk[fs.geo.volbase + 1] == FsInfo(fs.freeClust, fs.lastClust)
  }

  lemma NotFat(g: Geometry, nSectors: nat, s: nat)
    requires ValidGeometry(g, nSectors) && EntryPlace(g, nSectors, s)
    ensures !InFat(g, s) && !InMirror(g, s) && s != g.volbase + 1
  {}

  /** What the program sees when the window shows other bytes for a sector outside the FAT copies. */
  lemma Overlaid(g: Geometry, disk: Image, s: nat, was: Sector, sec: Sector)
    requires ValidGeometry(g, |disk|) && WellSized(g, disk) && Mirrored(g, disk) && s < |disk| && |was| == |sec| == 512
    requires !InFat(g, s) && !InMirror(g, s)
    ensures Overlay(g, disk, s, sec) == Overlay(g, disk, s, was)[s := sec]
    ensures FatBytes(g, Overlay(g, disk, s, sec)) == FatBytes(g, Overlay(g, disk, s, was))
  {
    hide ValidGeometry, WellSized, Mirrored, FatBytes;
    FatUntouched(g, disk, s, sec);
    FatUntouched(g, disk, s, was);
  }

  /** Bring the directory entry in the window up to date, and have the window written back some time. */
  method ChangeWindow(fs: Volume, o: nat, start: nat, size: nat, tm: nat)
    requires fs.Valid() && !InFat(fs.geo, fs.winsect) && o + 32 <= 512
    modifies fs`wflag, fs.win
    ensures fs.Valid() && fs.Fat() == old(fs.Fat())
    ensures fs.Logical() == old(fs.Logical())[fs.winsect := Entered(old(fs.win[..]), o, start, size, tm)]
  {
    hide FatBytes, Entries, Mirrored, WellSized, Entered, ValidGeometry, Overlay;
    UpdateEntry(fs.win, o, start, size, tm);
    fs.wflag := true;
    Overlaid(fs.geo, fs.disk, fs.winsect, old(fs.win[..]), fs.win[..]);
  }

  /** The entry is brought up to date in the window. */
  method WriteEntry(fs: Volume, dirSect: nat, o: nat, start: nat, size: nat, tm: nat)
    requires fs.Valid() && EntryPlace(fs.geo, |fs.disk|, dirSect) && o + 32 <= 512
    modifies fs`disk, fs`wflag, fs`winsect, fs.win
    ensures fs.Valid() && fs.winsect == dirSect < |fs.disk| == old(|fs.disk|) && fs.Fat() == old(fs.Fat())
    ensures |old(fs.Logical())[dirSect]| == 512
    ensures fs.Logical() == old(fs.Logical())[dirSect := Entered(old(fs.Logical())[dirSect], o, start, size, tm)]
  {
    hide Volume.Fat, Volume.Reserved, Volume.Logical, Entered, Mirrored, ValidGeometry;
    NotFat(fs.geo, |fs.disk|, dirSect);
    fs.MoveWindow(dirSect);
    assert |fs.Logical()| == |fs.disk| && |old(fs.Logical())| == |old(fs.disk)|;
    ChangeWindow(fs, o, start, size, tm);
  }

  /** sync_fs, where the FSINFO sector is apart from the table: the medium is what the program sees. */
  method SyncVolume(fs: Volume)
    requires fs.Valid() && FsInfoApart(fs)
    modifies fs`disk, fs`wflag, fs`winsect, fs.win, fs`fsiDirty
    ensures fs.Valid() && !fs.wflag && fs.disk == fs.Logical() && fs.Fat() == old(fs.Fat()) &&
              |fs.disk| == old(|fs.disk|)
    ensures fs.winsect == old(fs.winsect) || fs.winsect == fs.geo.volbase + 1
    ensures old(FsInfoDue(fs)) ==> ShowsCounts(fs)
    ensures forall s: nat :: s < |fs.disk| && !(old(FsInfoDue(fs)) && s == fs.geo.volbase + 1) ==>
              fs.disk[s] == old(fs.Logical())[s]
  {
    hide Volume.Valid, Volume.Fat, Volume.Reserved, Volume.Logical;
    fs.SyncFs();
  }

  lemma SystemSectorClear(g: Geometry, nSectors: nat, ch: seq<nat>, s: nat)
    requires OnVolume(g, nSectors, ch) && s < g.database
    ensures Clear(g, ch, s)
  {}

  /** Whether the file can be synchronized: its directory entry lies outside its clusters. */
  ghost predicate Syncable(f: File, dirSect: nat, o: nat)
    reads f, f.fs, f.fs.win, f.buf
  {
    && f.Valid() && EntryPlace(f.fs.geo, |f.fs.disk|, dirSect) && o + 32 <= 512 && FsInfoApart(f.fs)
    && f.ChainIsLegal() && Clear(f.fs.geo, f.chain, dirSect) && Clear(f.fs.geo, f.shy, dirSect)
  }

  /** The file is on the medium: its entry, its table and its bytes. */
  ghost predicate OnMedium(g: Geometry, disk: Image, dirSect: nat, o: nat, ch: seq<nat>, fat: seq<nat>,
    bytes: seq<Byte>)
  {
    && ValidGeometry(g, |disk|) && WellSized(g, disk) && Mirrored(g, disk) && TableOf(g, disk) == fat
    && dirSect < |disk| && o + 32 <= |disk[dirSect]| && |bytes| == SizeIn(disk[dirSect], o)
    && (if StartOf(g.fsType, disk[dirSect], o) == 0 then ch == []
        else IsChain(fat, ch) && ch[0] == StartOf(g.fsType, disk[dirSect], o))
    && OnVolume(g, |disk|, ch) && |bytes| <= Capacity(g, ch) && Content(g, disk, ch, |bytes|) == bytes
  }

  /** Every sector but that of the entry, and the FSINFO sector if that is due, is as it was seen by the program. */
  ghost predicate OthersSame(g: Geometry, img: Image, disk: Image, dirSect: nat, fsi: bool) {
    && |disk| == |img|
    && forall s: nat :: s < |disk| && s != dirSect && !(fsi && s == g.volbase + 1) ==> disk[s] == img[s]
  }

  /** The sector of the entry is as it was seen by the program, with the entry brought up to date. */
  ghost predicate EntryWritten(f: File, img: Image, dirSect: nat, o: nat, tm: nat)
    reads f, f.fs
  {
    && dirSect < |img| && dirSect < |f.fs.disk| && o + 32 <= |img[dirSect]|
    && f.fs.disk[dirSect] == Entered(img[dirSect], o, f.sclust, f.fsize, tm)
  }

  /** The synchronized file is what it was, and its bytes are those on the medium. */
  twostate lemma SyncedFile(f: File, new dirSect: nat, new fsi: bool)
    requires old(f.Valid()) && f.chain == old(f.chain) && f.sclust == old(f.sclust) && f.dsect == old(f.dsect)
    requires f.owned == old(f.owned) && f.shy == old(f.shy) && f.fptr == old(f.fptr) && f.fsize == old(f.fsize)
    requires f.clust == old(f.clust) && f.err == old(f.err) && unchanged(f.buf) && !f.dirty && f.lim == old(f.lim)
    requires f.whole ==> old(f.whole) && f.dsect != dirSect
    requires f.fs.Valid() && f.fs.disk == f.fs.Logical() && f.fs.Fat() == old(f.fs.Fat()) &&
              |f.fs.disk| == old(|f.fs.disk|)
    requires f.fs.winsect == dirSect || f.fs.winsect == f.fs.geo.volbase + 1
    requires f.ChainIsLegal() && EntryPlace(f.fs.geo, |f.fs.disk|, dirSect)
    requires Clear(f.fs.geo, f.chain, dirSect) && Clear(f.fs.geo, f.shy, dirSect)
    requires OthersSame(f.fs.geo, old(f.Data()), f.fs.disk, dirSect, fsi)
    ensures f.Valid() && PlainOf(f) == old(PlainOf(f)) && f.Table() == old(f.Table())
    ensures f.Contents(f.fsize) == Content(f.fs.geo, f.fs.disk, f.chain, f.fsize)
  {
    hide Volume.Valid, Volume.Fat, Volume.Reserved, Volume.Logical, IsChain, Clear, SectorAt, ClusterAt, Capacity,
      Content, WellSized, Agrees;
    SystemSectorClear(f.fs.geo, |f.fs.disk|, f.chain, f.fs.geo.volbase + 1);
    SystemSectorClear(f.fs.geo, |f.fs.disk|, f.shy, f.fs.geo.volbase + 1);
    assert f.buf[..] == old(f.buf[..]);
    if f.dsect != 0 {
      SyncedBuffer(f.fs.geo, f.chain, f.dsect, f.buf[..], old(f.Data()), f.fs.disk, dirSect, fsi, f.lim);
    }
    ContentFrame(f.fs.geo, old(f.Data()), f.fs.disk, f.chain, f.fsize);
  }

  /** A buffer that was right is right about the sector on the medium. */
  lemma SyncedBuffer(g: Geometry, ch: seq<nat>, d: nat, b: seq<Byte>, img: Image, disk: Image, dirSect: nat, fsi: bool,
    n: nat)
    requires OnVolume(g, |disk|, ch) && g.database <= d < |disk| && |b| == 512 && WellSized(g, img) &&
              WellSized(g, disk)
    requires OthersSame(g, img, disk, dirSect, fsi) && Clear(g, ch, dirSect)
    requires b == img[d] || Agrees(g, ch, d, b, img[d], n)
    ensures Agrees(g, ch, d, b, disk[d], n)
  {
    hide Agrees, Clear;
    if d == dirSect {
      AgreesOff(g, ch, d, b, disk[d], n);
    } else if b == img[d] {
      AgreesSame(g, ch, d, b, n);
    }
  }

  /** The start cluster of a file fits its two words, or on FAT12 and FAT16 the lower one. */
  lemma StartFits(f: File)
    requires f.Core()
    ensures f.sclust < TWO32 && (f.fs.geo.fsType.Fat32? || f.sclust < 0x1_0000)
  {
    hide Volume.Fat, Volume.Reserved, Volume.Logical, Clear;
  }

  /** The file with this entry is on the medium. */
  lemma EntryOnMedium(f: File, dirSect: nat, o: nat, sec: Sector, tm: nat)
    requires f.Valid() && !f.fs.wflag && f.fs.disk == f.fs.Logical() && dirSect < |f.fs.disk| && |sec| == 512 &&
              o + 32 <= 512
    requires f.fs.disk[dirSect] == Entered(sec, o, f.sclust, f.fsize, tm)
    requires f.Contents(f.fsize) == Content(f.fs.geo, f.fs.disk, f.chain, f.fsize)
    ensures OnMedium(f.fs.geo, f.fs.disk, dirSect, o, f.chain, f.Table(), f.Contents(f.fsize))
  {
    hide Entered, SizeIn, StartOf, Clear, SectorAt, ClusterAt, Content, ValidGeometry, Mirrored, FatBytes, Entries,
      IsChain, Overlay;
    StartFits(f);
    EnteredReadsBack(f.fs.geo.fsType, sec, o, f.sclust, f.fsize, tm);
  }

  /**
   f_sync: nothing on a file that has not been written to. Else the buffer, the directory entry, the
   window and the FSINFO sector go to the medium, and the file is there whole; every other sector is
   as the program saw it.
   */
  method Sync(f: File, dirSect: nat, o: nat, tm: nat) returns (res: FResult)
    requires Syncable(f, dirSect, o)
    modifies f.fs`disk, f.fs`wflag, f.fs`winsect, f.fs.win, f.fs`fsiDirty, f`dirty, f`written, f`whole
    ensures res == Ok && f.Valid() && !f.written && PlainOf(f) == old(PlainOf(f)) && f.Table() == old(f.Table())
    ensures !old(f.written) ==>
              f.Data() == old(f.Data()) && f.fs.disk == old(f.fs.disk) && f.fs.fsiDirty == old(f.fs.fsiDirty)
    ensures old(f.written) && old(FsInfoDue(f.fs)) ==> ShowsCounts(f.fs)
    ensures old(f.written) ==>
              && OnMedium(f.fs.geo, f.fs.disk, dirSect, o, f.chain, f.Table(), f.Contents(f.fsize))
              && OthersSame(f.fs.geo, old(f.Data()), f.fs.disk, dirSect, old(FsInfoDue(f.fs)))
              && EntryWritten(f, old(f.Data()), dirSect, o, tm)
  {
    hide File.Base, Volume.Valid, Volume.Fat, Volume.Reserved, Volume.Logical, Clear, SectorAt, ClusterAt, Content,
      Entered, File.Covers, File.AtPtr, OnMedium, EntryPlace;
    res := Ok;
    if f.written {
      SyncAll(f, dirSect, o, tm);
    }
  }

  method SyncAll(f: File, dirSect: nat, o: nat, tm: nat)
    requires Syncable(f, dirSect, o)
    modifies f.fs`disk, f.fs`wflag, f.fs`winsect, f.fs.win, f.fs`fsiDirty, f`dirty, f`written, f`whole
    ensures f.Valid() && !f.written && PlainOf(f) == old(PlainOf(f)) && f.Table() == old(f.Table())
    ensures OnMedium(f.fs.geo, f.fs.disk, dirSect, o, f.chain, f.Table(), f.Contents(f.fsize))
    ensures OthersSame(f.fs.geo, old(f.Data()), f.fs.disk, dirSect, old(FsInfoDue(f.fs)))
    ensures EntryWritten(f, old(f.Data()), dirSect, o, tm) && (old(FsInfoDue(f.fs)) ==> ShowsCounts(f.fs))
  {
    hide File.Core, File.Base, File.Data, File.Table, File.Spare, File.AtPtr, File.Covers, Volume.Valid, Volume.Fat,
      Volume.Reserved, Volume.Logical, Clear, Content, Entered, OnMedium, PlainOf, Agrees;
    ghost var img := f.Data();
    TableOfFile(f);
    StoreEntry(f, dirSect, o, tm);
    f.written := false;
    f.whole := f.whole && f.dsect != dirSect;
    SyncedFile(f, dirSect, old(FsInfoDue(f.fs)));
    EntryOnMedium(f, dirSect, o, img[dirSect], tm);
  }

  /** The buffer, the directory entry and the rest of what waits go to the medium. */
  method StoreEntry(f: File, dirSect: nat, o: nat, tm: nat)
    requires Syncable(f, dirSect, o)
    modifies f.fs`disk, f.fs`wflag, f.fs`winsect, f.fs.win, f.fs`fsiDirty, f`dirty
    ensures f.fs.Valid() && !f.fs.wflag && !f.dirty && f.fs.disk == f.fs.Logical() && old(f.fs.Valid())
    ensures f.fs.Fat() == old(f.fs.Fat()) && |f.fs.disk| == old(|f.fs.disk|)
    ensures f.fs.winsect == dirSect || f.fs.winsect == f.fs.geo.volbase + 1
    ensures OthersSame(f.fs.geo, old(f.Data()), f.fs.disk, dirSect, old(FsInfoDue(f.fs)))
    ensures EntryWritten(f, old(f.Data()), dirSect, o, tm) && |old(f.Data())[dirSect]| == 512
    ensures old(FsInfoDue(f.fs)) ==> ShowsCounts(f.fs)
  {
    hide File.Core, File.Base, File.Data, File.Table, File.Spare, File.AtPtr, File.Covers, Volume.Valid, Volume.Fat,
      Volume.Reserved, Volume.Logical, Clear, Content, Entered, Agrees;
    TableOfFile(f);
    f.Flush();
    TableOfFile(f);
    NotFat(f.fs.geo, |f.fs.disk|, dirSect);
    WriteEntry(f.fs, dirSect, o, f.sclust, f.fsize, tm);
    SyncVolume(f.fs);
  }

  lemma TableOfFile(f: File)
    requires f.Core()
    ensures f.fs.Valid() && f.Table() == f.fs.Fat() && |f.Data()| == |f.fs.disk| &&
              (!f.dirty ==> f.Data() == f.fs.Logical())
    ensures ValidGeometry(f.fs.geo, |f.fs.disk|) && f.buf != f.fs.win
  {
    hide Volume.Fat, Volume.Reserved, Volume.Logical, IsChain, Clear;
  }

  lemma FirstSectors(g: Geometry, nSectors: nat)
    requires ValidGeometry(g, nSectors)
    ensures g.volbase + 1 < g.database
  {}

  /** The same file found on the medium by a mount and f_open. */
  method Reopen(g: Geometry, disk: Image, fsi: bool, free: nat, last: nat, dirSect: nat, o: nat,
                read: bool, write: bool, ghost ch: seq<nat>, ghost fat: seq<nat>, ghost bytes: seq<Byte>)
    returns (f: File)
    requires OnMedium(g, disk, dirSect, o, ch, fat, bytes) && |bytes| < TWO32 && (fsi ==> g.fsType.Fat32?)
    ensures fresh(f) && fresh(f.fs) && f.fs.geo == g && f.Valid() && f.chain == ch && f.Table() == fat &&
              f.Data() == disk
    ensures f.canRead == read && f.canWrite == write && PlainOf(f) == Plain(bytes, 0, true)
  {
    hide Clear, SectorAt, ClusterAt, Content, ValidGeometry, Mirrored, FatBytes, Entries, IsChain, Overlay, SizeIn,
      StartOf, WellSized, Volume.Valid, Volume.Fat, Volume.Reserved, Volume.Logical;
    var fs := new Volume.Mount(g, disk, fsi, free, last);
    FirstSectors(g, |disk|);
    SystemSectorClear(g, |disk|, ch, fs.winsect);
    f := new File.Open(fs, StartOf(g.fsType, disk[dirSect], o), SizeIn(disk[dirSect], o), read, write, ch);
  }

  /**
   f_sync of a file that has been written to, a new mount of the medium and f_open: the same bytes
   on the same chain.
   */
  method SyncThenReopen(f: File, dirSect: nat, o: nat, tm: nat, free: nat, last: nat) returns (g: File)
    requires Syncable(f, dirSect, o) && f.written
    modifies f.fs`disk, f.fs`wflag, f.fs`winsect, f.fs.win, f.fs`fsiDirty, f`dirty, f`written, f`whole
    ensures f.Valid() && PlainOf(f) == old(PlainOf(f)) && fresh(g) && fresh(g.fs) && g.fs.geo == f.fs.geo
    ensures g.Valid() && PlainOf(g) == Plain(old(PlainOf(f)).bytes, 0, true) && g.chain == f.chain &&
              g.Table() == old(f.Table())
  {
    hide File.Base, Volume.Valid, Volume.Fat, Volume.Reserved, Volume.Logical, Clear, Content, OnMedium, File.Covers,
      File.AtPtr;
    TableOfFile(f);
    FsiMeans(f.fs);
    var res := Sync(f, dirSect, o, tm);
    g := Reopen(f.fs.geo, f.fs.disk, f.fs.fsiEnabled, free, last, dirSect, o, true, true, f.chain, f.Table(),
      f.Contents(f.fsize));
  }

  lemma FsiMeans(fs: Volume)
    requires fs.Valid()
    ensures fs.fsiEnabled ==> fs.geo.fsType.Fat32?
  {}
}
