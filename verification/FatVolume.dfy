/**
 The mounted file system object: the one-sector write-back window over the medium,
 reading and writing FAT entries through it, and the cluster allocator on top.
 The medium never fails here.
 */
module FatVolume {
  import opened FatLayout
  import opened FatChains

  datatype FResult = Ok | DiskErr | IntErr | NoFile | Denied | MkfsAborted | NotEnoughCore

  lemma OverlayFacts(g: Geometry, img: Image, s: nat, sec: Sector)
    requires ValidGeometry(g, |img|) && WellSized(g, img) && Mirrored(g, img)
    requires s < |img| && !InMirror(g, s) && |sec| == 512
    ensures WellSized(g, Overlay(g, img, s, sec)) && Mirrored(g, Overlay(g, img, s, sec))
    ensures Overlay(g, Overlay(g, img, s, sec), s, sec) == Overlay(g, img, s, sec)
    ensures sec == img[s] ==> Overlay(g, img, s, sec) == img
  {}

  /**
   Where a sector goes that is written back: to its place, and when it is one of the FAT to that in
   the second copy.
   */
  lemma OverlayIs(g: Geometry, img: Image, s: nat, sec: Sector)
    requires ValidGeometry(g, |img|) && s < |img|
    ensures var r, twice := Overlay(g, img, s, sec), g.nFats == 2 && g.fatbase <= s < g.fatbase + g.fsize;
            && |r| == |img| && (twice ==> s + g.fsize < |img|)
            && forall k :: 0 <= k < |img| ==> r[k] == if k == s || (twice && k == s + g.fsize) then sec else img[k]
  {}

  /** The images agree on every sector that belongs to no FAT copy. */
  ghost predicate SameOutsideFat(g: Geometry, a: Image, b: Image) {
    |a| == |b| && forall s: nat {:trigger a[s]} {:trigger b[s]} :: s < |a| && !InFat(g, s) && !InMirror(g, s) ==>
      a[s] == b[s]
  }

  /** Overlaying the same sector twice keeps only the later bytes. */
  lemma OverlayTwice(g: Geometry, img: Image, s: nat, a: Sector, b: Sector)
    requires ValidGeometry(g, |img|) && s < |img| && !InMirror(g, s)
    ensures Overlay(g, Overlay(g, img, s, a), s, b) == Overlay(g, img, s, b)
  {}

  /** One byte of the FAT after a byte has been stored in a FAT sector. */
  lemma FatByteAfterStore(g: Geometry, img: Image, sec: Sector, i: nat, v: Byte, k: nat)
    requires ValidGeometry(g, |img|) && WellSized(g, img) && Mirrored(g, img)
    requires i < g.fsize * 512 && k < g.fsize * 512
    requires i / 512 < g.fsize && i % 512 < 512 && sec == img[g.fatbase + i / 512][i % 512 := v]
    ensures var r := Overlay(g, img, g.fatbase + i / 512, sec);
            WellSized(g, r) && FatByte(g, r, k) == if k == i then v else FatByte(g, img, k)
  {
    OverlayFacts(g, img, g.fatbase + i / 512, sec);
  }

  /** Storing one byte into a FAT sector is storing it at its place in the FAT. */
  lemma FatBytesAfterStore(g: Geometry, img: Image, sec: Sector, i: nat, v: Byte)
    requires ValidGeometry(g, |img|) && WellSized(g, img) && Mirrored(g, img) && i < g.fsize * 512
    requires i / 512 < g.fsize && i % 512 < 512 && sec == img[g.fatbase + i / 512][i % 512 := v]
    ensures var r := Overlay(g, img, g.fatbase + i / 512, sec);
            WellSized(g, r) && FatBytes(g, r) == FatBytes(g, img)[i := v]
  {
    var r := Overlay(g, img, g.fatbase + i / 512, sec);
    OverlayFacts(g, img, g.fatbase + i / 512, sec);
    forall k | 0 <= k < g.fsize * 512 ensures FatByte(g, r, k) == FatBytes(g, img)[i := v][k] {
      FatByteAfterStore(g, img, sec, i, v, k);
    }
  }

  /** Two- and four-byte entries never straddle a sector. */
  lemma PackedEntry(c: nat)
    ensures c / 256 == 2 * c / 512 && 2 * c % 512 + 2 <= 512
    ensures c / 128 == 4 * c / 512 && 4 * c % 512 + 4 <= 512
  {
    ModUnique(2 * c, 512, c / 256, 2 * (c % 256));
    ModUnique(4 * c, 512, c / 128, 4 * (c % 128));
  }

  /** A sector of the data area and the window are written independently. */
  lemma OverlayOther(g: Geometry, img: Image, w: nat, a: Sector, s: nat, sec: Sector)
    requires ValidGeometry(g, |img|) && w < |img| && !InMirror(g, w) && Mirrored(g, img)
    requires g.database <= s < |img| && s != w
    ensures Overlay(g, img[s := sec], w, a) == Overlay(g, img, w, a)[s := sec]
    ensures Mirrored(g, img[s := sec])
  {}

  /** Writing a sector outside the FAT copies leaves the FAT alone. */
  lemma FatUntouched(g: Geometry, img: Image, s: nat, sec: Sector)
    requires ValidGeometry(g, |img|) && WellSized(g, img) && s < |img| && |sec| == 512
    requires !InFat(g, s) && !InMirror(g, s)
    ensures WellSized(g, img[s := sec]) && FatBytes(g, img[s := sec]) == FatBytes(g, img)
    ensures Mirrored(g, img) ==> Mirrored(g, img[s := sec])
  {
    var a, b := FatBytes(g, img), FatBytes(g, img[s := sec]);
    forall i | 0 <= i < g.fsize * 512 ensures a[i] == b[i] {
      assert InFat(g, g.fatbase + i / 512);
    }
  }

  function FsInfoByte(free: nat, last: nat, i: nat): Byte {
    if i < 4 then ByteOf(0x4161_5252, i)
    else if 484 <= i < 488 then ByteOf(0x6141_7272, i - 484)
    else if 488 <= i < 492 then ByteOf(free, i - 488)
    else if 492 <= i < 496 then ByteOf(last, i - 492)
    else if 510 <= i < 512 then ByteOf(0xAA55, i - 510)
    else 0
  }

  /** An FSINFO sector that records a free count and the last allocated cluster. */
  function FsInfo(free: nat, last: nat): (sec: Sector)
    ensures |sec| == 512
    ensures forall i :: 0 <= i < 512 ==> sec[i] == FsInfoByte(free, last, i)
  {
    seq(512, i requires 0 <= i < 512 => FsInfoByte(free, last, i))
  }

  /** The FAT32 entry that a sector shows as its `c`-th when it is read as the first of a FAT. */
  function Stamp(sec: Sector, c: nat): nat
    requires |sec| == 512 && c < 128
  {
    LoadDword(sec[4 * c], sec[4 * c + 1], sec[4 * c + 2], sec[4 * c + 3]) % 0x1000_0000
  }

  /** A FAT byte after the first sector of the FAT has been replaced. */
  lemma StampedByte(g: Geometry, img: Image, sec: Sector, i: nat)
    requires ValidGeometry(g, |img|) && WellSized(g, img) && |sec| == 512 && i < g.fsize * 512
    requires g.fatbase < |img| && WellSized(g, img[g.fatbase := sec])
    ensures FatByte(g, img[g.fatbase := sec], i) == if i < 512 then sec[i] else FatByte(g, img, i)
  {}

  /** Replacing the first sector of the FAT replaces the first 128 entries, and no others. */
  lemma StampedTable(g: Geometry, img: Image, sec: Sector, c: nat)
    requires ValidGeometry(g, |img|) && WellSized(g, img) && |sec| == 512 && g.fsType.Fat32? && c < g.nFatent
    requires g.fatbase < |img| && WellSized(g, img[g.fatbase := sec])
    ensures TableOf(g, img[g.fatbase := sec])[c] == if c < 128 then Stamp(sec, c) else TableOf(g, img)[c]
  {
    hide LoadDword, FatByte, ValidGeometry, WellSized;
    EntryOffsetMonotone(Fat32, c, g.nFatent - 1);
    EntriesInside(g, |img|, c);
    StampedByte(g, img, sec, 4 * c);
    StampedByte(g, img, sec, 4 * c + 1);
    StampedByte(g, img, sec, 4 * c + 2);
    StampedByte(g, img, sec, 4 * c + 3);
  }

  /** The FAT copies agree after the first sector of one has been replaced only if the other held the same. */
  lemma StampedMirror(g: Geometry, img: Image, sec: Sector)
    requires ValidGeometry(g, |img|) && WellSized(g, img) && Mirrored(g, img) && |sec| == 512
    ensures g.fatbase < |img| && (g.nFats == 2 ==> g.fatbase + g.fsize < |img|) && WellSized(g, img[g.fatbase := sec])
    ensures Mirrored(g, img[g.fatbase := sec]) <==> g.nFats == 1 || img[g.fatbase + g.fsize] == sec
  {
    var r := img[g.fatbase := sec];
    assert InFat(g, g.fatbase);
  }

  lemma SizeOf(g: Geometry, img: Image, s: nat)
    requires WellSized(g, img) && s < |img|
    ensures |img[s]| == 512
  {}

  lemma EntriesInside(g: Geometry, nSectors: nat, c: nat)
    requires ValidGeometry(g, nSectors) && c < g.nFatent
    ensures EntryOffset(g.fsType, c) + EntryWidth(g.fsType) <= g.fsize * 512
  {
    EntryOffsetMonotone(g.fsType, c, g.nFatent - 1);
  }

  /**
   What an FSINFO sector does to the table when the FAT follows the boot sector: clusters 2 to 120
   and 124 to 126 read as free, whatever they held, and 122 and 123 as the free count and the last
   cluster. The table survives only if it read so before.
   */
  lemma FsInfoOverTable(g: Geometry, img: Image, free: nat, last: nat)
    requires ValidGeometry(g, |img|) && WellSized(g, img) && g.fsType.Fat32? && 128 <= g.nFatent
    requires g.fatbase < |img| && WellSized(g, img[g.fatbase := FsInfo(free, last)]) && free < TWO28 && last < TWO28
    ensures var fat, fat' := TableOf(g, img), TableOf(g, img[g.fatbase := FsInfo(free, last)]);
            && (forall c :: 2 <= c <= 120 || 124 <= c <= 126 ==> fat'[c] == 0)
            && fat'[122] == free && fat'[123] == last
            && (forall c :: 128 <= c < g.nFatent ==> fat'[c] == fat[c])
            && (fat' == fat <==> forall c :: 0 <= c < 128 ==> fat[c] == Stamp(FsInfo(free, last), c))
  {
    hide TableOf, ValidGeometry, WellSized, FsInfo, Stamp;
    var sec := FsInfo(free, last);
    var fat, fat' := TableOf(g, img), TableOf(g, img[g.fatbase := sec]);
    forall c | 0 <= c < g.nFatent ensures fat'[c] == if c < 128 then Stamp(sec, c) else fat[c] {
      StampedTable(g, img, sec, c);
    }
    forall c | 2 <= c <= 120 || 124 <= c <= 126 ensures fat'[c] == 0 {
      StampZero(free, last, c);
    }
    StampFields(free, last);
  }

  lemma StampZero(free: nat, last: nat, c: nat)
    requires 2 <= c <= 120 || 124 <= c <= 126
    ensures Stamp(FsInfo(free, last), c) == 0
  {
    var sec := FsInfo(free, last);
    assert sec[4 * c] == 0 && sec[4 * c + 1] == 0 && sec[4 * c + 2] == 0 && sec[4 * c + 3] == 0;
    ModUnique(0, 0x1000_0000, 0, 0);
  }

  lemma StampFields(free: nat, last: nat)
    requires free < TWO28 && last < TWO28
    ensures Stamp(FsInfo(free, last), 122) == free && Stamp(FsInfo(free, last), 123) == last
  {
    hide LoadDword, ByteOf;
    DwordBack(free);
    DwordBack(last);
    ModUnique(free, 0x1000_0000, 0, free);
    ModUnique(last, 0x1000_0000, 0, last);
  }

  class Volume {
    const geo: Geometry
    const fsiEnabled: bool  // an FSINFO sector was found when mounting
    const win: array<Byte>
    var disk: Image
    var winsect: nat
    var wflag: bool
    var lastClust: nat
    var freeClust: nat
    var fsiDirty: bool

    ghost predicate Valid()
      reads `disk, `winsect, `wflag, win
    {
      && ValidGeometry(geo, |disk|)
      && (fsiEnabled ==> geo.fsType.Fat32?)
      && WellSized(geo, disk)
      && Mirrored(geo, disk)
      && win.Length == 512
      && winsect < |disk|
      && !InMirror(geo, winsect)
      && (!wflag ==> win[..] == disk[winsect])
    }

    /** The medium as the program sees it: overlaid by the window. */
    ghost function Logical(): (img: Image)
      reads `disk, `winsect, `wflag, win
      requires Valid()
      ensures |img| == |disk| && WellSized(geo, img) && Mirrored(geo, img)
      ensures !wflag ==> img == disk
    {
      OverlayFacts(geo, disk, winsect, win[..]);
      Overlay(geo, disk, winsect, win[..])
    }

    ghost function Bytes(): (fb: seq<Byte>)
      reads `disk, `winsect, `wflag, win
      requires Valid()
      ensures |fb| == geo.fsize * 512
    {
      FatBytes(geo, Logical())
    }

    /** The reserved upper bits of the entries of a FAT32 table. */
    ghost function Reserved(): (r: seq<nat>)
      reads `disk, `winsect, `wflag, win
      requires Valid()
    {
      Nibbles(geo.fsType, Bytes(), geo.nFatent)
    }

    /**
     What no call on a file does to the volume: change reserved bits of the table, change the free count without
     having FSINFO written some time, or forget a right free count.
     */
    twostate predicate Careful()
      reads this, win
      requires old(Valid()) && Valid()
    {
      && Reserved() == old(Reserved()) && |disk| == old(|disk|)
      && (old(fsiDirty) ==> fsiDirty) && (freeClust == old(freeClust) || fsiDirty)
      && (old(freeClust) == UNKNOWN ==> freeClust == UNKNOWN)
      && (old(FreeExact()) && old(freeClust) != UNKNOWN ==> freeClust != UNKNOWN)
    }

    twostate predicate SameCounts()
      reads this
    {
      lastClust == old(lastClust) && freeClust == old(freeClust) && fsiDirty == old(fsiDirty)
    }

    /** The allocation table. */
    ghost function Fat(): (fat: seq<nat>)
      reads `disk, `winsect, `wflag, win
      requires Valid()
      ensures |fat| == geo.nFatent
    {
      Entries(geo.fsType, Bytes(), geo.nFatent)
    }

    /**
     The end of find_volume: the file system object for a volume found on the medium. FAT copies that differ,
     which are not looked for, make it one that the window does not keep.
     */
    constructor Mount(g: Geometry, img: Image, fsi: bool, free: nat, last: nat)
      requires ValidGeometry(g, |img|) && WellSized(g, img) && (fsi ==> g.fsType.Fat32?)
      ensures fresh(win) && geo == g && disk == img && fsiEnabled == fsi && (Valid() <==> Mirrored(g, img))
      ensures freeClust == free && lastClust == last && !fsiDirty && !wflag &&
                winsect == g.volbase + (if fsi then 1 else 0)
      ensures Valid() ==> Logical() == img && Fat() == TableOf(g, img)
    {
      geo, fsiEnabled, disk := g, fsi, img;
      var s := if fsi then g.volbase + 1 else g.volbase;
      winsect, wflag := s, false;
      win := new Byte[512](i requires 0 <= i < 512 && s < |img| && |img[s]| == 512 => img[s][i]);
      lastClust, freeClust, fsiDirty := last, free, false;
      new;
      assert win[..] == img[s];
    }

    lemma GeometryFacts()
      requires Valid()
      ensures 3 <= geo.nFatent < EntryRange(geo.fsType) <= TWO28
      ensures Kept(geo.fsType, END_OF_CHAIN) >= geo.nFatent
      ensures |Logical()| == |disk| && geo.fatbase + FatSpan(geo) <= geo.database <= |disk|
    {
      EndMark(geo, |disk|);
    }

    /** What a scan counts beyond the free clusters. */
    ghost function Extra(t: FatType, fat: seq<nat>): nat
      requires |fat| >= 2
    {
      if t.Fat12? then 0 else Zero(fat[0]) + Zero(fat[1])
    }

    /** Write the window back, to every FAT copy when it is a FAT sector. */
    method SyncWindow()
      requires Valid()
      modifies `disk, `wflag
      ensures Valid() && !wflag
      ensures Logical() == old(Logical()) && disk == old(Logical()) && Fat() == old(Fat())
    {
      if wflag {
        var wsect := winsect;
        disk := disk[wsect := win[..]];
        wflag := false;
        if Sub32(wsect, geo.fatbase) < geo.fsize {
          var nf := geo.nFats;
          while nf >= 2
            invariant 1 <= nf <= geo.nFats && !wflag
            invariant nf == geo.nFats ==> wsect == winsect
            invariant disk == if nf == geo.nFats then old(disk)[winsect := win[..]] else old(Logical())
          {
            wsect := wsect + geo.fsize;
            disk := disk[wsect := win[..]];
            nf := nf - 1;
          }
        }
        assert disk == old(Logical());
      }
    }

    /** Bring a sector into the window. */
    method MoveWindow(sector: nat)
      requires Valid() && sector < |disk| && !InMirror(geo, sector)
      modifies `disk, `wflag, `winsect, win
      ensures Valid() && winsect == sector
      ensures Logical() == old(Logical()) && Bytes() == old(Bytes()) && Fat() == old(Fat())
      ensures win[..] == Logical()[sector]
      ensures sector == old(winsect) ==> disk == old(disk) && wflag == old(wflag)
      ensures sector != old(winsect) ==> disk == old(Logical()) && !wflag
    {
      if sector != winsect {
        SyncWindow();
        ghost var img := Logical();
        LoadWindow(sector);
        winsect := sector;
        OverlayFacts(geo, disk, sector, win[..]);
      }
    }

    /** disk_read of one sector into the window. */
    method LoadWindow(sector: nat)
      requires sector < |disk| && |disk[sector]| == win.Length
      modifies win
      ensures win[..] == disk[sector]
    {
      var i := 0;
      while i < win.Length
        invariant i <= win.Length && win[..i] == disk[sector][..i]
      {
        win[i] := disk[sector][i];
        i := i + 1;
      }
    }

    /** Store a byte of the FAT into the window, which must hold its sector. */
    method Store(off: nat, v: Byte, ghost i: nat)
      requires Valid() && i < geo.fsize * 512
      requires winsect == geo.fatbase + i / 512 && off == i % 512
      modifies `wflag, win
      ensures Valid() && wflag
      ensures Bytes() == old(Bytes())[i := v]
      ensures SameOutsideFat(geo, Logical(), old(Logical()))
    {
      ghost var img := Logical();
      win[off] := v;
      wflag := true;
      ghost var sec: Sector := img[winsect];
      assert win[..] == sec[off := v];
      FatBytesAfterStore(geo, img, win[..], i, v);
      OverlayTwice(geo, disk, winsect, old(win[..]), win[..]);
      assert Logical() == Overlay(geo, img, winsect, sec[off := v]);
    }

    /** The byte of the FAT that a window position shows. */
    lemma WindowByte(i: nat)
      requires Valid() && i < geo.fsize * 512 && winsect == geo.fatbase + i / 512
      ensures i % 512 < win.Length && win[i % 512] == Bytes()[i]
    {
      assert Logical()[winsect] == win[..];
    }

    /** The sector holding byte `i` of the FAT can be brought into the window. */
    lemma FatSector(i: nat)
      requires Valid() && i < geo.fsize * 512
      ensures geo.fatbase + i / 512 < |disk| && InFat(geo, geo.fatbase + i / 512)
      ensures !InMirror(geo, geo.fatbase + i / 512)
    {
    }

    method GetFat12(clst: nat) returns (r: nat)
      requires Valid() && geo.fsType.Fat12? && 2 <= clst < geo.nFatent
      modifies `disk, `wflag, `winsect, win
      ensures Valid() && Logical() == old(Logical()) && InFat(geo, winsect) && (wflag ==> old(wflag))
      ensures r == Fat()[clst]
    {
      hide Logical, Bytes, FatByte;
      var bc := clst + clst / 2;
      EntryOffsetMonotone(Fat12, clst, geo.nFatent - 1);
      FatSector(bc);
      MoveWindow(geo.fatbase + bc / 512);
      WindowByte(bc);
      var lo := win[bc % 512];
      bc := bc + 1;
      FatSector(bc);
      MoveWindow(geo.fatbase + bc / 512);
      WindowByte(bc);
      var wc := LoadWord(lo, win[bc % 512]);
      r := if clst % 2 == 1 then wc / 16 else wc % 4096;
    }

    /** The bytes of the FAT from a window position on. */
    lemma WindowBytes(o: nat, w: nat)
      requires Valid() && winsect == geo.fatbase + o / 512
      requires o % 512 + w <= 512 && o + w <= geo.fsize * 512
      ensures win[o % 512..o % 512 + w] == Bytes()[o..o + w]
    {
      var p := o % 512;
      var shown, stored := win[p..p + w], Bytes()[o..o + w];
      forall j | 0 <= j < w ensures shown[j] == stored[j] {
        WindowByte(o + j);
      }
    }

    method GetFat16(clst: nat) returns (r: nat)
      requires Valid() && geo.fsType.Fat16? && 2 <= clst < geo.nFatent
      modifies `disk, `wflag, `winsect, win
      ensures Valid() && Logical() == old(Logical()) && InFat(geo, winsect) && (wflag ==> old(wflag))
      ensures r == Fat()[clst]
    {
      hide Logical, Bytes, FatByte;
      PackedEntry(clst);
      FatSector(2 * clst);
      MoveWindow(geo.fatbase + clst / 256);
      Shown16(clst);
      var p := 2 * clst % 512;
      r := LoadWord(win[p], win[p + 1]);
    }

    lemma Shown16(clst: nat)
      requires Valid() && geo.fsType.Fat16? && clst < geo.nFatent
      requires winsect == geo.fatbase + 2 * clst / 512 && 2 * clst % 512 + 2 <= 512
      ensures var p := 2 * clst % 512; LoadWord(win[p], win[p + 1]) == Fat()[clst]
    {
      hide FatBytes, FatByte, Entry, Logical, WellSized, Mirrored;
      WindowBytes(2 * clst, 2);
      var p := 2 * clst % 512;
      var e := win[p..p + 2];
      assert e[0] == win[p] && e[1] == win[p + 1];
      EntryFromBytes(geo.fsType, Bytes(), clst, e);
    }

    method GetFat32(clst: nat) returns (r: nat)
      requires Valid() && geo.fsType.Fat32? && 2 <= clst < geo.nFatent
      modifies `disk, `wflag, `winsect, win
      ensures Valid() && Logical() == old(Logical()) && InFat(geo, winsect) && (wflag ==> old(wflag))
      ensures r == Fat()[clst]
    {
      hide Logical, Bytes, FatByte;
      PackedEntry(clst);
      FatSector(4 * clst);
      MoveWindow(geo.fatbase + clst / 128);
      Shown32(clst);
      var p := 4 * clst % 512;
      r := LoadDword(win[p], win[p + 1], win[p + 2], win[p + 3]) % 0x1000_0000;
    }

    lemma Shown32(clst: nat)
      requires Valid() && geo.fsType.Fat32? && clst < geo.nFatent
      requires winsect == geo.fatbase + 4 * clst / 512 && 4 * clst % 512 + 4 <= 512
      ensures var p := 4 * clst % 512;
              LoadDword(win[p], win[p + 1], win[p + 2], win[p + 3]) % 0x1000_0000 == Fat()[clst]
    {
      hide FatBytes, FatByte, Entry, Logical, WellSized, Mirrored;
      WindowBytes(4 * clst, 4);
      var p := 4 * clst % 512;
      var e := win[p..p + 4];
      assert e[0] == win[p] && e[1] == win[p + 1] && e[2] == win[p + 2] && e[3] == win[p + 3];
      EntryFromBytes(geo.fsType, Bytes(), clst, e);
    }

    /** Read an entry: 1 when the cluster number is out of range. */
    method GetFat(clst: nat) returns (r: nat)
      requires Valid()
      modifies `disk, `wflag, `winsect, win
      ensures Valid() && Logical() == old(Logical()) && Fat() == old(Fat())
      ensures r == if 2 <= clst < geo.nFatent then Fat()[clst] else 1
      ensures if 2 <= clst < geo.nFatent then InFat(geo, winsect) else winsect == old(winsect)
      ensures Careful() && (wflag ==> old(wflag))
    {
      hide Valid, Logical, Bytes, Fat, Reserved, InFat;
      if clst < 2 || clst >= geo.nFatent {
        return 1;
      }
      match geo.fsType {
        case Fat12 => r := GetFat12(clst);
        case Fat16 => r := GetFat16(clst);
        case Fat32 => r := GetFat32(clst);
      }
      SameSeen();
    }

    twostate lemma SameSeen()
      requires old(Valid()) && Valid() && Logical() == old(Logical())
      ensures Bytes() == old(Bytes()) && Fat() == old(Fat()) && Reserved() == old(Reserved())
    {
      hide Logical, FatBytes, Entries, Nibbles, Mirrored, WellSized;
    }

    /** The table after put_fat has rewritten the bytes `fb` of the FAT. */
    lemma Rewritten(fb: seq<Byte>, clst: nat, val: nat)
      requires Valid() && clst < geo.nFatent && |fb| == |Bytes()|
      requires EntryOffset(geo.fsType, clst) + EntryWidth(geo.fsType) <= |fb|
      requires Bytes() == Updated(geo.fsType, fb, clst, val)
      ensures EntryOffset(geo.fsType, geo.nFatent - 1) + EntryWidth(geo.fsType) <= |fb|
      ensures Fat() == Entries(geo.fsType, fb, geo.nFatent)[clst := Kept(geo.fsType, val)]
      ensures val < TWO28 ==> Reserved() == Nibbles(geo.fsType, fb, geo.nFatent)
    {
      hide Logical, FatBytes, Entries, Nibbles, Mirrored, WellSized, Updated, Kept, EntryOffset, EntryWidth;
      FatAfter(geo.fsType, fb, geo.nFatent, clst, val);
      if val < TWO28 { NibblesKept(geo.fsType, fb, geo.nFatent, clst, val); }
    }

    /** The table after the bytes of one entry have been rewritten. */
    lemma FatAfter(t: FatType, fb: seq<Byte>, n: nat, clst: nat, val: nat)
      requires 0 < n && EntryOffset(t, n - 1) + EntryWidth(t) <= |fb| && clst < n
      ensures EntryOffset(t, clst) + EntryWidth(t) <= |fb|
      ensures Entries(t, Updated(t, fb, clst, val), n) == Entries(t, fb, n)[clst := Kept(t, val)]
    {
      EntryOffsetMonotone(t, clst, n - 1);
      var before, after := Entries(t, fb, n), Entries(t, Updated(t, fb, clst, val), n);
      forall d | 0 <= d < n ensures after[d] == before[clst := Kept(t, val)][d] {
        UpdateIsMapUpdate(t, fb, clst, val, d);
      }
    }

    method PutFat12(clst: nat, val: nat)
      requires Valid() && geo.fsType.Fat12? && EntryOffset(Fat12, clst) + 2 <= geo.fsize * 512
      modifies `disk, `wflag, `winsect, win
      ensures Valid() && wflag && InFat(geo, winsect)
      ensures Bytes() == Updated(Fat12, old(Bytes()), clst, val)
      ensures SameOutsideFat(geo, Logical(), old(Logical()))
    {
      hide Logical, Bytes, Fat;
      var bc := clst + clst / 2;
      FatSector(bc);
      MoveWindow(geo.fatbase + bc / 512);
      WindowByte(bc);
      Store(bc % 512, Low12(clst, win[bc % 512], val), bc);
      bc := bc + 1;
      FatSector(bc);
      MoveWindow(geo.fatbase + bc / 512);
      WindowByte(bc);
      Store(bc % 512, High12(clst, win[bc % 512], val), bc);
    }

    /** Store two neighbouring bytes at the window position of byte `o` of the FAT. */
    method StorePair(p: nat, b0: Byte, b1: Byte, ghost o: nat)
      requires Valid() && o + 2 <= geo.fsize * 512
      requires winsect == geo.fatbase + o / 512 && p == o % 512 && p + 2 <= 512
      modifies `wflag, win
      ensures Valid() && wflag
      ensures Bytes() == old(Bytes())[o := b0][o + 1 := b1]
      ensures SameOutsideFat(geo, Logical(), old(Logical()))
    {
      hide Logical, Bytes, Fat;
      Store(p, b0, o);
      Store(p + 1, b1, o + 1);
    }

    method PutFat16(clst: nat, val: nat)
      requires Valid() && geo.fsType.Fat16? && 2 * clst + 2 <= geo.fsize * 512
      modifies `disk, `wflag, `winsect, win
      ensures Valid() && wflag && InFat(geo, winsect)
      ensures Bytes() == Updated(Fat16, old(Bytes()), clst, val)
      ensures SameOutsideFat(geo, Logical(), old(Logical()))
    {
      hide Logical, Bytes, Fat;
      PackedEntry(clst);
      FatSector(2 * clst);
      MoveWindow(geo.fatbase + clst / 256);
      StorePair(2 * clst % 512, val % 256, val / 256 % 256, 2 * clst);
    }

    /** ST_DWORD of `val` or-ed with the reserved nibble found there. */
    method StoreDword(p: nat, val: nat, ghost o: nat)
      requires Valid() && o + 4 <= geo.fsize * 512
      requires winsect == geo.fatbase + o / 512 && p == o % 512 && p + 4 <= 512
      modifies `wflag, win
      ensures Valid() && wflag
      ensures var fb := old(Bytes());
              Bytes() == fb[o := val % 256][o + 1 := val / 256 % 256][o + 2 := val / 0x1_0000 % 256]
                [o + 3 := High32(fb[o + 3], val)]
      ensures SameOutsideFat(geo, Logical(), old(Logical()))
    {
      hide Logical, Bytes, Fat;
      WindowByte(o + 3);
      var top := High32(win[p + 3], val);
      StorePair(p, val % 256, val / 256 % 256, o);
      StorePair(p + 2, val / 0x1_0000 % 256, top, o + 2);
    }

    method PutFat32(clst: nat, val: nat)
      requires Valid() && geo.fsType.Fat32? && 4 * clst + 4 <= geo.fsize * 512
      modifies `disk, `wflag, `winsect, win
      ensures Valid() && wflag && InFat(geo, winsect)
      ensures Bytes() == Updated(Fat32, old(Bytes()), clst, val)
      ensures SameOutsideFat(geo, Logical(), old(Logical()))
    {
      hide Logical, Bytes, Fat;
      PackedEntry(clst);
      FatSector(4 * clst);
      MoveWindow(geo.fatbase + clst / 128);
      StoreDword(4 * clst % 512, val, 4 * clst);
    }

    /**
     Change an entry: a map update of the table, whatever bytes and sectors it shares
     with its neighbours. Nothing outside the FAT copies changes.
     */
    method PutFat(clst: nat, val: nat) returns (res: FResult)
      requires Valid()
      modifies `disk, `wflag, `winsect, win
      ensures Valid()
      ensures 2 <= clst < geo.nFatent ==> res == Ok && Fat() == old(Fat())[clst := Kept(geo.fsType, val)]
      ensures 2 <= clst < geo.nFatent ==> InFat(geo, winsect) && SameOutsideFat(geo, Logical(), old(Logical()))
      ensures !(2 <= clst < geo.nFatent) ==> res == IntErr && Logical() == old(Logical()) && winsect == old(winsect)
      ensures val < TWO28 ==> Careful()
    {
      hide Valid, Logical, Bytes, Updated, Kept, InFat, Entries, Nibbles;
      if clst < 2 || clst >= geo.nFatent {
        return IntErr;
      }
      EntryInBytes(clst);
      ghost var fb := Bytes();
      match geo.fsType {
        case Fat12 => PutFat12(clst, val);
        case Fat16 => PutFat16(clst, val);
        case Fat32 => PutFat32(clst, val);
      }
      Rewritten(fb, clst, val);
      res := Ok;
    }

    lemma EntryInBytes(clst: nat)
      requires Valid() && clst < geo.nFatent
      ensures EntryOffset(geo.fsType, clst) + EntryWidth(geo.fsType) <= |Bytes()| == geo.fsize * 512
    {
      hide Logical, FatBytes, Mirrored, WellSized;
      EntryOffsetMonotone(geo.fsType, clst, geo.nFatent - 1);
    }

    /** The free count is unknown or right. */
    ghost predicate FreeExact()
      reads this, win
      requires Valid()
    {
      freeClust != UNKNOWN ==> freeClust == |FreeSet(Fat())|
    }

    /** Free one cluster in use and count it. */
    method FreeCluster(clst: nat)
      requires Valid() && IsCluster(Fat(), clst) && Fat()[clst] != 0
      modifies `disk, `wflag, `winsect, win, `freeClust, `fsiDirty
      ensures Valid() && InFat(geo, winsect)
      ensures Fat() == old(Fat())[clst := 0] && SameOutsideFat(geo, Logical(), old(Logical()))
      ensures Careful() && (old(FreeExact()) ==> FreeExact())
    {
      hide Valid, Logical, Bytes, Fat, Reserved;
      ghost var fat := Fat();
      FreeSetUpdate(fat, clst, 0);
      FreeSetBound(fat);
      GeometryFacts();
      var res := PutFat(clst, 0);
      assert Fat() == fat[clst := 0];
      if freeClust != UNKNOWN {
        freeClust := Add32(freeClust, 1);
        fsiDirty := true;
      }
    }

    /** One turn of the loop of remove_chain: the entry found, after freeing its cluster if it is in use. */
    method RemoveStep(clst: nat) returns (nxt: nat)
      requires Valid() && IsCluster(Fat(), clst)
      modifies `disk, `wflag, `winsect, win, `freeClust, `fsiDirty
      ensures Valid() && InFat(geo, winsect) && SameOutsideFat(geo, Logical(), old(Logical()))
      ensures nxt == old(Fat())[clst]
      ensures Fat() == if nxt < 2 then old(Fat()) else old(Fat())[clst := 0]
      ensures nxt >= 2 ==> |FreeSet(Fat())| == |FreeSet(old(Fat()))| + 1 <= geo.nFatent
      ensures Careful() && (old(FreeExact()) ==> FreeExact())
    {
      hide Valid, Logical, Bytes, Fat, Reserved;
      nxt := GetFat(clst);
      if nxt >= 2 {
        FreeSetUpdate(Fat(), clst, 0);
        FreeSetBound(Fat());
        FreeCluster(clst);
      }
    }

    /**
     Free every cluster reached from `start`. It ends on any table, cyclic ones included,
     and stops with an error exactly when it meets the reserved entry value 1.
     */
    method RemoveChain(start: nat) returns (res: FResult)
      requires Valid()
      modifies `disk, `wflag, `winsect, win, `freeClust, `fsiDirty
      ensures Valid() && SameOutsideFat(geo, Logical(), old(Logical()))
      ensures !IsCluster(old(Fat()), start) ==> res == IntErr && Logical() == old(Logical()) && winsect == old(winsect)
      ensures IsCluster(old(Fat()), start) ==> Fat() == Removed(old(Fat()), start) && InFat(geo, winsect)
      ensures IsCluster(old(Fat()), start) ==> res == if HitsReserved(old(Fat()), start) then IntErr else Ok
      ensures Careful() && (old(FreeExact()) ==> FreeExact())
    {
      hide Valid, Logical, Bytes, Fat, Reserved;
      if start < 2 || start >= geo.nFatent {
        return IntErr;
      }
      ghost var goal := Removed(Fat(), start);
      ghost var bad := HitsReserved(Fat(), start);
      var clst := start;
      res := Ok;
      while clst < geo.nFatent
        invariant Valid() && SameOutsideFat(geo, Logical(), old(Logical()))
        invariant 2 <= clst && Removed(Fat(), clst) == goal && HitsReserved(Fat(), clst) == bad
        invariant clst == start || InFat(geo, winsect)
        invariant Careful() && (old(FreeExact()) ==> FreeExact())
        decreases geo.nFatent - |FreeSet(Fat())|
      {
        ghost var fat := Fat();
        var nxt := RemoveStep(clst);
        if nxt == 0 {
          RemovedDone(fat, clst);
          return;
        }
        if nxt == 1 {
          RemovedDone(fat, clst);
          return IntErr;
        }
        RemovedStep(fat, clst);
        clst := nxt;
      }
      RemovedDone(Fat(), clst);
    }

    /** The scan of create_chain, once around the table from behind `scl`. */
    method FindFree(scl: nat) returns (ncl: nat)
      requires Valid() && 3 <= geo.nFatent && 1 <= scl < geo.nFatent
      modifies `disk, `wflag, `winsect, win
      ensures Valid() && Logical() == old(Logical()) && Fat() == old(Fat()) && InFat(geo, winsect)
      ensures Found(Fat(), scl, ncl)
      ensures Careful() && (wflag ==> old(wflag))
    {
      hide Valid, Logical, Bytes, Fat, Reserved;
      ghost var fat := Fat();
      ghost var wrapped := false;
      ncl := scl;
      while true
        invariant Valid() && Logical() == old(Logical()) && Fat() == fat && Careful() && (wflag ==> old(wflag))
        invariant if wrapped then 2 <= ncl < scl else scl <= ncl < geo.nFatent
        invariant ncl == scl || InFat(geo, winsect)
        invariant forall c :: scl < c < geo.nFatent && (wrapped || c <= ncl) ==> fat[c] >= 2
        invariant wrapped ==> forall c :: 2 <= c <= ncl ==> fat[c] >= 2
        decreases if wrapped then 0 else 1, if wrapped then scl - ncl else geo.nFatent - ncl
      {
        ncl := ncl + 1;
        if ncl >= geo.nFatent {
          ncl := 2;
          if ncl > scl {
            return 0;
          }
          wrapped := true;
        }
        var cs := GetFat(ncl);
        if cs == 0 {
          return;
        }
        if cs == 1 {
          assert FirstStop(fat, scl, ncl);
          return 1;
        }
        if ncl == scl {
          return 0;
        }
      }
    }

    /** Mark `ncl` the last cluster of a chain, and link it behind `last` unless that is 0. */
    method LinkCluster(last: nat, ncl: nat)
      requires Valid() && IsCluster(Fat(), ncl) && (last == 0 || IsCluster(Fat(), last))
      modifies `disk, `wflag, `winsect, win
      ensures Valid() && InFat(geo, winsect) && SameOutsideFat(geo, Logical(), old(Logical()))
      ensures Fat() == Linked(old(Fat()), last, ncl, Kept(geo.fsType, END_OF_CHAIN)) && Careful()
    {
      hide Valid, Logical, Bytes, Fat, Reserved;
      GeometryFacts();
      var res := PutFat(ncl, END_OF_CHAIN);
      if last != 0 {
        KeptSmall(geo.fsType, ncl);
        res := PutFat(last, ncl);
      }
    }

    /** The free count after one more cluster is in use. */
    lemma FreeAfterLink(fat: seq<nat>, last: nat, ncl: nat, mark: nat)
      requires IsCluster(fat, ncl) && fat[ncl] == 0 && mark != 0
      requires last == 0 || (IsCluster(fat, last) && fat[last] != 0)
      ensures |FreeSet(Linked(fat, last, ncl, mark))| == |FreeSet(fat)| - 1
    {
      FreeSetUpdate(fat, ncl, mark);
      if last != 0 { FreeSetUpdate(fat[ncl := mark], last, ncl); }
    }

    /** The second half of create_chain: find a free cluster from `scl` on, link and count it. */
    method Allocate(last: nat, scl: nat) returns (r: nat)
      requires Valid() && 3 <= geo.nFatent && 1 <= scl < geo.nFatent
      requires last == 0 || (IsCluster(Fat(), last) && Fat()[last] >= geo.nFatent)
      modifies `disk, `wflag, `winsect, win, `freeClust, `fsiDirty, `lastClust
      ensures Valid() && InFat(geo, winsect) && SameOutsideFat(geo, Logical(), old(Logical()))
      ensures Allocated(old(Fat()), last, Kept(geo.fsType, END_OF_CHAIN), r, Fat()) && Found(old(Fat()), scl, r)
      ensures r < 2 ==> Logical() == old(Logical()) && SameCounts() && (wflag ==> old(wflag))
      ensures r >= 2 ==> lastClust == r
      ensures Careful() && (old(FreeExact()) ==> FreeExact())
    {
      hide Valid, Logical, Bytes, Fat, Reserved;
      GeometryFacts();
      r := FindFree(scl);
      FoundMeans(Fat(), scl, r);
      if r < 2 {
        return;
      }
      FreeAfterLink(Fat(), last, r, Kept(geo.fsType, END_OF_CHAIN));
      FreeSetBound(Fat());
      LinkCluster(last, r);
      lastClust := r;
      if freeClust != UNKNOWN {
        freeClust := Sub32(freeClust, 1);
        fsiDirty := true;
      }
    }

    /** Where the search for a first cluster starts. */
    ghost function ScanStartFor(last: nat): nat {
      if last == 0 || last >= geo.nFatent then 1 else last
    }

    /**
     Stretch the chain that ends in `clst`, or start one when `clst` is 0. A `clst` that is not
     in use gives 1, one that is already followed gives its successor; else see `Allocated`.
     */
    method CreateChain(clst: nat) returns (r: nat)
      requires Valid()
      modifies `disk, `wflag, `winsect, win, `freeClust, `fsiDirty, `lastClust
      ensures Valid() && SameOutsideFat(geo, Logical(), old(Logical()))
      ensures clst != 0 && (!IsCluster(old(Fat()), clst) || old(Fat())[clst] < 2) ==> r == 1 && Fat() == old(Fat())
      ensures IsCluster(old(Fat()), clst) && IsCluster(old(Fat()), old(Fat())[clst]) ==>
                r == old(Fat())[clst] && Fat() == old(Fat()) && Logical() == old(Logical())
      ensures clst == 0 || (IsCluster(old(Fat()), clst) && old(Fat())[clst] >= geo.nFatent) ==>
                Allocated(old(Fat()), clst, Kept(geo.fsType, END_OF_CHAIN), r, Fat())
      ensures clst == 0 ==> Found(old(Fat()), ScanStartFor(old(lastClust)), r)
      ensures IsCluster(old(Fat()), clst) && old(Fat())[clst] >= geo.nFatent ==> Found(old(Fat()), clst, r)
      ensures r < 2 || (IsCluster(old(Fat()), clst) && IsCluster(old(Fat()), old(Fat())[clst])) ==>
                Logical() == old(Logical()) && SameCounts() && (wflag ==> old(wflag))
      ensures clst == 0 || IsCluster(old(Fat()), clst) ==> InFat(geo, winsect)
      ensures clst == 0 || (IsCluster(old(Fat()), clst) && old(Fat())[clst] >= geo.nFatent) ==> r < 2 || lastClust == r
      ensures Careful() && (old(FreeExact()) ==> FreeExact())
    {
      hide Valid, Logical, Bytes, Fat, Reserved, Allocated, Found;
      GeometryFacts();
      var scl;
      if clst == 0 {
        scl := lastClust;
        if scl == 0 || scl >= geo.nFatent {
          scl := 1;
        }
      } else {
        var cs := GetFat(clst);
        if cs < 2 {
          return 1;
        }
        if cs < geo.nFatent {
          return cs;
        }
        scl := clst;
      }
      r := Allocate(clst, scl);
    }

    /**
     Flush the window and, when the FSINFO sector is due, write the sector after the boot sector and
     no other. Behind a single reserved sector that is the first sector of the FAT: the table is then
     what `FsInfoOverTable` says, and a second FAT copy no longer agrees with it.
     */
    method SyncFs()
      requires Valid()
      modifies `disk, `wflag, `winsect, win, `fsiDirty
      ensures !wflag
      ensures !(old(fsiDirty) && fsiEnabled) ==>
                && Valid() && fsiDirty == old(fsiDirty) && winsect == old(winsect)
                && disk == Logical() == old(Logical()) && Fat() == old(Fat())
      ensures old(fsiDirty) && fsiEnabled ==>
                && !fsiDirty && winsect == geo.volbase + 1 < |old(Logical())|
                && disk == old(Logical())[geo.volbase + 1 := FsInfo(freeClust, lastClust)]
                && (geo.volbase + 1 < geo.fatbase ==> Valid() && disk == Logical() && Fat() == old(Fat()))
      ensures old(fsiDirty) && fsiEnabled && geo.volbase + 1 == geo.fatbase ==>
                && (Valid() <==>
                      geo.nFats == 1 || old(Logical())[geo.fatbase + geo.fsize] == FsInfo(freeClust, lastClust))
                && (Valid() ==> disk == Logical() && Fat() == TableOf(geo, disk))
    {
      hide FsInfo, Bytes;
      SyncWindow();
      if fsiEnabled && fsiDirty {
        WriteFsInfo(FsInfo(freeClust, lastClust));
        fsiDirty := false;
      }
    }

    method WriteFsInfo(sec: Sector)
      requires Valid() && !wflag && |sec| == 512
      modifies `disk, `winsect, win
      ensures winsect == geo.volbase + 1 < |old(disk)| && disk == old(disk)[geo.volbase + 1 := sec]
      ensures geo.volbase + 1 < geo.fatbase ==> Valid() && disk == Logical() && Fat() == old(Fat())
      ensures geo.volbase + 1 == geo.fatbase ==>
                && (Valid() <==> geo.nFats == 1 || old(disk)[geo.fatbase + geo.fsize] == sec)
                && (Valid() ==> disk == Logical() && Fat() == TableOf(geo, disk))
    {
      hide FatBytes, Entries, FatByte, Mirrored, EntryOffset, EntryWidth, Overlay, WellSized;
      assert |disk[geo.volbase + 1]| == 512 by { SizeOf(geo, disk, geo.volbase + 1); }
      if geo.volbase + 1 < geo.fatbase {
        FatUntouched(geo, disk, geo.volbase + 1, sec);
      } else {
        StampedMirror(geo, disk, sec);
      }
      FillWindow(sec);
      winsect := geo.volbase + 1;
      disk := disk[winsect := win[..]];
    }

    /** Overwrite the window, as mem_set and the stores after it do. */
    method FillWindow(sec: Sector)
      requires |sec| == win.Length
      modifies win
      ensures win[..] == sec
    {
      var i := 0;
      while i < win.Length
        invariant i <= win.Length && win[..i] == sec[..i]
      {
        win[i] := sec[i];
        i := i + 1;
      }
    }

    /** `n` free clusters lie before the first reserved entry; they are all there are exactly when none is behind it. */
    ghost predicate Partial(fat: seq<nat>, n: nat)
      requires 2 <= |fat|
    {
      exists r: nat :: FirstReserved(fat, r) && n + Zero(fat[0]) + Zero(fat[1]) == ZeroCount(fat, r)
    }

    lemma PartialExact(fat: seq<nat>, n: nat)
      requires 2 <= |fat| && Partial(fat, n)
      ensures n <= |FreeSet(fat)| <= |fat| - 2
      ensures n == |FreeSet(fat)| <==> forall r: nat :: FirstReserved(fat, r) ==> NoneFreeFrom(fat, r)
    {
      var r: nat :| FirstReserved(fat, r) && n + Zero(fat[0]) + Zero(fat[1]) == ZeroCount(fat, r);
      forall q: nat | FirstReserved(fat, q) ensures q == r {
        FirstReservedUnique(fat, q, r);
      }
      PartialCount(fat, r, |fat|);
      ZeroCountIsFree(fat);
      FreeSetBound(fat);
    }

    /** Count free clusters through get_fat, as f_getfree does on FAT12. */
    method CountEntries() returns (res: FResult, n: nat)
      requires Valid()
      modifies `disk, `wflag, `winsect, win
      ensures Valid() && Logical() == old(Logical()) && Fat() == old(Fat())
      ensures res == if HasReserved(Fat()) then IntErr else Ok
      ensures res == Ok ==> n == |FreeSet(Fat())|
      ensures res == IntErr ==> Partial(Fat(), n)
    {
      hide Valid, Logical, Bytes, Fat;
      GeometryFacts();
      ghost var fat := Fat();
      n := 0;
      res := Ok;
      var clst := 2;
      ZeroCountBelow(fat, 2);
      while clst < geo.nFatent
        invariant Valid() && Logical() == old(Logical()) && Fat() == fat && res == Ok
        invariant 2 <= clst <= geo.nFatent
        invariant n + Zero(fat[0]) + Zero(fat[1]) == ZeroCount(fat, clst)
        invariant forall c :: 2 <= c < clst ==> fat[c] != 1
      {
        var stat := GetFat(clst);
        if stat == 1 {
          assert FirstReserved(fat, clst);
          res := IntErr;
          return;
        }
        if stat == 0 {
          n := n + 1;
        }
        clst := clst + 1;
      }
      ZeroCountIsFree(fat);
    }

    /** The raw scan of f_getfree on FAT16 and FAT32: every entry from 0 on, sector by sector. */
    method CountRaw() returns (n: nat)
      requires Valid() && !geo.fsType.Fat12?
      modifies `disk, `wflag, `winsect, win
      ensures Valid() && Logical() == old(Logical()) && Fat() == old(Fat())
      ensures n == |FreeSet(Fat())| + Zero(Fat()[0]) + Zero(Fat()[1])
    {
      hide Valid, Logical, Bytes, Fat, ScanAt, LoadWord, LoadDword, InFat, InMirror;
      GeometryFacts();
      ghost var fat := Fat();
      n := 0;
      var clst, sect, i: nat, p: nat := geo.nFatent, geo.fatbase, 0, 0;
      ghost var k := 0;
      ScanStart();
      while clst > 0
        invariant Valid() && Logical() == old(Logical()) && Fat() == fat
        invariant k == geo.nFatent - clst <= geo.nFatent && n == ZeroCount(fat, k)
        invariant ScanAt(k, sect, i, p)
      {
        if i == 0 {
          ScanSector(k, sect, p);
          MoveWindow(sect);
          ScanLoaded(k, sect);
          sect, p, i := sect + 1, 0, 512;
        }
        ScanEntry(k, sect, i, p);
        if geo.fsType.Fat16? {
          if LoadWord(win[p], win[p + 1]) == 0 {
            n := n + 1;
          }
          p, i := p + 2, i - 2;
        } else {
          if LoadDword(win[p], win[p + 1], win[p + 2], win[p + 3]) % 0x1000_0000 == 0 {
            n := n + 1;
          }
          p, i := p + 4, i - 4;
        }
        clst := clst - 1;
        k := k + 1;
      }
      ZeroCountIsFree(fat);
    }

    /** Where the raw scan stands after `k` entries: `i` bytes of the window are left, from `p` on. */
    ghost predicate ScanAt(k: nat, sect: nat, i: nat, p: nat)
      reads `winsect
    {
      var o := EntryWidth(geo.fsType) * k;
      if i == 0 then o % 512 == 0 && sect == geo.fatbase + o / 512
      else i == 512 - p && p == o % 512 && winsect == geo.fatbase + o / 512 && sect == winsect + 1
    }

    lemma ScanStart()
      ensures ScanAt(0, geo.fatbase, 0, 0)
    {}

    /** At a sector boundary the next sector can be brought in. */
    lemma ScanSector(k: nat, sect: nat, p: nat)
      requires Valid() && !geo.fsType.Fat12? && k < geo.nFatent && ScanAt(k, sect, 0, p)
      ensures sect < |disk| && !InMirror(geo, sect) && ScanDue(k, sect)
    {
      FatSector(EntryWidth(geo.fsType) * k);
    }

    ghost predicate ScanDue(k: nat, sect: nat) {
      var o := EntryWidth(geo.fsType) * k;
      o % 512 == 0 && sect == geo.fatbase + o / 512
    }

    lemma ScanLoaded(k: nat, sect: nat)
      requires ScanDue(k, sect) && winsect == sect
      ensures ScanAt(k, sect + 1, 512, 0)
    {}

    lemma ScanEntry(k: nat, sect: nat, i: nat, p: nat)
      requires Valid() && !geo.fsType.Fat12? && k < geo.nFatent && i > 0 && ScanAt(k, sect, i, p)
      ensures p + EntryWidth(geo.fsType) <= 512 == win.Length
      ensures Fat()[k] == if geo.fsType.Fat16? then LoadWord(win[p], win[p + 1])
                          else LoadDword(win[p], win[p + 1], win[p + 2], win[p + 3]) % 0x1000_0000
      ensures ScanAt(k + 1, sect, i - EntryWidth(geo.fsType), p + EntryWidth(geo.fsType))
    {
      PackedEntry(k);
      if geo.fsType.Fat16? {
        Shown16(k);
        ScanNext(2, k);
      } else {
        Shown32(k);
        ScanNext(4, k);
      }
    }

    lemma ScanNext(w: nat, k: nat)
      requires w == 2 || w == 4
      ensures w * k % 512 + w < 512 ==> w * (k + 1) % 512 == w * k % 512 + w && w * (k + 1) / 512 == w * k / 512
      ensures w * k % 512 + w == 512 ==> w * (k + 1) % 512 == 0 && w * (k + 1) / 512 == w * k / 512 + 1
    {
      var o := w * k;
      assert w * (k + 1) == o + w;
      if o % 512 + w < 512 {
        ModUnique(o + w, 512, o / 512, o % 512 + w);
      } else if o % 512 + w == 512 {
        ModUnique(o + w, 512, o / 512 + 1, 0);
      }
    }

    /**
     f_getfree: a known count is returned as it is. A scan gives the free clusters exactly on FAT12;
     on FAT16 and FAT32 it also counts entries 0 and 1 when they are zero. A scan that fails at a
     reserved entry leaves the count so far, which is exact only if no free cluster is behind it.
     */
    method GetFree() returns (res: FResult, n: nat)
      requires Valid()
      modifies `disk, `wflag, `winsect, win, `freeClust, `fsiDirty
      ensures Valid() && Logical() == old(Logical()) && Fat() == old(Fat())
      ensures old(freeClust) <= geo.nFatent - 2 ==> res == Ok && n == old(freeClust) == freeClust
      ensures old(freeClust) > geo.nFatent - 2 ==>
                && (res == Ok <==> !(geo.fsType.Fat12? && HasReserved(Fat())))
                && (res == Ok ==> n == freeClust == |FreeSet(Fat())| + Extra(geo.fsType, Fat()))
                && (res == Ok ==> (FreeExact() <==> Extra(geo.fsType, Fat()) == 0))
                && (res != Ok ==> res == IntErr && n == freeClust && Partial(Fat(), n))
                && (res != Ok ==> (FreeExact() <==> forall r: nat :: FirstReserved(Fat(), r) ==>
                  NoneFreeFrom(Fat(), r)))
      ensures old(freeClust) <= geo.nFatent - 2 ==> (FreeExact() <==> old(FreeExact())) && fsiDirty == old(fsiDirty)
      ensures Reserved() == old(Reserved()) && (old(freeClust) > geo.nFatent - 2 ==> fsiDirty)
    {
      hide Valid, Logical, Bytes, Fat, Reserved, Partial, FreeSet, HasReserved;
      GeometryFacts();
      FreeSetBound(Fat());
      if freeClust <= geo.nFatent - 2 {
        return Ok, freeClust;
      }
      if geo.fsType.Fat12? {
        res, n := CountEntries();
      } else {
        res := Ok;
        n := CountRaw();
      }
      SameSeen();
      freeClust := n;
      fsiDirty := true;
      if res != Ok {
        PartialExact(Fat(), n);
      }
    }

    /** disk_write of file data: sectors of the data area that are not in the window. */
    method DiskWrite(data: seq<Byte>, sect: nat, cc: nat)
      requires Valid() && geo.database <= sect && sect + cc <= |disk| && cc * 512 <= |data|
      requires !(sect <= winsect < sect + cc)
      modifies `disk
      ensures Valid() && Fat() == old(Fat()) && |disk| == old(|disk|) && Careful()
      ensures Logical() == WriteRun(old(Logical()), sect, cc, data)
    {
      hide Valid, Logical, Bytes, Fat, Reserved;
      ghost var img := Logical();
      var i := 0;
      while i < cc
        invariant i <= cc && Valid() && |disk| == old(|disk|) && Fat() == old(Fat()) && Careful()
        invariant Logical() == WriteRun(img, sect, i, data)
      {
        WriteSector(data[i * 512..(i + 1) * 512], sect + i);
        i := i + 1;
      }
    }

    method WriteSector(sec: Sector, s: nat)
      requires Valid() && geo.database <= s < |disk| && s != winsect && |sec| == 512
      modifies `disk
      ensures Valid() && Fat() == old(Fat()) && |disk| == old(|disk|) && Careful()
      ensures Logical() == old(Logical())[s := sec]
    {
      hide Nibbles, FatBytes, Entries, FatByte, Entry, Overlay, EntryOffset, EntryWidth;
      FatUntouched(geo, Logical(), s, sec);
      OverlayOther(geo, disk, winsect, win[..], s, sec);
      disk := disk[s := sec];
    }

    /** disk_read of file data. */
    method DiskRead(sect: nat, cc: nat) returns (data: seq<Byte>)
      requires Valid() && geo.database <= sect && sect + cc <= |disk|
      requires !(sect <= winsect < sect + cc)
      ensures data == ReadRun(Logical(), sect, cc)
    {
      data := [];
      var i := 0;
      while i < cc
        invariant i <= cc && data == ReadRun(Logical(), sect, i)
      {
        data := data + disk[sect + i];
        i := i + 1;
      }
    }
  }
}
