/**
 What f_mkfs writes to the medium, and what a mount finds there: the volume, an allocation
 table without chains but that of the root directory, and the right free count.
 */
module FatNewVolume {
  import opened FatLayout
  import opened FatChains
  import opened FatDirectory
  import opened FatMount
  import opened Options
  import opened FatFormat
  import opened FatFormatSpec
  import Spec = FatMountSpec
  import Volumes = FatVolume

  /** The allocation unit for a volume size when the caller leaves it open. */
  function AutoUnit(vs: nat, i: nat): (au: nat)
    requires i <= 10
    decreases 10 - i
  {
    var vst := [1024, 512, 256, 128, 64, 32, 16, 8, 4, 2, 0];
    var cst := [32768, 16384, 8192, 4096, 2048, 16384, 8192, 4096, 2048, 1024, 512];
    if i < 10 && vs < vst[i] then AutoUnit(vs, i + 1) else cst[i]
  }

  /** Sectors per cluster for the unit in bytes that the caller asks for; none: not a power of two. */
  function UnitOf(nVol: nat, au: nat): Option<nat> {
    if au != 0 && !OneBit(au, 32) then None
    else
      var unit := (if au == 0 then AutoUnit(nVol / 2000, 0) else au) / 512;
      Some(if unit == 0 then 1 else if unit > 128 then 128 else unit)
  }

  lemma {:induction false} AutoUnitIsPower(vs: nat, i: nat)
    requires i <= 10
    ensures IsClusterSize(AutoUnit(vs, i) / 512)
    decreases 10 - i
  {
    if i < 10 { AutoUnitIsPower(vs, i + 1); }
  }

  lemma {:induction false} PowerDivided(c: nat, k: nat)
    requires PowerOfTwo(c)
    ensures 0 < Pow2(k) && (c / Pow2(k) == 0 || PowerOfTwo(c / Pow2(k)))
    decreases k
  {
    if k == 0 {
      assert c / 1 == c;
    } else {
      PowerDivided(c, k - 1);
      var d := c / Pow2(k - 1);
      DivTwice(c, Pow2(k - 1));
      assert d == 1 ==> d / 2 == 0;
    }
  }

  lemma DivTwice(c: nat, d: nat)
    requires 0 < d
    ensures c / (2 * d) == c / d / 2
  {
    var m := c / d;
    var q := m / 2;
    assert c == d * m + c % d;
    if m % 2 == 0 {
      assert d * m == 2 * d * q by { assert m == 2 * q; }
      ModUnique(c, 2 * d, q, c % d);
    } else {
      assert d * m == 2 * d * q + d by { assert m == 2 * q + 1; }
      ModUnique(c, 2 * d, q, d + c % d);
    }
  }

  /** Whatever the caller asks for, the unit is a cluster size of the format. */
  lemma UnitIsClusterSize(nVol: nat, au: nat)
    requires au < TWO32 && UnitOf(nVol, au).Some?
    ensures IsClusterSize(UnitOf(nVol, au).value)
  {
    hide And, AutoUnit;
    if au == 0 {
      AutoUnitIsPower(nVol / 2000, 0);
    } else {
      Pow2At32();
      OneBitIsPower(au, 32);
      PowerDivided(au, 9);
      assert Pow2(9) == 512 by { assert Pow2(4) == 16; }
      if au / 512 < 256 { PowerIsClusterSize(au / 512); }
    }
  }

  /** Sectors per cluster that a volume gets when the caller leaves it open, by its size. */
  lemma AutoUnitIs(nVol: nat)
    ensures UnitOf(nVol, 0) == Some(
              if nVol < 4_000 then 1 else if nVol < 8_000 then 2 else if nVol < 16_000 then 4
              else if nVol < 32_000 then 8 else if nVol < 64_000 then 16 else if nVol < 128_000 then 32
              else if nVol < 256_000 then 4 else if nVol < 512_000 then 8 else if nVol < 1_024_000 then 16
              else if nVol < 2_048_000 then 32 else 64)
  {
    var vs := nVol / 2000;
    assert vs < 8 ==> AutoUnit(vs, 7) == if vs >= 4 then 2048 else if vs >= 2 then 1024 else 512;
    assert vs < 64 ==> AutoUnit(vs, 4) == if vs >= 32 then 16384 else if vs >= 16 then 8192 else AutoUnit(vs, 7);
  }

  /** A unit that is asked for is refused exactly if it is no power of two, and else kept within one and 128 sectors. */
  lemma AskedUnitIs(nVol: nat, au: nat)
    requires 0 < au < TWO32
    ensures UnitOf(nVol, au) == if !PowerOfTwo(au) then None
                                else Some(if au < 512 then 1 else if au > 65_536 then 128 else au / 512)
  {
    hide And, OneBit, PowerOfTwo;
    Pow2At32();
    OneBitIsPower(au, 32);
  }

  const JUMP_AND_NAME: seq<Byte> := [0xEB, 0xFE, 0x90, 0x4D, 0x53, 0x44, 0x4F, 0x53, 0x35, 0x2E, 0x30]
  /** "NO NAME    " and the name of the file system type. */
  const LABEL_FAT: seq<Byte> :=
    [0x4E, 0x4F, 0x20, 0x4E, 0x41, 0x4D, 0x45, 0x20, 0x20, 0x20, 0x20, 0x46, 0x41, 0x54, 0x20, 0x20, 0x20, 0x20, 0x20]
  const LABEL_FAT32: seq<Byte> :=
    [0x4E, 0x4F, 0x20, 0x4E, 0x41, 0x4D, 0x45, 0x20, 0x20, 0x20, 0x20, 0x46, 0x41, 0x54, 0x33, 0x32, 0x20, 0x20, 0x20]

  /** The bytes of the boot sector up to those that depend on the sub-type. */
  function CommonByte(l: Layout, md: Byte, i: nat): Byte {
    if i < 11 then JUMP_AND_NAME[i]
    else if i < 13 then ByteOf(512, i - 11)
    else if i == 13 then l.au % 256
    else if i < 16 then ByteOf(l.nRsv, i - 14)
    else if i == 16 then 1
    else if i < 19 then ByteOf(if l.fsType.Fat32? then 0 else 512, i - 17)
    else if i < 21 then ByteOf(if l.nVol < 0x1_0000 then l.nVol else 0, i - 19)
    else if i == 21 then md
    else if i < 24 then ByteOf(if l.fsType.Fat32? then 0 else l.nFat, i - 22)
    else if i < 26 then ByteOf(63, i - 24)
    else if i < 28 then ByteOf(255, i - 26)
    else if i < 32 then ByteOf(l.bVol, i - 28)
    else if i < 36 then ByteOf(if l.nVol < 0x1_0000 then 0 else l.nVol, i - 32)
    else 0
  }

  function SmallByte(serial: nat, i: nat): Byte {
    if i == 36 then 0x80
    else if i == 38 then 0x29
    else if 39 <= i < 43 then ByteOf(serial, i - 39)
    else if 43 <= i < 62 then LABEL_FAT[i - 43]
    else 0
  }

  function LargeByte(l: Layout, serial: nat, i: nat): Byte {
    if 36 <= i < 40 then ByteOf(l.nFat, i - 36)
    else if 44 <= i < 48 then ByteOf(2, i - 44)
    else if 48 <= i < 50 then ByteOf(1, i - 48)
    else if 50 <= i < 52 then ByteOf(6, i - 50)
    else if i == 64 then 0x80
    else if i == 66 then 0x29
    else if 67 <= i < 71 then ByteOf(serial, i - 67)
    else if 71 <= i < 90 then LABEL_FAT32[i - 71]
    else 0
  }

  function BootByte(l: Layout, md: Byte, serial: nat, i: nat): Byte {
    if i < 36 then CommonByte(l, md, i)
    else if i >= 510 then ByteOf(0xAA55, i - 510)
    else if l.fsType.Fat32? then LargeByte(l, serial, i)
    else SmallByte(serial, i)
  }

  /** The boot sector f_mkfs writes. */
  function BootSector(l: Layout, md: Byte, serial: nat): (sec: Sector)
    ensures |sec| == 512
    ensures forall i :: 0 <= i < 512 ==> sec[i] == BootByte(l, md, serial, i)
  {
    seq(512, i requires 0 <= i < 512 => BootByte(l, md, serial, i))
  }

  /** Field values that fit their fields. */
  predicate Stored(l: Layout) {
    && l.au < 256 && l.nRsv < 0x1_0000 && l.nVol < TWO32 && l.bVol < TWO32
    && (if l.fsType.Fat32? then l.nFat < TWO32 else 0 < l.nFat < 0x1_0000)
  }

  /** The mount reads back what f_mkfs stored. */
  lemma BootSectorReadsBack(l: Layout, md: Byte, serial: nat, bsect: nat)
    requires Stored(l)
    ensures Analyze(ReadBpb(BootSector(l, md, serial)), bsect) == Analyze(BpbOf(l), bsect)
    ensures CheckFs(BootSector(l, md, serial)) == 0
  {
    hide ByteOf, Accepts, LoadWord, LoadDword;
    CommonBack(l, md, serial);
    if l.fsType.Fat32? {
      LargeBack(l, md, serial);
    }
    var a, b := ReadBpb(BootSector(l, md, serial)), BpbOf(l);
    SameAnalysis(a, b, bsect);
    HasSignature(l, md, serial);
  }

  /** The fields of the boot sector, at the offsets of the format. */
  lemma BootFields(l: Layout, md: Byte, serial: nat)
    requires Stored(l) && serial < TWO32
    ensures var s, big := BootSector(l, md, serial), l.fsType.Fat32?;
            && Spec.Little(s, 11, 2) == 512 && s[13] == l.au && Spec.Little(s, 14, 2) == l.nRsv && s[16] == 1
            && Spec.Little(s, 17, 2) == (if big then 0 else 512) && s[21] == md && Spec.Little(s, 24, 2) == 63
            && Spec.Little(s, 26, 2) == 255 && Spec.Little(s, 28, 4) == l.bVol && Spec.VolumeSectors(s) == l.nVol
            && Spec.TableSectors(s) == l.nFat && Spec.Little(s, if big then 67 else 39, 4) == serial
            && s[if big then 64 else 36] == 0x80 && s[if big then 66 else 38] == 0x29
            && (big ==> Spec.Little(s, 44, 4) == 2 && Spec.Little(s, 48, 2) == 1 && Spec.Little(s, 50, 2) == 6)
  {
    hide ByteOf, LoadWord, LoadDword, BootSector, Spec.Little, JUMP_AND_NAME, LABEL_FAT, LABEL_FAT32, Word, Dword;
    var s, big := BootSector(l, md, serial), l.fsType.Fat32?;
    CommonBack(l, md, serial);
    if big { LargeBack(l, md, serial); }
    Spec.FieldsAre(s);
    StoredWord(s, 24, 63);
    StoredWord(s, 26, 255);
    StoredDword(s, 28, l.bVol);
    StoredDword(s, if big then 67 else 39, serial);
    if big { StoredWord(s, 50, 6); }
  }

  lemma StoredWord(sec: Sector, o: nat, v: nat)
    requires o + 2 <= |sec| && v < 0x1_0000 && sec[o] == ByteOf(v, 0) && sec[o + 1] == ByteOf(v, 1)
    ensures Spec.Little(sec, o, 2) == v
  {
    hide ByteOf;
    WordBack(v);
    Spec.WordIs(sec, o);
  }

  lemma StoredDword(sec: Sector, o: nat, v: nat)
    requires o + 4 <= |sec| && v < TWO32 && sec[o] == ByteOf(v, 0) && sec[o + 1] == ByteOf(v, 1)
    requires sec[o + 2] == ByteOf(v, 2) && sec[o + 3] == ByteOf(v, 3)
    ensures Spec.Little(sec, o, 4) == v
  {
    hide ByteOf;
    DwordBack(v);
    Spec.DwordIs(sec, o);
  }

  lemma CommonBack(l: Layout, md: Byte, serial: nat)
    requires Stored(l)
    ensures var a, b := ReadBpb(BootSector(l, md, serial)), BpbOf(l);
            && a.bytsPerSec == b.bytsPerSec && a.secPerClus == b.secPerClus && a.rsvdSecCnt == b.rsvdSecCnt
            && a.numFats == b.numFats && a.rootEntCnt == b.rootEntCnt && a.totSec16 == b.totSec16
            && a.fatSz16 == b.fatSz16 && a.totSec32 == b.totSec32
  {
    hide ByteOf, LoadWord, LoadDword, BootSector, LargeByte, SmallByte, JUMP_AND_NAME;
    WordBack(512);
    WordBack(l.nRsv);
    WordBack(if l.fsType.Fat32? then 0 else 512);
    WordBack(if l.fsType.Fat32? then 0 else l.nFat);
    WordBack(if l.nVol < 0x1_0000 then l.nVol else 0);
    DwordBack(if l.nVol < 0x1_0000 then 0 else l.nVol);
  }

  lemma LargeBack(l: Layout, md: Byte, serial: nat)
    requires Stored(l) && l.fsType.Fat32?
    ensures var a := ReadBpb(BootSector(l, md, serial)); a.fatSz32 == l.nFat && a.rootClus == 2 && a.fsInfo == 1
  {
    hide ByteOf, LoadWord, LoadDword, BootSector, CommonByte, SmallByte, LABEL_FAT32;
    DwordBack(l.nFat);
    DwordBack(2);
    WordBack(1);
  }

  /** The fields of FAT32 volumes do not matter on others. */
  lemma SameAnalysis(a: Bpb, b: Bpb, bsect: nat)
    requires a.bytsPerSec == b.bytsPerSec && a.secPerClus == b.secPerClus && a.rsvdSecCnt == b.rsvdSecCnt
    requires a.numFats == b.numFats && a.rootEntCnt == b.rootEntCnt && a.totSec16 == b.totSec16
    requires a.fatSz16 == b.fatSz16 && a.totSec32 == b.totSec32
    requires (a.fatSz32 == b.fatSz32 && a.rootClus == b.rootClus) || (a.fatSz16 != 0 && a.rootEntCnt != 0)
    ensures Analyze(a, bsect) == Analyze(b, bsect)
  {
    hide OneBit, NeededFat, WholeClusters;
    assert FatSectors(a) == FatSectors(b) && TotalSectors(a) == TotalSectors(b) && SystemSectors(a) == SystemSectors(b);
    assert ClusterCount(a) == ClusterCount(b);
    assert Accepts(a) == Accepts(b);
  }

  lemma HasSignature(l: Layout, md: Byte, serial: nat)
    ensures CheckFs(BootSector(l, md, serial)) == 0
  {
    hide BootSector, CommonByte;
    var sec := BootSector(l, md, serial);
    assert Word(sec, 510) == 0xAA55;
    var o := if l.fsType.Fat32? then 82 else 54;
    assert sec[o] == 0x46 && sec[o + 1] == 0x41 && sec[o + 2] == 0x54;
    Dword24(sec, o);
  }

  lemma Dword24(sec: Sector, o: nat)
    requires o + 4 <= |sec|
    ensures Dword(sec, o) % 0x100_0000 == LoadDword(sec[o], sec[o + 1], sec[o + 2], 0)
  {
    ModUnique(Dword(sec, o), 0x100_0000, sec[o + 3], LoadDword(sec[o], sec[o + 1], sec[o + 2], 0));
  }

  /** check_fs: 0: a FAT boot sector, 1: another boot record, 2: no boot record. */
  function CheckFs(sec: Sector): nat
    requires |sec| == 512
  {
    if Word(sec, 510) != 0xAA55 then 2
    else if Dword(sec, 54) % 0x100_0000 == 0x54_4146 then 0
    else if Dword(sec, 82) % 0x100_0000 == 0x54_4146 then 0
    else 1
  }

  /** The letters F, A and T. */
  predicate FatAt(sec: Sector, o: nat)
    requires o + 3 <= |sec|
  {
    sec[o] == 'F' as int && sec[o + 1] == 'A' as int && sec[o + 2] == 'T' as int
  }

  /** A FAT boot sector ends in 0x55 0xAA and names its file system at one of two places. */
  lemma CheckFsIs(sec: Sector)
    requires |sec| == 512
    ensures CheckFs(sec) == if sec[510] != 0x55 || sec[511] != 0xAA then 2
                            else if FatAt(sec, 54) || FatAt(sec, 82) then 0 else 1
  {
    hide Dword, FatAt;
    FatString(sec, 54);
    FatString(sec, 82);
  }

  lemma FatString(sec: Sector, o: nat)
    requires o + 4 <= |sec|
    ensures Dword(sec, o) % 0x100_0000 == 0x54_4146 <==> FatAt(sec, o)
  {
    hide Dword;
    Dword24(sec, o);
    ThreeBytes(sec[o], sec[o + 1], sec[o + 2], 0x46, 0x41, 0x54);
  }

  lemma ThreeBytes(a: Byte, b: Byte, c: Byte, x: Byte, y: Byte, z: Byte)
    ensures LoadDword(a, b, c, 0) == LoadDword(x, y, z, 0) <==> a == x && b == y && c == z
  {
    ModUnique(LoadDword(a, b, c, 0), 0x1_0000, c, LoadWord(a, b));
    ModUnique(LoadDword(x, y, z, 0), 0x1_0000, z, LoadWord(x, y));
    ModUnique(LoadWord(a, b), 0x100, b, a);
    ModUnique(LoadWord(x, y), 0x100, y, x);
  }

  /** The check of the boot record in sector `s`; 3: it cannot be read. */
  function CheckAt(img: Image, s: nat): nat {
    if s < |img| && |img[s]| == 512 then CheckFs(img[s]) else 3
  }

  /** The first sector of partition `i` in the partition table of sector 0; 0: no partition. */
  function Partition(img: Image, i: nat): nat
    requires i < 4 && 0 < |img| && |img[0]| == 512
  {
    if img[0][446 + 16 * i + 4] != 0 then Dword(img[0], 446 + 16 * i + 8) else 0
  }

  predicate Bootable(img: Image, i: nat)
    requires i < 4 && 0 < |img| && |img[0]| == 512
  {
    Partition(img, i) != 0 && CheckAt(img, Partition(img, i)) == 0
  }

  /** find_volume's search: sector 0 itself, or the first partition that holds a FAT boot sector. */
  method FindBoot(img: Image) returns (fmt: nat, bsect: nat)
    requires 0 < |img| && |img[0]| == 512
    ensures CheckAt(img, 0) != 1 ==> fmt == CheckAt(img, 0) && bsect == 0
    ensures CheckAt(img, 0) == 1 ==> (fmt == 0 <==> exists i :: 0 <= i < 4 && Bootable(img, i))
    ensures CheckAt(img, 0) == 1 && fmt == 0 ==>
              exists i :: 0 <= i < 4 && Bootable(img, i) && bsect == Partition(img, i) && forall j :: 0 <= j < i ==>
                !Bootable(img, j)
  {
    bsect := 0;
    fmt := CheckAt(img, 0);
    if fmt == 1 {
      var i := 0;
      while true
        invariant 0 <= i < 4 && forall j :: 0 <= j < i ==> !Bootable(img, j)
        decreases 4 - i
      {
        bsect := Partition(img, i);
        fmt := if bsect != 0 then CheckAt(img, bsect) else 2;
        if fmt == 0 {
          assert Bootable(img, i);
          return;
        }
        assert !Bootable(img, i);
        i := i + 1;
        if i == 4 {
          return;
        }
      }
    }
  }

  /** The system identifier in the partition table. */
  function SystemId(l: Layout): Byte {
    if l.fsType.Fat32? then 0x0C
    else if l.fsType.Fat12? && l.nVol < 0x1_0000 then 0x01
    else if l.nVol < 0x1_0000 then 0x04
    else 0x06
  }

  /** Sector and cylinder of the end of the partition. */
  function EndByte(n: nat, i: nat): Byte {
    if i == 0 then n / 4 % 256 / 64 * 64 + 63 else n % 256
  }

  function MbrByte(l: Layout, i: nat): Byte {
    if i == 447 || i == 448 then 1
    else if i == 450 then SystemId(l)
    else if i == 451 then 254
    else if 452 <= i < 454 then EndByte((l.bVol + l.nVol) / 63 / 255, i - 452)
    else if 454 <= i < 458 then ByteOf(63, i - 454)
    else if 458 <= i < 462 then ByteOf(l.nVol, i - 458)
    else if 510 <= i then ByteOf(0xAA55, i - 510)
    else 0
  }

  /** The partition table with the volume as its only partition. */
  function MbrSector(l: Layout): (sec: Sector)
    ensures |sec| == 512
    ensures forall i :: 0 <= i < 512 ==> sec[i] == MbrByte(l, i)
  {
    seq(512, i requires 0 <= i < 512 => MbrByte(l, i))
  }

  /** The partition table is no FAT boot sector; its first partition is the volume, of the type of its size. */
  lemma MbrReadsBack(l: Layout)
    requires l.nVol < TWO32
    ensures CheckFs(MbrSector(l)) == 1
    ensures Dword(MbrSector(l), 454) == 63 && Dword(MbrSector(l), 458) == l.nVol
    ensures MbrSector(l)[450] == match l.fsType
                                  case Fat12 => if l.nVol < 0x1_0000 then 1 else 6
                                  case Fat16 => if l.nVol < 0x1_0000 then 4 else 6
                                  case Fat32 => 12
  {
    hide MbrSector, EndByte, ByteOf, LoadWord, LoadDword, Dword;
    var sec := MbrSector(l);
    WordBack(0xAA55);
    NoFatString(sec, 54);
    NoFatString(sec, 82);
    DwordBack(63);
    DwordIs(sec, 454);
    DwordBack(l.nVol);
    DwordIs(sec, 458);
  }

  lemma DwordIs(sec: Sector, o: nat)
    requires o + 4 <= |sec|
    ensures Dword(sec, o) == LoadDword(sec[o], sec[o + 1], sec[o + 2], sec[o + 3])
  {}

  lemma NoFatString(sec: Sector, o: nat)
    requires o + 4 <= |sec|
    ensures sec[o] == 0 && sec[o + 1] == 0 && sec[o + 2] == 0 ==> Dword(sec, o) % 0x100_0000 == 0
  {
    Dword24(sec, o);
  }

  function Media(sfd: bool): Byte {
    if sfd then 0xF0 else 0xF8
  }

  /** The first sector of a new FAT: the two reserved entries and, on FAT32, the root directory. */
  function HeadByte(t: FatType, md: Byte, i: nat): Byte {
    if i == 0 then md
    else if i < 3 then 0xFF
    else if i == 3 then (if t.Fat12? then 0 else 0xFF)
    else if t.Fat32? && i < 11 then 0xFF
    else if t.Fat32? && i == 11 then 0x0F
    else 0
  }

  function HeadSector(t: FatType, md: Byte): (sec: Sector)
    ensures |sec| == 512
    ensures forall i :: 0 <= i < 512 ==> sec[i] == HeadByte(t, md, i)
  {
    seq(512, i requires 0 <= i < 512 => HeadByte(t, md, i))
  }

  function ZeroSector(): (sec: Sector)
    ensures |sec| == 512 && forall i :: 0 <= i < 512 ==> sec[i] == 0
  {
    seq(512, i => 0)
  }

  /** Sectors of the root directory. */
  function RootSectors(l: Layout): nat {
    if l.fsType.Fat32? then l.au else l.nDir
  }

  /** Sector `s` of the medium after formatting; `done`: all writes succeeded. */
  ghost function NewSector(l: Layout, sfd: bool, serial: nat, img: Image, done: bool, s: nat): Sector
    requires s < |img|
  {
    var bFat := l.bVol + l.nRsv;
    if s == l.bVol || (l.fsType.Fat32? && s == l.bVol + 6) then BootSector(l, Media(sfd), serial)
    else if !sfd && s == 0 then MbrSector(l)
    else if done && l.fsType.Fat32? && (s == l.bVol + 1 || s == l.bVol + 7) then Volumes.FsInfo(Wrap(l.nClst - 1), 2)
    else if s == bFat then HeadSector(l.fsType, Media(sfd))
    else if bFat < s < bFat + l.nFat + RootSectors(l) then ZeroSector()
    else img[s]
  }

  /** The medium after formatting. */
  ghost predicate Formatted(l: Layout, sfd: bool, serial: nat, img: Image, done: bool, r: Image) {
    |r| == |img| && forall s :: 0 <= s < |img| ==> r[s] == NewSector(l, sfd, serial, img, done, s)
  }

  /** A layout whose areas follow each other, on the medium or beyond its end. */
  predicate Placed(l: Layout, sfd: bool, nSectors: nat) {
    && 8 < l.nVol && l.bVol + l.nVol <= nSectors && l.bVol == (if sfd then 0 else 63)
    && 0 < l.nFat && 0 < l.au && l.nRsv >= (if l.fsType.Fat32? then 32 else 1)
    && l.nDir == (if l.fsType.Fat32? then 0 else 32)
  }

  /** The end of the FAT and the root directory. */
  function SystemEnd(l: Layout): nat {
    l.bVol + l.nRsv + l.nFat + RootSectors(l)
  }

  /** The sectors from `first` to `wsect` hold a new FAT and root directory, the others are as `before`. */
  ghost predicate Zeroing(l: Layout, sfd: bool, before: Image, first: nat, wsect: nat, r: Image) {
    |r| == |before| && forall s :: 0 <= s < |r| ==>
      r[s] == if s == first < wsect then HeadSector(l.fsType, Media(sfd))
              else if first < s < wsect then ZeroSector()
              else before[s]
  }

  /** The FAT and the root directory, sector by sector, up to the end of the medium. */
  method WriteSystem(img: Image, l: Layout, sfd: bool) returns (ok: bool, r: Image)
    requires 0 < l.nFat
    ensures ok <==> SystemEnd(l) <= |img|
    ensures Zeroing(l, sfd, img, l.bVol + l.nRsv, SystemEnd(l), r)
  {
    hide HeadSector, ZeroSector;
    r := img;
    var first := l.bVol + l.nRsv;
    if first >= |r| {
      return false, r;
    }
    r := r[first := HeadSector(l.fsType, Media(sfd))];
    var wsect := first + 1;
    for n := 1 to l.nFat
      invariant wsect == first + n <= |r| && Zeroing(l, sfd, img, first, wsect, r)
    {
      if wsect >= |r| {
        return false, r;
      }
      r := r[wsect := ZeroSector()];
      wsect := wsect + 1;
    }
    var i := RootSectors(l);
    while i > 0
      invariant 0 <= i <= RootSectors(l) && wsect == SystemEnd(l) - i <= |r|
      invariant first < wsect && Zeroing(l, sfd, img, first, wsect, r)
    {
      if wsect >= |r| {
        return false, r;
      }
      r := r[wsect := ZeroSector()];
      wsect := wsect + 1;
      i := i - 1;
    }
    ok := true;
  }

  /**
   The writes of f_mkfs, for every layout: a write beyond the medium fails and ends it, which
   leaves the boot sector in place.
   */
  method Format(img: Image, l: Layout, sfd: bool, serial: nat) returns (res: Volumes.FResult, r: Image)
    requires Placed(l, sfd, |img|)
    ensures res == if SystemEnd(l) <= |img| then Volumes.Ok else Volumes.DiskErr
    ensures Formatted(l, sfd, serial, img, res == Volumes.Ok, r)
  {
    hide BootSector, MbrSector, HeadSector, ZeroSector, Volumes.FsInfo, Wrap;
    r := img;
    if !sfd {
      r := r[0 := MbrSector(l)];
    }
    var boot := BootSector(l, Media(sfd), serial);
    r := r[l.bVol := boot];
    if l.fsType.Fat32? {
      r := r[l.bVol + 6 := boot];
    }
    var ok;
    ok, r := WriteSystem(r, l, sfd);
    if !ok {
      return Volumes.DiskErr, r;
    }
    if l.fsType.Fat32? {
      var info := Volumes.FsInfo(Wrap(l.nClst - 1), 2);
      r := r[l.bVol + 1 := info][l.bVol + 7 := info];
    }
    res := Volumes.Ok;
  }

  /** Formatting and then mounting finds the volume again. */
  lemma FormattedIsFound(l: Layout, sfd: bool, serial: nat, img: Image, done: bool, r: Image)
    requires Placed(l, sfd, |img|) && Stored(l) && (forall s :: 0 <= s < |img| ==> |img[s]| == 512)
    requires Formatted(l, sfd, serial, img, done, r)
    ensures |r[l.bVol]| == 512 && CheckAt(r, l.bVol) == 0
    ensures Analyze(ReadBpb(r[l.bVol]), l.bVol) == Analyze(BpbOf(l), l.bVol)
    ensures 0 < |r| && |r[0]| == 512 && (l.fsType.Fat32? ==> ReadBpb(r[l.bVol]).fsInfo == 1)
    ensures if sfd then l.bVol == 0 else CheckAt(r, 0) == 1 && Bootable(r, 0) && Partition(r, 0) == l.bVol
  {
    hide BootSector, MbrSector, HeadSector, ZeroSector, Volumes.FsInfo, Wrap, Analyze, CheckFs;
    assert r[l.bVol] == BootSector(l, Media(sfd), serial);
    BootSectorReadsBack(l, Media(sfd), serial, l.bVol);
    if l.fsType.Fat32? { LargeBack(l, Media(sfd), serial); }
    if !sfd {
      assert r[0] == MbrSector(l);
      MbrReadsBack(l);
    }
  }

  /** The bytes of a new FAT. */
  lemma NewFatByte(l: Layout, sfd: bool, serial: nat, img: Image, r: Image, g: Geometry, i: nat)
    requires Placed(l, sfd, |img|) && HasRoom(l) && ValidGeometry(g, |img|) && WellSized(g, r)
    requires Formatted(l, sfd, serial, img, true, r)
    requires g.fatbase == l.bVol + l.nRsv && g.fsize == l.nFat && i < g.fsize * 512
    ensures FatByte(g, r, i) == if i < 512 then HeadByte(l.fsType, Media(sfd), i) else 0
  {
    hide BootSector, MbrSector, HeadSector, ZeroSector, Volumes.FsInfo, Wrap;
    var s := g.fatbase + i / 512;
    assert r[s] == NewSector(l, sfd, serial, img, true, s);
  }

  /** The allocation table of a new volume: the media byte, an end mark, on FAT32 the root directory, and zeros. */
  ghost predicate NewTable(t: FatType, fat: seq<nat>) {
    && (forall c :: (if t.Fat32? then 3 else 2) <= c < |fat| ==> fat[c] == 0)
    && (t.Fat32? && |fat| > 2 ==> fat[2] == Kept(t, END_OF_CHAIN))
    && (|fat| > 1 ==> fat[0] in {EntryRange(t) - 16, EntryRange(t) - 8} && fat[1] == EntryRange(t) - 1)
  }

  lemma NewEntry(t: FatType, md: Byte, fb: seq<Byte>, c: nat)
    requires EntryOffset(t, c) + EntryWidth(t) <= |fb|
    requires forall i :: 0 <= i < |fb| ==> fb[i] == if i < 512 then HeadByte(t, md, i) else 0
    ensures c >= 3 || (c == 2 && !t.Fat32?) ==> Entry(t, fb, c) == 0
    ensures c == 2 && t.Fat32? ==> Entry(t, fb, c) == Kept(t, END_OF_CHAIN)
    ensures c == 0 ==> Entry(t, fb, c) == EntryRange(t) - 256 + md
    ensures c == 1 ==> Entry(t, fb, c) == EntryRange(t) - 1
  {
    match t {
      case Fat12 => NewEntry12(md, fb, c);
      case Fat16 => NewEntry16(md, fb, c);
      case Fat32 => NewEntry32(md, fb, c);
    }
  }

  lemma NewEntry12(md: Byte, fb: seq<Byte>, c: nat)
    requires c + c / 2 + 2 <= |fb|
    requires forall i :: 0 <= i < |fb| ==> fb[i] == if i < 512 then HeadByte(Fat12, md, i) else 0
    ensures Entry(Fat12, fb, c) == if c == 0 then 0xF00 + md else if c == 1 then 0xFFF else 0
  {
    var o := c + c / 2;
    if c >= 2 {
      assert o >= 3;
    } else if c == 0 {
      assert o == 0 && LoadWord(md, 0xFF) % 4096 == md + 0xF00
        by { ModUnique(LoadWord(md, 0xFF), 4096, 15, md + 0xF00); }
    } else {
      assert o == 1 && LoadWord(0xFF, 0xFF) / 16 == 0xFFF;
    }
  }

  lemma NewEntry16(md: Byte, fb: seq<Byte>, c: nat)
    requires 2 * c + 2 <= |fb|
    requires forall i :: 0 <= i < |fb| ==> fb[i] == if i < 512 then HeadByte(Fat16, md, i) else 0
    ensures Entry(Fat16, fb, c) == if c == 0 then 0xFF00 + md else if c == 1 then 0xFFFF else 0
  {
    assert c == 0 ==> fb[0] == md && fb[1] == 0xFF;
    assert c == 1 ==> fb[2] == 0xFF && fb[3] == 0xFF;
    assert c >= 2 ==> fb[2 * c] == 0 && fb[2 * c + 1] == 0;
  }

  lemma NewEntry32(md: Byte, fb: seq<Byte>, c: nat)
    requires 4 * c + 4 <= |fb|
    requires forall i :: 0 <= i < |fb| ==> fb[i] == if i < 512 then HeadByte(Fat32, md, i) else 0
    ensures Entry(Fat32, fb, c) == if c == 0 then 0x0FFF_FF00 + md else if c < 3 then 0x0FFF_FFFF else 0
  {
    hide LoadDword;
    var b1, b2, b3 := fb[4 * c + 1], fb[4 * c + 2], fb[4 * c + 3];
    assert c >= 3 ==> fb[4 * c] == 0 && b1 == 0 && b2 == 0 && b3 == 0;
    assert c == 2 ==> fb[4 * c] == 0xFF && b1 == 0xFF && b2 == 0xFF && b3 == 0x0F;
    assert c < 2 ==> b1 == 0xFF && b2 == 0xFF && b3 == 0xFF && fb[4 * c] == if c == 0 then md else 0xFF;
    Low28(fb[4 * c], b1, b2, b3);
  }

  lemma Low28(b0: Byte, b1: Byte, b2: Byte, b3: Byte)
    ensures var e := LoadDword(b0, b1, b2, b3) % 0x1000_0000;
            (b0 == b1 == b2 == b3 == 0 ==> e == 0) && (b1 == b2 == 0xFF && b3 % 16 == 15 ==> e == 0x0FFF_FF00 + b0)
  {
    ModUnique(LoadDword(b0, b1, b2, b3), 0x1000_0000, b3 / 16, LoadDword(b0, b1, b2, b3 % 16));
  }

  /** A new volume has an empty table. */
  lemma FormattedTable(l: Layout, sfd: bool, serial: nat, img: Image, r: Image, g: Geometry)
    requires Placed(l, sfd, |img|) && HasRoom(l) && ValidGeometry(g, |img|) && WellSized(g, r)
    requires Formatted(l, sfd, serial, img, true, r)
    requires g.fatbase == l.bVol + l.nRsv && g.fsize == l.nFat && g.fsType == l.fsType
    ensures NewTable(g.fsType, TableOf(g, r))
  {
    hide NewSector, HeadByte, Entry, FatByte, ValidGeometry, EntryOffset, EntryWidth;
    var fb := FatBytes(g, r);
    forall i | 0 <= i < |fb| ensures fb[i] == if i < 512 then HeadByte(g.fsType, Media(sfd), i) else 0 {
      NewFatByte(l, sfd, serial, img, r, g, i);
    }
    EntriesFit(g, |img|);
    var fat := Entries(g.fsType, fb, g.nFatent);
    forall c | 0 <= c < |fat|
      ensures c >= 3 || (c == 2 && !g.fsType.Fat32?) ==> fat[c] == 0
      ensures c == 2 && g.fsType.Fat32? ==> fat[c] == Kept(g.fsType, END_OF_CHAIN)
      ensures c == 0 ==> fat[c] in {EntryRange(g.fsType) - 16, EntryRange(g.fsType) - 8}
      ensures c == 1 ==> fat[c] == EntryRange(g.fsType) - 1
    {
      NewEntry(g.fsType, Media(sfd), fb, c);
    }
  }

  lemma EntriesFit(g: Geometry, n: nat)
    requires ValidGeometry(g, n)
    ensures 3 <= g.nFatent && EntryOffset(g.fsType, g.nFatent - 1) + EntryWidth(g.fsType) <= g.fsize * 512
  {}

  /** Its chains: none, or on FAT32 that of the root directory. Every other cluster is free. */
  lemma NewForest(t: FatType, fat: seq<nat>)
    requires NewTable(t, fat) && 3 <= |fat| <= Kept(t, END_OF_CHAIN)
    ensures Forest(fat, if t.Fat32? then {[2]} else {})
    ensures |FreeSet(fat)| == |fat| - (if t.Fat32? then 3 else 2)
  {
    if t.Fat32? {
      assert [2] in {[2]} && 2 in [2];
      assert Covered({[2]}, 2);
    }
    CountFrom(fat, if t.Fat32? then 3 else 2, |fat|);
  }

  lemma {:induction false} CountFrom(fat: seq<nat>, a: nat, n: nat)
    requires 2 <= a <= n <= |fat| && (forall c :: 2 <= c < a ==> fat[c] != 0) &&
              (forall c :: a <= c < |fat| ==> fat[c] == 0)
    ensures |set c: nat | 2 <= c < n && fat[c] == 0| == n - a
    ensures n == |fat| ==> |FreeSet(fat)| == n - a
    decreases n
  {
    var s := set c: nat | 2 <= c < n && fat[c] == 0;
    if n == a {
      assert s == {};
    } else {
      CountFrom(fat, a, n - 1);
      var t := set c: nat | 2 <= c < n - 1 && fat[c] == 0;
      assert s == t + {n - 1};
    }
    if n == |fat| { assert FreeSet(fat) == s; }
  }

  /** What the mount knows of the free clusters from the FSINFO sector. */
  function FreeCount(sec: Sector): (f: (nat, nat))
    requires |sec| == 512
  {
    if Word(sec, 510) == 0xAA55 && Dword(sec, 0) == 0x4161_5252 && Dword(sec, 484) == 0x6141_7272
    then (Dword(sec, 488), Dword(sec, 492))
    else (UNKNOWN, UNKNOWN)
  }

  /** An FSINFO sector is read back as it was written. */
  lemma FsInfoReadsBack(free: nat, last: nat)
    requires free < TWO32 && last < TWO32
    ensures FreeCount(Volumes.FsInfo(free, last)) == (free, last)
  {
    hide ByteOf, LoadWord, LoadDword, Dword;
    var sec := Volumes.FsInfo(free, last);
    WordBack(0xAA55);
    InfoDword(sec, 0, 0x4161_5252);
    InfoDword(sec, 484, 0x6141_7272);
    InfoDword(sec, 488, free);
    InfoDword(sec, 492, last);
  }

  lemma InfoDword(sec: Sector, o: nat, v: nat)
    requires o + 4 <= |sec| && v < TWO32
    requires sec[o] == ByteOf(v, 0) && sec[o + 1] == ByteOf(v, 1)
    requires sec[o + 2] == ByteOf(v, 2) && sec[o + 3] == ByteOf(v, 3)
    ensures Dword(sec, o) == v
  {
    DwordBack(v);
  }

  /** A layout is well placed on a medium of its size, and its fields can be stored. */
  lemma LayoutIsPlaced(nVol: nat, sfd: bool, au: nat, n: nat)
    requires Formattable(nVol, if sfd then 0 else 63, au, n)
    requires MkLayout(nVol, if sfd then 0 else 63, au, n).Some?
    ensures var l := MkLayout(nVol, if sfd then 0 else 63, au, n).value;
            && Placed(l, sfd, l.bVol + nVol) && Stored(l) && l.bVol == (if sfd then 0 else 63)
            && l.nVol == nVol && l.au == au && (HasRoom(l) ==> SystemEnd(l) <= l.bVol + nVol)
            && (Analyze(BpbOf(l), l.bVol).Some? <==> HasRoom(l))
  {
    hide MkLayout, Accepts, Estimate, Wrap, WholeClusters, NeededFat, PowerOfTwo;
    var bVol := if sfd then 0 else 63;
    var gap := LayoutIs(nVol, bVol, au, n);
    EstimateIs(nVol, bVol, au);
    EstimateBounds(nVol, bVol, au);
    EstimateFits(nVol, bVol, au, n);
    MkfsThenMount(nVol, bVol, au, n);
  }

  /** The image holds a new volume of this geometry. */
  ghost predicate HoldsNew(g: Geometry, l: Layout, r: Image) {
    && ValidGeometry(g, |r|) && WellSized(g, r) && Mirrored(g, r) && RootGeometry(g)
    && g.fsType == l.fsType && g.volbase == l.bVol
    && IsNew(g, TableOf(g, r))
    && (g.fsType.Fat32? ==>
          && g.volbase + 1 < g.fatbase && l.bVol + 1 < |r| && |r[l.bVol + 1]| == 512
          && FreeCount(r[l.bVol + 1]) == (|FreeSet(TableOf(g, r))|, 2))
  }

  ghost predicate IsNew(g: Geometry, fat: seq<nat>) {
    NewTable(g.fsType, fat) && Forest(fat, if g.fsType.Fat32? then {[2]} else {}) && |FreeSet(fat)| < UNKNOWN
  }

  lemma NewVolumeFacts(l: Layout, sfd: bool, n: nat, serial: nat, img: Image, r: Image)
    requires forall s :: 0 <= s < |img| ==> |img[s]| == 512
    requires l.bVol == (if sfd then 0 else 63) && Formattable(l.nVol, l.bVol, l.au, n) && |img| == l.bVol + l.nVol
    requires MkLayout(l.nVol, l.bVol, l.au, n) == Some(l) && HasRoom(l)
    requires Formatted(l, sfd, serial, img, true, r)
    ensures Analyze(BpbOf(l), l.bVol).Some? && HoldsNew(Analyze(BpbOf(l), l.bVol).value, l, r)
  {
    hide MkLayout, Accepts, Wrap, WholeClusters, BootSector, MbrSector, HeadSector, ZeroSector, Volumes.FsInfo,
      NewTable, Forest, FreeSet, TableOf, ValidGeometry, FreeCount, PowerOfTwo, Analyze, RootGeometry, Formattable;
    LayoutIsPlaced(l.nVol, sfd, l.au, n);
    MkfsThenMount(l.nVol, l.bVol, l.au, n);
    var g := Analyze(BpbOf(l), l.bVol).value;
    FormattedTable(l, sfd, serial, img, r, g);
    EntriesFit(g, |r|);
    EndMark(g, |r|);
    NewForest(g.fsType, TableOf(g, r));
    if g.fsType.Fat32? {
      assert r[l.bVol + 1] == Volumes.FsInfo(Wrap(l.nClst - 1), 2);
      WrapSmall(l.nClst - 1);
      FsInfoReadsBack(l.nClst - 1, 2);
    }
  }

  /** The end of what f_mkfs writes in a row: the FAT and the root directory, a cluster of its own on FAT32. */
  function RootEnd(nVol: nat, bVol: nat, au: nat, n: nat): nat
    requires 0 < au && 0 < n
  {
    DataStart(nVol, bVol, au, n) + if Guess(nVol, au) >= 65526 then au else 0
  }

  /** Nothing waits to be written, and the first sector of the root directory, behind the FAT, is zero. */
  ghost predicate EmptyRoot(fs: Volumes.Volume)
    reads fs
  {
    && !fs.wflag && fs.geo.fatbase + fs.geo.fsize < |fs.disk|
    && fs.disk[fs.geo.fatbase + fs.geo.fsize] == ZeroSector()
    && (fs.fsiEnabled <==> fs.geo.fsType.Fat32?) && (fs.fsiEnabled ==> fs.geo.volbase + 1 < fs.geo.fatbase)
  }

  /**
   f_mkfs followed by a mount: the file system object of the new volume, whose table has no chain
   but the root directory's and whose free count, when FSINFO gives one, is right. f_mkfs goes on
   when the alignment leaves no cluster, and the mount is what refuses such a volume, whether the
   writes succeeded or not.
   */
  method FormatAndMount(img: Image, nVol: nat, sfd: bool, au: nat, n: nat, serial: nat)
    returns (res: Volumes.FResult, fs: Volumes.Volume?)
    requires forall s :: 0 <= s < |img| ==> |img[s]| == 512
    requires Formattable(nVol, if sfd then 0 else 63, au, n) && |img| == (if sfd then 0 else 63) + nVol
    ensures res == if |img| < 128 then Volumes.DiskErr
                   else if !CanFormat(nVol, if sfd then 0 else 63, au, n) then Volumes.MkfsAborted
                   else if RootEnd(nVol, if sfd then 0 else 63, au, n) <= |img| then Volumes.Ok else Volumes.DiskErr
    ensures fs != null <==> 128 <= |img| && LeavesCluster(nVol, if sfd then 0 else 63, au, n)
    ensures fs != null ==> fresh(fs) && fresh(fs.win) && fs.Valid() && RootGeometry(fs.geo) && IsNew(fs.geo, fs.Fat())
    ensures fs != null ==> fs.geo == NewGeometry(nVol, if sfd then 0 else 63, au, n) && EmptyRoot(fs)
    ensures fs != null ==> fs.FreeExact() && (fs.freeClust != UNKNOWN <==> fs.geo.fsType.Fat32?)
    ensures fs != null ==> fs.lastClust == if fs.geo.fsType.Fat32? then 2 else UNKNOWN
  {
    hide MkLayout, Analyze, BpbOf, Stored, HasRoom, IsNew, FreeSet, Volumes.Volume.Fat, Volumes.Volume.Reserved,
      Volumes.Volume.Logical, Volumes.Volume.Valid, RootGeometry, ValidGeometry, System, PowerOfTwo, CanFormat,
      DataStart, Guess, LayoutOf, NewGeometry, SystemEnd, RootEnd, Formatted, Placed, EmptyRoot;
    fs := null;
    if |img| < 128 {
      return Volumes.DiskErr, null;
    }
    var bVol := if sfd then 0 else 63;
    LayoutIff(nVol, bVol, au, n);
    var m := MkLayout(nVol, bVol, au, n);
    if m.None? {
      return Volumes.MkfsAborted, null;
    }
    var l := m.value;
    LayoutIsPlaced(nVol, sfd, au, n);
    NewVolumeIs(nVol, bVol, au, n);
    EndOfSystem(nVol, bVol, au, n);
    var r;
    res, r := Format(img, l, sfd, serial);
    fs := MountNew(img, r, l, sfd, n, serial, res == Volumes.Ok);
  }

  /** The mount of a medium that f_mkfs has written to. */
  method MountNew(ghost img: Image, r: Image, ghost l: Layout, ghost sfd: bool, ghost n: nat, ghost serial: nat,
                  ghost done: bool)
    returns (fs: Volumes.Volume?)
    requires forall s :: 0 <= s < |img| ==> |img[s]| == 512
    requires l.bVol == (if sfd then 0 else 63) && Formattable(l.nVol, l.bVol, l.au, n) && |img| == l.bVol + l.nVol
    requires MkLayout(l.nVol, l.bVol, l.au, n) == Some(l) && Formatted(l, sfd, serial, img, done, r)
    requires done <==> SystemEnd(l) <= |img|
    ensures fs != null <==> HasRoom(l)
    ensures fs != null ==> fresh(fs) && fresh(fs.win) && fs.Valid() && RootGeometry(fs.geo) && IsNew(fs.geo, fs.Fat())
    ensures fs != null ==> Analyze(BpbOf(l), l.bVol) == Some(fs.geo) && EmptyRoot(fs)
    ensures fs != null ==> fs.FreeExact() && (fs.freeClust != UNKNOWN <==> fs.geo.fsType.Fat32?)
    ensures fs != null ==> fs.lastClust == if fs.geo.fsType.Fat32? then 2 else UNKNOWN
  {
    hide MkLayout, Analyze, BpbOf, CheckAt, Bootable, FreeCount, Stored, HasRoom, IsNew, FreeSet, ReadBpb, TableOf,
      Volumes.Volume.Fat, Volumes.Volume.Reserved, Volumes.Volume.Logical, Volumes.Volume.Valid, RootGeometry,
      ValidGeometry, System, PowerOfTwo, WholeClusters, NewSector, Partition, ZeroSector;
    fs := null;
    LayoutIsPlaced(l.nVol, sfd, l.au, n);
    FormattedIsFound(l, sfd, serial, img, done, r);
    var fmt, bsect := FindBoot(r);
    assert bsect == l.bVol;
    var b := ReadBpb(r[bsect]);
    var found := Analyze(b, bsect);
    if found.None? {
      return;
    }
    var g := found.value;
    NewVolumeFacts(l, sfd, n, serial, img, r);
    var fsi := g.fsType.Fat32? && b.fsInfo == 1;
    var free := if fsi then FreeCount(r[bsect + 1]) else (UNKNOWN, UNKNOWN);
    fs := new Volumes.Volume.Mount(g, r, fsi, free.0, free.1);
    NewIsExact(g, fs.Fat());
    MkfsThenMount(l.nVol, l.bVol, l.au, n);
    RootIsZero(l, sfd, serial, img, r);
  }

  lemma EndOfSystem(nVol: nat, bVol: nat, au: nat, n: nat)
    requires Formattable(nVol, bVol, au, n)
    ensures SystemEnd(LayoutOf(nVol, bVol, au, n)) == RootEnd(nVol, bVol, au, n)
  {
    hide DataStart, FatFor, PowerOfTwo;
  }

  /** The first sector behind the FAT of a new volume. */
  lemma RootIsZero(l: Layout, sfd: bool, serial: nat, img: Image, r: Image)
    requires Placed(l, sfd, |img|) && HasRoom(l) && Formatted(l, sfd, serial, img, true, r)
    ensures l.bVol + l.nRsv + l.nFat < |r| && r[l.bVol + l.nRsv + l.nFat] == ZeroSector()
  {
    hide BootSector, MbrSector, HeadSector, ZeroSector, Volumes.FsInfo, Wrap;
    var s := l.bVol + l.nRsv + l.nFat;
    assert r[s] == NewSector(l, sfd, serial, img, true, s);
  }

  lemma NewIsExact(g: Geometry, fat: seq<nat>)
    requires IsNew(g, fat)
    ensures |FreeSet(fat)| < UNKNOWN
  {}
}
