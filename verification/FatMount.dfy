/** Mounting: the BIOS parameter block of a boot sector and the geometry that find_volume derives from it. */
module FatMount {
  import opened FatLayout
  import opened Options
  import opened FatDirectory

  /** Cluster counts from which a volume is FAT16 and FAT32. */
  const MIN_FAT16: nat := 4086
  const MIN_FAT32: nat := 65526

  /** The result of 32-bit unsigned arithmetic. */
  function Wrap(x: int): nat {
    x % 0x1_0000_0000
  }

  function Word(sec: Sector, o: nat): (w: nat)
    requires o + 2 <= |sec|
    ensures w < 0x1_0000
  {
    LoadWord(sec[o], sec[o + 1])
  }

  function Dword(sec: Sector, o: nat): (w: nat)
    requires o + 4 <= |sec|
    ensures w < TWO32
  {
    LoadDword(sec[o], sec[o + 1], sec[o + 2], sec[o + 3])
  }

  /** The fields of a boot sector that a mount reads. */
  datatype Bpb = Bpb(
    bytsPerSec: nat, secPerClus: nat, rsvdSecCnt: nat, numFats: nat, rootEntCnt: nat,
    totSec16: nat, fatSz16: nat, totSec32: nat, fatSz32: nat, rootClus: nat, fsInfo: nat)

  function ReadBpb(sec: Sector): Bpb
    requires |sec| == 512
  {
    Bpb(Word(sec, 11), sec[13], Word(sec, 14), sec[16], Word(sec, 17),
        Word(sec, 19), Word(sec, 22), Dword(sec, 32), Dword(sec, 36), Dword(sec, 44), Word(sec, 48))
  }

  /** Bitwise and of the lowest `bits` bits. */
  function And(a: nat, b: nat, bits: nat): nat {
    if bits == 0 then 0
    else (if a % 2 == 1 && b % 2 == 1 then 1 else 0) + 2 * And(a / 2, b / 2, bits - 1)
  }

  /** The test for a power of two on a number of `bits` bits. */
  predicate OneBit(c: nat, bits: nat) {
    c != 0 && And(c, c - 1, bits) == 0
  }

  predicate PowerOfTwo(c: nat) {
    c == 1 || (c > 1 && c % 2 == 0 && PowerOfTwo(c / 2))
  }

  function Pow2(n: nat): (p: nat)
    ensures p > 0
  {
    if n == 0 then 1 else 2 * Pow2(n - 1)
  }

  lemma {:induction false} AndSelf(a: nat, bits: nat)
    requires a < Pow2(bits)
    ensures And(a, a, bits) == a
    decreases bits
  {
    if bits > 0 { AndSelf(a / 2, bits - 1); }
  }

  lemma {:induction false} OneBitIsPower(c: nat, bits: nat)
    requires c < Pow2(bits)
    ensures OneBit(c, bits) <==> PowerOfTwo(c)
    decreases bits
  {
    if c > 0 {
      if c % 2 == 1 {
        assert (c - 1) / 2 == c / 2;
        AndSelf(c / 2, bits - 1);
      } else {
        assert (c - 1) / 2 == c / 2 - 1;
        OneBitIsPower(c / 2, bits - 1);
      }
    }
  }

  /** For a byte the test allows exactly the cluster sizes of the format. */
  lemma OneBitIsClusterSize(c: nat)
    requires c < 256
    ensures OneBit(c, 8) <==> IsClusterSize(c)
  {
    hide And;
    assert Pow2(4) == 16;
    assert Pow2(8) == 256;
    OneBitIsPower(c, 8);
    PowerIsClusterSize(c);
  }

  lemma PowerIsClusterSize(c: nat)
    requires c < 256
    ensures PowerOfTwo(c) <==> IsClusterSize(c)
  {
    Half(c, 1);
    Half(c, 2);
    Half(c, 4);
    Half(c, 8);
    Half(c, 16);
    Half(c, 32);
    Half(c, 64);
  }

  lemma Half(c: nat, d: nat)
    requires 0 < d
    ensures PowerOfTwo(c / d) <==> c / d == 1 || (c / d > 1 && c / d % 2 == 0 && PowerOfTwo(c / d / 2))
  {}

  function SubType(nclst: nat): FatType {
    if nclst >= MIN_FAT32 then Fat32 else if nclst >= MIN_FAT16 then Fat16 else Fat12
  }

  /** Bytes the FAT needs for `n` entries. */
  function NeededFat(t: FatType, n: nat): nat {
    match t
    case Fat12 => n * 3 / 2 + n % 2
    case Fat16 => n * 2
    case Fat32 => n * 4
  }

  function FatSectors(b: Bpb): nat {
    if b.fatSz16 != 0 then b.fatSz16 else b.fatSz32
  }

  function TotalSectors(b: Bpb): nat {
    if b.totSec16 != 0 then b.totSec16 else b.totSec32
  }

  /** Sectors of all FAT copies. */
  function FatArea(fatSectors: nat, copies: nat): nat {
    Wrap(fatSectors * copies)
  }

  /** Sectors before the data area. */
  function SystemSectors(b: Bpb): nat {
    Wrap(b.rsvdSecCnt + FatArea(FatSectors(b), b.numFats) + b.rootEntCnt / 16)
  }

  /** Whole clusters of `c` sectors in `n` sectors. */
  function WholeClusters(n: int, c: nat): nat {
    if c == 0 || n < 0 then 0 else n / c
  }

  function ClusterCount(b: Bpb): nat {
    WholeClusters(TotalSectors(b) - SystemSectors(b), b.secPerClus)
  }

  /** The tests find_volume makes on a boot sector. */
  predicate Accepts(b: Bpb) {
    && b.bytsPerSec == 512
    && (b.numFats == 1 || b.numFats == 2)
    && OneBit(b.secPerClus, 8)
    && b.rootEntCnt % 16 == 0
    && b.rsvdSecCnt != 0
    && TotalSectors(b) >= SystemSectors(b)
    && ClusterCount(b) != 0
    && (SubType(ClusterCount(b)).Fat32? <==> b.rootEntCnt == 0)
    && FatSectors(b) >= Wrap(Wrap(NeededFat(SubType(ClusterCount(b)), Wrap(ClusterCount(b) + 2))) + 511) / 512
  }

  /** The part of find_volume that analyses the boot sector at `bsect`; none: not a FAT volume. */
  function Analyze(b: Bpb, bsect: nat): Option<Geometry> {
    if !Accepts(b) then None
    else
      var t := SubType(ClusterCount(b));
      var fatbase := Wrap(bsect + b.rsvdSecCnt);
      var dirbase := if t.Fat32? then b.rootClus else Wrap(fatbase + FatArea(FatSectors(b), b.numFats));
      Some(Geometry(t, b.secPerClus, b.numFats, b.rootEntCnt, Wrap(ClusterCount(b) + 2), FatSectors(b),
                    bsect, fatbase, dirbase, Wrap(bsect + SystemSectors(b))))
  }

  /** Field values that fit their fields. */
  predicate InRange(b: Bpb) {
    && b.bytsPerSec < 0x1_0000 && b.secPerClus < 256 && b.rsvdSecCnt < 0x1_0000 && b.numFats < 256
    && b.rootEntCnt < 0x1_0000 && b.totSec16 < 0x1_0000 && b.fatSz16 < 0x1_0000
    && b.totSec32 < TWO32 && b.fatSz32 < TWO32 && b.rootClus < TWO32 && b.fsInfo < 0x1_0000
  }

  /**
   The volume fits the medium, and the numbers of its system area and of its FAT entries do not
   overflow: what a mount does not test.
   */
  predicate Sound(b: Bpb, bsect: nat, nSectors: nat) {
    && bsect + TotalSectors(b) <= nSectors <= TWO32
    && b.rsvdSecCnt + FatSectors(b) * b.numFats + b.rootEntCnt / 16 < TWO32
    && ClusterCount(b) + 2 < TWO28
  }

  /** A mounted volume has a valid geometry: every FAT entry lies in one FAT copy and every cluster on the medium. */
  lemma MountIsValid(b: Bpb, bsect: nat, nSectors: nat)
    requires InRange(b) && Sound(b, bsect, nSectors) && Analyze(b, bsect).Some?
    ensures var g := Analyze(b, bsect).value;
            && ValidGeometry(g, nSectors) && RootGeometry(g)
            && g.volbase == bsect && g.fatbase == bsect + b.rsvdSecCnt
  {
    hide OneBit, WholeClusters, NeededFat, EntryOffset, EntryWidth, FatArea, FatSectors, TotalSectors, Wrap;
    OneBitIsClusterSize(b.secPerClus);
    var g := Analyze(b, bsect).value;
    AreaIs(FatSectors(b), b.numFats);
    WrapSmall(b.rsvdSecCnt + FatSectors(b) * b.numFats + b.rootEntCnt / 16);
    WrapSmall(ClusterCount(b) + 2);
    assert SystemSectors(b) == b.rsvdSecCnt + FatSpan(g) + b.rootEntCnt / 16;
    DataFits(TotalSectors(b) - SystemSectors(b), b.secPerClus);
    NeededFits(g.fsType, g.nFatent);
    NeededIsEnough(g.fsType, g.nFatent, g.fsize);
    PlacesFit(bsect, b.rsvdSecCnt, FatSpan(g), b.rootEntCnt / 16, nSectors);
  }

  lemma WrapSmall(x: nat)
    ensures x < TWO32 ==> Wrap(x) == x
  {}

  lemma PlacesFit(bsect: nat, rsv: nat, fats: nat, dir: nat, nSectors: nat)
    requires bsect + rsv + fats + dir < nSectors <= TWO32
    ensures Wrap(bsect + rsv) == bsect + rsv && Wrap(bsect + rsv + fats) == bsect + rsv + fats
    ensures Wrap(bsect + (rsv + fats + dir)) == bsect + rsv + fats + dir
  {}

  lemma AreaIs(f: nat, n: nat)
    requires n == 1 || n == 2
    ensures f * n < TWO32 ==> FatArea(f, n) == f * n
    ensures f * n == if n == 2 then 2 * f else f
  {}

  lemma NeededFits(t: FatType, n: nat)
    requires n < TWO28
    ensures Wrap(Wrap(NeededFat(t, n)) + 511) == NeededFat(t, n) + 511
  {}

  lemma DataFits(n: nat, c: nat)
    requires 0 < c
    ensures 0 <= WholeClusters(n, c) * c <= n < WholeClusters(n, c) * c + c
  {
    assert n == c * (n / c) + n % c;
  }

  lemma NeededIsEnough(t: FatType, n: nat, fsize: nat)
    requires 3 <= n < TWO28 && fsize >= (NeededFat(t, n) + 511) / 512
    ensures 0 < fsize && EntryOffset(t, n - 1) + EntryWidth(t) <= fsize * 512
  {
    var need := NeededFat(t, n);
    assert EntryOffset(t, n - 1) + EntryWidth(t) <= need by {
      if t.Fat12? { LastEntry12(n); }
    }
    RoundedUp(need, fsize);
  }

  lemma LastEntry12(n: nat)
    requires 1 <= n
    ensures n - 1 + (n - 1) / 2 + 2 <= n * 3 / 2 + n % 2
  {}

  lemma RoundedUp(need: nat, sectors: nat)
    requires 0 < need && sectors >= (need + 511) / 512
    ensures 0 < sectors && need <= sectors * 512
  {}

  /**
   The sector sync_fs writes on a volume with FSINFO is the one after the boot sector. It is a
   sector of the FAT exactly when the boot sector is the only reserved one, which a mount does
   not rule out.
   */
  lemma FsInfoSectorIsFat(b: Bpb, bsect: nat, nSectors: nat)
    requires InRange(b) && Sound(b, bsect, nSectors) && Analyze(b, bsect).Some?
    ensures var g := Analyze(b, bsect).value; InFat(g, g.volbase + 1) <==> b.rsvdSecCnt == 1
  {
    hide Analyze, ValidGeometry, Accepts;
    MountIsValid(b, bsect, nSectors);
    var g := Analyze(b, bsect).value;
    ReservedNotZero(b, bsect);
    FatNotEmpty(g, nSectors);
  }

  lemma ReservedNotZero(b: Bpb, bsect: nat)
    requires Analyze(b, bsect).Some?
    ensures b.rsvdSecCnt != 0
  {}

  lemma FatNotEmpty(g: Geometry, nSectors: nat)
    requires ValidGeometry(g, nSectors)
    ensures 0 < g.fsize
  {}

  lemma MountWithOneReservedSector()
    ensures var b := Bpb(512, 1, 1, 1, 0, 0, 0, 70_000, 600, 2, 1);
            InRange(b) && Sound(b, 0, 70_000) && Analyze(b, 0).Some? && Analyze(b, 0).value.fsType.Fat32?
  {
    var b := Bpb(512, 1, 1, 1, 0, 0, 0, 70_000, 600, 2, 1);
    OneBitIsClusterSize(1);
    assert SystemSectors(b) == 601 && ClusterCount(b) == 69_399;
  }

  /** A FAT16 volume of 64 MB with two FAT copies. */
  lemma MountWithTwoCopies()
    ensures Analyze(Bpb(512, 4, 1, 2, 512, 0, 128, 131_072, 0, 0, 0), 0) ==
              Some(Geometry(Fat16, 4, 2, 512, 32_697, 128, 0, 1, 257, 289))
  {
    hide OneBit;
    var b := Bpb(512, 4, 1, 2, 512, 0, 128, 131_072, 0, 0, 0);
    OneBitIsClusterSize(4);
    assert FatArea(128, 2) == 256;
    assert SystemSectors(b) == 289;
    assert ClusterCount(b) == 32_695;
    assert Wrap(Wrap(NeededFat(Fat16, 32_697)) + 511) / 512 == 128;
  }
}
