/**
 Which boot sectors a mount accepts, and the volume it finds, in the numbers of the FAT format: the fields
 are read at their offsets with the low byte first, and no overflow is possible in what they say.
 */
module FatMountSpec {
  import opened FatLayout
  import opened FatMount
  import opened Options

  /** The number in `w` bytes from offset `o` on, low byte first. */
  function Little(sec: Sector, o: nat, w: nat): nat
    requires o + w <= |sec|
    decreases w
  {
    if w == 0 then 0 else
      var low: int := sec[o];
      low + 256 * Little(sec, o + 1, w - 1)
  }

  /** The sub-type that a number of clusters makes. */
  function TypeOf(clusters: nat): FatType {
    if clusters < 4086 then Fat12 else if clusters < 65526 then Fat16 else Fat32
  }

  /** Bits of an entry. */
  function Bits(t: FatType): nat {
    match t case Fat12 => 12 case Fat16 => 16 case Fat32 => 32
  }

  /** Sectors of the volume and of one FAT: in the small field, or in the large one where that is zero. */
  function VolumeSectors(sec: Sector): nat
    requires |sec| == 512
  {
    if Little(sec, 19, 2) != 0 then Little(sec, 19, 2) else Little(sec, 32, 4)
  }

  function TableSectors(sec: Sector): nat
    requires |sec| == 512
  {
    if Little(sec, 22, 2) != 0 then Little(sec, 22, 2) else Little(sec, 36, 4)
  }

  /** Sectors of all FAT copies. */
  function Area(copies: nat, sectors: nat): nat {
    copies * sectors
  }

  /** Reserved sectors, FAT copies and static root directory. */
  function Before(sec: Sector): nat
    requires |sec| == 512
  {
    Little(sec, 14, 2) + Area(sec[16], TableSectors(sec)) + Little(sec, 17, 2) / 16
  }

  function Whole(sectors: nat, c: nat): nat
    requires 0 < c
  {
    sectors / c
  }

  /** The clusters behind them. */
  function Clusters(sec: Sector): nat
    requires |sec| == 512
  {
    if sec[13] == 0 || VolumeSectors(sec) < Before(sec) then 0 else Whole(VolumeSectors(sec) - Before(sec), sec[13])
  }

  /** The volume lies on the medium, and neither its areas nor its table overflow. */
  predicate NoOverflow(sec: Sector, bsect: nat, nSectors: nat)
    requires |sec| == 512
  {
    bsect + VolumeSectors(sec) <= nSectors <= TWO32 && Before(sec) < TWO32 && Clusters(sec) + 2 < TWO28
  }

  /**
   What makes a boot sector that of a FAT volume: sectors of 512 bytes, one or two FAT copies, a cluster size of the
   format, whole sectors of root entries, a reserved sector, at least one cluster, no static root directory exactly on
   FAT32, and a FAT with room for all entries.
   */
  predicate IsFatVolume(sec: Sector)
    requires |sec| == 512
  {
    && Little(sec, 11, 2) == 512 && 1 <= sec[16] <= 2 && IsClusterSize(sec[13])
    && Little(sec, 17, 2) % 16 == 0 && Little(sec, 14, 2) != 0
    && Before(sec) + sec[13] <= VolumeSectors(sec)
    && (Little(sec, 17, 2) == 0 <==> Clusters(sec) >= 65526)
    && (Clusters(sec) + 2) * Bits(TypeOf(Clusters(sec))) <= TableSectors(sec) * 512 * 8
  }

  /**
   The volume that starts with such a boot sector: first the FAT copies, then the root directory, which on FAT32 starts
   in the cluster at offset 44, and then the clusters.
   */
  function VolumeOf(sec: Sector, bsect: nat): Geometry
    requires |sec| == 512
  {
    var fatbase := bsect + Little(sec, 14, 2);
    var root := if Clusters(sec) >= 65526 then Little(sec, 44, 4) else fatbase + Area(sec[16], TableSectors(sec));
    Geometry(TypeOf(Clusters(sec)), sec[13], sec[16], Little(sec, 17, 2), Clusters(sec) + 2, TableSectors(sec),
             bsect, fatbase, root, bsect + Before(sec))
  }

  lemma WordIs(sec: Sector, o: nat)
    requires o + 2 <= |sec|
    ensures Word(sec, o) == Little(sec, o, 2)
  {
    assert Little(sec, o + 1, 1) == sec[o + 1];
  }

  lemma DwordIs(sec: Sector, o: nat)
    requires o + 4 <= |sec|
    ensures Dword(sec, o) == Little(sec, o, 4)
  {
    assert Little(sec, o + 3, 1) == sec[o + 3];
    WordIs(sec, o + 2);
    assert Little(sec, o + 1, 3) == sec[o + 1] + 256 * Little(sec, o + 2, 2);
  }

  /** The fields a mount reads. */
  lemma FieldsAre(sec: Sector)
    requires |sec| == 512
    ensures var b := ReadBpb(sec);
            && b.bytsPerSec == Little(sec, 11, 2) && b.secPerClus == sec[13] && b.rsvdSecCnt == Little(sec, 14, 2)
            && b.numFats == sec[16] && b.rootEntCnt == Little(sec, 17, 2) && InRange(b)
            && TotalSectors(b) == VolumeSectors(sec) && FatSectors(b) == TableSectors(sec)
            && b.rootClus == Little(sec, 44, 4) && b.fsInfo == Little(sec, 48, 2)
  {
    hide Little, LoadWord, LoadDword;
    WordIs(sec, 11);
    WordIs(sec, 14);
    WordIs(sec, 17);
    WordIs(sec, 19);
    WordIs(sec, 22);
    WordIs(sec, 48);
    DwordIs(sec, 32);
    DwordIs(sec, 36);
    DwordIs(sec, 44);
  }

  lemma SystemIs(sec: Sector)
    requires |sec| == 512 && Before(sec) < TWO32
    ensures var b := ReadBpb(sec); SystemSectors(b) == Before(sec) && ClusterCount(b) == Clusters(sec)
    ensures FatArea(TableSectors(sec), sec[16]) == Area(sec[16], TableSectors(sec))
  {
    hide Little, ReadBpb, VolumeSectors, TableSectors, FatSectors, TotalSectors;
    FieldsAre(sec);
    AreaSmall(TableSectors(sec), sec[16]);
  }

  lemma AreaSmall(f: nat, n: nat)
    ensures Area(n, f) < TWO32 ==> FatArea(f, n) == Area(n, f)
  {}

  lemma FatRoom(t: FatType, n: nat, f: nat)
    requires n < TWO28
    ensures f >= Wrap(Wrap(NeededFat(t, n)) + 511) / 512 <==> n * Bits(t) <= f * 512 * 8
  {
    NeededFits(t, n);
    NeededBits(t, n);
  }

  lemma NeededBits(t: FatType, n: nat)
    ensures NeededFat(t, n) * 8 - 7 <= n * Bits(t) <= NeededFat(t, n) * 8
  {
    if t.Fat12? {
      var h := n / 2;
      assert n == 2 * h + n % 2;
      assert n * 3 / 2 == 3 * h + n % 2;
    }
  }

  /** A mount finds a volume exactly on the boot sector of a FAT volume, and this is the volume. */
  lemma MountIff(sec: Sector, bsect: nat, nSectors: nat)
    requires |sec| == 512 && NoOverflow(sec, bsect, nSectors)
    ensures Analyze(ReadBpb(sec), bsect) == if IsFatVolume(sec) then Some(VolumeOf(sec, bsect)) else None
  {
    hide Little, ReadBpb, FatSectors, TotalSectors, VolumeSectors, TableSectors, SystemSectors, ClusterCount, OneBit,
      NeededFat, Wrap, FatArea;
    FieldsAre(sec);
    SystemIs(sec);
    OneBitIsClusterSize(sec[13]);
    var n := Clusters(sec);
    WrapSmall(n + 2);
    FatRoom(TypeOf(n), n + 2, TableSectors(sec));
    WrapSmall(bsect + Little(sec, 14, 2));
    WrapSmall(bsect + Little(sec, 14, 2) + Area(sec[16], TableSectors(sec)));
    WrapSmall(bsect + Before(sec));
  }
}
