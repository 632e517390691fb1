/**
 Which volumes f_mkfs can lay out, and how, in numbers: the least FAT that holds the entries, the data area
 on the next erase block, and the clusters that are left.
 */
module FatFormatSpec {
  import opened FatLayout
  import opened FatMount
  import opened FatMountSpec
  import opened FatFormat
  import opened Options

  /** Whole clusters in so many sectors; for a volume without its system area they decide on the sub-type. */
  function Guess(sectors: nat, au: nat): nat
    requires 0 < au
  {
    sectors / au
  }

  /** Sectors of a FAT for so many clusters: the fewest that hold all entries and the two reserved ones. */
  function FatFor(clusters: nat): (f: nat)
    ensures var bits := Bits(TypeOf(clusters)) * (clusters + 2); f * 4096 - 4096 < bits <= f * 4096
  {
    (Bits(TypeOf(clusters)) * (clusters + 2) + 4095) / 4096
  }

  /** Sectors before the data area as long as that is not aligned. */
  function SystemSize(clusters: nat): nat {
    if clusters >= 65526 then 32 + FatFor(clusters) else 1 + FatFor(clusters) + 32
  }

  /** The first sector of the data area: the first erase block behind them. */
  function DataStart(nVol: nat, bVol: nat, au: nat, n: nat): (d: nat)
    requires 0 < au && 0 < n
    ensures var b := bVol + SystemSize(Guess(nVol, au)); d % n == 0 && b <= d < b + n
  {
    var b := bVol + SystemSize(Guess(nVol, au));
    NextBlock(b, n);
    (b + n - 1) / n * n
  }

  lemma NextBlock(b: nat, n: nat)
    requires 0 < n
    ensures var d := (b + n - 1) / n * n; 0 <= d && d % n == 0 && b <= d < b + n
  {
    var q := (b + n - 1) / n;
    assert b + n - 1 == n * q + (b + n - 1) % n;
    ModUnique(q * n, n, q, 0);
  }

  /** The clusters from there on. */
  function ClustersLeft(nVol: nat, bVol: nat, au: nat, n: nat): nat
    requires 0 < au && 0 < n
  {
    var d := DataStart(nVol, bVol, au, n);
    if d <= bVol + nVol then Guess(bVol + nVol - d, au) else 0
  }

  /**
   f_mkfs can lay the volume out: before the alignment a cluster is left, and behind it enough of them for the
   sub-type, unless the alignment leads beyond the volume, which the unsigned arithmetic does not notice.
   */
  predicate CanFormat(nVol: nat, bVol: nat, au: nat, n: nat)
    requires 0 < au && 0 < n
  {
    var guess := Guess(nVol, au);
    && SystemSize(guess) + au <= nVol
    && (DataStart(nVol, bVol, au, n) > bVol + nVol || guess < 4086 ||
        ClustersLeft(nVol, bVol, au, n) >= if guess < 65526 then 4086 else 65526)
  }

  /** The layout f_mkfs then chooses; beyond the volume its number of clusters has wrapped around. */
  function LayoutOf(nVol: nat, bVol: nat, au: nat, n: nat): Layout
    requires 0 < au && 0 < n
  {
    var guess, d := Guess(nVol, au), DataStart(nVol, bVol, au, n);
    var clusters := if d <= bVol + nVol then ClustersLeft(nVol, bVol, au, n)
                    else if d < TWO32 then Guess(TWO32 + bVol + nVol - d, au) else 0;
    if guess >= 65526 then Layout(Fat32, au, nVol, bVol, d - bVol - FatFor(guess), FatFor(guess), 0, clusters)
    else Layout(TypeOf(guess), au, nVol, bVol, 1, d - bVol - 33, 32, clusters)
  }

  lemma NeedInBits(t: FatType, n: nat)
    ensures FatNeed(t, n) * 8 - 7 <= Bits(t) * (n + 2) <= FatNeed(t, n) * 8
  {
    if t.Fat12? {
      var h := n / 2;
      assert n == 2 * h + n % 2;
      assert (n * 3 + 1) / 2 == 3 * h + 2 * (n % 2);
    }
  }

  lemma SectorsForBits(need: nat, bits: nat, f: nat)
    requires need * 8 - 7 <= bits <= need * 8 && f * 4096 - 4096 < bits <= f * 4096
    ensures (need + 511) / 512 == f
  {}

  lemma EstimateNumbers(nVol: nat, bVol: nat, au: nat)
    requires 0 < au && Guess(nVol, au) + 2 < TWO28
    ensures var e, guess := Estimate(nVol, bVol, au), Guess(nVol, au);
            && e.nVol == nVol && e.bVol == bVol && e.au == au && e.fsType == TypeOf(guess) == SubType(guess)
            && e.nFat == FatFor(guess) && System(e) == SystemSize(guess)
            && e.nRsv == (if e.fsType.Fat32? then 32 else 1) && e.nDir == if e.fsType.Fat32? then 0 else 32
  {
    hide FatFor, FirstFat, FatNeed, Bits;
    EstimateIs(nVol, bVol, au);
    var guess := Guess(nVol, au);
    var t := TypeOf(guess);
    FirstFatIs(t, guess);
    NeedInBits(t, guess);
    SectorsForBits(FatNeed(t, guess), Bits(t) * (guess + 2), FatFor(guess));
  }

  lemma SystemIsSmall(guess: nat)
    requires guess + 2 < TWO28
    ensures 33 < SystemSize(guess) < 0x20_0100
  {
    hide FatFor;
    assert FatFor(guess) * 4096 - 4096 < Bits(TypeOf(guess)) * (guess + 2) <= 32 * TWO28;
  }

  /** What the layout of the code comes to when the arithmetic of 32 bits is worked out. */
  lemma LayoutIs32(nVol: nat, bVol: nat, au: nat, n: nat)
    requires Formattable(nVol, bVol, au, n)
    ensures var guess, d, e := Guess(nVol, au), DataStart(nVol, bVol, au, n), Estimate(nVol, bVol, au);
            && bVol + SystemSize(guess) <= d
            && MkLayout(nVol, bVol, au, n) ==
                 if nVol < SystemSize(guess) + au then None
                 else
                   var l := Aligned(e, d - bVol - SystemSize(guess));
                   if (l.fsType.Fat16? && l.nClst < 4086) || (l.fsType.Fat32? && l.nClst < 65526) then None else Some(l)
  {
    hide Estimate, Wrap, Mask, PowerOfTwo, SystemSize, DataStart, Aligned;
    EstimateNumbers(nVol, bVol, au);
    var guess, d := Guess(nVol, au), DataStart(nVol, bVol, au, n);
    SystemIsSmall(guess);
    var bData := bVol + SystemSize(guess);
    WrapSmall(bData);
    WrapSmall(bData + au - bVol);
    WrapSmall(bData + n - 1);
    MaskRoundsUp(bData, n);
    OneBlock(bData, n, d, Mask(bData + n - 1, n));
    WrapSmall(d - bData);
  }

  /** There is one erase block in so many sectors. */
  lemma OneBlock(b: nat, n: nat, x: nat, y: nat)
    requires 0 < n && x % n == 0 && y % n == 0 && b <= x < b + n && b <= y < b + n
    ensures x == y
  {
    assert x == n * (x / n) && y == n * (y / n);
    var e := x / n - y / n;
    assert n * e == x - y;
    if e >= 1 { MulLower(n, e); } else if e <= -1 { MulLower(n, -e); }
  }

  lemma FarBeyond(x: nat, au: nat)
    requires 0 < au <= 128 && x >= TWO32 - 32768
    ensures x / au >= 65526
  {}

  /** The alignment of the estimate, in numbers. */
  lemma AlignedNumbers(nVol: nat, bVol: nat, au: nat, n: nat)
    requires Formattable(nVol, bVol, au, n) && SystemSize(Guess(nVol, au)) + au <= nVol
    ensures var d := DataStart(nVol, bVol, au, n);
            && bVol + SystemSize(Guess(nVol, au)) <= d
            && Aligned(Estimate(nVol, bVol, au), d - bVol - SystemSize(Guess(nVol, au))) == LayoutOf(nVol, bVol, au, n)
            && (d > bVol + nVol ==> LayoutOf(nVol, bVol, au, n).nClst >= 65526)
            && System(LayoutOf(nVol, bVol, au, n)) == d - bVol
  {
    hide Estimate, DataStart, FatFor, PowerOfTwo;
    EstimateNumbers(nVol, bVol, au);
    SystemIsSmall(Guess(nVol, au));
    var d := DataStart(nVol, bVol, au, n);
    if d > bVol + nVol {
      FarBeyond(TWO32 + bVol + nVol - d, au);
      WrapNegative(bVol + nVol - d);
    } else {
      WrapSmall(bVol + nVol - d);
    }
  }

  lemma WrapNegative(x: int)
    requires -0x1_0000_0000 <= x < 0
    ensures Wrap(x) == TWO32 + x
  {}

  /** f_mkfs lays out exactly the volumes that can be, and this is the layout. */
  lemma LayoutIff(nVol: nat, bVol: nat, au: nat, n: nat)
    requires Formattable(nVol, bVol, au, n)
    ensures MkLayout(nVol, bVol, au, n) ==
              if CanFormat(nVol, bVol, au, n) then Some(LayoutOf(nVol, bVol, au, n)) else None
    ensures HasRoom(LayoutOf(nVol, bVol, au, n)) <==> DataStart(nVol, bVol, au, n) + au <= bVol + nVol
  {
    hide MkLayout, Estimate, DataStart, Aligned, PowerOfTwo, SystemSize;
    LayoutIs32(nVol, bVol, au, n);
    if SystemSize(Guess(nVol, au)) + au <= nVol {
      AlignedNumbers(nVol, bVol, au, n);
    }
  }

  /** A cluster is left in the volume. */
  predicate LeavesCluster(nVol: nat, bVol: nat, au: nat, n: nat)
    requires 0 < au && 0 < n
  {
    CanFormat(nVol, bVol, au, n) && DataStart(nVol, bVol, au, n) + au <= bVol + nVol
  }

  /** The volume that a mount then finds: one FAT copy, and the root directory behind it. */
  function NewGeometry(nVol: nat, bVol: nat, au: nat, n: nat): Geometry
    requires 0 < au && 0 < n
  {
    var guess, d, left := Guess(nVol, au), DataStart(nVol, bVol, au, n), ClustersLeft(nVol, bVol, au, n);
    if guess >= 65526 then
      Geometry(Fat32, au, 1, 0, left + 2, FatFor(guess), bVol, d - FatFor(guess), 2, d)
    else
      Geometry(TypeOf(guess), au, 1, 512, left + 2, d - bVol - 33, bVol, bVol + 1, d - 32, d)
  }

  /** A mount accepts what f_mkfs has laid out exactly when a cluster is left. */
  lemma NewVolumeIs(nVol: nat, bVol: nat, au: nat, n: nat)
    requires Formattable(nVol, bVol, au, n) && CanFormat(nVol, bVol, au, n)
    ensures Analyze(BpbOf(LayoutOf(nVol, bVol, au, n)), bVol) ==
              if LeavesCluster(nVol, bVol, au, n) then Some(NewGeometry(nVol, bVol, au, n)) else None
  {
    hide MkLayout, Estimate, DataStart, Aligned, PowerOfTwo, SystemSize, Analyze, BpbOf, HasRoom, ValidGeometry,
      CanFormat, FatFor;
    LayoutIff(nVol, bVol, au, n);
    MkfsThenMount(nVol, bVol, au, n);
  }

  /** 64 MB with clusters of four sectors are FAT16. */
  lemma OrdinaryFat16()
    ensures Formattable(131_072, 0, 4, 1) && LeavesCluster(131_072, 0, 4, 1)
    ensures NewGeometry(131_072, 0, 4, 1) == Geometry(Fat16, 4, 1, 512, 32_729, 129, 0, 1, 130, 162)
  {
    assert FatFor(32_768) == 129 && DataStart(131_072, 0, 4, 1) == 162;
  }

  /** 1 GB in a partition on a medium erased by 4 MB, with clusters of eight sectors, is FAT32. */
  lemma OrdinaryFat32()
    ensures Formattable(2_097_152, 63, 8, 8192) && LeavesCluster(2_097_152, 63, 8, 8192)
    ensures NewGeometry(2_097_152, 63, 8, 8192) == Geometry(Fat32, 8, 1, 0, 261_129, 2049, 63, 6143, 2, 8192)
  {
    assert PowerOfTwo(16);
    assert PowerOfTwo(512);
    assert PowerOfTwo(8192);
    assert FatFor(262_144) == 2049 && DataStart(2_097_152, 63, 8, 8192) == 8192;
  }

  /** The smallest volume: 128 sectors with one cluster of half of them. */
  lemma OneClusterVolume()
    ensures Formattable(128, 0, 64, 1) && LeavesCluster(128, 0, 64, 1)
    ensures NewGeometry(128, 0, 64, 1) == Geometry(Fat12, 64, 1, 512, 3, 1, 0, 1, 2, 34)
  {
    assert FatFor(2) == 1 && DataStart(128, 0, 64, 1) == 34;
  }
}
