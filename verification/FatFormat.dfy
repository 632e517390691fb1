/**
 f_mkfs: the layout of a new volume, the boot sector that describes it, and the mount that
 finds it again.
 */
module FatFormat {
  import opened FatLayout
  import opened FatDirectory
  import opened FatMount
  import opened Options

  /** `x & ~(n - 1)` on 32 bits. */
  function Mask(x: nat, n: nat): nat
    requires 0 < n <= TWO32
  {
    And(x, TWO32 - n, 32)
  }

  lemma {:induction false} AndOnes(x: nat, bits: nat)
    requires x < Pow2(bits)
    ensures 0 < Pow2(bits) && And(x, Pow2(bits) - 1, bits) == x
    decreases bits
  {
    if bits > 0 {
      AndOnes(x / 2, bits - 1);
      assert (Pow2(bits) - 1) / 2 == Pow2(bits - 1) - 1;
    }
  }

  /** With a power of two, masking rounds down to a multiple. */
  lemma {:induction false} AndRoundsDown(x: nat, n: nat, bits: nat)
    requires PowerOfTwo(n) && n <= Pow2(bits) && x < Pow2(bits)
    ensures And(x, Pow2(bits) - n, bits) == x / n * n
    decreases bits
  {
    if n == 1 {
      AndOnes(x, bits);
    } else {
      AndRoundsDown(x / 2, n / 2, bits - 1);
      assert (Pow2(bits) - n) / 2 == Pow2(bits - 1) - n / 2;
      HalfRounded(x, n / 2);
    }
  }

  lemma HalfRounded(x: nat, m: nat)
    requires 0 < m
    ensures 2 * (x / 2 / m * m) == x / (2 * m) * (2 * m)
  {
    var q, r := x / 2 / m, x / 2 % m;
    assert x / 2 == m * q + r;
    ModUnique(x, 2 * m, q, 2 * r + x % 2);
  }

  lemma Pow2At32()
    ensures Pow2(32) == TWO32
  {
    assert Pow2(8) == 256;
    assert Pow2(16) == 0x1_0000;
    assert Pow2(24) == 0x100_0000;
  }

  lemma MaskIs(x: nat, n: nat)
    requires PowerOfTwo(n) && 0 < n <= TWO32 && x < TWO32
    ensures Mask(x, n) == x / n * n
  {
    hide And, PowerOfTwo, Pow2;
    Pow2At32();
    AndRoundsDown(x, n, 32);
  }

  /** Rounded up to the next erase block. */
  lemma MaskRoundsUp(b: nat, n: nat)
    requires PowerOfTwo(n) && 0 < n <= TWO32 && b + n - 1 < TWO32
    ensures b <= Mask(b + n - 1, n) < b + n && Mask(b + n - 1, n) % n == 0
  {
    hide Mask, PowerOfTwo;
    MaskIs(b + n - 1, n);
    var q := (b + n - 1) / n;
    assert b + n - 1 == n * q + (b + n - 1) % n;
    ModUnique(q * n, n, q, 0);
  }

  datatype Layout = Layout(fsType: FatType, au: nat, nVol: nat, bVol: nat, nRsv: nat, nFat: nat, nDir: nat, nClst: nat)

  /** FAT sectors for `n` clusters, as first estimated. */
  function FirstFat(t: FatType, n: nat): nat {
    match t
    case Fat12 => ((n * 3 + 1) / 2 + 3 + 511) / 512
    case Fat16 => (n * 2 + 4 + 511) / 512
    case Fat32 => Wrap(n * 4 + 8 + 511) / 512
  }

  /** Sectors before the data area. */
  function System(l: Layout): nat {
    l.nRsv + l.nFat + l.nDir
  }

  /** The first estimate, before the data area is aligned. */
  function Estimate(nVol: nat, bVol: nat, au: nat): Layout {
    var nClst := WholeClusters(nVol, au);
    var t := SubType(nClst);
    Layout(t, au, nVol, bVol, if t.Fat32? then 32 else 1, FirstFat(t, nClst), if t.Fat32? then 0 else 32, nClst)
  }

  /** The estimate with the data area moved up by `gap` sectors. */
  function Aligned(e: Layout, gap: nat): Layout {
    var l := if e.fsType.Fat32? then e.(nRsv := e.nRsv + gap) else e.(nFat := e.nFat + gap);
    l.(nClst := WholeClusters(Wrap(e.nVol - System(l)), e.au))
  }

  /**
   The layout of a volume of `nVol` sectors from `bVol` on, with `au` sectors per cluster on a
   medium with erase blocks of `n` sectors; none: the volume is too small.
   */
  function MkLayout(nVol: nat, bVol: nat, au: nat, n: nat): Option<Layout>
    requires 0 < n <= 32768
  {
    var e := Estimate(nVol, bVol, au);
    var bData := Wrap(bVol + System(e));
    if nVol < Wrap(bData + au - bVol) then None
    else
      var l := Aligned(e, Wrap(Mask(Wrap(bData + n - 1), n) - bData));
      if (l.fsType.Fat16? && l.nClst < MIN_FAT16) || (l.fsType.Fat32? && l.nClst < MIN_FAT32) then None
      else Some(l)
  }

  /** What f_mkfs stores about a layout in the boot sector. */
  function BpbOf(l: Layout): Bpb {
    var big := l.fsType.Fat32?;
    Bpb(512, l.au, l.nRsv, 1, if big then 0 else 512,
        if l.nVol < 0x1_0000 then l.nVol else 0, if big then 0 else l.nFat,
        if l.nVol < 0x1_0000 then 0 else l.nVol, if big then l.nFat else 0, if big then 2 else 0, if big then 1 else 0)
  }

  /** A size f_mkfs can format without overflow. */
  predicate Formattable(nVol: nat, bVol: nat, au: nat, n: nat) {
    && 0 < nVol && bVol + nVol < TWO32 && bVol <= 63
    && IsClusterSize(au) && PowerOfTwo(n) && 0 < n <= 32768
    && WholeClusters(nVol, au) + 2 < TWO28
  }

  lemma EstimateBounds(nVol: nat, bVol: nat, au: nat)
    requires bVol + nVol < TWO32 && WholeClusters(nVol, au) + 2 < TWO28
    ensures var e := Estimate(nVol, bVol, au);
            && 0 < e.nFat <= 0x20_0002 && (!e.fsType.Fat32? ==> e.nFat <= 257)
            && e.nFat * 512 >= NeededFat(e.fsType, e.nClst + 2)
  {
    hide WholeClusters, FirstFat, NeededFat;
    var n := WholeClusters(nVol, au);
    FirstFatBounds(SubType(n), n);
  }

  lemma FirstFatBounds(t: FatType, n: nat)
    requires n + 2 < TWO28 && (t.Fat12? ==> n < MIN_FAT16) && (t.Fat16? ==> n < MIN_FAT32)
    ensures 0 < FirstFat(t, n) <= 0x20_0002 && (!t.Fat32? ==> FirstFat(t, n) <= 257)
    ensures FirstFat(t, n) * 512 >= NeededFat(t, n + 2)
  {
    hide FirstFat, NeededFat;
    FirstFatIs(t, n);
    RoundedUp(FatNeed(t, n), FirstFat(t, n));
    NotMuchMore(FatNeed(t, n));
  }

  /** The bytes f_mkfs reckons with for the table of `n` clusters. */
  function FatNeed(t: FatType, n: nat): nat {
    match t
    case Fat12 => (n * 3 + 1) / 2 + 3
    case Fat16 => n * 2 + 4
    case Fat32 => n * 4 + 8
  }

  lemma FirstFatIs(t: FatType, n: nat)
    requires n + 2 < TWO28
    ensures FirstFat(t, n) == (FatNeed(t, n) + 511) / 512 && NeededFat(t, n + 2) <= FatNeed(t, n)
  {
    hide Wrap;
    if t.Fat12? {
      HalfAgain(n);
    } else if t.Fat32? {
      WrapSmall(n * 4 + 519);
    }
  }

  lemma HalfAgain(n: nat)
    ensures NeededFat(Fat12, n + 2) <= (n * 3 + 1) / 2 + 3
  {}

  lemma NotMuchMore(need: nat)
    ensures need <= 131_072 ==> (need + 511) / 512 <= 257
    ensures need <= 0x4000_0000 ==> (need + 511) / 512 <= 0x20_0002
  {}

  /** Unwrapped: the layout is the estimate moved up to the next erase block. */
  lemma LayoutIs(nVol: nat, bVol: nat, au: nat, n: nat) returns (gap: nat)
    requires Formattable(nVol, bVol, au, n) && MkLayout(nVol, bVol, au, n).Some?
    ensures gap < n && MkLayout(nVol, bVol, au, n).value == Aligned(Estimate(nVol, bVol, au), gap)
    ensures (bVol + System(Estimate(nVol, bVol, au)) + gap) % n == 0
  {
    hide Mask, Estimate, Wrap, WholeClusters;
    var e := Estimate(nVol, bVol, au);
    EstimateIs(nVol, bVol, au);
    EstimateBounds(nVol, bVol, au);
    var bData := bVol + System(e);
    WrapSmall(bData);
    WrapSmall(bData + n - 1);
    MaskRoundsUp(bData, n);
    gap := Mask(bData + n - 1, n) - bData;
    WrapSmall(gap);
  }

  lemma EstimateIs(nVol: nat, bVol: nat, au: nat)
    ensures var e := Estimate(nVol, bVol, au);
            && e.nVol == nVol && e.bVol == bVol && e.au == au && e.nRsv == (if e.fsType.Fat32? then 32 else 1)
            && e.nDir == (if e.fsType.Fat32? then 0 else 32)
            && e.nClst == WholeClusters(nVol, au) && e.fsType == SubType(e.nClst)
  {}

  lemma ClustersShrink(n: nat, m: nat, c: nat)
    requires m <= n
    ensures WholeClusters(m, c) <= WholeClusters(n, c)
  {
    if c > 0 {
      DataFits(n, c);
      DataFits(m, c);
      var d := WholeClusters(m, c) - WholeClusters(n, c);
      assert c * d == WholeClusters(m, c) * c - WholeClusters(n, c) * c;
      if d >= 1 { MulLower(c, d); }
    }
  }

  /** At least one cluster remains. */
  predicate HasRoom(l: Layout) {
    l.nVol >= System(l) + l.au
  }

  lemma RoomIsCluster(n: int, c: nat)
    requires 0 < c
    ensures n >= c <==> WholeClusters(n, c) >= 1
  {
    if n >= 0 { DataFits(n, c); }
    if 0 <= n < c { ModUnique(n, c, 0, n); }
  }

  lemma NeededMonotone(t: FatType, m: nat, n: nat)
    requires m <= n
    ensures NeededFat(t, m) <= NeededFat(t, n)
  {}

  /** The mount reads the layout's own numbers from its parameter block. */
  lemma MountReads(l: Layout)
    requires l.nVol < TWO32 && System(l) < TWO32 && 0 < l.nFat
    requires l.nDir == if l.fsType.Fat32? then 0 else 32
    ensures var b := BpbOf(l);
            && FatSectors(b) == l.nFat && TotalSectors(b) == l.nVol && SystemSectors(b) == System(l)
            && ClusterCount(b) == WholeClusters(l.nVol - System(l), l.au)
  {
    hide WholeClusters;
    AreaIs(l.nFat, 1);
  }

  /** A layout for which formatting succeeded. */
  ghost predicate Good(l: Layout, e: Layout, gap: nat) {
    && e.nVol < TWO32 && IsClusterSize(e.au) && e.nRsv == (if e.fsType.Fat32? then 32 else 1)
    && e.nDir == (if e.fsType.Fat32? then 0 else 32) && e.fsType == SubType(e.nClst)
    && e.nClst == WholeClusters(e.nVol, e.au) && e.nClst + 2 < TWO28
    && 0 < e.nFat <= 0x20_0002 && (!e.fsType.Fat32? ==> e.nFat <= 257)
    && e.nFat * 512 >= NeededFat(e.fsType, e.nClst + 2)
    && gap < 32768 && l == Aligned(e, gap)
    && !(l.fsType.Fat16? && l.nClst < MIN_FAT16) && !(l.fsType.Fat32? && l.nClst < MIN_FAT32)
  }

  lemma AcceptedIfRoom(l: Layout, e: Layout, gap: nat)
    requires Good(l, e, gap) && HasRoom(l)
    ensures Accepts(BpbOf(l)) && ClusterCount(BpbOf(l)) == l.nClst && SubType(l.nClst) == l.fsType
    ensures SystemSectors(BpbOf(l)) == System(l) && l.nClst + 2 < TWO28
  {
    hide WholeClusters, NeededFat, OneBit, Wrap;
    OneBitIsClusterSize(l.au);
    MountReads(l);
    WrapSmall(l.nVol - System(l));
    RoomIsCluster(l.nVol - System(l), l.au);
    ClustersShrink(l.nVol, l.nVol - System(l), l.au);
    NeededMonotone(l.fsType, l.nClst + 2, e.nClst + 2);
    NeededFits(l.fsType, l.nClst + 2);
    WrapSmall(l.nClst + 2);
  }

  lemma RefusedIfNot(l: Layout, e: Layout, gap: nat)
    requires Good(l, e, gap) && !HasRoom(l)
    ensures !Accepts(BpbOf(l))
  {
    hide WholeClusters, NeededFat, OneBit, Wrap;
    MountReads(l);
    RoomIsCluster(l.nVol - System(l), l.au);
  }

  /**
   A formatted volume is mounted again exactly when at least one cluster is left behind the
   alignment, with the same sub-type, cluster count, FAT and data start; the data area then
   starts on an erase block.
   */
  lemma MkfsThenMount(nVol: nat, bVol: nat, au: nat, n: nat)
    requires Formattable(nVol, bVol, au, n) && MkLayout(nVol, bVol, au, n).Some?
    ensures var l := MkLayout(nVol, bVol, au, n).value;
            var m := Analyze(BpbOf(l), bVol);
            && (m.Some? <==> HasRoom(l))
            && (m.Some? ==>
                  && m.value.fsType == l.fsType && m.value.nFatent == l.nClst + 2 && m.value.csize == au
                  && m.value.nFats == 1 && m.value.fsize == l.nFat && m.value.volbase == bVol
                  && m.value.fatbase == bVol + l.nRsv && m.value.database == bVol + System(l)
                  && m.value.database % n == 0 && m.value.nRootdir == (if l.fsType.Fat32? then 0 else 512)
                  && m.value.dirbase == (if l.fsType.Fat32? then 2 else bVol + l.nRsv + l.nFat)
                  && ValidGeometry(m.value, bVol + nVol) && RootGeometry(m.value))
  {
    hide Accepts, MkLayout, ValidGeometry, RootGeometry, Estimate, Wrap, WholeClusters, NeededFat, PowerOfTwo;
    var gap := LayoutIs(nVol, bVol, au, n);
    var e, l := Estimate(nVol, bVol, au), MkLayout(nVol, bVol, au, n).value;
    EstimateIs(nVol, bVol, au);
    EstimateBounds(nVol, bVol, au);
    LayoutPasses(nVol, bVol, au, n);
    assert Good(l, e, gap);
    if HasRoom(l) {
      AcceptedIfRoom(l, e, gap);
      MountReads(l);
      WrapSmall(l.nClst + 2);
      WrapSmall(bVol + l.nRsv);
      WrapSmall(bVol + l.nRsv + l.nFat);
      AreaIs(l.nFat, 1);
      WrapSmall(bVol + System(l));
      SoundLayout(l);
      MountIsValid(BpbOf(l), bVol, bVol + nVol);
    } else {
      RefusedIfNot(l, e, gap);
    }
  }

  lemma LayoutPasses(nVol: nat, bVol: nat, au: nat, n: nat)
    requires 0 < n <= 32768 && MkLayout(nVol, bVol, au, n).Some?
    ensures var l := MkLayout(nVol, bVol, au, n).value;
            !(l.fsType.Fat16? && l.nClst < MIN_FAT16) && !(l.fsType.Fat32? && l.nClst < MIN_FAT32)
  {
    hide Mask, Estimate, Wrap, WholeClusters, Aligned, System;
  }

  lemma SoundLayout(l: Layout)
    requires l.bVol + l.nVol < TWO32 && System(l) < TWO32 && l.au < 256
    requires l.nRsv < 0x1_0000 && (!l.fsType.Fat32? ==> l.nFat < 0x1_0000)
    requires FatSectors(BpbOf(l)) == l.nFat && TotalSectors(BpbOf(l)) == l.nVol && ClusterCount(BpbOf(l)) + 2 < TWO28
    requires l.nDir == if l.fsType.Fat32? then 0 else 32
    ensures InRange(BpbOf(l)) && Sound(BpbOf(l), l.bVol, l.bVol + l.nVol)
  {
    hide ClusterCount, SystemSectors;
  }

  /** The first estimate left room for a cluster, or there would be no layout. */
  lemma EstimateFits(nVol: nat, bVol: nat, au: nat, n: nat)
    requires Formattable(nVol, bVol, au, n) && MkLayout(nVol, bVol, au, n).Some?
    ensures System(Estimate(nVol, bVol, au)) + au <= nVol
  {
    hide Mask, Estimate, Wrap, WholeClusters, Aligned, PowerOfTwo;
    var e := Estimate(nVol, bVol, au);
    EstimateIs(nVol, bVol, au);
    EstimateBounds(nVol, bVol, au);
    WrapSmall(bVol + System(e));
    WrapSmall(bVol + System(e) + au - bVol);
  }

  /**
   A volume that f_mkfs lays out and no mount accepts: 128 sectors on a medium with erase blocks of
   32768 sectors, to the second of which the data area is moved.
   */
  lemma MkfsLeavesNoRoom()
    ensures Formattable(128, 0, 1, 32768) && MkLayout(128, 0, 1, 32768).Some?
    ensures !HasRoom(MkLayout(128, 0, 1, 32768).value) && Analyze(BpbOf(MkLayout(128, 0, 1, 32768).value), 0).None?
  {
    hide MkLayout, HasRoom, Formattable, Analyze, BpbOf, System, ValidGeometry, RootGeometry;
    LayoutWithoutRoom();
    MkfsThenMount(128, 0, 1, 32768);
  }

  lemma LayoutWithoutRoom()
    ensures Formattable(128, 0, 1, 32768) && MkLayout(128, 0, 1, 32768).Some? &&
              !HasRoom(MkLayout(128, 0, 1, 32768).value)
  {
    hide Mask, PowerOfTwo;
    BlockIsPower();
    var e := Estimate(128, 0, 1);
    assert WholeClusters(128, 1) == 128;
    assert e.nFat == 1 && System(e) == 34;
    MaskIs(34 + 32767, 32768);
    assert Mask(Wrap(34 + 32768 - 1), 32768) == 32768;
  }

  lemma BlockIsPower()
    ensures PowerOfTwo(32768)
  {
    assert PowerOfTwo(16);
    assert PowerOfTwo(512);
  }
}
