/** Two small volumes on which f_getfree leaves a free count that is not right. */
module FatFreeCount {
  import opened FatLayout
  import opened FatChains
  import opened FatVolume

  /** Eight sectors of zeros. */
  function Zeros(): (img: Image)
    ensures |img| == 8 && forall s :: 0 <= s < 8 ==> |img[s]| == 512 && forall i :: 0 <= i < 512 ==> img[s][i] == 0
  {
    seq(8, s => seq(512, i => 0))
  }

  /** A boot sector, a FAT of one sector and clusters of one sector, of which there are two. */
  function Small(t: FatType): Geometry {
    Geometry(t, 1, 1, 0, 4, 1, 0, 1, 2, 2)
  }

  lemma SmallIsValid(t: FatType)
    ensures ValidGeometry(Small(t), 8)
  {}

  /** A FAT16 table of zeros: its entries 0 and 1 are counted with the two free clusters. */
  method MiscountsHead() returns (fs: Volume, n: nat)
    ensures fs.Valid() && n == fs.freeClust == 4 && FreeSet(fs.Fat()) == {2, 3} && !fs.FreeExact()
  {
    hide ValidGeometry, Volume.Valid, Volume.Logical, Volume.Fat, Volume.Reserved, FatBytes, Entries, FatByte,
      TableOf;
    SmallIsValid(Fat16);
    TableOfZeros();
    fs := new Volume.Mount(Small(Fat16), Zeros(), false, UNKNOWN, UNKNOWN);
    var res;
    res, n := fs.GetFree();
    assert FreeSet(fs.Fat()) == {2, 3};
  }

  lemma TableOfZeros()
    ensures ValidGeometry(Small(Fat16), 8) && Mirrored(Small(Fat16), Zeros()) &&
              TableOf(Small(Fat16), Zeros()) == [0, 0, 0, 0]
  {
    SmallIsValid(Fat16);
  }

  /** The second FAT sector byte that makes entry 2 of a FAT12 table reserved. */
  function OneReserved(): (img: Image)
    ensures |img| == 8 && forall s :: 0 <= s < 8 ==> |img[s]| == 512
  {
    Zeros()[1 := Zeros()[1][3 := 1]]
  }

  /** A FAT12 table with a free cluster behind a reserved entry: the scan ends before it, and its count is kept. */
  method MiscountsTail() returns (fs: Volume, res: FResult, n: nat)
    ensures fs.Valid() && res == IntErr && n == fs.freeClust == 0 && FreeSet(fs.Fat()) == {3} && !fs.FreeExact()
  {
    hide ValidGeometry, Volume.Valid, Volume.Logical, Volume.Fat, Volume.Reserved, FatBytes, Entries, FatByte,
      TableOf, OneReserved;
    SmallIsValid(Fat12);
    TableOfOneReserved();
    fs := new Volume.Mount(Small(Fat12), OneReserved(), false, UNKNOWN, UNKNOWN);
    res, n := fs.GetFree();
    assert fs.Fat() == [0, 0, 1, 0];
    TailCount(fs, fs.Fat(), n);
  }

  lemma TailCount(fs: Volume, fat: seq<nat>, n: nat)
    requires fat == [0, 0, 1, 0]
    ensures HasReserved(fat) && FreeSet(fat) == {3} && (fs.Partial(fat, n) ==> n == 0)
    ensures exists r: nat :: FirstReserved(fat, r) && !NoneFreeFrom(fat, r)
  {
    assert IsCluster(fat, 2) && IsCluster(fat, 3) && FirstReserved(fat, 2);
    assert !NoneFreeFrom(fat, 2);
    if fs.Partial(fat, n) {
      var r: nat :| FirstReserved(fat, r) && n + Zero(fat[0]) + Zero(fat[1]) == ZeroCount(fat, r);
      FirstReservedUnique(fat, r, 2);
      assert ZeroCount(fat, 1) == 1 && ZeroCount(fat, 2) == 2;
    }
  }

  lemma TableOfOneReserved()
    ensures ValidGeometry(Small(Fat12), 8) && Mirrored(Small(Fat12), OneReserved())
    ensures TableOf(Small(Fat12), OneReserved()) == [0, 0, 1, 0]
  {
    hide ValidGeometry, Entries, EntryOffset, EntryWidth;
    SmallIsValid(Fat12);
    var fb := FatBytes(Small(Fat12), OneReserved());
    forall i | 0 <= i < 512 ensures fb[i] == if i == 3 then 1 else 0 {
      assert i / 512 == 0 && i % 512 == i;
    }
    EntriesOfOne(fb);
  }

  lemma EntriesOfOne(fb: seq<Byte>)
    requires |fb| == 512 && forall i :: 0 <= i < 512 ==> fb[i] == if i == 3 then 1 else 0
    ensures EntryOffset(Fat12, 3) + EntryWidth(Fat12) <= 512 && Entries(Fat12, fb, 4) == [0, 0, 1, 0]
  {
    assert Entry(Fat12, fb, 0) == 0 && Entry(Fat12, fb, 1) == 0 && Entry(Fat12, fb, 2) == 1 && Entry(Fat12, fb, 3) == 0;
  }
}
