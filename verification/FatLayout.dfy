/**
 The byte level of a FAT volume: geometry, the disk image, and the packed FAT
 entries of the three sub-types.

 Bit operations of the original are written as the equal arithmetic on bytes:
 `x & 0x0F` is `x % 16`, `x << 4` on a byte is `x % 16 * 16`, and so on.
 */
module FatLayout {

  type Byte = b: int | 0 <= b < 256

  /**
   One sector. The configuration fixes the sector size to 512 bytes; the number is written
   out everywhere so that offset arithmetic stays linear for the verifier.
   */
  type Sector = seq<Byte>

  /** A whole medium, indexed by sector number. */
  type Image = seq<Sector>

  datatype FatType = Fat12 | Fat16 | Fat32

  const TWO32: nat := 0x1_0000_0000
  const TWO28: nat := 0x1000_0000

  /** The value put_fat stores to end a chain, and the "unknown" free count. */
  const END_OF_CHAIN: nat := 0x0FFF_FFFF
  const UNKNOWN: nat := 0xFFFF_FFFF

  /** The fields of a mounted file system object that stay fixed until it is unmounted. */
  datatype Geometry = Geometry(
    fsType: FatType,
    csize: nat,     // sectors per cluster
    nFats: nat,     // FAT copies
    nRootdir: nat,  // entries of the static root directory
    nFatent: nat,   // FAT entries: clusters + 2
    fsize: nat,     // sectors per FAT copy
    volbase: nat,
    fatbase: nat,
    dirbase: nat,   // a cluster number on FAT32, a sector number otherwise
    database: nat)

  predicate IsClusterSize(csize: nat) {
    csize == 1 || csize == 2 || csize == 4 || csize == 8 || csize == 16 || csize == 32 || csize == 64 || csize == 128
  }

  /** Unsigned 32-bit subtraction. */
  function Sub32(a: nat, b: nat): (r: nat) {
    if a >= b then a - b else (a - b) % 0x1_0000_0000
  }

  /** Unsigned 32-bit addition. */
  function Add32(a: nat, b: nat): (r: nat) {
    if a + b < TWO32 then a + b else (a + b) % 0x1_0000_0000
  }

  /** Number of values an entry can hold. */
  function EntryRange(t: FatType): nat {
    match t case Fat12 => 0x1000 case Fat16 => 0x1_0000 case Fat32 => TWO28
  }

  /** The bits of a value that an entry keeps. */
  function Kept(t: FatType, val: nat): nat {
    match t case Fat12 => val % 0x1000 case Fat16 => val % 0x1_0000 case Fat32 => val % 0x1000_0000
  }

  /** First byte, within a FAT copy, of entry `c`. */
  function EntryOffset(t: FatType, c: nat): nat {
    match t case Fat12 => c + c / 2 case Fat16 => 2 * c case Fat32 => 4 * c
  }

  function EntryWidth(t: FatType): nat {
    match t case Fat12 => 2 case Fat16 => 2 case Fat32 => 4
  }

  /** Sectors of all FAT copies. */
  function FatSpan(g: Geometry): nat {
    if g.nFats == 2 then 2 * g.fsize else g.fsize
  }

  /** What a mounted volume on a medium of `nSectors` sectors satisfies. */
  predicate ValidGeometry(g: Geometry, nSectors: nat) {
    && IsClusterSize(g.csize)
    && (g.nFats == 1 || g.nFats == 2)
    && 3 <= g.nFatent < EntryRange(g.fsType)
    && g.volbase < g.fatbase
    && 0 < g.fsize
    && g.fatbase + FatSpan(g) <= g.database
    && EntryOffset(g.fsType, g.nFatent - 1) + EntryWidth(g.fsType) <= g.fsize * 512
    && g.database + (g.nFatent - 2) * g.csize <= nSectors <= TWO32
  }

  /** The sector lies in the first FAT copy. */
  predicate InFat(g: Geometry, s: nat) {
    g.fatbase <= s < g.fatbase + g.fsize
  }

  /** The sector lies in the second FAT copy, if there is one. */
  predicate InMirror(g: Geometry, s: nat) {
    g.nFats == 2 && g.fatbase + g.fsize <= s < g.fatbase + 2 * g.fsize
  }

  ghost predicate WellSized(g: Geometry, img: Image) {
    forall s :: 0 <= s < |img| ==> |img[s]| == 512
  }

  /** The FAT copies hold the same bytes. */
  ghost predicate Mirrored(g: Geometry, img: Image) {
    g.nFats == 2 ==>
      g.fatbase + 2 * g.fsize <= |img| &&
      forall s: nat {:trigger InFat(g, s)} :: InFat(g, s) ==> img[s] == img[s + g.fsize]
  }

  /** `img` with `sec` in place of sector `s`, and of its copy when `s` is a FAT sector. */
  ghost function Overlay(g: Geometry, img: Image, s: nat, sec: Sector): (r: Image)
    requires s < |img|
    requires InFat(g, s) && g.nFats == 2 ==> s + g.fsize < |img|
    ensures |r| == |img| && r[s] == sec
    ensures forall k :: 0 <= k < |img| && k != s && !InMirror(g, k) ==> r[k] == img[k]
  {
    if InFat(g, s) && g.nFats == 2 then img[s := sec][s + g.fsize := sec] else img[s := sec]
  }

  /** Byte `i` of the first FAT copy. */
  ghost function FatByte(g: Geometry, img: Image, i: nat): Byte
    requires ValidGeometry(g, |img|) && WellSized(g, img) && i < g.fsize * 512
  {
    img[g.fatbase + i / 512][i % 512]
  }

  /** The bytes of the first FAT copy. */
  ghost function FatBytes(g: Geometry, img: Image): (fb: seq<Byte>)
    requires ValidGeometry(g, |img|) && WellSized(g, img)
    ensures |fb| == g.fsize * 512
    ensures forall i :: 0 <= i < |fb| ==> fb[i] == FatByte(g, img, i)
  {
    seq(g.fsize * 512, i requires 0 <= i < g.fsize * 512 => FatByte(g, img, i))
  }

  /** Byte `i` of a value stored with the low byte first. */
  function ByteOf(v: nat, i: nat): Byte {
    if i == 0 then v % 256
    else if i == 1 then v / 0x100 % 256
    else if i == 2 then v / 0x1_0000 % 256
    else v / 0x100_0000 % 256
  }

  function LoadWord(b0: int, b1: int): int {
    b0 + 0x100 * b1
  }

  function LoadDword(b0: int, b1: int, b2: int, b3: int): int {
    b0 + 0x100 * b1 + 0x1_0000 * b2 + 0x100_0000 * b3
  }

  /** Entry `c` of a FAT given as bytes. */
  function Entry(t: FatType, fb: seq<Byte>, c: nat): (e: nat)
    requires EntryOffset(t, c) + EntryWidth(t) <= |fb|
    ensures e < EntryRange(t)
  {
    match t
    case Fat12 =>
      var wc := LoadWord(fb[c + c / 2], fb[c + c / 2 + 1]);
      if c % 2 == 1 then wc / 16 else wc % 4096
    case Fat16 =>
      LoadWord(fb[2 * c], fb[2 * c + 1])
    case Fat32 =>
      LoadDword(fb[4 * c], fb[4 * c + 1], fb[4 * c + 2], fb[4 * c + 3]) % 0x1000_0000
  }

  lemma EntryFromBytes(t: FatType, fb: seq<Byte>, c: nat, e: seq<Byte>)
    requires EntryOffset(t, c) + EntryWidth(t) <= |fb|
    requires e == fb[EntryOffset(t, c)..EntryOffset(t, c) + EntryWidth(t)]
    ensures t.Fat16? ==> Entry(t, fb, c) == LoadWord(e[0], e[1])
    ensures t.Fat32? ==> Entry(t, fb, c) == LoadDword(e[0], e[1], e[2], e[3]) % 0x1000_0000
  {}

  lemma EntryOffsetMonotone(t: FatType, c: nat, d: nat)
    requires c <= d
    ensures EntryOffset(t, c) <= EntryOffset(t, d)
  {}

  /** The table as a sequence of `n` entries. */
  ghost function Entries(t: FatType, fb: seq<Byte>, n: nat): (fat: seq<nat>)
    requires n == 0 || EntryOffset(t, n - 1) + EntryWidth(t) <= |fb|
    ensures |fat| == n
    ensures forall c :: 0 <= c < n ==> EntryOffset(t, c) + EntryWidth(t) <= |fb| && fat[c] == Entry(t, fb, c)
  {
    seq(n, c requires 0 <= c < n => EntryOffsetMonotone(t, c, n - 1); Entry(t, fb, c))
  }

  /** The allocation table on a medium. */
  ghost function TableOf(g: Geometry, img: Image): (fat: seq<nat>)
    requires ValidGeometry(g, |img|) && WellSized(g, img)
    ensures |fat| == g.nFatent
  {
    Entries(g.fsType, FatBytes(g, img), g.nFatent)
  }

  /**
   `e` is entry `c` of the table in these bytes: two of them on FAT16, four on FAT32 of which the upper four bits do
   not count, and on FAT12 three for two entries, always with the low byte first.
   */
  predicate IsEntry(t: FatType, fb: seq<int>, c: nat, e: int) {
    match t
    case Fat12 =>
      var k := c / 2 * 3;
      if c % 2 == 0 then k + 1 < |fb| && e == fb[k] + 256 * (fb[k + 1] % 16)
      else k + 2 < |fb| && e == fb[k + 1] / 16 + 16 * fb[k + 2]
    case Fat16 =>
      2 * c + 1 < |fb| && e == fb[2 * c] + 256 * fb[2 * c + 1]
    case Fat32 =>
      && 4 * c + 3 < |fb|
      && e == fb[4 * c] + 256 * fb[4 * c + 1] + 65536 * fb[4 * c + 2] + 16777216 * (fb[4 * c + 3] % 16)
  }

  /** Where the entries of the table on a medium are, in numbers. */
  lemma EntriesAre(g: Geometry, img: Image, c: nat)
    requires ValidGeometry(g, |img|) && WellSized(g, img) && c < g.nFatent
    ensures IsEntry(g.fsType, FatBytes(g, img), c, TableOf(g, img)[c])
  {
    hide ValidGeometry, WellSized, FatByte, IsEntry, Entry, EntryOffset, EntryWidth;
    TableFits(g, |img|);
    EntryOffsetMonotone(g.fsType, c, g.nFatent - 1);
    EntryIs(g.fsType, FatBytes(g, img), c);
  }

  lemma TableFits(g: Geometry, nSectors: nat)
    requires ValidGeometry(g, nSectors)
    ensures 0 < g.nFatent && EntryOffset(g.fsType, g.nFatent - 1) + EntryWidth(g.fsType) <= g.fsize * 512
  {}

  lemma EntryIs(t: FatType, fb: seq<Byte>, c: nat)
    requires EntryOffset(t, c) + EntryWidth(t) <= |fb|
    ensures IsEntry(t, fb, c, Entry(t, fb, c))
  {
    match t {
      case Fat12 => Entry12Is(fb, c);
      case Fat16 =>
      case Fat32 => Entry32Is(fb, c);
    }
  }

  lemma Entry12Is(fb: seq<Byte>, c: nat)
    requires EntryOffset(Fat12, c) + 2 <= |fb|
    ensures IsEntry(Fat12, fb, c, Entry(Fat12, fb, c))
  {
    var b: seq<int> := fb;
    var k := c / 2 * 3;
    if c % 2 == 0 {
      assert c + c / 2 == k;
      ModUnique(LoadWord(b[k], b[k + 1]), 4096, b[k + 1] / 16, b[k] + 256 * (b[k + 1] % 16));
    } else {
      assert c + c / 2 == k + 1;
      ModUnique(LoadWord(b[k + 1], b[k + 2]), 16, b[k + 1] / 16 + 16 * b[k + 2], b[k + 1] % 16);
    }
  }

  lemma Entry32Is(fb: seq<Byte>, c: nat)
    requires EntryOffset(Fat32, c) + 4 <= |fb|
    ensures IsEntry(Fat32, fb, c, Entry(Fat32, fb, c))
  {
    var b: seq<int> := fb;
    var o := 4 * c;
    ModUnique(LoadDword(b[o], b[o + 1], b[o + 2], b[o + 3]), 0x1000_0000, b[o + 3] / 16,
              LoadDword(b[o], b[o + 1], b[o + 2], b[o + 3] % 16));
  }

  lemma KeptSmall(t: FatType, v: nat)
    requires v < EntryRange(t)
    ensures Kept(t, v) == v
  {}

  /** The end mark reads back as no cluster number of the volume. */
  lemma EndMark(g: Geometry, nSectors: nat)
    requires ValidGeometry(g, nSectors)
    ensures Kept(g.fsType, END_OF_CHAIN) >= g.nFatent
  {}

  /** The two bytes put_fat stores for a FAT12 entry, given the bytes found there. */
  function Low12(c: nat, old0: Byte, val: nat): Byte {
    if c % 2 == 1 then old0 % 16 + val % 16 * 16 else val % 256
  }

  function High12(c: nat, old1: Byte, val: nat): Byte {
    if c % 2 == 1 then val / 16 % 256 else old1 / 16 * 16 + val / 256 % 16
  }

  /** Bitwise or of the lowest `bits` bits. */
  function Or(a: nat, b: nat, bits: nat): (r: nat)
    ensures bits == 0 ==> r == 0
    ensures bits == 1 ==> r < 2
    ensures bits == 2 ==> r < 4
    ensures bits == 3 ==> r < 8
    ensures bits == 4 ==> r < 16
  {
    if bits == 0 then 0
    else (if a % 2 == 1 || b % 2 == 1 then 1 else 0) + 2 * Or(a / 2, b / 2, bits - 1)
  }

  /** The top byte put_fat stores for a FAT32 entry: the reserved nibble is kept, or-ed with that of `val`. */
  function High32(old3: Byte, val: nat): (r: Byte)
    ensures r % 16 == val / 0x100_0000 % 16
  {
    Or(old3 / 16, val / 0x1000_0000, 4) * 16 + val / 0x100_0000 % 16
  }

  /** The FAT bytes after put_fat. */
  ghost function Updated(t: FatType, fb: seq<Byte>, c: nat, val: nat): (r: seq<Byte>)
    requires EntryOffset(t, c) + EntryWidth(t) <= |fb|
    ensures |r| == |fb|
  {
    var o := EntryOffset(t, c);
    match t
    case Fat12 => fb[o := Low12(c, fb[o], val)][o + 1 := High12(c, fb[o + 1], val)]
    case Fat16 => fb[o := val % 256][o + 1 := val / 256 % 256]
    case Fat32 =>
      fb[o := val % 256][o + 1 := val / 256 % 256][o + 2 := val / 0x1_0000 % 256][o + 3 := High32(fb[o + 3], val)]
  }

  lemma ModUnique(q: int, d: int, h: int, r: int)
    requires d > 0 && q == r + d * h && 0 <= r < d
    ensures q % d == r && q / d == h
  {
    var e := q / d - h;
    assert q == d * (q / d) + q % d;
    assert d * e == d * (q / d) - d * h;
    if e >= 1 {
      MulLower(d, e);
    } else if e <= -1 {
      MulLower(d, -e);
    }
  }

  lemma MulLower(d: int, e: int)
    requires d > 0 && e >= 1
    ensures d * e >= d && d * -e <= -d
  {
    assert d * e == d * (e - 1) + d;
  }

  lemma SplitMod12(v: nat)
    ensures v % 4096 == v % 16 + 16 * (v / 16 % 256)
    ensures v % 4096 == v % 256 + 256 * (v / 256 % 16)
  {
    ModUnique(v, 4096, v / 16 / 256, v % 16 + 16 * (v / 16 % 256));
    ModUnique(v, 4096, v / 256 / 16, v % 256 + 256 * (v / 256 % 16));
  }

  lemma SplitMod16(v: nat)
    ensures v % 0x1_0000 == v % 256 + 256 * (v / 256 % 256)
  {
    ModUnique(v, 0x1_0000, v / 256 / 256, v % 256 + 256 * (v / 256 % 256));
  }

  lemma SplitMod24(v: nat)
    ensures v % 0x100_0000 == v % 0x1_0000 + 0x1_0000 * (v / 0x1_0000 % 256)
  {
    ModUnique(v, 0x100_0000, v / 0x1_0000 / 256, v % 0x1_0000 + 0x1_0000 * (v / 0x1_0000 % 256));
  }

  lemma SplitMod28(v: nat)
    ensures v % 0x1000_0000 == v % 0x100_0000 + 0x100_0000 * (v / 0x100_0000 % 16)
  {
    ModUnique(v, 0x1000_0000, v / 0x100_0000 / 16, v % 0x100_0000 + 0x100_0000 * (v / 0x100_0000 % 16));
  }

  lemma WordBack(v: nat)
    requires v < 0x1_0000
    ensures LoadWord(ByteOf(v, 0), ByteOf(v, 1)) == v
  {
    SplitMod16(v);
  }

  lemma DwordBack(v: nat)
    requires v < TWO32
    ensures LoadDword(ByteOf(v, 0), ByteOf(v, 1), ByteOf(v, 2), ByteOf(v, 3)) == v
  {
    var hi := v / 0x1_0000;
    SplitMod16(v);
    SplitMod16(hi);
    HighByte(v);
    ModUnique(hi, 0x1_0000, 0, hi);
    assert v == v % 0x1_0000 + 0x1_0000 * hi;
  }

  lemma HighByte(v: nat)
    requires v < TWO32
    ensures 0 <= v / 0x1_0000 < 0x1_0000 && v / 0x100_0000 == v / 0x1_0000 / 0x100
  {
    var hi := v / 0x1_0000;
    ModUnique(v, 0x100_0000, hi / 0x100, v % 0x1_0000 + 0x1_0000 * (hi % 0x100));
  }

  lemma Fat12Written(c: nat, b0: Byte, b1: Byte, val: nat)
    ensures var wc := LoadWord(Low12(c, b0, val), High12(c, b1, val));
            (if c % 2 == 1 then wc / 16 else wc % 4096) == val % 4096
  {
    var wc := LoadWord(Low12(c, b0, val), High12(c, b1, val));
    SplitMod12(val);
    if c % 2 == 1 {
      ModUnique(wc, 16, val % 4096, b0 % 16);
    } else {
      ModUnique(wc, 4096, b1 / 16, val % 4096);
    }
  }

  /** Half bytes that belong to the neighbouring entry are kept. */
  lemma Fat12Neighbour(c: nat, b0: Byte, b1: Byte, val: nat)
    ensures c % 2 == 1 ==> Low12(c, b0, val) % 16 == b0 % 16
    ensures c % 2 == 0 ==> High12(c, b1, val) / 16 == b1 / 16
  {
    ModUnique(b0 % 16 + val % 16 * 16, 16, val % 16, b0 % 16);
    ModUnique(b1 / 16 * 16 + val / 256 % 16, 16, b1 / 16, val / 256 % 16);
  }

  lemma OddEntry(b0: Byte, a: Byte, b1: Byte)
    requires a / 16 == b0 / 16
    ensures LoadWord(a, b1) / 16 == LoadWord(b0, b1) / 16
  {
    ModUnique(LoadWord(a, b1), 16, a / 16 + 16 * b1, a % 16);
    ModUnique(LoadWord(b0, b1), 16, b0 / 16 + 16 * b1, b0 % 16);
  }

  lemma EvenEntry(b0: Byte, a: Byte, b1: Byte)
    requires a % 16 == b1 % 16
    ensures LoadWord(b0, a) % 4096 == LoadWord(b0, b1) % 4096
  {
    ModUnique(LoadWord(b0, a), 4096, a / 16, b0 + 256 * (a % 16));
    ModUnique(LoadWord(b0, b1), 4096, b1 / 16, b0 + 256 * (b1 % 16));
  }

  /** Writing one entry is a map update, in spite of shared bytes. */
  lemma UpdateIsMapUpdate(t: FatType, fb: seq<Byte>, c: nat, val: nat, d: nat)
    requires EntryOffset(t, c) + EntryWidth(t) <= |fb|
    requires EntryOffset(t, d) + EntryWidth(t) <= |fb|
    ensures Entry(t, Updated(t, fb, c, val), d) == if d == c then Kept(t, val) else Entry(t, fb, d)
  {
    match t {
      case Fat12 =>
        Update12(fb, c, val, d);
      case Fat16 =>
        SplitMod16(val);
      case Fat32 =>
        Update32(fb, c, val, d);
    }
  }

  lemma Fat32Written(b3: Byte, val: nat)
    ensures LoadDword(val % 256, val / 256 % 256, val / 0x1_0000 % 256, High32(b3, val)) % 0x1000_0000 ==
              val % 0x1000_0000
  {
    SplitMod16(val);
    SplitMod24(val);
    SplitMod28(val);
    var top := High32(b3, val);
    ModUnique(LoadDword(val % 256, val / 256 % 256, val / 0x1_0000 % 256, top), 0x1000_0000, top / 16,
      val % 0x1000_0000);
  }

  lemma Update32(fb: seq<Byte>, c: nat, val: nat, d: nat)
    requires 4 * c + 4 <= |fb| && 4 * d + 4 <= |fb|
    ensures Entry(Fat32, Updated(Fat32, fb, c, val), d) == if d == c then val % 0x1000_0000 else Entry(Fat32, fb, d)
  {
    var r := Updated(Fat32, fb, c, val);
    if d == c {
      Fat32Written(fb[4 * c + 3], val);
    } else {
      assert r[4 * d] == fb[4 * d] && r[4 * d + 1] == fb[4 * d + 1];
      assert r[4 * d + 2] == fb[4 * d + 2] && r[4 * d + 3] == fb[4 * d + 3];
    }
  }

  lemma Update12(fb: seq<Byte>, c: nat, val: nat, d: nat)
    requires EntryOffset(Fat12, c) + 2 <= |fb|
    requires EntryOffset(Fat12, d) + 2 <= |fb|
    ensures Entry(Fat12, Updated(Fat12, fb, c, val), d) == if d == c then val % 4096 else Entry(Fat12, fb, d)
  {
    var o, p := c + c / 2, d + d / 2;
    var r := Updated(Fat12, fb, c, val);
    Fat12Neighbour(c, fb[o], fb[o + 1], val);
    if d == c {
      Fat12Written(c, fb[o], fb[o + 1], val);
    } else if d == c + 1 && c % 2 == 0 {
      assert p == o + 1;
      OddEntry(fb[p], r[p], fb[p + 1]);
    } else if d + 1 == c && c % 2 == 1 {
      assert p + 1 == o;
      EvenEntry(fb[p], r[p + 1], fb[p + 1]);
    } else {
      assert r[p] == fb[p] && r[p + 1] == fb[p + 1];
    }
  }

  /** Bit `k` of a number. */
  predicate Bit(x: nat, k: nat) {
    if k == 0 then x % 2 == 1 else Bit(x / 2, k - 1)
  }

  lemma {:induction false} OrBit(a: nat, b: nat, bits: nat, k: nat)
    requires k < bits
    ensures Bit(Or(a, b, bits), k) <==> Bit(a, k) || Bit(b, k)
    decreases k
  {
    if k > 0 {
      OrBit(a / 2, b / 2, bits - 1, k - 1);
      assert Or(a, b, bits) / 2 == Or(a / 2, b / 2, bits - 1);
    }
  }

  lemma OrNothing(a: nat)
    requires a < 16
    ensures Or(a, 0, 4) == a
  {
    assert Or(a / 2 / 2 / 2, 0, 1) == a / 2 / 2 / 2;
    assert Or(a / 2 / 2, 0, 2) == a / 2 / 2;
    assert Or(a / 2, 0, 3) == a / 2;
  }

  /** The reserved upper four bits of entry `c` of a FAT32 table given as bytes. */
  function Nibble(fb: seq<Byte>, c: nat): nat
    requires 4 * c + 4 <= |fb|
  {
    fb[4 * c + 3] / 16
  }

  /** The reserved bits of all entries; other sub-types have none. */
  ghost function Nibbles(t: FatType, fb: seq<Byte>, n: nat): (r: seq<nat>)
    requires n == 0 || EntryOffset(t, n - 1) + EntryWidth(t) <= |fb|
    ensures t.Fat32? ==> |r| == n && forall c :: 0 <= c < n ==> r[c] == Nibble(fb, c)
  {
    if t.Fat32? then seq(n, c requires 0 <= c < n => Nibble(fb, c)) else []
  }

  lemma NibblesKept(t: FatType, fb: seq<Byte>, n: nat, c: nat, val: nat)
    requires c < n && EntryOffset(t, n - 1) + EntryWidth(t) <= |fb| && val < TWO28
    ensures EntryOffset(t, c) + EntryWidth(t) <= |fb| && Nibbles(t, Updated(t, fb, c, val), n) == Nibbles(t, fb, n)
  {
    hide Updated, Nibble;
    EntryOffsetMonotone(t, c, n - 1);
    if t.Fat32? {
      forall d | 0 <= d < n ensures Nibble(Updated(t, fb, c, val), d) == Nibble(fb, d) {
        NibbleKept(fb, c, val, d);
      }
    }
  }

  /**
   put_fat on FAT32 sets a reserved bit of its entry exactly if it was set or is set in the value, and changes none
   of another entry; with a value of 28 bits no reserved bit of the table changes.
   */
  lemma NibbleKept(fb: seq<Byte>, c: nat, val: nat, d: nat)
    requires 4 * c + 4 <= |fb| && 4 * d + 4 <= |fb|
    ensures var r := Updated(Fat32, fb, c, val);
            && (forall k: nat :: k < 4 ==>
                  (Bit(Nibble(r, d), k) <==> Bit(Nibble(fb, d), k) || (d == c && Bit(val / 0x1000_0000, k))))
            && (d != c || val < TWO28 ==> Nibble(r, d) == Nibble(fb, d))
  {
    hide Or, Bit;
    var r := Updated(Fat32, fb, c, val);
    if d == c {
      var old3 := fb[4 * c + 3];
      var or := Or(old3 / 16, val / 0x1000_0000, 4);
      ModUnique(r[4 * c + 3], 16, or, val / 0x100_0000 % 16);
      forall k: nat | k < 4 ensures Bit(or, k) <==> Bit(old3 / 16, k) || Bit(val / 0x1000_0000, k) {
        OrBit(old3 / 16, val / 0x1000_0000, 4, k);
      }
      if val < TWO28 { OrNothing(old3 / 16); }
    } else {
      assert r[4 * d + 3] == fb[4 * d + 3];
    }
  }

  /** disk_write: `cc` sectors of `data` from sector `sect` on. */
  ghost function WriteRun(img: Image, sect: nat, cc: nat, data: seq<Byte>): (r: Image)
    requires sect + cc <= |img| && cc * 512 <= |data|
    ensures |r| == |img|
    ensures forall s :: 0 <= s < |img| && !(sect <= s < sect + cc) ==> r[s] == img[s]
    ensures forall s :: sect <= s < sect + cc ==> r[s] == data[(s - sect) * 512..(s - sect + 1) * 512]
    decreases cc
  {
    if cc == 0 then img else WriteRun(img, sect, cc - 1, data)[sect + cc - 1 := data[(cc - 1) * 512..cc * 512]]
  }

  lemma WriteOne(img: Image, s: nat, sec: Sector)
    requires s < |img| && |sec| == 512
    ensures WriteRun(img, s, 1, sec) == img[s := sec]
  {
    assert sec[0..512] == sec;
    assert WriteRun(img, s, 0, sec) == img;
  }

  /** disk_read of `cc` sectors. */
  ghost function ReadRun(img: Image, sect: nat, cc: nat): (data: seq<Byte>)
    requires sect + cc <= |img| && forall s :: 0 <= s < |img| ==> |img[s]| == 512
    ensures |data| == cc * 512
    ensures forall i :: 0 <= i < cc * 512 ==> data[i] == img[sect + i / 512][i % 512]
    decreases cc
  {
    if cc == 0 then [] else ReadRun(img, sect, cc - 1) + img[sect + cc - 1]
  }

  /** First sector of a cluster; 0 for a number that is no cluster of the volume. */
  function Clust2Sect(g: Geometry, clst: nat): nat {
    if Sub32(clst, 2) >= g.nFatent - 2 then 0 else Sub32(clst, 2) * g.csize + g.database
  }

  lemma ReadOne(g: Geometry, img: Image, s: nat)
    requires s < |img| && WellSized(g, img)
    ensures ReadRun(img, s, 1) == img[s]
  {
    assert ReadRun(img, s, 0) == [];
  }
}
