/**
 A file as a byte sequence: the sectors of a cluster chain laid end to end.
 `j` numbers the sectors of the file, `k` its bytes.
 */
module FatFileSpec {
  import opened FatLayout
  import opened FatChains

  /** clust2sect for a cluster of the volume. */
  function ClusterSector(g: Geometry, c: nat): nat
    requires 2 <= c
  {
    (c - 2) * g.csize + g.database
  }

  /** Bytes that fit into a chain. */
  ghost function Capacity(g: Geometry, ch: seq<nat>): nat {
    |ch| * g.csize * 512
  }

  ghost predicate OnVolume(g: Geometry, nSectors: nat, ch: seq<nat>) {
    ValidGeometry(g, nSectors) && forall i :: 0 <= i < |ch| ==> 2 <= ch[i] < g.nFatent
  }

  lemma DivRange(j: nat, c: nat, n: nat)
    requires 0 < c && j < n * c
    ensures 0 <= j / c < n && 0 <= j % c < c
  {
    assert j == (j / c) * c + j % c;
    assert (j / c) * c < n * c;
  }

  /** The sector of the volume that holds sector `j` of the file. */
  ghost function Sec(g: Geometry, ch: seq<nat>, j: nat): nat
    requires 0 < g.csize && j < |ch| * g.csize && forall i :: 0 <= i < |ch| ==> 2 <= ch[i]
  {
    DivRange(j, g.csize, |ch|);
    ClusterSector(g, ch[j / g.csize]) + j % g.csize
  }

  /** Different clusters take different sectors of the data area. */
  lemma ClustersApart(g: Geometry, a: nat, b: nat, x: nat, y: nat)
    requires 2 <= a && 2 <= b && x < g.csize && y < g.csize
    requires ClusterSector(g, a) + x == ClusterSector(g, b) + y
    ensures a == b && x == y
  {
    var c := g.csize;
    assert (a - 2) * c + x == (b - 2) * c + y;
    ModUnique((a - 2) * c + x, c, a - 2, x);
    ModUnique((b - 2) * c + y, c, b - 2, y);
  }

  /** The sectors of a cluster lie in the data area, outside both FAT copies. */
  lemma ClusterOnVolume(g: Geometry, nSectors: nat, c: nat, x: nat)
    requires ValidGeometry(g, nSectors) && 2 <= c < g.nFatent && x < g.csize
    ensures g.database <= ClusterSector(g, c) + x < nSectors
    ensures !InFat(g, ClusterSector(g, c) + x) && !InMirror(g, ClusterSector(g, c) + x)
  {
    assert (c - 2) * g.csize + g.csize == (c - 1) * g.csize;
    assert (c - 1) * g.csize <= (g.nFatent - 2) * g.csize;
  }

  lemma SecOnVolume(g: Geometry, nSectors: nat, ch: seq<nat>, j: nat)
    requires OnVolume(g, nSectors, ch) && j < |ch| * g.csize
    ensures g.database <= Sec(g, ch, j) < nSectors && !InFat(g, Sec(g, ch, j)) && !InMirror(g, Sec(g, ch, j))
  {
    DivRange(j, g.csize, |ch|);
    ClusterOnVolume(g, nSectors, ch[j / g.csize], j % g.csize);
  }

  /** No two sectors of a file are the same sector of the volume. */
  lemma SecInjective(g: Geometry, fat: seq<nat>, ch: seq<nat>, i: nat, j: nat)
    requires 0 < g.csize && IsChain(fat, ch) && i < |ch| * g.csize && j < |ch| * g.csize
    requires Sec(g, ch, i) == Sec(g, ch, j)
    ensures i == j
  {
    hide ClusterSector;
    DivRange(i, g.csize, |ch|);
    DivRange(j, g.csize, |ch|);
    ClustersApart(g, ch[i / g.csize], ch[j / g.csize], i % g.csize, j % g.csize);
    ChainInjective(fat, ch, i / g.csize, j / g.csize);
    Recomposed(i, j, g.csize);
  }

  lemma Recomposed(i: nat, j: nat, c: nat)
    requires 0 < c && i / c == j / c && i % c == j % c
    ensures i == j
  {
    assert i == c * (i / c) + i % c;
    assert j == c * (j / c) + j % c;
  }

  lemma ChainInjective(fat: seq<nat>, ch: seq<nat>, a: nat, b: nat)
    requires IsChain(fat, ch) && a < |ch| && b < |ch| && ch[a] == ch[b]
    ensures a == b
  {
    if a < b {
      ChainDistinct(fat, ch, a, b);
    } else if b < a {
      ChainDistinct(fat, ch, b, a);
    }
  }

  /** Within a cluster the sectors of a file are consecutive. */
  lemma SecRun(g: Geometry, ch: seq<nat>, j: nat, t: nat)
    requires 0 < g.csize && j < |ch| * g.csize && j % g.csize + t < g.csize
    requires forall i :: 0 <= i < |ch| ==> 2 <= ch[i]
    ensures j + t < |ch| * g.csize && Sec(g, ch, j + t) == Sec(g, ch, j) + t
  {
    DivRange(j, g.csize, |ch|);
    var q := j / g.csize;
    ModUnique(j + t, g.csize, q, j % g.csize + t);
    MulMonotone(g.csize, q + 1, |ch|);
  }

  lemma MulMonotone(c: nat, a: nat, b: nat)
    requires a <= b
    ensures c * a <= c * b
  {}

  /** Byte `k` of the file on the medium `img`. */
  ghost function FileByte(g: Geometry, img: Image, ch: seq<nat>, k: nat): Byte
    requires OnVolume(g, |img|, ch) && WellSized(g, img) && k < |ch| * g.csize * 512
  {
    assert k / 512 < |ch| * g.csize;
    SecOnVolume(g, |img|, ch, k / 512);
    img[Sec(g, ch, k / 512)][k % 512]
  }

  /** The first `n` bytes of the file. */
  ghost function Content(g: Geometry, img: Image, ch: seq<nat>, n: nat): (c: seq<Byte>)
    requires OnVolume(g, |img|, ch) && WellSized(g, img) && n <= |ch| * g.csize * 512
    ensures |c| == n
    ensures forall k :: 0 <= k < n ==> c[k] == FileByte(g, img, ch, k)
  {
    seq(n, k requires 0 <= k < n => FileByte(g, img, ch, k))
  }

  /** The sector belongs to no cluster of the chain. */
  ghost predicate Clear(g: Geometry, ch: seq<nat>, s: nat)
    requires forall i :: 0 <= i < |ch| ==> 2 <= ch[i]
  {
    forall i :: 0 <= i < |ch| ==> !(ClusterSector(g, ch[i]) <= s < ClusterSector(g, ch[i]) + g.csize)
  }

  /** A file byte after sector `i` of the file has been replaced. */
  lemma ByteAfterSector(g: Geometry, fat: seq<nat>, img: Image, ch: seq<nat>, i: nat, sec: Sector, k: nat)
    requires OnVolume(g, |img|, ch) && WellSized(g, img) && IsChain(fat, ch) && i < |ch| * g.csize && |sec| == 512
    requires k < |ch| * g.csize * 512
    requires Sec(g, ch, i) < |img| && WellSized(g, img[Sec(g, ch, i) := sec])
    ensures FileByte(g, img[Sec(g, ch, i) := sec], ch, k) ==
              if k / 512 == i then sec[k % 512] else FileByte(g, img, ch, k)
  {
    SecOnVolume(g, |img|, ch, k / 512);
    if k / 512 != i && Sec(g, ch, k / 512) == Sec(g, ch, i) {
      SecInjective(g, fat, ch, k / 512, i);
    }
  }

  /** Changes to sectors that are not the file's leave its bytes alone. */
  lemma ByteFrame(g: Geometry, img: Image, img': Image, ch: seq<nat>, k: nat)
    requires OnVolume(g, |img|, ch) && WellSized(g, img) && WellSized(g, img') && |img| == |img'|
    requires k < |ch| * g.csize * 512
    requires Sec(g, ch, k / 512) < |img| && img[Sec(g, ch, k / 512)] == img'[Sec(g, ch, k / 512)]
    ensures FileByte(g, img', ch, k) == FileByte(g, img, ch, k)
  {}

  /** A longer chain has the same first bytes. */
  lemma ByteOfLonger(g: Geometry, img: Image, ch: seq<nat>, c: nat, k: nat)
    requires OnVolume(g, |img|, ch + [c]) && WellSized(g, img) && k < |ch| * g.csize * 512
    ensures OnVolume(g, |img|, ch) && k < |ch + [c]| * g.csize * 512
    ensures FileByte(g, img, ch + [c], k) == FileByte(g, img, ch, k)
  {
    assert forall i :: 0 <= i < |ch| ==> ch[i] == (ch + [c])[i];
    assert |ch + [c]| * g.csize == |ch| * g.csize + g.csize;
    DivRange(k / 512, g.csize, |ch|);
  }

  /** `old` with the bytes from `p` on replaced by `data`, grown if need be. */
  function Splice(old0: seq<Byte>, p: nat, data: seq<Byte>): (r: seq<Byte>)
    requires p <= |old0|
    ensures |r| == if p + |data| > |old0| then p + |data| else |old0|
    ensures forall k :: 0 <= k < |r| ==> r[k] == if p <= k < p + |data| then data[k - p] else old0[k]
  {
    old0[..p] + data + if p + |data| < |old0| then old0[p + |data|..] else []
  }

  lemma SpliceNothing(old0: seq<Byte>, p: nat)
    requires p <= |old0|
    ensures Splice(old0, p, []) == old0
  {}

  /** Splicing `w` in two pieces, one behind the other. */
  lemma SpliceStep(old0: seq<Byte>, p: nat, w: seq<Byte>, i: nat, n: nat)
    requires p <= |old0| && i + n <= |w|
    ensures p + i <= |Splice(old0, p, w[..i])|
    ensures Splice(Splice(old0, p, w[..i]), p + i, w[i..][..n]) == Splice(old0, p, w[..i + n])
  {}

  /** The cluster before a position: the one it is in, unless it starts a new one. */
  lemma ClusterBefore(csize: nat, p: nat)
    requires 0 < csize && 0 < p
    ensures p % 512 == 0 && p / 512 % csize == 0 ==> (p - 1) / 512 / csize + 1 == p / 512 / csize
    ensures !(p % 512 == 0 && p / 512 % csize == 0) ==> (p - 1) / 512 / csize == p / 512 / csize
  {
    var j := p / 512;
    if p % 512 == 0 {
      assert (p - 1) / 512 == j - 1;
      assert j == csize * (j / csize) + j % csize;
      if j % csize == 0 {
        ModUnique(j - 1, csize, j / csize - 1, csize - 1);
      } else {
        ModUnique(j - 1, csize, j / csize, j % csize - 1);
      }
    } else {
      assert (p - 1) / 512 == j;
    }
  }

  /** A run of bytes that stays in the cluster of its first byte. */
  lemma ClusterAfter(csize: nat, p: nat, n: nat)
    requires 0 < csize && 0 < n
    requires p % 512 + n <= 512 || (p % 512 == 0 && n <= (csize - p / 512 % csize) * 512)
    ensures (p + n - 1) / 512 / csize == p / 512 / csize
  {
    var j := p / 512;
    var t := (p + n - 1) / 512 - j;
    assert j == csize * (j / csize) + j % csize;
    if p % 512 + n <= 512 {
      assert t == 0;
    } else {
      assert 0 <= t < csize - j % csize;
    }
    ModUnique(j + t, csize, j / csize, j % csize + t);
  }

  /** The clusters follow each other from the start of the data area on; other numbers are no clusters. */
  lemma ClustersInOrder(g: Geometry, nSectors: nat, c: nat)
    requires ValidGeometry(g, nSectors) && c < TWO32
    ensures Clust2Sect(g, 2) == g.database && 0 < g.database
    ensures 2 <= c && c + 1 < g.nFatent ==> Clust2Sect(g, c + 1) == Clust2Sect(g, c) + g.csize
    ensures Clust2Sect(g, c) == 0 <==> c < 2 || g.nFatent <= c
  {
    if 2 <= c {
      assert (c + 1 - 2) * g.csize == (c - 2) * g.csize + g.csize;
    } else {
      ModUnique(c - 2, 0x1_0000_0000, -1, 0x1_0000_0000 + c - 2);
    }
  }

  /** The sectors of the first `n` clusters, laid end to end. */
  ghost function Runs(g: Geometry, n: nat): seq<int> {
    if n == 0 then [] else Runs(g, n - 1) + seq(g.csize, i => Clust2Sect(g, n + 1) + i)
  }

  /** Those of all clusters are the sectors of the data area in ascending order. */
  lemma {:induction false} RunsAreTheArea(g: Geometry, nSectors: nat, n: nat)
    requires ValidGeometry(g, nSectors) && n <= g.nFatent - 2
    ensures |Runs(g, n)| == n * g.csize && forall i :: 0 <= i < n * g.csize ==> Runs(g, n)[i] == g.database + i
    ensures n < g.nFatent - 2 ==> Clust2Sect(g, n + 2) == g.database + n * g.csize
    decreases n
  {
    hide Clust2Sect, ValidGeometry;
    InRange32(g, nSectors);
    ClustersInOrder(g, nSectors, n + 1);
    if n > 0 {
      RunsAreTheArea(g, nSectors, n - 1);
      assert n * g.csize == (n - 1) * g.csize + g.csize;
    }
  }

  lemma InRange32(g: Geometry, nSectors: nat)
    requires ValidGeometry(g, nSectors)
    ensures 2 < g.nFatent < TWO32
  {}

  /** Where byte `k` of a file is: in the cluster that comes so far along the chain, and there as far in. */
  lemma ByteIsAt(g: Geometry, img: Image, ch: seq<nat>, n: nat, k: nat)
    requires OnVolume(g, |img|, ch) && WellSized(g, img) && k < n <= |ch| * g.csize * 512
    ensures k / (512 * g.csize) < |ch|
    ensures var s := g.database + (ch[k / (512 * g.csize)] - 2) * g.csize + k / 512 % g.csize;
            0 <= s < |img| && |img[s]| == 512 && Content(g, img, ch, n)[k] == img[s][k % 512]
  {
    var c := g.csize;
    SecOnVolume(g, |img|, ch, k / 512);
    DivRange(k / 512, c, |ch|);
    assert k / 512 == c * (k / 512 / c) + k / 512 % c;
    DivTwiceIs(k, c);
  }

  lemma DivTwiceIs(k: nat, c: nat)
    requires 0 < c
    ensures k / (512 * c) == k / 512 / c
  {
    var q, r := k / 512 / c, k / 512 % c;
    assert k / 512 == c * q + r;
    ModUnique(k, 512 * c, q, 512 * r + k % 512);
  }

  /** A FAT sector is no sector of a file. */
  lemma FatSectorClear(g: Geometry, nSectors: nat, ch: seq<nat>, s: nat)
    requires OnVolume(g, nSectors, ch) && InFat(g, s)
    ensures Clear(g, ch, s)
  {
    forall i | 0 <= i < |ch| ensures !(ClusterSector(g, ch[i]) <= s < ClusterSector(g, ch[i]) + g.csize) {
      ClusterOnVolume(g, nSectors, ch[i], 0);
    }
  }

  lemma Clust2SectIs(g: Geometry, nSectors: nat, c: nat)
    requires ValidGeometry(g, nSectors) && 2 <= c < g.nFatent
    ensures Clust2Sect(g, c) == ClusterSector(g, c) && Clust2Sect(g, c) != 0
  {}

  lemma RunByte(g: Geometry, img: Image, ch: seq<nat>, j: nat, i: nat)
    requires OnVolume(g, |img|, ch) && WellSized(g, img)
    requires j < |ch| * g.csize && j % g.csize + i / 512 < g.csize
    ensures j * 512 + i < |ch| * g.csize * 512 && Sec(g, ch, j) + i / 512 < |img|
    ensures FileByte(g, img, ch, j * 512 + i) == img[Sec(g, ch, j) + i / 512][i % 512]
  {
    SecRun(g, ch, j, i / 512);
    SecOnVolume(g, |img|, ch, j + i / 512);
    ModUnique(j * 512 + i, 512, j + i / 512, i % 512);
  }

  /** Consecutive sectors of one cluster read as the bytes of the file at that place. */
  lemma RunIsContent(g: Geometry, img: Image, ch: seq<nat>, j: nat, cc: nat, n: nat)
    requires OnVolume(g, |img|, ch) && WellSized(g, img) && n <= |ch| * g.csize * 512
    requires j < |ch| * g.csize && 0 < cc && j % g.csize + cc <= g.csize && (j + cc) * 512 <= n
    ensures Sec(g, ch, j) + cc <= |img|
    ensures ReadRun(img, Sec(g, ch, j), cc) == Content(g, img, ch, n)[j * 512..(j + cc) * 512]
  {
    hide FileByte, Sec, ValidGeometry;
    RunByte(g, img, ch, j, (cc - 1) * 512);
    var a, b := ReadRun(img, Sec(g, ch, j), cc), Content(g, img, ch, n)[j * 512..(j + cc) * 512];
    forall i | 0 <= i < cc * 512 ensures a[i] == b[i] {
      RunByte(g, img, ch, j, i);
    }
  }

  /** Part of one sector, as f_read copies it out of its buffer. */
  lemma PartIsContent(g: Geometry, img: Image, ch: seq<nat>, p: nat, m: nat, n: nat)
    requires OnVolume(g, |img|, ch) && WellSized(g, img) && n <= |ch| * g.csize * 512
    requires p + m <= n && p % 512 + m <= 512 && 0 < m
    ensures p / 512 < |ch| * g.csize && Sec(g, ch, p / 512) < |img|
    ensures img[Sec(g, ch, p / 512)][p % 512..p % 512 + m] == Content(g, img, ch, n)[p..p + m]
  {
    SecOnVolume(g, |img|, ch, p / 512);
    var a, b := img[Sec(g, ch, p / 512)][p % 512..p % 512 + m], Content(g, img, ch, n)[p..p + m];
    forall i | 0 <= i < m ensures a[i] == b[i] {
      assert (p + i) / 512 == p / 512 && (p + i) % 512 == p % 512 + i;
    }
  }

  /** Reading sectors from the medium and then putting the buffered one in its place. */
  lemma ReadRunPatched(img: Image, sect: nat, cc: nat, d: nat, sec: Sector)
    requires sect + cc <= |img| && sect <= d < sect + cc && |sec| == 512
    requires forall s :: 0 <= s < |img| ==> |img[s]| == 512
    ensures var data := ReadRun(img, sect, cc);
            var o := (d - sect) * 512;
            ReadRun(img[d := sec], sect, cc) == data[..o] + sec + data[o + 512..]
  {
    var data := ReadRun(img, sect, cc);
    var o := (d - sect) * 512;
    var a, b := ReadRun(img[d := sec], sect, cc), data[..o] + sec + data[o + 512..];
    forall i | 0 <= i < cc * 512 ensures a[i] == b[i] {
      assert i / 512 == d - sect <==> o <= i < o + 512;
    }
  }

  lemma ReadRunElsewhere(img: Image, sect: nat, cc: nat, d: nat, sec: Sector)
    requires sect + cc <= |img| && d < |img| && !(sect <= d < sect + cc) && |sec| == 512
    requires forall s :: 0 <= s < |img| ==> |img[s]| == 512
    ensures ReadRun(img[d := sec], sect, cc) == ReadRun(img, sect, cc)
  {
    var a, b := ReadRun(img[d := sec], sect, cc), ReadRun(img, sect, cc);
    forall i | 0 <= i < cc * 512 ensures a[i] == b[i] {
      assert i / 512 < cc;
    }
  }

  lemma SecNotClear(g: Geometry, ch: seq<nat>, j: nat)
    requires 0 < g.csize && j < |ch| * g.csize && forall i :: 0 <= i < |ch| ==> 2 <= ch[i]
    ensures !Clear(g, ch, Sec(g, ch, j))
  {
    DivRange(j, g.csize, |ch|);
    var i := j / g.csize;
    assert ClusterSector(g, ch[i]) <= Sec(g, ch, j) < ClusterSector(g, ch[i]) + g.csize;
  }

  /** The cluster of the chain that holds byte `p`; 0 beyond its end. */
  ghost function ClusterAt(g: Geometry, ch: seq<nat>, p: nat): nat {
    if 0 < g.csize && p / 512 / g.csize < |ch| then ch[p / 512 / g.csize] else 0
  }

  /** The sector that holds byte `p`; 0 beyond the end of the chain. */
  ghost function SectorAt(g: Geometry, ch: seq<nat>, p: nat): nat {
    var c := ClusterAt(g, ch, p);
    if c < 2 || g.csize == 0 then 0 else ClusterSector(g, c) + p / 512 % g.csize
  }

  /** Positions covered by the chain have a cluster and a sector. */
  lemma AtCovered(g: Geometry, nSectors: nat, ch: seq<nat>, p: nat)
    requires OnVolume(g, nSectors, ch) && p < |ch| * g.csize * 512
    ensures 2 <= ClusterAt(g, ch, p) < g.nFatent
    ensures SectorAt(g, ch, p) == Sec(g, ch, p / 512)
    ensures g.database <= SectorAt(g, ch, p) < nSectors && 0 < SectorAt(g, ch, p)
  {
    DivRange(p / 512, g.csize, |ch|);
    SecOnVolume(g, nSectors, ch, p / 512);
  }

  /** The cluster before a position links to the cluster at it, unless they are the same. */
  lemma AtNext(g: Geometry, fat: seq<nat>, ch: seq<nat>, p: nat)
    requires 0 < g.csize && IsChain(fat, ch) && 0 < p < |ch| * g.csize * 512
    ensures p % 512 == 0 && p / 512 % g.csize == 0 ==>
              IsCluster(fat, ClusterAt(g, ch, p - 1)) && fat[ClusterAt(g, ch, p - 1)] == ClusterAt(g, ch, p)
    ensures !(p % 512 == 0 && p / 512 % g.csize == 0) ==> ClusterAt(g, ch, p - 1) == ClusterAt(g, ch, p)
  {
    DivRange(p / 512, g.csize, |ch|);
    ClusterBefore(g.csize, p);
  }

  /** Bytes from `p` on that stay in its cluster. */
  lemma AtSameCluster(g: Geometry, ch: seq<nat>, p: nat, n: nat)
    requires 0 < g.csize && 0 < n
    requires p % 512 + n <= 512 || (p % 512 == 0 && n <= (g.csize - p / 512 % g.csize) * 512)
    ensures ClusterAt(g, ch, p + n - 1) == ClusterAt(g, ch, p)
  {
    ClusterAfter(g.csize, p, n);
  }

  lemma AtSameSector(g: Geometry, ch: seq<nat>, p: nat, n: nat)
    requires p % 512 + n < 512
    ensures SectorAt(g, ch, p + n) == SectorAt(g, ch, p) && ClusterAt(g, ch, p + n) == ClusterAt(g, ch, p)
  {
    ModUnique(p + n, 512, p / 512, p % 512 + n);
  }

  /** The images agree on every sector that is neither of a FAT copy nor of the chain. */
  ghost predicate OthersKept(g: Geometry, img: Image, img': Image, ch: seq<nat>)
    requires forall i :: 0 <= i < |ch| ==> 2 <= ch[i]
  {
    |img| == |img'| &&
    forall s: nat {:trigger img[s]} {:trigger img'[s]} ::
      s < |img| && !InFat(g, s) && !InMirror(g, s) && Clear(g, ch, s) ==> img'[s] == img[s]
  }

  /** The chain has grown by clusters that were free; every other entry is as before. */
  ghost predicate ChainGrown(fat: seq<nat>, ch: seq<nat>, fat': seq<nat>, ch': seq<nat>) {
    && |fat| == |fat'| && ch <= ch'
    && (forall i :: |ch| <= i < |ch'| ==> IsCluster(fat, ch'[i]) && fat[ch'[i]] == 0)
    && (forall c: nat :: IsCluster(fat, c) && c !in ch' ==> fat'[c] == fat[c])
  }

  lemma ChainGrownTwice(a: seq<nat>, ch0: seq<nat>, b: seq<nat>, ch1: seq<nat>, c: seq<nat>, ch2: seq<nat>)
    requires ChainGrown(a, ch0, b, ch1) && ChainGrown(b, ch1, c, ch2) && Distinct(ch2)
    ensures ChainGrown(a, ch0, c, ch2)
  {
    forall i | |ch0| <= i < |ch2| ensures IsCluster(a, ch2[i]) && a[ch2[i]] == 0 {
      if i < |ch1| {
        assert ch2[i] == ch1[i];
      } else {
        assert forall j :: 0 <= j < |ch1| ==> ch1[j] == ch2[j];
      }
    }
    assert forall d :: d in ch1 ==> d in ch2;
  }

  ghost predicate Distinct(ch: seq<nat>) {
    forall i, j :: 0 <= i < j < |ch| ==> ch[i] != ch[j]
  }

  lemma ChainIsDistinct(fat: seq<nat>, ch: seq<nat>)
    requires IsChain(fat, ch)
    ensures Distinct(ch)
  {
    forall i, j | 0 <= i < j < |ch| ensures ch[i] != ch[j] { ChainDistinct(fat, ch, i, j); }
  }

  /** Linking a free cluster behind a chain, or starting one with it. */
  lemma ChainLinked(fat: seq<nat>, ch: seq<nat>, r: nat, mark: nat)
    requires ch == [] || IsChain(fat, ch)
    requires IsCluster(fat, r) && fat[r] == 0 && mark >= |fat|
    ensures var last := if ch == [] then 0 else ch[|ch| - 1];
            var after := Linked(fat, last, r, mark);
            IsChain(after, ch + [r]) && ChainGrown(fat, ch, after, ch + [r])
  {
    if ch != [] {
      ChainExtended(fat, ch, r, mark);
      assert ch[|ch| - 1] in ch + [r];
    }
  }

  /** A longer chain keeps the first bytes while only FAT sectors change. */
  lemma ContentOfLonger(g: Geometry, img: Image, img': Image, ch: seq<nat>, c: nat, n: nat)
    requires OnVolume(g, |img|, ch + [c]) && WellSized(g, img) && WellSized(g, img') && |img| == |img'|
    requires n <= |ch| * g.csize * 512
    requires forall s: nat {:trigger img[s]} {:trigger img'[s]} :: s < |img| && !InFat(g, s) && !InMirror(g, s) ==>
              img[s] == img'[s]
    ensures OnVolume(g, |img|, ch) && n <= |ch + [c]| * g.csize * 512
    ensures Content(g, img', ch + [c], n) == Content(g, img, ch, n)
  {
    assert forall i :: 0 <= i < |ch| ==> ch[i] == (ch + [c])[i];
    assert |ch + [c]| * g.csize == |ch| * g.csize + g.csize;
    var a, b := Content(g, img', ch + [c], n), Content(g, img, ch, n);
    forall k | 0 <= k < n ensures a[k] == b[k] {
      ByteOfLonger(g, img', ch, c, k);
      SecOnVolume(g, |img|, ch, k / 512);
      ByteFrame(g, img, img', ch, k);
    }
  }

  /** The last byte a chain covers is in its last cluster. */
  lemma AtEnd(g: Geometry, ch: seq<nat>, p: nat)
    requires 0 < g.csize && 0 < |ch| && p == |ch| * g.csize * 512
    ensures ClusterAt(g, ch, p - 1) == ch[|ch| - 1]
  {
    assert (p - 1) / 512 == |ch| * g.csize - 1;
    ModUnique(|ch| * g.csize - 1, g.csize, |ch| - 1, g.csize - 1);
  }

  /** A cluster appended to a chain that is full to `p` holds byte `p`. */
  lemma AtAppended(g: Geometry, ch: seq<nat>, c: nat, p: nat)
    requires 0 < g.csize && p == |ch| * g.csize * 512
    ensures ClusterAt(g, ch + [c], p) == c && p + 1 <= |ch + [c]| * g.csize * 512
  {
    assert p / 512 == |ch| * g.csize;
    ModUnique(|ch| * g.csize, g.csize, |ch|, 0);
    assert |ch + [c]| * g.csize == |ch| * g.csize + g.csize;
  }

  /** A file byte after `cc` consecutive sectors of one cluster have been written. */
  lemma ByteAfterRun(g: Geometry, fat: seq<nat>, img: Image, ch: seq<nat>, j: nat, cc: nat, w: seq<Byte>, k: nat)
    requires OnVolume(g, |img|, ch) && WellSized(g, img) && IsChain(fat, ch)
    requires j < |ch| * g.csize && 0 < cc && j % g.csize + cc <= g.csize && cc * 512 <= |w|
    requires k < |ch| * g.csize * 512 && Sec(g, ch, j) + cc <= |img|
    requires WellSized(g, WriteRun(img, Sec(g, ch, j), cc, w))
    ensures FileByte(g, WriteRun(img, Sec(g, ch, j), cc, w), ch, k) ==
            if j * 512 <= k < (j + cc) * 512 then w[k - j * 512] else FileByte(g, img, ch, k)
  {
    hide Sec, IsChain, ValidGeometry;
    SecOnVolume(g, |img|, ch, k / 512);
    SecInRun(g, fat, ch, j, cc, k / 512);
    var s, t := Sec(g, ch, j), Sec(g, ch, k / 512);
    var r := WriteRun(img, s, cc, w);
    if s <= t < s + cc {
      assert r[t] == w[(t - s) * 512..(t - s + 1) * 512];
      assert r[t][k % 512] == w[(t - s) * 512 + k % 512];
    }
  }

  /** The sectors of a run inside one cluster are those of the file sectors it is for, and of no others. */
  lemma SecInRun(g: Geometry, fat: seq<nat>, ch: seq<nat>, j: nat, cc: nat, i: nat)
    requires 0 < g.csize && IsChain(fat, ch) && j < |ch| * g.csize && i < |ch| * g.csize
    requires 0 < cc && j % g.csize + cc <= g.csize
    ensures Sec(g, ch, j) <= Sec(g, ch, i) < Sec(g, ch, j) + cc <==> j <= i < j + cc
    ensures j <= i < j + cc ==> Sec(g, ch, i) - Sec(g, ch, j) == i - j
  {
    var s, t := Sec(g, ch, j), Sec(g, ch, i);
    if s <= t < s + cc {
      SecRun(g, ch, j, t - s);
      SecInjective(g, fat, ch, i, j + (t - s));
    }
    if j <= i < j + cc {
      SecRun(g, ch, j, i - j);
    }
  }

  /** Writing whole sectors of one cluster splices their bytes into the file. */
  lemma RunSpliced(g: Geometry, fat: seq<nat>, img: Image, ch: seq<nat>, j: nat, cc: nat, w: seq<Byte>, n: nat, n': nat)
    requires OnVolume(g, |img|, ch) && WellSized(g, img) && IsChain(fat, ch)
    requires j < |ch| * g.csize && 0 < cc && j % g.csize + cc <= g.csize && cc * 512 <= |w|
    requires Sec(g, ch, j) + cc <= |img| && WellSized(g, WriteRun(img, Sec(g, ch, j), cc, w))
    requires j * 512 <= n && n' == (if (j + cc) * 512 > n then (j + cc) * 512 else n) && n' <= |ch| * g.csize * 512
    ensures Content(g, WriteRun(img, Sec(g, ch, j), cc, w), ch, n') ==
              Splice(Content(g, img, ch, n), j * 512, w[..cc * 512])
  {
    hide FileByte, ValidGeometry, IsChain, Sec, WellSized, WriteRun;
    var a := Content(g, WriteRun(img, Sec(g, ch, j), cc, w), ch, n');
    var b := Splice(Content(g, img, ch, n), j * 512, w[..cc * 512]);
    forall k | 0 <= k < n' ensures a[k] == b[k] {
      ByteAfterRun(g, fat, img, ch, j, cc, w, k);
    }
  }

  /** Replacing part of a sector splices those bytes into the file, whatever lies beyond its end. */
  lemma PartSpliced(g: Geometry, fat: seq<nat>, img: Image, ch: seq<nat>, p: nat, w: seq<Byte>, sec: Sector, n: nat,
    n': nat)
    requires OnVolume(g, |img|, ch) && WellSized(g, img) && IsChain(fat, ch) && |sec| == 512
    requires 0 < |w| && p % 512 + |w| <= 512 && sec[p % 512..p % 512 + |w|] == w
    requires p <= n && n' == (if p + |w| > n then p + |w| else n) && n' <= |ch| * g.csize * 512
    requires p / 512 < |ch| * g.csize && Sec(g, ch, p / 512) < |img| && WellSized(g, img[Sec(g, ch, p / 512) := sec])
    requires forall i :: 0 <= i < 512 && !(p % 512 <= i < p % 512 + |w|) && p / 512 * 512 + i < n ==>
               sec[i] == img[Sec(g, ch, p / 512)][i]
    ensures Content(g, img[Sec(g, ch, p / 512) := sec], ch, n') == Splice(Content(g, img, ch, n), p, w)
  {
    hide ValidGeometry, IsChain, Sec;
    var s := Sec(g, ch, p / 512);
    var a := Content(g, img[s := sec], ch, n');
    var b := Splice(Content(g, img, ch, n), p, w);
    forall k | 0 <= k < n' ensures a[k] == b[k] {
      ByteAfterSector(g, fat, img, ch, p / 512, sec, k);
      if p <= k < p + |w| {
        assert sec[p % 512..p % 512 + |w|][k - p] == sec[k % 512];
      }
    }
  }

  /** A position inside a cluster is before the end of the chain. */
  lemma InsideIsCovered(g: Geometry, ch: seq<nat>, p: nat)
    requires 0 < g.csize && p <= Capacity(g, ch) && p / 512 % g.csize != 0
    ensures p < Capacity(g, ch) && 0 < p
  {
    if p == Capacity(g, ch) {
      assert p / 512 == |ch| * g.csize;
      ModUnique(|ch| * g.csize, g.csize, |ch|, 0);
    }
    if p == 0 {
      ModUnique(0, g.csize, 0, 0);
    }
  }

  lemma OthersKeptTwice(g: Geometry, a: Image, b: Image, c: Image, ch: seq<nat>, ch': seq<nat>)
    requires forall i :: 0 <= i < |ch'| ==> 2 <= ch'[i]
    requires ch <= ch' && OthersKept(g, a, b, ch) && OthersKept(g, b, c, ch')
    ensures OthersKept(g, a, c, ch')
  {
    assert forall i :: 0 <= i < |ch| ==> ch[i] == ch'[i];
    forall s: nat | s < |a| && Clear(g, ch', s) ensures Clear(g, ch, s) {}
  }

  /** Writing sectors of the chain leaves the rest of the volume alone. */
  lemma RunOthersKept(g: Geometry, img: Image, ch: seq<nat>, sect: nat, cc: nat, w: seq<Byte>)
    requires sect + cc <= |img| && cc * 512 <= |w| && forall i :: 0 <= i < |ch| ==> 2 <= ch[i]
    requires forall s :: sect <= s < sect + cc ==> !Clear(g, ch, s)
    ensures OthersKept(g, img, WriteRun(img, sect, cc, w), ch)
  {}

  /** The position starts a cluster. */
  ghost predicate ClusterStart(g: Geometry, p: nat) {
    0 < g.csize && p % 512 == 0 && p / 512 % g.csize == 0
  }

  /** The sector offset of a position in its cluster. */
  function SectorInCluster(g: Geometry, p: nat): nat
    requires 0 < g.csize
  {
    p / 512 % g.csize
  }

  lemma InClusterIs(g: Geometry, p: nat)
    requires 0 < g.csize && p % 512 == 0
    ensures SectorInCluster(g, p) == 0 <==> ClusterStart(g, p)
  {}

  lemma StartAligned(g: Geometry, b: nat, o: nat)
    requires ClusterStart(g, b)
    ensures 0 < g.csize && (b + o) % 512 == o % 512
  {
    ModUnique(b + o, 512, b / 512 + o / 512, o % 512);
  }

  lemma StartOfBytes(g: Geometry, p: nat, q: nat)
    requires 0 < g.csize && p == q * (g.csize * 512)
    ensures ClusterStart(g, p) && p / 512 == q * g.csize && p / 512 / g.csize == q
  {
    assert p == 512 * (q * g.csize);
    ModUnique(p, 512, q * g.csize, 0);
    ModUnique(q * g.csize, g.csize, q, 0);
  }

  lemma StartIs(g: Geometry, b: nat)
    requires ClusterStart(g, b)
    ensures b == b / 512 / g.csize * (g.csize * 512)
  {
    var j := b / 512;
    assert b == 512 * j;
    assert j == g.csize * (j / g.csize);
    assert 512 * (g.csize * (j / g.csize)) == j / g.csize * (g.csize * 512);
  }

  /** A cluster that starts inside the chain lies inside it. */
  lemma ClusterFits(g: Geometry, ch: seq<nat>, b: nat)
    requires ClusterStart(g, b) && b < Capacity(g, ch)
    ensures b + g.csize * 512 <= Capacity(g, ch)
  {
    var q := b / 512 / g.csize;
    StartIs(g, b);
    DivRange(b / 512, g.csize, |ch|);
    MulMonotone(g.csize * 512, q + 1, |ch|);
    assert |ch| * (g.csize * 512) == |ch| * g.csize * 512;
  }

  /** All bytes of the cluster that starts at `b` have that cluster. */
  lemma WithinCluster(g: Geometry, ch: seq<nat>, b: nat, o: nat)
    requires ClusterStart(g, b) && 0 < o <= g.csize * 512
    ensures ClusterAt(g, ch, b + o - 1) == ClusterAt(g, ch, b)
  {
    ClusterAfter(g.csize, b, o);
  }

  /** The sector at an offset into the cluster that starts at `b`. */
  lemma SectorWithin(g: Geometry, ch: seq<nat>, b: nat, o: nat)
    requires ClusterStart(g, b) && 0 < o <= g.csize * 512 && o % 512 != 0 && 2 <= ClusterAt(g, ch, b)
    ensures SectorAt(g, ch, b + o) == ClusterSector(g, ClusterAt(g, ch, b)) + o / 512
  {
    var j, t := b / 512, o / 512;
    assert j == g.csize * (j / g.csize);
    ModUnique(b + o, 512, j + t, o % 512);
    ModUnique(j + t, g.csize, j / g.csize, t);
  }

  lemma NextStart(g: Geometry, b: nat)
    requires ClusterStart(g, b)
    ensures ClusterStart(g, b + g.csize * 512)
  {
    var q := b / 512 / g.csize;
    StartIs(g, b);
    assert (q + 1) * (g.csize * 512) == q * (g.csize * 512) + g.csize * 512;
    StartOfBytes(g, b + g.csize * 512, q + 1);
  }

  function Quotient(x: nat, m: nat): nat
    requires 0 < m
  {
    x / m
  }

  /** `x` rounded down to a multiple of `m`; the original masks, `m` being a power of two. */
  function RoundDown(x: nat, m: nat): (r: nat)
    requires 0 < m
  {
    Quotient(x, m) * m
  }

  /** Byte `b` lies in the same block of `m` bytes as byte `a`, or in a later one. */
  predicate SameOrLater(a: nat, b: nat, m: nat)
    requires 0 < m
  {
    Quotient(b, m) >= Quotient(a, m)
  }

  lemma QuotientIs(x: nat, m: nat)
    requires 0 < m
    ensures 0 <= Quotient(x, m) * m <= x < Quotient(x, m) * m + m
  {
    assert x == m * (x / m) + x % m;
  }

  /** The cluster, along the chain, of a byte between two cluster starts. */
  lemma ClusterOfByte(csize: nat, x: nat, q: nat)
    requires 0 < csize && q * (csize * 512) <= x < q * (csize * 512) + csize * 512
    ensures x / 512 / csize == q
  {
    var j := x / 512;
    assert q * (csize * 512) == 512 * (q * csize);
    ModUnique(j, csize, q, j - q * csize);
  }

  /** The start of the cluster of byte `x` is not behind byte `y`, when that lies in it or later. */
  lemma RoundDownStart(g: Geometry, ch: seq<nat>, x: nat, y: nat, bcs: nat)
    requires 0 < g.csize && bcs == g.csize * 512 && SameOrLater(x, y, bcs)
    ensures var b := RoundDown(x, bcs);
            b <= x && b <= y && ClusterStart(g, b) && ClusterAt(g, ch, b) == ClusterAt(g, ch, x)
  {
    hide Quotient, ClusterStart;
    var q := Quotient(x, bcs);
    QuotientIs(x, bcs);
    QuotientIs(y, bcs);
    MulMonotone(bcs, q, Quotient(y, bcs));
    StartOfBytes(g, RoundDown(x, bcs), q);
    ClusterOfByte(g.csize, x, q);
  }

  /** The first clusters of a chain hold the first bytes. */
  lemma ByteOfPrefix(g: Geometry, img: Image, img': Image, ch: seq<nat>, k: nat, i: nat)
    requires OnVolume(g, |img|, ch) && WellSized(g, img) && WellSized(g, img') && |img| == |img'| && k <= |ch|
    requires i < Capacity(g, ch[..k])
    requires forall s: nat {:trigger img[s]} {:trigger img'[s]} :: s < |img| && !InFat(g, s) && !InMirror(g, s) ==>
              img[s] == img'[s]
    ensures OnVolume(g, |img|, ch[..k]) && i < Capacity(g, ch)
    ensures FileByte(g, img', ch[..k], i) == FileByte(g, img, ch, i)
  {
    DivRange(i / 512, g.csize, k);
    MulMonotone(g.csize, k, |ch|);
    SecOnVolume(g, |img|, ch, i / 512);
  }

  lemma ContentOfPrefix(g: Geometry, img: Image, img': Image, ch: seq<nat>, k: nat, n: nat)
    requires OnVolume(g, |img|, ch) && WellSized(g, img) && WellSized(g, img') && |img| == |img'| && k <= |ch|
    requires n <= Capacity(g, ch[..k])
    requires forall s: nat {:trigger img[s]} {:trigger img'[s]} :: s < |img| && !InFat(g, s) && !InMirror(g, s) ==>
              img[s] == img'[s]
    ensures OnVolume(g, |img|, ch[..k]) && n <= Capacity(g, ch)
    ensures Content(g, img', ch[..k], n) == Content(g, img, ch, n)
  {
    hide FileByte, ValidGeometry;
    MulMonotone(g.csize, k, |ch|);
    var a, b := Content(g, img', ch[..k], n), Content(g, img, ch, n);
    forall i | 0 <= i < n ensures a[i] == b[i] {
      ByteOfPrefix(g, img, img', ch, k, i);
    }
  }

  /** Inside a sector, the cluster of the byte before decides where a byte is. */
  lemma SectorOfByteBefore(g: Geometry, ch: seq<nat>, ch': seq<nat>, p: nat)
    requires p % 512 != 0 && ClusterAt(g, ch', p - 1) == ClusterAt(g, ch, p - 1)
    ensures SectorAt(g, ch', p) == SectorAt(g, ch, p)
  {
    assert (p - 1) / 512 == p / 512;
  }

  /** How many clusters the bytes before `p` take. */
  ghost function ClustersFor(g: Geometry, p: nat): nat
    requires 0 < g.csize
  {
    if p == 0 then 0 else (p - 1) / 512 / g.csize + 1
  }

  /** They are enough for those bytes, and one less would not be. */
  lemma ClustersForExact(g: Geometry, ch: seq<nat>, p: nat)
    requires 0 < g.csize && p <= Capacity(g, ch)
    ensures ClustersFor(g, p) <= |ch| && p <= Capacity(g, ch[..ClustersFor(g, p)])
    ensures p > 0 ==>
              Capacity(g, ch[..ClustersFor(g, p) - 1]) < p && ClusterAt(g, ch, p - 1) == ch[ClustersFor(g, p) - 1]
    ensures p > 0 ==> ClusterAt(g, ch[..ClustersFor(g, p)], p - 1) == ClusterAt(g, ch, p - 1)
  {
    if p > 0 {
      var q := (p - 1) / 512 / g.csize;
      DivRange((p - 1) / 512, g.csize, |ch|);
      var j := (p - 1) / 512;
      assert j == g.csize * q + j % g.csize;
      MulMonotone(g.csize, q + 1, |ch|);
      assert |ch[..q + 1]| * g.csize == g.csize * q + g.csize;
      assert |ch[..q]| * g.csize == g.csize * q;
    }
  }

  /** A chain holds so many bytes exactly if it has so many clusters. */
  lemma ClustersForMost(g: Geometry, ch: seq<nat>, p: nat)
    requires 0 < g.csize
    ensures p <= Capacity(g, ch) <==> ClustersFor(g, p) <= |ch|
  {
    if p > 0 {
      QuotientBelow(p - 1, 512, |ch| * g.csize);
      QuotientBelow((p - 1) / 512, g.csize, |ch|);
    }
  }

  lemma QuotientBelow(x: nat, c: nat, n: nat)
    requires 0 < c
    ensures x < n * c <==> x / c < n
  {
    if x < n * c {
      DivRange(x, c, n);
    } else if x / c < n {
      MulMonotone(c, x / c + 1, n);
    }
  }

  lemma NotClearOnVolume(g: Geometry, nSectors: nat, ch: seq<nat>, s: nat)
    requires OnVolume(g, nSectors, ch) && !Clear(g, ch, s)
    ensures s < nSectors && !InFat(g, s) && !InMirror(g, s)
  {
    hide ValidGeometry, ClusterSector;
    var i :| 0 <= i < |ch| && ClusterSector(g, ch[i]) <= s < ClusterSector(g, ch[i]) + g.csize;
    ClusterOnVolume(g, nSectors, ch[i], s - ClusterSector(g, ch[i]));
  }

  /** The bytes of a file depend on the sectors of its chain only. */
  lemma ContentFrame(g: Geometry, img: Image, img': Image, ch: seq<nat>, n: nat)
    requires OnVolume(g, |img|, ch) && WellSized(g, img) && WellSized(g, img') && |img| == |img'|
    requires n <= Capacity(g, ch)
    requires forall s: nat :: s < |img| && !Clear(g, ch, s) ==> img'[s] == img[s]
    ensures Content(g, img', ch, n) == Content(g, img, ch, n)
  {
    hide FileByte, ValidGeometry, Sec, WellSized, Clear;
    var a, b := Content(g, img', ch, n), Content(g, img, ch, n);
    forall k | 0 <= k < n ensures a[k] == b[k] {
      SecOnVolume(g, |img|, ch, k / 512);
      SecNotClear(g, ch, k / 512);
      ByteFrame(g, img, img', ch, k);
    }
  }
}
