/**
 What the clean buffer of an open file has to show: of its sector, if that is one of the file, the bytes
 before some place in the file. What it shows of other sectors, or behind that place, does not matter.
 */
module FatBuffer {
  import opened FatLayout
  import opened FatChains
  import opened FatFileSpec

  /** `b` is `sec` on the bytes of sector `d` that are before byte `n` of the file on chain `ch`. */
  ghost predicate Agrees(g: Geometry, ch: seq<nat>, d: nat, b: seq<Byte>, sec: Sector, n: nat)
    requires |b| == |sec| == 512 && forall i :: 0 <= i < |ch| ==> 2 <= ch[i]
  {
    forall j: nat, i: nat {:trigger Sec(g, ch, j), b[i]} ::
      j < |ch| * g.csize && Sec(g, ch, j) == d && i < 512 && j * 512 + i < n ==> b[i] == sec[i]
  }

  lemma AgreesSame(g: Geometry, ch: seq<nat>, d: nat, b: seq<Byte>, n: nat)
    requires |b| == 512 && forall i :: 0 <= i < |ch| ==> 2 <= ch[i]
    ensures Agrees(g, ch, d, b, b, n)
  {}

  lemma AgreesLess(g: Geometry, ch: seq<nat>, d: nat, b: seq<Byte>, sec: Sector, n: nat, n': nat)
    requires |b| == |sec| == 512 && (forall i :: 0 <= i < |ch| ==> 2 <= ch[i]) && Agrees(g, ch, d, b, sec, n) && n' <= n
    ensures Agrees(g, ch, d, b, sec, n')
  {}

  /** A sector that is not the file's does not matter. */
  lemma AgreesOff(g: Geometry, ch: seq<nat>, d: nat, b: seq<Byte>, sec: Sector, n: nat)
    requires |b| == |sec| == 512 && (forall i :: 0 <= i < |ch| ==> 2 <= ch[i]) && Clear(g, ch, d)
    ensures Agrees(g, ch, d, b, sec, n)
  {
    forall j: nat | j < |ch| * g.csize ensures Sec(g, ch, j) != d {
      SecNotClear(g, ch, j);
    }
  }

  /** At the sector of byte `p` the buffer has the bytes before `n`. */
  lemma AgreesAt(g: Geometry, ch: seq<nat>, d: nat, b: seq<Byte>, sec: Sector, n: nat, j: nat)
    requires |b| == |sec| == 512 && (forall i :: 0 <= i < |ch| ==> 2 <= ch[i]) && Agrees(g, ch, d, b, sec, n)
    requires j < |ch| * g.csize && Sec(g, ch, j) == d
    ensures forall i :: 0 <= i < 512 && j * 512 + i < n ==> b[i] == sec[i]
  {}

  /** A longer chain has the same sectors before its new end. */
  lemma AgreesLonger(g: Geometry, ch: seq<nat>, c: nat, d: nat, b: seq<Byte>, sec: Sector, n: nat)
    requires |b| == |sec| == 512 && 2 <= c && forall i :: 0 <= i < |ch| ==> 2 <= ch[i]
    requires Agrees(g, ch, d, b, sec, n) && n <= Capacity(g, ch) && 0 < g.csize
    ensures forall i :: 0 <= i < |ch + [c]| ==> 2 <= (ch + [c])[i]
    ensures Agrees(g, ch + [c], d, b, sec, n)
  {
    forall j: nat, i: nat | j < |ch + [c]| * g.csize && Sec(g, ch + [c], j) == d && i < 512 && j * 512 + i < n
      ensures b[i] == sec[i]
    {
      assert j < |ch| * g.csize;
      DivRange(j, g.csize, |ch|);
      assert Sec(g, ch, j) == d;
    }
  }

  /** A shorter chain has the same sectors before its end. */
  lemma AgreesShorter(g: Geometry, ch: seq<nat>, k: nat, d: nat, b: seq<Byte>, sec: Sector, n: nat, n': nat)
    requires |b| == |sec| == 512 && 0 < g.csize && k <= |ch| && forall i :: 0 <= i < |ch| ==> 2 <= ch[i]
    requires Agrees(g, ch, d, b, sec, n) && n' <= n
    ensures Agrees(g, ch[..k], d, b, sec, n')
  {
    MulMonotone(g.csize, k, |ch|);
    forall j: nat, i: nat | j < k * g.csize && Sec(g, ch[..k], j) == d && i < 512 && j * 512 + i < n'
      ensures b[i] == sec[i]
    {
      DivRange(j, g.csize, k);
      assert Sec(g, ch, j) == d;
    }
  }

  /** Writing sectors of the file leaves a buffer on another sector right, also for the bytes written. */
  lemma AgreesBeside(g: Geometry, fat: seq<nat>, ch: seq<nat>, d: nat, b: seq<Byte>, sec: Sector, n: nat, j: nat,
    cc: nat, n': nat)
    requires |b| == |sec| == 512 && IsChain(fat, ch) && 0 < g.csize && Agrees(g, ch, d, b, sec, n)
    requires j < |ch| * g.csize && 0 < cc && j % g.csize + cc <= g.csize && j * 512 <= n && n' <= (j + cc) * 512
    requires !(Sec(g, ch, j) <= d < Sec(g, ch, j) + cc)
    ensures n <= n' ==> Agrees(g, ch, d, b, sec, n')
  {
    if n <= n' {
      forall k: nat, i: nat | k < |ch| * g.csize && Sec(g, ch, k) == d && i < 512 && k * 512 + i < n'
        ensures b[i] == sec[i]
      {
        if k * 512 + i >= n {
          assert j <= k < j + cc;
          SecRun(g, ch, j, k - j);
        }
      }
    }
  }
}
