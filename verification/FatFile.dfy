/**
 The open file object: a private one-sector buffer and a current-cluster shortcut over the
 allocator. Its operations are proved to act on a plain byte sequence.
 */
module FatFile {
  import opened Bounds
  import opened FatLayout
  import opened FatChains
  import opened FatVolume
  import opened FatFileSpec
  import opened FatBuffer

  class File {
    const fs: Volume
    const buf: array<Byte>
    const canRead: bool
    const canWrite: bool
    var fptr: nat
    var fsize: nat
    var sclust: nat
    var clust: nat
    var dsect: nat
    var dirty: bool
    var written: bool
    var err: FResult           // the error that ended the use of the file
    ghost var chain: seq<nat>  // the clusters of the file
    ghost var lim: nat         // a clean buffer is right about the bytes of the file before this one
    ghost var whole: bool      // a clean buffer shows all of its sector
    ghost var owned: bool      // the buffered sector, if any, is one of the file
    ghost var shy: seq<nat>    // clusters of other files, which the window stays away from

    /** The chain, the window and the place of the buffer. */
    ghost predicate Base()
      reads `sclust, `chain, `dsect, `dirty, `owned, `shy, fs`disk, fs`wflag, fs`winsect, fs.win, buf
    {
      && fs.Valid() && buf.Length == 512 && buf != fs.win
      && (if sclust == 0 then chain == [] else IsChain(fs.Fat(), chain) && chain[0] == sclust)
      && OnVolume(fs.geo, |fs.disk|, chain)
      && Clear(fs.geo, chain, fs.winsect)
      && (dsect != 0 ==> fs.geo.database <= dsect < |fs.disk|)
      && (dirty ==> dsect != 0 && !Clear(fs.geo, chain, dsect))
      && (owned && dsect != 0 ==> !Clear(fs.geo, chain, dsect))
      && OnVolume(fs.geo, |fs.disk|, shy) && Clear(fs.geo, shy, fs.winsect)
    }

    /**
     And the buffer is dirty or shows the bytes of the file that are in its sector, as far as they are
     before `lim`. What it shows of a sector that is not the file's does not matter.
     */
    ghost predicate Core()
      reads `sclust, `chain, `dsect, `dirty, `lim, `whole, `owned, `shy
      reads fs`disk, fs`wflag, fs`winsect, fs.win, buf
      ensures Core() ==> Base()
    {
      && Base() && lim <= Capacity(fs.geo, chain)
      && (dsect != 0 && !dirty ==> Agrees(fs.geo, chain, dsect, buf[..], fs.Logical()[dsect], lim))
      && (dsect != 0 && !dirty && whole ==> buf[..] == fs.Logical()[dsect])
    }

    /** The medium with the dirty buffer in place. */
    ghost function Data(): (img: Image)
      reads `sclust, `chain, `dsect, `dirty, `owned, `shy, fs`disk, fs`wflag, fs`winsect, fs.win, buf
      requires Base()
      ensures |img| == |fs.disk| && WellSized(fs.geo, img)
    {
      if dirty then fs.Logical()[dsect := buf[..]] else fs.Logical()
    }

    /** The allocation table of the volume. */
    ghost function Table(): (fat: seq<nat>)
      reads `sclust, `chain, `dsect, `dirty, `owned, `shy, fs`disk, fs`wflag, fs`winsect, fs.win, buf
      requires Base()
    {
      fs.Fat()
    }

    /** The reserved bits of its entries. */
    ghost function Spare(): (r: seq<nat>)
      reads `sclust, `chain, `dsect, `dirty, `owned, `shy, fs`disk, fs`wflag, fs`winsect, fs.win, buf
      requires Base()
    {
      fs.Reserved()
    }

    /** No reserved bit has changed, the free count not without FSINFO being due, and a right one is not forgotten. */
    twostate predicate Tended()
      reads `sclust, `chain, `dsect, `dirty, `owned, `shy, buf
      reads fs`disk, fs`wflag, fs`winsect, fs.win, fs`fsiDirty, fs`freeClust
      requires old(Base()) && Base()
    {
      && Spare() == old(Spare()) && |fs.disk| == old(|fs.disk|)
      && (old(fs.fsiDirty) ==> fs.fsiDirty) && (fs.freeClust == old(fs.freeClust) || fs.fsiDirty)
      && (old(fs.freeClust) == UNKNOWN ==> fs.freeClust == UNKNOWN)
      && (old(CountExact()) && old(fs.freeClust) != UNKNOWN ==> fs.freeClust != UNKNOWN)
    }

    /** The chain has become longer, or all is as before and nothing more waits to be written. */
    twostate predicate Walked()
      reads `sclust, `chain, `dsect, `dirty, `owned, `shy, buf
      reads fs`disk, fs`wflag, fs`winsect, fs.win, fs`freeClust
      requires old(Base()) && Base()
    {
      && |old(chain)| <= |chain|
      && (|chain| == |old(chain)| ==>
            && chain == old(chain) && Data() == old(Data()) && Table() == old(Table())
            && (fs.wflag ==> old(fs.wflag)) && fs.freeClust == old(fs.freeClust))
    }

    /**
     A call that succeeds and has not marked the file for f_sync has changed nothing, and has left nothing more to be
     written; a mark stays.
     */
    twostate predicate Traced()
      reads this, fs, fs.win, buf
      requires old(Base()) && Base()
    {
      && (old(written) ==> written) && (old(err) != Ok ==> err == old(err))
      && (err == Ok && !written ==>
            && chain == old(chain) && fsize == old(fsize) && Data() == old(Data()) && Table() == old(Table())
            && (fs.wflag ==> old(fs.wflag)) && (dirty ==> old(dirty)) && fs.freeClust == old(fs.freeClust))
    }

    /** The free count of the volume is unknown or right. */
    ghost predicate CountExact()
      reads `sclust, `chain, `dsect, `dirty, `owned, `shy, fs`disk, fs`wflag, fs`winsect, fs`freeClust, fs.win, buf
      requires Base()
    {
      fs.freeClust != UNKNOWN ==> fs.freeClust == |FreeSet(Table())|
    }

    ghost predicate Covers(n: nat)
      reads `chain
    {
      n <= Capacity(fs.geo, chain)
    }

    lemma CoversLess(m: nat, n: nat)
      requires Covers(n) && m <= n
      ensures Covers(m)
    {}

    lemma CoversAtMost(n: nat)
      ensures Covers(n) <==> n <= Capacity(fs.geo, chain)
    {}

    /** The first `n` bytes of the file. */
    ghost function Contents(n: nat): (c: seq<Byte>)
      reads `sclust, `chain, `dsect, `dirty, `owned, `shy, fs`disk, fs`wflag, fs`winsect, fs.win, buf
      requires Base() && Covers(n)
      ensures |c| == n
    {
      Content(fs.geo, Data(), chain, n)
    }

    lemma ContentsPrefix(m: nat, n: nat)
      requires Base() && Covers(m) && Covers(n) && m <= n
      ensures Contents(m) == Contents(n)[..m]
    {
      hide Volume.Valid, Volume.Fat, Volume.Reserved, Volume.Logical, FileByte, IsChain, Data;
    }

    /** The current cluster is the one of the chain that holds byte `p`. */
    ghost predicate OnCluster(p: nat)
      reads `chain, `clust
    {
      0 != clust == ClusterAt(fs.geo, chain, p)
    }

    /** `sect` is the sector that holds byte `p`. */
    ghost predicate HoldsByte(sect: nat, p: nat)
      reads `chain
    {
      0 != sect == SectorAt(fs.geo, chain, p)
    }

    /** The file pointer, the current cluster and the buffer agree. */
    ghost predicate AtPtr()
      reads `fptr, `chain, `clust, `dsect
    {
      && (fptr > 0 ==> OnCluster(fptr - 1))
      && (fptr % 512 != 0 ==> HoldsByte(dsect, fptr))
    }

    /** The state between two calls that succeed. */
    ghost predicate Usable()
      reads this, fs, fs.win, buf
    {
      Core() && lim <= fsize && fptr <= fsize < TWO32 && Covers(fsize) && AtPtr()
    }

    /** And the buffer is right about all bytes of the file. */
    ghost predicate Steady()
      reads this, fs, fs.win, buf
    {
      Usable() && lim == fsize
    }

    /** After an internal error the file keeps its bytes, but its pointer is of no more use. */
    ghost predicate Standing()
      reads this, fs, fs.win, buf
    {
      if err == Ok then Usable() else err == IntErr && Core() && lim <= fsize < TWO32 && Covers(fsize)
    }

    ghost predicate Valid()
      reads this, fs, fs.win, buf
    {
      Standing() && lim == fsize
    }

    /** The end of f_open: the directory entry gives the start cluster and the size. */
    constructor Open(fs: Volume, start: nat, size: nat, read: bool, write: bool, ghost ch: seq<nat>)
      requires fs.Valid() && OnVolume(fs.geo, |fs.disk|, ch) && Clear(fs.geo, ch, fs.winsect)
      requires if start == 0 then ch == [] else IsChain(fs.Fat(), ch) && ch[0] == start
      requires size <= Capacity(fs.geo, ch) && size < TWO32
      ensures Valid() && err == Ok && fresh(buf) && this.fs == fs && chain == ch && whole && owned && shy == []
      ensures fptr == 0 && fsize == size && sclust == start && !dirty && !written && dsect == 0
      ensures canRead == read && canWrite == write
      ensures Data() == fs.Logical()
    {
      this.fs := fs;
      buf := new Byte[512];
      canRead, canWrite := read, write;
      fptr, fsize, sclust, clust, dsect := 0, size, start, 0, 0;
      dirty, written, err := false, false, Ok;
      chain, lim, whole, owned, shy := ch, size, true, true, [];
    }

    /** Write the buffer back if it is dirty. */
    method Flush()
      requires Core()
      modifies fs`disk, `dirty
      ensures Core() && !dirty && Data() == old(Data()) && |fs.disk| == old(|fs.disk|)
      ensures Table() == old(Table())
      ensures Tended()
    {
      hide Volume.Valid, Volume.Logical, Volume.Fat, Volume.Reserved, IsChain, ClusterSector;
      if dirty {
        NotClearElsewhere(fs.geo, chain, dsect, fs.winsect);
        ghost var img := fs.Logical();
        fs.DiskWrite(buf[..], dsect, 1);
        WriteOne(img, dsect, buf[..]);
        dirty := false;
        AgreesSame(fs.geo, chain, dsect, buf[..], lim);
      }
    }

    /** Make the buffer hold sector `sect`, as f_read does. */
    method LoadSector(sect: nat)
      requires Core() && !Clear(fs.geo, chain, sect) && fs.geo.database <= sect < |fs.disk| && 0 != sect
      modifies fs`disk, `dirty, `dsect, buf
      ensures Core() && dsect == sect && Data() == old(Data())
      ensures old(dsect) != sect ==> !dirty && buf[..] == Data()[sect]
      ensures old(dsect) == sect ==> buf[..] == old(buf[..]) && dirty == old(dirty)
      ensures |fs.disk| == old(|fs.disk|) && Table() == old(Table())
      ensures Tended()
    {
      hide Volume.Valid, Volume.Logical, Volume.Fat, Volume.Reserved, IsChain, Clear, ValidGeometry, WellSized,
        Agrees;
      if dsect != sect {
        Flush();
        Fetch(sect);
      }
    }

    /** Read a sector of the file into the buffer, which is clean. */
    method Fetch(sect: nat)
      requires Core() && !dirty && !Clear(fs.geo, chain, sect) && fs.geo.database <= sect < |fs.disk| && 0 != sect
      modifies `dsect, buf
      ensures Core() && dsect == sect && Data() == old(Data()) && buf[..] == Data()[sect] && Table() == old(Table())
      ensures Tended()
    {
      hide Volume.Valid, Volume.Logical, Volume.Fat, Volume.Reserved, IsChain, Clear, ValidGeometry, WellSized,
        Agrees;
      NotClearElsewhere(fs.geo, chain, sect, fs.winsect);
      var sec := fs.DiskRead(sect, 1);
      FillBuf(sec);
      ReadOne(fs.geo, fs.Logical(), sect);
      dsect := sect;
      AgreesSame(fs.geo, chain, dsect, buf[..], lim);
    }

    method FillBuf(sec: Sector)
      requires |sec| == buf.Length
      modifies buf
      ensures buf[..] == sec
    {
      var i := 0;
      while i < buf.Length
        invariant i <= buf.Length && buf[..i] == sec[..i]
      {
        buf[i] := sec[i];
        i := i + 1;
      }
    }

    /** Moving the window to the FAT keeps the file as it is. */
    twostate lemma WindowMoved()
      requires old(Core()) && fs.Valid() && fs.Logical() == old(fs.Logical()) && fs.Fat() == old(fs.Fat())
      requires fs.winsect == old(fs.winsect) || InFat(fs.geo, fs.winsect)
      requires unchanged(buf) && dirty == old(dirty) && dsect == old(dsect)
      requires sclust == old(sclust) && chain == old(chain) && owned == old(owned) && shy == old(shy)
      requires lim == old(lim) && whole == old(whole)
      ensures Core() && Data() == old(Data()) && Table() == old(Table()) && |fs.disk| == old(|fs.disk|)
    {
      hide Volume.Valid, Volume.Fat, Volume.Reserved, Volume.Logical, IsChain, ClusterSector, ValidGeometry;
      assert |fs.Logical()| == |fs.disk| && buf[..] == old(buf[..]);
      if fs.winsect != old(fs.winsect) {
        FatSectorClear(fs.geo, |fs.disk|, chain, fs.winsect);
        FatSectorClear(fs.geo, |fs.disk|, shy, fs.winsect);
      }
    }

    /** The first half of f_read at a sector boundary: follow the chain and find the sector. */
    method FollowForRead() returns (sect: nat)
      requires Core() && Covers(fptr + 1) && AtPtr() && fptr % 512 == 0
      modifies fs`disk, fs`wflag, fs`winsect, fs.win, `clust
      ensures Core() && Data() == old(Data()) && |fs.disk| == old(|fs.disk|) && Table() == old(Table())
      ensures OnCluster(fptr) && HoldsByte(sect, fptr) && 0 < fs.geo.csize
      ensures Tended() && (fs.wflag ==> old(fs.wflag))
    {
      hide Core, Base, Data, Table, Spare, Clust2Sect, ClusterAt, SectorAt, Covers, ClusterStart, SectorInCluster;
      PtrFacts(fptr);
      var csect := SectorInCluster(fs.geo, fptr);
      InClusterIs(fs.geo, fptr);
      ZeroStart(fs.geo);
      if csect == 0 {
        clust := ClusterForRead();
      }
      sect := Clust2Sect(fs.geo, clust);
      sect := sect + csect;
      SectorFound(fptr);
    }

    /** The next cluster of the file; it is one, so neither test for an invalid link fires. */
    method ClusterForRead() returns (clst: nat)
      requires Core() && Covers(fptr + 1) && AtPtr() && ClusterStart(fs.geo, fptr)
      modifies fs`disk, fs`wflag, fs`winsect, fs.win
      ensures Core() && Data() == old(Data()) && |fs.disk| == old(|fs.disk|) && Table() == old(Table())
      ensures 0 != clst == ClusterAt(fs.geo, chain, fptr)
      ensures Tended() && (fs.wflag ==> old(fs.wflag))
    {
      hide Volume.Valid, Volume.Fat, Volume.Reserved, Volume.Logical, Clear, IsChain, ValidGeometry, ClusterAt,
        SectorAt;
      PtrFacts(fptr);
      if fptr == 0 {
        clst := sclust;
      } else {
        clst := fs.GetFat(clust);
        WindowMoved();
      }
    }

    /** The first sector of the current cluster and the offset in it give the sector of a byte. */
    lemma SectorFound(p: nat)
      requires Core() && Covers(p + 1) && OnCluster(p)
      ensures 0 < fs.geo.csize && 0 != Clust2Sect(fs.geo, clust)
      ensures HoldsByte(Clust2Sect(fs.geo, clust) + SectorInCluster(fs.geo, p), p)
    {
      hide Volume.Valid, Volume.Fat, Volume.Reserved, Volume.Logical, Clear, IsChain, ClusterAt;
      AtCovered(fs.geo, |fs.disk|, chain, p);
      Clust2SectIs(fs.geo, |fs.disk|, clust);
    }

    /** Where byte `p` lies: its cluster along the chain, and the one before it. */
    lemma PtrFacts(p: nat)
      requires Core() && Covers(p + 1)
      ensures 0 < fs.geo.csize && ValidGeometry(fs.geo, |fs.disk|) && |Table()| == fs.geo.nFatent
      ensures 2 <= ClusterAt(fs.geo, chain, p) < fs.geo.nFatent && 0 < SectorAt(fs.geo, chain, p)
      ensures p == 0 ==> ClusterAt(fs.geo, chain, p) == sclust
      ensures p > 0 && ClusterStart(fs.geo, p) ==>
                var c := ClusterAt(fs.geo, chain, p - 1);
                IsCluster(Table(), c) && Table()[c] == ClusterAt(fs.geo, chain, p)
      ensures p > 0 && !ClusterStart(fs.geo, p) ==>
                ClusterAt(fs.geo, chain, p - 1) == ClusterAt(fs.geo, chain, p)
    {
      hide Volume.Valid, Volume.Fat, Volume.Reserved, Volume.Logical, Clear, ClusterSector, SectorAt;
      AtCovered(fs.geo, |fs.disk|, chain, p);
      if p > 0 {
        AtNext(fs.geo, Table(), chain, p);
      }
    }

    /** The `cc` sectors from that of byte `p` on belong to one cluster. */
    ghost predicate InOneCluster(p: nat, cc: nat) {
      0 < fs.geo.csize && p / 512 % fs.geo.csize + cc <= fs.geo.csize
    }

    lemma OneSector(p: nat)
      requires 0 < fs.geo.csize
      ensures InOneCluster(p, 1)
    {}

    /** The whole sectors of a transfer, clipped at the cluster boundary. */
    method ClipAtCluster(n: nat) returns (cc: nat)
      requires 512 <= n && 0 < fs.geo.csize
      ensures 0 < cc && cc * 512 <= n && InOneCluster(fptr, cc)
    {
      var csect := fptr / 512 % fs.geo.csize;
      cc := n / 512;
      if csect + cc > fs.geo.csize {
        cc := fs.geo.csize - csect;
      }
    }

    /**
     Read whole sectors straight from the medium, up to the end of the cluster, and put a dirty
     buffer in its place.
     */
    method ReadDirect(sect: nat, btr: nat) returns (data: seq<Byte>, cc: nat)
      requires Core() && HoldsByte(sect, fptr) && 512 <= btr && Covers(fptr + 1)
      ensures 0 < cc && cc * 512 <= btr && InOneCluster(fptr, cc)
      ensures sect + cc <= |fs.disk| && data == ReadRun(Data(), sect, cc)
    {
      hide Volume.Valid, Volume.Fat, Volume.Reserved, Volume.Logical, IsChain, Clear, SectorAt, WellSized,
        InOneCluster, ValidGeometry;
      StartOfChain();
      cc := ClipAtCluster(btr);
      RunOnVolume(sect, fptr, cc);
      data := fs.DiskRead(sect, cc);
      PatchRead(sect, cc);
      if dirty && Sub32(dsect, sect) < cc {
        var o := Sub32(dsect, sect) * 512;
        data := data[..o] + buf[..] + data[o + 512..];
      }
    }

    /** What the dirty buffer changes about sectors read from the medium. */
    lemma PatchRead(sect: nat, cc: nat)
      requires Core() && sect + cc <= |fs.disk| <= TWO32
      ensures WellSized(fs.geo, fs.Logical())
      ensures dirty && Sub32(dsect, sect) < cc ==>
                var data := ReadRun(fs.Logical(), sect, cc);
                var o := Sub32(dsect, sect) * 512;
                ReadRun(Data(), sect, cc) == data[..o] + buf[..] + data[o + 512..]
      ensures !(dirty && Sub32(dsect, sect) < cc) ==> ReadRun(Data(), sect, cc) == ReadRun(fs.Logical(), sect, cc)
    {
      hide Volume.Valid, Volume.Fat, Volume.Reserved, Volume.Logical, IsChain, Clear;
      if dirty && Sub32(dsect, sect) < cc {
        ReadRunPatched(fs.Logical(), sect, cc, dsect, buf[..]);
      } else if dirty {
        ReadRunElsewhere(fs.Logical(), sect, cc, dsect, buf[..]);
      }
    }

    /** The sectors from that of byte `p` to the end of its cluster are the file's. */
    lemma RunOnVolume(sect: nat, p: nat, cc: nat)
      requires Core() && HoldsByte(sect, p) && Covers(p + 1) && 0 < cc
      requires InOneCluster(p, cc)
      ensures fs.geo.database <= sect && sect + cc <= |fs.disk| <= TWO32
      ensures !(sect <= fs.winsect < sect + cc)
      ensures forall s :: sect <= s < sect + cc ==> !Clear(fs.geo, chain, s)
    {
      hide Volume.Valid, Volume.Fat, Volume.Reserved, Volume.Logical, IsChain, Sec, SectorAt, Clear, ClusterSector;
      AtCovered(fs.geo, |fs.disk|, chain, p);
      forall s | sect <= s < sect + cc ensures fs.geo.database <= s < |fs.disk| && !Clear(fs.geo, chain, s) {
        var t := s - sect;
        SecRun(fs.geo, chain, p / 512, t);
        SecOnVolume(fs.geo, |fs.disk|, chain, p / 512 + t);
        SecNotClear(fs.geo, chain, p / 512 + t);
      }
      assert !Clear(fs.geo, chain, sect) && !Clear(fs.geo, chain, sect + (cc - 1));
      assert Clear(fs.geo, chain, fs.winsect);
    }

    /** The buffer shows the file at the sector it holds. */
    lemma BufferIsData(p: nat)
      requires Core() && HoldsByte(dsect, p) && Covers(p + 1)
      ensures Staged(p, lim)
    {
      hide Volume.Valid, Volume.Fat, Volume.Reserved, Volume.Logical, IsChain, ClusterSector, SectorAt, Agrees, Sec;
      AtCovered(fs.geo, |fs.disk|, chain, p);
      if !dirty {
        AgreesAt(fs.geo, chain, dsect, buf[..], fs.Logical()[dsect], lim, p / 512);
      }
    }

    /** Sectors read directly are the next bytes of the file. */
    lemma DirectIsContent(sect: nat, cc: nat, n: nat)
      requires Core() && HoldsByte(sect, fptr) && fptr % 512 == 0 && 0 < cc
      requires InOneCluster(fptr, cc) && fptr + cc * 512 <= n && Covers(n)
      ensures sect + cc <= |fs.disk|
      ensures ReadRun(Data(), sect, cc) == Contents(n)[fptr..fptr + cc * 512]
    {
      hide Volume.Valid, Volume.Fat, Volume.Reserved, Volume.Logical, IsChain, ClusterSector, Sec, SectorAt, Data,
        Clear;
      AtCovered(fs.geo, |fs.disk|, chain, fptr);
      RunIsContent(fs.geo, Data(), chain, fptr / 512, cc, n);
    }

    lemma PartIsNext(m: nat, n: nat)
      requires Core() && HoldsByte(dsect, fptr) && fptr % 512 + m <= 512 && 0 < m && fptr + m <= n <= lim && Covers(n)
      ensures fptr % 512 + m <= buf.Length
      ensures buf[fptr % 512..fptr % 512 + m] == Contents(n)[fptr..fptr + m]
    {
      hide Volume.Valid, Volume.Fat, Volume.Reserved, Volume.Logical, IsChain, ClusterSector, Sec, SectorAt, Data,
        Clear, Agrees;
      AtCovered(fs.geo, |fs.disk|, chain, fptr);
      BufferIsData(fptr);
      PartIsContent(fs.geo, Data(), chain, fptr, m, n);
      assert buf[fptr % 512..fptr % 512 + m] == Data()[dsect][fptr % 512..fptr % 512 + m];
    }

    /** After `n` more bytes of the same cluster the current cluster holds the last of them. */
    lemma StaysOnCluster(n: nat)
      requires OnCluster(fptr) && 0 < n && 0 < fs.geo.csize
      requires fptr % 512 + n <= 512 || (fptr % 512 == 0 && n <= (fs.geo.csize - fptr / 512 % fs.geo.csize) * 512)
      ensures OnCluster(fptr + n - 1)
    {
      hide ClusterAt;
      AtSameCluster(fs.geo, chain, fptr, n);
    }

    /** After whole sectors of the same cluster, too. */
    lemma StaysOnRun(cc: nat)
      requires OnCluster(fptr) && 0 < cc && fptr % 512 == 0 && InOneCluster(fptr, cc)
      ensures OnCluster(fptr + cc * 512 - 1) && cc * 512 % 512 == 0
    {
      hide ClusterAt;
      AtSameCluster(fs.geo, chain, fptr, cc * 512);
    }

    /** Inside a sector the current cluster and the buffered sector are those of the next byte. */
    lemma InsideSector(n: nat)
      requires Core() && AtPtr() && fptr % 512 != 0 && fptr < n && Covers(n)
      ensures OnCluster(fptr) && HoldsByte(dsect, fptr) && 0 < fs.geo.csize
    {
      hide Core, Base, Table, Spare, ClusterAt, SectorAt;
      PtrFacts(fptr);
    }

    /** A sector that holds a byte holds the next ones of the same sector. */
    lemma SameHolder(sect: nat, p: nat, n: nat)
      requires HoldsByte(sect, p) && p % 512 + n <= 512
      ensures (p + n) % 512 != 0 ==> HoldsByte(sect, p + n)
    {
      hide ClusterAt, SectorAt;
      if p % 512 + n < 512 {
        AtSameSector(fs.geo, chain, p, n);
      } else {
        ModUnique(p + n, 512, p / 512 + 1, 0);
      }
    }

    /** Copy the rest of the buffered sector, or as much as is asked for, and move the file pointer. */
    method ReadPart(btr: nat) returns (chunk: seq<Byte>)
      requires Core() && lim <= fsize && fptr < fsize < TWO32 && Covers(fsize) && 0 < btr <= fsize - fptr
      requires OnCluster(fptr) && HoldsByte(dsect, fptr) && 0 < fs.geo.csize
      modifies `fptr
      ensures Usable() && 0 < |chunk| <= btr && fptr == old(fptr) + |chunk|
      ensures lim == fsize ==> chunk == Contents(fsize)[old(fptr)..fptr]
      ensures old(fptr) % 512 + btr <= 512 ==> chunk == buf[..][old(fptr) % 512..old(fptr) % 512 + btr]
    {
      hide Core, Base, Data, Table, Spare, Content, SectorAt, ClusterAt, Covers;
      BufferSize();
      var rcnt := 512 - fptr % 512;
      if rcnt > btr {
        rcnt := btr;
      }
      if lim == fsize {
        PartIsNext(rcnt, fsize);
      }
      chunk := buf[fptr % 512..fptr % 512 + rcnt];
      StaysOnCluster(rcnt);
      SameHolder(dsect, fptr, rcnt);
      fptr := fptr + rcnt;
    }

    lemma BufferSize()
      requires Core()
      ensures buf.Length == 512 && buf != fs.win
    {}

    /**
     The rest of a turn of f_read at a sector boundary, once the sector is known: whole sectors are
     transferred directly, and part of a sector by way of the buffer.
     */
    method ReadHere(sect: nat, btr: nat) returns (chunk: seq<Byte>)
      requires Core() && fptr % 512 == 0 && lim <= fsize < TWO32 && Covers(fsize) && 0 < btr <= fsize - fptr
      requires OnCluster(fptr) && HoldsByte(sect, fptr) && 0 < fs.geo.csize
      modifies fs`disk, `dirty, `dsect, `fptr, buf
      ensures Usable() && Data() == old(Data()) && Table() == old(Table())
      ensures 0 < |chunk| <= btr && fptr == old(fptr) + |chunk|
      ensures lim == fsize ==> chunk == Contents(fsize)[old(fptr)..fptr]
      ensures btr < 512 && sect == old(dsect) ==> BufferKept() && chunk == buf[..][..btr]
      ensures Tended() && (dirty ==> old(dirty))
    {
      hide Core, Base, Data, Table, Spare, Content, SectorAt, ClusterAt, Covers, Clear, InOneCluster;
      CoversLess(fptr + 1, fsize);
      if btr / 512 != 0 {
        var cc;
        chunk, cc := ReadDirect(sect, btr);
        DirectIsContent(sect, cc, fsize);
        StaysOnRun(cc);
        fptr := fptr + |chunk|;
      } else {
        OneSector(fptr);
        RunOnVolume(sect, fptr, 1);
        LoadSector(sect);
        chunk := ReadPart(btr);
      }
    }

    /** The buffer has not been touched. */
    twostate predicate BufferKept()
      reads `dsect, `dirty, buf
    {
      dsect == old(dsect) && dirty == old(dirty) && buf[..] == old(buf[..])
    }

    /** One turn of the loop of f_read. */
    method ReadChunk(btr: nat) returns (chunk: seq<Byte>)
      requires Usable() && 0 < btr <= fsize - fptr
      modifies fs`disk, fs`wflag, fs`winsect, fs.win, `clust, `dirty, `dsect, `fptr, buf
      ensures Usable() && Data() == old(Data()) && Table() == old(Table())
      ensures 0 < |chunk| <= btr && fptr == old(fptr) + |chunk|
      ensures lim == fsize ==> chunk == Contents(fsize)[old(fptr)..fptr]
      ensures InBuffer(old(fptr), btr, old(dsect)) ==>
                BufferKept() && chunk == buf[..][old(fptr) % 512..old(fptr) % 512 + btr]
      ensures Tended() && (fs.wflag ==> old(fs.wflag)) && (dirty ==> old(dirty))
    {
      hide Core, Base, Data, Table, Spare, Content, SectorAt, ClusterAt, Covers;
      BufferSize();
      if fptr % 512 == 0 {
        CoversLess(fptr + 1, fsize);
        var sect := FollowForRead();
        chunk := ReadHere(sect, btr);
      } else {
        InsideSector(fsize);
        chunk := ReadPart(btr);
      }
    }

    /** Less than a sector from byte `p` on, all of it in sector `d`. */
    ghost predicate InBuffer(p: nat, m: nat, d: nat)
      reads `chain
    {
      0 < m < 512 && p % 512 + m <= 512 && HoldsByte(d, p)
    }

    /**
     f_read: the bytes at the file pointer, as many as asked for and left in the file. Bytes of the
     buffered sector come from the buffer.
     */
    method Read(btr: nat) returns (res: FResult, data: seq<Byte>)
      requires Standing()
      modifies fs`disk, fs`wflag, fs`winsect, fs.win, `clust, `dirty, `dsect, `fptr, buf
      ensures Standing() && Data() == old(Data()) && Table() == old(Table())
      ensures err != Ok ==> res == err && data == [] && fptr == old(fptr)
      ensures err == Ok && !canRead ==> res == Denied && data == [] && fptr == old(fptr)
      ensures err == Ok && canRead ==>
                && res == Ok && |data| == (if btr < fsize - old(fptr) then btr else fsize - old(fptr))
                && fptr == old(fptr) + |data| && (lim == fsize ==> data == Contents(fsize)[old(fptr)..fptr])
      ensures err == Ok && canRead && btr <= fsize - old(fptr) && InBuffer(old(fptr), btr, old(dsect)) ==>
                BufferKept() && buf.Length == 512 && data == buf[..][old(fptr) % 512..old(fptr) % 512 + btr]
      ensures Tended() && Traced()
    {
      hide Core, Base, Data, Table, Spare, AtPtr, Content, InBuffer;
      data := [];
      if err != Ok {
        return err, data;
      }
      if !canRead {
        return Denied, data;
      }
      data := ReadLoop(if btr > fsize - fptr then fsize - fptr else btr);
      res := Ok;
    }

    /** The loop of f_read. */
    method ReadLoop(n: nat) returns (data: seq<Byte>)
      requires Usable() && n <= fsize - fptr
      modifies fs`disk, fs`wflag, fs`winsect, fs.win, `clust, `dirty, `dsect, `fptr, buf
      ensures Usable() && Data() == old(Data()) && Table() == old(Table()) && buf.Length == 512
      ensures |data| == n && fptr == old(fptr) + n
      ensures lim == fsize ==> data == Contents(fsize)[old(fptr)..fptr]
      ensures InBuffer(old(fptr), n, old(dsect)) ==>
                BufferKept() && data == buf[..][old(fptr) % 512..old(fptr) % 512 + n]
      ensures Tended() && (fs.wflag ==> old(fs.wflag)) && (dirty ==> old(dirty))
    {
      hide Core, Base, Data, Table, Spare, AtPtr, Content, HoldsByte, Covers;
      data := [];
      BufferSize();
      while |data| < n
        invariant Usable() && Data() == old(Data()) && Table() == old(Table())
        invariant Tended() && (fs.wflag ==> old(fs.wflag)) && (dirty ==> old(dirty))
        invariant fptr == old(fptr) + |data| && |data| <= n
        invariant lim == fsize ==> data == Contents(fsize)[old(fptr)..fptr]
        invariant InBuffer(old(fptr), n, old(dsect)) ==>
                    BufferKept() && (data == [] || data == buf[..][old(fptr) % 512..old(fptr) % 512 + n])
        decreases n - |data|
      {
        ghost var c := Contents(fsize);
        ghost var p := fptr;
        var chunk := ReadChunk(n - |data|);
        assert Contents(fsize) == c;
        assert c[old(fptr)..fptr] == c[old(fptr)..p] + c[p..fptr];
        data := data + chunk;
      }
    }

    /** The end of the bytes written so far: f_write updates the size only when it is done. */
    ghost function Extent(): nat
      reads `fptr, `fsize
    {
      if fptr > fsize then fptr else fsize
    }

    /** The state between two turns of the loop of f_write. */
    ghost predicate Writing()
      reads this, fs, fs.win, buf
    {
      Core() && lim == Extent() && Extent() < TWO32 && Covers(Extent()) && AtPtr()
    }

    /** A cluster has been linked behind the chain, and nothing else of the file object has changed. */
    twostate predicate Stretched(clst: nat)
      reads this, fs, fs.win, buf
      requires old(Core()) && fs.Valid()
    {
      && SameOutsideFat(fs.geo, fs.Logical(), old(fs.Logical())) && InFat(fs.geo, fs.winsect)
      && IsCluster(old(fs.Fat()), clst) && old(fs.Fat())[clst] == 0
      && fs.Fat() == Linked(old(fs.Fat()), LastOf(old(chain)), clst, Kept(fs.geo.fsType, END_OF_CHAIN))
      && chain == old(chain) + [clst] && sclust == chain[0]
      && buf[..] == old(buf[..]) && dirty == old(dirty) && dsect == old(dsect) && owned == old(owned) && shy == old(shy)
      && lim == old(lim) && whole == old(whole)
    }

    twostate lemma StretchedCore(clst: nat)
      requires old(Core()) && fs.Valid() && Stretched(clst)
      ensures Core() && ChainGrown(old(Table()), old(chain), Table(), chain)
    {
      hide Volume.Valid, Volume.Fat, Volume.Reserved, Volume.Logical, IsChain, ChainGrown, Linked, ClusterSector,
        Kept, ValidGeometry, Agrees, Capacity;
      fs.GeometryFacts();
      ChainLinked(old(fs.Fat()), old(chain), clst, Kept(fs.geo.fsType, END_OF_CHAIN));
      assert |fs.Logical()| == |old(fs.Logical())| == |fs.disk| == |old(fs.disk)|;
      FatSectorClear(fs.geo, |fs.disk|, chain, fs.winsect);
      FatSectorClear(fs.geo, |fs.disk|, shy, fs.winsect);
      if dirty || (owned && dsect != 0) {
        LongerNotClear(fs.geo, old(chain), clst, dsect);
      }
      LongerCapacity(fs.geo, |fs.disk|, old(chain), clst);
      if dsect != 0 && !dirty {
        SectorBehindFat(fs.geo, |fs.disk|, dsect);
        AgreesLonger(fs.geo, old(chain), clst, dsect, buf[..], fs.Logical()[dsect], lim);
      }
    }

    /** The file is the same, with room for more; no other file is touched. */
    twostate lemma StretchedData(clst: nat, new n: nat)
      requires old(Core()) && old(Covers(n)) && Core() && Stretched(clst)
      ensures Covers(n) && Contents(n) == old(Contents(n))
      ensures OthersKept(fs.geo, old(Data()), Data(), chain)
    {
      hide Volume.Valid, Volume.Fat, Volume.Reserved, Volume.Logical, IsChain, Linked, ClusterSector, Kept,
        ValidGeometry, Clear, Content;
      fs.GeometryFacts();
      assert |fs.Logical()| == |old(fs.Logical())|;
      assert SameOutsideFat(fs.geo, Data(), old(Data()));
      ContentOfLonger(fs.geo, old(Data()), Data(), old(chain), clst, n);
    }

    /** The table has a successor for the cluster. */
    ghost predicate HasNext(c: nat)
      reads `sclust, `chain, `dsect, `dirty, `owned, `shy, fs`disk, fs`wflag, fs`winsect, fs.win, buf
      requires Base()
    {
      IsCluster(Table(), c) && IsCluster(Table(), Table()[c])
    }

    /** What the chain becomes when the file is to have `n` clusters. */
    ghost function Target(n: nat): Growth
      reads `sclust, `chain, `dsect, `dirty, `owned, `shy, fs`disk, fs`wflag, fs`winsect, fs`lastClust, fs.win, buf
      requires Base()
    {
      Grow(Table(), chain, fs.ScanStartFor(fs.lastClust), n, Kept(fs.geo.fsType, END_OF_CHAIN))
    }

    /** The answer of a search for the next cluster of the chain. */
    ghost function Next(): nat
      reads `sclust, `chain, `dsect, `dirty, `owned, `shy, fs`disk, fs`wflag, fs`winsect, fs`lastClust, fs.win, buf
      requires Base()
    {
      NextFor(Table(), chain, fs.ScanStartFor(fs.lastClust))
    }

    lemma TargetReached(n: nat)
      requires Base() && (n <= |chain| || Next() < 2)
      ensures Target(n) == if n <= |chain| then Growth(chain, 2) else Growth(chain, Next())
    {}

    /** The chain has been stretched, if at all, the way it was to be, and no sector of a file is written. */
    twostate predicate Aimed()
      reads `sclust, `chain, `dsect, `dirty, `owned, `shy, fs`disk, fs`wflag, fs`winsect, fs`lastClust, fs.win, buf
      requires old(Base()) && Base()
    {
      && (forall n: nat :: |old(chain)| < n || chain == old(chain) ==> Target(n) == old(Target(n)))
      && SameOutsideFat(fs.geo, Data(), old(Data()))
    }

    /** create_chain on a cluster of this file: follow its link, or stretch the chain behind its last cluster. */
    method Follow(last: nat, ghost n: nat) returns (clst: nat)
      requires Core() && Covers(n) && (HasNext(last) || last == LastOf(chain))
      requires sclust == 0 ==> last == 0
      modifies fs`disk, fs`wflag, fs`winsect, fs.win, fs`freeClust, fs`fsiDirty, fs`lastClust, `sclust, `chain
      ensures Core() && Covers(n) && Contents(n) == old(Contents(n))
      ensures ChainGrown(old(Table()), old(chain), Table(), chain) && OthersKept(fs.geo, old(Data()), Data(), chain)
      ensures old(HasNext(last)) ==> clst == old(Table())[last] && chain == old(chain)
      ensures clst < 2 ==> NoCluster(Table(), clst) && chain == old(chain)
      ensures !old(HasNext(last)) && clst >= 2 ==> chain == old(chain) + [clst]
      ensures clst < 2 || old(HasNext(last)) ==> Table() == old(Table()) && Data() == old(Data())
      ensures Aimed() && (clst < 2 ==> Next() == clst)
      ensures old(CountExact()) ==> CountExact()
      ensures Walked() && Tended()
    {
      hide Volume.Valid, Volume.Fat, Volume.Reserved, Volume.Logical, Linked, ClusterSector, Kept, ValidGeometry,
        Clear, Content, ChainGrown, OthersKept, HasReserved, Found, Answer, Grow, Agrees, Walked, Tended,
        Volume.Careful;
      fs.GeometryFacts();
      ghost var same := HasNext(last);
      EndOfFile();
      clst := fs.CreateChain(last);
      same := same || clst < 2;
      if same {
        WindowMoved();
        GrownReflexive(fs.geo, Table(), Data(), chain);
      } else {
        chain := chain + [clst];
      }
      if sclust == 0 && clst >= 2 {
        sclust := clst;
      }
      if !same {
        StretchedCore(clst);
        StretchedData(clst, n);
      }
      if !old(HasNext(last)) {
        FollowAims(clst);
      }
      Looked(same);
    }

    /** What create_chain keeps of the volume is kept for the file. */
    twostate lemma Looked(same: bool)
      requires old(Core()) && Core() && fs.Careful()
      requires if same then chain == old(chain) && Data() == old(Data()) && Table() == old(Table()) &&
                 (fs.wflag ==> old(fs.wflag)) && fs.freeClust == old(fs.freeClust)
               else |chain| == |old(chain)| + 1
      ensures Walked() && Tended()
    {
      hide Volume.Valid, Volume.Fat, Volume.Reserved, Volume.Logical, IsChain, Clear, Data, Agrees;
    }

    /** A search that goes as it has to brings the chain nearer to its target, or shows that it is there. */
    twostate lemma FollowAims(clst: nat)
      requires old(Core()) && Core() && SameOutsideFat(fs.geo, Data(), old(Data()))
      requires fs.ScanStartFor(old(fs.lastClust)) < |old(Table())|
      requires old(chain) == [] || IsCluster(old(Table()), LastOf(old(chain)))
      requires Found(old(Table()), if old(chain) == [] then fs.ScanStartFor(old(fs.lastClust))
                else LastOf(old(chain)), clst)
      requires clst < 2 ==> Table() == old(Table()) && chain == old(chain) && fs.lastClust == old(fs.lastClust)
      requires clst >= 2 ==>
                 && IsCluster(old(Table()), clst) && chain == old(chain) + [clst]
                 && Table() == Linked(old(Table()), LastOf(old(chain)), clst, Kept(fs.geo.fsType, END_OF_CHAIN))
      ensures Aimed() && (clst < 2 ==> Next() == clst)
    {
      hide Core, Base, Data, Table, Spare, Found, Answer, Grow, Kept, SameOutsideFat, Linked;
      var first := fs.ScanStartFor(old(fs.lastClust));
      if clst < 2 {
        AnswerIs(old(Table()), if old(chain) == [] then first else LastOf(old(chain)), clst);
      } else {
        GrowSteps(old(Table()), old(chain), first, fs.ScanStartFor(fs.lastClust), clst,
          Kept(fs.geo.fsType, END_OF_CHAIN));
      }
    }

    lemma EndOfFile()
      requires Core()
      ensures var last := LastOf(chain);
              if sclust == 0 then last == 0 else IsCluster(Table(), last) && Table()[last] >= fs.geo.nFatent
      ensures fs.ScanStartFor(fs.lastClust) < |Table()|
    {
      hide Volume.Logical, Clear, ClusterSector;
    }

    /** The cluster that byte `p` is to start: linked already, or to be linked behind the chain. */
    lemma EnterCluster(p: nat)
      requires Core() && Covers(p) && p > 0 && ClusterStart(fs.geo, p) && OnCluster(p - 1)
      ensures HasNext(clust) ==> Covers(p + 1) && Table()[clust] == ClusterAt(fs.geo, chain, p)
      ensures !HasNext(clust) ==> clust == LastOf(chain) && p == Capacity(fs.geo, chain)
      ensures chain != [] && sclust != 0
    {
      hide Volume.Valid, Volume.Fat, Volume.Reserved, Volume.Logical, Clear, ClusterSector, SectorAt;
      if p < Capacity(fs.geo, chain) {
        PtrFacts(p);
      } else {
        AtEnd(fs.geo, chain, p);
      }
    }

    lemma StartOfChain()
      requires Core()
      ensures sclust != 0 ==> Covers(1) && sclust == ClusterAt(fs.geo, chain, 0)
      ensures sclust == 0 ==> chain == []
      ensures 0 < fs.geo.csize && sclust != 1
    {
      hide Volume.Valid, Volume.Fat, Volume.Reserved, Volume.Logical, Clear, ClusterSector, SectorAt;
      if sclust != 0 {
        MulMonotone(fs.geo.csize, 1, |chain|);
      }
    }

    /** The cluster for the first byte of the file; below 2 when there is none and none can be had. */
    method FirstForWrite(ghost n: nat) returns (clst: nat)
      requires Core() && Covers(n)
      modifies fs`disk, fs`wflag, fs`winsect, fs.win, fs`freeClust, fs`fsiDirty, fs`lastClust, `sclust, `chain
      ensures Core() && Covers(n) && Contents(n) == old(Contents(n))
      ensures ChainGrown(old(Table()), old(chain), Table(), chain) && OthersKept(fs.geo, old(Data()), Data(), chain)
      ensures clst < 2 ==>
                && NoCluster(Table(), clst) && Table() == old(Table()) && chain == old(chain) == []
                && Data() == old(Data())
      ensures clst >= 2 ==> Covers(1) && clst == ClusterAt(fs.geo, chain, 0)
      ensures if old(chain) == [] then clst < 2 || chain == [clst] else chain == old(chain) && Table() == old(Table())
      ensures Aimed() && (clst < 2 ==> Next() == clst)
      ensures old(CountExact()) ==> CountExact()
      ensures Walked() && Tended()
    {
      hide Core, Base, Data, Table, Spare, ClusterAt, SectorAt, Content, ChainGrown, OthersKept, HasReserved, Covers;
      StartOfChain();
      ChainLegal();
      GrownReflexive(fs.geo, Table(), Data(), chain);
      if chain == [] { NoChain(1); }
      clst := sclust;
      if clst == 0 {
        clst := Follow(0, n);
        Appended(clst, [], 0);
      }
    }

    ghost predicate ChainIsLegal()
      reads `chain
    {
      forall i :: 0 <= i < |chain| ==> 2 <= chain[i]
    }

    lemma OwnedMeans()
      requires Core() && ChainIsLegal()
      ensures owned && dsect != 0 ==> !Clear(fs.geo, chain, dsect)
    {
      hide Volume.Valid, Volume.Fat, Volume.Reserved, Volume.Logical, Clear, ClusterSector, IsChain;
    }

    lemma CutLegal(ch: seq<nat>, k: nat)
      requires k <= |ch| && chain == ch[..k] && forall i :: 0 <= i < |ch| ==> 2 <= ch[i]
      ensures ChainIsLegal()
    {}

    lemma ChainLegal()
      requires Core()
      ensures forall i :: 0 <= i < |chain| ==> 2 <= chain[i]
    {
      hide Volume.Valid, Volume.Fat, Volume.Reserved, Volume.Logical, Clear, ClusterSector, IsChain;
    }

    lemma Appended(clst: nat, ch: seq<nat>, p: nat)
      requires 0 < fs.geo.csize && p == Capacity(fs.geo, ch)
      ensures chain == ch + [clst] ==> Covers(p + 1) && clst == ClusterAt(fs.geo, chain, p)
    {
      hide ClusterAt;
      AtAppended(fs.geo, ch, clst, p);
    }

    /**
     The cluster for byte `p`, when that starts a cluster behind another: the next of the chain,
     or a new one; below 2 when none can be had.
     */
    method NextForWrite(p: nat, ghost n: nat) returns (clst: nat)
      requires Core() && p > 0 && ClusterStart(fs.geo, p) && OnCluster(p - 1) && Covers(p) && Covers(n)
      modifies fs`disk, fs`wflag, fs`winsect, fs.win, fs`freeClust, fs`fsiDirty, fs`lastClust, `sclust, `chain
      ensures Core() && Covers(n) && Contents(n) == old(Contents(n))
      ensures ChainGrown(old(Table()), old(chain), Table(), chain) && OthersKept(fs.geo, old(Data()), Data(), chain)
      ensures clst < 2 ==>
                NoCluster(Table(), clst) && Table() == old(Table()) && chain == old(chain) && Data() == old(Data())
      ensures clst < 2 ==> p == Capacity(fs.geo, chain)
      ensures clst >= 2 ==> Covers(p + 1) && clst == ClusterAt(fs.geo, chain, p)
      ensures chain == old(chain) || p == Capacity(fs.geo, old(chain))
      ensures Aimed() && (clst < 2 ==> Next() == clst)
      ensures old(CountExact()) ==> CountExact()
      ensures Walked() && Tended()
    {
      hide Core, Base, Data, Table, Spare, ClusterAt, SectorAt, Content, ChainGrown, OthersKept, HasReserved, Covers,
        Capacity, ClusterStart;
      EnterCluster(p);
      StartOfChain();
      clst := Follow(clust, n);
      Appended(clst, old(chain), Capacity(fs.geo, old(chain)));
    }

    /** What f_write may have done to the rest of the volume. */
    twostate predicate OnlyGrown()
      reads `sclust, `chain, `dsect, `dirty, `owned, `shy, fs`disk, fs`wflag, fs`winsect, fs.win, buf
      requires old(Base()) && Base()
    {
      && ChainGrown(old(Table()), old(chain), Table(), chain)
      && OthersKept(fs.geo, old(Data()), Data(), chain)
    }

    /** Inside a cluster the file pointer is covered and the current cluster is its own. */
    lemma InsideCluster()
      requires Writing() && fptr % 512 == 0 && 0 < fs.geo.csize && !ClusterStart(fs.geo, fptr)
      ensures Covers(fptr + 1) && OnCluster(fptr)
    {
      hide Core, Base, Table, Spare, ClusterAt, SectorAt, Capacity;
      InsideIsCovered(fs.geo, chain, fptr);
      PtrFacts(fptr);
    }

    /**
     The first half of f_write at a sector boundary: find or make the cluster, flush, find the
     sector. `why` is 2, or the answer of create_chain when there is no cluster to be had.
     */
    method FollowForWrite() returns (why: nat, sect: nat)
      requires Writing() && fptr % 512 == 0
      modifies fs`disk, fs`wflag, fs`winsect, fs.win, fs`freeClust, fs`fsiDirty, fs`lastClust, `sclust, `chain, `clust,
        `dirty
      ensures Core() && Covers(Extent()) && Contents(Extent()) == old(Contents(Extent()))
      ensures OnlyGrown() && why <= 2
      ensures why < 2 ==> AtPtr() && NoCluster(Table(), why) && fptr == Capacity(fs.geo, chain)
      ensures why == 2 ==> !dirty && Covers(fptr + 1) && OnCluster(fptr) && HoldsByte(sect, fptr)
      ensures old(CountExact()) ==> CountExact()
      ensures Tended()
    {
      hide Core, Base, Data, Table, Spare, ClusterAt, SectorAt, Content, ChainGrown, OthersKept, HasReserved, Covers,
        Capacity, Clust2Sect, NoCluster, ClusterStart, SectorInCluster;
      StartOfChain();
      why := 2;
      var csect := SectorInCluster(fs.geo, fptr);
      InClusterIs(fs.geo, fptr);
      if csect == 0 {
        var clst := ClusterForWrite();
        if clst < 2 {
          return clst, 0;
        }
        clust := clst;
      } else {
        InsideCluster();
        ChainLegal();
        GrownReflexive(fs.geo, Table(), Data(), chain);
      }
      Flush();
      sect := Clust2Sect(fs.geo, clust) + csect;
      SectorFound(fptr);
    }

    /** The cluster for the byte at the file pointer, which starts one; below 2 when there is none to be had. */
    method ClusterForWrite() returns (clst: nat)
      requires Writing() && ClusterStart(fs.geo, fptr)
      modifies fs`disk, fs`wflag, fs`winsect, fs.win, fs`freeClust, fs`fsiDirty, fs`lastClust, `sclust, `chain
      ensures Core() && Covers(Extent()) && Contents(Extent()) == old(Contents(Extent())) && OnlyGrown() && Tended()
      ensures clst < 2 ==> AtPtr() && NoCluster(Table(), clst) && fptr == Capacity(fs.geo, chain)
      ensures clst >= 2 ==> Covers(fptr + 1) && clst == ClusterAt(fs.geo, chain, fptr)
      ensures old(CountExact()) ==> CountExact()
    {
      hide Core, Base, Data, Table, Spare, ClusterAt, SectorAt, Content, ChainGrown, OthersKept, HasReserved, Covers,
        Capacity, NoCluster, ClusterStart;
      if fptr == 0 {
        clst := FirstForWrite(Extent());
        if clst < 2 { NoChain(0); }
      } else {
        CoversLess(fptr, Extent());
        clst := NextForWrite(fptr, Extent());
      }
    }

    /** Write whole sectors straight to the medium, up to the end of the cluster, and keep the buffer in step. */
    method WriteDirect(sect: nat, wbuff: seq<Byte>) returns (cc: nat)
      requires Core() && !dirty && fptr % 512 == 0 && fptr <= lim && HoldsByte(sect, fptr) && Covers(fptr + 1)
      requires 512 <= |wbuff|
      modifies fs`disk, `dirty, `lim, buf
      ensures Core() && Table() == old(Table()) && |fs.disk| == old(|fs.disk|)
      ensures 0 < cc && cc * 512 <= |wbuff| && InOneCluster(fptr, cc) && lim == Max(fptr + cc * 512, old(lim))
      ensures sect + cc <= |fs.disk| && Data() == WriteRun(old(Data()), sect, cc, wbuff)
      ensures Tended()
    {
      hide Volume.Valid, Volume.Fat, Volume.Reserved, Volume.Logical, IsChain, Clear, SectorAt, WellSized,
        ValidGeometry, InOneCluster, Agrees, WriteRun;
      StartOfChain();
      cc := ClipAtCluster(|wbuff|);
      RunOnVolume(sect, fptr, cc);
      PutRun(sect, cc, wbuff);
      RunRaises(sect, cc);
      lim := Max(fptr + cc * 512, lim);
    }

    /** The transfer itself, and the refill of the buffer when it holds one of the sectors. */
    method PutRun(sect: nat, cc: nat, wbuff: seq<Byte>)
      requires Core() && !dirty && fs.geo.database <= sect && sect + cc <= |fs.disk| <= TWO32 && cc * 512 <= |wbuff|
      requires !(sect <= fs.winsect < sect + cc)
      modifies fs`disk, `dirty, buf
      ensures Core() && !dirty && Table() == old(Table()) && |fs.disk| == old(|fs.disk|)
      ensures Data() == WriteRun(old(Data()), sect, cc, wbuff)
      ensures sect <= dsect < sect + cc ==> buf[..] == Data()[dsect]
      ensures Tended()
    {
      hide Volume.Valid, Volume.Fat, Volume.Reserved, Volume.Logical, IsChain, Clear, WellSized, ValidGeometry, Sub32,
        WriteRun, Agrees;
      fs.DiskWrite(wbuff, sect, cc);
      InRun(dsect, sect, cc, wbuff);
      if Sub32(dsect, sect) < cc {
        FillBuf(wbuff[Sub32(dsect, sect) * 512..(Sub32(dsect, sect) + 1) * 512]);
        dirty := false;
        AgreesSame(fs.geo, chain, dsect, buf[..], lim);
      }
    }

    /** After a direct write the buffer is right about the bytes written, too. */
    lemma RunRaises(sect: nat, cc: nat)
      requires Core() && !dirty && HoldsByte(sect, fptr) && fptr % 512 == 0 && 0 < cc && InOneCluster(fptr, cc)
      requires Covers(fptr + 1) && fptr <= lim && (sect <= dsect < sect + cc ==> buf[..] == Data()[dsect])
      ensures var n := Max(fptr + cc * 512, lim);
              Covers(n) && (dsect != 0 ==> Agrees(fs.geo, chain, dsect, buf[..], fs.Logical()[dsect], n))
    {
      hide Volume.Valid, Volume.Fat, Volume.Reserved, Volume.Logical, IsChain, Clear, ValidGeometry, Agrees, Sec,
        SectorAt;
      DirectPlace(sect, cc);
      var n := Max(fptr + cc * 512, lim);
      if sect <= dsect < sect + cc {
        AgreesSame(fs.geo, chain, dsect, buf[..], n);
      } else if dsect != 0 {
        AgreesBeside(fs.geo, Table(), chain, dsect, buf[..], fs.Logical()[dsect], lim, fptr / 512, cc,
                     fptr + cc * 512);
      }
    }

    lemma DirectSpliced(img: Image, sect: nat, cc: nat, w: seq<Byte>, n: nat, n': nat)
      requires Core() && HoldsByte(sect, fptr) && fptr % 512 == 0 && 0 < cc && cc * 512 <= |w|
      requires InOneCluster(fptr, cc) && Covers(fptr + 1) && Covers(n)
      requires |img| == |fs.disk| && WellSized(fs.geo, img)
      requires sect + cc <= |fs.disk| && Data() == WriteRun(img, sect, cc, w)
      requires fptr <= n && n' == if fptr + cc * 512 > n then fptr + cc * 512 else n
      ensures Covers(n') && OthersKept(fs.geo, img, Data(), chain)
      ensures OnVolume(fs.geo, |img|, chain)
      ensures Contents(n') == Splice(Content(fs.geo, img, chain, n), fptr, w[..cc * 512])
    {
      hide Core, Base, IsChain, Sec, SectorAt, Data, Clear, OthersKept, Content, ValidGeometry, WriteRun,
        InOneCluster;
      DirectPlace(sect, cc);
      RunOnVolume(sect, fptr, cc);
      RunOthersKept(fs.geo, img, chain, sect, cc, w);
      RunSpliced(fs.geo, Table(), img, chain, fptr / 512, cc, w, n, n');
    }

    /** The sectors of a direct transfer at the file pointer, counted from the start of the file. */
    lemma DirectPlace(sect: nat, cc: nat)
      requires Core() && HoldsByte(sect, fptr) && fptr % 512 == 0 && 0 < cc && InOneCluster(fptr, cc) &&
                Covers(fptr + 1)
      ensures OnVolume(fs.geo, |fs.disk|, chain) && IsChain(Table(), chain) && WellSized(fs.geo, Data())
      ensures var j := fptr / 512;
              && j * 512 == fptr && j < |chain| * fs.geo.csize && j % fs.geo.csize + cc <= fs.geo.csize
              && sect == Sec(fs.geo, chain, j) && Covers((j + cc) * 512)
    {
      hide Volume.Valid, Volume.Fat, Volume.Reserved, Volume.Logical, IsChain, Sec, SectorAt, Clear, ValidGeometry;
      AtCovered(fs.geo, |fs.disk|, chain, fptr);
      SecRun(fs.geo, chain, fptr / 512, cc - 1);
    }

    /** The buffer agrees with the medium on the bytes of its sector that are before `n`. */
    ghost predicate Staged(p: nat, n: nat)
      reads `sclust, `chain, `dsect, `dirty, `owned, `shy, fs`disk, fs`wflag, fs`winsect, fs.win, buf
      requires Base()
    {
      0 < dsect < |fs.disk| && forall i :: 0 <= i < 512 && p / 512 * 512 + i < n ==> buf[i] == Data()[dsect][i]
    }

    /** Turn the buffer to sector `sect`; at the growing end of the file its old bytes are not even read. */
    method StageSector(sect: nat)
      requires Core() && !dirty && fptr % 512 == 0 && lim == Extent() && Covers(fptr + 1) && HoldsByte(sect, fptr)
      modifies `dsect, buf
      ensures Base() && !dirty && Data() == old(Data()) && Table() == old(Table())
      ensures dsect == sect && Staged(fptr, Extent())
      ensures Tended()
    {
      hide Volume.Valid, Volume.Fat, Volume.Reserved, Volume.Logical, IsChain, Clear, SectorAt, ValidGeometry,
        WellSized, Agrees;
      StartOfChain();
      OneSector(fptr);
      RunOnVolume(sect, fptr, 1);
      if dsect != sect {
        if fptr < fsize {
          var sec := fs.DiskRead(sect, 1);
          FillBuf(sec);
          ReadOne(fs.geo, fs.Logical(), sect);
        }
      } else {
        BufferIsData(fptr);
      }
      dsect := sect;
    }

    /** Copy into the buffer. */
    method CopyIn(o: nat, w: seq<Byte>)
      requires o + |w| <= buf.Length
      modifies buf
      ensures buf[..] == old(buf[..])[..o] + w + old(buf[..])[o + |w|..]
    {
      var i := 0;
      while i < |w|
        invariant i <= |w| && buf[..] == old(buf[..])[..o] + w[..i] + old(buf[..])[o + i..]
      {
        CopyStep(buf[..], old(buf[..]), o, w, i);
        buf[o + i] := w[i];
        i := i + 1;
      }
    }

    lemma CopyStep(b: seq<Byte>, b0: seq<Byte>, o: nat, w: seq<Byte>, i: nat)
      requires o + |w| <= |b0| && i < |w| && b == b0[..o] + w[..i] + b0[o + i..]
      ensures |b| == |b0| && b[o + i := w[i]] == b0[..o] + w[..i + 1] + b0[o + i + 1..]
    {}

    lemma CoversSector(p: nat, m: nat)
      requires Covers(p + 1) && p % 512 + m <= 512
      ensures Covers(p + m)
    {}

    /** What a new buffer for the sector of byte `p` makes of the file. */
    lemma PartWritten(img: Image, p: nat, w: seq<Byte>, n: nat, n': nat)
      requires Base() && HoldsByte(dsect, p) && Covers(p + 1) && Covers(n) && 0 < |w| && p % 512 + |w| <= 512
      requires |img| == |fs.disk| && WellSized(fs.geo, img) && dsect < |img| && Data() == img[dsect := buf[..]]
      requires buf[p % 512..p % 512 + |w|] == w
      requires forall i :: 0 <= i < 512 && !(p % 512 <= i < p % 512 + |w|) && p / 512 * 512 + i < n ==>
                buf[i] == img[dsect][i]
      requires p <= n && n' == if p + |w| > n then p + |w| else n
      ensures Covers(n') && OnVolume(fs.geo, |img|, chain)
      ensures Contents(n') == Splice(Content(fs.geo, img, chain, n), p, w)
      ensures OthersKept(fs.geo, img, Data(), chain)
    {
      hide Volume.Valid, Volume.Fat, Volume.Reserved, Volume.Logical, Sec, SectorAt, Data, Clear, Content,
        ValidGeometry;
      CoversSector(p, |w|);
      PartCovered(p);
      PartSpliced(fs.geo, fs.Fat(), img, chain, p, w, buf[..], n, n');
    }

    lemma PartCovered(p: nat)
      requires Base() && HoldsByte(dsect, p) && Covers(p + 1)
      ensures sclust != 0 && p / 512 < |chain| * fs.geo.csize && dsect == Sec(fs.geo, chain, p / 512)
      ensures !Clear(fs.geo, chain, dsect)
    {
      hide Volume.Valid, Volume.Fat, Volume.Reserved, Volume.Logical, Sec, SectorAt, Clear, IsChain;
      AtCovered(fs.geo, |fs.disk|, chain, p);
      SecNotClear(fs.geo, chain, p / 512);
    }

    /** mem_cpy into the buffer, which becomes dirty. */
    method Fit(w: seq<Byte>, ghost n: nat)
      requires Base() && Covers(n) && Covers(fptr + 1) && HoldsByte(dsect, fptr) && fptr <= n
      requires Staged(fptr, n) && 0 < |w| && fptr % 512 + |w| <= 512
      modifies buf, `dirty, `lim
      ensures Core() && lim == Max(fptr + |w|, n) && Table() == old(Table()) && Covers(Max(fptr + |w|, n))
      ensures Contents(Max(fptr + |w|, n)) == Splice(old(Contents(n)), fptr, w)
      ensures OthersKept(fs.geo, old(Data()), Data(), chain)
      ensures Tended()
    {
      hide Volume.Valid, Volume.Fat, Volume.Reserved, Volume.Logical, SectorAt, Clear, Content, ValidGeometry,
        OthersKept, IsChain, Covers, Agrees, Capacity;
      ghost var img := Data();
      PartCovered(fptr);
      CopyIn(fptr % 512, w);
      dirty := true;
      PartWritten(img, fptr, w, n, Max(fptr + |w|, n));
      lim := Max(fptr + |w|, n);
      CoversAtMost(lim);
    }

    /** The second half of f_write: fit the next bytes into the buffered sector and move the file pointer. */
    method PutPart(wbuff: seq<Byte>) returns (wcnt: nat)
      requires Base() && Covers(Extent()) && Covers(fptr + 1) && OnCluster(fptr) && HoldsByte(dsect, fptr)
      requires Staged(fptr, Extent()) && 0 < |wbuff| && 0 < fs.geo.csize
      modifies buf, `dirty, `fptr, `lim
      ensures Core() && lim == Extent() && Covers(Extent()) && AtPtr() && Table() == old(Table())
      ensures 0 < wcnt <= |wbuff| && fptr == old(fptr) + wcnt
      ensures Contents(Extent()) == Splice(old(Contents(Extent())), old(fptr), wbuff[..wcnt])
      ensures OthersKept(fs.geo, old(Data()), Data(), chain)
      ensures Tended()
    {
      hide Core, Base, Data, Table, Spare, Staged, SectorAt, ClusterAt, Content, OthersKept, Covers;
      wcnt := 512 - fptr % 512;
      if wcnt > |wbuff| {
        wcnt := |wbuff|;
      }
      Fit(wbuff[..wcnt], Extent());
      StaysOnCluster(wcnt);
      SameHolder(dsect, fptr, wcnt);
      fptr := fptr + wcnt;
    }

    /** The state of f_write when the buffer is ready for the next bytes. */
    ghost predicate ReadyForPart()
      reads this, fs, fs.win, buf
    {
      && Base() && Covers(Extent()) && Covers(fptr + 1) && OnCluster(fptr) && HoldsByte(dsect, fptr)
      && Staged(fptr, Extent()) && 0 < fs.geo.csize
    }

    /**
     The rest of a turn of f_write at a sector boundary, once the sector is known: whole sectors are
     transferred directly, and part of a sector goes into the buffer.
     */
    method WriteHere(sect: nat, wbuff: seq<Byte>) returns (n: nat)
      requires Core() && !dirty && fptr % 512 == 0 && lim == Extent() < TWO32 && Covers(Extent()) && Covers(fptr + 1)
      requires OnCluster(fptr) && HoldsByte(sect, fptr) && 0 < |wbuff| && fptr + |wbuff| < TWO32
      modifies fs`disk, `dirty, `dsect, `fptr, `lim, buf
      ensures Writing() && Table() == old(Table()) && ChainIsLegal() && OthersKept(fs.geo, old(Data()), Data(), chain)
      ensures fptr == old(fptr) + n && 0 < n <= |wbuff|
      ensures Contents(Extent()) == Splice(old(Contents(Extent())), old(fptr), wbuff[..n])
      ensures Tended()
    {
      hide Core, Base, Data, Table, Spare, Staged, SectorAt, ClusterAt, Content, OthersKept, Covers, InOneCluster,
        Splice;
      StartOfChain();
      ChainLegal();
      if |wbuff| / 512 != 0 {
        n := PutSectors(sect, wbuff);
      } else {
        StageSector(sect);
        n := PutPart(wbuff);
      }
    }

    /** Whole sectors go to the medium, and the file pointer behind them. */
    method PutSectors(sect: nat, wbuff: seq<Byte>) returns (n: nat)
      requires Core() && !dirty && fptr % 512 == 0 && lim == Extent() && Covers(fptr + 1) && Covers(Extent())
      requires OnCluster(fptr) && HoldsByte(sect, fptr) && 512 <= |wbuff|
      modifies fs`disk, `dirty, `fptr, `lim, buf
      ensures Core() && lim == Extent() && Covers(Extent()) && AtPtr() && Table() == old(Table())
      ensures ChainIsLegal() && OthersKept(fs.geo, old(Data()), Data(), chain)
      ensures fptr == old(fptr) + n && 0 < n <= |wbuff|
      ensures Contents(Extent()) == Splice(old(Contents(Extent())), old(fptr), wbuff[..n])
      ensures Tended()
    {
      hide Core, Base, Data, Table, Spare, SectorAt, ClusterAt, Content, OthersKept, Covers, InOneCluster, Splice;
      ChainLegal();
      ghost var img := Data();
      ghost var e := Extent();
      ImageSize();
      var cc := WriteDirect(sect, wbuff);
      n := cc * 512;
      DirectSpliced(img, sect, cc, wbuff, e, Max(fptr + n, e));
      StaysOnRun(cc);
      fptr := fptr + n;
    }

    lemma ImageSize()
      requires Core()
      ensures |Data()| == |fs.disk| && WellSized(fs.geo, Data())
    {
      hide Volume.Valid, Volume.Fat, Volume.Reserved, Volume.Logical, IsChain, Clear, Agrees;
    }

    /** Inside a sector the buffer is ready. */
    lemma InsideReady()
      requires Writing() && fptr % 512 != 0
      ensures ReadyForPart()
    {
      hide Core, Base, Data, Table, Spare, SectorAt, ClusterAt, HasReserved;
      assert Covers(fptr + 1);
      InsideSector(fptr + 1);
      BufferIsData(fptr);
    }

    /** One turn of the loop of f_write. */
    method WriteChunk(wbuff: seq<Byte>) returns (why: nat, n: nat)
      requires Writing() && 0 < |wbuff| && fptr + |wbuff| < TWO32
      modifies fs`disk, fs`wflag, fs`winsect, fs.win, fs`freeClust, fs`fsiDirty, fs`lastClust
      modifies `sclust, `chain, `clust, `dirty, `dsect, `fptr, `lim, buf
      ensures Writing() && OnlyGrown() && fptr == old(fptr) + n && n <= |wbuff|
      ensures why <= 2 && (why == 2 ==> n > 0)
      ensures why < 2 ==> n == 0 && NoCluster(Table(), why) && fptr == Capacity(fs.geo, chain)
      ensures Contents(Extent()) == Splice(old(Contents(Extent())), old(fptr), wbuff[..n])
      ensures old(CountExact()) ==> CountExact()
      ensures Tended()
    {
      hide Core, Base, Data, Table, Spare, Staged, SectorAt, ClusterAt, Content, OthersKept, ChainGrown, HasReserved,
        Covers, NoCluster, Capacity;
      why := 2;
      if fptr % 512 != 0 {
        n := WriteInside(wbuff);
        return;
      }
      var sect;
      why, sect := FollowForWrite();
      if why < 2 {
        n := 0;
        return;
      }
      ghost var img := Data();
      ChainLegal();
      n := WriteHere(sect, wbuff);
      OthersKeptTwice(fs.geo, old(Data()), img, Data(), chain, chain);
    }

    /** A turn that starts inside a sector. */
    method WriteInside(wbuff: seq<Byte>) returns (n: nat)
      requires Writing() && fptr % 512 != 0 && 0 < |wbuff| && fptr + |wbuff| < TWO32
      modifies buf, `dirty, `fptr, `lim
      ensures Writing() && OnlyGrown() && Table() == old(Table()) && fptr == old(fptr) + n && 0 < n <= |wbuff|
      ensures Contents(Extent()) == Splice(old(Contents(Extent())), old(fptr), wbuff[..n])
      ensures Tended()
    {
      hide Core, Base, Data, Table, Spare, Staged, SectorAt, ClusterAt, Content, OthersKept, ChainGrown, Covers;
      InsideReady();
      BaseLegal();
      GrownReflexive(fs.geo, Table(), Data(), chain);
      n := PutPart(wbuff);
    }

    lemma BaseLegal()
      requires Base()
      ensures forall i :: 0 <= i < |chain| ==> 2 <= chain[i]
    {
      hide Volume.Valid, Volume.Fat, Volume.Reserved, Volume.Logical, Clear, ClusterSector, IsChain;
    }

    lemma DistinctChain()
      requires Base()
      ensures Distinct(chain)
    {
      hide Volume.Valid, Volume.Fat, Volume.Reserved, Volume.Logical, Clear, ClusterSector;
      if sclust != 0 {
        ChainIsDistinct(fs.Fat(), chain);
      }
    }

    /** Two steps that only grow the chain and touch its sectors do so together. */
    lemma OnlyGrownTwice(fat0: seq<nat>, ch0: seq<nat>, img0: Image, fat1: seq<nat>, ch1: seq<nat>, img1: Image)
      requires Base() && forall i :: 0 <= i < |ch1| ==> 2 <= ch1[i]
      requires ChainGrown(fat0, ch0, fat1, ch1) && OthersKept(fs.geo, img0, img1, ch1)
      requires ChainGrown(fat1, ch1, Table(), chain) && (forall i :: 0 <= i < |chain| ==> 2 <= chain[i])
      requires OthersKept(fs.geo, img1, Data(), chain)
      ensures ChainGrown(fat0, ch0, Table(), chain) && OthersKept(fs.geo, img0, Data(), chain)
    {
      hide Base, Data, Table, Spare, OthersKept, Distinct;
      DistinctChain();
      ChainGrownTwice(fat0, ch0, fat1, ch1, Table(), chain);
      OthersKeptTwice(fs.geo, img0, img1, Data(), ch1, chain);
    }

    lemma GrownTwice(fat0: seq<nat>, ch0: seq<nat>, fat1: seq<nat>, ch1: seq<nat>)
      requires Base() && ChainGrown(fat0, ch0, fat1, ch1) && ChainGrown(fat1, ch1, Table(), chain)
      ensures ChainGrown(fat0, ch0, Table(), chain)
    {
      hide Base, Table, Spare, Distinct;
      DistinctChain();
      ChainGrownTwice(fat0, ch0, fat1, ch1, Table(), chain);
    }

    /** The loop of f_write. */
    method WriteLoop(wbuff: seq<Byte>) returns (why: nat, bw: nat)
      requires Writing() && fptr + |wbuff| < TWO32
      modifies fs`disk, fs`wflag, fs`winsect, fs.win, fs`freeClust, fs`fsiDirty, fs`lastClust
      modifies `sclust, `chain, `clust, `dirty, `dsect, `fptr, `lim, buf
      ensures Writing() && OnlyGrown() && bw <= |wbuff| && fptr == old(fptr) + bw
      ensures Contents(Extent()) == Splice(old(Contents(Extent())), old(fptr), wbuff[..bw])
      ensures why <= 2 && (why == 2 ==> bw == |wbuff|)
      ensures why < 2 ==> bw < |wbuff| && NoCluster(Table(), why) && fptr == Capacity(fs.geo, chain)
      ensures old(CountExact()) ==> CountExact()
      ensures Tended()
    {
      hide Core, Base, Data, Table, Spare, Content, OthersKept, ChainGrown, HasReserved, Covers, AtPtr, NoCluster,
        Capacity, Splice;
      ChainLegal();
      GrownReflexive(fs.geo, Table(), Data(), chain);
      SpliceNothing(Contents(Extent()), fptr);
      assert wbuff[..0] == [];
      ghost var c0 := Contents(Extent());
      why, bw := 2, 0;
      while bw < |wbuff|
        invariant Writing() && OnlyGrown() && Tended()
        invariant old(CountExact()) ==> CountExact()
        invariant why == 2 && bw <= |wbuff| && fptr == old(fptr) + bw
        invariant Contents(Extent()) == Splice(c0, old(fptr), wbuff[..bw])
      {
        ghost var fat, ch, img := Table(), chain, Data();
        ChainLegal();
        var n;
        why, n := WriteChunk(wbuff[bw..]);
        ChainLegal();
        OnlyGrownTwice(old(Table()), old(chain), old(Data()), fat, ch, img);
        SpliceStep(c0, old(fptr), wbuff, bw, n);
        bw := bw + n;
        if why < 2 {
          return;
        }
      }
    }

    /** A buffer that is right about some bytes is right about fewer. */
    method LowerLimit(ghost n: nat)
      requires Core() && n <= lim
      modifies `lim
      ensures Core() && lim == n && Data() == old(Data()) && Table() == old(Table())
    {
      hide Volume.Valid, Volume.Fat, Volume.Reserved, Volume.Logical, IsChain, Clear, ValidGeometry, Agrees, Capacity;
      if dsect != 0 && !dirty {
        AgreesLess(fs.geo, chain, dsect, buf[..], fs.Logical()[dsect], lim, n);
      }
      lim := n;
    }

    /** The end of f_write: the size is that of the bytes written. */
    method UpdateSize()
      requires Writing()
      modifies `fsize, `written
      ensures Steady() && fsize == old(Extent()) && written
    {
      hide Core, Base, Covers, AtPtr;
      if fptr > fsize {
        fsize := fptr;
      }
      written := true;
    }

    /**
     f_write: the file with the bytes put at the file pointer. Fewer are written only when the
     volume is full; none when the file would reach 4 GB. A reserved entry met in the search for a
     free cluster ends the use of the file: what has been written by then is in its bytes, but its
     size is not updated.
     */
    method Write(wbuff: seq<Byte>) returns (res: FResult, bw: nat)
      requires Valid() && |wbuff| < TWO32
      modifies fs`disk, fs`wflag, fs`winsect, fs.win, fs`freeClust, fs`fsiDirty, fs`lastClust
      modifies `sclust, `chain, `clust, `dirty, `dsect, `fptr, `lim, `fsize, `written, `err, buf
      ensures Valid() && OnlyGrown() && fptr == old(fptr) + bw && bw <= |wbuff|
      ensures old(err) != Ok ==>
                res == err == old(err) && bw == 0 && fsize == old(fsize) && Contents(fsize) == old(Contents(fsize))
      ensures old(err) == Ok && !canWrite ==>
                res == Denied && err == Ok && bw == 0 && fsize == old(fsize) && Contents(fsize) == old(Contents(fsize))
      ensures old(err) == Ok && canWrite ==> (res == Ok || (res == IntErr && HasReserved(Table()))) && err == res
      ensures old(err) == Ok && canWrite ==>
                && Covers(Max(fptr, old(fsize)))
                && Contents(Max(fptr, old(fsize))) == Splice(old(Contents(fsize)), old(fptr), wbuff[..bw])
                && fsize == if res == Ok then Max(fptr, old(fsize)) else old(fsize)
      ensures old(err) == Ok && canWrite && res == Ok ==> written
      ensures old(fptr) + |wbuff| >= TWO32 ==> bw == 0
      ensures old(err) == Ok && canWrite && res == Ok && bw < |wbuff| && old(fptr) + |wbuff| < TWO32 ==>
                FreeSet(Table()) == {} && fptr == Capacity(fs.geo, chain)
      ensures old(CountExact()) ==> CountExact()
      ensures Tended() && Traced()
    {
      hide Core, Base, Data, Table, Spare, Content, OthersKept, ChainGrown, HasReserved, Covers, AtPtr, Capacity;
      bw := 0;
      if err != Ok || !canWrite {
        ChainLegal();
        GrownReflexive(fs.geo, Table(), Data(), chain);
        return if err != Ok then err else Denied, 0;
      }
      res, bw := PutBytes(wbuff);
    }

    /** f_write to a file that can be written to. */
    method PutBytes(wbuff: seq<Byte>) returns (res: FResult, bw: nat)
      requires Steady() && err == Ok && |wbuff| < TWO32
      modifies fs`disk, fs`wflag, fs`winsect, fs.win, fs`freeClust, fs`fsiDirty, fs`lastClust
      modifies `sclust, `chain, `clust, `dirty, `dsect, `fptr, `lim, `fsize, `written, `err, buf
      ensures Valid() && OnlyGrown() && fptr == old(fptr) + bw && bw <= |wbuff|
      ensures (res == Ok || (res == IntErr && HasReserved(Table()))) && err == res
      ensures Covers(Max(fptr, old(fsize)))
      ensures Contents(Max(fptr, old(fsize))) == Splice(old(Contents(fsize)), old(fptr), wbuff[..bw])
      ensures fsize == if res == Ok then Max(fptr, old(fsize)) else old(fsize)
      ensures old(fptr) + |wbuff| >= TWO32 ==> bw == 0
      ensures res == Ok && bw < |wbuff| && old(fptr) + |wbuff| < TWO32 ==>
                FreeSet(Table()) == {} && fptr == Capacity(fs.geo, chain)
      ensures old(CountExact()) ==> CountExact()
      ensures Tended() && if res == Ok then written else written == old(written)
    {
      hide Core, Base, Data, Table, Spare, Content, OthersKept, ChainGrown, HasReserved, Covers, AtPtr, Capacity,
        Tended, Splice;
      var data := wbuff;
      if Add32(fptr, |wbuff|) < fptr {
        data := [];
      }
      var why;
      why, bw := WriteLoop(data);
      CoversLess(fsize, Extent());
      if why == 1 {
        err := IntErr;
        LowerLimit(fsize);
        return IntErr, bw;
      }
      UpdateSize();
      res := Ok;
    }

    /** While f_lseek walks the chain: the file pointer is at the start of the current cluster. */
    ghost predicate Seeking(n: nat)
      reads this, fs, fs.win, buf
    {
      && Core() && Covers(n)
      && ClusterStart(fs.geo, fptr) && Covers(fptr + 1) && OnCluster(fptr)
    }

    /**
     One turn of the cluster following loop: the next cluster, stretched in write mode; below 2
     when none can be had.
     */
    method SeekStep(ghost n: nat) returns (clst: nat)
      requires Seeking(n) && (!canWrite ==> Covers(fptr + fs.geo.csize * 512 + 1))
      modifies fs`disk, fs`wflag, fs`winsect, fs.win, fs`freeClust, fs`fsiDirty, fs`lastClust, `sclust, `chain
      ensures Core() && Covers(n) && Contents(n) == old(Contents(n)) && OnlyGrown()
      ensures clst < 2 ==> Seeking(n) && canWrite && NoCluster(Table(), clst)
      ensures !canWrite ==> chain == old(chain)
      ensures clst < 2 ==> fptr + fs.geo.csize * 512 == Capacity(fs.geo, chain)
      ensures clst >= 2 ==>
                Covers(fptr + fs.geo.csize * 512 + 1) && clst == ClusterAt(fs.geo, chain, fptr + fs.geo.csize * 512)
      ensures chain == old(chain) || fptr + fs.geo.csize * 512 == Capacity(fs.geo, old(chain))
      ensures Aimed() && (clst < 2 ==> Next() == clst)
      ensures old(CountExact()) ==> CountExact()
      ensures Walked() && Tended()
    {
      hide Core, Base, Data, Table, Spare, ClusterAt, SectorAt, Content, ChainGrown, OthersKept, HasReserved,
        Capacity, NoCluster;
      var p := fptr + fs.geo.csize * 512;
      ClusterFits(fs.geo, chain, fptr);
      NextStart(fs.geo, fptr);
      WithinCluster(fs.geo, chain, fptr, fs.geo.csize * 512);
      if canWrite {
        clst := NextForWrite(p, n);
      } else {
        clst := ReadLink(p);
      }
    }

    /** get_fat on the current cluster, which byte `p` follows. */
    method ReadLink(p: nat) returns (clst: nat)
      requires Core() && p > 0 && ClusterStart(fs.geo, p) && OnCluster(p - 1) && Covers(p + 1)
      modifies fs`disk, fs`wflag, fs`winsect, fs.win
      ensures Core() && Data() == old(Data()) && Table() == old(Table())
      ensures 2 <= clst == ClusterAt(fs.geo, chain, p)
      ensures OnlyGrown() && Aimed()
      ensures Walked() && Tended()
    {
      hide Volume.Valid, Volume.Fat, Volume.Reserved, Volume.Logical, Clear, IsChain, ValidGeometry, ClusterAt,
        SectorAt, OthersKept, ChainGrown, WellSized;
      PtrFacts(p);
      ChainLegal();
      GrownReflexive(fs.geo, Table(), Data(), chain);
      clst := fs.GetFat(clust);
      WindowMoved();
    }

    /**
     The cluster following loop of f_lseek: on to the cluster that holds byte `ofs - 1` from here.
     `why` is 2, or the answer of create_chain when the chain could not be stretched so far.
     */
    method SeekLoop(ofs: nat, ghost n: nat) returns (rest: nat, why: nat)
      requires Seeking(n) && 0 < ofs && (!canWrite ==> Covers(fptr + ofs))
      modifies fs`disk, fs`wflag, fs`winsect, fs.win, fs`freeClust, fs`fsiDirty, fs`lastClust, `sclust, `chain, `clust,
        `fptr
      ensures Seeking(n) && Contents(n) == old(Contents(n)) && 0 < rest <= fs.geo.csize * 512 && why <= 2
      ensures why == 2 ==> fptr + rest == old(fptr) + ofs
      ensures why < 2 ==> canWrite && NoCluster(Table(), why) && rest == fs.geo.csize * 512
      ensures why < 2 ==> fptr + rest < old(fptr) + ofs && fptr + rest == Capacity(fs.geo, chain)
      ensures Stretches(old(fptr) + ofs) && (why < 2 ==> Next() == why)
      ensures old(CountExact()) ==> CountExact()
      ensures Walked() && Tended()
    {
      hide Core, Base, Data, Table, Spare, ClusterAt, SectorAt, Content, ChainGrown, OthersKept, HasReserved,
        Capacity, Covers, ClusterStart, NoCluster, Target, SameOutsideFat, ClustersFor, Next;
      ChainLegal();
      GrownReflexive(fs.geo, Table(), Data(), chain);
      rest, why := ofs, 2;
      var bcs := fs.geo.csize * 512;
      StartOfChain();
      SameItself(fs.geo, Data());
      while rest > bcs
        invariant Seeking(n) && Contents(n) == old(Contents(n)) && why == 2
        invariant Stretches(old(fptr) + ofs) && Walked() && Tended()
        invariant old(CountExact()) ==> CountExact()
        invariant 0 < rest && fptr + rest == old(fptr) + ofs && (!canWrite ==> Covers(fptr + rest))
      {
        ghost var fat, ch, img := Table(), chain, Data();
        if !canWrite { CoversLess(fptr + bcs + 1, fptr + rest); }
        var clst := SeekTurn(n, old(fptr) + ofs);
        GrownTwice(old(Table()), old(chain), fat, ch);
        SameTwice(fs.geo, old(Data()), img, Data());
        if clst < 2 {
          rest, why := bcs, clst;
          return;
        }
        rest := rest - bcs;
      }
    }

    /** One turn of that loop on the way to byte `p - 1`. */
    method SeekTurn(ghost n: nat, ghost p: nat) returns (clst: nat)
      requires Seeking(n) && (!canWrite ==> Covers(fptr + fs.geo.csize * 512 + 1)) && fptr + fs.geo.csize * 512 < p
      modifies fs`disk, fs`wflag, fs`winsect, fs.win, fs`freeClust, fs`fsiDirty, fs`lastClust, `sclust, `chain, `clust,
        `fptr
      ensures Seeking(n) && Contents(n) == old(Contents(n)) && Stretches(p) && (!canWrite ==> chain == old(chain))
      ensures clst < 2 ==>
                && canWrite && NoCluster(Table(), clst) && fptr == old(fptr) && Next() == clst
                && fptr + fs.geo.csize * 512 == Capacity(fs.geo, chain)
      ensures clst >= 2 ==> fptr == old(fptr) + fs.geo.csize * 512
      ensures old(CountExact()) ==> CountExact()
      ensures Walked() && Tended()
    {
      hide Core, Base, Data, Table, Spare, ClusterAt, SectorAt, Content, ChainGrown, OthersKept, HasReserved,
        Capacity, Covers, ClusterStart, NoCluster, Target, SameOutsideFat, ClustersFor, Next;
      NextStart(fs.geo, fptr);
      StartOfChain();
      ClustersForMost(fs.geo, chain, p);
      clst := SeekStep(n);
      if clst >= 2 {
        clust := clst;
        fptr := fptr + fs.geo.csize * 512;
      }
    }

    /** The chain is on the way to holding byte `p - 1`, and no sector outside the FAT copies is written. */
    twostate predicate Stretches(p: nat)
      reads `sclust, `chain, `dsect, `dirty, `owned, `shy, fs`disk, fs`wflag, fs`winsect, fs`lastClust, fs.win, buf
      requires old(Base()) && Base() && 0 < fs.geo.csize
    {
      && Target(ClustersFor(fs.geo, p)) == old(Target(ClustersFor(fs.geo, p)))
      && SameOutsideFat(fs.geo, Data(), old(Data())) && ChainGrown(old(Table()), old(chain), Table(), chain)
    }

    /** The start of f_lseek: from the current cluster when the target is in it or behind it, else from the first. */
    method SeekStart(ofs: nat, ghost n: nat) returns (rest: nat, why: nat)
      requires Usable() && 0 < ofs && n == fsize
      modifies fs`disk, fs`wflag, fs`winsect, fs.win, fs`freeClust, fs`fsiDirty, fs`lastClust, `sclust, `chain, `clust,
        `fptr
      ensures Core() && Covers(n) && Contents(n) == old(Contents(n)) && 0 < fs.geo.csize
      ensures rest == 0 ==> fptr == 0 && chain == [] && why < 2 && NoCluster(Table(), why) && Next() == why
      ensures rest != 0 ==> Seeking(n) && fptr + rest == ofs
      ensures Stretches(ofs)
      ensures old(CountExact()) ==> CountExact()
      ensures Walked() && Tended()
    {
      hide Core, Base, Data, Table, Spare, ClusterAt, SectorAt, Content, ChainGrown, OthersKept, HasReserved,
        Capacity, Covers, ClusterStart, RoundDown, SameOrLater, NoCluster, Target, SameOutsideFat, ClustersFor, Next;
      ChainLegal();
      GrownReflexive(fs.geo, Table(), Data(), chain);
      StartOfChain();
      CoversLess(fptr, fsize);
      SameItself(fs.geo, Data());
      why := 2;
      var ifptr := fptr;
      fptr := 0;
      var bcs := fs.geo.csize * 512;
      if ifptr > 0 && SameOrLater(ifptr - 1, ofs - 1, bcs) {
        Shortcut(ifptr, ofs, bcs);
        fptr := RoundDown(ifptr - 1, bcs);
        rest := ofs - fptr;
      } else {
        rest, why := SeekFirst(ofs, n);
      }
    }

    /** f_lseek from the first cluster of the file. */
    method SeekFirst(ofs: nat, ghost n: nat) returns (rest: nat, why: nat)
      requires Core() && Covers(n) && 0 < ofs && fptr == 0
      modifies fs`disk, fs`wflag, fs`winsect, fs.win, fs`freeClust, fs`fsiDirty, fs`lastClust, `sclust, `chain, `clust
      ensures Core() && Covers(n) && Contents(n) == old(Contents(n)) && 0 < fs.geo.csize
      ensures rest == 0 ==> chain == [] && why < 2 && NoCluster(Table(), why) && Next() == why
      ensures rest != 0 ==> Seeking(n) && rest == ofs
      ensures Stretches(ofs)
      ensures old(CountExact()) ==> CountExact()
      ensures Walked() && Tended()
    {
      hide Core, Base, Data, Table, Spare, ClusterAt, SectorAt, Content, ChainGrown, OthersKept, HasReserved,
        Capacity, Covers, ClusterStart, NoCluster, Target, SameOutsideFat, ClustersFor, Next;
      StartOfChain();
      SomeClusters(fs.geo, ofs);
      var clst := FirstForWrite(n);
      if clst == 1 {
        return 0, 1;
      }
      clust := clst;
      rest, why := if clst != 0 then ofs else 0, clst;
      ZeroStart(fs.geo);
    }

    /** The start of the current cluster, when the target is in it or behind it. */
    lemma Shortcut(ifptr: nat, ofs: nat, bcs: nat)
      requires Covers(ifptr) && 0 < ifptr && OnCluster(ifptr - 1) && 0 < ofs
      requires 0 < fs.geo.csize && bcs == fs.geo.csize * 512 && SameOrLater(ifptr - 1, ofs - 1, bcs)
      ensures var b := RoundDown(ifptr - 1, bcs);
              0 <= b < ofs && ClusterStart(fs.geo, b) && Covers(b + 1) && OnCluster(b)
    {
      hide ClusterStart, ClusterAt, RoundDown, SameOrLater;
      RoundDownStart(fs.geo, chain, ifptr - 1, ofs - 1, bcs);
    }

    /**
     f_lseek to `target` would leave the buffer on a sector of which the file takes in bytes that the buffer
     does not show: the target is behind the end of a file that can be written to, and its chain, stretched
     as create_chain will do it, takes in the sector of the clean buffer.
     */
    ghost predicate Exposes(target: nat)
      reads this, fs, fs.win, buf
      requires Base() && ChainIsLegal() && 0 < fs.geo.csize
    {
      && err == Ok && canWrite && fsize < target && dsect != 0 && !dirty
      && var grown := Target(ClustersFor(fs.geo, target));
      && var n := Least(target, Capacity(fs.geo, grown.ch));
      && grown.why != 1 && (n % 512 == 0 || SectorAt(fs.geo, grown.ch, n) == dsect)
      && !Agrees(fs.geo, grown.ch, dsect, buf[..], fs.Logical()[dsect], n)
    }

    /** A buffer that shows all of its sector is never in the way. */
    lemma WholeIsSafe(target: nat)
      requires Core() && whole && ChainIsLegal() && 0 < fs.geo.csize
      ensures !Exposes(target)
    {
      hide Volume.Valid, Volume.Fat, Volume.Reserved, Volume.Logical, IsChain, Clear, ValidGeometry, Agrees, Grow,
        SectorAt, Capacity;
      if dsect != 0 && !dirty {
        var grown := Target(ClustersFor(fs.geo, target));
        AgreesSame(fs.geo, grown.ch, dsect, buf[..], Least(target, Capacity(fs.geo, grown.ch)));
      }
    }

    /** What f_lseek does with the buffer: it stays unless the pointer comes to lie inside another sector. */
    twostate predicate BufferMoved()
      reads `sclust, `chain, `dsect, `dirty, `owned, `shy, `fptr, fs`disk, fs`wflag, fs`winsect, fs.win, buf
      requires Base()
    {
      if fptr % 512 == 0 || HoldsByte(old(dsect), fptr) then BufferKept()
      else 0 < dsect < |fs.disk| && !dirty && buf[..] == Data()[dsect]
    }

    /** The buffer is right about all bytes of the file. */
    ghost predicate Right()
      reads this, fs, fs.win, buf
      requires Core()
    {
      dirty || dsect == 0 || Agrees(fs.geo, chain, dsect, buf[..], fs.Logical()[dsect], fsize)
    }

    /** The end of f_lseek: a file that has been stretched has its new size. */
    method EndSeek()
      requires Core() && lim <= fsize && Covers(fsize) && Covers(fptr)
      modifies `lim, `fsize, `written
      ensures Core() && lim <= fsize == Max(fptr, old(fsize)) && Covers(fsize) && (lim == fsize <==> Right())
      ensures Data() == old(Data()) && Table() == old(Table()) && (fsize == old(fsize) == old(lim) ==> lim == fsize)
      ensures Tended() && (if fptr > old(fsize) then written else written == old(written))
    {
      hide Volume.Valid, Volume.Fat, Volume.Reserved, Volume.Logical, IsChain, Clear, ValidGeometry, Agrees;
      if fptr > fsize {
        fsize := fptr;
        written := true;
      }
      if Right() {
        lim := fsize;
      }
    }

    /**
     f_lseek without a link map. In read mode the target is clipped to the file size; in write mode
     the chain is stretched, and the file with it, as far as the volume has room. The bytes the file
     had are kept. A reserved entry met in the search for a free cluster ends the use of the file.
     */
    method Lseek(target: nat) returns (res: FResult)
      requires Standing() && target < TWO32
      modifies fs`disk, fs`wflag, fs`winsect, fs.win, fs`freeClust, fs`fsiDirty, fs`lastClust
      modifies `sclust, `chain, `clust, `dirty, `dsect, `fptr, `lim, `fsize, `written, `err, buf
      ensures Standing() && OnlyGrown() && SameOutsideFat(fs.geo, Data(), old(Data()))
      ensures old(ChainIsLegal()) && 0 < fs.geo.csize && (old(Valid()) ==> (Valid() <==> !old(Exposes(target))))
      ensures old(err) != Ok ==> res == err == old(err) && fptr == old(fptr) && fsize == old(fsize)
      ensures old(err) == Ok ==>
                && err == res && (res == Ok || (res == IntErr && HasReserved(Table()) && fsize == old(fsize) < target))
                && (res == IntErr ==> lim == old(lim))
      ensures res == Ok && target <= old(fsize) ==> fptr == target
      ensures res == Ok && target > old(fsize) && !canWrite ==> fptr == old(fsize)
      ensures res == Ok && target > old(fsize) && canWrite ==>
                fptr == target || (fptr < target && FreeSet(Table()) == {} && fptr == Capacity(fs.geo, chain))
      ensures res == Ok ==> fsize == Max(fptr, old(fsize)) && BufferMoved() && (lim == fsize <==> Right())
      ensures !canWrite && old(err) == Ok ==> res == Ok
      ensures target <= old(fsize) && old(err) == Ok ==> res == Ok && chain == old(chain)
      ensures target == 0 && old(err) == Ok ==> Table() == old(Table())
      ensures Covers(old(fsize)) && Contents(old(fsize)) == old(Contents(fsize))
      ensures old(CountExact()) ==> CountExact()
      ensures Tended() && Traced()
    {
      hide Core, Base, Data, Table, Spare, Content, OthersKept, ChainGrown, HasReserved, Capacity, ClusterAt,
        SectorAt, Exposes, SameOutsideFat, ClustersFor, Target, Right, Covers, AtPtr;
      StartOfChain();
      ChainLegal();
      ExposesWhen(target);
      if err != Ok {
        GrownReflexive(fs.geo, Table(), Data(), chain);
        SameItself(fs.geo, Data());
        return err;
      }
      if canWrite && fsize < target {
        res := SeekBeyond(target);
      } else {
        SeekWithin(if target > fsize then fsize else target);
        res := Ok;
      }
    }

    /** f_lseek inside the file. */
    method SeekWithin(ofs: nat)
      requires Usable() && err == Ok && ofs <= fsize
      modifies fs`disk, fs`wflag, fs`winsect, fs.win, fs`freeClust, fs`fsiDirty, fs`lastClust
      modifies `sclust, `chain, `clust, `dirty, `dsect, `fptr, `lim, `fsize, `written, buf
      ensures Usable() && OnlyGrown() && SameOutsideFat(fs.geo, Data(), old(Data())) &&
                (old(lim) == fsize ==> lim == fsize)
      ensures fptr == ofs && fsize == old(fsize) && BufferMoved() && (lim == fsize <==> Right())
      ensures chain == old(chain) && (ofs == 0 ==> Table() == old(Table()))
      ensures Contents(fsize) == old(Contents(fsize))
      ensures old(CountExact()) ==> CountExact()
      ensures Tended() && Traced()
    {
      hide Core, Base, Data, Table, Spare, Content, OthersKept, ChainGrown, HasReserved, Capacity, ClusterAt,
        SectorAt, SameOutsideFat, ClustersFor, Target, Right, Covers;
      ChainLegal();
      GrownReflexive(fs.geo, Table(), Data(), chain);
      SameItself(fs.geo, Data());
      if ofs == 0 {
        fptr := 0;
        CoversLess(0, fsize);
      } else {
        StartOfChain();
        CoversAtMost(fsize);
        ClustersForMost(fs.geo, chain, ofs);
        InReach(ofs);
        var done := SeekTo(ofs, fsize);
        CoversAtMost(fsize);
      }
      EndSeek();
    }

    /** f_lseek behind the end of a file that can be written to. */
    method SeekBeyond(target: nat) returns (res: FResult)
      requires Usable() && err == Ok && canWrite && fsize < target < TWO32 && ChainIsLegal() && 0 < fs.geo.csize
      modifies fs`disk, fs`wflag, fs`winsect, fs.win, fs`freeClust, fs`fsiDirty, fs`lastClust
      modifies `sclust, `chain, `clust, `dirty, `dsect, `fptr, `lim, `fsize, `written, `err, buf
      ensures Standing() && OnlyGrown() && SameOutsideFat(fs.geo, Data(), old(Data())) && err == res
      ensures res == Ok || (res == IntErr && HasReserved(Table()) && fsize == old(fsize) && lim == old(lim))
      ensures res == IntErr <==> old(Target(ClustersFor(fs.geo, target))).why == 1
      ensures res == Ok ==>
                fptr == target || (fptr < target && FreeSet(Table()) == {} && fptr == Capacity(fs.geo, chain))
      ensures res == Ok ==> old(fsize) <= fsize == fptr && BufferMoved() && (lim == fsize <==> Right())
      ensures res == Ok ==> (lim == fsize <==> !old(Exposes(target)))
      ensures Covers(old(fsize)) && Contents(old(fsize)) == old(Contents(fsize))
      ensures old(CountExact()) ==> CountExact()
      ensures Tended() && Traced()
    {
      hide Core, Base, Data, Table, Spare, Content, OthersKept, ChainGrown, HasReserved, Capacity, ClusterAt,
        SectorAt, Exposes, SameOutsideFat, ClustersFor, Target, Right, Covers;
      var done := SeekTo(target, fsize);
      if !done {
        err := IntErr;
        return IntErr;
      }
      CoversAtMost(fsize);
      ChainLegal();
      NotLonger();
      EndSeek();
      ExposedIff(target);
      res := Ok;
    }

    /** A file that has not become longer by f_lseek has its old chain. */
    twostate lemma NotLonger()
      requires old(Core()) && Core() && old(Covers(fsize)) && 0 < fs.geo.csize && Walked()
      ensures Capacity(fs.geo, chain) <= old(fsize) ==> |chain| == |old(chain)|
    {
      hide Core, Base, Data, Table, Spare;
      if |old(chain)| < |chain| { MulMonotone(fs.geo.csize, |old(chain)| + 1, |chain|); }
    }

    /** A chain that is long enough stays as it is. */
    lemma InReach(p: nat)
      requires Base() && 0 < fs.geo.csize && ClustersFor(fs.geo, p) <= |chain|
      ensures Target(ClustersFor(fs.geo, p)) == Growth(chain, 2)
    {
      hide ClustersFor;
    }

    lemma ExposesWhen(target: nat)
      requires Base() && ChainIsLegal() && 0 < fs.geo.csize
      ensures Exposes(target) ==>
                err == Ok && canWrite && fsize < target && Target(ClustersFor(fs.geo, target)).why != 1
    {
      hide Agrees, Grow, Clear, SectorAt, Capacity, ClustersFor;
    }

    /** In a file stretched to its target the buffer is right exactly if that was to be. */
    twostate lemma ExposedIff(new target: nat)
      requires old(Core()) && Core() && old(ChainIsLegal()) && ChainIsLegal() && 0 < fs.geo.csize
      requires old(err) == Ok && canWrite && old(fsize) < target && BufferMoved() &&
                SameOutsideFat(fs.geo, Data(), old(Data()))
      requires old(Target(ClustersFor(fs.geo, target))).ch == chain && old(Target(ClustersFor(fs.geo, target))).why != 1
      requires fsize == fptr == Least(target, Capacity(fs.geo, chain))
      ensures Right() <==> !old(Exposes(target))
    {
      hide Volume.Valid, Volume.Fat, Volume.Reserved, Volume.Logical, IsChain, Clear, ValidGeometry, Agrees, Grow,
        SectorAt, Capacity, Target, ClustersFor, Table, Spare;
      if dsect != 0 {
        SectorBehindFat(fs.geo, |fs.disk|, dsect);
        assert |Data()| == |old(Data())|;
        if !dirty && buf[..] == Data()[dsect] {
          AgreesSame(fs.geo, chain, dsect, buf[..], fsize);
        }
      }
    }

    /** f_lseek to a position that is not the start of the file; not done: a reserved entry was met. */
    method SeekTo(ofs: nat, ghost n: nat) returns (done: bool)
      requires Usable() && 0 < ofs < TWO32 && n == fsize && (!canWrite ==> ofs <= fsize)
      modifies fs`disk, fs`wflag, fs`winsect, fs.win, fs`freeClust, fs`fsiDirty, fs`lastClust
      modifies `sclust, `chain, `clust, `dirty, `dsect, `fptr, buf
      ensures Core() && OnlyGrown() && Covers(n) && Contents(n) == old(Contents(n)) && 0 < fs.geo.csize
      ensures SameOutsideFat(fs.geo, Data(), old(Data()))
      ensures !done ==> canWrite && HasReserved(Table()) && n < ofs
      ensures done ==> Covers(fptr) && AtPtr() && BufferMoved() && fptr == Least(ofs, Capacity(fs.geo, chain))
      ensures done && fptr < ofs ==> canWrite && FreeSet(Table()) == {}
      ensures old(Target(ClustersFor(fs.geo, ofs))).ch == chain
      ensures done <==> old(Target(ClustersFor(fs.geo, ofs))).why != 1
      ensures old(CountExact()) ==> CountExact()
      ensures Walked() && Tended()
    {
      hide Core, Base, Data, Table, Spare, Content, OthersKept, ChainGrown, HasReserved, Covers, Capacity,
        ClusterStart, ClusterAt, SectorAt, Clust2Sect, Target, SameOutsideFat, ClustersFor, Next;
      BufferSize();
      var rest, why := SeekStart(ofs, n);
      SomeClusters(fs.geo, ofs);
      if rest == 0 {
        NoChain(n);
        OthersAreSame(fs.geo, old(Data()), Data(), chain);
        TargetReached(ClustersFor(fs.geo, ofs));
        return why == 0;
      }
      ghost var fat, ch, img := Table(), chain, Data();
      if !canWrite { CoversLess(ofs, n); }
      rest, why := SeekLoop(rest, n);
      ChainLegal();
      GrownTwice(old(Table()), old(chain), fat, ch);
      SameTwice(fs.geo, old(Data()), img, Data());
      OthersAreSame(fs.geo, old(Data()), Data(), chain);
      CoversAtMost(n);
      SeekReached(rest);
      ClustersForMost(fs.geo, chain, ofs);
      TargetReached(ClustersFor(fs.geo, ofs));
      if why == 1 {
        return false;
      }
      CoversLess(0, n);
      SeekInto(rest);
      done := true;
    }

    /** The cluster that has been reached is on the chain as a whole. */
    lemma SeekReached(rest: nat)
      requires ClusterStart(fs.geo, fptr) && Covers(fptr + 1) && rest <= fs.geo.csize * 512
      ensures fptr + rest <= Capacity(fs.geo, chain)
    {
      hide ClusterStart;
      ClusterFits(fs.geo, chain, fptr);
    }

    /** The end of f_lseek: on into the cluster, and its sector into the buffer. */
    method SeekInto(rest: nat)
      requires Seeking(0) && 0 < rest <= fs.geo.csize * 512
      modifies fs`disk, `dirty, `dsect, `fptr, buf
      ensures Core() && Data() == old(Data()) && Table() == old(Table())
      ensures fptr == old(fptr) + rest && Covers(fptr) && AtPtr() && BufferMoved()
      ensures Tended() && fs.wflag == old(fs.wflag)
    {
      hide Core, Base, Data, Table, Spare, Covers, Capacity, ClusterStart, ClusterAt, SectorAt, Clust2Sect;
      SeekLands(rest);
      var nsect := 0;
      if rest % 512 != 0 {
        nsect := Clust2Sect(fs.geo, clust);
        nsect := nsect + rest / 512;
      }
      fptr := fptr + rest;
      if fptr % 512 != 0 {
        LoadSector(nsect);
      }
    }

    lemma NoChain(n: nat)
      requires chain == []
      ensures Capacity(fs.geo, chain) == 0 && Covers(0) && (Covers(n) ==> n == 0)
    {}

    /** Where f_lseek lands inside the cluster it has reached. */
    lemma SeekLands(rest: nat)
      requires Seeking(0) && 0 < rest <= fs.geo.csize * 512
      ensures Covers(fptr + rest) && OnCluster(fptr + rest - 1) && (rest % 512 != 0 <==> (fptr + rest) % 512 != 0)
      ensures rest % 512 != 0 ==>
                var s := Clust2Sect(fs.geo, clust) + rest / 512;
                HoldsByte(s, fptr + rest) && fs.geo.database <= s < |fs.disk| && !Clear(fs.geo, chain, s)
    {
      hide Core, Base, Table, Spare, ClusterAt, SectorAt, Clust2Sect, HasReserved, Clear, Capacity, ClusterStart;
      ClusterFits(fs.geo, chain, fptr);
      WithinCluster(fs.geo, chain, fptr, rest);
      StartAligned(fs.geo, fptr, rest);
      if rest % 512 != 0 {
        SeekSector(rest);
      }
    }

    lemma SeekSector(rest: nat)
      requires Seeking(0) && 0 < rest <= fs.geo.csize * 512 && rest % 512 != 0 && Covers(fptr + rest)
      ensures (fptr + rest) % 512 != 0
      ensures var s := Clust2Sect(fs.geo, clust) + rest / 512;
              HoldsByte(s, fptr + rest) && fs.geo.database <= s < |fs.disk| && !Clear(fs.geo, chain, s)
    {
      hide Core, Base, Table, Spare, Clear, ClusterAt, SectorAt, Clust2Sect, ClusterStart;
      var p := fptr + rest;
      StartAligned(fs.geo, fptr, rest);
      AlignedEnd(p);
      PlacedOn();
      CoversSector(p - 1, 2);
      AtCovered(fs.geo, |fs.disk|, chain, fptr);
      SectorWithin(fs.geo, chain, fptr, rest);
      Clust2SectIs(fs.geo, |fs.disk|, clust);
      AtCovered(fs.geo, |fs.disk|, chain, p);
      OneSector(p);
      RunOnVolume(SectorAt(fs.geo, chain, p), p, 1);
    }

    lemma AlignedEnd(p: nat)
      requires p % 512 != 0
      ensures (p - 1) % 512 + 2 <= 512
    {}

    lemma PlacedOn()
      requires Core()
      ensures OnVolume(fs.geo, |fs.disk|, chain) && ValidGeometry(fs.geo, |fs.disk|)
    {
      hide Volume.Valid, Volume.Fat, Volume.Reserved, Volume.Logical, Clear, IsChain, ValidGeometry;
    }

    /** The FAT part of f_truncate: end the chain behind the clusters to keep and free the rest. */
    method CutChain(ghost k: nat) returns (res: FResult)
      requires Core() && sclust != 0 && k <= |chain| && IsChain(Table(), chain)
      requires if fptr == 0 then k == 0 else 0 < k && clust == chain[k - 1]
      modifies fs`disk, fs`wflag, fs`winsect, fs.win, fs`freeClust, fs`fsiDirty, `sclust
      ensures res == Ok && fs.Valid() && InFat(fs.geo, fs.winsect) && |fs.disk| == old(|fs.disk|)
      ensures SameOutsideFat(fs.geo, fs.Logical(), old(fs.Logical()))
      ensures fs.Fat() == Cut(old(Table()), chain, k, Kept(fs.geo.fsType, END_OF_CHAIN))
      ensures sclust == if fptr == 0 then 0 else old(sclust)
      ensures old(fs.FreeExact()) ==> fs.FreeExact()
      ensures fs.Careful()
    {
      hide Volume.Valid, Volume.Fat, Volume.Reserved, Volume.Logical, Clear, ValidGeometry, Kept, WellSized, Removed,
        Freed, HitsReserved;
      fs.GeometryFacts();
      ghost var mark := Kept(fs.geo.fsType, END_OF_CHAIN);
      if fptr == 0 {
        CutAll(fs.Fat(), chain, mark);
        res := fs.RemoveChain(sclust);
        sclust := 0;
      } else {
        ChainLink(fs.Fat(), chain, k);
        var ncl := fs.GetFat(clust);
        res := Ok;
        if ncl < fs.geo.nFatent {
          CutTail(fs.Fat(), chain, k, mark);
          FreeSetUpdate(fs.Fat(), clust, mark);
          var r := fs.PutFat(clust, END_OF_CHAIN);
          res := fs.RemoveChain(ncl);
        }
      }
      fs.GeometryFacts();
    }

    /** The file keeps its first bytes when the chain is cut behind them. */
    twostate lemma CutKeeps(new k: nat)
      requires old(Core()) && k <= |old(chain)| && old(fsize) <= Capacity(fs.geo, old(chain)) && fptr <= old(fsize)
      requires fs.Valid() && |fs.disk| == old(|fs.disk|) && InFat(fs.geo, fs.winsect)
      requires chain == old(chain)[..k] && (sclust == 0 <==> chain == []) && Covers(fptr)
      requires sclust != 0 ==> IsChain(fs.Fat(), chain) && chain[0] == sclust
      requires !dirty && dsect == old(dsect) && unchanged(buf) && shy == old(shy)
      requires lim == fptr <= old(lim) && whole == old(whole)
      requires owned && dsect != 0 ==> !Clear(fs.geo, chain, dsect)
      requires SameOutsideFat(fs.geo, fs.Logical(), old(Data()))
      ensures Core() && SameOutsideFat(fs.geo, Data(), old(Data()))
      ensures Contents(fptr) == old(Contents(fsize))[..fptr]
    {
      hide Volume.Valid, Volume.Fat, Volume.Reserved, Volume.Logical, IsChain, ClusterSector, ValidGeometry, Content,
        Agrees, Sec;
      fs.GeometryFacts();
      FatSectorClear(fs.geo, |fs.disk|, chain, fs.winsect);
      FatSectorClear(fs.geo, |fs.disk|, shy, fs.winsect);
      assert buf[..] == old(buf[..]);
      if dsect != 0 {
        SectorBehindFat(fs.geo, |fs.disk|, dsect);
        if old(dirty) {
          AgreesSame(fs.geo, chain, dsect, buf[..], lim);
        } else {
          StepsOfClusters(fs.geo, |fs.disk|);
          AgreesShorter(fs.geo, old(chain), k, dsect, buf[..], fs.Logical()[dsect], old(lim), lim);
        }
      }
      ContentOfPrefix(fs.geo, old(Data()), fs.Logical(), old(chain), k, fptr);
    }

    /** Write the buffer of a cut chain back, wherever its sector now belongs. */
    method FlushCut(ghost img: Image)
      requires fs.Valid() && InFat(fs.geo, fs.winsect) && buf.Length == 512
      requires dirty ==> fs.geo.database <= dsect < |fs.disk|
      requires SameOutsideFat(fs.geo, fs.Logical(),
                              if dirty && dsect < |img| then img[dsect := fs.Logical()[dsect]] else img)
      requires dirty ==> |img| == |fs.disk| && img[dsect] == buf[..]
      modifies fs`disk, `dirty
      ensures fs.Valid() && !dirty && fs.Fat() == old(fs.Fat()) && |fs.disk| == old(|fs.disk|)
      ensures SameOutsideFat(fs.geo, fs.Logical(), img)
      ensures old(fs.FreeExact()) ==> fs.FreeExact()
      ensures fs.Careful()
    {
      hide Volume.Valid, Volume.Fat, Volume.Reserved, Volume.Logical, ValidGeometry, WellSized;
      if dirty {
        fs.GeometryFacts();
        ghost var now := fs.Logical();
        fs.DiskWrite(buf[..], dsect, 1);
        WriteOne(now, dsect, buf[..]);
        dirty := false;
      }
    }

    /** The part of f_truncate that makes the file shorter. */
    method Shorten(ghost k: nat) returns (res: FResult)
      requires Steady() && KeptBy(k)
      modifies fs`disk, fs`wflag, fs`winsect, fs.win, fs`freeClust, fs`fsiDirty
      modifies `sclust, `chain, `dirty
      ensures res == Ok && fs.Valid() && InFat(fs.geo, fs.winsect) && |fs.disk| == old(|fs.disk|) && !dirty
      ensures chain == old(chain)[..k] && sclust == (if k == 0 then 0 else old(sclust))
      ensures fs.Fat() == Cut(old(Table()), old(chain), k, Kept(fs.geo.fsType, END_OF_CHAIN))
      ensures SameOutsideFat(fs.geo, fs.Logical(), old(Data()))
      ensures old(fs.FreeExact()) ==> fs.FreeExact()
      ensures fs.Careful()
    {
      hide Volume.Valid, Volume.Fat, Volume.Reserved, Volume.Logical, Clear, ValidGeometry, Kept, WellSized, Cut,
        ClustersFor, IsChain;
      ghost var img := Data();
      res := CutChain(k);
      chain := chain[..k];
      FlushCut(img);
    }

    /**
     f_truncate: the file ends at the file pointer, and exactly the clusters behind it are freed. The
     buffer may be left holding a sector that is no longer the file's.
     */
    method Truncate() returns (res: FResult)
      requires Valid()
      modifies fs`disk, fs`wflag, fs`winsect, fs.win, fs`freeClust, fs`fsiDirty
      modifies `sclust, `chain, `dirty, `fsize, `written, `lim, `owned
      ensures Valid() && fptr == old(fptr) && 0 < fs.geo.csize
      ensures err != Ok ==> res == err && fsize == old(fsize)
      ensures err == Ok && !canWrite ==> res == Denied && fsize == old(fsize)
      ensures err != Ok || !canWrite || fptr == old(fsize) ==>
                chain == old(chain) && Data() == old(Data()) && Table() == old(Table())
      ensures err == Ok && canWrite ==> res == Ok && fsize == fptr && Contents(fsize) == old(Contents(fsize))[..fptr]
      ensures err == Ok && canWrite && fptr < old(fsize) ==> CutAt(ClustersFor(fs.geo, fptr))
      ensures old(CountExact()) ==> CountExact()
      ensures ChainIsLegal() && (owned <==> old(owned) && (dsect == 0 || !Clear(fs.geo, chain, dsect)))
      ensures Tended() && Traced()
    {
      hide Core, Base, Data, Table, Spare, Content, Covers, AtPtr, Clear, ClustersFor, CutAt;
      StartOfChain();
      ChainLegal();
      OwnedMeans();
      if err != Ok {
        return err;
      }
      if !canWrite {
        return Denied;
      }
      res := Ok;
      if fsize > fptr {
        ShortenHere();
      }
    }

    /** The chain has been cut behind its first `k` clusters; nothing else has changed outside the FAT. */
    twostate predicate CutAt(k: nat)
      reads `sclust, `chain, `dsect, `dirty, `owned, `shy, fs`disk, fs`wflag, fs`winsect, fs.win, buf
      requires old(Base()) && Base()
    {
      && k <= |old(chain)| && chain == old(chain)[..k] && IsChain(old(Table()), old(chain))
      && Table() == Cut(old(Table()), old(chain), k, Kept(fs.geo.fsType, END_OF_CHAIN))
      && SameOutsideFat(fs.geo, Data(), old(Data()))
    }

    /** The first `k` clusters hold the bytes before the file pointer, and the current cluster is the last of them. */
    ghost predicate KeptBy(k: nat)
      reads this, fs`disk, fs`wflag, fs`winsect, fs.win, buf
      requires Core()
    {
      && k <= |chain| && sclust != 0 && IsChain(Table(), chain) && fptr <= Capacity(fs.geo, chain[..k])
      && if fptr == 0 then k == 0 else 0 < k && clust == chain[k - 1]
    }

    method ShortenHere()
      requires Steady() && fptr < fsize && 0 < fs.geo.csize && ChainIsLegal()
      requires owned && dsect != 0 ==> !Clear(fs.geo, chain, dsect)
      modifies fs`disk, fs`wflag, fs`winsect, fs.win, fs`freeClust, fs`fsiDirty
      modifies `sclust, `chain, `dirty, `fsize, `written, `lim, `owned
      ensures Steady() && fsize == fptr && Contents(fsize) == old(Contents(fsize))[..fptr]
      ensures CutAt(ClustersFor(fs.geo, fptr))
      ensures old(CountExact()) ==> CountExact()
      ensures ChainIsLegal() && (owned <==> old(owned) && (dsect == 0 || !Clear(fs.geo, chain, dsect)))
      ensures Tended() && written
    {
      hide Core, Base, Data, Table, Spare, Content, Clear, ClustersFor, IsChain, Cut, Kept, SameOutsideFat, ClusterAt,
        SectorAt, Capacity;
      ghost var k := ClustersFor(fs.geo, fptr);
      KeptClusters();
      ShortenCore(k);
      fsize := fptr;
      written := true;
    }

    method ShortenCore(ghost k: nat)
      requires Steady() && fptr < fsize && ChainIsLegal() && KeptBy(k)
      requires owned && dsect != 0 ==> !Clear(fs.geo, chain, dsect)
      modifies fs`disk, fs`wflag, fs`winsect, fs.win, fs`freeClust, fs`fsiDirty
      modifies `sclust, `chain, `dirty, `lim, `owned
      ensures Core() && Covers(fptr) && Contents(fptr) == old(Contents(fsize))[..fptr]
      ensures lim == fptr
      ensures CutAt(k)
      ensures old(CountExact()) ==> CountExact()
      ensures ChainIsLegal() && (owned <==> old(owned) && (dsect == 0 || !Clear(fs.geo, chain, dsect)))
      ensures Tended()
    {
      hide Volume.Valid, Volume.Fat, Volume.Reserved, Volume.Logical, Clear, ValidGeometry, Kept, WellSized, Cut,
        ClustersFor, IsChain, Content, ClusterAt, SectorAt, Capacity, SameOutsideFat, Data;
      var res := Shorten(k);
      fs.GeometryFacts();
      CutLeaves(old(Table()), old(chain), k, Kept(fs.geo.fsType, END_OF_CHAIN));
      CutLegal(old(chain), k);
      lim := fptr;
      owned := owned && (dsect == 0 || !Clear(fs.geo, chain, dsect));
      CutKeeps(k);
    }

    /** The clusters that hold the bytes before the file pointer; the current one is the last of them. */
    lemma KeptClusters()
      requires Steady() && fptr < fsize && 0 < fs.geo.csize
      ensures var k := ClustersFor(fs.geo, fptr);
              && KeptBy(k)
              && (fptr > 0 ==> ClusterAt(fs.geo, chain[..k], fptr - 1) == ClusterAt(fs.geo, chain, fptr - 1))
              && (fptr % 512 != 0 ==> SectorAt(fs.geo, chain[..k], fptr) == SectorAt(fs.geo, chain, fptr))
    {
      hide Volume.Valid, Volume.Fat, Volume.Reserved, Volume.Logical, Clear, ValidGeometry, ClusterAt, SectorAt;
      ClustersForExact(fs.geo, chain, fptr);
      ghost var k := ClustersFor(fs.geo, fptr);
      if fptr % 512 != 0 {
        SectorOfByteBefore(fs.geo, chain, chain[..k], fptr);
      }
    }
  }

  /** The unsigned difference tells whether a sector is one of a run, and which. */
  lemma InRun(d: nat, sect: nat, cc: nat, w: seq<Byte>)
    requires d < TWO32 && sect + cc <= TWO32 && cc * 512 <= |w|
    ensures Sub32(d, sect) < cc <==> sect <= d < sect + cc
    ensures Sub32(d, sect) < cc ==>
              (Sub32(d, sect) + 1) * 512 <= |w| && |w[Sub32(d, sect) * 512..(Sub32(d, sect) + 1) * 512]| == 512
    ensures sect <= d ==> Sub32(d, sect) == d - sect
  {}

  lemma LongerCapacity(g: Geometry, nSectors: nat, ch: seq<nat>, c: nat)
    requires ValidGeometry(g, nSectors)
    ensures 0 < g.csize && Capacity(g, ch + [c]) == Capacity(g, ch) + g.csize * 512
  {
    assert |ch + [c]| * g.csize == |ch| * g.csize + g.csize;
  }

  lemma SameItself(g: Geometry, img: Image)
    ensures SameOutsideFat(g, img, img)
  {}

  lemma OthersAreSame(g: Geometry, img: Image, img': Image, ch: seq<nat>)
    requires SameOutsideFat(g, img', img) && forall i :: 0 <= i < |ch| ==> 2 <= ch[i]
    ensures OthersKept(g, img, img', ch)
  {}

  lemma SameTwice(g: Geometry, a: Image, b: Image, c: Image)
    requires SameOutsideFat(g, b, a) && SameOutsideFat(g, c, b)
    ensures SameOutsideFat(g, c, a)
  {}

  lemma SomeClusters(g: Geometry, p: nat)
    requires 0 < g.csize && 0 < p
    ensures 0 < ClustersFor(g, p)
  {}

  lemma StepsOfClusters(g: Geometry, nSectors: nat)
    requires ValidGeometry(g, nSectors)
    ensures 0 < g.csize
  {}

  lemma SectorBehindFat(g: Geometry, nSectors: nat, s: nat)
    requires ValidGeometry(g, nSectors) && g.database <= s
    ensures !InFat(g, s) && !InMirror(g, s)
  {}

  lemma CutLeaves(fat: seq<nat>, ch: seq<nat>, k: nat, mark: nat)
    requires IsChain(fat, ch) && k <= |ch| && mark >= |fat|
    ensures k > 0 ==> IsChain(Cut(fat, ch, k, mark), ch[..k]) && ch[..k][0] == ch[0]
    ensures k == 0 <==> ch[..k] == []
  {
    if k == |ch| {
      assert ch[..k] == ch;
    } else if k > 0 {
      CutTail(fat, ch, k, mark);
    }
  }

  lemma ChainLink(fat: seq<nat>, ch: seq<nat>, k: nat)
    requires IsChain(fat, ch) && 0 < k <= |ch|
    ensures IsCluster(fat, ch[k - 1]) && fat[ch[k - 1]] >= 2
    ensures if k < |ch| then fat[ch[k - 1]] == ch[k] && ch[k] < |fat| else fat[ch[k - 1]] >= |fat|
  {
    assert k < |ch| ==> fat[ch[k - 1]] == ch[k - 1 + 1] && IsCluster(fat, ch[k]);
  }

  lemma ZeroStart(g: Geometry)
    requires 0 < g.csize
    ensures ClusterStart(g, 0)
  {
    ModUnique(0, g.csize, 0, 0);
  }

  lemma GrownReflexive(g: Geometry, fat: seq<nat>, img: Image, ch: seq<nat>)
    requires forall i :: 0 <= i < |ch| ==> 2 <= ch[i]
    ensures ChainGrown(fat, ch, fat, ch) && OthersKept(g, img, img, ch)
  {}

  ghost function LastOf(ch: seq<nat>): nat {
    if ch == [] then 0 else ch[|ch| - 1]
  }

  lemma LongerNotClear(g: Geometry, ch: seq<nat>, c: nat, s: nat)
    requires 2 <= c && forall i :: 0 <= i < |ch| ==> 2 <= ch[i]
    requires !Clear(g, ch, s)
    ensures forall i :: 0 <= i < |ch + [c]| ==> 2 <= (ch + [c])[i]
    ensures !Clear(g, ch + [c], s)
  {
    assert forall i :: 0 <= i < |ch| ==> ch[i] == (ch + [c])[i];
  }

  /** Why create_chain gives no cluster: none is free, or the search met a reserved entry. */
  ghost predicate NoCluster(fat: seq<nat>, answer: nat) {
    (answer == 0 && FreeSet(fat) == {}) || (answer == 1 && HasReserved(fat))
  }

  lemma NotClearElsewhere(g: Geometry, ch: seq<nat>, s: nat, w: nat)
    requires forall i :: 0 <= i < |ch| ==> 2 <= ch[i]
    requires !Clear(g, ch, s) && Clear(g, ch, w)
    ensures s != w
  {}
}
