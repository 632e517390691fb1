/**
 What reaches the medium: after any calls on a file and f_sync, its directory entry, the table and its
 bytes are there, and a later mount and f_open find them. Which calls mark the file for f_sync is not
 part of the statement.
 */
module FatDurable {
  import opened FatLayout
  import opened FatChains
  import opened FatVolume
  import opened FatFileSpec
  import opened FatFile
  import opened FatReshape
  import opened FatFileRun
  import opened FatSync

  /** The sector lies before the data area, or in a cluster that is in use and not the file's. */
  ghost predicate Elsewhere(g: Geometry, fat: seq<nat>, ch: seq<nat>, s: nat) {
    s < g.database || exists c :: InUseElsewhere(g, fat, ch, s, c)
  }

  ghost predicate InUseElsewhere(g: Geometry, fat: seq<nat>, ch: seq<nat>, s: nat, c: nat) {
    && IsCluster(fat, c) && fat[c] != 0 && c !in ch
    && ClusterSector(g, c) <= s < ClusterSector(g, c) + g.csize
  }

  lemma ElsewhereIsClear(g: Geometry, nSectors: nat, fat: seq<nat>, ch: seq<nat>, s: nat)
    requires OnVolume(g, nSectors, ch) && Elsewhere(g, fat, ch, s)
    ensures Clear(g, ch, s)
  {
    hide ClusterSector;
    if s < g.database {
      SystemSectorClear(g, nSectors, ch, s);
    } else if !Clear(g, ch, s) {
      var c :| InUseElsewhere(g, fat, ch, s, c);
      var i :| 0 <= i < |ch| && ClusterSector(g, ch[i]) <= s < ClusterSector(g, ch[i]) + g.csize;
      ClustersApart(g, c, ch[i], s - ClusterSector(g, c), s - ClusterSector(g, ch[i]));
      assert false;
    }
  }

  /** A chain that is given another shape takes free clusters only. */
  lemma StaysElsewhere(g: Geometry, fat: seq<nat>, ch: seq<nat>, fat': seq<nat>, ch': seq<nat>, s: nat)
    requires Elsewhere(g, fat, ch, s) && Reshaped(fat, ch, fat', ch')
    ensures Elsewhere(g, fat', ch', s)
  {
    hide ClusterSector;
    if s >= g.database {
      var c :| InUseElsewhere(g, fat, ch, s, c);
      assert InUseElsewhere(g, fat', ch', s, c);
    }
  }

  /** Where the directory entry of the file is: behind the FAT copies and not in a cluster of the file. */
  ghost predicate HasEntry(f: File, dirSect: nat, o: nat)
    reads f, f.fs, f.fs.win, f.buf
    requires f.Base()
  {
    && EntryPlace(f.fs.geo, |f.fs.disk|, dirSect) && o + 32 <= 512 && f.shy == []
    && Elsewhere(f.fs.geo, f.Table(), f.chain, dirSect)
    && (f.fs.fsiEnabled ==> f.fs.geo.volbase + 1 < f.fs.geo.fatbase)
  }

  /** The file, as it is now, is on the medium. */
  ghost predicate IsStored(f: File, dirSect: nat, o: nat)
    reads f, f.fs, f.fs.win, f.buf
    requires f.Standing()
  {
    && !f.fs.wflag && !f.dirty
    && OnMedium(f.fs.geo, f.fs.disk, dirSect, o, f.chain, f.Table(), f.Contents(f.fsize))
  }

  /** A file with an entry can be synchronized. */
  lemma CanSync(f: File, dirSect: nat, o: nat)
    requires f.Valid() && HasEntry(f, dirSect, o)
    ensures Syncable(f, dirSect, o)
  {
    hide Volume.Valid, Volume.Fat, Volume.Reserved, Volume.Logical, IsChain, ValidGeometry, Elsewhere, EntryPlace;
    f.ChainLegal();
    f.PlacedOn();
    ElsewhereIsClear(f.fs.geo, |f.fs.disk|, f.Table(), f.chain, dirSect);
  }

  /** The entry of a file stays where it is over any calls on the file. */
  twostate lemma EntryStays(f: File, new dirSect: nat, new o: nat)
    requires old(f.Core()) && f.Core() && old(HasEntry(f, dirSect, o)) && f.shy == old(f.shy)
    requires |f.fs.disk| == old(|f.fs.disk|) && Reshaped(old(f.Table()), old(f.chain), f.Table(), f.chain)
    ensures HasEntry(f, dirSect, o)
  {
    hide File.Core, File.Base, File.Table, File.Spare, Elsewhere, Reshaped;
    StaysElsewhere(f.fs.geo, old(f.Table()), old(f.chain), f.Table(), f.chain, dirSect);
  }

  /** A file that was on the medium and has not been marked is still there. */
  twostate lemma StillStored(f: File, new dirSect: nat, new o: nat)
    requires old(f.Valid()) && f.Valid() && old(IsStored(f, dirSect, o))
    requires f.Traced() && f.err == Ok && !f.written
    ensures IsStored(f, dirSect, o) && f.fs.disk == old(f.fs.disk)
  {
    hide Volume.Fat, Volume.Reserved, Volume.Logical, IsChain, ValidGeometry, Clear, OnMedium, Content;
  }

  /**
   Any calls on a file that is on the medium, and f_sync: unless an internal error has ended the use of the file, it
   is on the medium as the calls have left it, and the FSINFO sector has a free count that has changed.
   */
  method CallsThenSync(f: File, ops: seq<Op>, dirSect: nat, o: nat, tm: nat, ghost chains: set<seq<nat>>)
    returns (replies: seq<Reply>, ghost states: seq<Plain>, ghost rooms: seq<Room>)
    requires f.Valid() && f.whole && HasEntry(f, dirSect, o) && forall i :: 0 <= i < |ops| ==> Fits(ops[i])
    requires !f.written && IsStored(f, dirSect, o)
    modifies f.fs`disk, f.fs`wflag, f.fs`winsect, f.fs.win, f.fs`freeClust, f.fs`fsiDirty, f.fs`lastClust
    modifies f`sclust, f`chain, f`clust, f`dirty, f`dsect, f`fptr, f`lim, f`fsize, f`written, f`err, f`owned, f`whole
    modifies f.buf
    ensures f.Valid() && PlainRun(f.canRead, f.canWrite, states, ops, replies, rooms)
    ensures states[0] == old(PlainOf(f)) && states[|ops|] == PlainOf(f) && PlainOf(f).ok == (f.err == Ok)
    ensures forall i :: 0 <= i < |ops| ==> rooms[i].reserved == HasReserved(old(f.Table()))
    ensures f.err == Ok ==>
              && OnMedium(f.fs.geo, f.fs.disk, dirSect, o, f.chain, f.Table(), states[|ops|].bytes)
              && (f.fs.fsiEnabled && f.fs.freeClust != old(f.fs.freeClust) ==> ShowsCounts(f.fs))
    ensures old(f.CountExact()) ==> f.CountExact()
    ensures Forest(old(f.Table()), chains) && (old(f.chain) == [] || old(f.chain) in chains) ==>
              Forest(f.Table(), Replaced(chains, old(f.chain), f.chain))
  {
    hide File.Core, File.Base, File.Data, PlainStep, Fits, File.Table, File.Spare, HasReserved, Reshaped, Forest,
      File.Covers, File.AtPtr, OnMedium, Content, HasEntry, Elsewhere, PlainRun, ShowsCounts, FsInfoApart, Clear;
    replies, states, rooms := Calls(f, ops, chains);
    if f.err == Ok && !f.written { StillStored(f, dirSect, o); }
    EntryStays(f, dirSect, o);
    CanSync(f, dirSect, o);
    var res := Sync(f, dirSect, o, tm);
  }

  lemma FileFacts(f: File)
    requires f.Valid()
    ensures f.Base() && (f.fs.fsiEnabled ==> f.fs.geo.fsType.Fat32?) && |PlainOf(f).bytes| < TWO32
  {
    hide Volume.Fat, Volume.Reserved, Volume.Logical, IsChain, Clear;
  }

  /** The same, and a mount of the medium and f_open of the entry: the bytes the calls have left. */
  method CallsThenReopen(f: File, ops: seq<Op>, dirSect: nat, o: nat, tm: nat, free: nat, last: nat)
    returns (g: File?, replies: seq<Reply>, ghost states: seq<Plain>, ghost rooms: seq<Room>)
    requires f.Valid() && f.whole && HasEntry(f, dirSect, o) && forall i :: 0 <= i < |ops| ==> Fits(ops[i])
    requires !f.written && IsStored(f, dirSect, o)
    modifies f.fs`disk, f.fs`wflag, f.fs`winsect, f.fs.win, f.fs`freeClust, f.fs`fsiDirty, f.fs`lastClust
    modifies f`sclust, f`chain, f`clust, f`dirty, f`dsect, f`fptr, f`lim, f`fsize, f`written, f`err, f`owned, f`whole
    modifies f.buf
    ensures f.Valid() && PlainRun(f.canRead, f.canWrite, states, ops, replies, rooms) && states[0] == old(PlainOf(f))
    ensures forall i :: 0 <= i < |ops| ==> rooms[i].reserved == HasReserved(old(f.Table()))
    ensures states[|ops|] == PlainOf(f) && (g != null <==> states[|ops|].ok)
    ensures g != null ==>
              && fresh(g) && fresh(g.fs) && g.Valid() && g.chain == f.chain && g.Table() == f.Table()
              && PlainOf(g) == Plain(states[|ops|].bytes, 0, true)
  {
    hide File.Core, File.Base, File.Data, PlainStep, Fits, File.Table, File.Spare, HasReserved, Reshaped, Forest,
      File.Covers, File.AtPtr, OnMedium, Content, HasEntry, Elsewhere, ShowsCounts, IsStored, File.Valid, File.Usable,
      PlainOf;
    g := null;
    replies, states, rooms := CallsThenSync(f, ops, dirSect, o, tm, {});
    FileFacts(f);
    if f.err == Ok {
      g := Reopen(f.fs.geo, f.fs.disk, f.fs.fsiEnabled, free, last, dirSect, o, true, true, f.chain, f.Table(),
        states[|ops|].bytes);
    }
  }
}
