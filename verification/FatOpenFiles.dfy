/**
 Several open files on one volume. Each has a buffer of its own and they share the sector window
 and the allocation table; calls on them in any order are calls on plain byte sequences that know
 nothing of each other.
 */
module FatOpenFiles {
  import opened FatLayout
  import opened FatChains
  import opened FatVolume
  import opened FatFileSpec
  import opened FatBuffer
  import opened FatFile
  import opened FatReshape
  import opened FatFileRun

  /** The clusters below `n` that sector `s` is not on. */
  ghost function Away(g: Geometry, n: nat, s: nat): (ch: seq<nat>)
    ensures forall i :: 0 <= i < |ch| ==> 2 <= ch[i] < n
  {
    if n <= 2 then []
    else if Clear(g, [n - 1], s) then Away(g, n - 1, s) + [n - 1]
    else Away(g, n - 1, s)
  }

  lemma {:induction false} AwayIsClear(g: Geometry, n: nat, s: nat)
    ensures Clear(g, Away(g, n, s), s)
  {
    if n > 2 {
      AwayIsClear(g, n - 1, s);
      assert Clear(g, [n - 1], s) ==> !(ClusterSector(g, [n - 1][0]) <= s < ClusterSector(g, [n - 1][0]) + g.csize);
    }
  }

  lemma {:induction false} AwayHasAll(g: Geometry, n: nat, s: nat, c: nat)
    requires 2 <= c < n && !(ClusterSector(g, c) <= s < ClusterSector(g, c) + g.csize)
    ensures c in Away(g, n, s)
  {
    if c < n - 1 {
      AwayHasAll(g, n - 1, s, c);
    }
  }

  /** A window that keeps clear of those clusters keeps clear of every chain it was clear of. */
  lemma StillClear(g: Geometry, n: nat, s: nat, s': nat, b: seq<nat>)
    requires (forall i :: 0 <= i < |b| ==> 2 <= b[i] < n) && Clear(g, b, s) && Clear(g, Away(g, n, s), s')
    ensures Clear(g, b, s')
  {
    forall i | 0 <= i < |b| ensures !(ClusterSector(g, b[i]) <= s' < ClusterSector(g, b[i]) + g.csize) {
      AwayHasAll(g, n, s, b[i]);
    }
  }

  /** Files of one volume whose chains share no cluster. */
  ghost predicate Apart(f: File, g: File)
    reads f`chain, g`chain
  {
    f != g && f.fs == g.fs && f.buf != g.buf && Disjoint(g.chain, f.chain)
  }

  /**
   The state of file `g` is not touched by a call on file `f`, which keeps the window away from
   clusters it was not on.
   */
  twostate predicate Beside(f: File, g: File)
    reads f, g, f.fs, f.fs.win, f.buf, g.fs, g.fs.win, g.buf
  {
    && old(f.Core()) && old(g.Core()) && old(Apart(f, g)) && unchanged(g) && unchanged(g.buf) && (g.whole ==> g.owned)
    && f.Core() && OnlyOwn(f) && f.shy == Away(f.fs.geo, f.fs.geo.nFatent, old(f.fs.winsect))
  }

  /** Its chain is still a chain and still apart. */
  twostate lemma BesideShape(f: File, new g: File)
    requires old(allocated(g)) && Beside(f, g)
    ensures |f.fs.disk| == old(|f.fs.disk|) && Disjoint(g.chain, f.chain)
    ensures g.sclust != 0 ==> IsChain(f.Table(), g.chain)
  {
    hide Volume.Valid, Volume.Fat, Volume.Reserved, Volume.Logical, IsChain, Reshaped, ValidGeometry, Clear, Disjoint,
      Away;
    assert |f.Data()| == |f.fs.disk| && |old(f.Data())| == |old(f.fs.disk)|;
    ReshapedOther(old(f.Table()), old(f.chain), f.Table(), f.chain, g.chain);
    if g.sclust != 0 { NotNil(old(f.Table()), g.chain); }
  }

  /** The window is clear of it. */
  twostate lemma BesideBase(f: File, new g: File)
    requires old(allocated(g)) && Beside(f, g) && |f.fs.disk| == old(|f.fs.disk|) && Disjoint(g.chain, f.chain)
    requires g.sclust != 0 ==> IsChain(f.Table(), g.chain)
    ensures g.Base() && Apart(f, g) && g.Table() == f.Table()
  {
    hide Volume.Valid, Volume.Fat, Volume.Reserved, Volume.Logical, IsChain, Reshaped, ValidGeometry, Clear, Disjoint,
      Away, SectorsKept;
    StillClear(f.fs.geo, f.fs.geo.nFatent, old(f.fs.winsect), f.fs.winsect, g.chain);
    StillClear(f.fs.geo, f.fs.geo.nFatent, old(f.fs.winsect), f.fs.winsect, g.shy);
  }

  /** Its sectors are outside the FAT copies and none of the other file, so the call has not written to them. */
  twostate lemma BesideSectors(f: File, new g: File)
    requires old(allocated(g)) && Beside(f, g) && g.Base() && Apart(f, g) && |f.fs.disk| == old(|f.fs.disk|)
    ensures forall s: nat :: s < |f.fs.disk| && !Clear(f.fs.geo, g.chain, s) ==>
              f.fs.Logical()[s] == old(f.fs.Logical())[s]
  {
    hide Volume.Valid, Volume.Fat, Volume.Reserved, Volume.Logical, IsChain, Reshaped, ValidGeometry, Clear, Disjoint,
      Away;
    assert |f.Data()| == |f.fs.disk| && |old(f.Data())| == |old(f.fs.disk)|;
    forall s: nat | s < |f.fs.disk| && !Clear(f.fs.geo, g.chain, s)
      ensures f.fs.Logical()[s] == old(f.fs.Logical())[s]
    {
      NotClearOnVolume(f.fs.geo, |f.fs.disk|, g.chain, s);
      OtherSectors(f.fs.geo, f.chain, g.chain, s);
      OtherSectors(f.fs.geo, old(f.chain), g.chain, s);
      assert f.Data()[s] == old(f.Data())[s];
    }
  }

  /** So its buffer shows what it showed of the file. */
  twostate lemma BesideBuffer(f: File, new g: File)
    requires old(allocated(g)) && Beside(f, g) && g.Base() && |f.fs.disk| == old(|f.fs.disk|)
    requires forall s: nat :: s < |f.fs.disk| && !Clear(f.fs.geo, g.chain, s) ==>
              f.fs.Logical()[s] == old(f.fs.Logical())[s]
    ensures g.Core()
  {
    hide Volume.Valid, Volume.Fat, Volume.Reserved, Volume.Logical, IsChain, Reshaped, ValidGeometry, Clear, Disjoint,
      Away, OnlyOwn, SectorsKept, Capacity, Agrees;
    assert g.buf[..] == old(g.buf[..]);
    if g.dsect != 0 && !g.dirty && Clear(g.fs.geo, g.chain, g.dsect) {
      AgreesOff(g.fs.geo, g.chain, g.dsect, g.buf[..], g.fs.Logical()[g.dsect], g.lim);
    }
  }

  /** And its bytes are as they were. */
  twostate lemma BesideBytes(f: File, new g: File)
    requires old(allocated(g)) && Beside(f, g) && old(g.Valid()) && g.Core() && |f.fs.disk| == old(|f.fs.disk|)
    requires forall s: nat :: s < |f.fs.disk| && !Clear(f.fs.geo, g.chain, s) ==>
              f.fs.Logical()[s] == old(f.fs.Logical())[s]
    ensures g.Valid() && PlainOf(g) == old(PlainOf(g))
  {
    hide Volume.Valid, Volume.Fat, Volume.Reserved, Volume.Logical, IsChain, Reshaped, ValidGeometry, Clear, Disjoint,
      Away, OnlyOwn, Content, WellSized, SectorsKept, SectorAt, ClusterAt, Capacity, Agrees;
    assert g.buf[..] == old(g.buf[..]);
    ContentFrame(g.fs.geo, old(g.Data()), g.Data(), g.chain, g.fsize);
  }

  /** Turn the window away from every cluster it is not on, for the time of a call. */
  method TurnAway(f: File, ghost op: Op)
    requires f.Valid()
    modifies f`shy
    ensures f.Valid() && f.shy == Away(f.fs.geo, f.fs.geo.nFatent, f.fs.winsect)
    ensures PlainOf(f) == old(PlainOf(f)) && f.Data() == old(f.Data()) && f.Table() == old(f.Table())
    ensures f.CountExact() == old(f.CountExact()) && (Misleads(f, op) <==> old(Misleads(f, op)))
    ensures f.Spare() == old(f.Spare())
  {
    hide Volume.Valid, Volume.Fat, Volume.Reserved, Volume.Logical, IsChain, ValidGeometry, Clear, Away, Content,
      SectorAt, ClusterAt, Capacity, Agrees, Grow, ClustersFor;
    AwayIsClear(f.fs.geo, f.fs.geo.nFatent, f.fs.winsect);
    f.shy := Away(f.fs.geo, f.fs.geo.nFatent, f.fs.winsect);
  }

  /** A call, with the window kept away from the clusters of other files. */
  method CallAway(f: File, op: Op) returns (reply: Reply)
    requires f.Valid() && Fits(op)
    modifies f.fs`disk, f.fs`wflag, f.fs`winsect, f.fs.win, f.fs`freeClust, f.fs`fsiDirty, f.fs`lastClust
    modifies f`sclust, f`chain, f`clust, f`dirty, f`dsect, f`fptr, f`lim, f`fsize, f`written, f`err, f`owned, f`shy
    modifies f.buf
    ensures Served(f, op, reply) && f.shy == Away(f.fs.geo, f.fs.geo.nFatent, old(f.fs.winsect))
    ensures f.Valid() <==> !old(Misleads(f, op))
  {
    hide File.Core, File.Base, File.Data, File.Table, File.Spare, PlainOf, PlainStep, Reshaped, SectorsKept,
      File.AtPtr, File.Covers, File.CountExact, Clear, RoomOf, Fits, Away, Misleads;
    TurnAway(f, op);
    reply := Call(f, op);
  }

  /** Open files of the volume, each usable, with chains that share no cluster. */
  ghost predicate Together(fs: Volume, files: seq<File>)
    reads fs, fs.win, files, set f | f in files :: f.fs, set f | f in files :: f.fs.win, set f | f in files :: f.buf
  {
    && (forall i :: 0 <= i < |files| ==> files[i].fs == fs && files[i].Valid())
    && (forall i, j :: 0 <= i < |files| && 0 <= j < |files| && i != j ==> Apart(files[i], files[j]))
  }

  /** The call has been served as the plain file would, within the clusters of the file. */
  twostate predicate Served(f: File, op: Op, reply: Reply)
    reads f, f.fs, f.fs.win, f.buf
  {
    && old(f.Valid()) && f.Standing() && Kind(f, op) && f.whole == old(f.whole) && f.Tended() && f.Traced()
    && PlainStep(f.canRead, f.canWrite, old(PlainOf(f)), op, reply, PlainOf(f), RoomOf(f.Table()))
  }

  /** File `g` is as it was, but that its buffer may no longer show all of a sector that is not its own. */
  twostate predicate Undisturbed(g: File)
    reads g, g.fs, g.fs.win, g.buf
  {
    && old(g.Valid()) && g.Valid() && PlainOf(g) == old(PlainOf(g)) && g.chain == old(g.chain)
    && g.owned == old(g.owned) && (g.owned ==> g.whole == old(g.whole))
  }

  lemma OwnBuffer(f: File)
    requires f.Standing()
    ensures f.Core() && f.Base() && f.buf != f.fs.win
  {
    hide Volume.Valid, Volume.Fat, Volume.Reserved, Volume.Logical, IsChain, ValidGeometry, Clear, SectorAt,
      ClusterAt, Capacity, Agrees;
  }

  /** A buffer with a sector that is not its file's is no longer said to show all of it. */
  method Disclaim(fs: Volume, files: seq<File>, k: nat)
    requires Together(fs, files) && k < |files|
    modifies files`whole
    ensures Together(fs, files) && unchanged(files[k])
    ensures forall j :: 0 <= j < |files| && j != k ==> Undisturbed(files[j]) && (files[j].whole ==> files[j].owned)
  {
    hide File.Standing, PlainOf, Disjoint;
    assert forall j :: 0 <= j < |files| && j != k ==> Apart(files[k], files[j]);
    forall j | 0 <= j < |files| && j != k {
      files[j].whole := files[j].whole && files[j].owned;
    }
    forall j | 0 <= j < |files| && j != k ensures Undisturbed(files[j]) {
      Disclaimed(files[j]);
    }
  }

  twostate lemma Disclaimed(g: File)
    requires old(g.Valid()) && (g.whole ==> old(g.whole))
    requires g.fptr == old(g.fptr) && g.fsize == old(g.fsize) && g.sclust == old(g.sclust) && g.clust == old(g.clust)
    requires g.dsect == old(g.dsect) && g.dirty == old(g.dirty) && g.err == old(g.err) && g.chain == old(g.chain)
    requires g.lim == old(g.lim) && g.owned == old(g.owned) && g.shy == old(g.shy)
    requires unchanged(g.fs) && unchanged(g.fs.win) && unchanged(g.buf)
    ensures g.Valid() && PlainOf(g) == old(PlainOf(g))
  {
    hide Volume.Valid, Volume.Fat, Volume.Reserved, Volume.Logical, IsChain, ValidGeometry, Clear, SectorAt,
      ClusterAt, Capacity, Agrees, Content;
    assert g.fs.Valid() && g.fs.Logical() == old(g.fs.Logical()) && g.fs.Fat() == old(g.fs.Fat());
    assert g.buf[..] == old(g.buf[..]);
  }

  /**
   One call on one of the open files. The others are left as they are, whatever their buffers show; the file
   itself stays usable exactly unless the call is an f_lseek past the end that misleads it.
   */
  method CallOn(fs: Volume, files: seq<File>, k: nat, op: Op) returns (reply: Reply)
    requires Together(fs, files) && k < |files| && Fits(op)
    modifies fs`disk, fs`wflag, fs`winsect, fs.win, fs`freeClust, fs`fsiDirty, fs`lastClust
    modifies files`whole, files[k], files[k].buf
    ensures Served(files[k], op, reply)
    ensures forall j :: 0 <= j < |files| && j != k ==> Undisturbed(files[j]) && Apart(files[k], files[j])
    ensures Together(fs, files) <==> !old(Misleads(files[k], op))
  {
    hide File.Core, File.Base, File.Data, File.Table, File.Spare, PlainOf, PlainStep, File.AtPtr, File.Covers,
      File.CountExact, Clear, RoomOf, Fits, Misleads, Disjoint, Reshaped, SectorsKept;
    Disclaim(fs, files, k);
    reply := CallBeside(fs, files, k, op);
  }

  /** The call itself, when no other buffer is said to show all of a sector that is not its file's. */
  method CallBeside(fs: Volume, files: seq<File>, k: nat, op: Op) returns (reply: Reply)
    requires Together(fs, files) && k < |files| && Fits(op)
    requires forall j :: 0 <= j < |files| && j != k && files[j].whole ==> files[j].owned
    modifies fs`disk, fs`wflag, fs`winsect, fs.win, fs`freeClust, fs`fsiDirty, fs`lastClust, files[k], files[k].buf
    ensures Served(files[k], op, reply)
    ensures forall j :: 0 <= j < |files| && j != k ==> Undisturbed(files[j]) && Apart(files[k], files[j])
    ensures Together(fs, files) <==> !old(Misleads(files[k], op))
  {
    hide File.Core, File.Base, File.Data, File.Table, File.Spare, PlainOf, PlainStep, Reshaped, SectorsKept,
      File.AtPtr, File.Covers, File.CountExact, Clear, RoomOf, Fits, Away, Misleads;
    var f := files[k];
    forall j | 0 <= j < |files| ensures files[j].Core() && files[j].buf != fs.win {
      OwnBuffer(files[j]);
    }
    assert forall j :: 0 <= j < |files| && j != k ==> Apart(f, files[j]);
    reply := CallAway(f, op);
    OwnBuffer(f);
    forall j | 0 <= j < |files| && j != k ensures Undisturbed(files[j]) && Apart(f, files[j]) && Apart(files[j], f) {
      assert unchanged(files[j]) && unchanged(files[j].buf);
      assert Beside(f, files[j]);
      BesideShape(f, files[j]);
      BesideBase(f, files[j]);
      BesideSectors(f, files[j]);
      BesideBuffer(f, files[j]);
      BesideBytes(f, files[j]);
      DisjointSym(files[j].chain, f.chain);
    }
  }

  /** The modes of the open files. */
  datatype Mode = Mode(r: bool, w: bool)

  ghost function ModesOf(files: seq<File>): (ms: seq<Mode>)
    ensures |ms| == |files| && forall i :: 0 <= i < |files| ==> ms[i] == Mode(files[i].canRead, files[i].canWrite)
  {
    seq(|files|, i requires 0 <= i < |files| => Mode(files[i].canRead, files[i].canWrite))
  }

  /** Call `op` on file number `file`. */
  datatype On = On(file: nat, op: Op)

  /** One call on a row of plain files: one of them moves, the others do not. */
  ghost predicate RowStep(ms: seq<Mode>, before: seq<Plain>, call: On, reply: Reply, after: seq<Plain>, room: Room) {
    && call.file < |ms| == |before| == |after|
    && PlainStep(ms[call.file].r, ms[call.file].w, before[call.file], call.op, reply, after[call.file], room)
    && forall j :: 0 <= j < |ms| && j != call.file ==> after[j] == before[j]
  }

  ghost predicate RowRun(ms: seq<Mode>, rows: seq<seq<Plain>>, calls: seq<On>, replies: seq<Reply>, rooms: seq<Room>) {
    && |rows| == |calls| + 1 && |replies| == |calls| == |rooms|
    && forall i :: 0 <= i < |calls| ==> RowStep(ms, rows[i], calls[i], replies[i], rows[i + 1], rooms[i])
  }

  /** The open files as plain ones. */
  ghost predicate Row(fs: Volume, files: seq<File>, row: seq<Plain>)
    reads fs, fs.win, files, set f | f in files :: f.fs, set f | f in files :: f.fs.win, set f | f in files :: f.buf
  {
    && Together(fs, files) && |row| == |files|
    && forall i :: 0 <= i < |files| ==> row[i] == PlainOf(files[i])
  }

  /** The buffer shows all of a sector of its own file. */
  ghost predicate Firm(f: File)
    reads f
  {
    f.owned && f.whole
  }

  ghost predicate AllFirm(files: seq<File>)
    reads files
  {
    forall k :: 0 <= k < |files| ==> Firm(files[k])
  }

  ghost function ChainsOf(files: seq<File>): (chs: seq<seq<nat>>)
    reads files
    ensures |chs| == |files| && forall i :: 0 <= i < |files| ==> chs[i] == files[i].chain
  {
    seq(|files|, i requires 0 <= i < |files| reads files => files[i].chain)
  }

  /**
   What calls keep of the volume: reserved entries and bits, a right free count, and the forest of the chains of the
   open files and of the rest of the volume.
   */
  twostate predicate VolumeKept(fs: Volume, files: seq<File>, rest: set<seq<nat>>)
    reads fs, fs.win, files
  {
    && old(fs.Valid()) && fs.Valid()
    && (HasReserved(fs.Fat()) <==> HasReserved(old(fs.Fat())))
    && (old(fs.FreeExact()) ==> fs.FreeExact()) && fs.Careful()
    && (Housed(old(fs.Fat()), old(ChainsOf(files)), rest) ==> Housed(fs.Fat(), ChainsOf(files), rest))
  }

  /**
   One call on one of the open files is one call on a row of plain files. Only f_truncate at a sector boundary
   can leave a buffer with a sector that is not its file's.
   */
  method CallInRow(fs: Volume, files: seq<File>, call: On, ghost row: seq<Plain>, ghost rest: set<seq<nat>>)
    returns (reply: Reply, ghost row': seq<Plain>)
    requires Row(fs, files, row) && call.file < |files| && Fits(call.op) && !Misleads(files[call.file], call.op)
    modifies fs`disk, fs`wflag, fs`winsect, fs.win, fs`freeClust, fs`fsiDirty, fs`lastClust
    modifies files`whole, files[call.file], files[call.file].buf
    ensures Row(fs, files, row') && VolumeKept(fs, files, rest)
    ensures RowStep(ModesOf(files), row, call, reply, row', RoomOf(fs.Fat()))
    ensures forall j :: 0 <= j < |files| && old(Firm(files[j])) ==>
              Firm(files[j]) || (j == call.file && call.op == OpTruncate && old(MayStrand(files[j])))
  {
    hide Row, RowStep, Fits, ModesOf, MayStrand, Volume.Valid, Volume.Fat, Volume.Reserved, Volume.FreeExact,
      HasReserved, Housed, Firm, Misleads, RoomOf, Reshaped;
    reply, row' := CallOnRow(fs, files, call, row);
    var k := call.file;
    ReshapedReserved(old(fs.Fat()), old(files[k].chain), fs.Fat(), files[k].chain);
    assert ChainsOf(files) == old(ChainsOf(files))[k := files[k].chain];
    if Housed(old(fs.Fat()), old(ChainsOf(files)), rest) {
      HousedStep(old(fs.Fat()), old(ChainsOf(files)), rest, k, fs.Fat(), files[k].chain);
    }
  }

  method CallOnRow(fs: Volume, files: seq<File>, call: On, ghost row: seq<Plain>)
    returns (reply: Reply, ghost row': seq<Plain>)
    requires Row(fs, files, row) && call.file < |files| && Fits(call.op) && !Misleads(files[call.file], call.op)
    modifies fs`disk, fs`wflag, fs`winsect, fs.win, fs`freeClust, fs`fsiDirty, fs`lastClust
    modifies files`whole, files[call.file], files[call.file].buf
    ensures Row(fs, files, row') && old(fs.Valid()) && fs.Valid() && (old(fs.FreeExact()) ==> fs.FreeExact())
    ensures fs.Careful()
    ensures Reshaped(old(fs.Fat()), old(files[call.file].chain), fs.Fat(), files[call.file].chain)
    ensures RowStep(ModesOf(files), row, call, reply, row', RoomOf(fs.Fat()))
    ensures forall j :: 0 <= j < |files| && j != call.file ==> files[j].chain == old(files[j].chain)
    ensures forall j :: 0 <= j < |files| && old(Firm(files[j])) ==>
              Firm(files[j]) || (j == call.file && call.op == OpTruncate && old(MayStrand(files[j])))
  {
    hide File.Base, File.Data, File.Table, File.Spare, PlainOf, PlainStep, SectorsKept, Reshaped, RoomOf, Fits,
      Misleads, Disjoint, Clear, File.CountExact, File.Core, File.AtPtr, File.Covers, Volume.Valid, Volume.FreeExact,
      Volume.Fat, Volume.Reserved, MayStrand;
    var f := files[call.file];
    TableIs(f);
    assert forall j :: 0 <= j < |files| && j != call.file ==> Apart(f, files[j]);
    reply := CallOn(fs, files, call.file, call.op);
    TableIs(f);
    row' := row[call.file := PlainOf(f)];
    forall j | 0 <= j < |files| && j != call.file
      ensures row'[j] == PlainOf(files[j]) && files[j].chain == old(files[j].chain)
      ensures old(Firm(files[j])) ==> Firm(files[j])
    {
      assert Undisturbed(files[j]);
    }
  }

  lemma TableIs(f: File)
    requires f.Valid()
    ensures f.Base() && f.fs.Valid() && f.Table() == f.fs.Fat() && (f.CountExact() <==> f.fs.FreeExact())
    ensures f.Spare() == f.fs.Reserved()
  {
    hide Volume.Valid, Volume.Fat, Volume.Reserved, Volume.Logical, IsChain, ValidGeometry, Clear, SectorAt,
      ClusterAt, Capacity, Agrees;
  }

  /** f_lseek behind the end of a file that can be written to. */
  predicate SeeksPast(f: File, op: Op)
    reads f
  {
    op.OpSeek? && f.err == Ok && f.canWrite && f.fsize < op.target
  }

  /** The same, seen on the plain files. */
  ghost predicate PastEnd(ms: seq<Mode>, row: seq<Plain>, call: On) {
    && call.file < |ms| == |row| && call.op.OpSeek? && ms[call.file].w
    && row[call.file].ok && |row[call.file].bytes| < call.op.target
  }

  /** f_truncate that shortens a file at a sector boundary. */
  ghost predicate CutsAtSector(ms: seq<Mode>, row: seq<Plain>, call: On) {
    && call.file < |ms| == |row| && call.op == OpTruncate && ms[call.file].w
    && row[call.file].ok && row[call.file].pos % 512 == 0 && row[call.file].pos < |row[call.file].bytes|
  }

  lemma SeenOnPlain(fs: Volume, files: seq<File>, row: seq<Plain>, call: On)
    requires Row(fs, files, row) && call.file < |files|
    ensures SeeksPast(files[call.file], call.op) <==> PastEnd(ModesOf(files), row, call)
    ensures call.op == OpTruncate && MayStrand(files[call.file]) ==> CutsAtSector(ModesOf(files), row, call)
  {
    hide File.Core, File.Base, File.Table, File.Spare, Content;
  }

  /** Only f_lseek past the end can mislead, and only where the buffer does not show all of its sector. */
  lemma MayCall(fs: Volume, files: seq<File>, row: seq<Plain>, k: nat, op: Op)
    requires Row(fs, files, row) && k < |files| && (SeeksPast(files[k], op) ==> Firm(files[k]))
    ensures !Misleads(files[k], op)
  {
    hide File.Core, File.Base, File.Exposes, File.AtPtr, File.Covers;
    OwnBuffer(files[k]);
    if files[k].whole {
      WholeLeads(files[k], op);
    } else if op.OpSeek? && files[k].ChainIsLegal() && 0 < files[k].fs.geo.csize {
      files[k].ExposesWhen(op.target);
    }
  }

  /** Some call before has truncated file `k` at a sector boundary. */
  ghost predicate WasCut(ms: seq<Mode>, rows: seq<seq<Plain>>, calls: seq<On>, n: nat, k: nat)
    requires n < |rows| && n <= |calls|
  {
    exists i: nat :: i < n && calls[i].file == k && CutsAtSector(ms, rows[i], calls[i])
  }

  lemma CutSince(ms: seq<Mode>, rows: seq<seq<Plain>>, row: seq<Plain>, calls: seq<On>, n: nat, cuts: bool)
    requires |rows| == n + 1 && n < |calls| && (cuts ==> CutsAtSector(ms, rows[n], calls[n]))
    ensures forall k: nat :: WasCut(ms, rows, calls, n, k) ==> WasCut(ms, rows + [row], calls, n + 1, k)
    ensures cuts ==> WasCut(ms, rows + [row], calls, n + 1, calls[n].file)
  {
    hide CutsAtSector;
    forall k: nat | WasCut(ms, rows, calls, n, k) ensures WasCut(ms, rows + [row], calls, n + 1, k) {
      var i: nat :| i < n && calls[i].file == k && CutsAtSector(ms, rows[i], calls[i]);
      assert (rows + [row])[i] == rows[i];
    }
    assert (rows + [row])[n] == rows[n];
  }

  /** One turn of such a run; `cut` are the files truncated at a sector boundary so far. */
  method TurnInRow(fs: Volume, files: seq<File>, calls: seq<On>, n: nat, cut: set<nat>, ghost rows: seq<seq<Plain>>,
                   ghost rest: set<seq<nat>>)
    returns (reply: Reply, cut': set<nat>, ghost row': seq<Plain>)
    requires n < |calls| && |rows| == n + 1 && Row(fs, files, rows[n]) && calls[n].file < |files| && Fits(calls[n].op)
    requires calls[n].file in cut ==> !SeeksPast(files[calls[n].file], calls[n].op)
    requires forall k :: 0 <= k < |files| ==> k in cut || Firm(files[k])
    requires forall k :: k in cut ==> WasCut(ModesOf(files), rows, calls, n, k)
    modifies fs`disk, fs`wflag, fs`winsect, fs.win, fs`freeClust, fs`fsiDirty, fs`lastClust
    modifies files, set f | f in files :: f.buf
    ensures Row(fs, files, row') && VolumeKept(fs, files, rest)
    ensures RowStep(ModesOf(files), rows[n], calls[n], reply, row', RoomOf(fs.Fat()))
    ensures forall k :: 0 <= k < |files| ==> k in cut' || Firm(files[k])
    ensures forall k :: k in cut' ==> WasCut(ModesOf(files), rows + [row'], calls, n + 1, k)
  {
    hide Row, RowStep, Fits, ModesOf, MayStrand, Volume.Valid, Volume.Fat, Volume.Reserved, Volume.FreeExact,
      HasReserved, Housed, SeeksPast, Firm, CutsAtSector, PastEnd, WasCut, VolumeKept, Misleads, RoomOf;
    var k := calls[n].file;
    SeenOnPlain(fs, files, rows[n], calls[n]);
    MayCall(fs, files, rows[n], k, calls[n].op);
    cut' := cut;
    ghost var cuts := calls[n].op == OpTruncate && MayStrand(files[k]);
    if calls[n].op == OpTruncate && MayStrand(files[k]) {
      cut' := cut + {k};
    }
    reply, row' := CallInRow(fs, files, calls[n], rows[n], rest);
    CutSince(ModesOf(files), rows, row', calls, n, cuts);
  }

  /**
   Calls on several open files in any order: each file behaves as a plain byte sequence of its own. The run
   ends early only before an f_lseek past the end of a file that has been truncated at a sector boundary.
   */
  method CallsInRow(fs: Volume, files: seq<File>, calls: seq<On>, ghost row: seq<Plain>, ghost rest: set<seq<nat>>)
    returns (done: nat, replies: seq<Reply>, ghost rows: seq<seq<Plain>>, ghost rooms: seq<Room>)
    requires fs.Valid() && Row(fs, files, row) && AllFirm(files)
    requires forall i :: 0 <= i < |calls| ==> calls[i].file < |files| && Fits(calls[i].op)
    modifies fs`disk, fs`wflag, fs`winsect, fs.win, fs`freeClust, fs`fsiDirty, fs`lastClust
    modifies files, set f | f in files :: f.buf
    ensures done <= |calls| && RowRun(ModesOf(files), rows, calls[..done], replies, rooms)
    ensures |rows| == done + 1 && |rooms| == done
    ensures rows[0] == row && Row(fs, files, rows[done]) && VolumeKept(fs, files, rest)
    ensures forall i :: 0 <= i < done ==> rooms[i].reserved == HasReserved(old(fs.Fat()))
    ensures done < |calls| ==>
              && PastEnd(ModesOf(files), rows[done], calls[done])
              && WasCut(ModesOf(files), rows, calls, done, calls[done].file)
  {
    hide Row, RowStep, Fits, ModesOf, MayStrand, Volume.Valid, Volume.Fat, Volume.Reserved, Volume.FreeExact,
      HasReserved, Housed, RowRun, SeeksPast, Firm, CutsAtSector, PastEnd, WasCut;
    done, replies, rows, rooms := 0, [], [row], [];
    var cut: set<nat> := {};
    RunStart(ModesOf(files), row, calls);
    while done < |calls|
      invariant done <= |calls| && |rows| == done + 1 && |rooms| == done
      invariant RowRun(ModesOf(files), rows, calls[..done], replies, rooms)
      invariant rows[0] == row && Row(fs, files, rows[done]) && VolumeKept(fs, files, rest)
      invariant forall i :: 0 <= i < done ==> rooms[i].reserved == HasReserved(old(fs.Fat()))
      invariant forall k :: 0 <= k < |files| ==> k in cut || Firm(files[k])
      invariant forall k :: k in cut ==> WasCut(ModesOf(files), rows, calls, done, k)
    {
      var k := calls[done].file;
      SeenOnPlain(fs, files, rows[done], calls[done]);
      if k in cut && SeeksPast(files[k], calls[done].op) {
        return;
      }
      var reply;
      ghost var row';
      reply, cut, row' := TurnInRow(fs, files, calls, done, cut, rows, rest);
      ghost var room := RoomOf(fs.Fat());
      RunStep(ModesOf(files), rows, calls, replies, rooms, done, reply, row', room);
      replies, rows, rooms := replies + [reply], rows + [row'], rooms + [room];
      done := done + 1;
    }
  }

  lemma RunStart(ms: seq<Mode>, row: seq<Plain>, calls: seq<On>)
    ensures RowRun(ms, [row], calls[..0], [], [])
  {}

  lemma RunStep(ms: seq<Mode>, rows: seq<seq<Plain>>, calls: seq<On>, replies: seq<Reply>, rooms: seq<Room>, n: nat,
                reply: Reply, row: seq<Plain>, room: Room)
    requires n < |calls| && |rows| == n + 1 && RowRun(ms, rows, calls[..n], replies, rooms)
    requires RowStep(ms, rows[n], calls[n], reply, row, room)
    ensures RowRun(ms, rows + [row], calls[..n + 1], replies + [reply], rooms + [room])
  {
    hide RowStep;
  }

  /** Those of the items that go with the calls on file `k`. */
  ghost function Mine<T>(calls: seq<On>, xs: seq<T>, k: nat): seq<T>
    requires |xs| == |calls|
  {
    if calls == [] then []
    else
      var n := |calls| - 1;
      var before := Mine(calls[..n], xs[..n], k);
      if calls[n].file == k then before + [xs[n]] else before
  }

  ghost function Ops(calls: seq<On>): (ops: seq<Op>)
    ensures |ops| == |calls| && forall i :: 0 <= i < |calls| ==> ops[i] == calls[i].op
  {
    seq(|calls|, i requires 0 <= i < |calls| => calls[i].op)
  }

  /** The states of file `k` between the calls on it. */
  ghost function MyStates(calls: seq<On>, rows: seq<seq<Plain>>, k: nat): (states: seq<Plain>)
    requires |rows| == |calls| + 1 && forall i :: 0 <= i < |rows| ==> k < |rows[i]|
    ensures states != []
  {
    if calls == [] then [rows[0][k]]
    else
      var n := |calls| - 1;
      var before := MyStates(calls[..n], rows[..n + 1], k);
      if calls[n].file == k then before + [rows[n + 1][k]] else before
  }

  /** A run of one file with one more call. */
  lemma PlainRunMore(r: bool, w: bool, states: seq<Plain>, ops: seq<Op>, replies: seq<Reply>, rooms: seq<Room>,
                     op: Op, reply: Reply, after: Plain, room: Room)
    requires PlainRun(r, w, states, ops, replies, rooms) && PlainStep(r, w, states[|ops|], op, reply, after, room)
    ensures PlainRun(r, w, states + [after], ops + [op], replies + [reply], rooms + [room])
  {
    hide PlainStep;
  }

  lemma RowsWide(ms: seq<Mode>, rows: seq<seq<Plain>>, calls: seq<On>, replies: seq<Reply>, rooms: seq<Room>)
    requires RowRun(ms, rows, calls, replies, rooms) && |rows[0]| == |ms|
    ensures forall i :: 0 <= i < |rows| ==> |rows[i]| == |ms|
  {
    hide PlainStep;
    forall i | 0 <= i < |rows| ensures |rows[i]| == |ms| {
      if i > 0 { assert RowStep(ms, rows[i - 1], calls[i - 1], replies[i - 1], rows[i], rooms[i - 1]); }
    }
  }

  /** The calls on file `k` with the last call of all. */
  lemma MineMore<T>(calls: seq<On>, xs: seq<T>, k: nat, n: nat)
    requires |xs| == |calls| == n + 1
    ensures var before := Mine(calls[..n], xs[..n], k);
            Mine(calls, xs, k) == if calls[n].file == k then before + [xs[n]] else before
  {}

  /** File `k` of the row has made this run. */
  ghost predicate RunOfOne(ms: seq<Mode>, rows: seq<seq<Plain>>, calls: seq<On>, replies: seq<Reply>, rooms: seq<Room>,
    k: nat)
    requires |rows| == |calls| + 1 && |replies| == |calls| == |rooms| && k < |ms|
    requires forall i :: 0 <= i < |rows| ==> k < |rows[i]|
  {
    var states, ops := MyStates(calls, rows, k), Mine(calls, Ops(calls), k);
    && PlainRun(ms[k].r, ms[k].w, states, ops, Mine(calls, replies, k), Mine(calls, rooms, k))
    && states[0] == rows[0][k] && states[|ops|] == rows[|calls|][k]
  }

  /** A run of a row of plain files is, for each file, a run of its own with the calls on it. */
  lemma {:induction false} RowRunSplits(ms: seq<Mode>, rows: seq<seq<Plain>>, calls: seq<On>, replies: seq<Reply>,
                                        rooms: seq<Room>, k: nat)
    requires RowRun(ms, rows, calls, replies, rooms) && |rows[0]| == |ms| && k < |ms|
    ensures forall i :: 0 <= i < |rows| ==> |rows[i]| == |ms|
    ensures RunOfOne(ms, rows, calls, replies, rooms, k)
    decreases |calls|
  {
    hide PlainStep, RunOfOne;
    RowsWide(ms, rows, calls, replies, rooms);
    if calls == [] {
      RunOfNone(ms, rows, calls, replies, rooms, k);
    } else {
      var n := |calls| - 1;
      RowRunSplits(ms, rows[..n + 1], calls[..n], replies[..n], rooms[..n], k);
      assert RowStep(ms, rows[n], calls[n], replies[n], rows[n + 1], rooms[n]);
      RunOfMore(ms, rows, calls, replies, rooms, k, n);
    }
  }

  lemma RunOfNone(ms: seq<Mode>, rows: seq<seq<Plain>>, calls: seq<On>, replies: seq<Reply>, rooms: seq<Room>, k: nat)
    requires |rows| == 1 && calls == [] && replies == [] && rooms == [] && k < |ms| && k < |rows[0]|
    ensures RunOfOne(ms, rows, calls, replies, rooms, k)
  {}

  lemma RunOfMore(ms: seq<Mode>, rows: seq<seq<Plain>>, calls: seq<On>, replies: seq<Reply>, rooms: seq<Room>, k: nat,
    n: nat)
    requires |calls| == |replies| == |rooms| == n + 1 && |rows| == n + 2 && k < |ms|
    requires forall i :: 0 <= i < |rows| ==> k < |rows[i]|
    requires RunOfOne(ms, rows[..n + 1], calls[..n], replies[..n], rooms[..n], k)
    requires RowStep(ms, rows[n], calls[n], replies[n], rows[n + 1], rooms[n])
    ensures RunOfOne(ms, rows, calls, replies, rooms, k)
  {
    hide PlainStep, Mine, PlainRun;
    assert Ops(calls)[..n] == Ops(calls[..n]);
    MineMore(calls, Ops(calls), k, n);
    MineMore(calls, replies, k, n);
    MineMore(calls, rooms, k, n);
    assert rows[..n + 1][n] == rows[n];
    RunLength(ms[k], MyStates(calls[..n], rows[..n + 1], k), Mine(calls[..n], Ops(calls[..n]), k),
              Mine(calls[..n], replies[..n], k), Mine(calls[..n], rooms[..n], k));
    if calls[n].file == k {
      PlainRunMore(ms[k].r, ms[k].w, MyStates(calls[..n], rows[..n + 1], k), Mine(calls[..n], Ops(calls[..n]), k),
                   Mine(calls[..n], replies[..n], k), Mine(calls[..n], rooms[..n], k),
                   calls[n].op, replies[n], rows[n + 1][k], rooms[n]);
    }
  }

  lemma RunLength(m: Mode, states: seq<Plain>, ops: seq<Op>, replies: seq<Reply>, rooms: seq<Room>)
    requires PlainRun(m.r, m.w, states, ops, replies, rooms)
    ensures |states| == |ops| + 1
  {}
}
