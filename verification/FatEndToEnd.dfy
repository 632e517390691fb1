/**
 From an unformatted medium to runs of calls on open files: f_mkfs, the mount, f_open of new files and
 any calls on them.
 */
module FatEndToEnd {
  import opened FatLayout
  import opened FatChains
  import opened FatMount
  import opened FatFormat
  import opened FatFormatSpec
  import opened FatNewVolume
  import opened FatVolume
  import opened FatFileSpec
  import opened FatFile
  import opened FatReshape
  import opened FatFileRun
  import opened FatOpenFiles
  import opened FatStranded
  import opened FatMappedFile
  import opened FatSync
  import opened FatDurable

  /** The chains of a volume without files: that of the root directory on FAT32, and none else. */
  ghost function RootChains(t: FatType): set<seq<nat>> {
    if t.Fat32? then {[2]} else {}
  }

  /** A plain file that has just been created. */
  const NEW := Plain([], 0, true)

  /** A new file on a volume. */
  method NewFile(fs: Volume) returns (f: File)
    requires fs.Valid()
    ensures fresh(f) && fresh(f.buf) && f.fs == fs && f.canRead && f.canWrite && f.chain == [] && Firm(f)
    ensures !f.written && !f.dirty && f.shy == []
    ensures f.Valid() && PlainOf(f) == NEW
  {
    hide Volume.Fat, Volume.Reserved, Volume.Logical, IsChain, ValidGeometry;
    f := new File.Open(fs, 0, 0, true, true, []);
  }

  lemma NewVolumeForest(fs: Volume)
    requires fs.Valid() && IsNew(fs.geo, fs.Fat())
    ensures Forest(fs.Fat(), RootChains(fs.geo.fsType)) && !HasReserved(fs.Fat())
  {
    ForestHasNoReserved(fs.Fat(), RootChains(fs.geo.fsType));
  }

  /** Where no entry is reserved, every call on a file opened for both reading and writing succeeds. */
  lemma {:induction false} NeverFails(states: seq<Plain>, ops: seq<Op>, replies: seq<Reply>, rooms: seq<Room>, n: nat)
    requires PlainRun(true, true, states, ops, replies, rooms) && states[0].ok && n <= |ops|
    requires forall i :: 0 <= i < |ops| ==> !rooms[i].reserved
    ensures states[n].ok && forall i :: 0 <= i < n ==> replies[i].res == Ok
  {
    if n > 0 {
      NeverFails(states, ops, replies, rooms, n - 1);
      assert PlainStep(true, true, states[n - 1], ops[n - 1], replies[n - 1], states[n], rooms[n - 1]);
    }
  }

  /**
   f_mkfs on any medium, the mount, a new file and any calls on it. There is a file exactly if the layout
   leaves a cluster; then every call succeeds and does what it does to a plain byte sequence, and the
   volume ends with the chains of the root directory and of the file, and a right free count.
   */
  method UseNewVolume(img: Image, nVol: nat, sfd: bool, au: nat, n: nat, serial: nat, ops: seq<Op>)
    returns (f: File?, replies: seq<Reply>, ghost states: seq<Plain>, ghost rooms: seq<Room>)
    requires forall s :: 0 <= s < |img| ==> |img[s]| == 512
    requires Formattable(nVol, if sfd then 0 else 63, au, n) && |img| == (if sfd then 0 else 63) + nVol
    requires forall i :: 0 <= i < |ops| ==> Fits(ops[i])
    ensures f != null <==> 128 <= |img| && LeavesCluster(nVol, if sfd then 0 else 63, au, n)
    ensures f != null ==>
              && fresh(f) && f.Valid() && PlainRun(true, true, states, ops, replies, rooms)
              && states[0] == NEW && states[|ops|] == PlainOf(f) && forall i :: 0 <= i < |ops| ==> replies[i].res == Ok
    ensures f != null ==>
              && f.Base() && f.CountExact()
              && Forest(f.Table(), Replaced(RootChains(f.fs.geo.fsType), [], f.chain))
  {
    hide LeavesCluster, NewGeometry, IsNew, EmptyRoot, PlainStep, Forest, Volume.Fat, Volume.Reserved, File.Core,
      File.Table, File.Spare, File.CountExact, HasReserved, PlainOf, Reshaped, Fits;
    replies, states, rooms, f := [], [], [], null;
    var res, fs := FormatAndMount(img, nVol, sfd, au, n, serial);
    if fs == null {
      return;
    }
    NewVolumeForest(fs);
    f := NewFile(fs);
    TableIs(f);
    replies, states, rooms := Calls(f, ops, RootChains(fs.geo.fsType));
    OwnBuffer(f);
    NeverFails(states, ops, replies, rooms, |ops|);
  }

  /** The first entry of the root directory of a new volume. */
  function RootEntry(g: Geometry): nat {
    g.fatbase + g.fsize
  }

  /** Where the root directory is: before the data area, or in the first cluster. */
  lemma RootPlace(nVol: nat, bVol: nat, au: nat, n: nat)
    requires Formattable(nVol, bVol, au, n)
    ensures var g := NewGeometry(nVol, bVol, au, n);
            g.nFats == 1 && RootEntry(g) == if g.fsType.Fat32? then g.database else g.database - 32
  {
    hide DataStart, FatFor, PowerOfTwo;
  }

  lemma ZeroEntry(t: FatType, sec: Sector)
    requires |sec| == 512 && forall i :: 0 <= i < 512 ==> sec[i] == 0
    ensures SizeIn(sec, 0) == 0 && StartOf(t, sec, 0) == 0
  {
    hide Word, Dword;
    ZeroWord(sec, 20);
    ZeroWord(sec, 26);
    ZeroWord(sec, 28);
  }

  lemma ZeroWord(sec: Sector, o: nat)
    requires o + 4 <= |sec| && forall i :: o <= i < o + 4 ==> sec[i] == 0
    ensures Word(sec, o) == 0 && Dword(sec, o) == 0
  {}

  /** A new file with the first entry of the root directory is on the medium as it is: empty. */
  lemma NewIsStored(f: File)
    requires f.Valid() && f.chain == [] && f.fsize == 0 && !f.dirty && f.shy == []
    requires IsNew(f.fs.geo, f.fs.Fat()) && EmptyRoot(f.fs) && f.fs.geo.nFats == 1
    requires RootEntry(f.fs.geo) == if f.fs.geo.fsType.Fat32? then f.fs.geo.database else f.fs.geo.database - 32
    ensures HasEntry(f, RootEntry(f.fs.geo), 0) && IsStored(f, RootEntry(f.fs.geo), 0)
  {
    hide Volume.Logical, FatBytes, Entries, Forest, FreeSet, Clear, Mirrored, SizeIn, StartOf, ZeroSector, OnMedium;
    var g, s := f.fs.geo, RootEntry(f.fs.geo);
    NewOnMedium(g, f.fs.disk, s);
    if g.fsType.Fat32? {
      assert InUseElsewhere(g, f.fs.Fat(), [], s, 2);
    }
  }

  /** An empty file with an entry of zeros is on the medium. */
  lemma NewOnMedium(g: Geometry, disk: Image, s: nat)
    requires ValidGeometry(g, |disk|) && WellSized(g, disk) && Mirrored(g, disk)
    requires s < |disk| && disk[s] == ZeroSector()
    ensures OnMedium(g, disk, s, 0, [], TableOf(g, disk), [])
  {
    hide ValidGeometry, WellSized, Mirrored, TableOf, SizeIn, StartOf, ZeroSector;
    ZeroEntry(g.fsType, ZeroSector());
  }

  /**
   f_mkfs on any medium, the mount, a new file in the root directory, any calls on it, f_sync, a second mount and
   f_open: the file has the bytes the calls have left, whatever they were.
   */
  method KeptOnNewVolume(img: Image, nVol: nat, sfd: bool, au: nat, n: nat, serial: nat, ops: seq<Op>, tm: nat,
                         free: nat, last: nat)
    returns (g: File?, replies: seq<Reply>, ghost states: seq<Plain>, ghost rooms: seq<Room>)
    requires forall s :: 0 <= s < |img| ==> |img[s]| == 512
    requires Formattable(nVol, if sfd then 0 else 63, au, n) && |img| == (if sfd then 0 else 63) + nVol
    requires forall i :: 0 <= i < |ops| ==> Fits(ops[i])
    ensures g != null <==> 128 <= |img| && LeavesCluster(nVol, if sfd then 0 else 63, au, n)
    ensures g != null ==>
              && PlainRun(true, true, states, ops, replies, rooms) && states[0] == NEW
              && (forall i :: 0 <= i < |ops| ==> replies[i].res == Ok)
              && fresh(g) && g.Valid() && PlainOf(g) == Plain(states[|ops|].bytes, 0, true)
  {
    hide LeavesCluster, NewGeometry, IsNew, EmptyRoot, PlainStep, Forest, Volume.Fat, Volume.Reserved, File.Core,
      File.Table, File.Spare, HasReserved, Reshaped, Fits, Formattable, IsStored, HasEntry, File.Covers, Volume.Valid,
      File.Data, Content;
    replies, states, rooms, g := [], [], [], null;
    var res, fs := FormatAndMount(img, nVol, sfd, au, n, serial);
    if fs == null {
      return;
    }
    NewVolumeForest(fs);
    RootPlace(nVol, if sfd then 0 else 63, au, n);
    var f := NewFile(fs);
    TableIs(f);
    NewIsStored(f);
    g, replies, states, rooms := CallsThenReopen(f, ops, RootEntry(fs.geo), 0, tm, free, last);
    NeverFails(states, ops, replies, rooms, |ops|);
  }

  /** Some new files on a new volume. */
  method NewFiles(fs: Volume, k: nat) returns (files: seq<File>, ghost row: seq<Plain>)
    requires fs.Valid()
    ensures |files| == k && Row(fs, files, row) && AllFirm(files) && forall i :: 0 <= i < k ==> row[i] == NEW
    ensures forall i :: 0 <= i < k ==>
              fresh(files[i]) && fresh(files[i].buf) && files[i].canRead && files[i].canWrite && files[i].chain == []
  {
    hide Volume.Valid, Row, File.Valid, PlainOf;
    files, row := [], [];
    RowOfNone(fs);
    while |files| < k
      invariant fs.Valid() && |files| == |row| <= k && Row(fs, files, row) && AllFirm(files)
      invariant forall i :: 0 <= i < |files| ==> row[i] == NEW
      invariant forall i :: 0 <= i < |files| ==>
                  fresh(files[i]) && fresh(files[i].buf) && files[i].canRead && files[i].canWrite &&
                    files[i].chain == []
      decreases k - |files|
    {
      var f := NewFile(fs);
      RowOfMore(fs, files, row, f);
      files, row := files + [f], row + [NEW];
    }
  }

  lemma RowOfNone(fs: Volume)
    ensures Row(fs, [], [])
  {}

  lemma RowOfMore(fs: Volume, files: seq<File>, row: seq<Plain>, f: File)
    requires Row(fs, files, row) && f.fs == fs && f.Valid() && f.chain == [] && PlainOf(f) == NEW
    requires forall i :: 0 <= i < |files| ==> files[i] != f && files[i].buf != f.buf && files[i].chain == []
    ensures Row(fs, files + [f], row + [NEW])
  {
    hide File.Valid, PlainOf;
  }

  lemma NoneHoused(fat: seq<nat>, chs: seq<seq<nat>>, rest: set<seq<nat>>)
    requires Forest(fat, rest) && forall i :: 0 <= i < |chs| ==> chs[i] == []
    ensures Housed(fat, chs, rest)
  {
    assert ChainSet(chs) == {};
    assert rest + ChainSet(chs) == rest;
  }

  /**
   The same with `k` new files and calls on them in any order, up to the first f_lseek past the end of a file
   that was truncated at a sector boundary: each file is a plain byte sequence of its own, and no call meets a
   reserved entry.
   */
  method UseNewFiles(img: Image, nVol: nat, sfd: bool, au: nat, n: nat, serial: nat, k: nat, calls: seq<On>)
    returns (fs: Volume?, files: seq<File>, done: nat, replies: seq<Reply>, ghost rows: seq<seq<Plain>>,
      ghost rooms: seq<Room>)
    requires forall s :: 0 <= s < |img| ==> |img[s]| == 512
    requires Formattable(nVol, if sfd then 0 else 63, au, n) && |img| == (if sfd then 0 else 63) + nVol
    requires forall i :: 0 <= i < |calls| ==> calls[i].file < k && Fits(calls[i].op)
    ensures fs != null <==> 128 <= |img| && LeavesCluster(nVol, if sfd then 0 else 63, au, n)
    ensures fs != null ==>
              && |files| == k && done <= |calls| && RowRun(ModesOf(files), rows, calls[..done], replies, rooms)
              && |rows| == done + 1 && rows[0] == seq(k, _ => NEW) && Row(fs, files, rows[done])
              && (done < |calls| ==>
                    && PastEnd(ModesOf(files), rows[done], calls[done])
                    && WasCut(ModesOf(files), rows, calls, done, calls[done].file))
              && forall i :: 0 <= i < done ==> !rooms[i].reserved
    ensures fs != null ==>
              fs.Valid() && fs.FreeExact() && Housed(fs.Fat(), ChainsOf(files), RootChains(fs.geo.fsType))
  {
    hide LeavesCluster, NewGeometry, IsNew, EmptyRoot, RowRun, RowStep, Forest, Volume.Fat, Volume.Reserved,
      Volume.FreeExact, Volume.Valid, HasReserved, Row, AllFirm, Fits, Housed, PastEnd, WasCut, ModesOf;
    files, done, replies, rows, rooms := [], 0, [], [], [];
    var res, vol := FormatAndMount(img, nVol, sfd, au, n, serial);
    fs := vol;
    if fs == null {
      return;
    }
    NewVolumeForest(fs);
    ghost var row;
    files, row := NewFiles(fs, k);
    assert row == seq(k, _ => NEW) by { RowLength(fs, files, row); }
    NoneHoused(fs.Fat(), ChainsOf(files), RootChains(fs.geo.fsType));
    done, replies, rows, rooms := CallsInRow(fs, files, calls, row, RootChains(fs.geo.fsType));
  }

  lemma RowLength(fs: Volume, files: seq<File>, row: seq<Plain>)
    requires Row(fs, files, row)
    ensures |row| == |files|
  {}

  /** A medium of 128 sectors, formatted with one cluster, on which a byte is read as 1 and then as 0. */
  method TwoAnswersOnNewVolume(img: Image, serial: nat) returns (first: seq<Byte>, second: seq<Byte>)
    requires |img| == 128 && forall s :: 0 <= s < |img| ==> |img[s]| == 512
    ensures first == [1] && second == [0]
  {
    hide LeavesCluster, NewGeometry, CanFormat, Formattable, ValidGeometry, Volume.Fat, Volume.Reserved, Volume.Valid;
    OneClusterVolume();
    var res, fs := FormatAndMount(img, 128, true, 64, 1, serial);
    OnlyFree(fs);
    first, second := TwoAnswers(fs);
  }

  /** The same medium, and a link map made of a new file before the first byte is written to it. */
  method MapTooEarlyOnNewVolume(img: Image, serial: nat) returns (res: FResult)
    requires |img| == 128 && forall s :: 0 <= s < |img| ==> |img[s]| == 512
    ensures res == IntErr
  {
    hide LeavesCluster, NewGeometry, CanFormat, Formattable, ValidGeometry, Volume.Fat, Volume.Reserved, Volume.Valid,
      HasReserved, File.Base, File.Table, File.Spare;
    OneClusterVolume();
    var done, fs := FormatAndMount(img, 128, true, 64, 1, serial);
    OnlyFree(fs);
    NewVolumeForest(fs);
    var f := OpenEmpty(fs);
    TableIs(f);
    assert 2 in FreeSet(f.Table());
    var cltbl := new nat[2](_ => 2);
    res := MapTooEarly(f, cltbl);
  }

  lemma OnlyFree(fs: Volume)
    requires fs.Valid() && IsNew(fs.geo, fs.Fat()) && fs.geo.nFatent == 3 && fs.geo.fsType.Fat12?
    ensures |fs.Fat()| == 3 && fs.Fat()[2] == 0
  {
    hide Volume.Logical, Forest, FreeSet;
  }
}
