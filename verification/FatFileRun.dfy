/**
 Whole runs of calls on one open file, against a machine that only has a byte sequence and
 a position.
 */
module FatFileRun {
  import opened Bounds
  import opened FatLayout
  import opened FatChains
  import opened FatVolume
  import opened FatFileSpec
  import opened FatReshape
  import opened FatFile

  datatype Op = OpRead(n: nat) | OpWrite(data: seq<Byte>) | OpSeek(target: nat) | OpTruncate

  datatype Reply = Reply(res: FResult, data: seq<Byte>, count: nat)

  /** A file that is nothing but its bytes and a position in them, until an internal error ends its use. */
  datatype Plain = Plain(bytes: seq<Byte>, pos: nat, ok: bool)

  /** All a file sees of its volume: no cluster is free, or some entry of the table is reserved. */
  datatype Room = Room(full: bool, reserved: bool)

  ghost function RoomOf(fat: seq<nat>): Room {
    Room(FreeSet(fat) == {}, HasReserved(fat))
  }

  /** Parameters are 32 bits wide. */
  predicate Fits(op: Op) {
    match op
    case OpWrite(data) => |data| < TWO32
    case OpSeek(target) => target < TWO32
    case _ => true
  }

  /**
   One call on a plain file opened for reading (`r`), writing (`w`) or both; `room` is what the call
   leaves of the volume. A write or a seek falls short of its target only on a full volume, or when
   the file would reach 4 GB, and fails only where an entry is reserved.
   */
  ghost predicate PlainStep(r: bool, w: bool, before: Plain, op: Op, reply: Reply, after: Plain, room: Room) {
    if !before.ok then reply == Reply(IntErr, [], 0) && after == before
    else
      && before.pos <= |before.bytes|
      && match op {
           case OpRead(n) =>
             if r then
               var m := Least(n, |before.bytes| - before.pos);
               && reply == Reply(Ok, before.bytes[before.pos..before.pos + m], m)
               && after == before.(pos := before.pos + m)
             else reply == Reply(Denied, [], 0) && after == before
           case OpWrite(data) =>
             if w then
               && reply.count <= |data| && reply.data == []
               && (before.pos + |data| >= TWO32 ==> reply.count == 0)
               && var all := Splice(before.bytes, before.pos, data[..reply.count]);
               || (&& reply.res == Ok && after == Plain(all, before.pos + reply.count, true)
                   && (reply.count < |data| && before.pos + |data| < TWO32 ==> room.full))
               || (&& reply.res == IntErr && room.reserved
                   && after == Plain(all[..|before.bytes|], before.pos + reply.count, false))
             else reply == Reply(Denied, [], 0) && after == before
           case OpSeek(target) =>
             && reply.data == [] && reply.count == 0
             && if target <= |before.bytes| then reply.res == Ok && after == before.(pos := target)
                else if !w then reply.res == Ok && after == before.(pos := |before.bytes|)
                else
                  || (&& reply.res == Ok && after.ok && before.bytes <= after.bytes
                      && |before.bytes| <= after.pos == |after.bytes| <= target && (after.pos < target ==> room.full))
                  || (reply.res == IntErr && room.reserved && !after.ok && after.bytes == before.bytes)
           case OpTruncate =>
             && reply.data == [] && reply.count == 0
             && if w then reply.res == Ok && after == before.(bytes := before.bytes[..before.pos])
                else reply.res == Denied && after == before
         }
  }

  /** A run: the states between the calls, the calls, their replies and what each leaves of the volume. */
  ghost predicate PlainRun(r: bool, w: bool, states: seq<Plain>, ops: seq<Op>, replies: seq<Reply>, rooms: seq<Room>) {
    && |states| == |ops| + 1 && |replies| == |ops| == |rooms|
    && forall i :: 0 <= i < |ops| ==> PlainStep(r, w, states[i], ops[i], replies[i], states[i + 1], rooms[i])
  }

  /** What an open file is as a plain one. */
  ghost function PlainOf(f: File): Plain
    reads f, f.fs, f.fs.win, f.buf
    requires f.Standing()
  {
    Plain(f.Contents(f.fsize), f.fptr, f.err == Ok)
  }

  /** The call has given the chain of the file another shape and written to the sectors of the file, and no more. */
  twostate predicate OnlyOwn(f: File)
    reads f, f.fs, f.fs.win, f.buf
    requires old(f.Base()) && f.Base()
  {
    && old(f.ChainIsLegal()) && f.ChainIsLegal()
    && Reshaped(old(f.Table()), old(f.chain), f.Table(), f.chain)
    && SectorsKept(f.fs.geo, old(f.Data()), old(f.chain), f.Data(), f.chain)
  }

  twostate lemma OwnByGrowth(f: File)
    requires old(f.Core()) && f.Core() && f.OnlyGrown()
    ensures OnlyOwn(f)
  {
    hide File.Core, File.Base, File.Data, File.Table, File.Spare, OthersKept, IsChain, Clear, ChainGrown, Reshaped;
    OldChain(f);
    ThisChain(f);
    ReshapedByGrowth(old(f.Table()), old(f.chain), f.Table(), f.chain);
    KeptByGrowth(f.fs.geo, old(f.Data()), old(f.chain), f.Data(), f.chain);
  }

  lemma KeptByGrowth(g: Geometry, img: Image, ch: seq<nat>, img': Image, ch': seq<nat>)
    requires forall i :: 0 <= i < |ch| ==> 2 <= ch[i]
    requires (forall i :: 0 <= i < |ch'| ==> 2 <= ch'[i]) && OthersKept(g, img, img', ch')
    ensures SectorsKept(g, img, ch, img', ch')
  {}

  twostate lemma OwnByNothing(f: File)
    requires old(f.Core()) && f.Core() && f.chain == old(f.chain) && f.Table() == old(f.Table()) &&
              f.Data() == old(f.Data())
    ensures OnlyOwn(f)
  {
    hide File.Core, File.Base, File.Data, File.Table, File.Spare, IsChain, Clear, Reshaped;
    OldChain(f);
    ThisChain(f);
    ReshapedReflexive(f.Table(), f.chain);
  }

  twostate lemma OwnByCut(f: File, new k: nat)
    requires old(f.Core()) && f.Core() && f.CutAt(k)
    ensures OnlyOwn(f)
  {
    hide File.Core, File.Base, File.Data, File.Table, File.Spare, IsChain, Clear, Reshaped, Cut, Kept, SameOutsideFat;
    OldChain(f);
    ThisChain(f);
    MarkEnds(f);
    ReshapedByCut(old(f.Table()), old(f.chain), k, Kept(f.fs.geo.fsType, END_OF_CHAIN));
    KeptByCut(f.fs.geo, old(f.Data()), old(f.chain), f.Data(), f.chain);
  }

  lemma KeptByCut(g: Geometry, img: Image, ch: seq<nat>, img': Image, ch': seq<nat>)
    requires forall i :: 0 <= i < |ch| ==> 2 <= ch[i]
    requires (forall i :: 0 <= i < |ch'| ==> 2 <= ch'[i]) && SameOutsideFat(g, img', img)
    ensures SectorsKept(g, img, ch, img', ch')
  {}

  lemma ThisChain(f: File)
    requires f.Core()
    ensures f.ChainIsLegal() && (f.chain == [] || IsChain(f.Table(), f.chain))
  {
    hide Volume.Valid, Volume.Fat, Volume.Reserved, Volume.Logical, IsChain, Clear;
  }

  twostate lemma OldChain(f: File)
    requires old(f.Core())
    ensures old(f.ChainIsLegal()) && (old(f.chain) == [] || IsChain(old(f.Table()), old(f.chain)))
  {
    hide Volume.Valid, Volume.Fat, Volume.Reserved, Volume.Logical, IsChain, Clear;
  }

  lemma MarkEnds(f: File)
    requires f.Core()
    ensures Kept(f.fs.geo.fsType, END_OF_CHAIN) >= |f.Table()|
  {
    hide Volume.Valid, Volume.Fat, Volume.Reserved, Volume.Logical, IsChain, Clear, Kept;
    f.fs.GeometryFacts();
  }

  /** f_lseek past the end that takes in bytes of the buffered sector which the buffer does not show. */
  ghost predicate Misleads(f: File, op: Op)
    reads f, f.fs, f.fs.win, f.buf
  {
    f.Base() && f.ChainIsLegal() && 0 < f.fs.geo.csize && op.OpSeek? && f.Exposes(op.target)
  }

  /** A buffer that shows all of its sector does not mislead. */
  lemma WholeLeads(f: File, op: Op)
    requires f.Core() && f.whole
    ensures !Misleads(f, op)
  {
    hide File.Core, File.Base, File.Exposes;
    if op.OpSeek? && f.ChainIsLegal() && 0 < f.fs.geo.csize {
      f.WholeIsSafe(op.target);
    }
  }

  /** f_truncate would free clusters while the buffer need not show the sector of the file pointer. */
  predicate MayStrand(f: File)
    reads f
  {
    f.err == Ok && f.canWrite && f.fptr < f.fsize && f.fptr % 512 == 0 && f.dsect != 0
  }

  /** Inside a sector the buffer shows a sector of the file. */
  lemma BufferAtPtr(f: File)
    requires f.Steady() && f.ChainIsLegal() && f.fptr % 512 != 0
    ensures !Clear(f.fs.geo, f.chain, f.dsect)
  {
    hide Volume.Valid, Volume.Fat, Volume.Reserved, Volume.Logical, IsChain, Clear, ClusterAt, SectorAt;
    f.CoversSector(f.fptr - 1, 2);
    f.PartCovered(f.fptr);
  }

  /**
   What every call keeps beside the bytes of the file. Only f_truncate at a sector boundary can leave
   the buffer with a sector that is no longer the file's.
   */
  twostate predicate Kind(f: File, op: Op)
    reads f, f.fs, f.fs.win, f.buf
    requires old(f.Base()) && f.Base()
  {
    && OnlyOwn(f) && (old(f.CountExact()) ==> f.CountExact())
    && (f.owned ==> old(f.owned))
    && (!f.owned && old(f.owned) ==>
          op == OpTruncate && old(MayStrand(f)) && f.dsect != 0 && Clear(f.fs.geo, f.chain, f.dsect))
  }

  method CallRead(f: File, n: nat) returns (reply: Reply)
    requires f.Valid()
    modifies f.fs`disk, f.fs`wflag, f.fs`winsect, f.fs.win, f.fs`freeClust, f.fs`fsiDirty, f.fs`lastClust
    modifies f`sclust, f`chain, f`clust, f`dirty, f`dsect, f`fptr, f`lim, f`fsize, f`written, f`err, f`owned, f.buf
    ensures f.Valid() && Kind(f, OpRead(n))
    ensures PlainStep(f.canRead, f.canWrite, old(PlainOf(f)), OpRead(n), reply, PlainOf(f), RoomOf(f.Table()))
    ensures f.Tended() && f.Traced()
  {
    hide File.Tended, File.Traced, File.Core, File.Base, File.Data, File.Table, File.Spare, Content, HasReserved,
      OnlyOwn, File.AtPtr, File.Covers, Splice, Clear;
    var res, data := f.Read(n);
    reply := Reply(res, data, |data|);
    OwnByNothing(f);
  }

  method CallWrite(f: File, data: seq<Byte>) returns (reply: Reply)
    requires f.Valid() && |data| < TWO32
    modifies f.fs`disk, f.fs`wflag, f.fs`winsect, f.fs.win, f.fs`freeClust, f.fs`fsiDirty, f.fs`lastClust
    modifies f`sclust, f`chain, f`clust, f`dirty, f`dsect, f`fptr, f`lim, f`fsize, f`written, f`err, f`owned, f.buf
    ensures f.Valid() && Kind(f, OpWrite(data))
    ensures PlainStep(f.canRead, f.canWrite, old(PlainOf(f)), OpWrite(data), reply, PlainOf(f), RoomOf(f.Table()))
    ensures f.Tended() && f.Traced()
  {
    hide File.Tended, File.Traced, File.Core, File.Base, File.Data, File.Table, File.Spare, Content, HasReserved,
      OnlyOwn, File.AtPtr, File.Covers, Splice, Clear, OthersKept, ChainGrown;
    var res, bw := f.Write(data);
    reply := Reply(res, [], bw);
    if res == IntErr && old(f.err) == Ok {
      f.ContentsPrefix(f.fsize, Max(f.fptr, f.fsize));
    }
    OwnByGrowth(f);
  }

  method CallSeek(f: File, target: nat) returns (reply: Reply)
    requires f.Valid() && target < TWO32
    modifies f.fs`disk, f.fs`wflag, f.fs`winsect, f.fs.win, f.fs`freeClust, f.fs`fsiDirty, f.fs`lastClust
    modifies f`sclust, f`chain, f`clust, f`dirty, f`dsect, f`fptr, f`lim, f`fsize, f`written, f`err, f`owned, f.buf
    ensures f.Standing() && Kind(f, OpSeek(target)) && (f.Valid() <==> !old(Misleads(f, OpSeek(target))))
    ensures PlainStep(f.canRead, f.canWrite, old(PlainOf(f)), OpSeek(target), reply, PlainOf(f), RoomOf(f.Table()))
    ensures f.Tended() && f.Traced()
  {
    hide File.Tended, File.Traced, File.Core, File.Base, File.Data, File.Table, File.Spare, Content, HasReserved,
      OnlyOwn, File.AtPtr, Splice, Clear, OthersKept, ChainGrown, Capacity, File.Exposes, SameOutsideFat,
      File.BufferMoved, File.Right;
    var res := f.Lseek(target);
    reply := Reply(res, [], 0);
    if res == Ok {
      f.ContentsPrefix(old(f.fsize), f.fsize);
    }
    OwnByGrowth(f);
  }

  method CallTruncate(f: File) returns (reply: Reply)
    requires f.Valid()
    modifies f.fs`disk, f.fs`wflag, f.fs`winsect, f.fs.win, f.fs`freeClust, f.fs`fsiDirty, f.fs`lastClust
    modifies f`sclust, f`chain, f`clust, f`dirty, f`dsect, f`fptr, f`lim, f`fsize, f`written, f`err, f`owned, f.buf
    ensures f.Valid() && Kind(f, OpTruncate)
    ensures PlainStep(f.canRead, f.canWrite, old(PlainOf(f)), OpTruncate, reply, PlainOf(f), RoomOf(f.Table()))
    ensures f.Tended() && f.Traced()
  {
    hide File.Tended, File.Traced, File.Core, File.Base, File.Data, File.Table, File.Spare, Content, HasReserved,
      OnlyOwn, File.AtPtr, File.Covers, Splice, Clear, File.CutAt, ClustersFor;
    ThisChain(f);
    f.OwnedMeans();
    var res := f.Truncate();
    reply := Reply(res, [], 0);
    if f.err == Ok && f.fptr % 512 != 0 {
      BufferAtPtr(f);
    }
    if f.err == Ok && f.canWrite && f.fptr < old(f.fsize) {
      OwnByCut(f, ClustersFor(f.fs.geo, f.fptr));
    } else {
      OwnByNothing(f);
    }
  }

  /** One call on the open file is one call on the plain file. */
  method Call(f: File, op: Op) returns (reply: Reply)
    requires f.Valid() && Fits(op)
    modifies f.fs`disk, f.fs`wflag, f.fs`winsect, f.fs.win, f.fs`freeClust, f.fs`fsiDirty, f.fs`lastClust
    modifies f`sclust, f`chain, f`clust, f`dirty, f`dsect, f`fptr, f`lim, f`fsize, f`written, f`err, f`owned, f.buf
    ensures f.Standing() && Kind(f, op) && (f.Valid() <==> !old(Misleads(f, op)))
    ensures PlainStep(f.canRead, f.canWrite, old(PlainOf(f)), op, reply, PlainOf(f), RoomOf(f.Table()))
    ensures f.Tended() && f.Traced()
  {
    hide File.Standing, PlainOf, PlainStep, Kind, File.Base, File.Table, File.Spare, File.Exposes, File.Tended,
      File.Traced;
    match op {
      case OpRead(n) => reply := CallRead(f, n);
      case OpWrite(data) => reply := CallWrite(f, data);
      case OpSeek(target) => reply := CallSeek(f, target);
      case OpTruncate => reply := CallTruncate(f);
    }
  }

  /**
   Any sequence of calls on an open file is a run of a plain byte sequence. On the volume it only gives
   the chain of the file another shape: a forest stays a forest, and a right free count stays right.
   */
  method Calls(f: File, ops: seq<Op>, ghost chains: set<seq<nat>>)
    returns (replies: seq<Reply>, ghost states: seq<Plain>, ghost rooms: seq<Room>)
    requires f.Valid() && f.whole && forall i :: 0 <= i < |ops| ==> Fits(ops[i])
    modifies f.fs`disk, f.fs`wflag, f.fs`winsect, f.fs.win, f.fs`freeClust, f.fs`fsiDirty, f.fs`lastClust
    modifies f`sclust, f`chain, f`clust, f`dirty, f`dsect, f`fptr, f`lim, f`fsize, f`written, f`err, f`owned, f.buf
    ensures f.Valid() && f.whole && PlainRun(f.canRead, f.canWrite, states, ops, replies, rooms)
    ensures states[0] == old(PlainOf(f)) && states[|ops|] == PlainOf(f)
    ensures Reshaped(old(f.Table()), old(f.chain), f.Table(), f.chain)
    ensures forall i :: 0 <= i < |ops| ==> rooms[i].reserved == HasReserved(old(f.Table()))
    ensures f.Tended() && f.Traced() && (old(f.CountExact()) ==> f.CountExact())
    ensures Forest(old(f.Table()), chains) && (old(f.chain) == [] || old(f.chain) in chains) ==>
              Forest(f.Table(), Replaced(chains, old(f.chain), f.chain))
  {
    hide File.Core, File.Base, File.Data, PlainOf, PlainStep, Fits, File.Table, File.Spare, HasReserved, Reshaped,
      SectorsKept, Forest, File.Covers, File.AtPtr;
    replies, states, rooms := [], [PlainOf(f)], [];
    ThisChain(f);
    ReshapedReflexive(f.Table(), f.chain);
    for i := 0 to |ops|
      invariant f.Valid() && f.whole && PlainRun(f.canRead, f.canWrite, states, ops[..i], replies, rooms)
      invariant states[0] == old(PlainOf(f)) && states[i] == PlainOf(f)
      invariant Reshaped(old(f.Table()), old(f.chain), f.Table(), f.chain)
      invariant forall j :: 0 <= j < i ==> rooms[j].reserved == HasReserved(old(f.Table()))
      invariant f.Tended() && f.Traced() && (old(f.CountExact()) ==> f.CountExact())
    {
      ghost var fat, ch := f.Table(), f.chain;
      WholeLeads(f, ops[i]);
      var reply := Call(f, ops[i]);
      ReshapedTwice(old(f.Table()), old(f.chain), fat, ch, f.Table(), f.chain);
      ReshapedReserved(old(f.Table()), old(f.chain), f.Table(), f.chain);
      replies, states, rooms := replies + [reply], states + [PlainOf(f)], rooms + [RoomOf(f.Table())];
    }
    assert ops[..|ops|] == ops;
    if Forest(old(f.Table()), chains) && (old(f.chain) == [] || old(f.chain) in chains) {
      ReshapedForest(old(f.Table()), chains, old(f.chain), f.Table(), f.chain);
    }
  }

  /** Call `j` of a run put a byte at place `k`. */
  ghost predicate WritesAt(states: seq<Plain>, ops: seq<Op>, replies: seq<Reply>, j: nat, k: nat)
    requires j < |states| && j < |ops| && j < |replies|
  {
    ops[j].OpWrite? && states[j].pos <= k < states[j].pos + replies[j].count
  }

  /**
   A byte of the file is what the latest write that reached it put there, whatever was done
   in between, as long as the file did not lose the byte.
   */
  lemma {:induction false} LatestWrite(r: bool, w: bool, states: seq<Plain>, ops: seq<Op>, replies: seq<Reply>,
    rooms: seq<Room>, j: nat, i: nat, k: nat)
    requires PlainRun(r, w, states, ops, replies, rooms) && j < i <= |ops| && WritesAt(states, ops, replies, j, k)
    requires forall m :: j < m < i ==> !WritesAt(states, ops, replies, m, k)
    requires forall m :: j < m <= i ==> k < |states[m].bytes|
    ensures k - states[j].pos < |ops[j].data| && states[i].bytes[k] == ops[j].data[k - states[j].pos]
    decreases i
  {
    var m := i - 1;
    assert PlainStep(r, w, states[m], ops[m], replies[m], states[i], rooms[m]);
    if j < m {
      LatestWrite(r, w, states, ops, replies, rooms, j, m, k);
      assert !WritesAt(states, ops, replies, m, k);
      ByteKept(r, w, states[m], ops[m], replies[m], states[i], rooms[m], k);
    }
  }

  lemma ByteKept(r: bool, w: bool, before: Plain, op: Op, reply: Reply, after: Plain, room: Room, k: nat)
    requires PlainStep(r, w, before, op, reply, after, room) && k < |before.bytes| && k < |after.bytes|
    requires !(op.OpWrite? && before.pos <= k < before.pos + reply.count)
    ensures after.bytes[k] == before.bytes[k]
  {}

  /** So a read returns, byte by byte, what the latest writes put there. */
  lemma ReadsLatest(r: bool, w: bool, states: seq<Plain>, ops: seq<Op>, replies: seq<Reply>,
    rooms: seq<Room>, j: nat, i: nat, k: nat)
    requires PlainRun(r, w, states, ops, replies, rooms) && j < i < |ops| && WritesAt(states, ops, replies, j, k)
    requires forall m :: j < m < i ==> !WritesAt(states, ops, replies, m, k)
    requires forall m :: j < m <= i ==> k < |states[m].bytes|
    requires r && states[i].ok && ops[i].OpRead? && states[i].pos <= k < states[i].pos + ops[i].n
    ensures k - states[j].pos < |ops[j].data| && k - states[i].pos < |replies[i].data|
    ensures replies[i].data[k - states[i].pos] == ops[j].data[k - states[j].pos]
  {
    LatestWrite(r, w, states, ops, replies, rooms, j, i, k);
    assert PlainStep(r, w, states[i], ops[i], replies[i], states[i + 1], rooms[i]);
  }
}
