/**
 The table of open objects: for each of them one writer, or a count of readers. `handles` are the
 objects that are open, with their mode, as the program sees them.
 */
module FatLocks {

  /** A file system, the cluster of a directory and the index in it. */
  datatype Obj = Obj(fs: nat, clu: nat, idx: nat)

  datatype Entry = Entry(obj: Obj, ctr: nat)

  datatype Access = Read | Write | Remove

  datatype LockResult = Ok | Locked | TooManyOpenFiles | IntErr

  const WRITER: nat := 0x100

  /** An open object and whether it is open for writing. */
  datatype Handle = Handle(obj: Obj, writing: bool)

  /** The counter of an entry says what is open. */
  ghost predicate Counts(e: Entry, handles: multiset<Handle>) {
    if e.ctr == WRITER then handles[Handle(e.obj, true)] == 1 && handles[Handle(e.obj, false)] == 0
    else handles[Handle(e.obj, true)] == 0 && handles[Handle(e.obj, false)] == e.ctr
  }

  ghost predicate Consistent(files: seq<Entry>, handles: multiset<Handle>) {
    && (forall i :: 0 <= i < |files| && files[i].obj.fs != 0 ==>
      0 < files[i].ctr <= WRITER && Counts(files[i], handles))
    && (forall i, j :: 0 <= i < j < |files| && files[i].obj.fs != 0 ==> files[i].obj != files[j].obj)
    && (forall h :: h in handles ==> h.obj.fs != 0 && Listed(files, h.obj))
  }

  ghost predicate Listed(files: seq<Entry>, o: Obj) {
    exists i :: 0 <= i < |files| && files[i].obj == o
  }

  ghost predicate Blank(files: seq<Entry>) {
    exists i :: 0 <= i < |files| && files[i].obj.fs == 0
  }

  /** No object has a writer and a reader, or two writers. */
  ghost predicate Exclusive(handles: multiset<Handle>) {
    forall o :: handles[Handle(o, true)] == 0 || (handles[Handle(o, true)] == 1 && handles[Handle(o, false)] == 0)
  }

  lemma ConsistentIsExclusive(files: seq<Entry>, handles: multiset<Handle>)
    requires Consistent(files, handles)
    ensures Exclusive(handles)
  {
    forall o ensures handles[Handle(o, true)] == 0 ||
      (handles[Handle(o, true)] == 1 && handles[Handle(o, false)] == 0) {
      if handles[Handle(o, true)] != 0 {
        assert Handle(o, true) in handles && Listed(files, o);
      }
    }
  }

  /** The object may be opened for reading or writing. */
  ghost predicate MayOpen(files: seq<Entry>, handles: multiset<Handle>, o: Obj, writing: bool) {
    if Listed(files, o) then !writing && handles[Handle(o, true)] == 0 else Blank(files)
  }

  class LockTable {
    const files: array<Entry>
    ghost var handles: multiset<Handle>

    ghost predicate Valid()
      reads this, files
      ensures Valid() ==> Exclusive(handles)
    {
      Consistent(files[..], handles) && Exclusive(handles)
    }

    constructor (n: nat)
      ensures Valid() && files.Length == n && handles == multiset{} && fresh(files)
    {
      files := new Entry[n](i => Entry(Obj(0, 0, 0), 0));
      handles := multiset{};
    }

    /** The first entry of an object, and whether a blank one was seen before it; the table size when there is none. */
    method Find(o: Obj) returns (i: nat, blank: bool)
      requires o.fs != 0
      ensures i <= files.Length && (i < files.Length ==> files[i].obj == o)
      ensures i == files.Length ==> !Listed(files[..], o) && (blank <==> Blank(files[..]))
    {
      i, blank := 0, false;
      while i < files.Length
        invariant 0 <= i <= files.Length && forall j :: 0 <= j < i ==> files[j].obj != o
        invariant blank <==> exists j :: 0 <= j < i && files[j].obj.fs == 0
      {
        if files[i].obj.fs != 0 {
          if files[i].obj == o {
            return;
          }
        } else {
          blank := true;
        }
        i := i + 1;
      }
      assert files[..] == files[..i];
    }

    /** chk_lock: may the object be accessed? */
    method ChkLock(o: Obj, acc: Access) returns (res: LockResult)
      requires Valid() && o.fs != 0
      ensures acc != Remove ==> (res == Ok <==> MayOpen(files[..], handles, o, acc == Write))
      ensures acc == Remove ==> (res == Ok <==> !Listed(files[..], o))
      ensures res == Ok || res == if Listed(files[..], o) then Locked else TooManyOpenFiles
    {
      var i, blank := Find(o);
      if i == files.Length {
        return if blank || acc == Remove then Ok else TooManyOpenFiles;
      }
      assert files[..][i] == files[i];
      res := if acc != Read || files[i].ctr == WRITER then Locked else Ok;
    }

    /**
     inc_lock: 0 for an object that is open and not to be read, or that finds no blank entry; else
     the object is open once more. The table stays right exactly when a reader joins no writer and
     fewer than 255 readers; so after a check that passed it never fails.
     */
    method IncLock(o: Obj, acc: Access) returns (id: nat)
      requires Valid() && o.fs != 0
      modifies this, files
      ensures id == 0 <==> if old(Listed(files[..], o)) then acc != Read else !old(Blank(files[..]))
      ensures id == 0 ==> Valid() && files[..] == old(files[..]) && handles == old(handles)
      ensures id != 0 ==>
                && id <= files.Length && files[id - 1].obj == o
                && handles == old(handles) + multiset{Handle(o, acc != Read)}
                && (Valid() <==> (acc == Read ==>
                  old(handles)[Handle(o, true)] == 0 && old(handles)[Handle(o, false)] < 255))
      ensures acc != Remove && old(MayOpen(files[..], handles, o, acc == Write)) ==> id != 0
    {
      hide Consistent, Exclusive;
      ghost var before := files[..];
      var i, blank := Find(o);
      if i == files.Length {
        i := FindBlank();
        if i == files.Length {
          return 0;
        }
        files[i] := Entry(o, 0);
      } else {
        EntryOf(before, handles, i, o);
      }
      if acc != Read && files[i].ctr != 0 {
        return 0;
      }
      ghost var ctr := files[i].ctr;
      files[i] := Entry(files[i].obj, if acc != Read then WRITER else files[i].ctr + 1);
      handles := handles + multiset{Handle(o, acc != Read)};
      assert files[..] == before[i := Entry(o, if acc != Read then WRITER else ctr + 1)];
      OpenedExactly(before, old(handles), i, o, acc != Read);
      if Consistent(files[..], handles) {
        ConsistentIsExclusive(files[..], handles);
      }
      id := i + 1;
    }

    /** The first blank entry; the table size when there is none. */
    method FindBlank() returns (i: nat)
      ensures i <= files.Length && (i < files.Length ==> files[i].obj.fs == 0)
      ensures i == files.Length <==> !Blank(files[..])
    {
      i := 0;
      while i < files.Length && files[i].obj.fs != 0
        invariant 0 <= i <= files.Length && forall j :: 0 <= j < i ==> files[j].obj.fs != 0
      {
        i := i + 1;
      }
      assert i < files.Length ==> files[..][i].obj.fs == 0;
    }

    /** dec_lock: the object of the entry is open once less; an entry that is blank stays so. */
    method DecLock(id: nat) returns (res: LockResult)
      requires Valid()
      modifies this, files
      ensures Valid() && res == if 0 < id <= files.Length then Ok else IntErr
      ensures handles == if res == Ok && old(files[..])[id - 1].obj.fs != 0
                         then old(handles) - multiset{HandleOf(old(files[..])[id - 1])} else old(handles)
      ensures forall j :: 0 <= j < files.Length && j != id - 1 ==> files[j] == old(files[j])
    {
      hide Consistent, Exclusive;
      if id == 0 || id - 1 >= files.Length {
        return IntErr;
      }
      var i := id - 1;
      ghost var before := files[..];
      ReleasedKeeps(before, handles, i);
      var n := files[i].ctr;
      if n == WRITER {
        n := 0;
      }
      if n > 0 {
        n := n - 1;
      }
      files[i] := Entry(files[i].obj, n);
      if n == 0 {
        files[i] := Entry(files[i].obj.(fs := 0), n);
      }
      if before[i].obj.fs != 0 {
        handles := handles - multiset{HandleOf(before[i])};
      }
      assert files[..] == before[i := Released(before[i])];
      ConsistentIsExclusive(files[..], handles);
      res := Ok;
    }
  }

  /** What is open through an entry: its writer, or one of its readers. */
  ghost function HandleOf(e: Entry): Handle {
    Handle(e.obj, e.ctr == WRITER)
  }

  /** Opening keeps the table right exactly when a reader joins no writer and fewer than 255 readers. */
  lemma OpenedExactly(files: seq<Entry>, handles: multiset<Handle>, i: nat, o: Obj, writing: bool)
    requires Consistent(files, handles) && i < |files| && o.fs != 0
    requires if Listed(files, o) then files[i].obj == o && !writing else files[i].obj.fs == 0
    ensures var ctr := if files[i].obj == o then files[i].ctr else 0;
            Consistent(files[i := Entry(o, if writing then WRITER else ctr + 1)],
              handles + multiset{Handle(o, writing)}) <==>
            (!writing ==> handles[Handle(o, true)] == 0 && handles[Handle(o, false)] < 255)
  {
    hide Consistent;
    if !Listed(files, o) {
      assert Blank(files);
      NotOpen(files, handles, o);
      Opened(files, handles, i, o, writing);
    } else {
      EntryOf(files, handles, i, o);
      if handles[Handle(o, true)] == 0 {
        TooManyReaders(files, handles, i, o);
      } else {
        NotAfterWriter(files, handles, i, o);
      }
    }
  }

  /** A reader registered beside a writer makes a counter that stands for nothing. */
  lemma NotAfterWriter(files: seq<Entry>, handles: multiset<Handle>, i: nat, o: Obj)
    requires i < |files| && o.fs != 0 && files[i].obj == o && Counts(files[i], handles) && handles[Handle(o, true)] != 0
    ensures !Consistent(files[i := Entry(o, files[i].ctr + 1)], handles + multiset{Handle(o, false)})
  {
    var after := files[i := Entry(o, files[i].ctr + 1)];
    assert after[i].ctr == WRITER + 1;
  }

  /** dec_lock keeps the table right on every entry. */
  lemma ReleasedKeeps(files: seq<Entry>, handles: multiset<Handle>, i: nat)
    requires Consistent(files, handles) && i < |files|
    ensures var e := files[i];
            Consistent(files[i := Released(e)], if e.obj.fs != 0 then handles - multiset{HandleOf(e)} else handles)
  {
    hide Consistent;
    if files[i].obj.fs != 0 {
      EntryOf(files, handles, i, files[i].obj);
      Closed(files, handles, i, HandleOf(files[i]));
    } else {
      StaysBlank(files, handles, i, Released(files[i]));
    }
  }

  lemma StaysBlank(files: seq<Entry>, handles: multiset<Handle>, i: nat, e: Entry)
    requires Consistent(files, handles) && i < |files| && files[i].obj.fs == 0 && e.obj.fs == 0
    ensures Consistent(files[i := e], handles)
  {
    var after := files[i := e];
    forall h | h in handles ensures h.obj.fs != 0 && Listed(after, h.obj) {
      assert Listed(files, h.obj);
      var j :| 0 <= j < |files| && files[j].obj == h.obj;
      assert after[j].obj == h.obj;
    }
  }

  /** A counter that one more reader brings to the mark of a writer no longer tells the two apart. */
  lemma TooManyReaders(files: seq<Entry>, handles: multiset<Handle>, i: nat, o: Obj)
    requires Consistent(files, handles) && i < |files| && o.fs != 0 && files[i].obj == o &&
              handles[Handle(o, true)] == 0
    ensures Consistent(files[i := Entry(o, files[i].ctr + 1)], handles + multiset{Handle(o, false)}) <==>
              handles[Handle(o, false)] < 255
  {
    EntryOf(files, handles, i, o);
    assert Listed(files, o);
    if handles[Handle(o, false)] < 255 {
      Opened(files, handles, i, o, false);
    } else {
      var e := files[i := Entry(o, files[i].ctr + 1)][i];
      assert e.ctr == WRITER && !Counts(e, handles + multiset{Handle(o, false)});
    }
  }

  /** A table at the limit: 255 readers of one object are counted, and one more would not be. */
  lemma TableAtTheLimit(o: Obj)
    requires o.fs != 0
    ensures var files, readers := [Entry(o, 255)], multiset{}[Handle(o, false) := 255];
            && Consistent(files, readers)
            && !Consistent(files[0 := Entry(o, 256)], readers + multiset{Handle(o, false)})
  {
    var files, readers := [Entry(o, 255)], multiset{}[Handle(o, false) := 255];
    assert Handle(o, true) != Handle(o, false);
    forall h | h in readers ensures h.obj.fs != 0 && Listed(files, h.obj) {
      assert files[0].obj == h.obj;
    }
    TooManyReaders(files, readers, 0, o);
  }

  lemma EntryOf(files: seq<Entry>, handles: multiset<Handle>, i: nat, o: Obj)
    requires Consistent(files, handles) && i < |files| && o.fs != 0
    ensures files[i].obj == o ==> 0 < files[i].ctr <= WRITER && Listed(files, o) && Counts(files[i], handles)
  {}

  /** Opening an object that may be opened keeps the table right. */
  lemma Opened(files: seq<Entry>, handles: multiset<Handle>, i: nat, o: Obj, writing: bool)
    requires Consistent(files, handles) && i < |files| && o.fs != 0 && MayOpen(files, handles, o, writing)
    requires handles[Handle(o, false)] < 255
    requires files[i].obj == o || (files[i].obj.fs == 0 && !Listed(files, o))
    ensures var ctr := if files[i].obj == o then files[i].ctr else 0;
            Consistent(files[i := Entry(o, if writing then WRITER else ctr + 1)],
              handles + multiset{Handle(o, writing)})
  {
    hide Listed, MayOpen, Counts;
    var ctr := if files[i].obj == o then files[i].ctr else 0;
    var files', handles' := files[i := Entry(o, if writing then WRITER else ctr + 1)],
      handles + multiset{Handle(o, writing)};
    forall j | 0 <= j < |files'| && files'[j].obj.fs != 0
      ensures 0 < files'[j].ctr <= WRITER && Counts(files'[j], handles') && (j != i ==> files'[j].obj != o)
    {
      if j == i {
        OpenedEntry(files, handles, i, o, writing);
      } else {
        OtherEntry(files, handles, i, o, j);
        CountsKept(files[j], handles, Handle(o, writing));
      }
    }
    forall h | h in handles' ensures h.obj.fs != 0 && Listed(files', h.obj) {
      StillListed(files, i, o, h.obj, files');
    }
  }

  /** The entry of the object counts the new handle. */
  lemma OpenedEntry(files: seq<Entry>, handles: multiset<Handle>, i: nat, o: Obj, writing: bool)
    requires Consistent(files, handles) && i < |files| && o.fs != 0 && MayOpen(files, handles, o, writing)
    requires handles[Handle(o, false)] < 255
    requires files[i].obj == o || (files[i].obj.fs == 0 && !Listed(files, o))
    ensures var ctr := if files[i].obj == o then files[i].ctr else 0;
            var e := Entry(o, if writing then WRITER else ctr + 1);
            0 < e.ctr <= WRITER && Counts(e, handles + multiset{Handle(o, writing)})
  {
    if files[i].obj == o {
      assert Listed(files, o);
    } else {
      NotOpen(files, handles, o);
    }
  }

  lemma OtherEntry(files: seq<Entry>, handles: multiset<Handle>, i: nat, o: Obj, j: nat)
    requires Consistent(files, handles) && i < |files| && j < |files| && i != j && o.fs != 0
    requires files[i].obj == o || !Listed(files, o)
    ensures files[j].obj != o
  {
    if files[j].obj == o {
      assert Listed(files, o);
    }
  }

  lemma CountsKept(e: Entry, handles: multiset<Handle>, h: Handle)
    requires Counts(e, handles) && e.obj != h.obj
    ensures Counts(e, handles + multiset{h})
  {}

  lemma NotOpen(files: seq<Entry>, handles: multiset<Handle>, o: Obj)
    requires Consistent(files, handles) && !Listed(files, o)
    ensures handles[Handle(o, true)] == 0 && handles[Handle(o, false)] == 0
  {
    assert Handle(o, true) !in handles && Handle(o, false) !in handles;
  }

  lemma StillListed(files: seq<Entry>, i: nat, o: Obj, p: Obj, files': seq<Entry>)
    requires i < |files| == |files'| && files'[i].obj == o && forall j :: 0 <= j < |files| && j != i ==>
              files'[j] == files[j]
    requires files[i].obj == o || files[i].obj.fs == 0
    ensures p == o || (Listed(files, p) && p.fs != 0) ==> Listed(files', p)
  {
    if p == o {
      assert files'[i].obj == p;
    } else if Listed(files, p) && p.fs != 0 {
      var j :| 0 <= j < |files| && files[j].obj == p;
      assert files'[j].obj == p;
    }
  }

  /** The entry after one of its handles has been closed. */
  ghost function Released(e: Entry): Entry {
    var n := if e.ctr == WRITER || e.ctr == 0 then 0 else e.ctr - 1;
    Entry(if n == 0 then e.obj.(fs := 0) else e.obj, n)
  }

  lemma Closed(files: seq<Entry>, handles: multiset<Handle>, i: nat, h: Handle)
    requires Consistent(files, handles) && i < |files| && files[i].obj == h.obj && h in handles
    ensures Consistent(files[i := Released(files[i])], handles - multiset{h})
  {
    var files', handles' := files[i := Released(files[i])], handles - multiset{h};
    forall j | 0 <= j < |files'| && files'[j].obj.fs != 0 ensures 0 < files'[j].ctr <= WRITER &&
      Counts(files'[j], handles') {
      if j != i { assert files[j].obj != h.obj; }
    }
    forall g | g in handles' ensures g.obj.fs != 0 && Listed(files', g.obj) {
      assert g in handles && Listed(files, g.obj);
      var j :| 0 <= j < |files| && files[j].obj == g.obj;
      if j == i {
        assert handles[h] > 1 || g != h;
        assert files'[i].obj == g.obj;
      } else {
        assert files'[j].obj == g.obj;
      }
    }
  }
}
