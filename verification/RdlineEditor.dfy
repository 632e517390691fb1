/**
 The line editor: a line in a fixed buffer, edited in place, and the bytes it sends to keep the
 terminal in step.
 */
module RdlineEditor {
  import opened Decimals
  import opened RdlineTerminal

  /** A line and the place of the cursor in it. */
  datatype Line = Line(text: seq<int>, pos: nat)

  datatype Key = Type(c: int) | Backspace | Delete | Left | Right | Home | End

  /** What a key does to a line in a buffer of `size` bytes, one of which ends the line. */
  function Edited(l: Line, size: int, k: Key): (r: Line)
    requires l.pos <= |l.text|
    ensures r.pos <= |r.text|
  {
    match k
    case Type(c) =>
      if |l.text| < size - 1 && Printable(c) then Line(l.text[..l.pos] + [c] + l.text[l.pos..], l.pos + 1) else l
    case Backspace =>
      if l.pos > 0 then Line(l.text[..l.pos - 1] + l.text[l.pos..], l.pos - 1) else l
    case Delete =>
      if l.pos < |l.text| then Line(l.text[..l.pos] + l.text[l.pos + 1..], l.pos) else l
    case Left => if l.pos > 0 then Line(l.text, l.pos - 1) else l
    case Right => if l.pos < |l.text| then Line(l.text, l.pos + 1) else l
    case Home => Line(l.text, 0)
    case End => Line(l.text, |l.text|)
  }

  function EditedAll(l: Line, size: int, ks: seq<Key>): (r: Line)
    requires l.pos <= |l.text|
    ensures r.pos <= |r.text|
  {
    if ks == [] then l else Edited(EditedAll(l, size, ks[..|ks| - 1]), size, ks[|ks| - 1])
  }

  /** Backspace takes back what was typed. */
  lemma TypedAndBack(l: Line, size: int, c: int)
    requires l.pos <= |l.text| && Printable(c) && |l.text| < size - 1
    ensures Edited(Edited(l, size, Type(c)), size, Backspace) == l
  {
    var t := Edited(l, size, Type(c));
    assert t.text[..l.pos] == l.text[..l.pos] && t.text[l.pos + 1..] == l.text[l.pos..];
    assert l.text[..l.pos] + l.text[l.pos..] == l.text;
  }

  /**
   How the other keys go together: delete is a step to the right and backspace, left and right undo each other, and
   home and end are as many steps as it takes.
   */
  lemma KeysGoTogether(l: Line, size: int)
    requires l.pos <= |l.text|
    ensures l.pos < |l.text| ==> Edited(l, size, Delete) == Edited(Edited(l, size, Right), size, Backspace)
    ensures l.pos < |l.text| ==> Edited(Edited(l, size, Right), size, Left) == l
    ensures l.pos > 0 ==> Edited(Edited(l, size, Left), size, Right) == l
    ensures Edited(l, size, Home) == if l.pos == 0 then l else Edited(Edited(l, size, Left), size, Home)
    ensures Edited(l, size, End) == if l.pos == |l.text| then l else Edited(Edited(l, size, Right), size, End)
  {}

  function Typing(text: seq<int>): seq<Key> {
    seq(|text|, i requires 0 <= i < |text| => Type(text[i]))
  }

  lemma TypedLast(text: seq<int>, size: int, c: int)
    requires Printable(c)
    ensures Edited(Line(text, |text|), size, Type(c)) ==
              if |text| < size - 1 then Line(text + [c], |text| + 1) else Line(text, |text|)
  {
    assert text[..|text|] + [c] + text[|text|..] == text + [c];
  }

  /** A text typed into an empty line is the line, as far as it fits the buffer. */
  lemma {:induction false} TypedText(text: seq<int>, size: nat)
    requires 0 < size && forall i :: 0 <= i < |text| ==> Printable(text[i])
    ensures var m := if |text| < size then |text| else size - 1;
            EditedAll(Line([], 0), size, Typing(text)) == Line(text[..m], m)
    decreases |text|
  {
    hide Edited;
    if text != [] {
      var n := |text| - 1;
      var m := if n < size then n else size - 1;
      TypedText(text[..n], size);
      assert Typing(text)[..n] == Typing(text[..n]) && text[..n][..m] == text[..m];
      TypedLast(text[..m], size, text[n]);
      assert n < size - 1 ==> text[..n] + [text[n]] == text[..n + 1];
    }
  }

  /** The digits of a number, last one first. */
  function Low(n: nat): seq<int> {
    if n < 10 then [48 + n] else [48 + n % 10] + Low(n / 10)
  }

  lemma {:induction false} LowIsReversed(n: nat)
    ensures |Low(n)| == |Decimal(n)| && forall i :: 0 <= i < |Low(n)| ==> Low(n)[i] == Decimal(n)[|Low(n)| - 1 - i]
    decreases n
  {
    if n >= 10 { LowIsReversed(n / 10); }
  }

  function Pow10(k: nat): nat {
    if k == 0 then 1 else 10 * Pow10(k - 1)
  }

  lemma {:induction false} DecimalLength(n: nat, k: nat)
    requires k > 0 && n < Pow10(k)
    ensures |Decimal(n)| <= k
    decreases k
  {
    if k > 1 && n >= 10 {
      DecimalLength(n / 10, k - 1);
    }
  }

  /** Numbers of 31 bits have at most ten digits. */
  lemma TenDigits(n: nat)
    requires n <= 0x7FFF_FFFF
    ensures |Decimal(n)| <= 10
  {
    assert Pow10(5) == 100_000;
    assert Pow10(10) == 10_000_000_000;
    DecimalLength(n, 10);
  }

  /** Reverse the part of an array between two places, in place. */
  method Rev(arr: array<int>, s1: nat, s2: int)
    requires -1 <= s2 < arr.Length && s1 <= s2 + 1
    modifies arr
    ensures forall i :: s1 <= i <= s2 ==> arr[i] == old(arr[s1 + s2 - i])
    ensures forall i :: 0 <= i < arr.Length && !(s1 <= i <= s2) ==> arr[i] == old(arr[i])
  {
    var a, b := s1, s2;
    while a < b
      invariant s1 <= a && b <= s2 && a + b == s1 + s2 && a <= b + 1
      invariant forall i :: s1 <= i < a || b < i <= s2 ==> arr[i] == old(arr[s1 + s2 - i])
      invariant forall i :: a <= i <= b ==> arr[i] == old(arr[i])
      invariant forall i :: 0 <= i < arr.Length && !(s1 <= i <= s2) ==> arr[i] == old(arr[i])
    {
      arr[a], arr[b] := arr[b], arr[a];
      a, b := a + 1, b - 1;
    }
  }

  /** The digits of a number from the last one on. */
  method LowDigits(ptr: array<int>, at: nat, number: nat) returns (cnt: nat)
    requires at + |Low(number)| <= ptr.Length
    modifies ptr
    ensures cnt == |Low(number)| && ptr[..at] == old(ptr[..at])
    ensures forall i :: at <= i < at + cnt ==> ptr[i] == Low(number)[i - at]
  {
    var n := number;
    cnt := 0;
    while n >= 10
      invariant 0 <= n && cnt < |Low(number)| && Low(number)[cnt..] == Low(n)
      invariant ptr[..at] == old(ptr[..at]) && forall i :: at <= i < at + cnt ==> ptr[i] == Low(number)[i - at]
    {
      DigitNext(Low(number), cnt, n);
      ptr[at + cnt] := 48 + n % 10;
      cnt := cnt + 1;
      n := n / 10;
    }
    DigitNext(Low(number), cnt, n);
    ptr[at + cnt] := 48 + n % 10;
    cnt := cnt + 1;
  }

  lemma DigitNext(s: seq<int>, i: nat, n: nat)
    requires i < |s| && s[i..] == Low(n)
    ensures s[i] == 48 + n % 10 && (if n >= 10 then i + 1 < |s| && s[i + 1..] == Low(n / 10) else |s| == i + 1)
  {
    assert s[i] == s[i..][0];
    assert s[i + 1..] == s[i..][1..];
    if n >= 10 { assert Low(n)[1..] == Low(n / 10); }
  }

  /** Write a number in decimal: the digits from the last one on, then reversed in place. */
  method ConvAscii(ptr: array<int>, at: nat, number: nat) returns (cnt: nat)
    requires at + |Decimal(number)| <= ptr.Length
    modifies ptr
    ensures cnt == |Decimal(number)| && ptr[at..at + cnt] == Decimal(number) && ptr[..at] == old(ptr[..at])
  {
    hide Low, Decimal;
    LowIsReversed(number);
    cnt := LowDigits(ptr, at, number);
    Rev(ptr, at, at + cnt - 1);
    forall i | at <= i < at + cnt ensures ptr[i] == Decimal(number)[i - at] {
      assert Low(number)[cnt - 1 - (i - at)] == Decimal(number)[i - at];
    }
  }

  /** Bytes read from the input; -1 at its end. */
  function Get(raw: seq<int>, i: nat): int {
    if i < |raw| then raw[i] else -1
  }

  datatype Status = OnEof | OnEnter | OnUp | OnDown

  /** What one turn of the input loop reads: a key, nothing of use, or a reason to stop. */
  datatype Event = Press(key: Key) | Nothing | Stop(status: Status)

  /** The last byte of an arrow sequence. */
  function ArrowEvent(c: int): Event {
    if c == 66 then Stop(OnDown)
    else if c == 65 then Stop(OnUp)
    else if c == 67 then Press(Right)
    else if c == 68 then Press(Left)
    else if c == 72 then Press(Home)
    else if c == 70 then Press(End)
    else if c == 51 then Press(Delete)
    else Nothing
  }

  function EventAt(raw: seq<int>, i: nat): Event {
    var c := Get(raw, i);
    if c == -1 then Stop(OnEof)
    else if c == 13 || c == 10 then Stop(OnEnter)
    else if c == 8 || c == 127 then Press(Backspace)
    else if c == 27 then (if Get(raw, i + 1) == 91 then ArrowEvent(Get(raw, i + 2)) else Nothing)
    else Press(Type(c))
  }

  /** The bytes it takes. */
  function SizeAt(raw: seq<int>, i: nat): nat {
    if Get(raw, i) != 27 then 1
    else if Get(raw, i + 1) != 91 then 2
    else if Get(raw, i + 2) != 51 then 3
    else 4
  }

  /** The keys of an input from place `i` on, and why it stops. */
  function Session(raw: seq<int>, i: nat): (seq<Key>, Status)
    decreases |raw| - i
  {
    match EventAt(raw, i)
    case Stop(status) => ([], status)
    case Nothing => Session(raw, i + SizeAt(raw, i))
    case Press(key) =>
      var rest := Session(raw, i + SizeAt(raw, i));
      ([key] + rest.0, rest.1)
  }

  lemma SessionStep(raw: seq<int>, i: nat, done: seq<Key>)
    ensures var s, next := Session(raw, i), Session(raw, i + SizeAt(raw, i));
            match EventAt(raw, i)
            case Stop(status) => s == ([], status) && done + s.0 == done
            case Nothing => s == next
            case Press(key) => s.1 == next.1 && done + s.0 == done + [key] + next.0
  {}

  /** The bytes a terminal sends for a key. */
  function Encoded(k: Key): seq<int> {
    match k
    case Type(c) => [c]
    case Backspace => [127]
    case Delete => [27, 91, 51, 126]
    case Left => [27, 91, 68]
    case Right => [27, 91, 67]
    case Home => [27, 91, 72]
    case End => [27, 91, 70]
  }

  function EncodedAll(ks: seq<Key>): seq<int> {
    if ks == [] then [] else Encoded(ks[0]) + EncodedAll(ks[1..])
  }

  /** Every sequence of keys, ended by the enter key, is read as that sequence of keys. */
  lemma {:induction false} SessionOfKeys(before: seq<int>, ks: seq<Key>, after: seq<int>)
    requires forall i :: 0 <= i < |ks| && ks[i].Type? ==> Printable(ks[i].c)
    ensures Session(before + EncodedAll(ks) + [13] + after, |before|) == (ks, OnEnter)
    decreases |ks|
  {
    hide Encoded, EventAt, SizeAt;
    var raw := before + EncodedAll(ks) + [13] + after;
    if ks == [] {
      assert raw[|before|] == 13;
      EnterAt(raw, |before|);
    } else {
      var e, tail := Encoded(ks[0]), EncodedAll(ks[1..]);
      assert raw == (before + e) + tail + [13] + after;
      assert raw[|before|..|before| + |e|] == e;
      KeyAt(raw, |before|, ks[0]);
      SessionOfKeys(before + e, ks[1..], after);
      assert [ks[0]] + ks[1..] == ks;
    }
  }

  lemma EnterAt(raw: seq<int>, i: nat)
    requires i < |raw| && raw[i] == 13
    ensures EventAt(raw, i) == Stop(OnEnter)
  {}

  lemma KeyAt(raw: seq<int>, i: nat, k: Key)
    requires i + |Encoded(k)| <= |raw| && raw[i..i + |Encoded(k)|] == Encoded(k) && (k.Type? ==> Printable(k.c))
    ensures EventAt(raw, i) == Press(k) && SizeAt(raw, i) == |Encoded(k)|
  {
    var e := raw[i..i + |Encoded(k)|];
    assert e[0] == raw[i];
    assert |e| > 1 ==> e[1] == raw[i + 1] && e[2] == raw[i + 2];
  }

  class LineEditor {
    const buf: array<int>
    var pos: int
    var len: int
    var out: seq<int>            // the bytes sent so far
    ghost const prompt: seq<int>
    ghost const start: Term      // the terminal before them

    /** The line lies in the buffer and ends in a zero byte. */
    ghost predicate Shaped()
      reads `pos, `len, buf
    {
      && 0 <= pos <= len < buf.Length <= 0x7FFF_FFFF && buf[len] == 0
      && forall i :: 0 <= i < len ==> Printable(buf[i])
    }

    /** And it is what the terminal shows. */
    ghost predicate Valid()
      reads this, buf
      ensures Valid() ==> Shaped()
    {
      Shaped() && Shown(start, out, prompt, buf[..len], pos)
    }

    ghost function Current(): (l: Line)
      reads `pos, `len, buf
      requires Shaped()
      ensures l.pos <= |l.text|
    {
      Line(buf[..len], pos)
    }

    /** rdline_write: send some bytes. */
    method Write(bytes: array<int>, n: nat)
      requires n <= bytes.Length
      modifies `out
      ensures out == old(out) + bytes[..n]
    {
      var i := 0;
      while i < n
        invariant i <= n && out == old(out) + bytes[..i]
      {
        out := out + [bytes[i]];
        i := i + 1;
      }
    }

    method DoMove(n: nat, dir: int)
      requires n <= 0x7FFF_FFFF
      modifies `out
      ensures out == old(out) + MoveBytes(n, dir)
    {
      var bytes := new int[15](i => 0);
      bytes[0], bytes[1] := 27, 91;
      TenDigits(n);
      var l := ConvAscii(bytes, 2, n);
      l := l + 2;
      bytes[l] := dir;
      assert bytes[..2] == [27, 91] && bytes[2..l] == Decimal(n);
      assert bytes[..l + 1] == bytes[..2] + bytes[2..l] + [dir];
      Write(bytes, l + 1);
    }

    method MoveLeft(n: int)
      requires 0 <= n <= 0x7FFF_FFFF
      modifies `out
      ensures out == old(out) + Back(n)
    {
      if n > 0 {
        DoMove(n, 68);
      }
    }

    method MoveRight(n: int)
      requires 0 <= n <= 0x7FFF_FFFF
      modifies `out
      ensures out == old(out) + Forth(n)
    {
      if n > 0 {
        DoMove(n, 67);
      }
    }

    method ClearLine()
      modifies `out
      ensures out == old(out) + CLEAR
    {
      out := out + [27, 91, 75];
    }

    /** Make room for a character and put it in. */
    method InsertChar(c: int)
      requires 0 <= pos <= len && len + 1 < buf.Length
      modifies buf
      ensures forall i :: 0 <= i < pos ==> buf[i] == old(buf[i])
      ensures buf[pos] == c && forall i :: pos < i <= len + 1 ==> buf[i] == old(buf[i - 1])
    {
      var max := len;
      while max >= pos
        invariant pos - 1 <= max <= len
        invariant forall i :: 0 <= i <= max ==> buf[i] == old(buf[i])
        invariant forall i :: max + 1 < i <= len + 1 ==> buf[i] == old(buf[i - 1])
      {
        buf[max + 1] := buf[max];
        max := max - 1;
      }
      buf[pos] := c;
    }

    /** Close the gap over the character under the cursor. */
    method RemoveChar()
      requires 0 <= pos <= len < buf.Length
      modifies buf
      ensures forall i :: 0 <= i < pos ==> buf[i] == old(buf[i])
      ensures buf[len] == 0 && forall i :: pos <= i < len ==> buf[i] == old(buf[i + 1])
    {
      var p := pos;
      while p < len
        invariant pos <= p <= len
        invariant forall i :: 0 <= i < pos ==> buf[i] == old(buf[i])
        invariant forall i :: pos <= i < p ==> buf[i] == old(buf[i + 1])
        invariant forall i :: p <= i <= len ==> buf[i] == old(buf[i])
      {
        buf[p] := buf[p + 1];
        p := p + 1;
      }
      buf[p] := 0;
    }

    /** Print the line from the cursor to its end and move back. */
    method PrintLine(ghost end: int)
      requires 0 <= pos <= end < buf.Length <= 0x7FFF_FFFF && buf[end] == 0
      requires forall i :: 0 <= i < end ==> Printable(buf[i])
      modifies `out
      ensures out == old(out) + buf[pos..end] + Back(end - pos)
    {
      hide Back;
      BackNone();
      var i := 0;
      while buf[pos + i] != 0
        invariant 0 <= i <= end - pos && out == old(out) + buf[pos..pos + i]
        decreases end - pos - i
      {
        out := out + [buf[pos + i]];
        i := i + 1;
      }
      if i > 0 {
        MoveLeft(i);
      }
    }

    lemma BackNone()
      ensures Back(0) == []
    {}

    constructor (buf: array<int>, ghost prompt: seq<int>)
      requires 0 < buf.Length <= 0x7FFF_FFFF
      modifies buf
      ensures Valid() && fresh(this) && this.buf == buf && Current() == Line([], 0) && this.prompt == prompt
    {
      this.buf := buf;
      pos, len, out := 0, 0, [];
      this.prompt := prompt;
      start := Screen(prompt, [], 0);
      new;
      Clear();
    }

    /** rdline_clear: zero the buffer. */
    method Clear()
      requires 0 < buf.Length
      modifies `pos, `len, buf
      ensures pos == len == 0 && forall i :: 0 <= i < buf.Length ==> buf[i] == 0
    {
      var z := 0;
      while z < buf.Length
        invariant 0 <= z <= buf.Length && forall i :: 0 <= i < z ==> buf[i] == 0
      {
        buf[z] := 0;
        z := z + 1;
      }
      pos, len := 0, 0;
    }

    method DoBackspace()
      requires Valid()
      modifies `pos, `len, `out, buf
      ensures Valid() && Current() == Edited(old(Current()), buf.Length, Backspace)
    {
      hide Run, Screen, CLEAR, Back, Shown;
      if pos > 0 {
        ghost var text, bytes := buf[..len], out;
        TakeBack();
        ShownBackspace(start, bytes, prompt, text, pos + 1, out);
      }
    }

    /** Take the character before the cursor out of the line, and send what shows that. */
    method TakeBack()
      requires Shaped() && pos > 0
      modifies `pos, `len, `out, buf
      ensures Shaped() && pos == old(pos) - 1 && len == old(len) - 1
      ensures buf[..len] == old(buf[..len])[..pos] + old(buf[..len])[pos + 1..]
      ensures out == old(out) + Back(1) + CLEAR + old(buf[..len])[pos + 1..] + Back(len - pos)
    {
      hide CLEAR, Back;
      ghost var text := buf[..len];
      pos := pos - 1;
      RemoveChar();
      MoveLeft(1);
      ClearLine();
      PrintLine(len - 1);
      len := len - 1;
      Removed(text, pos, buf[..len]);
      assert buf[pos..len] == text[pos + 1..];
      assert forall i :: 0 <= i < len ==> buf[i] == buf[..len][i];
    }

    method DoDelete()
      requires Valid()
      modifies `len, `out, buf
      ensures Valid() && Current() == Edited(old(Current()), buf.Length, Delete)
    {
      hide Run, Screen, CLEAR, Back, Shown;
      if pos < len {
        ghost var text, bytes := buf[..len], out;
        RemoveChar();
        ClearLine();
        PrintLine(len - 1);
        len := len - 1;
        Removed(text, pos, buf[..len]);
        assert buf[pos..len] == text[pos + 1..];
        ShownRewrite(start, bytes, prompt, text, pos, text[pos + 1..], out);
      }
    }

    method DoType(c: int)
      requires Valid()
      modifies `pos, `len, `out, buf
      ensures Valid() && Current() == Edited(old(Current()), buf.Length, Type(c))
    {
      hide Run, Screen, CLEAR, Back, Forth;
      if len < buf.Length - 1 && Printable(c) {
        ghost var text, bytes := buf[..len], out;
        InsertChar(c);
        PrintLine(len + 1);
        MoveRight(1);
        pos := pos + 1;
        len := len + 1;
        Inserted(text, pos - 1, c, buf[..len]);
        assert buf[pos - 1..len] == [c] + text[pos - 1..];
        ShownType(start, bytes, prompt, text, pos - 1, c, out);
      }
    }

    method DoLeft()
      requires Valid()
      modifies `pos, `out
      ensures Valid() && Current() == Edited(old(Current()), buf.Length, Left)
    {
      hide Run, Screen, Back;
      if pos > 0 {
        ShownMove(start, out, prompt, buf[..len], pos, pos - 1);
        pos := pos - 1;
        MoveLeft(1);
      }
    }

    method DoRight()
      requires Valid()
      modifies `pos, `out
      ensures Valid() && Current() == Edited(old(Current()), buf.Length, Right)
    {
      hide Run, Screen, Forth;
      if pos < len {
        ShownMove(start, out, prompt, buf[..len], pos, pos + 1);
        pos := pos + 1;
        MoveRight(1);
      }
    }

    method MoveHome()
      requires Valid()
      modifies `pos, `out
      ensures Valid() && Current() == Edited(old(Current()), buf.Length, Home)
    {
      hide Run, Screen, Back;
      ShownMove(start, out, prompt, buf[..len], pos, 0);
      MoveLeft(pos);
      pos := 0;
    }

    method MoveEnd()
      requires Valid()
      modifies `pos, `out
      ensures Valid() && Current() == Edited(old(Current()), buf.Length, End)
    {
      hide Run, Screen, Forth;
      ShownMove(start, out, prompt, buf[..len], pos, len);
      MoveRight(len - pos);
      pos := len;
    }

    /** The keys behind ESC and `[`; `c` is the byte that follows. */
    method DoArrow(c: int) returns (stop: bool, status: Status)
      requires Valid()
      modifies `pos, `len, `out, buf
      ensures Valid() && stop == ArrowEvent(c).Stop? && (stop ==> status == ArrowEvent(c).status)
      ensures Current() ==
                if ArrowEvent(c).Press? then Edited(old(Current()), buf.Length, ArrowEvent(c).key) else old(Current())
    {
      hide Valid, Shaped, Current, Edited;
      stop, status := false, OnEof;
      match c {
        case 66 => stop, status := true, OnDown;
        case 65 => stop, status := true, OnUp;
        case 67 => DoRight();
        case 68 => DoLeft();
        case 72 => MoveHome();
        case 70 => MoveEnd();
        case 51 => DoDelete();
        case _ =>
      }
    }

    /**
     rdline_input on the bytes `raw`: the line is edited by the keys in them, up to the first that
     ends the input, and the terminal shows the line and the cursor throughout.
     */
    method Input(raw: seq<int>) returns (status: Status)
      requires Valid()
      modifies `pos, `len, `out, buf
      ensures Valid() && status == Session(raw, 0).1
      ensures Current() == EditedAll(old(Current()), buf.Length, Session(raw, 0).0)
    {
      hide Valid, Shaped, Current, Edited, EditedAll, ArrowEvent, Session;
      ghost var done: seq<Key> := [];
      ghost var line := Current();
      EditedNone(line, buf.Length);
      var i := 0;
      while true
        invariant Valid() && Current() == EditedAll(line, buf.Length, done)
        invariant Session(raw, 0).0 == done + Session(raw, i).0 && Session(raw, 0).1 == Session(raw, i).1
        decreases |raw| - i
      {
        ghost var ev := EventAt(raw, i);
        SessionStep(raw, i, done);
        if ev.Press? {
          EditedMore(line, buf.Length, done, ev.key);
          done := done + [ev.key];
        }
        var c := Get(raw, i);
        i := i + 1;
        match c {
          case -1 => return OnEof;
          case 13 => return OnEnter;
          case 10 => return OnEnter;
          case 8 => DoBackspace();
          case 127 => DoBackspace();
          case 27 =>
            c := Get(raw, i);
            i := i + 1;
            if c == 91 {
              c := Get(raw, i);
              i := i + 1;
              var stop;
              stop, status := DoArrow(c);
              if stop {
                return;
              }
              if c == 51 {
                i := i + 1;  // the byte ~
              }
            }
          case _ => DoType(c);
        }
      }
    }

    lemma EditedNone(l: Line, size: int)
      requires l.pos <= |l.text|
      ensures EditedAll(l, size, []) == l
    {}
  }

  lemma EditedMore(l: Line, size: int, ks: seq<Key>, k: Key)
    requires l.pos <= |l.text|
    ensures EditedAll(l, size, ks + [k]) == Edited(EditedAll(l, size, ks), size, k)
  {
    assert (ks + [k])[..|ks|] == ks;
  }

  /** The line after a character has been taken out. */
  lemma Removed(text: seq<int>, pos: nat, text': seq<int>)
    requires pos < |text| && |text'| == |text| - 1
    requires forall i :: 0 <= i < pos ==> text'[i] == text[i]
    requires forall i :: pos <= i < |text'| ==> text'[i] == text[i + 1]
    ensures text' == text[..pos] + text[pos + 1..]
  {}

  lemma Inserted(text: seq<int>, pos: nat, c: int, text': seq<int>)
    requires pos <= |text| && |text'| == |text| + 1 && text'[pos] == c
    requires forall i :: 0 <= i < pos ==> text'[i] == text[i]
    requires forall i :: pos < i < |text'| ==> text'[i] == text[i - 1]
    ensures text' == text[..pos] + [c] + text[pos..]
  {}

  ghost predicate Shown(start: Term, out: seq<int>, prompt: seq<int>, text: seq<int>, pos: int) {
    0 <= pos && Run(start, out) == Screen(prompt, text, pos)
  }

  lemma ShownMove(start: Term, out: seq<int>, prompt: seq<int>, text: seq<int>, pos: nat, to: nat)
    requires Shown(start, out, prompt, text, pos)
    ensures to <= pos ==> Shown(start, out + Back(pos - to), prompt, text, to)
    ensures pos <= to ==> Shown(start, out + Forth(to - pos), prompt, text, to)
  {
    hide Run;
    if to <= pos {
      RunAppend(start, out, Back(pos - to));
      RunBack(prompt + text, |prompt| + pos, pos - to);
    }
    if pos <= to {
      RunAppend(start, out, Forth(to - pos));
      RunForth(prompt + text, |prompt| + pos, to - pos);
    }
  }

  lemma ShownRewrite(start: Term, out: seq<int>, prompt: seq<int>, text: seq<int>, pos: nat, rest: seq<int>,
    out': seq<int>)
    requires Shown(start, out, prompt, text, pos) && pos <= |text| && forall i :: 0 <= i < |rest| ==> Printable(rest[i])
    requires out' == out + CLEAR + rest + Back(|rest|)
    ensures Shown(start, out', prompt, text[..pos] + rest, pos)
  {
    hide Run, Screen, CLEAR, Back;
    RunAppend(start, out, CLEAR + rest + Back(|rest|));
    assert out' == out + (CLEAR + rest + Back(|rest|));
    RunRewrite(prompt, text, pos, rest);
  }

  lemma ShownBackspace(start: Term, out: seq<int>, prompt: seq<int>, text: seq<int>, pos: nat, out': seq<int>)
    requires Shown(start, out, prompt, text, pos) && 0 < pos <= |text| && forall i :: 0 <= i < |text| ==>
              Printable(text[i])
    requires out' == out + Back(1) + CLEAR + text[pos..] + Back(|text| - pos)
    ensures Shown(start, out', prompt, text[..pos - 1] + text[pos..], pos - 1)
  {
    ShownMove(start, out, prompt, text, pos, pos - 1);
    ShownRewrite(start, out + Back(1), prompt, text, pos - 1, text[pos..], out');
  }

  lemma ShownType(start: Term, out: seq<int>, prompt: seq<int>, text: seq<int>, pos: nat, c: int, out': seq<int>)
    requires Shown(start, out, prompt, text, pos) && pos <= |text| && Printable(c) && forall i :: 0 <= i < |text| ==>
              Printable(text[i])
    requires out' == out + ([c] + text[pos..]) + Back(|text| + 1 - pos) + Forth(1)
    ensures Shown(start, out', prompt, text[..pos] + [c] + text[pos..], pos + 1)
  {
    hide Run, Screen, Back, Forth;
    var rest := [c] + text[pos..];
    RunAppend(start, out, rest + Back(|rest|));
    RunExtend(prompt, text, pos, rest);
    assert text[..pos] + rest == text[..pos] + [c] + text[pos..];
    assert out + rest + Back(|rest|) == out + (rest + Back(|rest|));
    ShownMove(start, out + rest + Back(|rest|), prompt, text[..pos] + rest, pos, pos + 1);
  }
}
