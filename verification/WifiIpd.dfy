/**
 The demultiplexer of `+IPD,<len>:<payload>` frames in the stream of the WiFi module, feeding
 the payloads to the ring buffer.
 */
module WifiIpd {
  import opened Bounds
  import opened Decimals
  import opened RingBuffer

  datatype St = OnErr | OnData | WaitPlus | WaitI | WaitP | WaitD | WaitComma | PackLen | PackData

  /** The state and the 32-bit length counter. */
  datatype Ipd = Ipd(st: St, len: nat)

  /** One character, apart from its way into the buffer. */
  function Step(s: Ipd, c: int): Ipd {
    if c == 255 then s
    else
      match s.st
      case OnErr => if c == 43 then s.(st := WaitI) else s
      case OnData => if c == 43 then s.(st := WaitI) else s
      case WaitPlus => if c == 43 then s.(st := WaitI) else s
      case WaitI => if c == 73 then s.(st := WaitP) else s
      case WaitP => s.(st := if c == 80 then WaitD else WaitI)
      case WaitD => s.(st := if c == 68 then WaitComma else WaitI)
      case WaitComma => if c == 44 then Ipd(PackLen, 0) else s.(st := OnErr)
      case PackLen =>
        if IsDigit(c) then s.(len := (s.len * 10 + (c - 48)) % 0x1_0000_0000)
        else if c == 58 then s.(st := PackData)
        else s.(st := OnErr)
      case PackData =>
        var len := (s.len - 1) % 0x1_0000_0000;
        Ipd(if len > 0 then PackData else OnData, len)
  }

  /** The character is a payload byte. */
  predicate Emits(s: Ipd, c: int) {
    c != 255 && s.st == PackData
  }

  function Run(s: Ipd, cs: seq<int>): Ipd
    decreases |cs|
  {
    if cs == [] then s else Run(Step(s, cs[0]), cs[1..])
  }

  /** The payload bytes of a stream. */
  function Output(s: Ipd, cs: seq<int>): seq<int>
    decreases |cs|
  {
    if cs == [] then []
    else (if Emits(s, cs[0]) then [cs[0]] else []) + Output(Step(s, cs[0]), cs[1..])
  }

  lemma {:induction false} RunAppend(s: Ipd, a: seq<int>, b: seq<int>)
    ensures Run(s, a + b) == Run(Run(s, a), b) && Output(s, a + b) == Output(s, a) + Output(Run(s, a), b)
    decreases |a|
  {
    if a == [] {
      assert a + b == b;
    } else {
      assert (a + b)[1..] == a[1..] + b;
      RunAppend(Step(s, a[0]), a[1..], b);
    }
  }

  lemma RunOne(s: Ipd, c: int)
    ensures Run(s, [c]) == Step(s, c) && Output(s, [c]) == if Emits(s, c) then [c] else []
  {
    assert [c][1..] == [];
  }

  /** Waiting for a frame to start. */
  predicate Resting(s: Ipd) {
    s.st == OnErr || s.st == OnData || s.st == WaitPlus
  }

  /** Text without a plus sign is passed over. */
  lemma {:induction false} TextPassed(s: Ipd, text: seq<int>)
    requires Resting(s) && 43 !in text
    ensures Run(s, text) == s && Output(s, text) == []
    decreases |text|
  {
    if text != [] {
      assert text[0] in text && forall c :: c in text[1..] ==> c in text;
      TextPassed(s, text[1..]);
    }
  }

  /** Where a plus sign is heeded, or not in the way: everywhere but behind a whole "IPD" and in a payload. */
  predicate Ready(s: Ipd) {
    Resting(s) || s.st == WaitI || s.st == WaitP || s.st == WaitD
  }

  predicate AllDigits(ds: seq<int>) {
    forall i :: 0 <= i < |ds| ==> IsDigit(ds[i])
  }

  /** The text ends in "IPD," and digits. */
  ghost predicate EndsInLength(t: seq<int>) {
    exists k: nat :: LengthAt(t, k)
  }

  predicate LengthAt(t: seq<int>, k: nat) {
    k + 4 <= |t| && t[k..k + 4] == [73, 80, 68, 44] && AllDigits(t[k + 4..])
  }

  /** The text ends in "IPD,", digits and a colon. */
  ghost predicate EndsInHeader(t: seq<int>) {
    t != [] && t[|t| - 1] == 58 && EndsInLength(t[..|t| - 1])
  }

  predicate EndsIn(t: seq<int>, u: seq<int>) {
    |u| <= |t| && t[|t| - |u|..] == u
  }

  /** What the state says about the text before it. */
  ghost predicate Follows(t: seq<int>, st: St) {
    match st
    case WaitP => EndsIn(t, [73])
    case WaitD => EndsIn(t, [73, 80])
    case WaitComma => EndsIn(t, [73, 80, 68])
    case PackLen => EndsInLength(t)
    case PackData => EndsInHeader(t)
    case _ => true
  }

  lemma EndsInMore(t: seq<int>, u: seq<int>, c: int)
    requires EndsIn(t, u)
    ensures EndsIn(t + [c], u + [c])
  {
    assert (t + [c])[|t| - |u|..] == t[|t| - |u|..] + [c];
  }

  lemma FollowsStep(t: seq<int>, s: Ipd, c: int)
    requires Follows(t, s.st) && s.st != PackData && c != 255
    ensures Follows(t + [c], Step(s, c).st)
  {
    hide EndsIn, EndsInLength;
    assert (t + [c])[..|t|] == t;
    match s.st {
      case WaitI => EndsInI(t, c);
      case WaitP => EndsInMore(t, [73], c); assert [73] + [c] == [73, c];
      case WaitD => EndsInMore(t, [73, 80], c); assert [73, 80] + [c] == [73, 80, c];
      case WaitComma =>
        EndsInMore(t, [73, 80, 68], c);
        assert [73, 80, 68] + [c] == [73, 80, 68, c];
        LengthBegins(t + [c]);
      case PackLen => LengthGoesOn(t, c);
      case _ =>
    }
  }

  lemma EndsInI(t: seq<int>, c: int)
    ensures c == 73 ==> EndsIn(t + [c], [73])
  {}

  lemma LengthBegins(t: seq<int>)
    ensures EndsIn(t, [73, 80, 68, 44]) ==> EndsInLength(t)
  {
    if EndsIn(t, [73, 80, 68, 44]) {
      var k := |t| - 4;
      assert t[k..k + 4] == t[k..];
      assert LengthAt(t, k);
    }
  }

  lemma LengthGoesOn(t: seq<int>, c: int)
    requires EndsInLength(t)
    ensures IsDigit(c) ==> EndsInLength(t + [c])
  {
    var k: nat :| LengthAt(t, k);
    if IsDigit(c) {
      var u := t + [c];
      assert u[k..k + 4] == t[k..k + 4] && u[k + 4..] == t[k + 4..] + [c];
      assert LengthAt(u, k);
    }
  }

  /** No text yields a byte before "IPD,", digits and a colon have arrived. */
  lemma {:induction false} NothingBeforeHeader(s: Ipd, text: seq<int>)
    requires Resting(s) && 255 !in text && forall n :: 0 <= n <= |text| ==> !EndsInHeader(text[..n])
    ensures Output(s, text) == [] && Run(s, text).st != PackData && Follows(text, Run(s, text).st)
    decreases |text|
  {
    hide Run, Output, Step, EndsInHeader, Follows, Emits;
    if text == [] {
      RunNothing(s);
      NothingFollows(s);
    } else {
      var n := |text| - 1;
      var t, c := text[..n], text[n];
      assert forall i :: 0 <= i <= n ==> t[..i] == text[..i];
      assert text == t + [c] && c in text && text[..n + 1] == text;
      NothingBeforeHeader(s, t);
      RunAppend(s, t, [c]);
      RunOne(Run(s, t), c);
      FollowsStep(t, Run(s, t), c);
      QuietStep(text, Run(s, t), c);
    }
  }

  lemma NothingFollows(s: Ipd)
    requires Resting(s)
    ensures Follows([], s.st) && s.st != PackData
  {}

  lemma QuietStep(text: seq<int>, s: Ipd, c: int)
    requires s.st != PackData
    ensures !Emits(s, c) && (Step(s, c).st == PackData && Follows(text, PackData) ==> EndsInHeader(text))
  {}

  /** Nowhere in the text do the letters "IPD" follow each other. */
  ghost predicate NoIpd(text: seq<int>) {
    forall n :: 0 <= n <= |text| ==> !EndsIn(text[..n], [73, 80, 68])
  }

  /** After such a text no part of a header has been read that the next frame would be in the way of. */
  lemma {:induction false} TextWithoutIpd(s: Ipd, text: seq<int>)
    requires Resting(s) && 255 !in text && NoIpd(text)
    ensures Output(s, text) == [] && Ready(Run(s, text))
    ensures Follows(text, Run(s, text).st)
    decreases |text|
  {
    hide Run, Output, Step, EndsInHeader, Follows, Emits, EndsIn;
    if text == [] {
      RunNothing(s);
      NothingFollows(s);
    } else {
      var n := |text| - 1;
      var t, c := text[..n], text[n];
      assert forall i :: 0 <= i <= n ==> t[..i] == text[..i];
      assert text == t + [c] && c in text && text[..n + 1] == text;
      TextWithoutIpd(s, t);
      RunAppend(s, t, [c]);
      RunOne(Run(s, t), c);
      FollowsStep(t, Run(s, t), c);
      ReadyStep(text, Run(s, t), c);
    }
  }

  lemma ReadyStep(text: seq<int>, s: Ipd, c: int)
    requires Ready(s) && Follows(text, Step(s, c).st) && !EndsIn(text, [73, 80, 68])
    ensures !Emits(s, c) && Ready(Step(s, c))
  {}

  lemma DigitRead(m: nat, d: nat)
    requires d < 10 && m * 10 + d < 0x1_0000_0000
    ensures Run(Ipd(PackLen, m), [48 + d]) == Ipd(PackLen, m * 10 + d) && Output(Ipd(PackLen, m), [48 + d]) == []
  {
    hide Run, Output;
    RunOne(Ipd(PackLen, m), 48 + d);
  }

  lemma {:induction false} LengthRead(n: nat)
    requires n < 0x1_0000_0000
    ensures Run(Ipd(PackLen, 0), Decimal(n)) == Ipd(PackLen, n) && Output(Ipd(PackLen, 0), Decimal(n)) == []
    decreases n
  {
    hide Run, Output, Step;
    if n < 10 {
      DigitRead(0, n);
    } else {
      LengthRead(n / 10);
      RunAppend(Ipd(PackLen, 0), Decimal(n / 10), [48 + n % 10]);
      DigitRead(n / 10, n % 10);
    }
  }

  const HEAD: seq<int> := [43, 73, 80, 68, 44]  // "+IPD,"

  function Header(n: nat): seq<int> {
    HEAD + Decimal(n) + [58]
  }

  function Frame(payload: seq<int>): seq<int> {
    Header(|payload|) + payload
  }

  lemma HeadRead(s: Ipd)
    requires Ready(s)
    ensures Run(s, HEAD) == Ipd(PackLen, 0) && Output(s, HEAD) == []
  {
    hide Run, Output;
    assert HEAD == [43] + [73] + [80] + [68] + [44];
    RunAppend(s, [43] + [73] + [80] + [68], [44]);
    RunAppend(s, [43] + [73] + [80], [68]);
    RunAppend(s, [43] + [73], [80]);
    RunAppend(s, [43], [73]);
    RunOne(s, 43);
    RunOne(Ipd(WaitI, s.len), 73);
    RunOne(Ipd(WaitP, s.len), 80);
    RunOne(Ipd(WaitD, s.len), 68);
    RunOne(Ipd(WaitComma, s.len), 44);
  }

  lemma HeaderRead(s: Ipd, n: nat)
    requires Ready(s) && n < 0x1_0000_0000
    ensures Run(s, Header(n)) == Ipd(PackData, n) && Output(s, Header(n)) == []
  {
    hide Run, Output, HEAD, Decimal;
    HeadRead(s);
    LengthRead(n);
    RunAppend(s, HEAD + Decimal(n), [58]);
    RunAppend(s, HEAD, Decimal(n));
    RunOne(Ipd(PackLen, n), 58);
  }

  /** The bytes the demultiplexer sees. */
  function Seen(s: seq<int>): (r: seq<int>)
    ensures |r| <= |s| && (|r| == |s| ==> r == s) && (|r| == |s| <==> 255 !in s)
  {
    if s == [] then [] else (if s[0] == 255 then [] else [s[0]]) + Seen(s[1..])
  }

  /** While fewer bytes have been seen than announced, all are payload and more are expected. */
  lemma {:induction false} DataRead(n: nat, data: seq<int>)
    requires 0 < n < 0x1_0000_0000 && |Seen(data)| <= n && (|Seen(data)| == n ==> 255 !in data)
    ensures Output(Ipd(PackData, n), data) == Seen(data)
    ensures Run(Ipd(PackData, n), data) == if |Seen(data)| < n then Ipd(PackData, n - |Seen(data)|) else Ipd(OnData, 0)
    decreases |data|
  {
    hide Run, Output, Seen, Step, Emits;
    var s := Ipd(PackData, n);
    SeenStep(data);
    if data == [] {
      RunNothing(s);
    } else {
      RunCons(s, data);
      DataStep(n, data[0]);
      if data[0] == 255 {
        DataRead(n, data[1..]);
      } else if n > 1 {
        DataRead(n - 1, data[1..]);
      } else {
        RunNothing(Ipd(OnData, 0));
      }
    }
  }

  lemma RunCons(s: Ipd, cs: seq<int>)
    requires cs != []
    ensures Run(s, cs) == Run(Step(s, cs[0]), cs[1..])
    ensures Output(s, cs) == (if Emits(s, cs[0]) then [cs[0]] else []) + Output(Step(s, cs[0]), cs[1..])
  {}

  lemma DataStep(n: nat, c: int)
    requires 0 < n < 0x1_0000_0000
    ensures c == 255 ==> Step(Ipd(PackData, n), c) == Ipd(PackData, n) && !Emits(Ipd(PackData, n), c)
    ensures c != 255 ==> Emits(Ipd(PackData, n), c)
    ensures c != 255 ==> Step(Ipd(PackData, n), c) == Ipd(if n > 1 then PackData else OnData, n - 1)
  {}

  lemma SeenStep(data: seq<int>)
    ensures data == [] ==> Seen(data) == []
    ensures data != [] ==> Seen(data) == (if data[0] == 255 then [] else [data[0]]) + Seen(data[1..])
    ensures data != [] && 255 !in data ==> 255 !in data[1..] && data[0] != 255
  {}

  /**
   A frame that arrives when the demultiplexer is ready is delivered whole, and leaves it resting, exactly when its
   payload is not empty and has no byte 0xFF.
   */
  lemma FrameDelivered(s: Ipd, payload: seq<int>)
    requires Ready(s) && |payload| < 0x1_0000_0000
    ensures Output(s, Frame(payload)) == payload && Resting(Run(s, Frame(payload))) <==>
              payload != [] && 255 !in payload
  {
    hide Run, Output, Header;
    var n := |payload|;
    HeaderRead(s, n);
    RunAppend(s, Header(n), payload);
    if payload == [] {
      RunNothing(Ipd(PackData, 0));
    } else {
      DataRead(n, payload);
    }
  }

  lemma {:induction false} OutputShorter(s: Ipd, cs: seq<int>)
    ensures |Output(s, cs)| <= |cs| && (cs != [] && !Emits(s, cs[0]) ==> |Output(s, cs)| < |cs|)
    decreases |cs|
  {
    if cs != [] { OutputShorter(Step(s, cs[0]), cs[1..]); }
  }

  /** Behind a whole "IPD", or in a length, the plus sign of a frame is taken for an error, and the frame is lost. */
  lemma FrameLost(s: Ipd, payload: seq<int>)
    requires (s.st == WaitComma || s.st == PackLen) && payload != []
    ensures Output(s, Frame(payload)) != payload
  {
    hide Run, Output, Decimal;
    var e := s.(st := OnErr);
    var rest := [73, 80, 68, 44] + Decimal(|payload|) + [58];
    DigitsOnly(|payload|);
    assert Frame(payload) == [43] + (rest + payload);
    RunAppend(s, [43], rest + payload);
    RunOne(s, 43);
    TextPassed(e, rest);
    RunAppend(e, rest, payload);
    OutputShorter(e, payload);
  }

  lemma {:induction false} DigitsOnly(n: nat)
    ensures 43 !in Decimal(n)
    decreases n
  {
    if n >= 10 { DigitsOnly(n / 10); }
  }

  /** An empty payload leaves the demultiplexer waiting for data, and a byte 0xFF in one is lost. */
  lemma FrameFails()
    ensures !Resting(Run(Ipd(WaitPlus, 0), Frame([])))
    ensures Output(Ipd(WaitPlus, 0), Frame([65, 255])) == [65] && !Resting(Run(Ipd(WaitPlus, 0), Frame([65, 255])))
  {
    hide Run, Output, Header, Step, Emits;
    var s := Ipd(WaitPlus, 0);
    HeaderRead(s, 0);
    RunAppend(s, Header(0), []);
    RunNothing(Ipd(PackData, 0));
    HeaderRead(s, 2);
    RunAppend(s, Header(2), [65, 255]);
    assert [65, 255][1..] == [255] && [255][1..] == [];
    assert Seen([255]) == [] && Seen([65, 255]) == [65];
    DataRead(2, [65, 255]);
  }

  lemma RunNothing(s: Ipd)
    ensures Run(s, []) == s && Output(s, []) == []
  {}

  /** What the module sends: frames, and text between them. */
  datatype Piece = Text(text: seq<int>) | Packet(payload: seq<int>)

  /** A text without a plus sign or without "IPD", and a payload that can be delivered. */
  ghost predicate Clean(p: Piece) {
    match p
    case Text(text) => 43 !in text || NoIpd(Seen(text))
    case Packet(payload) => 0 < |payload| < 0x1_0000_0000 && 255 !in payload
  }

  /** Clean pieces, and all the text between two frames in one. */
  ghost predicate CleanStream(ps: seq<Piece>) {
    && (forall i :: 0 <= i < |ps| ==> Clean(ps[i]))
    && (forall i :: 0 <= i < |ps| - 1 ==> ps[i].Packet? || ps[i + 1].Packet?)
  }

  function Sent(ps: seq<Piece>): seq<int> {
    if ps == [] then []
    else (if ps[0].Text? then ps[0].text else Frame(ps[0].payload)) + Sent(ps[1..])
  }

  function Payloads(ps: seq<Piece>): seq<int> {
    if ps == [] then [] else (if ps[0].Text? then [] else ps[0].payload) + Payloads(ps[1..])
  }

  /** A byte 0xFF is not there for the demultiplexer. */
  lemma {:induction false} SeenIsAll(s: Ipd, cs: seq<int>)
    ensures Run(s, cs) == Run(s, Seen(cs)) && Output(s, cs) == Output(s, Seen(cs)) && 255 !in Seen(cs)
    decreases |cs|
  {
    hide Step, Run, Output, Seen, Emits;
    SeenStep(cs);
    if cs != [] {
      SeenIsAll(Step(s, cs[0]), cs[1..]);
      RunCons(s, cs);
      var r := Seen(cs[1..]);
      if cs[0] == 255 {
        Ignored(s);
        assert [] + r == r;
      } else {
        RunCons(s, [cs[0]] + r);
        assert ([cs[0]] + r)[1..] == r;
      }
    }
  }

  lemma Ignored(s: Ipd)
    ensures Step(s, 255) == s && !Emits(s, 255)
  {}

  /** A clean piece that arrives at rest, or a frame that arrives when all is ready. */
  lemma PieceDelivered(s: Ipd, p: Piece)
    requires Clean(p) && (Resting(s) || (Ready(s) && p.Packet?))
    ensures var cs := if p.Text? then p.text else Frame(p.payload);
            && Output(s, cs) == (if p.Text? then [] else p.payload) && Ready(Run(s, cs))
            && (p.Packet? || 43 !in p.text ==> Resting(Run(s, cs)))
  {
    hide Run, Output, Frame, NoIpd;
    match p {
      case Text(text) =>
        if 43 !in text {
          TextPassed(s, text);
        } else {
          SeenIsAll(s, text);
          TextWithoutIpd(s, Seen(text));
        }
      case Packet(payload) => FrameDelivered(s, payload);
    }
  }

  /** Any stream of clean pieces yields the payloads in a row. */
  lemma {:induction false} StreamDelivered(s: Ipd, ps: seq<Piece>)
    requires CleanStream(ps) && (Resting(s) || (Ready(s) && (ps == [] || ps[0].Packet?)))
    ensures Output(s, Sent(ps)) == Payloads(ps) && Ready(Run(s, Sent(ps)))
    ensures ps != [] && (ps[|ps| - 1].Packet? || 43 !in ps[|ps| - 1].text) ==> Resting(Run(s, Sent(ps)))
    decreases |ps|
  {
    hide Run, Output, Frame, Clean, Ready, Resting;
    if ps == [] {
      RunNothing(s);
      RestIsReady(s);
    } else {
      assert Clean(ps[0]);
      var first := if ps[0].Text? then ps[0].text else Frame(ps[0].payload);
      PieceDelivered(s, ps[0]);
      RunAppend(s, first, Sent(ps[1..]));
      StreamDelivered(Run(s, first), ps[1..]);
      if |ps| == 1 { RunNothing(Run(s, first)); }
    }
  }

  lemma RestIsReady(s: Ipd)
    ensures Resting(s) ==> Ready(s)
  {}

  class Wifi {
    const ring: ERingBuffer
    var st: St
    var len: nat

    constructor (ring: ERingBuffer)
      ensures this.ring == ring && State() == Ipd(WaitPlus, 0)
    {
      this.ring := ring;
      st, len := WaitPlus, 0;
    }

    ghost function State(): Ipd
      reads this
    {
      Ipd(st, len)
    }

    /** do_ipd_fsm: a payload byte goes to the ring buffer, if there is room. */
    method Feed(c: int)
      requires ring.Valid()
      modifies this, ring`writeStream, ring`used, ring.buffer
      ensures ring.Valid() && State() == Step(old(State()), c)
      ensures ring.Contents() == old(ring.Contents()) +
                                 if Emits(old(State()), c) && old(ring.used) < ring.size then [c] else []
    {
      hide ERingBuffer.Contents;
      if c == 255 {
        return;
      }
      match st {
        case OnErr => if c == 43 { st := WaitI; }
        case OnData => if c == 43 { st := WaitI; }
        case WaitPlus => if c == 43 { st := WaitI; }
        case WaitI => if c == 73 { st := WaitP; } else { st := WaitI; }
        case WaitP => if c == 80 { st := WaitD; } else { st := WaitI; }
        case WaitD => if c == 68 { st := WaitComma; } else { st := WaitI; }
        case WaitComma => if c == 44 { len, st := 0, PackLen; } else { st := OnErr; }
        case PackLen =>
          if IsDigit(c) {
            len := (len * 10 + (c - 48)) % 0x1_0000_0000;
          } else if c == 58 {
            st := PackData;
          } else {
            st := OnErr;
          }
        case PackData =>
          var n := ring.Write([c]);
          len := (len - 1) % 0x1_0000_0000;
          if len > 0 {
            st := PackData;
          } else {
            st := OnData;
          }
      }
    }
  }

  /** A character arrives, or the program reads up to `n` bytes. */
  datatype Event = Arrives(c: int) | Takes(n: nat)

  function Arrived(evs: seq<Event>): seq<int> {
    if evs == [] then []
    else Arrived(evs[..|evs| - 1]) + if evs[|evs| - 1].Arrives? then [evs[|evs| - 1].c] else []
  }

  lemma ArrivedNone()
    ensures Arrived([]) == []
  {}

  lemma ArrivedNext(evs: seq<Event>, i: nat)
    requires i < |evs|
    ensures Arrived(evs[..i + 1]) == if evs[i].Arrives? then Arrived(evs[..i]) + [evs[i].c] else Arrived(evs[..i])
  {
    assert evs[..i + 1][..i] == evs[..i];
  }

  /** From `fill` bytes on, the buffer always has room for the next payload byte. */
  predicate NeverFull(size: nat, fill: nat, s: Ipd, evs: seq<Event>)
    decreases |evs|
  {
    evs == [] ||
    match evs[0]
    case Arrives(c) =>
      if Emits(s, c) then fill < size && NeverFull(size, fill + 1, Step(s, c), evs[1..])
      else NeverFull(size, fill, Step(s, c), evs[1..])
    case Takes(n) => NeverFull(size, fill - Least(n, fill), s, evs[1..])
  }

  /**
   Characters and reads in any order: as long as the buffer is never full, what has been read
   followed by what is still buffered is what was buffered at first followed by the payloads.
   */
  method Serve(w: Wifi, evs: seq<Event>) returns (taken: seq<int>)
    requires w.ring.Valid()
    modifies w, w.ring, w.ring.buffer
    ensures w.ring.Valid() && w.State() == Run(old(w.State()), Arrived(evs))
    ensures NeverFull(w.ring.size, old(w.ring.used), old(w.State()), evs) ==>
              taken + w.ring.Contents() == old(w.ring.Contents()) + Output(old(w.State()), Arrived(evs))
  {
    hide ERingBuffer.Contents, ERingBuffer.Valid, Run, Output, Step, Emits, Arrived, NeverFull;
    taken := [];
    ghost var s, c0 := w.State(), w.ring.Contents();
    ghost var ok := NeverFull(w.ring.size, w.ring.used, s, evs);
    RunNothing(s);
    ArrivedNone();
    assert evs[..0] == [] && evs[0..] == evs;
    for i := 0 to |evs|
      invariant w.ring.Valid() && w.State() == Run(s, Arrived(evs[..i]))
      invariant ok ==> NeverFull(w.ring.size, w.ring.used, w.State(), evs[i..])
      invariant ok ==> taken + w.ring.Contents() == c0 + Output(s, Arrived(evs[..i]))
    {
      ArrivedNext(evs, i);
      NeverFullNext(w.ring.size, w.ring.used, w.State(), evs, i);
      match evs[i] {
        case Arrives(c) =>
          ServeChar(w, c, s, Arrived(evs[..i]), taken, c0);
        case Takes(n) =>
          var data := ServeRead(w, n, taken);
          taken := taken + data;
      }
    }
    assert evs[..|evs|] == evs;
  }

  /** One character arrives. */
  method ServeChar(w: Wifi, c: int, ghost s: Ipd, ghost cs: seq<int>, ghost taken: seq<int>, ghost c0: seq<int>)
    requires w.ring.Valid() && w.State() == Run(s, cs)
    modifies w, w.ring`writeStream, w.ring`used, w.ring.buffer
    ensures w.ring.Valid() && w.State() == Run(s, cs + [c]) == Step(old(w.State()), c)
    ensures !Emits(old(w.State()), c) ==> w.ring.used == old(w.ring.used)
    ensures Emits(old(w.State()), c) && old(w.ring.used) < w.ring.size ==> w.ring.used == old(w.ring.used) + 1
    ensures old(taken + w.ring.Contents() == c0 + Output(s, cs)) &&
              (Emits(old(w.State()), c) ==> old(w.ring.used) < w.ring.size) ==>
              taken + w.ring.Contents() == c0 + Output(s, cs + [c])
  {
    hide ERingBuffer.Contents, Run, Output, Step, Emits;
    RunAppend(s, cs, [c]);
    RunOne(w.State(), c);
    ghost var b := w.ring.Contents();
    w.Feed(c);
    Regroup(taken, b, [c], c0, Output(s, cs));
    assert b + [] == b;
  }

  lemma Regroup(taken: seq<int>, b: seq<int>, c: seq<int>, c0: seq<int>, o: seq<int>)
    ensures taken + b == c0 + o ==> taken + (b + c) == c0 + (o + c)
    ensures o + [] == o
  {
    assert taken + (b + c) == taken + b + c;
    assert c0 + (o + c) == c0 + o + c;
  }

  /** The program reads. */
  method ServeRead(w: Wifi, n: nat, ghost taken: seq<int>) returns (data: seq<int>)
    requires w.ring.Valid()
    modifies w.ring`readStream, w.ring`used
    ensures w.ring.Valid() && w.ring.used == old(w.ring.used) - Least(n, old(w.ring.used))
    ensures taken + data + w.ring.Contents() == old(taken + w.ring.Contents())
  {
    hide ERingBuffer.Contents;
    ghost var c := w.ring.Contents();
    data := w.ring.Read(n, true);
    assert c == data + w.ring.Contents();
    assert taken + data + w.ring.Contents() == taken + c;
  }

  lemma NeverFullNext(size: nat, fill: nat, s: Ipd, evs: seq<Event>, i: nat)
    requires i < |evs|
    ensures NeverFull(size, fill, s, evs[i..]) ==>
              match evs[i]
              case Arrives(c) =>
                && (Emits(s, c) ==> fill < size)
                && NeverFull(size, if Emits(s, c) then fill + 1 else fill, Step(s, c), evs[i + 1..])
              case Takes(n) => NeverFull(size, fill - Least(n, fill), s, evs[i + 1..])
  {
    hide Step, Emits;
    assert evs[i..][1..] == evs[i + 1..];
  }

  /** So a program that reads while clean pieces arrive gets exactly the payloads. */
  method Receive(w: Wifi, evs: seq<Event>, ghost ps: seq<Piece>) returns (taken: seq<int>)
    requires w.ring.Valid() && Resting(w.State()) && w.ring.Contents() == []
    requires CleanStream(ps)
    requires Arrived(evs) == Sent(ps) && NeverFull(w.ring.size, 0, w.State(), evs)
    modifies w, w.ring, w.ring.buffer
    ensures w.ring.Valid() && Ready(w.State()) && taken + w.ring.Contents() == Payloads(ps)
    ensures ps != [] && (ps[|ps| - 1].Packet? || 43 !in ps[|ps| - 1].text) ==> Resting(w.State())
  {
    hide ERingBuffer.Contents, Run, Output, NeverFull, Sent, Arrived, Payloads;
    StreamDelivered(w.State(), ps);
    taken := Serve(w, evs);
  }
}
