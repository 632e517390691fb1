/**
 The double-buffered block transfer of the mass storage driver, in both directions, as a state
 machine: the steps of the transfer thread interleaved with the USB completion interrupts in any
 order. A transfer or a block device access is not atomic: while it fills a half of the buffer,
 that half may hold anything.
 */
module UsbTransfer {
  import opened Bounds

  type Block = seq<int>

  /** The endpoint is idle or moves the given half of the buffer. */
  datatype Usb = Idle | Busy(half: nat)

  /** A READ(10) or WRITE(10) command: `host` are the blocks the host sends, `device` those on the medium. */
  datatype Job = Job(base: nat, total: nat, host: nat -> Block, device: nat -> Block)

  /** The address of block `k`; addresses have 32 bits. */
  function Address(job: Job, k: nat): nat {
    (job.base + k) % 0x1_0000_0000
  }

  // ---------- WRITE(10): from the host to the block device ----------

  datatype WPc = WStart | WFirst | WHead | WQueue | WWrite | WWriting | WAwait | WDone | WHalted

  /** `sem` is the binary semaphore, `got` counts the blocks received, `log` holds what has been written where. */
  datatype W = W(pc: WPc, i: nat, addr: nat, buf: seq<Block>, usb: Usb, sem: nat, got: nat, log: seq<(nat, Block)>)

  ghost predicate WInit(job: Job, s: W) {
    s.pc == WStart && s.i == 0 && s.addr == Address(job, 0) && |s.buf| == 2 && s.usb == Idle && s.sem == 0 &&
      s.got == 0 && s.log == []
  }

  /** What the thread does next. */
  ghost predicate WThread(job: Job, s: W, t: W)
    requires |s.buf| == 2
  {
    match s.pc
    case WStart => t == s.(pc := WFirst, usb := Busy(0))
    case WFirst => s.sem > 0 && t == s.(pc := WHead, sem := 0)
    case WHead => t == s.(pc := if s.i < job.total then WQueue else WDone)
    case WQueue => t == s.(pc := WWrite, usb := if s.i + 1 < job.total then Busy((s.i + 1) % 2) else s.usb)
    case WWrite => t == s.(pc := WWriting)
    case WWriting =>
      || t == s.(pc := WAwait, addr := (s.addr + 1) % 0x1_0000_0000, log := s.log + [(s.addr, s.buf[s.i % 2])])
      || t == s.(pc := WHalted)
    case WAwait =>
      && (s.i + 1 < job.total ==> s.sem > 0)
      && t == s.(pc := WHead, i := s.i + 1, sem := if s.i + 1 < job.total then 0 else s.sem)
    case _ => false
  }

  /** The transfer completes: the block is in its half and the interrupt signals the semaphore. */
  ghost predicate WComplete(job: Job, s: W, t: W) {
    && s.usb.Busy? && s.usb.half < |s.buf|
    && t == s.(usb := Idle, buf := s.buf[s.usb.half := job.host(s.got)], got := s.got + 1, sem := 1)
  }

  /** A part of the block arrives. */
  ghost predicate WPartial(s: W, t: W) {
    s.usb.Busy? && s.usb.half < |s.buf| == |t.buf| && t == s.(buf := s.buf[s.usb.half := t.buf[s.usb.half]])
  }

  ghost predicate WNext(job: Job, s: W, t: W) {
    |s.buf| == 2 && (WThread(job, s, t) || WComplete(job, s, t) || WPartial(s, t))
  }

  /** The transfer of block `k` into its half is under way, or done and signalled. */
  ghost predicate WIncoming(job: Job, s: W, k: nat)
    requires |s.buf| == 2
  {
    || (s.usb == Busy(k % 2) && s.sem == 0 && s.got == k)
    || (s.usb == Idle && s.sem == 1 && s.got == k + 1 && s.buf[k % 2] == job.host(k))
  }

  ghost predicate WQuiet(s: W) {
    s.usb == Idle && s.sem == 0
  }

  /** Behind block `i` the next one is coming in, if there is one. */
  ghost predicate WBehind(job: Job, s: W)
    requires |s.buf| == 2
  {
    if s.i + 1 < job.total then WIncoming(job, s, s.i + 1) else WQuiet(s) && s.got == s.i + 1
  }

  ghost predicate WLogged(job: Job, s: W, n: nat) {
    |s.log| == n && s.addr == Address(job, n) && forall k :: 0 <= k < n ==> s.log[k] == (Address(job, k), job.host(k))
  }

  /** The inductive invariant. */
  ghost predicate WInv(job: Job, s: W) {
    && |s.buf| == 2
    && match s.pc {
         case WStart => s.i == 0 && WQuiet(s) && s.got == 0 && WLogged(job, s, 0)
         case WFirst => s.i == 0 && WIncoming(job, s, 0) && WLogged(job, s, 0)
         case WHead =>
           && s.i <= job.total && WQuiet(s) && WLogged(job, s, s.i)
           && (if s.i < job.total then s.got == s.i + 1 && s.buf[s.i % 2] == job.host(s.i)
             else s.got == Max(job.total, 1))
         case WQueue => s.i < job.total && WQuiet(s) && s.got == s.i + 1 && s.buf[s.i % 2] == job.host(s.i) &&
           WLogged(job, s, s.i)
         case WWrite => s.i < job.total && WBehind(job, s) && s.buf[s.i % 2] == job.host(s.i) && WLogged(job, s, s.i)
         case WWriting => s.i < job.total && WBehind(job, s) && s.buf[s.i % 2] == job.host(s.i) && WLogged(job, s, s.i)
         case WAwait => s.i < job.total && WBehind(job, s) && WLogged(job, s, s.i + 1)
         case WDone => s.i == job.total && WQuiet(s) && s.got == Max(job.total, 1) && WLogged(job, s, job.total)
         case WHalted => s.i < job.total && WBehind(job, s) && WLogged(job, s, s.i)
       }
  }

  /** What the protocol promises in every state. */
  ghost predicate WSafe(job: Job, s: W) {
    // the blocks go to the device in order, each to its own address
    && |s.log| <= job.total && (forall k :: 0 <= k < |s.log| ==> s.log[k] == (Address(job, k), job.host(k)))
    // no half is filled and drained at once
    && (s.pc == WWriting && s.usb.Busy? ==> s.usb.half != s.i % 2)
    // a transfer is started only on an idle endpoint
    && (s.pc == WStart || s.pc == WQueue ==> s.usb == Idle)
    // at most one transfer or one signal that has not been consumed
    && s.sem <= 1 && (s.usb.Busy? ==> s.sem == 0)
    // at the end everything has been moved
    && (s.pc == WDone ==> |s.log| == job.total && s.got == Max(job.total, 1) && WQuiet(s))
  }

  lemma WInvIsSafe(job: Job, s: W)
    requires WInv(job, s)
    ensures WSafe(job, s)
  {}

  lemma WInvInit(job: Job, s: W)
    requires WInit(job, s)
    ensures WInv(job, s)
  {}

  lemma WrittenNext(job: Job, s: W, n: nat, t: W)
    requires WLogged(job, s, n) && t.addr == (s.addr + 1) % 0x1_0000_0000 && t.log == s.log + [(s.addr, job.host(n))]
    ensures WLogged(job, t, n + 1)
  {
    AddressNext(job, n);
  }

  lemma AddressNext(job: Job, n: nat)
    ensures Address(job, n + 1) == (Address(job, n) + 1) % 0x1_0000_0000
  {}

  lemma WThreadKeeps(job: Job, s: W, t: W)
    requires WInv(job, s) && WThread(job, s, t)
    ensures WInv(job, t)
  {
    hide Address, WLogged;
    WSameLog(job, s, t);
    if s.pc == WWriting && t.pc == WAwait {
      WrittenNext(job, s, s.i, t);
    }
  }

  lemma WSameLog(job: Job, s: W, t: W)
    ensures s.log == t.log && s.addr == t.addr ==> forall n :: WLogged(job, s, n) == WLogged(job, t, n)
  {}

  lemma WUsbKeeps(job: Job, s: W, t: W)
    requires WInv(job, s) && (WComplete(job, s, t) || WPartial(s, t))
    ensures WInv(job, t)
  {
    hide Address, WLogged;
    WSameLog(job, s, t);
  }

  /** Every run of the thread and the interrupts, in whatever order, stays safe. */
  lemma {:induction false} WRunIsSafe(job: Job, run: seq<W>, n: nat)
    requires 0 < |run| && WInit(job, run[0]) && forall k :: 0 <= k < |run| - 1 ==> WNext(job, run[k], run[k + 1])
    requires n < |run|
    ensures WInv(job, run[n]) && WSafe(job, run[n])
    decreases n
  {
    if n == 0 {
      WInvInit(job, run[0]);
    } else {
      WRunIsSafe(job, run, n - 1);
      var s, t := run[n - 1], run[n];
      assert WNext(job, s, t);
      if WThread(job, s, t) {
        WThreadKeeps(job, s, t);
      } else {
        WUsbKeeps(job, s, t);
      }
    }
    WInvIsSafe(job, run[n]);
  }

  /** Five steps for each block that is left. */
  ghost function Rest(job: Job, i: nat): nat {
    if i < job.total then 5 * (job.total - i) else 0
  }

  lemma RestNext(job: Job, i: nat)
    requires i < job.total
    ensures Rest(job, i) == Rest(job, i + 1) + 5
  {}

  /** The thread steps that are left. */
  ghost function WLeft(job: Job, s: W): nat {
    var r := Rest(job, s.i);
    match s.pc
    case WStart => r + 3
    case WFirst => r + 2
    case WHead => r + 1
    case WQueue => r
    case WWrite => Max(r, 1) - 1
    case WWriting => Max(r, 2) - 2
    case WAwait => Max(r, 3) - 3
    case WDone => 0
    case WHalted => 0
  }

  ghost function WMeasure(job: Job, s: W): nat {
    2 * WLeft(job, s) + if s.usb.Busy? then 1 else 0
  }

  /** The transfer is never stuck: the thread can go on without a failure, or waits for a transfer under way. */
  lemma WNeverStuck(job: Job, s: W) returns (t: W)
    requires WInv(job, s) && s.pc != WDone && s.pc != WHalted
    ensures (WThread(job, s, t) || WComplete(job, s, t)) && t.pc != WHalted
  {
    if s.usb.Busy? {
      t := s.(usb := Idle, buf := s.buf[s.usb.half := job.host(s.got)], got := s.got + 1, sem := 1);
    } else {
      match s.pc {
        case WStart => t := s.(pc := WFirst, usb := Busy(0));
        case WFirst => t := s.(pc := WHead, sem := 0);
        case WHead => t := s.(pc := if s.i < job.total then WQueue else WDone);
        case WQueue => t := s.(pc := WWrite, usb := if s.i + 1 < job.total then Busy((s.i + 1) % 2) else s.usb);
        case WWrite => t := s.(pc := WWriting);
        case WWriting =>
          t := s.(pc := WAwait, addr := (s.addr + 1) % 0x1_0000_0000, log := s.log + [(s.addr, s.buf[s.i % 2])]);
        case WAwait => t := s.(pc := WHead, i := s.i + 1, sem := if s.i + 1 < job.total then 0 else s.sem);
      }
    }
  }

  /** And every step of the thread or interrupt brings it closer to its end. */
  lemma WComesToAnEnd(job: Job, s: W, t: W)
    requires WInv(job, s) && (WThread(job, s, t) || WComplete(job, s, t))
    ensures WMeasure(job, t) < WMeasure(job, s)
  {
    hide WLogged, Address, WIncoming, WBehind, WQuiet, Rest;
    if s.i < job.total { RestNext(job, s.i); }
  }

  /** As long as the device does not fail, the command can be brought to its end: all blocks are written. */
  lemma {:induction false} WCanFinish(job: Job, s: W) returns (run: seq<W>)
    requires WInv(job, s) && s.pc != WHalted
    ensures 0 < |run| && run[0] == s && forall k :: 0 <= k < |run| - 1 ==> WNext(job, run[k], run[k + 1])
    ensures run[|run| - 1].pc == WDone && |run[|run| - 1].log| == job.total
    decreases WMeasure(job, s)
  {
    hide WInv, WThread, WComplete, WPartial, WMeasure, WSafe;
    if s.pc == WDone {
      WInvIsSafe(job, s);
      WFinished(job, s);
      run := [s];
    } else {
      var t := WNeverStuck(job, s);
      WTwoHalves(job, s);
      WComesToAnEnd(job, s, t);
      if WThread(job, s, t) {
        WThreadKeeps(job, s, t);
      } else {
        WUsbKeeps(job, s, t);
      }
      var rest := WCanFinish(job, t);
      run := [s] + rest;
      assert forall k :: 0 < k < |run| ==> run[k] == rest[k - 1];
    }
  }

  lemma WFinished(job: Job, s: W)
    requires WSafe(job, s) && s.pc == WDone
    ensures |s.log| == job.total
  {}

  /** The steps of the thread and completions among the first `n` of a run; the others are partial arrivals. */
  ghost function WSteps(job: Job, run: seq<W>, n: nat): nat
    requires n < |run| && forall k :: 0 <= k < |run| ==> |run[k].buf| == 2
    decreases n
  {
    if n == 0 then 0
    else WSteps(job, run, n - 1) +
         if WThread(job, run[n - 1], run[n]) || WComplete(job, run[n - 1], run[n]) then 1 else 0
  }

  lemma WPartialIsIdle(job: Job, s: W, t: W)
    requires WPartial(s, t)
    ensures WMeasure(job, t) == WMeasure(job, s)
  {}

  lemma {:induction false} WStepsBound(job: Job, run: seq<W>, n: nat)
    requires 0 < |run| && WInit(job, run[0]) && forall k :: 0 <= k < |run| - 1 ==> WNext(job, run[k], run[k + 1])
    requires n < |run| && forall k :: 0 <= k < |run| ==> WInv(job, run[k]) && |run[k].buf| == 2
    ensures WMeasure(job, run[n]) + WSteps(job, run, n) <= 10 * job.total + 6
    decreases n
  {
    hide WInv, WThread, WComplete, WPartial, WMeasure;
    if n == 0 {
      WStartMeasure(job, run[0]);
    } else {
      WStepsBound(job, run, n - 1);
      var s, t := run[n - 1], run[n];
      assert WNext(job, s, t);
      if WThread(job, s, t) || WComplete(job, s, t) {
        WComesToAnEnd(job, s, t);
      } else {
        WPartialIsIdle(job, s, t);
      }
    }
  }

  lemma WStartMeasure(job: Job, s: W)
    requires WInit(job, s)
    ensures WMeasure(job, s) <= 10 * job.total + 6
  {}

  /** So every run has at most ten steps of thread and interrupt for each block, and six more. */
  lemma WRunLength(job: Job, run: seq<W>)
    requires 0 < |run| && WInit(job, run[0]) && forall k :: 0 <= k < |run| - 1 ==> WNext(job, run[k], run[k + 1])
    ensures forall k :: 0 <= k < |run| ==> |run[k].buf| == 2
    ensures WSteps(job, run, |run| - 1) <= 10 * job.total + 6
  {
    hide WInv, WNext, WInit, WMeasure, WSteps, WSafe;
    forall k | 0 <= k < |run| ensures WInv(job, run[k]) && |run[k].buf| == 2 {
      WRunIsSafe(job, run, k);
      WTwoHalves(job, run[k]);
    }
    WStepsBound(job, run, |run| - 1);
  }

  lemma WTwoHalves(job: Job, s: W)
    requires WInv(job, s)
    ensures |s.buf| == 2
  {}

  // ---------- READ(10): from the block device to the host ----------

  datatype RPc = RStart | RFirst | RHead | RSend | RFetch | RFetching | RAwait | RDone | RHalted

  /** `sent` are the blocks the host has received; `retried` is set when the first read has failed once. */
  datatype R = R(pc: RPc, i: nat, addr: nat, buf: seq<Block>, usb: Usb, sem: nat, retried: bool, sent: seq<Block>)

  ghost predicate RInit(job: Job, s: R) {
    s.pc == RStart && s.i == 0 && s.addr == Address(job, 0) && |s.buf| == 2 && s.usb == Idle && s.sem == 0 &&
      !s.retried && s.sent == []
  }

  /** The half of the buffer that the block device fills, if it does. */
  ghost function RFilling(s: R): (h: int)
    ensures h < 2
  {
    if s.pc == RFirst then 0 else if s.pc == RFetching then (s.i + 1) % 2 else -1
  }

  /** A block has been read into its half. */
  ghost function RRead(job: Job, s: R, half: nat, pc: RPc): R
    requires |s.buf| == 2 && half < 2
  {
    s.(pc := pc, buf := s.buf[half := job.device(s.addr)], addr := (s.addr + 1) % 0x1_0000_0000)
  }

  ghost predicate RThread(job: Job, s: R, t: R)
    requires |s.buf| == 2
  {
    match s.pc
    case RStart => t == s.(pc := RFirst)
    case RFirst =>
      || t == RRead(job, s, 0, RHead)
      || t == if s.retried then s.(pc := RHalted) else s.(pc := RStart, retried := true)
    case RHead => t == s.(pc := if s.i < job.total then RSend else RDone)
    case RSend => t == s.(pc := RFetch, usb := Busy(s.i % 2))
    case RFetch => t == s.(pc := if s.i + 1 < job.total then RFetching else RAwait)
    case RFetching => t == RRead(job, s, (s.i + 1) % 2, RAwait) || t == s.(pc := RHalted)
    case RAwait => s.sem > 0 && t == s.(pc := RHead, i := s.i + 1, sem := 0)
    case _ => false
  }

  /** The host has received the block and the interrupt signals the semaphore. */
  ghost predicate RComplete(s: R, t: R) {
    && s.usb.Busy? && s.usb.half < |s.buf|
    && t == s.(usb := Idle, sent := s.sent + [s.buf[s.usb.half]], sem := 1)
  }

  /** A part of a block has been read from the device. */
  ghost predicate RPartial(s: R, t: R) {
    var h := RFilling(s);
    |s.buf| == |t.buf| == 2 && 0 <= h && t == s.(buf := s.buf[h := t.buf[h]])
  }

  ghost predicate RNext(job: Job, s: R, t: R) {
    |s.buf| == 2 && (RThread(job, s, t) || RComplete(s, t) || RPartial(s, t))
  }

  ghost predicate RQuiet(s: R) {
    s.usb == Idle && s.sem == 0
  }

  /** Block `i` is on its way to the host, or there and signalled. */
  ghost predicate ROutgoing(job: Job, s: R)
    requires |s.buf| == 2
  {
    || (s.usb == Busy(s.i % 2) && s.sem == 0 && s.buf[s.i % 2] == job.device(Address(job, s.i)) && RSent(job, s, s.i))
    || (RArrived(s) && RSent(job, s, s.i + 1))
  }

  ghost predicate RArrived(s: R) {
    s.usb == Idle && s.sem == 1
  }

  ghost predicate RSent(job: Job, s: R, n: nat) {
    |s.sent| == n && forall k :: 0 <= k < n ==> s.sent[k] == job.device(Address(job, k))
  }

  /** The next block has been read ahead, if there is one. */
  ghost predicate RAhead(job: Job, s: R)
    requires |s.buf| == 2
  {
    if s.i + 1 < job.total then s.addr == Address(job, s.i + 2) &&
      s.buf[(s.i + 1) % 2] == job.device(Address(job, s.i + 1))
    else s.addr == Address(job, s.i + 1)
  }

  ghost predicate RInv(job: Job, s: R) {
    && |s.buf| == 2
    && match s.pc {
         case RStart => s.i == 0 && RQuiet(s) && RSent(job, s, 0) && s.addr == Address(job, 0)
         case RFirst => s.i == 0 && RQuiet(s) && RSent(job, s, 0) && s.addr == Address(job, 0)
         case RHead =>
           && s.i <= job.total && RQuiet(s) && RSent(job, s, s.i)
           && (s.i < job.total ==> s.addr == Address(job, s.i + 1) && s.buf[s.i % 2] == job.device(Address(job, s.i)))
           && (s.i == job.total ==> s.addr == Address(job, Max(job.total, 1)))
         case RSend =>
           && s.i < job.total && RQuiet(s) && RSent(job, s, s.i)
           && s.addr == Address(job, s.i + 1) && s.buf[s.i % 2] == job.device(Address(job, s.i))
         case RFetch => s.i < job.total && ROutgoing(job, s) && s.addr == Address(job, s.i + 1)
         case RFetching => s.i + 1 < job.total && ROutgoing(job, s) && s.addr == Address(job, s.i + 1)
         case RAwait => s.i < job.total && ROutgoing(job, s) && RAhead(job, s)
         case RDone => s.i == job.total && RQuiet(s) && RSent(job, s, job.total) &&
           s.addr == Address(job, Max(job.total, 1))
         case RHalted =>
           (s.i == 0 && RQuiet(s) && RSent(job, s, 0) && s.retried) || (s.i < job.total && ROutgoing(job, s))
       }
  }

  ghost predicate RSafe(job: Job, s: R) {
    // the host receives the blocks in order, each from its own address
    && |s.sent| <= job.total && (forall k :: 0 <= k < |s.sent| ==> s.sent[k] == job.device(Address(job, k)))
    // no half is filled and drained at once
    && (s.usb.Busy? ==> s.usb.half != RFilling(s))
    // a transfer is started only on an idle endpoint
    && (s.pc == RSend ==> s.usb == Idle)
    // at most one transfer or one signal that has not been consumed
    && s.sem <= 1 && (s.usb.Busy? ==> s.sem == 0)
    // before anything has been sent or is being sent, the command is given up only after a second try
    && (s.pc == RHalted && s.sent == [] && RQuiet(s) ==> s.retried)
    // at the end everything has been moved
    && (s.pc == RDone ==> |s.sent| == job.total && RQuiet(s))
  }

  lemma RInvIsSafe(job: Job, s: R)
    requires RInv(job, s)
    ensures RSafe(job, s)
  {
    hide Address;
  }

  lemma RThreadKeeps(job: Job, s: R, t: R)
    requires RInv(job, s) && RThread(job, s, t)
    ensures RInv(job, t)
  {
    hide RInv, RThread;
    if s.pc == RFirst || s.pc == RFetching {
      RReadKeeps(job, s, t);
    } else {
      RMoveKeeps(job, s, t);
    }
  }

  /** The end of a read from the device. */
  lemma RReadKeeps(job: Job, s: R, t: R)
    requires RInv(job, s) && RThread(job, s, t) && (s.pc == RFirst || s.pc == RFetching)
    ensures RInv(job, t)
  {
    hide Address, RSent;
    RSameSent(job, s, t);
    AddressNext(job, s.i);
    AddressNext(job, s.i + 1);
  }

  /** The other steps of the thread. */
  lemma RMoveKeeps(job: Job, s: R, t: R)
    requires RInv(job, s) && RThread(job, s, t) && s.pc != RFirst && s.pc != RFetching
    ensures RInv(job, t)
  {
    hide Address, RSent;
    RSameSent(job, s, t);
  }

  lemma RSameSent(job: Job, s: R, t: R)
    ensures s.sent == t.sent ==> forall n :: RSent(job, s, n) == RSent(job, t, n)
  {}

  lemma RSentNext(job: Job, s: R, t: R, n: nat)
    requires RSent(job, s, n) && t.sent == s.sent + [job.device(Address(job, n))]
    ensures RSent(job, t, n + 1)
  {
    hide Address;
  }

  lemma RUsbKeeps(job: Job, s: R, t: R)
    requires RInv(job, s) && (RComplete(s, t) || RPartial(s, t))
    ensures RInv(job, t)
  {
    hide Address, RSent;
    RSameSent(job, s, t);
    if RComplete(s, t) {
      RSentNext(job, s, t, s.i);
    }
  }

  lemma {:induction false} RRunIsSafe(job: Job, run: seq<R>, n: nat)
    requires 0 < |run| && RInit(job, run[0]) && forall k :: 0 <= k < |run| - 1 ==> RNext(job, run[k], run[k + 1])
    requires n < |run|
    ensures RInv(job, run[n]) && RSafe(job, run[n])
    decreases n
  {
    hide RInv, RSafe, RThread, RComplete, RPartial;
    if n == 0 {
      RInvInit(job, run[0]);
    } else {
      RRunIsSafe(job, run, n - 1);
      var s, t := run[n - 1], run[n];
      assert RNext(job, s, t);
      if RThread(job, s, t) {
        RThreadKeeps(job, s, t);
      } else {
        RUsbKeeps(job, s, t);
      }
    }
    RInvIsSafe(job, run[n]);
  }

  lemma RInvInit(job: Job, s: R)
    requires RInit(job, s)
    ensures RInv(job, s)
  {}

  /** The thread steps that are left; a failed first read may be tried once more. */
  ghost function RLeft(job: Job, s: R): nat {
    var r := Rest(job, s.i);
    match s.pc
    case RStart => r + (if s.retried then 3 else 5)
    case RFirst => r + (if s.retried then 2 else 4)
    case RHead => r + 1
    case RSend => r
    case RFetch => Max(r, 1) - 1
    case RFetching => Max(r, 2) - 2
    case RAwait => Max(r, 3) - 3
    case RDone => 0
    case RHalted => 0
  }

  ghost function RMeasure(job: Job, s: R): nat {
    2 * RLeft(job, s) + if s.usb.Busy? then 1 else 0
  }

  lemma RNeverStuck(job: Job, s: R) returns (t: R)
    requires RInv(job, s) && s.pc != RDone && s.pc != RHalted
    ensures (RThread(job, s, t) || RComplete(s, t)) && t.pc != RHalted
  {
    hide Address, RSent;
    if s.usb.Busy? {
      t := s.(usb := Idle, sent := s.sent + [s.buf[s.usb.half]], sem := 1);
    } else {
      match s.pc {
        case RStart => t := s.(pc := RFirst);
        case RFirst => t := RRead(job, s, 0, RHead);
        case RHead => t := s.(pc := if s.i < job.total then RSend else RDone);
        case RSend => t := s.(pc := RFetch, usb := Busy(s.i % 2));
        case RFetch => t := s.(pc := if s.i + 1 < job.total then RFetching else RAwait);
        case RFetching => t := RRead(job, s, (s.i + 1) % 2, RAwait);
        case RAwait => t := s.(pc := RHead, i := s.i + 1, sem := 0);
      }
    }
  }

  /** As long as the device does not fail, the command can be brought to its end: the host has all blocks. */
  lemma {:induction false} RCanFinish(job: Job, s: R) returns (run: seq<R>)
    requires RInv(job, s) && s.pc != RHalted
    ensures 0 < |run| && run[0] == s && forall k :: 0 <= k < |run| - 1 ==> RNext(job, run[k], run[k + 1])
    ensures run[|run| - 1].pc == RDone && |run[|run| - 1].sent| == job.total
    decreases RMeasure(job, s)
  {
    hide RInv, RThread, RComplete, RPartial, RMeasure, RSafe;
    if s.pc == RDone {
      RInvIsSafe(job, s);
      RFinished(job, s);
      run := [s];
    } else {
      var t := RNeverStuck(job, s);
      RTwoHalves(job, s);
      RComesToAnEnd(job, s, t);
      if RThread(job, s, t) {
        RThreadKeeps(job, s, t);
      } else {
        RUsbKeeps(job, s, t);
      }
      var rest := RCanFinish(job, t);
      run := [s] + rest;
      assert forall k :: 0 < k < |run| ==> run[k] == rest[k - 1];
    }
  }

  lemma RFinished(job: Job, s: R)
    requires RSafe(job, s) && s.pc == RDone
    ensures |s.sent| == job.total
  {}

  lemma RComesToAnEnd(job: Job, s: R, t: R)
    requires RInv(job, s) && (RThread(job, s, t) || RComplete(s, t))
    ensures RMeasure(job, t) < RMeasure(job, s)
  {
    hide Address, RSent, ROutgoing, RAhead, RQuiet, Rest, RThread;
    if s.i < job.total { RestNext(job, s.i); }
    if RThread(job, s, t) { RThreadEnds(job, s, t); }
  }

  lemma RThreadEnds(job: Job, s: R, t: R)
    requires RInv(job, s) && RThread(job, s, t)
    ensures RLeft(job, t) < RLeft(job, s)
  {
    hide Address, RSent, ROutgoing, RAhead, RQuiet, Rest;
    if s.i < job.total { RestNext(job, s.i); }
  }

  /** The steps of the thread and completions among the first `n` of a run; the others are partial reads. */
  ghost function RSteps(job: Job, run: seq<R>, n: nat): nat
    requires n < |run| && forall k :: 0 <= k < |run| ==> |run[k].buf| == 2
    decreases n
  {
    if n == 0 then 0
    else RSteps(job, run, n - 1) +
         if RThread(job, run[n - 1], run[n]) || RComplete(run[n - 1], run[n]) then 1 else 0
  }

  lemma RPartialIsIdle(job: Job, s: R, t: R)
    requires RPartial(s, t)
    ensures RMeasure(job, t) == RMeasure(job, s)
  {}

  lemma {:induction false} RStepsBound(job: Job, run: seq<R>, n: nat)
    requires 0 < |run| && RInit(job, run[0]) && forall k :: 0 <= k < |run| - 1 ==> RNext(job, run[k], run[k + 1])
    requires n < |run| && forall k :: 0 <= k < |run| ==> RInv(job, run[k]) && |run[k].buf| == 2
    ensures RMeasure(job, run[n]) + RSteps(job, run, n) <= 10 * job.total + 10
    decreases n
  {
    hide RInv, RThread, RComplete, RPartial, RMeasure;
    if n == 0 {
      RStartMeasure(job, run[0]);
    } else {
      RStepsBound(job, run, n - 1);
      var s, t := run[n - 1], run[n];
      assert RNext(job, s, t);
      if RThread(job, s, t) || RComplete(s, t) {
        RComesToAnEnd(job, s, t);
      } else {
        RPartialIsIdle(job, s, t);
      }
    }
  }

  lemma RStartMeasure(job: Job, s: R)
    requires RInit(job, s)
    ensures RMeasure(job, s) <= 10 * job.total + 10
  {}

  /** Every run has at most ten steps of thread and interrupt for each block, and ten more. */
  lemma RRunLength(job: Job, run: seq<R>)
    requires 0 < |run| && RInit(job, run[0]) && forall k :: 0 <= k < |run| - 1 ==> RNext(job, run[k], run[k + 1])
    ensures forall k :: 0 <= k < |run| ==> |run[k].buf| == 2
    ensures RSteps(job, run, |run| - 1) <= 10 * job.total + 10
  {
    hide RInv, RNext, RInit, RMeasure, RSteps, RSafe;
    forall k | 0 <= k < |run| ensures RInv(job, run[k]) && |run[k].buf| == 2 {
      RRunIsSafe(job, run, k);
      RTwoHalves(job, run[k]);
    }
    RStepsBound(job, run, |run| - 1);
  }

  lemma RTwoHalves(job: Job, s: R)
    requires RInv(job, s)
    ensures |s.buf| == 2
  {}
}
