/**
 The variable length field of MQTT packets, section 2.2.3 of MQTT Version 3.1.1: seven bits a
 byte, lowest first, the top bit set on all but the last.
 */
module MqttLength {

  const LIMIT: nat := 268_435_456  // 128 to the fourth

  function Encoded(n: nat): (s: seq<int>)
    ensures 0 < |s| && forall i :: 0 <= i < |s| ==> 0 <= s[i] < 256
  {
    if n < 128 then [n] else [n % 128 + 128] + Encoded(n / 128)
  }

  /** The length field has the digits to the base 128, the lowest first, all but the last with the upper bit set. */
  lemma EncodedIs(a: nat, b: nat, c: nat, d: nat)
    requires a < 128 && b < 128 && c < 128 && d < 128
    ensures Encoded(a) == [a]
    ensures b > 0 ==> Encoded(a + 128 * b) == [128 + a, b]
    ensures c > 0 ==> Encoded(a + 128 * b + 16_384 * c) == [128 + a, 128 + b, c]
    ensures d > 0 ==> Encoded(a + 128 * b + 16_384 * c + 2_097_152 * d) == [128 + a, 128 + b, 128 + c, d]
  {
    hide Encoded;
    EncodedStep(a, 0);
    if b > 0 { TwoDigits(a, b); }
    if c > 0 {
      TwoDigits(b, c);
      EncodedStep(a, b + 128 * c);
    }
    if d > 0 {
      TwoDigits(c, d);
      EncodedStep(b, c + 128 * d);
      EncodedStep(a, b + 128 * (c + 128 * d));
    }
  }

  lemma TwoDigits(a: nat, b: nat)
    requires a < 128 && 0 < b < 128
    ensures Encoded(a + 128 * b) == [128 + a, b]
  {
    hide Encoded;
    EncodedStep(a, b);
    EncodedStep(b, 0);
  }

  lemma EncodedStep(a: nat, rest: nat)
    requires a < 128
    ensures Encoded(a + 128 * rest) == if rest == 0 then [a] else [128 + a] + Encoded(rest)
  {
    var n := a + 128 * rest;
    assert n % 128 == a && n / 128 == rest;
  }

  /** The value of a length field at place `i` of a stream, of which at most `left` bytes are read. */
  function Value(s: seq<int>, i: nat, left: nat): (v: nat)
    decreases left
  {
    if left == 0 || i >= |s| then 0
    else s[i] % 128 + if s[i] / 128 % 2 == 1 then 128 * Value(s, i + 1, left - 1) else 0
  }

  /** The bytes taken from the stream for it. */
  function Taken(s: seq<int>, i: nat, left: nat): (n: nat)
    ensures n <= left && i + n <= if i < |s| then |s| else i
    decreases left
  {
    if left == 0 || i >= |s| then 0
    else if s[i] / 128 % 2 == 1 then 1 + Taken(s, i + 1, left - 1)
    else 1
  }

  /** The field ends within them: its last byte has the top bit clear. */
  function Ends(s: seq<int>, i: nat, left: nat): bool
    decreases left
  {
    left > 0 && i < |s| && (s[i] / 128 % 2 == 1 ==> Ends(s, i + 1, left - 1))
  }

  function Pow128(k: nat): (p: nat)
    ensures p > 0
  {
    if k == 0 then 1 else 128 * Pow128(k - 1)
  }

  lemma LimitIsPower()
    ensures Pow128(4) == LIMIT
  {
    assert Pow128(2) == 16384;
  }

  /** Reading a field of up to `k` bytes gives the number back if it fits, and less otherwise. */
  lemma {:induction false} DecodeEncoded(before: seq<int>, n: nat, after: seq<int>, k: nat)
    requires k > 0
    ensures var s := before + Encoded(n) + after;
            && (n < Pow128(k) ==> Value(s, |before|, k) == n && Taken(s, |before|, k) == |Encoded(n)|)
            && (n >= Pow128(k) ==> Value(s, |before|, k) < n)
            && (Ends(s, |before|, k) <==> n < Pow128(k))
    decreases k
  {
    var s := before + Encoded(n) + after;
    var e := Encoded(n);
    assert s[|before|] == e[0];
    if n >= 128 {
      assert s == (before + [e[0]]) + Encoded(n / 128) + after;
      assert (n % 128 + 128) % 128 == n % 128 && (n % 128 + 128) / 128 == 1;
      assert n == 128 * (n / 128) + n % 128;
      if k > 1 {
        DecodeEncoded(before + [e[0]], n / 128, after, k - 1);
        assert n < Pow128(k) <==> n / 128 < Pow128(k - 1);
      } else {
        assert Pow128(1) == 128 * Pow128(0);
        assert Value(s, |before| + 1, 0) == 0;
      }
    } else {
      assert 128 <= Pow128(k);
    }
  }

  /** Decoding inverts encoding exactly on the lengths of up to four bytes. */
  lemma DecodeInverts(before: seq<int>, n: nat, after: seq<int>)
    ensures var s := before + Encoded(n) + after;
            && (Value(s, |before|, 4) == n <==> n < LIMIT)
            && (n < LIMIT ==> Taken(s, |before|, 4) == |Encoded(n)|)
            && (Ends(s, |before|, 4) <==> n < LIMIT)
  {
    LimitIsPower();
    DecodeEncoded(before, n, after, 4);
  }

  /** The first length that is not decoded as it was encoded. */
  lemma DecodeFails()
    ensures Value(Encoded(LIMIT), 0, 4) != LIMIT && PacketLen(LIMIT) < WireSize(LIMIT)
  {
    hide Encoded, Value, Taken, Ends, PacketLen, WireSize;
    DecodeInverts([], LIMIT, []);
    assert [] + Encoded(LIMIT) + [] == Encoded(LIMIT);
    PacketLenIsEnough(LIMIT);
  }

  lemma {:induction false} EncodedSize(n: nat, k: nat)
    requires k > 0
    ensures |Encoded(n)| <= k <==> n < Pow128(k)
    decreases k
  {
    if n >= 128 {
      if k == 1 {
        assert Pow128(1) == 128 * Pow128(0);
      } else {
        EncodedSize(n / 128, k - 1);
        assert n == 128 * (n / 128) + n % 128;
      }
    }
  }

  /** MQTTPacket_len: the size of a packet with so many bytes behind the length field, as estimated. */
  function PacketLen(remLen: nat): nat {
    var n := remLen + 1;
    if n < 128 then n + 1
    else if n < 16384 then n + 2
    else if n < 2_097_151 then n + 3
    else n + 4
  }

  /** The size it has. */
  function WireSize(remLen: nat): nat {
    1 + |Encoded(remLen)| + remLen
  }

  /**
   The estimate is never too small below four-byte lengths, and exact but for four lengths, where it
   is one byte too large; beyond, it is too small.
   */
  lemma PacketLenIsEnough(n: nat)
    ensures PacketLen(n) >= WireSize(n) <==> n < LIMIT
    ensures n < LIMIT ==>
              PacketLen(n) == WireSize(n) + if n in {127, 16383, 2_097_150, 2_097_151} then 1 else 0
  {
    LimitIsPower();
    assert Pow128(1) == 128 && Pow128(2) == 16384 && Pow128(3) == 2_097_152;
    EncodedSize(n, 1);
    EncodedSize(n, 2);
    EncodedSize(n, 3);
    EncodedSize(n, 4);
  }

  /** The bytes from a place on are as they were. */
  ghost predicate KeptFrom(a: seq<int>, b: seq<int>, from: nat) {
    |a| == |b| && forall i :: from <= i < |a| ==> a[i] == b[i]
  }

  /** MQTTPacket_encode: write a length to the buffer. */
  method Encode(buf: array<int>, at: nat, length: nat) returns (rc: nat)
    requires at + |Encoded(length)| <= buf.Length
    modifies buf
    ensures rc == |Encoded(length)| && buf[..at + rc] == old(buf[..at]) + Encoded(length)
    ensures KeptFrom(buf[..], old(buf[..]), at + rc)
  {
    var n := length;
    rc := 0;
    ghost var e := Encoded(length);
    assert e[0..] == e;
    while true
      invariant 0 <= n && rc < |e| && e[rc..] == Encoded(n)
      invariant buf[..at + rc] == old(buf[..at]) + e[..rc] && KeptFrom(buf[..], old(buf[..]), at + rc)
      decreases n, |e| - rc
    {
      EncodedNext(e, rc, n);
      var d := n % 128;
      n := n / 128;
      if n > 0 {
        d := d + 128;
      }
      buf[at + rc] := d;
      rc := rc + 1;
      if n == 0 {
        break;
      }
    }
  }

  lemma EncodedNext(e: seq<int>, i: nat, n: nat)
    requires i < |e| && e[i..] == Encoded(n)
    ensures e[i] == (if n / 128 > 0 then n % 128 + 128 else n % 128)
    ensures if n / 128 > 0 then i + 1 < |e| && e[i + 1..] == Encoded(n / 128) else |e| == i + 1
  {
    assert e[i] == e[i..][0] && e[i + 1..] == e[i..][1..];
  }

  /** A source of bytes; a read that wants more than is left gets what is left. */
  class Source {
    const data: seq<int>
    var pos: nat

    ghost predicate Valid()
      reads this
    {
      pos <= |data| && forall i :: 0 <= i < |data| ==> 0 <= data[i] < 256
    }

    constructor (data: seq<int>)
      requires forall i :: 0 <= i < |data| ==> 0 <= data[i] < 256
      ensures Valid() && this.data == data && pos == 0
    {
      this.data, pos := data, 0;
    }

    method Get(n: nat) returns (bytes: seq<int>)
      requires Valid()
      modifies this
      ensures Valid() && |bytes| == (if n < |data| - old(pos) then n else |data| - old(pos))
      ensures pos == old(pos) + |bytes| && bytes == data[old(pos)..pos]
    {
      var n' := if n < |data| - pos then n else |data| - pos;
      bytes := data[pos..pos + n'];
      pos := pos + n';
    }
  }

  /** After `len` bytes of the field from `p0` on, at place `p`, with the sum so far. */
  ghost predicate Reading(s: seq<int>, p0: nat, p: nat, len: nat, value: int, multiplier: int) {
    && len <= 4
    && value + multiplier * Value(s, p, 4 - len) == Value(s, p0, 4)
    && p + Taken(s, p, 4 - len) == p0 + Taken(s, p0, 4)
    && Ends(s, p, 4 - len) == Ends(s, p0, 4)
  }

  /** The field ends here. */
  ghost predicate Read(s: seq<int>, p0: nat, p: nat, value: int, ends: bool) {
    value == Value(s, p0, 4) && p == p0 + Taken(s, p0, 4) && ends == Ends(s, p0, 4)
  }

  lemma ReadingStep(s: seq<int>, p0: nat, p: nat, len: nat, value: int, m: int)
    requires Reading(s, p0, p, len, value, m)
    ensures len == 4 || p >= |s| ==> Read(s, p0, p, value, false)
    ensures len < 4 && p < |s| && s[p] / 128 % 2 == 0 ==> Read(s, p0, p + 1, value + s[p] % 128 * m, true)
    ensures len < 4 && p < |s| && s[p] / 128 % 2 == 1 ==>
              Reading(s, p0, p + 1, len + 1, value + s[p] % 128 * m, m * 128)
  {
    hide Value, Taken, Ends;
    FieldStep(s, p, 4 - len);
    if len < 4 && p < |s| {
      Distribute(m, s[p] % 128, Value(s, p + 1, 4 - (len + 1)));
    }
  }

  lemma FieldStep(s: seq<int>, p: nat, left: nat)
    ensures left == 0 || p >= |s| ==> Value(s, p, left) == 0 && Taken(s, p, left) == 0 && !Ends(s, p, left)
    ensures left > 0 && p < |s| ==> Ends(s, p, left) == (s[p] / 128 % 2 == 0 || Ends(s, p + 1, left - 1))
    ensures left > 0 && p < |s| ==>
              if s[p] / 128 % 2 == 0 then Value(s, p, left) == s[p] % 128 && Taken(s, p, left) == 1
              else
                && Value(s, p, left) == s[p] % 128 + 128 * Value(s, p + 1, left - 1)
                && Taken(s, p, left) == 1 + Taken(s, p + 1, left - 1)
  {}

  lemma Distribute(m: int, a: int, v: int)
    ensures m * (a + 128 * v) == a * m + (m * 128) * v && m * a == a * m
  {
    assert m * (a + 128 * v) == m * a + m * (128 * v);
  }

  /**
   MQTTPacket_decode: read a length of at most four bytes. The count returned is that of the bytes
   taken, and one more when the stream ends first or four bytes do not end the field.
   */
  method Decode(src: Source) returns (len: nat, value: nat)
    requires src.Valid()
    modifies src
    ensures src.Valid() && value == Value(src.data, old(src.pos), 4) &&
              src.pos == old(src.pos) + Taken(src.data, old(src.pos), 4)
    ensures len == Taken(src.data, old(src.pos), 4) + if Ends(src.data, old(src.pos), 4) then 0 else 1
  {
    hide Value, Taken, Reading, Ends;
    var multiplier: nat := 1;
    value, len := 0, 0;
    StartReading(src.data, src.pos);
    while true
      invariant src.Valid() && 0 <= len <= 4 && src.pos == old(src.pos) + len
      invariant Reading(src.data, old(src.pos), src.pos, len, value, multiplier)
      decreases 4 - len
    {
      ReadingStep(src.data, old(src.pos), src.pos, len, value, multiplier);
      len := len + 1;
      if len > 4 {
        return;
      }
      var got := src.Get(1);
      if |got| != 1 {
        return;
      }
      var c := got[0];
      value := value + c % 128 * multiplier;
      multiplier := multiplier * 128;
      if c / 128 % 2 == 0 {
        break;
      }
    }
  }

  lemma StartReading(s: seq<int>, p: nat)
    ensures Reading(s, p, p, 0, 0, 1)
  {}
}
