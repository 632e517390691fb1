/** MQTT packets on the wire: finding them in a stream and reading them one by one. */
module MqttPacket {
  import opened Bounds
  import opened MqttLength

  datatype Packet = Packet(header: int, body: seq<int>)

  ghost predicate IsByte(c: int) {
    0 <= c < 256
  }

  ghost predicate Bytes(s: seq<int>) {
    forall i :: 0 <= i < |s| ==> IsByte(s[i])
  }

  ghost predicate Sendable(p: Packet) {
    IsByte(p.header) && |p.body| < LIMIT && Bytes(p.body)
  }

  function Wire(p: Packet): seq<int> {
    [p.header] + Encoded(|p.body|) + p.body
  }

  function Stream(ps: seq<Packet>): seq<int> {
    if ps == [] then [] else Wire(ps[0]) + Stream(ps[1..])
  }

  /** The packet at place `i` of a stream: the length of its body and where that starts and ends. */
  function BodyLength(s: seq<int>, i: nat): nat {
    Value(s, i + 1, 4)
  }

  function BodyStart(s: seq<int>, i: nat): nat {
    i + 1 + Taken(s, i + 1, 4)
  }

  function BodyEnd(s: seq<int>, i: nat): nat {
    BodyStart(s, i) + BodyLength(s, i)
  }

  /** A packet on the wire, wherever it lies in a stream, is found again. */
  lemma FindPacket(before: seq<int>, p: Packet, after: seq<int>)
    requires |p.body| < LIMIT
    ensures var s, i := before + Wire(p) + after, |before|;
            && s[i] == p.header && BodyLength(s, i) == |p.body| && BodyEnd(s, i) == i + |Wire(p)| <= |s|
            && s[BodyStart(s, i)..BodyEnd(s, i)] == p.body
  {
    hide Encoded, Value, Taken;
    var s, n := before + Wire(p) + after, |p.body|;
    DecodeInverts(before + [p.header], n, p.body + after);
    assert s == (before + [p.header]) + Encoded(n) + (p.body + after);
  }

  /** The bytes of the packet at place `i` that reading it puts into memory: all of them, or what there are. */
  function Arriving(s: seq<int>, i: nat): nat
    requires i < |s|
  {
    1 + |Encoded(BodyLength(s, i))| + Least(BodyLength(s, i), |s| - BodyStart(s, i))
  }

  /**
   MQTTPacket_read: the header byte, the length, and as many bytes; -1 if the stream ends first. `mem`
   is the memory from the buffer on. The size of the buffer is a parameter that is not looked at: what
   arrives is stored, and exactly the memory behind that is kept, wherever the buffer ends.
   */
  method ReadPacket(src: Source, mem: array<int>, bufLen: nat) returns (rc: int)
    requires src.Valid() && (src.pos < |src.data| ==> Arriving(src.data, src.pos) <= mem.Length)
    modifies src, mem
    ensures src.Valid()
    ensures old(src.pos) == |src.data| ==> rc == -1 && src.pos == old(src.pos) && mem[..] == old(mem[..])
    ensures old(src.pos) < |src.data| < BodyEnd(src.data, old(src.pos)) ==> rc == -1
    ensures old(src.pos) < |src.data| ==>
              var i, n, m := old(src.pos), BodyLength(src.data, old(src.pos)), Arriving(src.data, old(src.pos));
              && src.pos == BodyStart(src.data, i) + Least(n, |src.data| - BodyStart(src.data, i))
              && mem[..m] == [src.data[i]] + Encoded(n) + src.data[BodyStart(src.data, i)..src.pos]
              && KeptFrom(mem[..], old(mem[..]), m)
    ensures old(src.pos) < |src.data| && BodyEnd(src.data, old(src.pos)) <= |src.data| ==>
              var i, n := old(src.pos), BodyLength(src.data, old(src.pos));
              && rc == src.data[i] / 16 && src.pos == BodyEnd(src.data, i) && Arriving(src.data, i) == WireSize(n)
  {
    hide Encoded, Value, Taken, BodyStart, BodyLength, KeptFrom;
    rc := -1;
    Kept(mem[..]);
    BodyPlace(src.data, src.pos);
    var len, remLen := ReadHead(src, mem);
    if len == 0 {
      return;
    }
    ghost var head := mem[..len];
    var got := src.Get(remLen);
    ghost var was := mem[..];
    CopyIn(mem, len, got);
    KeptTwice(old(mem[..]), was, mem[..], len, len + |got|);
    if |got| != remLen {
      return;
    }
    assert mem[0] == head[0] == src.data[old(src.pos)];
    rc := mem[0] / 16;
  }

  /** The header byte and the length, put into memory again; nothing if there is no header byte. */
  method ReadHead(src: Source, mem: array<int>) returns (len: nat, remLen: nat)
    requires src.Valid()
    requires src.pos < |src.data| ==> 1 + |Encoded(BodyLength(src.data, src.pos))| <= mem.Length
    modifies src, mem
    ensures src.Valid() && (len == 0 <==> old(src.pos) == |src.data|)
    ensures len == 0 ==> src.pos == old(src.pos) && mem[..] == old(mem[..])
    ensures len != 0 ==>
              var i, n := old(src.pos), BodyLength(src.data, old(src.pos));
              && remLen == n && src.pos == BodyStart(src.data, i) && len == 1 + |Encoded(n)| <= mem.Length
              && mem[..len] == [src.data[i]] + Encoded(n) && KeptFrom(mem[..], old(mem[..]), len)
  {
    hide Encoded, Value, Taken;
    len, remLen := 0, 0;
    var got := src.Get(1);
    if |got| != 1 {
      return;
    }
    mem[0] := got[0];
    len, remLen := Decode(src);
    len := Encode(mem, 1, remLen);
    len := len + 1;
  }

  lemma BodyPlace(s: seq<int>, i: nat)
    ensures i < |s| ==> BodyStart(s, i) <= |s|
  {}

  lemma Kept(a: seq<int>)
    ensures KeptFrom(a, a, 0)
  {}

  lemma KeptTwice(a: seq<int>, b: seq<int>, c: seq<int>, i: nat, j: nat)
    requires KeptFrom(b, a, i) && KeptFrom(c, b, j) && i <= j
    ensures KeptFrom(c, a, j)
  {}

  /** memcpy into the buffer. */
  method CopyIn(buf: array<int>, at: nat, bytes: seq<int>)
    requires at + |bytes| <= buf.Length
    modifies buf
    ensures buf[..at + |bytes|] == old(buf[..at]) + bytes && KeptFrom(buf[..], old(buf[..]), at + |bytes|)
  {
    var i := 0;
    while i < |bytes|
      invariant i <= |bytes| && buf[..at + i] == old(buf[..at]) + bytes[..i] && KeptFrom(buf[..], old(buf[..]), at + i)
    {
      buf[at + i] := bytes[i];
      i := i + 1;
    }
  }

  /** Packets sent back to back are split exactly where they meet. */
  method ReadAll(src: Source, buf: array<int>, count: nat, ghost ps: seq<Packet>)
    returns (types: seq<int>, ghost packets: seq<seq<int>>)
    requires src.Valid() && src.pos == 0 && src.data == Stream(ps) && count == |ps|
    requires forall k :: 0 <= k < |ps| ==> Sendable(ps[k]) && |Wire(ps[k])| <= buf.Length
    modifies src, buf
    ensures |types| == |packets| == |ps|
    ensures forall k :: 0 <= k < |ps| ==> packets[k] == Wire(ps[k]) && types[k] == ps[k].header / 16
    ensures src.pos == |src.data|
  {
    hide Encoded, Value, Taken, Wire, BodyLength, BodyStart, BodyEnd;
    types, packets := [], [];
    ghost var before: seq<int> := [];
    assert ps[0..] == ps;
    for k := 0 to count
      invariant src.Valid() && |types| == |packets| == k
      invariant forall j :: 0 <= j < k ==> packets[j] == Wire(ps[j]) && types[j] == ps[j].header / 16
      invariant src.data == before + Stream(ps[k..]) && src.pos == |before|
    {
      ghost var p := ps[k];
      assert ps[k..][1..] == ps[k + 1..];
      assert src.data == before + Wire(p) + Stream(ps[k + 1..]);
      FindPacket(before, p, Stream(ps[k + 1..]));
      WireIs(p);
      var rc := ReadPacket(src, buf, buf.Length);
      types := types + [rc];
      packets := packets + [buf[..WireSize(|p.body|)]];
      before := before + Wire(p);
    }
  }

  lemma WireIs(p: Packet)
    ensures |Wire(p)| == WireSize(|p.body|) && Wire(p) == [p.header] + Encoded(|p.body|) + p.body
  {}
}
