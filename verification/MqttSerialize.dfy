/** Serializing PUBLISH and SUBSCRIBE packets into a buffer. */
module MqttSerialize {
  import opened Options
  import opened MqttLength
  import opened MqttPacket

  /** A string in one of two representations: zero-terminated, or with a length. */
  datatype MqttString = MqttString(cstring: Option<seq<int>>, len: int, data: seq<int>)

  /** The memory a string points to is there. */
  ghost predicate Present(m: MqttString) {
    m.len <= |m.data| && Bytes(m.data) && (m.cstring.Some? ==> Bytes(m.cstring.value))
  }

  /** MQTTstrlen: the zero-terminated string counts if there is one. */
  function StrLen(m: MqttString): int {
    if m.cstring.Some? then |m.cstring.value| else m.len
  }

  /** Two bytes, high byte first; longer numbers lose their upper bits. */
  function IntBytes(n: nat): seq<int> {
    [n / 256 % 256, n % 256]
  }

  lemma IntBytesBack(n: nat)
    ensures 256 * IntBytes(n)[0] + IntBytes(n)[1] == n <==> n <= 65535
  {
    assert n == 256 * (n / 256) + n % 256;
    if n <= 65535 { assert n / 256 < 256; }
  }

  /** What writeMQTTString writes: the string with a length counts if that is positive. */
  function StrBytes(m: MqttString): seq<int>
    requires m.len <= |m.data|
  {
    if m.len > 0 then IntBytes(m.len) + m.data[..m.len]
    else if m.cstring.Some? then IntBytes(|m.cstring.value|) + m.cstring.value
    else IntBytes(0)
  }

  /** Only one representation is used, or both have the same length. */
  predicate OneForm(m: MqttString) {
    if m.cstring.Some? then m.len <= 0 || m.len == |m.cstring.value| else m.len >= 0
  }

  /** The announced and the written length agree exactly when one representation is used. */
  lemma StrSize(m: MqttString)
    requires m.len <= |m.data|
    ensures |StrBytes(m)| == 2 + StrLen(m) <==> OneForm(m)
  {}

  /** Two representations of different length: three bytes announced, and one written. */
  lemma StrSizeFails()
    ensures var m := MqttString(Some([65, 66, 67]), 1, [68]);
            Present(m) && !OneForm(m) && StrLen(m) == 3 && |StrBytes(m)| == 2 + 1
  {}

  method WriteChar(buf: array<int>, ptr: nat, c: int) returns (next: nat)
    requires ptr + 1 <= buf.Length
    modifies buf
    ensures next == ptr + 1 && buf[..next] == old(buf[..ptr]) + [c % 256] && KeptFrom(buf[..], old(buf[..]), next)
  {
    buf[ptr] := c % 256;
    next := ptr + 1;
  }

  method WriteInt(buf: array<int>, ptr: nat, n: nat) returns (next: nat)
    requires ptr + 2 <= buf.Length
    modifies buf
    ensures next == ptr + 2 && buf[..next] == old(buf[..ptr]) + IntBytes(n) && KeptFrom(buf[..], old(buf[..]), next)
  {
    next := WriteChar(buf, ptr, n / 256);
    next := WriteChar(buf, next, n % 256);
  }

  method WriteBytes(buf: array<int>, ptr: nat, bytes: seq<int>) returns (next: nat)
    requires ptr + |bytes| <= buf.Length
    modifies buf
    ensures next == ptr + |bytes| && buf[..next] == old(buf[..ptr]) + bytes && KeptFrom(buf[..], old(buf[..]), next)
  {
    CopyIn(buf, ptr, bytes);
    next := ptr + |bytes|;
  }

  /** A length and as many bytes. */
  method WriteCounted(buf: array<int>, ptr: nat, bytes: seq<int>) returns (next: nat)
    requires ptr + 2 + |bytes| <= buf.Length
    modifies buf
    ensures next == ptr + 2 + |bytes| && buf[..next] == old(buf[..ptr]) + (IntBytes(|bytes|) + bytes)
    ensures KeptFrom(buf[..], old(buf[..]), next)
  {
    next := WriteInt(buf, ptr, |bytes|);
    next := WriteBytes(buf, next, bytes);
  }

  method WriteString(buf: array<int>, ptr: nat, m: MqttString) returns (next: nat)
    requires m.len <= |m.data| && ptr + |StrBytes(m)| <= buf.Length
    modifies buf
    ensures next == ptr + |StrBytes(m)| && buf[..next] == old(buf[..ptr]) + StrBytes(m) &&
              KeptFrom(buf[..], old(buf[..]), next)
  {
    if m.len > 0 {
      next := WriteCounted(buf, ptr, m.data[..m.len]);
    } else if m.cstring.Some? {
      next := WriteCounted(buf, ptr, m.cstring.value);
    } else {
      next := WriteInt(buf, ptr, 0);
    }
  }

  /** The header byte: type, and the bits of the flags that fit. */
  function Header(kind: nat, dup: int, qos: int, retain: int): int {
    kind * 16 + dup % 2 * 8 + qos % 4 * 2 + retain % 2
  }

  function PublishLength(qos: int, topic: MqttString, payloadLen: nat): int {
    2 + StrLen(topic) + payloadLen + if qos > 0 then 2 else 0
  }

  function PublishBody(qos: int, packetId: nat, topic: MqttString, payload: seq<int>): seq<int>
    requires topic.len <= |topic.data|
  {
    StrBytes(topic) + (if qos > 0 then IntBytes(packetId) else []) + payload
  }

  function PublishPacket(dup: int, qos: int, retained: int, packetId: nat, topic: MqttString, payload: seq<int>): Packet
    requires topic.len <= |topic.data|
  {
    Packet(Header(3, dup, qos, retained), PublishBody(qos, packetId, topic, payload))
  }

  const TOO_SHORT: int := -2

  /** The start of a packet: the header byte and the length. */
  method WriteHead(buf: array<int>, header: int, remLen: nat) returns (next: nat)
    requires 1 + |Encoded(remLen)| <= buf.Length && IsByte(header)
    modifies buf
    ensures next == 1 + |Encoded(remLen)| && buf[..next] == [header] + Encoded(remLen) &&
              KeptFrom(buf[..], old(buf[..]), next)
  {
    hide Encoded;
    next := WriteChar(buf, 0, header);
    assert buf[..next] == [header];
    var l := Encode(buf, next, remLen);
    next := next + l;
  }

  /**
   MQTTSerialize_publish: refused when the estimate exceeds `bufLen`; else the header byte, the
   announced length and the body are written, and no byte behind them. A string in one representation
   and a length of at most four bytes make that a packet of exactly the announced size, within `bufLen`.
   */
  method Publish(buf: array<int>, bufLen: int, dup: int, qos: int, retained: int, packetId: nat, topic: MqttString,
    payload: seq<int>)
    returns (rc: int)
    requires topic.len <= |topic.data| && 0 <= PublishLength(qos, topic, |payload|)
    requires var n := PublishLength(qos, topic, |payload|);
             PacketLen(n) <= bufLen ==>
               1 + |Encoded(n)| + |PublishPacket(dup, qos, retained, packetId, topic, payload).body| <= buf.Length
    modifies buf
    ensures rc == TOO_SHORT <==> PacketLen(PublishLength(qos, topic, |payload|)) > bufLen
    ensures rc == TOO_SHORT ==> buf[..] == old(buf[..])
    ensures rc != TOO_SHORT ==>
              var p, n := PublishPacket(dup, qos, retained, packetId, topic, payload),
                PublishLength(qos, topic, |payload|);
              && rc == 1 + |Encoded(n)| + |p.body| && KeptFrom(buf[..], old(buf[..]), rc)
              && buf[..rc] == [p.header] + Encoded(n) + p.body
              && (|p.body| == n <==> OneForm(topic))
              && (|p.body| == n < LIMIT ==> rc == WireSize(n) <= bufLen && buf[..rc] == Wire(p))
  {
    hide Encoded, StrBytes, PacketLen, LIMIT;
    StrSize(topic);
    var remLen := PublishLength(qos, topic, |payload|);
    PacketLenIsEnough(remLen);
    if PacketLen(remLen) > bufLen {
      return TOO_SHORT;
    }
    var ptr := WriteHead(buf, Header(3, dup, qos, retained), remLen);
    ptr := WriteBody(buf, ptr, qos, packetId, topic, payload);
    rc := ptr;
    ghost var p := PublishPacket(dup, qos, retained, packetId, topic, payload);
    assert buf[..rc] == [p.header] + Encoded(remLen) + p.body;
  }

  method WriteBody(buf: array<int>, start: nat, qos: int, packetId: nat, topic: MqttString, payload: seq<int>)
    returns (ptr: nat)
    requires topic.len <= |topic.data|
    requires start + |PublishBody(qos, packetId, topic, payload)| <= buf.Length
    modifies buf
    ensures ptr == start + |PublishBody(qos, packetId, topic, payload)| && KeptFrom(buf[..], old(buf[..]), ptr)
    ensures buf[..ptr] == old(buf[..start]) + PublishBody(qos, packetId, topic, payload)
  {
    hide StrBytes;
    ptr := WriteString(buf, start, topic);
    if qos > 0 {
      ptr := WriteInt(buf, ptr, packetId);
    }
    ptr := WriteBytes(buf, ptr, payload);
  }

  /** With one representation, what is written fits into the length the estimate was compared with. */
  lemma PublishFits(bufLen: int, dup: int, qos: int, retained: int, packetId: nat, topic: MqttString, payload: seq<int>)
    requires topic.len <= |topic.data| && OneForm(topic)
    requires 0 <= PublishLength(qos, topic, |payload|) < LIMIT &&
              PacketLen(PublishLength(qos, topic, |payload|)) <= bufLen
    ensures var n := PublishLength(qos, topic, |payload|);
            1 + |Encoded(n)| + |PublishPacket(dup, qos, retained, packetId, topic, payload).body| ==
              WireSize(n) <= bufLen
  {
    StrSize(topic);
    PacketLenIsEnough(PublishLength(qos, topic, |payload|));
  }

  /** What is sent reads back: the packet is one that a stream is split at. */
  lemma PublishIsSendable(dup: int, qos: int, retained: int, packetId: nat, topic: MqttString, payload: seq<int>)
    requires Present(topic) && OneForm(topic) && Bytes(payload) && PublishLength(qos, topic, |payload|) < LIMIT
    ensures var p := PublishPacket(dup, qos, retained, packetId, topic, payload);
            Sendable(p) && p.header / 16 == 3 && p.header / 2 % 4 == qos % 4
  {
    StrSize(topic);
    StrBytesAre(topic);
  }

  lemma StrBytesAre(m: MqttString)
    requires Present(m)
    ensures Bytes(StrBytes(m))
  {}

  ghost function TopicsLength(topics: seq<MqttString>): int {
    if topics == [] then 0 else TopicsLength(topics[..|topics| - 1]) + 2 + StrLen(topics[|topics| - 1]) + 1
  }

  ghost function TopicsBytes(topics: seq<MqttString>, qoss: seq<int>): seq<int>
    requires |topics| == |qoss| && forall i :: 0 <= i < |topics| ==> topics[i].len <= |topics[i].data|
  {
    if topics == [] then [] else
      var n := |topics| - 1;
      TopicsBytes(topics[..n], qoss[..n]) + StrBytes(topics[n]) + [qoss[n] % 256]
  }

  /** The bytes of a string that is written in another form than announced: announced and not written. */
  function Gap(m: MqttString): int {
    if m.cstring.Some? then (if m.len > 0 then |m.cstring.value| - m.len else 0)
    else if m.len > 0 then 0 else m.len
  }

  lemma GapIs(m: MqttString)
    requires m.len <= |m.data|
    ensures Gap(m) == 2 + StrLen(m) - |StrBytes(m)| && (Gap(m) == 0 <==> OneForm(m))
  {}

  /** All of them together. */
  ghost function TopicsGap(topics: seq<MqttString>): int {
    if topics == [] then 0 else TopicsGap(topics[..|topics| - 1]) + Gap(topics[|topics| - 1])
  }

  /** What is announced and what is written differ by the gaps of the strings together. */
  lemma {:induction false} TopicsSize(topics: seq<MqttString>, qoss: seq<int>)
    requires |topics| == |qoss| && forall i :: 0 <= i < |topics| ==> topics[i].len <= |topics[i].data|
    ensures TopicsLength(topics) - |TopicsBytes(topics, qoss)| == TopicsGap(topics)
    ensures (forall i :: 0 <= i < |topics| ==> OneForm(topics[i])) ==> TopicsGap(topics) == 0
    decreases |topics|
  {
    hide StrBytes, OneForm, StrLen, Gap;
    if topics != [] {
      var n := |topics| - 1;
      GapIs(topics[n]);
      TopicsSize(topics[..n], qoss[..n]);
    }
  }

  /** Two strings in two forms each, of which one has a byte more than announced and the other one less. */
  lemma GapsCancel()
    ensures var a, b := MqttString(Some([65, 66]), 1, [67]), MqttString(Some([65]), 2, [66, 67]);
            !OneForm(a) && !OneForm(b) && TopicsGap([a, b]) == 0
  {
    var a, b := MqttString(Some([65, 66]), 1, [67]), MqttString(Some([65]), 2, [66, 67]);
    assert [a, b][..1] == [a] && [a][..0] == [];
    assert TopicsGap([a]) == Gap(a);
  }

  /** The first topics take no more than all of them. */
  lemma {:induction false} TopicsPrefix(topics: seq<MqttString>, qoss: seq<int>, k: nat)
    requires |topics| == |qoss| && (forall i :: 0 <= i < |topics| ==> topics[i].len <= |topics[i].data|) &&
              k <= |topics|
    ensures |TopicsBytes(topics[..k], qoss[..k])| <= |TopicsBytes(topics, qoss)|
    decreases |topics|
  {
    hide StrBytes;
    if k == |topics| {
      assert topics[..k] == topics && qoss[..k] == qoss;
    } else {
      var n := |topics| - 1;
      TopicsPrefix(topics[..n], qoss[..n], k);
      assert topics[..n][..k] == topics[..k] && qoss[..n][..k] == qoss[..k];
    }
  }

  /** MQTTSerialize_subscribeLength. */
  method SubscribeLength(topics: seq<MqttString>) returns (len: int)
    ensures len == 2 + TopicsLength(topics)
  {
    len := 2;
    for i := 0 to |topics|
      invariant len == 2 + TopicsLength(topics[..i])
    {
      assert topics[..i + 1][..i] == topics[..i];
      len := len + 2 + StrLen(topics[i]) + 1;
    }
    assert topics[..|topics|] == topics;
  }

  ghost function SubscribePacket(dup: int, packetId: nat, topics: seq<MqttString>, qoss: seq<int>): Packet
    requires |topics| == |qoss| && forall i :: 0 <= i < |topics| ==> topics[i].len <= |topics[i].data|
  {
    Packet(Header(8, dup, 1, 0), IntBytes(packetId) + TopicsBytes(topics, qoss))
  }

  /** MQTTSerialize_subscribe: as for PUBLISH. */
  method Subscribe(buf: array<int>, bufLen: int, dup: int, packetId: nat, topics: seq<MqttString>, qoss: seq<int>)
    returns (rc: int)
    requires |topics| == |qoss| && forall i :: 0 <= i < |topics| ==> topics[i].len <= |topics[i].data|
    requires 0 <= 2 + TopicsLength(topics)
    requires var n := 2 + TopicsLength(topics);
             PacketLen(n) <= bufLen ==>
               1 + |Encoded(n)| + |SubscribePacket(dup, packetId, topics, qoss).body| <= buf.Length
    modifies buf
    ensures rc == TOO_SHORT <==> PacketLen(2 + TopicsLength(topics)) > bufLen
    ensures rc == TOO_SHORT ==> buf[..] == old(buf[..])
    ensures rc != TOO_SHORT ==>
              var p, n := SubscribePacket(dup, packetId, topics, qoss), 2 + TopicsLength(topics);
              && rc == 1 + |Encoded(n)| + |p.body| && KeptFrom(buf[..], old(buf[..]), rc)
              && buf[..rc] == [p.header] + Encoded(n) + p.body
              && (|p.body| == n <==> TopicsGap(topics) == 0)
              && (|p.body| == n < LIMIT ==> rc == WireSize(n) <= bufLen && buf[..rc] == Wire(p))
  {
    hide Encoded, StrBytes, PacketLen, LIMIT, TopicsBytes, TopicsLength, TopicsGap, OneForm;
    TopicsSize(topics, qoss);
    var remLen := SubscribeLength(topics);
    PacketLenIsEnough(remLen);
    if PacketLen(remLen) > bufLen {
      return TOO_SHORT;
    }
    var header := Header(8, dup, 1, 0);
    var ptr := WriteHead(buf, header, remLen);
    ptr := WriteInt(buf, ptr, packetId);
    ptr := WriteTopics(buf, ptr, topics, qoss);
    rc := ptr;
    ghost var p := SubscribePacket(dup, packetId, topics, qoss);
    assert buf[..rc] == [p.header] + Encoded(remLen) + p.body;
  }

  method WriteTopics(buf: array<int>, start: nat, topics: seq<MqttString>, qoss: seq<int>) returns (ptr: nat)
    requires |topics| == |qoss| && forall i :: 0 <= i < |topics| ==> topics[i].len <= |topics[i].data|
    requires start + |TopicsBytes(topics, qoss)| <= buf.Length
    modifies buf
    ensures ptr == start + |TopicsBytes(topics, qoss)|
    ensures buf[..ptr] == old(buf[..start]) + TopicsBytes(topics, qoss) && KeptFrom(buf[..], old(buf[..]), ptr)
  {
    hide StrBytes, TopicsBytes, OneForm;
    ptr := start;
    TopicsNone();
    for i := 0 to |topics|
      invariant ptr == start + |TopicsBytes(topics[..i], qoss[..i])| <= buf.Length
      invariant buf[..ptr] == old(buf[..start]) + TopicsBytes(topics[..i], qoss[..i]) &&
                KeptFrom(buf[..], old(buf[..]), ptr)
    {
      TopicsNext(topics, qoss, i);
      TopicsPrefix(topics, qoss, i + 1);
      ptr := WriteString(buf, ptr, topics[i]);
      ptr := WriteChar(buf, ptr, qoss[i]);
    }
    assert topics[..|topics|] == topics && qoss[..|qoss|] == qoss;
  }

  lemma TopicsNone()
    ensures TopicsBytes([], []) == []
  {}

  lemma TopicsNext(topics: seq<MqttString>, qoss: seq<int>, i: nat)
    requires |topics| == |qoss| && (forall j :: 0 <= j < |topics| ==> topics[j].len <= |topics[j].data|) && i < |topics|
    ensures TopicsBytes(topics[..i + 1], qoss[..i + 1]) ==
              TopicsBytes(topics[..i], qoss[..i]) + StrBytes(topics[i]) + [qoss[i] % 256]
  {
    assert topics[..i + 1][..i] == topics[..i] && qoss[..i + 1][..i] == qoss[..i];
  }
}
