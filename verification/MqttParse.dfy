/**
 What a receiver finds in serialized packets: the fixed header of section 2.2, PUBLISH of section 3.3 and
 SUBSCRIBE of section 3.8 of MQTT Version 3.1.1, read from their bytes alone.
 */
module MqttParse {
  import opened Options
  import opened MqttLength
  import opened MqttPacket
  import opened MqttSerialize

  /** A number of two bytes, high byte first. */
  function Number(b: seq<int>, o: nat): int
    requires o + 2 <= |b|
  {
    256 * b[o] + b[o + 1]
  }

  /** The fields of a PUBLISH; without a quality of service there is no identifier. */
  datatype Published = Published(dup: int, qos: int, retain: int, topic: seq<int>, id: Option<int>, payload: seq<int>)

  function ParsePublish(p: Packet): Option<Published>
    requires Bytes(p.body)
  {
    if p.header / 16 != 3 || |p.body| < 2 || |p.body| < 2 + Number(p.body, 0) then None
    else
      var dup, qos, retain := p.header / 8 % 2, p.header / 2 % 4, p.header % 2;
      var end: nat := 2 + Number(p.body, 0);
      if qos == 0 then Some(Published(dup, 0, retain, p.body[2..end], None, p.body[end..]))
      else if |p.body| < end + 2 then None
      else Some(Published(dup, qos, retain, p.body[2..end], Some(Number(p.body, end)), p.body[end + 2..]))
  }

  /** The characters of a string that is written. */
  function Text(m: MqttString): seq<int>
    requires m.len <= |m.data|
  {
    if m.len > 0 then m.data[..m.len] else if m.cstring.Some? then m.cstring.value else []
  }

  /** A string is its length and its characters; a length of two bytes tells where it ends. */
  lemma StringParses(m: MqttString)
    requires m.len <= |m.data|
    ensures StrBytes(m) == IntBytes(|Text(m)|) + Text(m)
    ensures |Text(m)| <= 65535 ==> Number(StrBytes(m), 0) == |Text(m)|
  {
    hide IntBytes;
    IntBytesBack(|Text(m)|);
    assert |IntBytes(|Text(m)|)| == 2 by { TwoBytes(|Text(m)|); }
  }

  lemma TwoBytes(n: nat)
    ensures |IntBytes(n)| == 2
  {}

  /** Type, flags and quality of service are in their bits of the header. */
  lemma HeaderParses(kind: nat, dup: int, qos: int, retain: int)
    ensures var h := Header(kind, dup, qos, retain);
            h / 16 == kind && h / 8 % 2 == dup % 2 && h / 2 % 4 == qos % 4 && h % 2 == retain % 2
  {
    Flags(kind, dup % 2, qos % 4, retain % 2);
  }

  lemma Flags(k: nat, d: nat, q: nat, r: nat)
    requires d < 2 && q < 4 && r < 2
    ensures var h := k * 16 + d * 8 + q * 2 + r; h / 16 == k && h / 8 % 2 == d && h / 2 % 4 == q && h % 2 == r
  {
    var h := k * 16 + d * 8 + q * 2 + r;
    Split16(h, k, d * 8 + q * 2 + r);
    Split8(h, 2 * k + d, q * 2 + r);
    Split2(h, 8 * k + 4 * d + q, r);
    Split2(2 * k + d, k, d);
    Split4(8 * k + 4 * d + q, 2 * k + d, q);
  }

  lemma Split2(h: nat, q: nat, r: nat)
    requires h == 2 * q + r && r < 2
    ensures h / 2 == q && h % 2 == r
  {}

  lemma Split4(h: nat, q: nat, r: nat)
    requires h == 4 * q + r && r < 4
    ensures h / 4 == q && h % 4 == r
  {}

  lemma Split8(h: nat, q: nat, r: nat)
    requires h == 8 * q + r && r < 8
    ensures h / 8 == q && h % 8 == r
  {}

  lemma Split16(h: nat, q: nat, r: nat)
    requires h == 16 * q + r && r < 16
    ensures h / 16 == q && h % 16 == r
  {}

  /** What a PUBLISH is made of. */
  function Meant(dup: int, qos: int, retained: int, packetId: nat, topic: MqttString, payload: seq<int>): Published
    requires topic.len <= |topic.data|
  {
    Published(dup % 2, qos, retained % 2, Text(topic), if qos > 0 then Some(packetId) else None, payload)
  }

  /** Topic and identifier have a length and a value of two bytes, and the quality of service fits its bits. */
  predicate Fitting(qos: int, packetId: nat, topic: MqttString)
    requires topic.len <= |topic.data|
  {
    0 <= qos < 4 && |Text(topic)| <= 65535 && (qos > 0 ==> packetId <= 65535)
  }

  /** A serialized PUBLISH is parsed into what it was made of exactly if all of that fits its bits. */
  lemma PublishParses(dup: int, qos: int, retained: int, packetId: nat, topic: MqttString, payload: seq<int>)
    requires Present(topic) && Bytes(payload)
    ensures var p := PublishPacket(dup, qos, retained, packetId, topic, payload);
            && Bytes(p.body)
            && (ParsePublish(p) == Some(Meant(dup, qos, retained, packetId, topic, payload)) <==>
                  Fitting(qos, packetId, topic))
  {
    hide StrBytes, IntBytes, Header, Text, ParsePublish;
    var p := PublishPacket(dup, qos, retained, packetId, topic, payload);
    StrBytesAre(topic);
    IntAreBytes(packetId);
    if Fitting(qos, packetId, topic) {
      FittingParses(dup, qos, retained, packetId, topic, payload);
    } else if ParsePublish(p).Some? {
      ParsedFits(p);
    }
  }

  lemma ParsedFits(p: Packet)
    requires Bytes(p.body) && ParsePublish(p).Some?
    ensures var r := ParsePublish(p).value;
            0 <= r.qos < 4 && |r.topic| <= 65535 && (r.id.Some? ==> r.id.value <= 65535)
  {
    assert IsByte(p.body[0]) && IsByte(p.body[1]);
  }

  lemma FittingParses(dup: int, qos: int, retained: int, packetId: nat, topic: MqttString, payload: seq<int>)
    requires Present(topic) && Bytes(payload) && Fitting(qos, packetId, topic)
    ensures var p := PublishPacket(dup, qos, retained, packetId, topic, payload);
            Bytes(p.body) && ParsePublish(p) == Some(Meant(dup, qos, retained, packetId, topic, payload))
  {
    hide StrBytes, IntBytes, Header, Text;
    var p := PublishPacket(dup, qos, retained, packetId, topic, payload);
    HeaderParses(3, dup, qos, retained);
    StringParses(topic);
    StrBytesAre(topic);
    TwoBytes(|Text(topic)|);
    TwoBytes(packetId);
    IntBytesBack(packetId);
    IntAreBytes(packetId);
    var t := StrBytes(topic);
    var id := if qos > 0 then IntBytes(packetId) else [];
    assert p.body == t + id + payload;
    assert p.body[0] == t[0] && p.body[1] == t[1];
    assert p.body[2..|t|] == Text(topic) && p.body[|t| + |id|..] == payload;
    if qos > 0 {
      assert p.body[|t|] == id[0] && p.body[|t| + 1] == id[1];
    }
  }

  lemma IntAreBytes(n: nat)
    ensures Bytes(IntBytes(n))
  {}

  /** A quality of service of 4 loses its bit: the identifier is written, and read as payload. */
  lemma PublishParsesFails()
    ensures var topic := MqttString(Some([65]), 0, []);
            var p := PublishPacket(0, 4, 0, 7, topic, [66]);
            Present(topic) && Bytes(p.body) && ParsePublish(p) == Some(Published(0, 0, 0, [65], None, [0, 7, 66]))
  {
    var topic := MqttString(Some([65]), 0, []);
    var p := PublishPacket(0, 4, 0, 7, topic, [66]);
    assert StrBytes(topic) == [0, 1, 65];
    assert p.body == [0, 1, 65, 0, 7, 66];
    assert p.body[2..3] == [65] && p.body[3..] == [0, 7, 66];
  }

  /** A topic filter of a SUBSCRIBE and the quality of service asked for. */
  datatype Asked = Asked(topic: seq<int>, qos: int)

  function ParseTopics(b: seq<int>): seq<Asked>
    requires Bytes(b)
  {
    if |b| < 3 || |b| < 3 + Number(b, 0) then []
    else
      var end: nat := 2 + Number(b, 0);
      [Asked(b[2..end], b[end])] + ParseTopics(b[end + 1..])
  }

  /** The bytes of one topic are parsed, and then the rest. */
  lemma TopicParses(m: MqttString, qos: int, rest: seq<int>)
    requires Present(m) && |Text(m)| <= 65535 && Bytes(rest)
    ensures var b := StrBytes(m) + [qos % 256] + rest;
            Bytes(b) && ParseTopics(b) == [Asked(Text(m), qos % 256)] + ParseTopics(rest)
  {
    hide StrBytes, IntBytes, Text;
    StringParses(m);
    StrBytesAre(m);
    TwoBytes(|Text(m)|);
    var t := StrBytes(m);
    var b := t + [qos % 256] + rest;
    assert b[0] == t[0] && b[1] == t[1];
    assert b[2..|t|] == Text(m) && b[|t|] == qos % 256 && b[|t| + 1..] == rest;
  }

  /** What was asked for. */
  function Wanted(topics: seq<MqttString>, qoss: seq<int>): seq<Asked>
    requires |topics| == |qoss| && forall i :: 0 <= i < |topics| ==> topics[i].len <= |topics[i].data|
  {
    seq(|topics|, i requires 0 <= i < |topics| => Asked(Text(topics[i]), qoss[i] % 256))
  }

  lemma {:induction false} TopicsParse(topics: seq<MqttString>, qoss: seq<int>, rest: seq<int>)
    requires |topics| == |qoss| && Bytes(rest)
    requires forall i :: 0 <= i < |topics| ==> topics[i].len <= |topics[i].data|
    requires forall i :: 0 <= i < |topics| ==> Present(topics[i]) && |Text(topics[i])| <= 65535
    ensures Bytes(TopicsBytes(topics, qoss) + rest)
    ensures ParseTopics(TopicsBytes(topics, qoss) + rest) == Wanted(topics, qoss) + ParseTopics(rest)
    decreases |topics|
  {
    hide StrBytes, Text, ParseTopics, Present, Bytes;
    if topics == [] {
      assert TopicsBytes(topics, qoss) + rest == rest;
      assert Wanted(topics, qoss) + ParseTopics(rest) == ParseTopics(rest);
    } else {
      var n := |topics| - 1;
      var last := StrBytes(topics[n]) + [qoss[n] % 256] + rest;
      TopicParses(topics[n], qoss[n], rest);
      TopicsParse(topics[..n], qoss[..n], last);
      assert TopicsBytes(topics, qoss) + rest == TopicsBytes(topics[..n], qoss[..n]) + last;
      assert Wanted(topics, qoss) == Wanted(topics[..n], qoss[..n]) + [Asked(Text(topics[n]), qoss[n] % 256)];
    }
  }

  /** A serialized SUBSCRIBE is parsed into its identifier and its topics; its header is the prescribed one. */
  lemma SubscribeParses(dup: int, packetId: nat, topics: seq<MqttString>, qoss: seq<int>)
    requires |topics| == |qoss| && packetId <= 65535
    requires forall i :: 0 <= i < |topics| ==> topics[i].len <= |topics[i].data|
    requires forall i :: 0 <= i < |topics| ==> Present(topics[i]) && |Text(topics[i])| <= 65535
    ensures var p := SubscribePacket(dup, packetId, topics, qoss);
            && p.header / 16 == 8 && p.header / 2 % 4 == 1 && p.header % 2 == 0 && p.header / 8 % 2 == dup % 2
            && 2 <= |p.body| && Number(p.body, 0) == packetId
            && Bytes(p.body[2..]) && ParseTopics(p.body[2..]) == Wanted(topics, qoss)
  {
    hide IntBytes, Header, TopicsBytes, Text, Wanted, ParseTopics, Present;
    var p := SubscribePacket(dup, packetId, topics, qoss);
    HeaderParses(8, dup, 1, 0);
    IntBytesBack(packetId);
    TwoBytes(packetId);
    assert p.body[0] == IntBytes(packetId)[0] && p.body[1] == IntBytes(packetId)[1];
    TopicsParse(topics, qoss, []);
    NoTopics();
    assert p.body[2..] == TopicsBytes(topics, qoss) + [];
  }

  lemma NoTopics()
    ensures ParseTopics([]) == []
  {}
}
