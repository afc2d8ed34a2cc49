/** mg_mqtt_parse, and what it makes of a published packet. */
module MqttParse {
  import opened Bytes
  import opened IoBuf
  import opened MqttProps
  import opened Mqtt

  datatype Message = Message(cmd: nat, qos: nat, ack: nat, id: nat, topic: seq<byte>, data: seq<byte>,
                             dgramLen: nat, propsStart: nat, propsSize: nat)

  datatype Parsed = Ok(m: Message) | Incomplete | Malformed

  /** The part of mg_mqtt_parse for a PUBLISH packet whose body lies between `p` and `end`. */
  function ParsePublish(buf: seq<byte>, version: nat, m: Message, p: nat, end: nat): Parsed
    requires p <= end <= |buf|
  {
    if p + 2 > end then Malformed
    else
      var q := p + 2 + Word16(buf, p);
      if q > end || (m.qos > 0 && q + 2 > end) then Malformed
      else
        var r := if m.qos > 0 then q + 2 else q;
        var m1 := m.(topic := buf[p + 2..q], id := if m.qos > 0 then Word16(buf, q) else 0);
        if version == 5 && r + 2 < end then
          var Decoded(n, size) := DecodeFrom(buf, r, 0, end - r, 0);
          if n == 0 || r + n + size > end then Malformed
          else Ok(m1.(propsStart := r + n, propsSize := size, data := buf[r + n + size..end]))
        else Ok(m1.(data := buf[r..end]))
  }

  function ParseBody(buf: seq<byte>, version: nat, m: Message, p: nat, end: nat): Parsed
    requires p <= end <= |buf|
  {
    if m.cmd == CONNACK then
      if end - p < 2 then Malformed else Ok(m.(ack := buf[p + 1] as int))
    else if StartsWithId(m.cmd) then
      if p + 2 > end then Malformed else Ok(m.(id := Word16(buf, p)))
    else if m.cmd == PUBLISH then ParsePublish(buf, version, m, p, end)
    else Ok(m)
  }

  function Blank(first: byte): Message
  {
    Message(first / 16, first / 2 % 4, 0, 0, [], [], 0, 0, 0)
  }

  function Parse(buf: seq<byte>, version: nat): Parsed
  {
    if |buf| < 2 then Incomplete
    else
      var Decoded(size, n) := DecodeFrom(buf, 1, 0, |buf| - 1, 0);
      if size == 0 then if |buf| > 4 then Malformed else Incomplete
      else if 1 + size + n > |buf| then Incomplete
      else ParseBody(buf, version, Blank(buf[0]).(dgramLen := 1 + size + n), 1 + size, 1 + size + n)
  }

  /** mg_mqtt_parse. */
  method MgMqttParse(buf: seq<byte>, version: nat) returns (r: Parsed)
    ensures r == Parse(buf, version)
  {
    hide ParseBody, Blank, Power128;
    if |buf| < 2 {
      return Incomplete;
    }
    var m := Blank(buf[0]);
    var lc: nat, n: nat, lenLen: nat, p: nat := 0, 0, 0, 1;
    ghost var whole := DecodeFrom(buf, 1, 0, |buf| - 1, 0);
    var more := true;
    while more && p < |buf|
      invariant p == 1 + lenLen <= |buf| && lenLen <= 4
      invariant more ==> lenLen < 4 && whole == DecodeFrom(buf, 1, lenLen, |buf| - 1, n) && (lenLen > 0 ==> lc >= 128)
      invariant !more ==> lc < 128 && whole == Decoded(lenLen, n) && lenLen > 0
      decreases |buf| - p
    {
      lc := buf[p];
      n, p := n + lc % 128 * Power128(lenLen), p + 1;
      lenLen := lenLen + 1;
      if lc < 128 {
        more := false;
      } else if lenLen >= 4 {
        return Malformed;
      }
    }
    var end := p + n;
    if lc >= 128 || end > |buf| {
      return Incomplete;
    }
    r := ParseBody(buf, version, m.(dgramLen := end), p, end);
  }

  // ----- the round trip -----

  /** The header of a packet is read back, whatever follows the packet. */
  lemma HeaderRead(cmd: nat, flags: nat, body: seq<byte>, rest: seq<byte>)
    requires cmd < 16 && flags < 16 && |body| < VARINT_LIMIT
    ensures var buf, p := Packet(cmd, flags, body) + rest, 1 + |Varint(|body|)|;
            && |buf| >= 2 && buf[0] == cmd * 16 + flags && p + |body| == |Packet(cmd, flags, body)| <= |buf|
            && DecodeFrom(buf, 1, 0, |buf| - 1, 0) == Decoded(p - 1, |body|) && Holds(buf, p, body)
  {
    var v := Varint(|body|);
    var buf := Packet(cmd, flags, body) + rest;
    assert buf == [cmd * 16 + flags] + (v + (body + rest));
    assert Holds(buf, 1, v) && Holds(buf, 1 + |v|, body);
    hide Packet, Varint, DecodeFrom;
    VarintRoundTrip(buf, 1, |buf| - 1, |body|);
  }

  lemma ParseUnfold(buf: seq<byte>, version: nat, p: nat, end: nat)
    requires |buf| >= 2 && 1 < p <= end <= |buf|
    requires DecodeFrom(buf, 1, 0, |buf| - 1, 0) == Decoded(p - 1, end - p)
    ensures Parse(buf, version)
         == ParseBody(buf, version, Message(buf[0] / 16, buf[0] / 2 % 4, 0, 0, [], [], end, 0, 0), p, end)
  {
    hide DecodeFrom, ParseBody;
  }

  lemma FirstByte(cmd: nat, flags: nat)
    requires cmd < 16 && flags < 16
    ensures (cmd * 16 + flags) / 16 == cmd && (cmd * 16 + flags) / 2 % 4 == flags / 2 % 4
  {
    DivModUnique(cmd * 16 + flags, 16, cmd, flags);
    DivModUnique(cmd * 16 + flags, 2, cmd * 8 + flags / 2, flags % 2);
    DivModUnique(cmd * 8 + flags / 2, 4, 2 * cmd + flags / 2 / 4, flags / 2 % 4);
  }

  /** A whole packet goes to the switch on its command, with its length known. */
  lemma PacketRead(cmd: nat, flags: nat, body: seq<byte>, rest: seq<byte>, version: nat)
    requires cmd < 16 && flags < 16 && |body| < VARINT_LIMIT
    ensures var packet, p := Packet(cmd, flags, body), 1 + |Varint(|body|)|;
            && p + |body| == |packet| <= |packet + rest| && (packet + rest)[p..p + |body|] == body
            && Parse(packet + rest, version) ==
               ParseBody(packet + rest, version, Message(cmd, flags / 2 % 4, 0, 0, [], [], |packet|, 0, 0), p, |packet|)
  {
    hide *;
    HeaderRead(cmd, flags, body, rest);
    var buf, p := Packet(cmd, flags, body) + rest, 1 + |Varint(|body|)|;
    HoldsSlice(buf, p, body, 0, |body|);
    assert body[0..|body|] == body;
    FirstByte(cmd, flags);
    ParseUnfold(buf, version, p, p + |body|);
  }

  /** The answer to a CONNECT packet: its second byte is the return code. */
  lemma ConnackRead(flags: nat, body: seq<byte>, rest: seq<byte>, version: nat)
    requires flags < 16 && |body| < VARINT_LIMIT
    ensures var r, length := Parse(Packet(2, flags, body) + rest, version), |Packet(2, flags, body)|;
            if |body| < 2 then r == Malformed
            else r == Ok(Message(2, flags / 2 % 4, body[1] as int, 0, [], [], length, 0, 0))
  {
    PacketRead(2, flags, body, rest, version);
    hide Packet, Parse;
    var packet, p := Packet(2, flags, body), 1 + |Varint(|body|)|;
    assert |body| >= 2 ==> (packet + rest)[p..p + |body|][1] == (packet + rest)[p + 1];
  }

  /** PUBACK to UNSUBACK: the first two bytes are the packet id. */
  lemma IdRead(cmd: nat, flags: nat, body: seq<byte>, rest: seq<byte>, version: nat)
    requires 4 <= cmd <= 11 && flags < 16 && |body| < VARINT_LIMIT
    ensures var r, length := Parse(Packet(cmd, flags, body) + rest, version), |Packet(cmd, flags, body)|;
            if |body| < 2 then r == Malformed
            else r == Ok(Message(cmd, flags / 2 % 4, 0, body[0] as int * 256 + body[1] as int, [], [], length, 0, 0))
  {
    PacketRead(cmd, flags, body, rest, version);
    hide Packet, Parse;
    var packet, p := Packet(cmd, flags, body), 1 + |Varint(|body|)|;
    if |body| >= 2 {
      assert (packet + rest)[p..p + |body|][0] == (packet + rest)[p];
      assert (packet + rest)[p..p + |body|][1] == (packet + rest)[p + 1];
    }
  }

  /** Of any other packet but PUBLISH the header is all that is read. */
  lemma HeaderOnlyRead(cmd: nat, flags: nat, body: seq<byte>, rest: seq<byte>, version: nat)
    requires cmd in {0, 1, 12, 13, 14, 15} && flags < 16 && |body| < VARINT_LIMIT
    ensures Parse(Packet(cmd, flags, body) + rest, version)
         == Ok(Message(cmd, flags / 2 % 4, 0, 0, [], [], |Packet(cmd, flags, body)|, 0, 0))
  {
    PacketRead(cmd, flags, body, rest, version);
    hide Packet, Parse;
  }

  /** An integer is read alike wherever its bytes are. */
  lemma {:induction false} DecodeMoved(a: seq<byte>, i: nat, b: seq<byte>, j: nat, k: nat, limit: nat, acc: nat)
    requires i + limit <= |a| && j + limit <= |b| && a[i..i + limit] == b[j..j + limit]
    ensures DecodeFrom(a, i, k, limit, acc) == DecodeFrom(b, j, k, limit, acc)
    decreases limit - k
  {
    if k < 4 && k < limit {
      assert a[i + k] == a[i..i + limit][k] == b[j..j + limit][k] == b[j + k];
      DecodeMoved(a, i, b, j, k + 1, limit, acc + a[i + k] % 128 * Power128(k));
    }
  }

  /** Where the message of a PUBLISH packet begins, or the properties in front of it: behind the topic and, with
      delivery guarantees, the packet id. */
  function TopicEnd(body: seq<byte>, qos: nat): nat
    requires |body| >= 2
  {
    2 + (body[0] as nat * 256 + body[1] as nat) + if qos > 0 then 2 else 0
  }

  /** What a PUBLISH packet with any body means. */
  function Published(body: seq<byte>, qos: nat, version: nat, length: nat): Parsed
    requires |body| <= length
  {
    if |body| < 2 || |body| < TopicEnd(body, qos) then Malformed
    else
      var n: nat, k: nat := body[0] as nat * 256 + body[1] as nat, TopicEnd(body, qos);
      var id := if qos > 0 then body[2 + n] as nat * 256 + body[3 + n] as nat else 0;
      var m := Message(3, qos, 0, id, body[2..2 + n], body[k..], length, 0, 0);
      if version != 5 || |body| < k + 3 then Ok(m)
      else
        var Decoded(size, props) := DecodeFrom(body, k, 0, |body| - k, 0);
        if size == 0 || |body| < k + size + props then Malformed
        else Ok(m.(propsStart := length - |body| + k + size, propsSize := props, data := body[k + size + props..]))
  }

  /** The parts of the body, in the buffer. */
  lemma PublishParts(buf: seq<byte>, p: nat, body: seq<byte>, qos: nat)
    requires p + |body| <= |buf| && buf[p..p + |body|] == body && |body| >= 2
    ensures Word16(buf, p) == body[0] as nat * 256 + body[1] as nat
    ensures |body| >= TopicEnd(body, qos) ==>
              var n: nat, k: nat := body[0] as nat * 256 + body[1] as nat, TopicEnd(body, qos);
              && buf[p + 2..p + 2 + n] == body[2..2 + n] && buf[p + k..p + |body|] == body[k..]
              && (qos > 0 ==> Word16(buf, p + 2 + n) == body[2 + n] as nat * 256 + body[3 + n] as nat)
              && DecodeFrom(buf, p + k, 0, |body| - k, 0) == DecodeFrom(body, k, 0, |body| - k, 0)
  {
    BodyWords(buf, p, body, 0);
    hide Word16, DecodeFrom;
    if |body| >= TopicEnd(body, qos) {
      var n: nat, k: nat := body[0] as nat * 256 + body[1] as nat, TopicEnd(body, qos);
      if qos > 0 {
        BodyWords(buf, p, body, 2 + n);
      }
      SubSlice(buf, p, p + |body|, 2, 2 + n);
      SubSlice(buf, p, p + |body|, k, |body|);
      DecodeMoved(buf, p + k, body, k, 0, |body| - k, 0);
    }
  }

  lemma DataMoved(buf: seq<byte>, p: nat, body: seq<byte>, i: nat)
    requires p + |body| <= |buf| && buf[p..p + |body|] == body
    ensures i <= |body| ==> buf[p + i..p + |body|] == body[i..]
  {
    if i <= |body| {
      SubSlice(buf, p, p + |body|, i, |body|);
    }
  }

  lemma PublishMeans(buf: seq<byte>, version: nat, p: nat, body: seq<byte>, qos: nat)
    requires p + |body| <= |buf| && buf[p..p + |body|] == body
    ensures ParsePublish(buf, version, Message(3, qos, 0, 0, [], [], p + |body|, 0, 0), p, p + |body|)
         == Published(body, qos, version, p + |body|)
  {
    hide Word16, DecodeFrom;
    if |body| >= 2 {
      PublishParts(buf, p, body, qos);
      if |body| >= TopicEnd(body, qos) {
        var d := DecodeFrom(body, TopicEnd(body, qos), 0, |body| - TopicEnd(body, qos), 0);
        DataMoved(buf, p, body, TopicEnd(body, qos) + d.size + d.value);
      }
    }
  }

  lemma AnyPublishRead(flags: nat, body: seq<byte>, rest: seq<byte>, version: nat)
    requires flags < 16 && |body| < VARINT_LIMIT
    ensures |body| <= |Packet(3, flags, body)|
    ensures Parse(Packet(3, flags, body) + rest, version)
         == Published(body, flags / 2 % 4, version, |Packet(3, flags, body)|)
  {
    hide *;
    PacketRead(3, flags, body, rest, version);
    var buf, p, qos := Packet(3, flags, body) + rest, 1 + |Varint(|body|)|, flags / 2 % 4;
    PublishMeans(buf, version, p, body, qos);
    PublishBranch(buf, version, Message(3, qos, 0, 0, [], [], p + |body|, 0, 0), p, p + |body|);
  }

  lemma PublishBranch(buf: seq<byte>, version: nat, m: Message, p: nat, end: nat)
    requires p <= end <= |buf| && m.cmd == 3
    ensures ParseBody(buf, version, m, p, end) == ParsePublish(buf, version, m, p, end)
  {
    hide ParsePublish;
  }

  lemma BodyWords(buf: seq<byte>, p: nat, body: seq<byte>, i: nat)
    requires p + |body| <= |buf| && buf[p..p + |body|] == body
    ensures i + 2 <= |body| ==> Word16(buf, p + i) == body[i] as nat * 256 + body[i + 1] as nat
  {
    if i + 2 <= |body| {
      assert buf[p + i] == buf[p..p + |body|][i] && buf[p + i + 1] == buf[p..p + |body|][i + 1];
    }
  }

  /** No end is found in the first bytes of an integer. */
  lemma {:induction false} CutVarint(b: seq<byte>, at: nat, k: nat, limit: nat, acc: nat, n: nat)
    requires k <= limit && at + limit <= |b| && limit < k + |Varint(n)|
    requires forall j :: 0 <= j < limit - k ==> b[at + k + j] == Varint(n)[j]
    ensures DecodeFrom(b, at, k, limit, acc).size == 0
    decreases n
  {
    if k < 4 && k < limit {
      assert b[at + k + 0] == Varint(n)[0];
      forall j | 0 <= j < limit - (k + 1)
        ensures b[at + (k + 1) + j] == Varint(n / 128)[j]
      {
        assert b[at + k + (j + 1)] == Varint(n)[j + 1];
      }
      CutVarint(b, at, k + 1, limit, acc + b[at + k] % 128 * Power128(k), n / 128);
    }
  }

  /** As long as bytes of a packet are missing, more are waited for. */
  lemma PartOfPacket(cmd: nat, flags: nat, body: seq<byte>, version: nat, k: nat)
    requires cmd < 16 && flags < 16 && |body| < VARINT_LIMIT && k < |Packet(cmd, flags, body)|
    ensures Parse(Packet(cmd, flags, body)[..k], version) == Incomplete
  {
    var v, buf := Varint(|body|), Packet(cmd, flags, body)[..k];
    VarintFits(|body|);
    assert Packet(cmd, flags, body) == [cmd * 16 + flags] + v + body;
    if k >= 2 {
      hide Packet, ParseBody, Varint;
      assert forall j :: 0 <= j < |v| && j < k - 1 ==> buf[1 + 0 + j] == v[j];
      if k - 1 < |v| {
        CutVarint(buf, 1, 0, k - 1, 0, |body|);
      } else {
        VarintRoundTrip(buf, 1, k - 1, |body|);
      }
      hide DecodeFrom;
    }
  }

  lemma VariableRead(buf: seq<byte>, p: nat, o: Options, id: nat, tail: seq<byte>)
    requires |o.topic| < 0x1_0000 && id < 0x1_0000 && Holds(buf, p, Variable(o, id) + tail)
    ensures var q := p + 2 + |o.topic|; var r := p + |Variable(o, id)|;
            && Word16(buf, p) == |o.topic| && r == (if o.qos > 0 then q + 2 else q) && r + |tail| <= |buf|
            && buf[p + 2..q] == o.topic && (o.qos > 0 ==> Word16(buf, q) == id) && Holds(buf, r, tail)
  {
    hide BigEndian, Word16, Span;
    HoldsBoth(buf, p, Variable(o, id), tail);
    var idBytes := if o.qos > 0 then BigEndian(id, 2) else [];
    HoldsBoth(buf, p, Counted(o.topic), idBytes);
    if o.qos > 0 {
      Word16Read(buf, p + |Counted(o.topic)|, id);
    }
    HoldsBoth(buf, p, BigEndian(|o.topic|, 2), o.topic);
    Word16Read(buf, p, |o.topic|);
    HoldsSlice(buf, p + 2, o.topic, 0, |o.topic|);
    assert o.topic[0..|o.topic|] == o.topic;
  }

  /** Properties and message start at `r`: they are found exactly when there are three bytes or more. */
  predicate Found(r: Parsed, buf: seq<byte>, o: Options, mqtt5: bool, at: nat)
  {
    && r.Ok?
    && (r.m.data == o.message <==> mqtt5 ==> |PropsAndMessage(o, mqtt5)| >= 3)
    && (mqtt5 && r.m.data == o.message ==>
          && r.m.propsSize == |PropsBytes(o.props)| && r.m.propsStart == at + |Varint(|PropsBytes(o.props)|)|
          && Holds(buf, r.m.propsStart, PropsBytes(o.props)))
  }

  lemma RestRead(buf: seq<byte>, o: Options, mqtt5: bool, r: nat, end: nat)
    requires |PropsAndMessage(o, mqtt5)| < VARINT_LIMIT && Holds(buf, r, PropsAndMessage(o, mqtt5))
    requires end == r + |PropsAndMessage(o, mqtt5)|
    ensures mqtt5 ==> var v, size := |Varint(|PropsBytes(o.props)|)|, |PropsBytes(o.props)|;
                      && DecodeFrom(buf, r, 0, end - r, 0) == Decoded(v, size) && v > 0
                      && Holds(buf, r + v, PropsBytes(o.props)) && r + v + size <= end
                      && buf[r + v + size..end] == o.message
    ensures !mqtt5 ==> buf[r..end] == o.message
    ensures mqtt5 ==> |buf[r..end]| > |o.message|
  {
    hide Varint, PropsBytes, DecodeFrom;
    var section := if mqtt5 then SectionBytes(o.props) else [];
    HoldsBoth(buf, r, section, o.message);
    HoldsSlice(buf, r + |section|, o.message, 0, |o.message|);
    assert o.message[0..|o.message|] == o.message;
    if mqtt5 {
      HoldsBoth(buf, r, Varint(|PropsBytes(o.props)|), PropsBytes(o.props));
      VarintRoundTrip(buf, r, end - r, |PropsBytes(o.props)|);
    }
  }

  lemma PublishRead(buf: seq<byte>, version: nat, m: Message, p: nat, end: nat, o: Options, id: nat)
    requires Publishable(o, version == 5) && id < 0x1_0000 && m.qos == o.qos
    requires p <= end <= |buf| && end == p + |PubBody(o, id, version == 5)| < p + VARINT_LIMIT
    requires Holds(buf, p, PubBody(o, id, version == 5))
    ensures var r := ParsePublish(buf, version, m, p, end);
            && Found(r, buf, o, version == 5, p + |Variable(o, id)|) && r.m.topic == o.topic
            && r.m.id == (if o.qos > 0 then id else 0) && r.m.cmd == m.cmd && r.m.qos == m.qos
            && r.m.dgramLen == m.dgramLen
  {
    hide BigEndian, Word16, PropsBytes, Varint, DecodeFrom, PropsAndMessage, Holds, AllFit, Variable;
    VariableRead(buf, p, o, id, PropsAndMessage(o, version == 5));
    RestRead(buf, o, version == 5, p + |Variable(o, id)|, end);
  }

  lemma PublishUnfold(buf: seq<byte>, version: nat, o: Options, p: nat, end: nat)
    requires |buf| >= 2 && o.qos < 4 && buf[0] == PUBLISH * 16 + PubFlags(o) && 1 < p <= end <= |buf|
    requires DecodeFrom(buf, 1, 0, |buf| - 1, 0) == Decoded(p - 1, end - p)
    ensures var m := Blank(buf[0]).(dgramLen := end);
            m.cmd == PUBLISH && m.qos == o.qos && m.dgramLen == end
                && Parse(buf, version) == ParsePublish(buf, version, m, p, end)
    ensures PubFlags(o) < 16 && PUBLISH < 16
  {
    ParseUnfold(buf, version, p, end);
    hide DecodeFrom, ParsePublish, Parse;
  }

  lemma FoundUnfold(r: Parsed, buf: seq<byte>, o: Options, mqtt5: bool, at: nat)
    requires Found(r, buf, o, mqtt5, at)
    ensures r.Ok? && (r.m.data == o.message <==> mqtt5 ==> |PropsAndMessage(o, mqtt5)| >= 3)
    ensures mqtt5 && r.m.data == o.message ==>
              r.m.propsSize == |PropsBytes(o.props)| && Holds(buf, r.m.propsStart, PropsBytes(o.props))
  {
    hide PropsAndMessage, PropsBytes, Holds;
  }

  lemma FlagsFit(o: Options)
    ensures PubFlags(o) < 16 && PUBLISH < 16
  {
  }

  /** mg_mqtt_parse on what mg_mqtt_pub sent, whatever bytes follow: topic, quality of service, packet
      id and length come back, and the message and the properties exactly when at least three bytes
      follow the packet id, or the protocol is the older one. */
  lemma PubRoundTrip(o: Options, id: nat, version: nat, rest: seq<byte>)
    requires id < 0x1_0000 && Publishable(o, version == 5)
    ensures var mqtt5 := version == 5;
            var packet := Packet(PUBLISH, PubFlags(o), PubBody(o, id, mqtt5));
            var r := Parse(packet + rest, version);
            && r.Ok? && r.m.cmd == PUBLISH && r.m.qos == o.qos && r.m.topic == o.topic
            && r.m.id == (if o.qos > 0 then id else 0) && r.m.dgramLen == |packet|
            && (r.m.data == o.message <==> mqtt5 ==> |PropsAndMessage(o, mqtt5)| >= 3)
            && (mqtt5 && r.m.data == o.message ==>
                  r.m.propsSize == |PropsBytes(o.props)| && Holds(packet + rest, r.m.propsStart, PropsBytes(o.props)))
  {
    hide *;
    var mqtt5, body := version == 5, PubBody(o, id, version == 5);
    FlagsFit(o);
    SameLength(o, id, mqtt5);
    HeaderRead(PUBLISH, PubFlags(o), body, rest);
    var buf, p := Packet(PUBLISH, PubFlags(o), body) + rest, 1 + |Varint(|body|)|;
    var m := Blank(buf[0]).(dgramLen := p + |body|);
    PublishUnfold(buf, version, o, p, p + |body|);
    PublishRead(buf, version, m, p, p + |body|, o, id);
    FoundUnfold(Parse(buf, version), buf, o, mqtt5, p + |Variable(o, id)|);
  }

  lemma SameLength(o: Options, id: nat, mqtt5: bool)
    requires Publishable(o, mqtt5)
    ensures o.qos < 4 && |PubBody(o, id, mqtt5)| == |PubBody(o, 0, mqtt5)| < VARINT_LIMIT
  {
    hide AllFit, PropsBytes, Varint;
  }

  // ----- the properties, one by one -----

  /** mg_mqtt_next_prop at the offset behind the first `k` properties gives property `k`, and the offset
      behind it; the last of these offsets is the size of the section. */
  lemma PropsIterate(b: seq<byte>, dgram: nat, start: nat, props: seq<Prop>, k: nat, was: Prop)
    requires AllFit(props) && Holds(b, start, PropsBytes(props)) && k < |props|
    requires start + |PropsBytes(props)| <= dgram <= |b|
    ensures var r := NextProp(b, dgram, start, |PropsBytes(props)|, was, |PropsBytes(props[..k])|);
            && Agree(props[k], r.prop) && r.pos == |PropsBytes(props[..k + 1])|
    ensures k + 1 == |props| ==> |PropsBytes(props[..k + 1])| == |PropsBytes(props)|
    ensures |PropsBytes(props[..0])| == 0
  {
    hide *;
    NoProps(props);
    OneMoreProp(props, k);
    var front, prop, tail := PropsBytes(props[..k]), PropBytes(props[k]), PropsBytes(props[k + 1..]);
    PropShape(props[k]);
    HoldsBoth(b, start, front + prop, tail);
    HoldsBoth(b, start, front, prop);
    PropRead(b, dgram, start, |PropsBytes(props)|, was, |front|, props[k]);
  }

  lemma PropShape(p: Prop)
    ensures PropBytes(p) == [p.id] + Body(p)
  {
  }

  /** At the offset behind the last property the answer is 0 only by chance: whatever follows the section, in the
      datagram or behind it, is read as one more property, unless it has an unknown identifier, or is said to
      be a variable-length integer and is none. */
  lemma EndOfProps(b: seq<byte>, dgram: nat, start: nat, size: nat, p: Prop)
    requires 0 < start && start + size <= dgram <= |b| && size < dgram
    ensures var id := ByteAt(b, start + size);
            NextProp(b, dgram, start, size, p, size).pos == 0 <==>
              TypeOf(id) == Unknown || (TypeOf(id) == VariableInt && IntAt(b, dgram, start + size + 1).size == 0)
  {
    hide IntAt, Span, Word16;
  }

  /** The section that the parser finds lies in the datagram. */
  lemma SectionInside(buf: seq<byte>, version: nat)
    requires Parse(buf, version).Ok?
    ensures var m := Parse(buf, version).m;
            m.dgramLen <= |buf|
                && (m.propsStart > 0 ==> m.propsStart + m.propsSize <= m.dgramLen && m.propsSize < m.dgramLen)
  {
    hide DecodeFrom, Word16;
  }

  /** A publish packet of version 5: topic "", the property 1 with value 1, and a message of `n` bytes. */
  lemma OneProperty(b: seq<byte>, n: nat)
    requires n < 100 && 7 + n <= |b| && b[..7] == [48, 5 + n, 0, 0, 2, 1, 1]
    ensures var r := Parse(b, 5);
            && r.Ok? && r.m.dgramLen == 7 + n && r.m.propsStart == 5 && r.m.propsSize == 2 && r.m.data == b[7..7 + n]
  {
    hide DecodeFrom, Word16;
    assert b[0] == b[..7][0] && b[1] == b[..7][1] && b[2] == b[..7][2] && b[3] == b[..7][3] && b[4] == b[..7][4];
    OneByteInt(b, 1, |b| - 1);
    OneByteInt(b, 4, 3 + n);
    ZeroWord(b, 2);
  }

  lemma OneByteInt(b: seq<byte>, at: nat, limit: nat)
    requires 0 < limit && at + limit <= |b| && b[at] < 128
    ensures DecodeFrom(b, at, 0, limit, 0) == Decoded(1, b[at] as int)
  {
    assert Power128(0) == 1;
  }

  lemma ZeroWord(b: seq<byte>, at: nat)
    requires at + 2 <= |b| && b[at] == b[at + 1] == 0
    ensures Word16(b, at) == 0
  {
  }

  /** At the end of the section the identifier of a property with one byte follows. */
  lemma OneMoreRead(b: seq<byte>, dgram: nat, p: Prop)
    requires 7 <= dgram <= |b| && |b| >= 8 && b[..8] == [48, dgram - 2, 0, 0, 2, 1, 1, 1]
    ensures NextProp(b, dgram, 5, 2, p, 2).pos == 4
  {
    assert b[7] == b[..8][7];
    hide IntAt, Word16, Span;
  }

  const READ_ON: seq<byte> := [48, 7, 0, 0, 2, 1, 1, 1, 1]

  /** At the end of its one property the message 01 01 is taken for another one. */
  lemma ReadsPastProperties(p: Prop)
    ensures var r := Parse(READ_ON, 5);
            && r.Ok? && r.m.dgramLen == 9 && r.m.propsStart == 5 && r.m.propsSize == 2 && r.m.data == [1, 1]
            && NextProp(READ_ON, r.m.dgramLen, r.m.propsStart, r.m.propsSize, p, r.m.propsSize).pos == 4
  {
    hide Parse, NextProp;
    assert READ_ON[7..9] == [1, 1];
    OneProperty(READ_ON, 2);
    OneMoreRead(READ_ON, 9, p);
  }

  const READ_BEYOND: seq<byte> := [48, 5, 0, 0, 2, 1, 1, 1]

  /** With an empty message it is the byte behind the datagram of seven bytes. */
  lemma ReadsPastDatagram(p: Prop)
    ensures var r := Parse(READ_BEYOND, 5);
            && r.Ok? && r.m.dgramLen == 7 && r.m.propsStart == 5 && r.m.propsSize == 2 && r.m.data == []
            && NextProp(READ_BEYOND, r.m.dgramLen, r.m.propsStart, r.m.propsSize, p, r.m.propsSize).pos == 4
  {
    hide Parse, NextProp;
    assert READ_BEYOND[7..7] == [];
    OneProperty(READ_BEYOND, 0);
    OneMoreRead(READ_BEYOND, 7, p);
  }

  /** A version 5 publish packet without properties and with a message of one byte. */
  lemma ShortSectionSkipped(o: Options, x: byte, id: nat, rest: seq<byte>)
    requires o == Options([], [x], 0, false, []) && id < 0x1_0000
    ensures Parse(Packet(PUBLISH, PubFlags(o), PubBody(o, id, true)) + rest, 5).Ok?
    ensures Parse(Packet(PUBLISH, PubFlags(o), PubBody(o, id, true)) + rest, 5).m.data == [0, x]
  {
    var b := Packet(PUBLISH, PubFlags(o), PubBody(o, id, true)) + rest;
    assert SectionBytes([]) == [0];
    assert PubBody(o, id, true) == [0, 0, 0, x];
    assert b == [48, 4, 0, 0, 0, x] + rest;
    assert DecodeFrom(b, 1, 0, |b| - 1, 0) == Decoded(1, 4);
    assert Word16(b, 2) == 0;
    hide DecodeFrom, Word16, Packet, PubBody, Variable, PropsAndMessage;
    assert b[4..6] == [0, x];
  }
}
