/** mg_mqtt_pub and mg_mqtt_parse. */
module Mqtt {
  import opened Bytes
  import opened IoBuf
  import opened MqttProps

  const CONNACK: nat := 2
  const PUBLISH: nat := 3

  /** CMD_PUBACK to CMD_UNSUBACK, the commands that start with a packet id. */
  predicate StartsWithId(cmd: nat)
  {
    4 <= cmd <= 11
  }

  // ----- publishing -----

  datatype Options = Options(topic: seq<byte>, message: seq<byte>, qos: byte, retain: bool, props: seq<Prop>)

  /** The topic, and with delivery guarantees the packet id. */
  function Variable(o: Options, id: nat): seq<byte>
  {
    Counted(o.topic) + if o.qos > 0 then BigEndian(id, 2) else []
  }

  function PropsAndMessage(o: Options, mqtt5: bool): seq<byte>
  {
    (if mqtt5 then SectionBytes(o.props) else []) + o.message
  }

  /** What follows the fixed header of a PUBLISH packet: section 3.3 of MQTT 5.0. */
  function PubBody(o: Options, id: nat, mqtt5: bool): seq<byte>
  {
    Variable(o, id) + PropsAndMessage(o, mqtt5)
  }

  function PubFlags(o: Options): nat
  {
    o.qos % 4 * 2 + if o.retain then 1 else 0
  }

  /** A packet: command and flags, the remaining length, and as many bytes. */
  function Packet(cmd: nat, flags: nat, body: seq<byte>): seq<byte>
    requires cmd < 16 && flags < 16
  {
    [cmd * 16 + flags] + Varint(|body|) + body
  }

  predicate Publishable(o: Options, mqtt5: bool)
  {
    && |o.topic| < 0x1_0000 && o.qos < 4 && (mqtt5 ==> AllFit(o.props))
    && |PubBody(o, 0, mqtt5)| < VARINT_LIMIT
  }

  /** The side of a connection that publishes. */
  class Client {
    const send: Buffer
    var lastId: nat // mgr->mqtt_id
    const mqtt5: bool

    ghost predicate Valid()
      reads this, send, send.buf
    {
      send.Valid() && lastId < 0x1_0000
    }

    constructor (mqtt5: bool)
      ensures Valid() && send.Contents() == [] && this.mqtt5 == mqtt5 && fresh(send) && fresh(send.buf)
    {
      send := new Buffer(2048);
      lastId := 0;
      this.mqtt5 := mqtt5;
    }

    /** mg_mqtt_send_header: at most four bytes of the length are written. */
    method SendHeader(cmd: nat, flags: nat, length: nat)
      requires send.Valid() && cmd < 16 && flags < 16
      modifies send, send.buf
      ensures send.Valid() && (send.buf == old(send.buf) || fresh(send.buf))
      ensures send.Contents() == old(send.Contents()) + ([cmd * 16 + flags] + LengthField(length))
      ensures length < VARINT_LIMIT ==> LengthField(length) == Varint(length)
    {
      hide Varint;
      var len: nat := length % TWO_TO_THE_32;
      ghost var whole := Varint(len);
      if length < VARINT_LIMIT {
        VarintFits(length);
      }
      var buf: seq<byte> := [cmd * 16 + flags];
      ghost var first := buf;
      var more := true;
      while more && |buf| < 5
        modifies {}
        invariant 1 <= |buf| <= 5
        invariant more ==> buf + Varint(len) == first + whole
        invariant !more ==> buf == first + whole
        decreases 5 - |buf|
      {
        var b := len % 128;
        VarintStep(buf, len);
        buf := buf + [if len / 128 > 0 then b + 128 else b];
        more := len / 128 > 0;
        len := len / 128;
      }
      CutAtFour(first, buf, whole, if more then Varint(len) else []);
      send.Append(buf);
    }

    /** mg_mqtt_pub. */
    method Pub(o: Options)
      requires Valid()
      modifies this`lastId, send, send.buf
      ensures Valid() && (send.buf == old(send.buf) || fresh(send.buf))
      ensures lastId == if o.qos > 0 then NextId(old(lastId)) else old(lastId)
      ensures send.Contents() == old(send.Contents()) + PubSent(o, lastId, mqtt5)
      ensures Publishable(o, mqtt5) ==>
              PubSent(o, lastId, mqtt5) == Packet(PUBLISH, PubFlags(o), PubBody(o, lastId, mqtt5))
    {
      hide BigEndian, Varint, SectionBytes, SectionSent, PropsBytes, PubBody, Packet, Publishable, Counted, PubSent,
        RestSent, LengthField, PubSize, Variable;
      FlagsOf(o);
      var flags := o.qos % 4 * 2 + if o.retain then 1 else 0;
      var len := Size(o);
      ghost var was := send.Contents();
      SendHeader(PUBLISH, flags, len);
      var id := SendVariable(o);
      SendRest(o);
      PubSentParts(o, id, mqtt5, was);
      if Publishable(o, mqtt5) {
        PubSentWell(o, id, mqtt5);
      }
    }

    /** The remaining length. */
    method Size(o: Options) returns (len: nat)
      ensures len == PubSize(o, mqtt5)
    {
      hide PropsBytes, Varint, BigEndian, Understood;
      len := 2 + |o.topic| + |o.message|;
      if o.qos > 0 {
        len := len + 2;
      }
      if mqtt5 {
        var n := SectionSize(o.props);
        len := len + n;
      }
    }

    /** Topic and packet id. */
    method SendVariable(o: Options) returns (id: nat)
      requires Valid()
      modifies this`lastId, send, send.buf
      ensures Valid() && (send.buf == old(send.buf) || fresh(send.buf))
      ensures id == lastId == if o.qos > 0 then NextId(old(lastId)) else old(lastId)
      ensures send.Contents() == old(send.Contents()) + Variable(o, id)
    {
      hide BigEndian;
      SendCounted(send, o.topic);
      if o.qos > 0 {
        lastId := (lastId + 1) % 0x1_0000;
        if lastId == 0 {
          lastId := 1;
        }
        SendU16(send, lastId);
      }
      id := lastId;
    }

    /** Properties and message. */
    method SendRest(o: Options)
      requires send.Valid()
      modifies send, send.buf
      ensures send.Valid() && (send.buf == old(send.buf) || fresh(send.buf))
      ensures send.Contents() == old(send.Contents()) + RestSent(o, mqtt5)
    {
      hide SectionBytes, AllFit, SectionSent;
      if mqtt5 {
        SendProperties(send, o.props);
      }
      send.Append(o.message);
    }
  }

  /** The bytes of the length that the header has room for. */
  function LengthField(length: nat): seq<byte>
  {
    var v := Varint(length % TWO_TO_THE_32);
    if |v| <= 4 then v else v[..4]
  }

  lemma VarintStep(front: seq<byte>, n: nat)
    ensures n / 128 > 0 ==> front + Varint(n) == (front + [n % 128 + 128]) + Varint(n / 128)
    ensures n / 128 == 0 ==> front + Varint(n) == front + [n % 128]
  {
  }

  lemma CutAtFour(first: seq<byte>, buf: seq<byte>, whole: seq<byte>, left: seq<byte>)
    requires |first| == 1 && |buf| <= 5 && buf + left == first + whole && (left != [] ==> |buf| == 5)
    ensures buf == first + if |whole| <= 4 then whole else whole[..4]
  {
    assert buf == (first + whole)[..|buf|];
    if left == [] {
      assert buf + left == buf;
    }
  }

  /** The length that the header gives: of what follows it, properties as far as they are understood. */
  function PubSize(o: Options, mqtt5: bool): nat
  {
    2 + |o.topic| + |o.message| + (if o.qos > 0 then 2 else 0)
    + if mqtt5 then |Varint(|PropsBytes(Understood(o.props))|)| + |PropsBytes(Understood(o.props))| else 0
  }

  function RestSent(o: Options, mqtt5: bool): seq<byte>
  {
    (if mqtt5 then SectionSent(o.props) else []) + o.message
  }

  /** All that is sent, for any options. */
  function PubSent(o: Options, id: nat, mqtt5: bool): seq<byte>
  {
    [PUBLISH * 16 + PubFlags(o)] + LengthField(PubSize(o, mqtt5)) + Variable(o, id) + RestSent(o, mqtt5)
  }

  /** Packet ids are 16 bits, and never 0. */
  function NextId(id: nat): nat
  {
    if (id + 1) % 0x1_0000 == 0 then 1 else (id + 1) % 0x1_0000
  }

  /** The packet id of the `n`-th message from now on that has one. */
  function IdAfter(id: nat, n: nat): nat
  {
    if n == 0 then id else NextId(IdAfter(id, n - 1))
  }

  /** The ids go round from 1 to 65535: one comes again only after all the others. */
  lemma {:induction false} IdsGoRound(id: nat, n: nat)
    requires 1 <= id < 0x1_0000
    ensures IdAfter(id, n) == (id - 1 + n) % 0xFFFF + 1
  {
    if n > 0 {
      IdsGoRound(id, n - 1);
      NextInRound(id - 1 + n - 1);
    }
  }

  lemma NextInRound(x: nat)
    ensures NextId(x % 0xFFFF + 1) == (x + 1) % 0xFFFF + 1
  {
  }

  /** get_props_size. */
  method SectionSize(props: seq<Prop>) returns (size: nat)
    ensures size == |Varint(|PropsBytes(Understood(props))|)| + |PropsBytes(Understood(props))|
  {
    hide PropsBytes, Varint, Understood;
    var n := PropertiesLength(props);
    size := VarintSize(n);
    size := size + n;
  }

  lemma FlagsOf(o: Options)
    ensures PubFlags(o) == o.qos % 4 * 2 + (if o.retain then 1 else 0) < 16 && PUBLISH < 16
  {
  }

  lemma PubSentParts(o: Options, id: nat, mqtt5: bool, was: seq<byte>)
    ensures was + ([PUBLISH * 16 + PubFlags(o)] + LengthField(PubSize(o, mqtt5))) + Variable(o, id) + RestSent(o, mqtt5)
         == was + PubSent(o, id, mqtt5)
  {
    hide LengthField, Variable, RestSent;
  }

  /** Options that fit the format are sent as one packet whose length is that of what follows. */
  lemma PubSentWell(o: Options, id: nat, mqtt5: bool)
    requires Publishable(o, mqtt5)
    ensures PubSent(o, id, mqtt5) == Packet(PUBLISH, PubFlags(o), PubBody(o, id, mqtt5))
  {
    if mqtt5 {
      AllKnown(o.props);
      AllUnderstood(o.props);
    }
    hide Varint, PropsBytes, Understood, AllFit, Variable, Counted;
    VariableSize(o, id);
    VariableSize(o, 0);
    var body := PubBody(o, id, mqtt5);
    assert |body| == PubSize(o, mqtt5) == |PubBody(o, 0, mqtt5)|;
    VarintFits(|body|);
    assert LengthField(|body|) == Varint(|body|);
  }

  lemma VariableSize(o: Options, id: nat)
    ensures |Variable(o, id)| == 2 + |o.topic| + if o.qos > 0 then 2 else 0
  {
  }
}
