/** Variable-length integers and the properties of MQTT 5. */
module MqttProps {
  import opened Bytes
  import opened IoBuf

  // ----- variable-length integers, MQTT 5.0 section 1.5.5 -----

  const VARINT_LIMIT: nat := 0x1000_0000

  function Varint(n: nat): (b: seq<byte>)
    ensures |b| > 0
  {
    if n < 128 then [n] else [128 + n % 128] + Varint(n / 128)
  }

  /** varint_size. */
  method VarintSize(value: nat) returns (size: nat)
    ensures size == |Varint(value)|
  {
    var length := value;
    size := 1;
    while length / 128 > 0
      invariant size + |Varint(length)| == |Varint(value)| + 1
    {
      size, length := size + 1, length / 128;
    }
  }

  /** encode_varint. */
  method EncodeVarint(value: nat) returns (buf: seq<byte>)
    ensures buf == Varint(value)
  {
    buf := [];
    var v := value;
    while v / 128 > 0
      invariant buf + Varint(v) == Varint(value)
    {
      assert buf + ([128 + v % 128] + Varint(v / 128)) == buf + [128 + v % 128] + Varint(v / 128);
      buf, v := buf + [128 + v % 128], v / 128;
    }
    buf := buf + [v % 128];
  }

  lemma {:induction false} VarintLength(n: nat, k: nat)
    requires 0 < k && n < Power128(k)
    ensures |Varint(n)| <= k
  {
    if n >= 128 {
      VarintLength(n / 128, k - 1);
    }
  }

  function Power128(k: nat): (p: nat)
    ensures p > 0
  {
    if k == 0 then 1 else 128 * Power128(k - 1)
  }

  lemma {:induction false} VarintLonger(n: nat, k: nat)
    requires n >= Power128(k)
    ensures |Varint(n)| > k
  {
    if k > 0 {
      VarintLonger(n / 128, k - 1);
    }
  }

  /** The callers of encode_varint have four bytes of room: enough exactly below 2^28. */
  lemma FourBytesExactly(n: nat)
    ensures |Varint(n)| <= 4 <==> n < VARINT_LIMIT
  {
    assert Power128(2) == 0x4000;
    assert Power128(4) == VARINT_LIMIT;
    if n < VARINT_LIMIT {
      VarintLength(n, 4);
    } else {
      VarintLonger(n, 4);
    }
  }

  lemma VarintFits(n: nat)
    requires n < VARINT_LIMIT
    ensures |Varint(n)| <= 4
  {
    FourBytesExactly(n);
  }

  /** A decoded integer and the bytes it took; none are taken when no end is found. */
  datatype Decoded = Decoded(size: nat, value: nat)

  /** decode_varint from byte `k` on, `limit` being the bytes that may be read. */
  function DecodeFrom(b: seq<byte>, at: nat, k: nat, limit: nat, acc: nat): Decoded
    requires at + limit <= |b|
    decreases limit - k
  {
    if k >= 4 || k >= limit then Decoded(0, acc)
    else
      var value := acc + b[at + k] % 128 * Power128(k);
      if b[at + k] < 128 then Decoded(k + 1, value) else DecodeFrom(b, at, k + 1, limit, value)
  }

  /** decode_varint. */
  method DecodeVarint(b: seq<byte>, at: nat, limit: nat) returns (size: nat, value: nat)
    requires at + limit <= |b|
    ensures Decoded(size, value) == DecodeFrom(b, at, 0, limit, 0)
  {
    var multiplier: nat, offset: nat := 1, 0;
    value := 0;
    while offset < 4 && offset < limit
      invariant multiplier == Power128(offset) && offset <= limit
      invariant DecodeFrom(b, at, 0, limit, 0) == DecodeFrom(b, at, offset, limit, value)
    {
      var encoded: nat := b[at + offset];
      value := value + encoded % 128 * multiplier;
      multiplier := multiplier * 128;
      if encoded < 128 {
        size := offset + 1;
        return;
      }
      offset := offset + 1;
    }
    size := 0;
  }

  lemma {:induction false} VarintTail(b: seq<byte>, at: nat, k: nat, limit: nat, acc: nat, n: nat)
    requires at + limit <= |b| && k + |Varint(n)| <= limit && k + |Varint(n)| <= 4
    requires Holds(b, at + k, Varint(n))
    ensures DecodeFrom(b, at, k, limit, acc) == Decoded(k + |Varint(n)|, acc + n * Power128(k))
    decreases n
  {
    assert b[at + k + 0] == Varint(n)[0];
    if n >= 128 {
      HoldsBoth(b, at + k, [128 + n % 128], Varint(n / 128));
      var value := acc + n % 128 * Power128(k);
      VarintTail(b, at, k + 1, limit, value, n / 128);
      DigitSum(n, Power128(k));
    }
  }

  lemma DigitSum(n: nat, p: nat)
    ensures n % 128 * p + n / 128 * (128 * p) == n * p
  {
    assert n == n / 128 * 128 + n % 128;
    assert n / 128 * (128 * p) == n / 128 * 128 * p;
  }

  /** Decoding undoes encoding. */
  lemma VarintRoundTrip(b: seq<byte>, at: nat, limit: nat, n: nat)
    requires n < VARINT_LIMIT && at + limit <= |b| && |Varint(n)| <= limit && Holds(b, at, Varint(n))
    ensures DecodeFrom(b, at, 0, limit, 0) == Decoded(|Varint(n)|, n)
  {
    VarintFits(n);
    VarintTail(b, at, 0, limit, 0, n);
  }

  // ----- properties -----

  datatype PropType = OneByte | Text | TextPair | Binary | VariableInt | FourBytes | TwoBytes | Unknown

  /** The type of the property with an identifier: section 2.2.2.2 of MQTT 5.0. */
  function TypeOf(id: byte): PropType
  {
    if id in {0x01, 0x17, 0x19, 0x24, 0x25, 0x28, 0x29, 0x2A} then OneByte
    else if id in {0x03, 0x08, 0x12, 0x15, 0x1A, 0x1C, 0x1F} then Text
    else if id == 0x26 then TextPair
    else if id in {0x09, 0x16} then Binary
    else if id == 0x0B then VariableInt
    else if id in {0x02, 0x11, 0x18, 0x27} then FourBytes
    else if id in {0x13, 0x21, 0x22, 0x23} then TwoBytes
    else Unknown
  }

  /** s_prop_map: the identifiers of MQTT 5.0 section 2.2.2.2 and their types. */
  const PROP_MAP: seq<(byte, PropType)> :=
    [(0x01, OneByte), (0x02, FourBytes), (0x03, Text), (0x08, Text), (0x09, Binary), (0x0B, VariableInt),
     (0x11, FourBytes), (0x12, Text), (0x13, TwoBytes), (0x15, Text), (0x16, Binary), (0x17, OneByte),
     (0x18, FourBytes), (0x19, OneByte), (0x1A, Text), (0x1C, Text), (0x1F, Text), (0x21, TwoBytes),
     (0x22, TwoBytes), (0x23, TwoBytes), (0x24, OneByte), (0x25, OneByte), (0x26, TextPair), (0x27, FourBytes),
     (0x28, OneByte), (0x29, OneByte), (0x2A, OneByte)]

  /** The map gives every identifier in it its type. */
  lemma MapCorrect(i: nat)
    requires i < |PROP_MAP|
    ensures PROP_MAP[i].1 == TypeOf(PROP_MAP[i].0)
  {
    hide TypeOf;
    if i < 13 {
      FirstTypes(i);
    } else {
      OtherTypes(i);
    }
  }

  lemma FirstTypes(i: nat)
    requires i < 13
    ensures PROP_MAP[i].1 == TypeOf(PROP_MAP[i].0)
  {
  }

  lemma OtherTypes(i: nat)
    requires 13 <= i < |PROP_MAP|
    ensures PROP_MAP[i].1 == TypeOf(PROP_MAP[i].0)
  {
  }

  /** It has all that are known. */
  lemma MapComplete(id: byte)
    ensures (forall i :: 0 <= i < |PROP_MAP| ==> PROP_MAP[i].0 != id) ==> TypeOf(id) == Unknown
  {
    var m := PROP_MAP;
    assert m[0].0 == 0x01 && m[1].0 == 0x02 && m[2].0 == 0x03 && m[3].0 == 0x08 && m[4].0 == 0x09
        && m[5].0 == 0x0B && m[6].0 == 0x11 && m[7].0 == 0x12 && m[8].0 == 0x13 && m[9].0 == 0x15
        && m[10].0 == 0x16 && m[11].0 == 0x17 && m[12].0 == 0x18 && m[13].0 == 0x19 && m[14].0 == 0x1A
        && m[15].0 == 0x1C && m[16].0 == 0x1F && m[17].0 == 0x21 && m[18].0 == 0x22 && m[19].0 == 0x23
        && m[20].0 == 0x24 && m[21].0 == 0x25 && m[22].0 == 0x26 && m[23].0 == 0x27 && m[24].0 == 0x28
        && m[25].0 == 0x29 && m[26].0 == 0x2A;
  }

  /** mqtt_prop_type_by_id. */
  method MqttPropTypeById(id: byte) returns (t: PropType)
    ensures t == TypeOf(id)
  {
    MapComplete(id);
    hide TypeOf;
    for i := 0 to |PROP_MAP|
      invariant forall j :: 0 <= j < i ==> PROP_MAP[j].0 != id
    {
      if PROP_MAP[i].0 == id {
        MapCorrect(i);
        return PROP_MAP[i].1;
      }
    }
    return Unknown;
  }

  datatype Prop = Prop(id: byte, iv: uint32, key: seq<byte>, val: seq<byte>)

  /** A length and the bytes. */
  function Counted(s: seq<byte>): seq<byte>
  {
    BigEndian(|s|, 2) + s
  }

  /** What mg_send_mqtt_properties sends behind the identifier. */
  function Body(p: Prop): seq<byte>
  {
    match TypeOf(p.id)
    case OneByte => [p.iv % 256]
    case TwoBytes => BigEndian(p.iv, 2)
    case FourBytes => BigEndian(p.iv, 4)
    case VariableInt => Varint(p.iv)
    case Text => Counted(p.val)
    case Binary => Counted(p.val)
    case TextPair => Counted(p.key) + Counted(p.val)
    case Unknown => []
  }

  function PropBytes(p: Prop): seq<byte>
  {
    [p.id] + Body(p)
  }

  /** The layout of numbers: sections 1.5 and 2.2.2 of MQTT 5.0. */
  lemma NumberLayout(p: Prop)
    ensures p.id == 0x01 ==> PropBytes(p) == [0x01, p.iv % 256]
    ensures p.id == 0x13 ==> PropBytes(p) == [0x13, p.iv / 256 % 256, p.iv % 256]
    ensures p.id == 0x02 ==>
            PropBytes(p) == [0x02, p.iv / 0x100_0000 % 256, p.iv / 0x1_0000 % 256, p.iv / 0x100 % 256, p.iv % 256]
  {
    WordInBytes(p.iv);
    BigEndianTwo(p.iv);
    hide BigEndian;
  }

  /** Of a variable-length integer of at most two bytes. */
  lemma IntLayout(p: Prop)
    requires p.id == 0x0B && p.iv < 0x4000
    ensures PropBytes(p) == [0x0B] + if p.iv < 128 then [p.iv] else [128 + p.iv % 128, p.iv / 128]
  {
    assert p.iv >= 128 ==> Varint(p.iv / 128) == [p.iv / 128];
    assert Varint(p.iv) == if p.iv < 128 then [p.iv] else [128 + p.iv % 128] + Varint(p.iv / 128);
    hide Varint;
    assert Body(p) == Varint(p.iv);
  }

  /** Of texts and pairs of texts. */
  lemma TextLayout(p: Prop)
    ensures p.id == 0x03 || p.id == 0x09 ==> PropBytes(p) == [p.id, |p.val| / 256 % 256, |p.val| % 256] + p.val
    ensures p.id == 0x26 ==>
            PropBytes(p) == [0x26, |p.key| / 256 % 256, |p.key| % 256] + p.key
                            + [|p.val| / 256 % 256, |p.val| % 256] + p.val
  {
    hide Counted, BigEndian;
    var k, v := [|p.key| / 256 % 256, |p.key| % 256], [|p.val| / 256 % 256, |p.val| % 256];
    CountedLayout(p.key);
    CountedLayout(p.val);
    assert [p.id] + (v + p.val) == [p.id, |p.val| / 256 % 256, |p.val| % 256] + p.val;
    assert [p.id] + ((k + p.key) + (v + p.val)) == [p.id, |p.key| / 256 % 256, |p.key| % 256] + p.key + v + p.val;
  }

  lemma CountedLayout(s: seq<byte>)
    ensures Counted(s) == [|s| / 256 % 256, |s| % 256] + s
  {
    BigEndianTwo(|s|);
  }

  function PropsBytes(props: seq<Prop>): seq<byte>
  {
    if props == [] then [] else PropBytes(props[0]) + PropsBytes(props[1..])
  }

  /** A property that the format can carry. */
  predicate Fits(p: Prop)
  {
    match TypeOf(p.id)
    case OneByte => p.iv < 256
    case TwoBytes => p.iv < 0x1_0000
    case FourBytes => true
    case VariableInt => p.iv < VARINT_LIMIT
    case Text => |p.val| < 0x1_0000
    case Binary => |p.val| < 0x1_0000
    case TextPair => |p.key| < 0x1_0000 && |p.val| < 0x1_0000
    case Unknown => false
  }

  /** Equal in all that the type carries. */
  predicate Agree(p: Prop, q: Prop)
  {
    && p.id == q.id
    && match TypeOf(p.id)
       case Text => p.val == q.val
       case Binary => p.val == q.val
       case TextPair => p.key == q.key && p.val == q.val
       case _ => p.iv == q.iv
  }

  /** The properties up to the first unknown one, which is counted with its identifier. */
  function Understood(props: seq<Prop>): (u: seq<Prop>)
    ensures u <= props
  {
    if props == [] then [] else if TypeOf(props[0].id) == Unknown then props[..1]
    else props[..1] + Understood(props[1..])
  }

  lemma {:induction false} AllUnderstood(props: seq<Prop>)
    ensures (forall p <- props :: TypeOf(p.id) != Unknown) ==> Understood(props) == props
  {
    if props != [] {
      AllUnderstood(props[1..]);
      assert props == props[..1] + props[1..];
    }
  }

  /** get_properties_length: the length of what is sent, but it stops at an unknown identifier. */
  method PropertiesLength(props: seq<Prop>) returns (size: nat)
    ensures size == |PropsBytes(Understood(props))|
  {
    hide PropsBytes;
    size := 0;
    NoProps(props);
    for i := 0 to |props|
      invariant size + |PropsBytes(Understood(props[i..]))| == |PropsBytes(Understood(props))|
    {
      var p := props[i];
      UnderstoodStep(props, i);
      BodySize(p);
      size := size + 1;
      var t := MqttPropTypeById(p.id);
      match t {
        case TextPair => size := size + (|p.val| + |p.key| + 4);
        case Text => size := size + (|p.val| + 2);
        case Binary => size := size + (|p.val| + 2);
        case VariableInt =>
          var n := VarintSize(p.iv);
          size := size + n;
        case FourBytes => size := size + 4;
        case TwoBytes => size := size + 2;
        case OneByte => size := size + 1;
        case Unknown => return;
      }
    }
    NoProps(props[|props|..]);
  }

  lemma BodySize(p: Prop)
    ensures |Body(p)| == match TypeOf(p.id)
                         case OneByte => 1
                         case TwoBytes => 2
                         case FourBytes => 4
                         case VariableInt => |Varint(p.iv)|
                         case Text => |p.val| + 2
                         case Binary => |p.val| + 2
                         case TextPair => |p.key| + |p.val| + 4
                         case Unknown => 0
  {
    hide TypeOf;
  }

  lemma UnderstoodStep(props: seq<Prop>, i: nat)
    requires i < |props|
    ensures |PropsBytes(Understood(props[i..]))|
         == 1 + |Body(props[i])| + if TypeOf(props[i].id) == Unknown then 0
                                   else |PropsBytes(Understood(props[i + 1..]))|
  {
    hide Body, TypeOf;
    var p := props[i];
    assert props[i..][0] == p && props[i..][1..] == props[i + 1..] && props[i..][..1] == [p];
    OneProp(p);
    PropsAppend([p], Understood(props[i + 1..]));
  }

  lemma NoProps(props: seq<Prop>)
    ensures |PropsBytes(props[..0])| == 0 && props[0..] == props && props[..|props|] == props
    ensures PropsBytes(Understood([])) == []
  {
  }

  /** A length is sent with its low 16 bits. */
  lemma LowWord(n: nat)
    ensures BigEndian(n % 0x1_0000, 2) == BigEndian(n, 2)
  {
    var low: nat := n % 0x1_0000;
    BigEndianTwo(n);
    BigEndianTwo(low);
    hide BigEndian;
    LowBytes(n / 0x1_0000, low / 256, low % 256);
  }

  lemma LowBytes(a: nat, b: nat, c: nat)
    requires b < 256 && c < 256
    ensures var n, low := a * 0x1_0000 + b * 256 + c, b * 256 + c;
            n / 256 % 256 == low / 256 % 256 && n % 256 == low % 256
  {
    DivModUnique(a * 0x1_0000 + b * 256 + c, 256, a * 256 + b, c);
    DivModUnique(b * 256 + c, 256, b, c);
    DivModUnique(a * 256 + b, 256, a, b);
  }

  /** mg_send of 16 bits in network byte order. */
  method SendU16(send: Buffer, value: nat)
    requires send.Valid()
    modifies send, send.buf
    ensures send.Valid() && (send.buf == old(send.buf) || fresh(send.buf))
    ensures send.Contents() == old(send.Contents()) + BigEndian(value, 2)
  {
    LowWord(value);
    send.Append(BigEndian(value % 0x1_0000, 2));
  }

  method SendCounted(send: Buffer, s: seq<byte>)
    requires send.Valid()
    modifies send, send.buf
    ensures send.Valid() && (send.buf == old(send.buf) || fresh(send.buf))
    ensures send.Contents() == old(send.Contents()) + Counted(s)
  {
    hide BigEndian;
    SendU16(send, |s|);
    send.Append(s);
  }

  /** One turn of the loop of mg_send_mqtt_properties, behind the identifier. */
  method SendBody(send: Buffer, p: Prop)
    requires send.Valid()
    modifies send, send.buf
    ensures send.Valid() && (send.buf == old(send.buf) || fresh(send.buf))
    ensures send.Contents() == old(send.Contents()) + Body(p)
  {
    hide BigEndian, Varint, Counted;
    var t := MqttPropTypeById(p.id);
    match t {
      case TextPair =>
        SendCounted(send, p.key);
        SendCounted(send, p.val);
      case OneByte => send.Append([p.iv % 256]);
      case TwoBytes => SendU16(send, p.iv);
      case FourBytes => send.Append(BigEndian(p.iv, 4));
      case Text => SendCounted(send, p.val);
      case Binary => SendCounted(send, p.val);
      case VariableInt =>
        var v := EncodeVarint(p.iv);
        send.Append(v);
      case Unknown =>
    }
  }

  /** mg_send_mqtt_properties: the length as far as it is understood, then all the properties. */
  method SendProperties(send: Buffer, props: seq<Prop>)
    requires send.Valid()
    modifies send, send.buf
    ensures send.Valid() && (send.buf == old(send.buf) || fresh(send.buf))
    ensures send.Contents() == old(send.Contents()) + SectionSent(props)
    ensures AllFit(props) ==> SectionSent(props) == SectionBytes(props)
  {
    hide PropsBytes, Body, Varint, Fits, Understood, TypeOf;
    SentWell(props);
    var total := PropertiesLength(props);
    var v := EncodeVarint(total);
    ghost var was := send.Contents();
    send.Append(v);
    for i := 0 to |props|
      invariant send.Valid() && (send.buf == old(send.buf) || fresh(send.buf))
      invariant send.Contents() == was + (v + PropsBytes(props[..i]))
    {
      OneMoreProp(props, i);
      send.Append([props[i].id]);
      SendBody(send, props[i]);
      Regroup(was, v, PropsBytes(props[..i]), [props[i].id], Body(props[i]));
    }
    assert props[..|props|] == props;
  }

  /** The section as it is sent: its length is that of the properties up to the first unknown one. */
  function SectionSent(props: seq<Prop>): seq<byte>
  {
    Varint(|PropsBytes(Understood(props))|) + PropsBytes(props)
  }

  lemma Regroup(a: seq<byte>, b: seq<byte>, c: seq<byte>, d: seq<byte>, e: seq<byte>)
    ensures a + (b + c) + d + e == a + (b + (c + (d + e)))
  {
  }

  lemma SentWell(props: seq<Prop>)
    ensures AllFit(props) ==> SectionSent(props) == SectionBytes(props)
    ensures PropsBytes(props[..0]) == []
  {
    AllKnown(props);
    AllUnderstood(props);
  }

  predicate AllFit(props: seq<Prop>)
  {
    forall p <- props :: Fits(p)
  }

  /** The property section: its length, then the properties. */
  function SectionBytes(props: seq<Prop>): (b: seq<byte>)
    ensures |b| > 0
  {
    Varint(|PropsBytes(props)|) + PropsBytes(props)
  }

  lemma AllKnown(props: seq<Prop>)
    ensures AllFit(props) ==> forall p <- props :: TypeOf(p.id) != Unknown
    ensures PropsBytes(props[..0]) == []
  {
  }

  lemma {:induction false} PropsAppend(a: seq<Prop>, b: seq<Prop>)
    ensures PropsBytes(a + b) == PropsBytes(a) + PropsBytes(b)
  {
    hide PropBytes;
    if a == [] {
      assert a + b == b;
    } else {
      assert (a + b)[1..] == a[1..] + b;
      PropsAppend(a[1..], b);
      assert PropBytes(a[0]) + (PropsBytes(a[1..]) + PropsBytes(b)) == PropsBytes(a) + PropsBytes(b);
    }
  }

  lemma OneMoreProp(props: seq<Prop>, i: nat)
    requires i < |props|
    ensures AllFit(props) ==> Fits(props[i])
    ensures PropsBytes(props[..i + 1]) == PropsBytes(props[..i]) + ([props[i].id] + Body(props[i]))
    ensures PropsBytes(props) == PropsBytes(props[..i]) + ([props[i].id] + Body(props[i])) + PropsBytes(props[i + 1..])
  {
    hide *;
    PropsSplit(props, i);
    PropsAppend(props[..i], [props[i]]);
    PropsAppend(props[..i + 1], props[i + 1..]);
    OneProp(props[i]);
  }

  lemma PropsSplit(props: seq<Prop>, i: nat)
    requires i < |props|
    ensures AllFit(props) ==> Fits(props[i])
    ensures props[..i + 1] == props[..i] + [props[i]]
    ensures props == props[..i + 1] + props[i + 1..]
  {
    hide Fits;
  }

  lemma OneProp(p: Prop)
    ensures PropsBytes([p]) == [p.id] + Body(p)
  {
    assert [p][1..] == [];
  }

  // ----- mg_mqtt_next_prop -----

  /** The code reads without looking where the datagram ends; a byte behind the memory given counts as zero
      here. */
  function ByteAt(b: seq<byte>, k: nat): byte
  {
    if k < |b| then b[k] else 0
  }

  function Word16(b: seq<byte>, k: nat): nat
  {
    ByteAt(b, k) as nat * 256 + ByteAt(b, k + 1) as nat
  }

  function Pad(n: nat): seq<byte>
  {
    seq(n, _ => 0)
  }

  function Span(b: seq<byte>, from: nat, len: nat): seq<byte>
  {
    if from + len <= |b| then b[from..from + len]
    else if from <= |b| then b[from..] + Pad(from + len - |b|) else Pad(len)
  }

  /** The next offset, 0 for none, and the property structure as it is left. */
  datatype Read = Read(pos: nat, prop: Prop)

  /** decode_varint at `i`, up to the end of the datagram; from a place behind that the length wraps around, and
      nothing limits it. */
  function IntAt(b: seq<byte>, dgram: nat, i: nat): Decoded
    requires dgram <= |b|
  {
    if i <= dgram then DecodeFrom(b, i, 0, dgram - i, 0) else DecodeFrom(Span(b, i, 4), 0, 0, 4, 0)
  }

  /** mg_mqtt_next_prop on the first `dgram` bytes of the memory `b`: the properties start at `start` and take `size`
      bytes. */
  function NextProp(b: seq<byte>, dgram: nat, start: nat, size: nat, prop: Prop, ofs: nat): Read
    requires dgram <= |b|
  {
    var i := start + ofs + 1;
    var id := ByteAt(b, start + ofs);
    var p := prop.(id := id);
    if ofs >= dgram || ofs >= start + size then Read(0, p)
    else
      match TypeOf(id)
      case TextPair =>
        var k := Word16(b, i);
        var v := Word16(b, i + 2 + k);
        Read(ofs + 1 + 4 + v + k, p.(key := Span(b, i + 2, k), val := Span(b, i + 2 + k + 2, v)))
      case OneByte => Read(ofs + 2, p.(iv := ByteAt(b, i) as int))
      case TwoBytes => Read(ofs + 3, p.(iv := Word16(b, i)))
      case FourBytes =>
        Read(ofs + 5, p.(iv := Word16(b, i) * 0x1_0000 + Word16(b, i + 2)))
      case Text => Read(ofs + 1 + 2 + Word16(b, i), p.(val := Span(b, i + 2, Word16(b, i))))
      case Binary => Read(ofs + 1 + 2 + Word16(b, i), p.(val := Span(b, i + 2, Word16(b, i))))
      case VariableInt =>
        var Decoded(n, value) := IntAt(b, dgram, i);
        Read(if n == 0 then 0 else ofs + 1 + n, p.(iv := value % TWO_TO_THE_32))
      case Unknown => Read(0, p)
  }

  lemma CountedRead(b: seq<byte>, k: nat, s: seq<byte>)
    requires |s| < 0x1_0000 && Holds(b, k, Counted(s))
    ensures Word16(b, k) == |s| && Span(b, k + 2, |s|) == s
  {
    HoldsBoth(b, k, BigEndian(|s|, 2), s);
    Word16Read(b, k, |s|);
    HoldsSlice(b, k + 2, s, 0, |s|);
    assert s[0..|s|] == s;
  }

  lemma Word16Read(b: seq<byte>, k: nat, n: nat)
    requires n < 0x1_0000 && Holds(b, k, BigEndian(n, 2))
    ensures Word16(b, k) == n
  {
    assert BigEndian(n, 2)[0] == n / 256 % 256 && BigEndian(n, 2)[1] == n % 256;
    assert b[k + 0] == BigEndian(n, 2)[0] && b[k + 1] == BigEndian(n, 2)[1];
  }

  lemma Word32Read(b: seq<byte>, k: nat, n: nat)
    requires n < TWO_TO_THE_32 && Holds(b, k, BigEndian(n, 4))
    ensures Word16(b, k) * 0x1_0000 + Word16(b, k + 2) == n
  {
    var high, low := n / 0x1_0000, n % 0x1_0000;
    TwoWords(n);
    hide BigEndian, Word16, Holds;
    HoldsBoth(b, k, BigEndian(high, 2), BigEndian(low, 2));
    Word16Read(b, k, high);
    Word16Read(b, k + 2, low);
  }

  lemma TwoWords(n: nat)
    requires n < TWO_TO_THE_32
    ensures n / 0x1_0000 < 0x1_0000 && n == n / 0x1_0000 * 0x1_0000 + n % 0x1_0000
    ensures BigEndian(n, 4) == BigEndian(n / 0x1_0000, 2) + BigEndian(n % 0x1_0000, 2)
  {
    LowWord(n);
    assert n / 256 / 256 == n / 0x1_0000;
    BigEndianTwo(n);
    assert BigEndian(n, 4) == BigEndian(n / 256 / 256, 2) + [n / 256 % 256] + [n % 256];
  }

  /** A property that was sent is read back, and the next one found. */
  lemma PropRead(b: seq<byte>, dgram: nat, start: nat, size: nat, was: Prop, ofs: nat, p: Prop)
    requires Fits(p) && Holds(b, start + ofs, PropBytes(p)) && ofs < start + size
    requires start + ofs + |PropBytes(p)| <= dgram <= |b|
    ensures var r := NextProp(b, dgram, start, size, was, ofs);
            Agree(p, r.prop) && r.pos == ofs + |PropBytes(p)|
  {
    hide *;
    BodyAt(b, dgram, start, size, ofs, p);
    PropTypes(TypeOf(p.id));
    if TypeOf(p.id) == TextPair {
      PairRead(b, dgram, start, size, was, ofs, p);
    } else if TypeOf(p.id) == Text || TypeOf(p.id) == Binary {
      TextRead(b, dgram, start, size, was, ofs, p);
    } else if TypeOf(p.id) == VariableInt {
      IntegerRead(b, dgram, start, size, was, ofs, p);
    } else {
      WordsRead(b, dgram, start, size, was, ofs, p);
    }
  }

  /** The identifier has been read, and the rest of the property follows. */
  predicate AtBody(b: seq<byte>, dgram: nat, start: nat, size: nat, ofs: nat, p: Prop)
  {
    && ofs < start + size && start + ofs < |b| && b[start + ofs] == p.id && Holds(b, start + ofs + 1, Body(p))
    && start + ofs + 1 + |Body(p)| <= dgram <= |b|
  }

  lemma BodyAt(b: seq<byte>, dgram: nat, start: nat, size: nat, ofs: nat, p: Prop)
    requires Holds(b, start + ofs, PropBytes(p)) && ofs < start + size
    requires start + ofs + |PropBytes(p)| <= dgram <= |b|
    ensures AtBody(b, dgram, start, size, ofs, p)
  {
    hide Holds, Body;
    HoldsBoth(b, start + ofs, [p.id], Body(p));
    HoldsFirst(b, start + ofs, [p.id]);
  }

  lemma PropTypes(t: PropType)
    ensures t in {OneByte, Text, TextPair, Binary, VariableInt, FourBytes, TwoBytes, Unknown}
  {
  }

  lemma PairRead(b: seq<byte>, dgram: nat, start: nat, size: nat, was: Prop, ofs: nat, p: Prop)
    requires Fits(p) && AtBody(b, dgram, start, size, ofs, p) && TypeOf(p.id) == TextPair
    ensures var r := NextProp(b, dgram, start, size, was, ofs);
            Agree(p, r.prop) && r.pos == ofs + |PropBytes(p)|
  {
    hide *;
    var i := start + ofs + 1;
    PairParts(b, dgram, start, size, ofs, p);
    HoldsBoth(b, i, Counted(p.key), Counted(p.val));
    CountedRead(b, i, p.key);
    CountedRead(b, i + 2 + |p.key|, p.val);
    PairUnfold(b, dgram, start, size, was, ofs, p);
  }

  lemma PairParts(b: seq<byte>, dgram: nat, start: nat, size: nat, ofs: nat, p: Prop)
    requires Fits(p) && AtBody(b, dgram, start, size, ofs, p) && TypeOf(p.id) == TextPair
    ensures Holds(b, start + ofs + 1, Counted(p.key) + Counted(p.val)) && |p.key| < 0x1_0000 && |p.val| < 0x1_0000
    ensures |Counted(p.key)| == 2 + |p.key| && |PropBytes(p)| == 5 + |p.key| + |p.val|
  {
    hide Holds, TypeOf;
  }

  lemma PairUnfold(b: seq<byte>, dgram: nat, start: nat, size: nat, was: Prop, ofs: nat, p: Prop)
    requires AtBody(b, dgram, start, size, ofs, p) && TypeOf(p.id) == TextPair
    ensures var i := start + ofs + 1;
            var k := Word16(b, i);
            var v := Word16(b, i + 2 + k);
            var r := NextProp(b, dgram, start, size, was, ofs);
            && r.pos == ofs + 5 + v + k
            && (Agree(p, r.prop) <==> p.key == Span(b, i + 2, k) && p.val == Span(b, i + 2 + k + 2, v))
  {
    hide Holds, TypeOf, Word16, Span, Body;
  }

  lemma TextRead(b: seq<byte>, dgram: nat, start: nat, size: nat, was: Prop, ofs: nat, p: Prop)
    requires Fits(p) && AtBody(b, dgram, start, size, ofs, p) && (TypeOf(p.id) == Text || TypeOf(p.id) == Binary)
    ensures var r := NextProp(b, dgram, start, size, was, ofs);
            Agree(p, r.prop) && r.pos == ofs + |PropBytes(p)|
  {
    hide BigEndian, Span, Word16, DecodeFrom, Varint, Holds, TypeOf;
    CountedRead(b, start + ofs + 1, p.val);
  }

  lemma IntegerRead(b: seq<byte>, dgram: nat, start: nat, size: nat, was: Prop, ofs: nat, p: Prop)
    requires Fits(p) && AtBody(b, dgram, start, size, ofs, p) && TypeOf(p.id) == VariableInt
    ensures var r := NextProp(b, dgram, start, size, was, ofs);
            Agree(p, r.prop) && r.pos == ofs + |PropBytes(p)|
  {
    var i := start + ofs + 1;
    HeldLength(b, i, Varint(p.iv));
    VarintRoundTrip(b, i, dgram - i, p.iv);
    hide BigEndian, Span, Word16, DecodeFrom, Varint, Holds, TypeOf;
  }

  lemma HeldLength(b: seq<byte>, at: nat, s: seq<byte>)
    requires Holds(b, at, s)
    ensures at + |s| <= |b|
  {
  }

  lemma WordsRead(b: seq<byte>, dgram: nat, start: nat, size: nat, was: Prop, ofs: nat, p: Prop)
    requires Fits(p) && AtBody(b, dgram, start, size, ofs, p) && TypeOf(p.id) in {OneByte, TwoBytes, FourBytes, Unknown}
    ensures var r := NextProp(b, dgram, start, size, was, ofs);
            Agree(p, r.prop) && r.pos == ofs + |PropBytes(p)|
  {
    hide BigEndian, Span, Word16, DecodeFrom, Varint, Holds, TypeOf;
    var i := start + ofs + 1;
    if TypeOf(p.id) == OneByte {
      ByteRead(b, i, Body(p));
    } else if TypeOf(p.id) == TwoBytes {
      Word16Read(b, i, p.iv);
    } else if TypeOf(p.id) == FourBytes {
      Word32Read(b, i, p.iv);
    }
  }

  lemma ByteRead(b: seq<byte>, k: nat, s: seq<byte>)
    requires s != [] && Holds(b, k, s)
    ensures k < |b| && ByteAt(b, k) == s[0]
  {
    assert b[k + 0] == s[0];
  }
}
