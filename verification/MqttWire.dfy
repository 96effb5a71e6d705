/** The MQTT wire format byte by byte: the packets this client stages and the frames it understands. */
module MqttWire {
  import opened Bytes
  import opened MqttCodec
  import opened MqttStream

  // ---- Remaining length ----------------------------------------------------

  /** Every length below 2^28 by its base-128 digits: least significant first, the top bit on all but the last. */
  lemma LengthBytes(a: nat, b: nat, c: nat, d: nat)
    requires a < 128 && b < 128 && c < 128 && d < 128
    ensures EncodeLen(a) == [a]
    ensures b > 0 ==> EncodeLen(a + 128 * b) == [128 + a, b]
    ensures c > 0 ==> EncodeLen(a + 128 * b + 16384 * c) == [128 + a, 128 + b, c]
    ensures d > 0 ==> EncodeLen(a + 128 * b + 16384 * c + 2097152 * d) == [128 + a, 128 + b, 128 + c, d]
  {
    OneDigit(a, b);
    OneDigit(b, c);
    OneDigit(c, d);
    OneDigit(d, 0);
    OneDigit(b, c + 128 * d);
    OneDigit(a, b + 128 * c);
    OneDigit(a, b + 128 * c + 16384 * d);
    hide EncodeLen;
  }

  lemma OneDigit(a: nat, n: nat)
    requires a < 128
    ensures EncodeLen(a) == [a]
    ensures n > 0 ==> EncodeLen(a + 128 * n) == [128 + a] + EncodeLen(n)
  {
    assert (a + 128 * n) % 128 == a && (a + 128 * n) / 128 == n;
  }

  /** What the reader makes of any bytes: up to the first byte below 128, at most four. */
  lemma LengthRead(p: seq<byte>)
    ensures DecodeLen(p, 4)
         == if |p| >= 1 && p[0] < 128 then Len(p[0], 1)
            else if |p| >= 2 && p[1] < 128 then Len(p[0] - 128 + 128 * (p[1] as int), 2)
            else if |p| >= 3 && p[1] >= 128 && p[2] < 128 then
              Len(p[0] - 128 + 128 * (p[1] - 128) as int + 16384 * (p[2] as int), 3)
            else if |p| >= 4 && p[1] >= 128 && p[2] >= 128 && p[3] < 128 then
              Len(p[0] - 128 + 128 * (p[1] - 128) as int + 16384 * (p[2] - 128) as int + 2097152 * (p[3] as int), 4)
            else MoreBytes
  {
    if |p| >= 1 && p[0] >= 128 {
      var q := p[1..];
      if |q| >= 1 && q[0] >= 128 {
        var r := q[1..];
        if |r| >= 1 && r[0] >= 128 {
          var s := r[1..];
          assert DecodeLen(s, 1) == if |s| >= 1 && s[0] < 128 then Len(s[0], 1) else MoreBytes;
        }
      }
    }
  }

  // ---- Frames understood ---------------------------------------------------

  /** Which frames are which event, by the first byte and the bytes of the body. */
  lemma EventsExactly(t: byte, p: seq<byte>)
    ensures FrameEvent(t, p) == ConnAccepted <==> 0x20 <= t < 0x30 && |p| >= 2 && p[1] == 0
    ensures FrameEvent(t, p) == ErrorExit <==> (0x20 <= t < 0x30 && |p| >= 2 && p[1] != 0) || 0xE0 <= t < 0xF0
    ensures FrameEvent(t, p) == SubAck <==> 0x90 <= t < 0xA0 && |p| >= 3
    ensures FrameEvent(t, p).Published? <==>
              0x30 <= t < 0x40 && |p| >= 2 && 256 * (p[0] as int) + p[1] < 56 && 2 + 256 * (p[0] as int) + p[1] <= |p|
  {
  }

  /** A PUBLISH of any quality of service: the callback gets topic and payload, without the packet identifier that
      follows the topic when the two QoS bits are not zero. */
  lemma PublishReceived(t: byte, topic: seq<byte>, id: seq<byte>, payload: seq<byte>)
    requires 0x30 <= t < 0x40 && |topic| < 56 && |id| == if t % 8 < 2 then 0 else 2
    ensures FrameEvent(t, [0, |topic|] + topic + id + payload) == Published(topic, payload, t % 2 == 1)
  {
    var p: seq<byte> := [0, |topic|] + topic + id + payload;
    assert (t % 16) / 2 % 4 == 0 <==> t % 8 < 2;
    assert U16Of(p[0], p[1]) == |topic|;
    assert p[2..2 + |topic|] == topic;
    assert p[2 + |topic| + |id|..] == payload;
  }

  /** A short frame is read by its two-byte header. */
  lemma ShortFrame(t: byte, p: seq<byte>, tail: seq<byte>)
    requires |p| < 128
    ensures var s := [t, |p|] + p + tail;
            FrameHead(s) == Whole(2, 2 + |p|) && HeadEvent(s) == FrameEvent(t, p) && s[2 + |p|..] == tail
  {
    var s := [t, |p|] + p + tail;
    LengthRead(s[1..]);
    assert s[2..2 + |p|] == p && s[2 + |p|..] == tail;
  }

  /** What a broker answers: CONNACK with any return code, SUBACK with any identifier and code, and PINGRESP. */
  lemma BrokerReplies(flag: byte, code: byte, hi: byte, lo: byte)
    ensures DecodeAll([0x20, 2, flag, code]) == [if code == 0 then ConnAccepted else ErrorExit]
    ensures DecodeAll([0x90, 3, hi, lo, code]) == [SubAck]
    ensures DecodeAll([0xD0, 0]) == [Ignored]
  {
    OneFrame(0x20, [flag, code]);
    OneFrame(0x90, [hi, lo, code]);
    OneFrame(0xD0, []);
    EventsExactly(0x20, [flag, code]);
    EventsExactly(0x90, [hi, lo, code]);
    assert [0x20 as byte, 2] + [flag, code] == [0x20, 2, flag, code];
    assert [0x90 as byte, 3] + [hi, lo, code] == [0x90, 3, hi, lo, code];
    assert [0xD0 as byte, 0] + [] == [0xD0, 0];
  }

  /** The largest frame the receiver takes has 320 bytes; a packet beyond that is too large, whatever follows. */
  lemma LargestFrame(t: byte, body: seq<byte>, tail: seq<byte>)
    requires |body| < 0x1000_0000
    ensures var s := Packet(t, body);
            && (|s| <= 320 ==> FrameHead(s + tail).Whole? && FrameHead(s + tail).total == |s|)
            && (|s| > 320 ==> FrameHead(s + tail) == TooLarge)
  {
    PacketHead(t, body, tail);
    hide Packet, FrameHead;
  }

  lemma OneFrame(t: byte, p: seq<byte>)
    requires |p| < 128
    ensures DecodeAll([t, |p|] + p) == [FrameEvent(t, p)]
  {
    ShortFrame(t, p, []);
    var s := [t, |p|] + p;
    assert s + [] == s;
    OnlyFrame(s);
  }

  lemma {:induction false} OnlyFrame(s: seq<byte>)
    requires FrameHead(s).Whole? && FrameHead(s).total == |s|
    ensures DecodeAll(s) == [HeadEvent(s)]
  {
    assert FrameHead([]) == Incomplete;
    hide FrameHead, HeadEvent;
    assert s[|s|..] == [];
    assert DecodeAll([]) == [];
  }

  // ---- Packets staged ------------------------------------------------------

  /** The parts of a PUBLISH. */
  lemma PublishBytes(topic: CString, payload: seq<byte>, retained: bool, digits: seq<byte>)
    requires |topic| <= 255 && digits == EncodeLen(2 + |topic| + |payload|)
    ensures PublishPacket(topic, payload, retained)
         == [if retained then 0x31 else 0x30] + digits + ([0, |topic|] + topic + payload)
  {
    PublishBodyBytes(topic, payload);
    var body := PublishBody(topic, payload);
    assert EncodeLen(|body|) == digits;
    assert PublishPacket(topic, payload, retained) == [if retained then 0x31 else 0x30] + digits + body;
    hide PublishPacket, EncodeLen;
  }

  lemma PublishBodyBytes(topic: CString, payload: seq<byte>)
    requires |topic| <= 255
    ensures PublishBody(topic, payload) == [0, |topic|] + topic + payload
    ensures |PublishBody(topic, payload)| == 2 + |topic| + |payload|
  {
    assert U16(|topic|) == [0, |topic|];
  }

  /** The parts of a SUBSCRIBE: packet identifier and topic length big-endian, and quality of service 0. */
  lemma SubscribeBytes(pid: nat, topic: CString, digits: seq<byte>)
    requires pid < 0x1_0000 && |topic| < 126 && digits == EncodeLen(5 + |topic|)
    ensures SubscribePacket(pid, topic)
         == [0x82] + digits + ([pid / 256, pid % 256] + ([0, |topic|] + topic + [0]))
  {
    SubscribeBodyBytes(pid, topic);
    var body := U16(pid) + (U16(|topic|) + topic + [0]);
    assert EncodeLen(|body|) == digits;
    assert SubscribePacket(pid, topic) == [0x82] + digits + body;
    hide SubscribePacket, EncodeLen;
  }

  lemma SubscribeBodyBytes(pid: nat, topic: CString)
    requires pid < 0x1_0000 && |topic| < 126
    ensures var body := U16(pid) + (U16(|topic|) + topic + [0]);
            body == [pid / 256, pid % 256] + ([0, |topic|] + topic + [0]) && |body| == 5 + |topic|
  {
    assert U16(|topic|) == [0, |topic|];
  }

  /** A SUBSCRIBE read the way a broker does (section 3.8 of MQTT 3.1.1). */
  datatype SubscribeView = SubscribeView(packetId: nat, topic: seq<byte>, qos: nat)

  function DecodeSubscribe(s: seq<byte>): Option<SubscribeView> {
    if |s| < 2 || s[0] != 0x82 then None
    else
      match DecodeLen(s[1..], 4)
      case MoreBytes => None
      case Len(v, u) =>
        var body := s[1 + u..];
        if |body| != v || |body| < 2 then None
        else
          match TakeStr(body[2..])
          case None => None
          case Some((topic, rest)) =>
            if |rest| == 1 then Some(SubscribeView(256 * (body[0] as int) + body[1], topic, rest[0])) else None
  }

  /** A SUBSCRIBE carries its packet identifier, the whole topic and quality of service 0. */
  lemma SubscribeRoundTrip(pid: nat, topic: CString)
    requires pid < 0x1_0000 && |topic| < 126
    ensures DecodeSubscribe(SubscribePacket(pid, topic)) == Some(SubscribeView(pid, topic, 0))
  {
    var rest: seq<byte> := U16(|topic|) + topic + [0];
    var body := U16(pid) + rest;
    PacketBody(0x82, body);
    TakeStrOf(topic, [0]);
    assert body[2..] == rest;
    hide EncodeLen, DecodeLen, TakeStr;
  }

  /** The flag bits add up: each stands in its own place. */
  lemma ConnectFlagSum(cfg: Config)
    ensures ConnectFlags(cfg) as int
         == (if cfg.cleanSession then 2 else 0)
            + (if cfg.HasWill() then 4 + 8 * (cfg.willQos % 4) + (if cfg.willRetain then 32 else 0) else 0)
            + (if cfg.username != [] then 128 else 0) + (if cfg.password != [] then 64 else 0)
  {
    var will: bv8 :=
      if cfg.HasWill() then 0x04 | ((cfg.willQos % 4) as bv8 << 3) | (if cfg.willRetain then 0x20 else 0) else 0;
    assert will as int == if cfg.HasWill() then 4 + 8 * (cfg.willQos % 4) + (if cfg.willRetain then 32 else 0) else 0 by {
      var q := cfg.willQos % 4;
      assert q == 0 || q == 1 || q == 2 || q == 3;
    }
    assert will & 0xC2 == 0;
    DisjointBits(if cfg.cleanSession then 0x02 else 0, will);
    DisjointBits((if cfg.cleanSession then 0x02 else 0) | will, if cfg.username != [] then 0x80 else 0);
    DisjointBits((if cfg.cleanSession then 0x02 else 0) | will | (if cfg.username != [] then 0x80 else 0),
                 if cfg.password != [] then 0x40 else 0);
  }

  lemma DisjointBits(a: bv8, b: bv8)
    requires a & b == 0
    ensures (a | b) as int == a as int + b as int
  {
    assert a | b == a + b;
    assert (a + b) as int == a as int + b as int;
  }

  /** Name and level of the protocol open every CONNECT, then flags, and the keep-alive big-endian. */
  lemma ConnectHeaderBytes(cfg: Config)
    requires cfg.Valid()
    ensures ConnectHeader(cfg)
         == (if cfg.legacy then [0, 6, 0x4D, 0x51, 0x49, 0x73, 0x64, 0x70, 3] else [0, 4, 0x4D, 0x51, 0x54, 0x54, 4])
            + [ConnectFlags(cfg) as byte] + [cfg.keepAliveSec / 256, cfg.keepAliveSec % 256]
  {
    hide ConnectFlags;
    ProtocolBytes(cfg.legacy);
  }

  lemma ProtocolBytes(legacy: bool)
    ensures ProtocolHeader(legacy)
         == if legacy then [0, 6, 0x4D, 0x51, 0x49, 0x73, 0x64, 0x70, 3] else [0, 4, 0x4D, 0x51, 0x54, 0x54, 4]
  {
    assert [0 as byte, 6] + [0x4D, 0x51, 0x49, 0x73, 0x64, 0x70] + [3] == [0, 6, 0x4D, 0x51, 0x49, 0x73, 0x64, 0x70, 3];
    assert [0 as byte, 4] + [0x4D, 0x51, 0x54, 0x54] + [4] == [0, 4, 0x4D, 0x51, 0x54, 0x54, 4];
  }

  /** The payload of a CONNECT whose strings all fit: client id, will topic and message, user name and password. */
  lemma ConnectPayloadBytes(cfg: Config)
    requires ConnectFits(cfg)
    ensures PutStrings([], ConnectStrings(cfg))
         == Some([|cfg.clientId| / 256, |cfg.clientId| % 256] + cfg.clientId
                 + (if cfg.willTopic != [] && cfg.willMsg.Some? then
                      [|cfg.willTopic| / 256, |cfg.willTopic| % 256] + cfg.willTopic
                      + [|cfg.willMsg.value| / 256, |cfg.willMsg.value| % 256] + cfg.willMsg.value
                    else [])
                 + (if cfg.username != [] then [|cfg.username| / 256, |cfg.username| % 256] + cfg.username else [])
                 + (if cfg.password != [] then [|cfg.password| / 256, |cfg.password| % 256] + cfg.password else []))
  {
    var ss := ConnectStrings(cfg);
    FittingIsStored(ss, PAYLOAD_MAX);
    StoredExactly(ss, PAYLOAD_MAX);
    StoredBytes([], ss);
    assert [] + StringsBytes(ss) == StringsBytes(ss);
    var id: seq<CString> := [cfg.clientId];
    var will := if cfg.HasWill() then [cfg.willTopic, cfg.willMsg.value] else [];
    var user := if cfg.username != [] then [cfg.username] else [];
    var pass := if cfg.password != [] then [cfg.password] else [];
    hide ConnectStrings, PutStrings, Stored;
    StringsJoin(id + will + user, pass);
    StringsJoin(id + will, user);
    StringsJoin(id, will);
    OneString(cfg.clientId);
    if cfg.HasWill() {
      TwoStrings(cfg.willTopic, cfg.willMsg.value);
    }
    if cfg.username != [] {
      OneString(cfg.username);
    }
    if cfg.password != [] {
      OneString(cfg.password);
    }
    hide StringsBytes;
  }

  /** What fits: 200 bytes for the strings and two bytes of length before each. */
  lemma FitsExactly(cfg: Config)
    ensures ConnectFits(cfg) <==>
              cfg.clientId != []
              && 2 + |cfg.clientId|
                 + (if cfg.willTopic != [] && cfg.willMsg.Some? then 4 + |cfg.willTopic| + |cfg.willMsg.value| else 0)
                 + (if cfg.username != [] then 2 + |cfg.username| else 0)
                 + (if cfg.password != [] then 2 + |cfg.password| else 0) <= 200
  {
    var id: seq<CString> := [cfg.clientId];
    var will := if cfg.HasWill() then [cfg.willTopic, cfg.willMsg.value] else [];
    var user := if cfg.username != [] then [cfg.username] else [];
    var pass := if cfg.password != [] then [cfg.password] else [];
    assert ConnectStrings(cfg) == id + will + user + pass;
    hide ConnectStrings;
    SizesAdd(id + will + user, pass);
    SizesAdd(id + will, user);
    SizesAdd(id, will);
    OneSize(id);
    OneSize(user);
    OneSize(pass);
    if cfg.HasWill() {
      assert will[1..] == [cfg.willMsg.value];
      OneSize(will[1..]);
    }
  }

  lemma OneSize(ss: seq<CString>)
    requires |ss| <= 1
    ensures StringsSize(ss) == if ss == [] then 0 else 2 + |ss[0]|
  {
    assert |ss| == 1 ==> ss[1..] == [];
  }

  lemma {:induction false} SizesAdd(a: seq<CString>, b: seq<CString>)
    ensures StringsSize(a + b) == StringsSize(a) + StringsSize(b)
  {
    if a == [] {
      assert a + b == b;
    } else {
      assert (a + b)[1..] == a[1..] + b;
      SizesAdd(a[1..], b);
    }
  }

  lemma {:induction false} StringsJoin(a: seq<CString>, b: seq<CString>)
    requires AllShort(a + b)
    ensures AllShort(a) && AllShort(b) && StringsBytes(a + b) == StringsBytes(a) + StringsBytes(b)
  {
    assert forall i | 0 <= i < |a| :: (a + b)[i] == a[i];
    assert forall i | 0 <= i < |b| :: (a + b)[|a| + i] == b[i];
    if a == [] {
      assert a + b == b;
    } else {
      assert (a + b)[1..] == a[1..] + b;
      StringsJoin(a[1..], b);
      Associate(U16(|a[0]|) + a[0], StringsBytes(a[1..]), StringsBytes(b));
    }
  }

  lemma OneString(a: CString)
    requires |a| < 0x1_0000
    ensures StringsBytes([a]) == [|a| / 256, |a| % 256] + a
  {
    assert [a][1..] == [];
  }

  lemma TwoStrings(a: CString, b: CString)
    requires |a| < 0x1_0000 && |b| < 0x1_0000
    ensures StringsBytes([a, b]) == [|a| / 256, |a| % 256] + a + [|b| / 256, |b| % 256] + b
  {
    OneString(b);
    assert [a, b][1..] == [b];
    Associate(U16(|a|) + a, U16(|b|), b);
  }

  /** Every staged CONNECT: type 1, then a body that opens with name and level of the configured protocol, flags and
      keep-alive, and goes on with the strings. */
  lemma ConnectBytes(cfg: Config)
    requires cfg.Valid() && ConnectPacket(cfg).Some?
    ensures var s := ConnectPacket(cfg).value;
            var r := DecodeLen(s[1..], 4);
            && s[0] == 0x10 && r.Len? && |s| == 1 + r.used + r.value
            && OpensConnect(s[1 + r.used..], cfg)
  {
    var pl := PutStrings([], ConnectStrings(cfg)).value;
    StoredBytes([], ConnectStrings(cfg));
    StoredExactly(ConnectStrings(cfg), PAYLOAD_MAX);
    StringsSizeIsLength(Stored(ConnectStrings(cfg), PAYLOAD_MAX).value);
    hide Stored, PutStrings, ConnectStrings, StringsBytes;
    PacketBody(0x10, ConnectHeader(cfg) + pl);
    hide ConnectHeader, DecodeLen;
    ConnectBodyBytes(cfg, pl);
  }

  /** The first bytes of a CONNECT body, and the strings behind them. */
  ghost predicate OpensConnect(body: seq<byte>, cfg: Config) {
    var n := if cfg.legacy then 9 else 7;
    && |body| >= n + 3
    && body[..n] == (if cfg.legacy then [0, 6, 0x4D, 0x51, 0x49, 0x73, 0x64, 0x70, 3] else [0, 4, 0x4D, 0x51, 0x54, 0x54, 4])
    && body[n] == ConnectFlags(cfg) as byte
    && body[n + 1] == cfg.keepAliveSec / 256 && body[n + 2] == cfg.keepAliveSec % 256
    && PutStrings([], ConnectStrings(cfg)) == Some(body[n + 3..])
  }

  lemma ConnectBodyBytes(cfg: Config, pl: seq<byte>)
    requires cfg.Valid() && PutStrings([], ConnectStrings(cfg)) == Some(pl)
    ensures OpensConnect(ConnectHeader(cfg) + pl, cfg)
  {
    hide PutStrings, ConnectStrings, ConnectFlags;
    ConnectHeaderBytes(cfg);
    hide ConnectHeader;
  }

  /** What each operation stages. */
  lemma StagedBytes(st: TxState, op: TxOp)
    requires st.Valid() && InRange(op) && StagedBy(st, op).Some?
    ensures var s := StagedBy(st, op).value;
            match op
            case Publish(topic, payload, retained) =>
              s == PublishPacket(if |topic| <= 255 then topic else topic[..255], payload, retained)
            case PublishPrinted(topic, measured, writes, _, behind, _, retained) =>
              s == PublishPacket(if |topic| <= 255 then topic else topic[..255], (Concat(writes) + behind)[..measured],
                                 retained)
            case Subscribe(topic) => DecodeSubscribe(s) == Some(SubscribeView(st.nextPacketId, topic, 0))
            case Connect(cfg) => ConnectPacket(cfg) == Some(s)
            case Ping => s == [0xC0, 0]
            case Disconnect => s == [0xE0, 0]
            case _ => false
  {
    hide ConnectPacket, PublishPacket, SubscribePacket, DecodeSubscribe;
    match op
    case Publish(topic, _, _) => assert topic[..|topic|] == topic;
    case PublishPrinted(topic, _, _, _, _, _, _) => assert topic[..|topic|] == topic;
    case Subscribe(topic) => SubscribeRoundTrip(st.nextPacketId, topic);
    case _ =>
  }

  /** When an operation is accepted: nothing may be staged; before CONNACK only CONNECT, PINGREQ and DISCONNECT are; a
      publish exactly when its packet has at most 448 bytes, a subscribe exactly for a topic of 1 to 125 bytes. */
  lemma StagedWhen(st: TxState, op: TxOp)
    requires st.Valid() && InRange(op)
    ensures StagedBy(st, op).Some? ==> st.pending == [] && |StagedBy(st, op).value| <= 448
    ensures StagedBy(st, op).Some? && !st.online ==> op.Connect? || op.Ping? || op.Disconnect?
    ensures op.Ping? || op.Disconnect? ==> (StagedBy(st, op).Some? <==> st.pending == [])
    ensures op.Subscribe? ==> (StagedBy(st, op).Some? <==> st.pending == [] && st.online && 1 <= |op.topic| <= 125)
    ensures op.Publish? ==>
              (StagedBy(st, op).Some? <==>
                 && st.pending == [] && st.online && op.topic != []
                 && |PublishPacket(op.topic[..Min(|op.topic|, 255)], op.payload, op.retained)| <= 448)
  {
    match op
    case Publish(topic, payload, retained) => PublishLength(Scanned(topic), payload, retained);
    case PublishPrinted(topic, measured, writes, _, behind, _, retained) =>
      if StagedBy(st, op).Some? {
        PublishLength(Scanned(topic), Taken(Concat(writes), behind, measured), retained);
      }
    case Subscribe(topic) =>
      if |topic| < 126 {
        SubscribeFramed(st.nextPacketId, topic);
      }
    case Connect(cfg) =>
      if StagedBy(st, op).Some? {
        ConnectFramed(cfg);
      }
    case _ =>
    hide ConnectPacket, PublishPacket, SubscribePacket, EncodeLen;
  }
}
