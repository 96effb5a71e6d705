/** MQTT 3.1.1 packet codec: remaining length, the packets this client sends, and the frames it understands. */
module MqttCodec {
  import opened Bytes

  const RX_MAX := 320
  const TX_MAX := 448
  const TOPIC_MAX := 56
  const TOPIC_SCAN := 255
  const REMAINING_LIMIT := 0x1000_0000

  // ---- Remaining length (section 2.2.3) ------------------------------------

  /** Base-128 digits, least significant first, continuation bit on all but the last. */
  function EncodeLen(len: nat): (r: seq<byte>)
    ensures r != []
  {
    if len < 128 then [len] else [128 + len % 128] + EncodeLen(len / 128)
  }

  datatype LenResult = MoreBytes | Len(value: nat, used: nat)

  /** Reads at most `digits` digits; each but the last carries 128. */
  function DecodeLen(p: seq<byte>, digits: nat): LenResult
    decreases digits
  {
    if digits == 0 || p == [] then MoreBytes
    else if p[0] < 128 then Len(p[0], 1)
    else
      match DecodeLen(p[1..], digits - 1)
      case MoreBytes => MoreBytes
      case Len(v, u) => Len(p[0] - 128 + 128 * v, u + 1)
  }

  function Pow128(k: nat): (r: nat)
    ensures r > 0
  {
    if k == 0 then 1 else 128 * Pow128(k - 1)
  }

  /** The encoding, cut after four digits: it is whole exactly below 2^28. */
  method EncodeRemainingLen(len: nat) returns (out: seq<byte>)
    ensures out == EncodeLen(len)[..Min(|EncodeLen(len)|, 4)]
    ensures out == EncodeLen(len) <==> len < REMAINING_LIMIT
  {
    out := [];
    var rest: nat := len;
    var more := true;
    LenDigits(len, 4);
    Pow128Of4();
    while more
      invariant |out| <= 4
      invariant more ==> |out| < 4 && EncodeLen(len) == out + EncodeLen(rest)
      invariant !more ==> out == EncodeLen(len)[..Min(|EncodeLen(len)|, 4)]
      decreases more, rest
    {
      var d: int := rest % 128;
      ghost var whole, start: nat := rest, |out|;
      rest := rest / 128;
      if rest > 0 {
        d := d + 128;
        assert EncodeLen(whole) == [d] + EncodeLen(rest);
        assert EncodeLen(len) == (out + [d]) + EncodeLen(rest);
      } else {
        assert EncodeLen(whole) == [d];
      }
      out := out + [d];
      more := rest > 0 && |out| < 4;
    }
  }

  /** The number of digits tells the size. */
  lemma {:induction false} LenDigits(len: nat, digits: nat)
    requires digits > 0
    ensures |EncodeLen(len)| <= digits <==> len < Pow128(digits)
  {
    assert Pow128(digits) == 128 * Pow128(digits - 1);
    if len >= 128 && digits > 1 {
      LenDigits(len / 128, digits - 1);
      assert len / 128 < Pow128(digits - 1) <==> len < 128 * Pow128(digits - 1);
    } else if len < 128 {
      assert 1 <= Pow128(digits - 1);
    }
  }

  method DecodeRemainingLen(p: seq<byte>) returns (r: LenResult)
    ensures r == DecodeLen(p, 4)
  {
    var multiplier: nat, value: nat, i: nat := 1, 0, 0;
    while i < 4
      invariant 0 <= i <= 4
      invariant i <= |p|
      invariant DecodeLen(p, 4) == Shifted(value, multiplier, i, DecodeLen(p[i..], 4 - i))
    {
      if i >= |p| {
        return MoreBytes;
      }
      var d: int := p[i];
      ShiftStep(value, multiplier, i, p[i..], 4 - i);
      assert p[i..][1..] == p[i + 1..];
      value := value + (d as int % 128) * multiplier;
      multiplier := multiplier * 128;
      i := i + 1;
      if d < 128 {
        return Len(value, i);
      }
    }
    return MoreBytes;
  }

  ghost function Shifted(value: nat, multiplier: nat, i: nat, r: LenResult): LenResult {
    match r
    case MoreBytes => MoreBytes
    case Len(v, u) => Len(value + multiplier * v, i + u)
  }

  lemma ShiftStep(value: nat, multiplier: nat, i: nat, p: seq<byte>, digits: nat)
    requires digits > 0 && p != []
    ensures 0 <= (p[0] as int % 128) * multiplier
    ensures p[0] >= 128 ==> p[0] as int % 128 == p[0] - 128
    ensures p[0] < 128 ==> p[0] as int % 128 == p[0]
    ensures p[0] < 128 ==> Shifted(value, multiplier, i, DecodeLen(p, digits)) == Len(value + p[0] * multiplier, i + 1)
    ensures p[0] >= 128 ==>
              Shifted(value, multiplier, i, DecodeLen(p, digits))
              == Shifted(value + (p[0] - 128) * multiplier, multiplier * 128, i + 1, DecodeLen(p[1..], digits - 1))
  {
    if p[0] >= 128 && DecodeLen(p[1..], digits - 1).Len? {
      var v := DecodeLen(p[1..], digits - 1).value;
      assert multiplier * (p[0] - 128 + 128 * v) == multiplier * (p[0] - 128) + (multiplier * 128) * v;
    }
  }

  /** Decoding inverts encoding whatever follows on the wire. */
  lemma {:induction false} LenRoundTrip(len: nat, digits: nat, tail: seq<byte>)
    requires digits > 0 && len < Pow128(digits)
    ensures DecodeLen(EncodeLen(len) + tail, digits) == Len(len, |EncodeLen(len)|)
    ensures |EncodeLen(len)| <= digits
  {
    if len >= 128 {
      assert digits > 1 && len / 128 < Pow128(digits - 1);
      LenRoundTrip(len / 128, digits - 1, tail);
      var s := EncodeLen(len) + tail;
      assert s[0] - 128 == len % 128;
      assert s[1..] == EncodeLen(len / 128) + tail;
      assert len % 128 + 128 * (len / 128) == len;
    }
  }

  /** No digit string that decodes to `len` is shorter than the encoding. */
  lemma {:induction false} EncodingIsShortest(s: seq<byte>, digits: nat)
    ensures DecodeLen(s, digits).Len? ==> |EncodeLen(DecodeLen(s, digits).value)| <= DecodeLen(s, digits).used <= |s|
  {
    if digits > 0 && s != [] && s[0] >= 128 {
      EncodingIsShortest(s[1..], digits - 1);
      match DecodeLen(s[1..], digits - 1)
      case MoreBytes =>
      case Len(v, u) =>
        var w := s[0] - 128 + 128 * v;
        if w >= 128 {
          assert w / 128 == v;
        }
    }
  }

  /** Every proper prefix of an encoding asks for more bytes. */
  lemma {:induction false} PrefixNeedsMore(len: nat, k: nat, digits: nat)
    requires k < |EncodeLen(len)|
    ensures DecodeLen(EncodeLen(len)[..k], digits) == MoreBytes
  {
    if k > 0 && digits > 0 {
      assert len >= 128;
      PrefixNeedsMore(len / 128, k - 1, digits - 1);
      assert EncodeLen(len)[..k][1..] == EncodeLen(len / 128)[..k - 1];
    }
  }

  /** The decoder never looks past the digits it uses. */
  lemma {:induction false} DecodeLenLocal(a: seq<byte>, b: seq<byte>, digits: nat)
    requires DecodeLen(a, digits).Len?
    ensures DecodeLen(a + b, digits) == DecodeLen(a, digits)
    ensures 1 <= DecodeLen(a, digits).used <= |a|
  {
    if a[0] >= 128 {
      DecodeLenLocal(a[1..], b, digits - 1);
      assert (a + b)[1..] == a[1..] + b;
    }
  }

  lemma Pow128Of4()
    ensures Pow128(4) == REMAINING_LIMIT
  {
    assert Pow128(2) == 128 * Pow128(1);
    assert Pow128(4) == 128 * Pow128(3);
  }

  // ---- Frames and packets --------------------------------------------------

  function U16(v: nat): seq<byte>
    requires v < 0x1_0000
  {
    [v / 256, v % 256]
  }

  /** A control packet: type and flags, remaining length, body. */
  function Packet(typeFlags: byte, body: seq<byte>): seq<byte> {
    [typeFlags] + EncodeLen(|body|) + body
  }

  /** What the first bytes of a stream say about its first frame. */
  datatype Head = Incomplete | TooLarge | Whole(header: nat, total: nat)

  function FrameHead(s: seq<byte>): (h: Head)
    ensures h.Whole? ==> 2 <= h.header <= h.total <= |s| && h.total <= RX_MAX
  {
    if |s| < 2 then Incomplete
    else
      match DecodeLen(s[1..], 4)
      case MoreBytes => Incomplete
      case Len(v, u) =>
        DecodeLenLocal(s[1..], [], 4);
        if 1 + u + v > RX_MAX then TooLarge
        else if |s| < 1 + u + v then Incomplete
        else Whole(1 + u, 1 + u + v)
  }

  /** More bytes after a complete or oversized frame do not change what its head says. */
  lemma HeadLocal(a: seq<byte>, b: seq<byte>)
    ensures FrameHead(a) != Incomplete ==> FrameHead(a + b) == FrameHead(a)
  {
    if FrameHead(a) != Incomplete {
      DecodeLenLocal(a[1..], b, 4);
      assert (a + b)[1..] == a[1..] + b;
    }
  }

  /** Every packet that fits the receive buffer is framed as exactly itself. */
  lemma PacketHead(typeFlags: byte, body: seq<byte>, tail: seq<byte>)
    requires |body| < REMAINING_LIMIT
    ensures |Packet(typeFlags, body)| <= RX_MAX ==>
              FrameHead(Packet(typeFlags, body) + tail)
              == Whole(1 + |EncodeLen(|body|)|, |Packet(typeFlags, body)|)
    ensures |Packet(typeFlags, body)| > RX_MAX ==> FrameHead(Packet(typeFlags, body) + tail) == TooLarge
  {
    Pow128Of4();
    LenRoundTrip(|body|, 4, body + tail);
    hide EncodeLen, DecodeLen;
    assert (Packet(typeFlags, body) + tail)[1..] == EncodeLen(|body|) + (body + tail);
  }

  /** A complete frame, split as the receiver does. */
  datatype RxEvent =
    | ConnAccepted
    | ErrorExit
    | SubAck
    | Published(topic: seq<byte>, payload: seq<byte>, retained: bool)
    | Ignored

  function PublishEvent(flags: nat, p: seq<byte>): RxEvent {
    if |p| < 2 then Ignored
    else
      var topicLen := U16Of(p[0], p[1]);
      if topicLen + 2 <= |p| && topicLen < TOPIC_MAX then
        var off := 2 + topicLen;
        var start := if (flags / 2) % 4 != 0 && off + 2 <= |p| then off + 2 else off;
        Published(p[2..off], p[start..], flags % 2 != 0)
      else Ignored
  }

  /** What one frame makes the client do; `typeFlags` is its first byte and `p` its body. */
  function FrameEvent(typeFlags: byte, p: seq<byte>): RxEvent {
    var kind := typeFlags / 16;
    if kind == 2 then
      if |p| >= 2 then (if p[1] == 0 then ConnAccepted else ErrorExit) else Ignored
    else if kind == 9 then
      if |p| >= 3 then SubAck else Ignored
    else if kind == 3 then PublishEvent(typeFlags % 16, p)
    else if kind == 14 then ErrorExit
    else Ignored
  }

  /** The frames the receiver cannot survive: a refused CONNACK, and DISCONNECT, which only clients may send. */
  lemma ErrorExitExactly(typeFlags: byte, p: seq<byte>)
    ensures FrameEvent(typeFlags, p) == ErrorExit <==> typeFlags / 16 == 14 || (typeFlags / 16 == 2 && |p| >= 2 && p[1] != 0)
    ensures FrameHead([0xE0, 0x00]) == Whole(2, 2) && HeadEvent([0xE0, 0x00]) == ErrorExit
    ensures FrameHead([0x20, 0x02, 0x00, 0x05]) == Whole(2, 4) && HeadEvent([0x20, 0x02, 0x00, 0x05]) == ErrorExit
  {
    var refused: seq<byte> := [0x20, 0x02, 0x00, 0x05];
    assert refused[2..4] == [0x00, 0x05];
  }

  function HeadEvent(s: seq<byte>): RxEvent
    requires FrameHead(s).Whole?
  {
    FrameEvent(s[0], s[FrameHead(s).header..FrameHead(s).total])
  }

  // ---- PUBLISH (section 3.3) -----------------------------------------------

  function PublishBody(topic: CString, payload: seq<byte>): seq<byte>
    requires |topic| <= TOPIC_SCAN
  {
    U16(|topic|) + topic + payload
  }

  function PublishPacket(topic: CString, payload: seq<byte>, retained: bool): seq<byte>
    requires |topic| <= TOPIC_SCAN
  {
    Packet(if retained then 0x31 else 0x30, PublishBody(topic, payload))
  }

  predicate Receivable(topic: CString, payload: seq<byte>) {
    1 <= |topic| < TOPIC_MAX && |PublishPacket(topic, payload, false)| <= RX_MAX
  }

  lemma PublishBodyEvent(topic: CString, payload: seq<byte>, flags: nat)
    requires |topic| < TOPIC_MAX && flags < 2
    ensures PublishEvent(flags, PublishBody(topic, payload)) == Published(topic, payload, flags == 1)
  {
    var body := PublishBody(topic, payload);
    assert U16Of(body[0], body[1]) == |topic|;
    assert body[2..2 + |topic|] == topic;
    assert body[2 + |topic|..] == payload;
  }

  /** What is published is what the receiver's callback gets, whatever follows on the wire. */
  lemma PublishRoundTrip(topic: CString, payload: seq<byte>, retained: bool, tail: seq<byte>)
    requires Receivable(topic, payload)
    ensures var s := PublishPacket(topic, payload, retained) + tail;
            && FrameHead(s).Whole?
            && s[FrameHead(s).total..] == tail
            && HeadEvent(s) == Published(topic, payload, retained)
  {
    var kind: byte := if retained then 0x31 else 0x30;
    var body := PublishBody(topic, payload);
    PublishBodyEvent(topic, payload, kind % 16);
    hide PublishEvent, PublishBody;
    PacketHead(kind, body, tail);
    var s := Packet(kind, body) + tail;
    assert s[FrameHead(s).header..FrameHead(s).total] == body;
    assert s[FrameHead(s).total..] == tail;
  }

  // ---- CONNECT (section 3.1) -----------------------------------------------

  /** The session settings; a null or empty string of the source is `[]`, `willMsg` alone may be empty but present. */
  datatype Config = Config(
    legacy: bool, clientId: CString, username: CString, password: CString,
    willTopic: CString, willMsg: Option<CString>, willRetain: bool, willQos: nat,
    keepAliveSec: nat, cleanSession: bool)
  {
    predicate Valid() { keepAliveSec < 0x1_0000 && willQos < 256 }
    predicate HasWill() { willTopic != [] && willMsg.Some? }
  }

  const PAYLOAD_MAX := 200

  /** A length-prefixed string cut to the room left. */
  function PutStr(room: nat, s: CString): Option<seq<byte>>
    requires room < 0x1_0000
  {
    if room < 2 then None
    else
      var n := Min(|s|, room - 2);
      Some(U16(n) + s[..n])
  }

  /** The name `MQIsdp` of MQTT 3.1, or `MQTT`. */
  function ProtocolName(legacy: bool): seq<byte> {
    if legacy then [0x4D, 0x51, 0x49, 0x73, 0x64, 0x70] else [0x4D, 0x51, 0x54, 0x54]
  }

  function ProtocolHeader(legacy: bool): seq<byte> {
    U16(|ProtocolName(legacy)|) + ProtocolName(legacy) + [if legacy then 3 else 4]
  }

  /** Clean session, will, will QoS (bits 4..3), will retain, password, user name. */
  function ConnectFlags(cfg: Config): bv8 {
    (if cfg.cleanSession then 0x02 else 0)
    | (if cfg.HasWill() then 0x04 | ((cfg.willQos % 4) as bv8 << 3) | (if cfg.willRetain then 0x20 else 0) else 0)
    | (if cfg.username != [] then 0x80 else 0)
    | (if cfg.password != [] then 0x40 else 0)
  }

  function ConnectHeader(cfg: Config): seq<byte>
    requires cfg.Valid()
  {
    ProtocolHeader(cfg.legacy) + [ConnectFlags(cfg) as byte] + U16(cfg.keepAliveSec)
  }

  /** The strings of the payload, in wire order. */
  function ConnectStrings(cfg: Config): seq<CString> {
    [cfg.clientId]
    + (if cfg.HasWill() then [cfg.willTopic, cfg.willMsg.value] else [])
    + (if cfg.username != [] then [cfg.username] else [])
    + (if cfg.password != [] then [cfg.password] else [])
  }

  /** Strings appended to `pl` one after another, each cut to the room left. */
  function PutStrings(pl: seq<byte>, ss: seq<CString>): Option<seq<byte>>
    requires |pl| <= PAYLOAD_MAX
    decreases |ss|
  {
    if ss == [] then Some(pl)
    else
      match PutStr(PAYLOAD_MAX - |pl|, ss[0])
      case None => None
      case Some(p) => PutStrings(pl + p, ss[1..])
  }

  function ConnectPacket(cfg: Config): Option<seq<byte>>
    requires cfg.Valid()
  {
    if cfg.clientId == [] then None
    else
      match PutStrings([], ConnectStrings(cfg))
      case None => None
      case Some(pl) => Some(Packet(0x10, ConnectHeader(cfg) + pl))
  }

  /** Length of a list of length-prefixed strings. */
  function StringsSize(ss: seq<CString>): nat {
    if ss == [] then 0 else 2 + |ss[0]| + StringsSize(ss[1..])
  }

  predicate AllShort(ss: seq<CString>) {
    forall i | 0 <= i < |ss| :: |ss[i]| < 0x1_0000
  }

  function StringsBytes(ss: seq<CString>): seq<byte>
    requires AllShort(ss)
  {
    if ss == [] then [] else U16(|ss[0]|) + ss[0] + StringsBytes(ss[1..])
  }

  predicate ConnectFits(cfg: Config) {
    cfg.clientId != [] && StringsSize(ConnectStrings(cfg)) <= PAYLOAD_MAX
  }

  /** The strings as they are stored: each cut to the room the earlier ones leave, or nothing when none is left. */
  function Stored(ss: seq<CString>, room: nat): Option<seq<CString>>
    decreases |ss|
  {
    if ss == [] then Some([])
    else if room < 2 then None
    else
      var s := ss[0][..Min(|ss[0]|, room - 2)];
      match Stored(ss[1..], room - 2 - |s|)
      case None => None
      case Some(rest) => Some([s] + rest)
  }

  /** Stored strings keep number and order, fit the room, and are whole exactly when they all fit. */
  lemma {:induction false} StoredExactly(ss: seq<CString>, room: nat)
    requires room < 0x1_0000 && Stored(ss, room).Some?
    ensures var ts := Stored(ss, room).value;
            |ts| == |ss| && AllShort(ts) && StringsSize(ts) <= room && (ts == ss <==> StringsSize(ss) <= room)
    decreases |ss|
  {
    if ss != [] {
      var s := ss[0][..Min(|ss[0]|, room - 2)];
      var rest := Stored(ss[1..], room - 2 - |s|).value;
      StoredExactly(ss[1..], room - 2 - |s|);
      assert ([s] + rest)[1..] == rest;
      assert [s] + rest == ss <==> s == ss[0] && rest == ss[1..] by {
        assert ss == [ss[0]] + ss[1..];
      }
    }
  }

  lemma {:induction false} FittingIsStored(ss: seq<CString>, room: nat)
    requires StringsSize(ss) <= room
    ensures Stored(ss, room).Some?
    decreases |ss|
  {
    if ss != [] {
      FittingIsStored(ss[1..], room - 2 - |ss[0]|);
      assert ss[0][..|ss[0]|] == ss[0];
    }
  }

  /** The payload builder stores exactly these strings. */
  lemma {:induction false} StoredBytes(pl: seq<byte>, ss: seq<CString>)
    requires |pl| <= PAYLOAD_MAX
    ensures var stored := Stored(ss, PAYLOAD_MAX - |pl|);
            && (PutStrings(pl, ss).None? <==> stored.None?)
            && (stored.Some? ==> AllShort(stored.value) && PutStrings(pl, ss) == Some(pl + StringsBytes(stored.value)))
    decreases |ss|
  {
    var room: nat := PAYLOAD_MAX - |pl|;
    if ss == [] {
      assert pl + [] == pl;
    } else if room >= 2 {
      var s := ss[0][..Min(|ss[0]|, room - 2)];
      var p := U16(|s|) + s;
      StoredBytes(pl + p, ss[1..]);
      if Stored(ss[1..], room - 2 - |s|).Some? {
        var rest := Stored(ss[1..], room - 2 - |s|).value;
        assert ([s] + rest)[1..] == rest;
        Associate(pl, p, StringsBytes(rest));
      }
    }
  }

  /** A CONNECT read the way a broker does: fields by flag bit, strings in wire order. */
  function TakeStr(p: seq<byte>): Option<(seq<byte>, seq<byte>)> {
    if |p| < 2 || |p| < 2 + U16Of(p[0], p[1]) then None
    else Some((p[2..2 + U16Of(p[0], p[1])], p[2 + U16Of(p[0], p[1])..]))
  }

  function TakeStrings(p: seq<byte>, n: nat): Option<seq<seq<byte>>>
    decreases n
  {
    if n == 0 then (if p == [] then Some([]) else None)
    else
      match TakeStr(p)
      case None => None
      case Some((s, rest)) =>
        match TakeStrings(rest, n - 1)
        case None => None
        case Some(ss) => Some([s] + ss)
  }

  datatype ConnectView = ConnectView(
    protocol: seq<byte>, level: byte, clean: bool, keepAlive: nat, clientId: seq<byte>,
    will: Option<(seq<byte>, seq<byte>, nat, bool)>, username: Option<seq<byte>>, password: Option<seq<byte>>)

  /** The reference reader of a whole CONNECT packet. */
  function DecodeConnect(s: seq<byte>): Option<ConnectView> {
    if |s| < 2 || s[0] != 0x10 then None
    else
      match DecodeLen(s[1..], 4)
      case MoreBytes => None
      case Len(v, u) =>
        if |s| != 1 + u + v then None
        else
          match TakeStr(s[1 + u..])
          case None => None
          case Some((name, b)) => DecodeConnectBody(name, b)
  }

  function DecodeConnectBody(protocol: seq<byte>, b: seq<byte>): Option<ConnectView> {
    if |b| < 4 then None else DecodeFields(protocol, b[0], b[1] as bv8, U16Of(b[2], b[3]), b[4..])
  }

  function DecodeFields(protocol: seq<byte>, level: byte, f: bv8, keepAlive: nat, strings: seq<byte>): Option<ConnectView> {
    var will, user, pass := f & 0x04 != 0, f & 0x80 != 0, f & 0x40 != 0;
    var n := 1 + (if will then 2 else 0) + (if user then 1 else 0) + (if pass then 1 else 0);
    match TakeStrings(strings, n)
    case None => None
    case Some(ss) =>
      if |ss| != n then None
      else
        Some(ConnectView(
               protocol, level, f & 0x02 != 0, keepAlive, ss[0],
               if will then Some((ss[1], ss[2], ((f >> 3) & 3) as nat, f & 0x20 != 0)) else None,
               if user then Some(ss[if will then 3 else 1]) else None,
               if pass then Some(ss[n - 1]) else None))
  }

  /** The fields as configured, and as carried by the strings `ss`. */
  function ConfiguredView(cfg: Config): ConnectView {
    ConnectView(
      ProtocolName(cfg.legacy), if cfg.legacy then 3 else 4, cfg.cleanSession, cfg.keepAliveSec, cfg.clientId,
      if cfg.HasWill() then Some((cfg.willTopic, cfg.willMsg.value, cfg.willQos % 4, cfg.willRetain)) else None,
      if cfg.username != [] then Some(cfg.username) else None,
      if cfg.password != [] then Some(cfg.password) else None)
  }

  function SentView(cfg: Config, ss: seq<CString>): ConnectView
    requires |ss| == |ConnectStrings(cfg)|
  {
    ConnectView(
      ProtocolName(cfg.legacy), if cfg.legacy then 3 else 4, cfg.cleanSession, cfg.keepAliveSec, ss[0],
      if cfg.HasWill() then Some((ss[1], ss[2], cfg.willQos % 4, cfg.willRetain)) else None,
      if cfg.username != [] then Some(ss[if cfg.HasWill() then 3 else 1]) else None,
      if cfg.password != [] then Some(ss[|ss| - 1]) else None)
  }

  /** The strings are all there is to the difference. */
  lemma SentAsConfigured(cfg: Config, ss: seq<CString>)
    requires |ss| == |ConnectStrings(cfg)|
    ensures SentView(cfg, ss) == ConfiguredView(cfg) <==> ss == ConnectStrings(cfg)
  {
    ConnectStringPlaces(cfg);
    var all := ConnectStrings(cfg);
    hide ConnectStrings;
    if SentView(cfg, ss) == ConfiguredView(cfg) {
      assert forall i | 0 <= i < |ss| :: ss[i] == all[i];
    }
  }

  lemma TakeStrOf(name: seq<byte>, tail: seq<byte>)
    requires |name| < 0x1_0000
    ensures TakeStr(U16(|name|) + name + tail) == Some((name, tail))
  {
    var p := U16(|name|) + name + tail;
    assert U16Of(p[0], p[1]) == |name|;
    assert p[2..2 + |name|] == name;
    assert p[2 + |name|..] == tail;
  }

  lemma {:induction false} StringsRoundTrip(ss: seq<CString>)
    requires AllShort(ss)
    ensures TakeStrings(StringsBytes(ss), |ss|) == Some(ss)
  {
    if ss != [] {
      TakeStrOf(ss[0], StringsBytes(ss[1..]));
      StringsRoundTrip(ss[1..]);
      assert [ss[0]] + ss[1..] == ss;
    }
  }

  /** A CONNECT is staged exactly when the client id is set and every string finds room for its length; it carries the
      strings as stored, hence every configured field exactly when they fit the payload buffer together. */
  lemma ConnectRoundTrip(cfg: Config)
    requires cfg.Valid()
    ensures var stored, packet := Stored(ConnectStrings(cfg), PAYLOAD_MAX), ConnectPacket(cfg);
            && (packet.Some? <==> cfg.clientId != [] && stored.Some?)
            && (ConnectFits(cfg) ==> packet.Some?)
            && (packet.Some? ==> |stored.value| == |ConnectStrings(cfg)|)
            && (packet.Some? ==> DecodeConnect(packet.value) == Some(SentView(cfg, stored.value)))
            && (packet.Some? ==> (DecodeConnect(packet.value) == Some(ConfiguredView(cfg)) <==> ConnectFits(cfg)))
  {
    hide ConnectStrings, DecodeConnect, SentView, ConfiguredView;
    var ss := ConnectStrings(cfg);
    StoredBytes([], ss);
    if StringsSize(ss) <= PAYLOAD_MAX {
      FittingIsStored(ss, PAYLOAD_MAX);
    }
    if Stored(ss, PAYLOAD_MAX).Some? {
      var ts := Stored(ss, PAYLOAD_MAX).value;
      StoredExactly(ss, PAYLOAD_MAX);
      StringsSizeIsLength(ts);
      assert [] + StringsBytes(ts) == StringsBytes(ts);
      ConnectBodyRoundTrip(cfg, StringsBytes(ts), ts);
      SentAsConfigured(cfg, ts);
    }
  }

  /** A client id of 199 bytes makes 201 bytes of payload and arrives one byte short. */
  lemma LongClientIdIsCut()
    ensures var cfg := Config(false, seq(199, i => 0x61), [], [], [], None, false, 0, 60, true);
            && cfg.Valid() && !ConnectFits(cfg) && ConnectPacket(cfg).Some?
            && DecodeConnect(ConnectPacket(cfg).value) != Some(ConfiguredView(cfg))
  {
    var cfg := Config(false, seq(199, i => 0x61), [], [], [], None, false, 0, 60, true);
    var id := cfg.clientId;
    var ss: seq<CString> := [id];
    assert ConnectStrings(cfg) == ss && ss[1..] == [];
    assert StringsSize(ss) == 2 + |id| + StringsSize(ss[1..]);
    assert Stored(ss[1..], 0).Some?;
    assert Stored(ss, PAYLOAD_MAX).Some?;
    hide ConnectStrings, ConnectPacket, DecodeConnect;
    ConnectRoundTrip(cfg);
  }

  lemma ConnectBodyRoundTrip(cfg: Config, pl: seq<byte>, ss: seq<CString>)
    requires cfg.Valid() && |pl| <= PAYLOAD_MAX
    requires |ss| == |ConnectStrings(cfg)| && AllShort(ss) && pl == StringsBytes(ss)
    ensures DecodeConnect(Packet(0x10, ConnectHeader(cfg) + pl)) == Some(SentView(cfg, ss))
  {
    var body := ConnectHeader(cfg) + pl;
    StringsRoundTrip(ss);
    ConnectHeaderSplit(cfg, pl);
    ConnectRestRoundTrip(cfg, pl, ss);
    PacketBody(0x10, body);
  }

  lemma PacketBody(typeFlags: byte, body: seq<byte>)
    requires |body| < REMAINING_LIMIT
    ensures var s := Packet(typeFlags, body);
            var r := DecodeLen(s[1..], 4);
            r.Len? && |s| == 1 + r.used + r.value && s[1 + r.used..] == body
  {
    Pow128Of4();
    LenRoundTrip(|body|, 4, body);
    hide EncodeLen, DecodeLen;
    assert Packet(typeFlags, body)[1..] == EncodeLen(|body|) + body;
  }

  lemma {:induction false} StringsSizeIsLength(ss: seq<CString>)
    requires AllShort(ss)
    ensures |StringsBytes(ss)| == StringsSize(ss)
  {
    if ss != [] {
      StringsSizeIsLength(ss[1..]);
    }
  }

  lemma ConnectFlagBits(cfg: Config)
    ensures var f := ConnectFlags(cfg);
            && (f & 0x02 != 0) == cfg.cleanSession
            && (f & 0x04 != 0) == cfg.HasWill()
            && (f & 0x40 != 0) == (cfg.password != [])
            && (f & 0x80 != 0) == (cfg.username != [])
            && (cfg.HasWill() ==> ((f >> 3) & 3) as nat == cfg.willQos % 4 && (f & 0x20 != 0) == cfg.willRetain)
  {
    var q := (cfg.willQos % 4) as bv8;
    assert q <= 3;
  }

  /** The part of the header after the protocol name. */
  function ConnectRest(cfg: Config, pl: seq<byte>): seq<byte>
    requires cfg.Valid()
  {
    [if cfg.legacy then 3 else 4, ConnectFlags(cfg) as byte] + U16(cfg.keepAliveSec) + pl
  }

  lemma ConnectHeaderSplit(cfg: Config, pl: seq<byte>)
    requires cfg.Valid()
    ensures TakeStr(ConnectHeader(cfg) + pl) == Some((ProtocolName(cfg.legacy), ConnectRest(cfg, pl)))
  {
    var name := ProtocolName(cfg.legacy);
    TakeStrOf(name, ConnectRest(cfg, pl));
    assert ConnectHeader(cfg) + pl == U16(|name|) + name + ConnectRest(cfg, pl);
  }

  /** Where each string of the payload stands. */
  lemma ConnectStringPlaces(cfg: Config)
    ensures var ss, will := ConnectStrings(cfg), cfg.HasWill();
            && |ss| == 1 + (if will then 2 else 0) + (if cfg.username != [] then 1 else 0)
                       + (if cfg.password != [] then 1 else 0)
            && ss[0] == cfg.clientId
            && (will ==> ss[1] == cfg.willTopic && ss[2] == cfg.willMsg.value)
            && (cfg.username != [] ==> ss[if will then 3 else 1] == cfg.username)
            && (cfg.password != [] ==> ss[|ss| - 1] == cfg.password)
  {
  }

  lemma ConnectFieldsRoundTrip(cfg: Config, pl: seq<byte>, ss: seq<CString>)
    requires |ss| == |ConnectStrings(cfg)| && TakeStrings(pl, |ss|) == Some(ss)
    ensures DecodeFields(ProtocolName(cfg.legacy), if cfg.legacy then 3 else 4, ConnectFlags(cfg), cfg.keepAliveSec, pl)
         == Some(SentView(cfg, ss))
  {
    hide ConnectFlags, ConnectStrings, TakeStrings;
    ConnectFlagBits(cfg);
    ConnectStringPlaces(cfg);
  }

  lemma ConnectRestRoundTrip(cfg: Config, pl: seq<byte>, ss: seq<CString>)
    requires cfg.Valid()
    requires |ss| == |ConnectStrings(cfg)| && TakeStrings(pl, |ss|) == Some(ss)
    ensures DecodeConnectBody(ProtocolName(cfg.legacy), ConnectRest(cfg, pl)) == Some(SentView(cfg, ss))
  {
    ConnectFieldsRoundTrip(cfg, pl, ss);
    hide ConnectFlags, ConnectStrings, TakeStrings, DecodeFields, SentView;
    var b := ConnectRest(cfg, pl);
    assert b[4..] == pl;
    assert U16Of(b[2], b[3]) == cfg.keepAliveSec;
  }

  // ---- SUBSCRIBE (section 3.8) ---------------------------------------------

  function SubscribePacket(pid: nat, topic: CString): seq<byte>
    requires pid < 0x1_0000 && |topic| < 126
  {
    Packet(0x82, U16(pid) + (U16(|topic|) + topic + [0]))
  }

  const PINGREQ: seq<byte> := [0xC0, 0x00]
  const DISCONNECT: seq<byte> := [0xE0, 0x00]
}
