/** The MQTT client's byte streams as values: what is staged, drained, received and parsed. */
module MqttStream {
  import opened Bytes
  import opened MqttCodec

  // ---- Receiving -----------------------------------------------------------

  /** Parses at most `maxFrames` frames from the front of the buffer. */
  function ParseFrames(buf: seq<byte>, maxFrames: nat): (r: (seq<RxEvent>, seq<byte>))
    ensures |r.0| <= maxFrames && |r.1| <= |buf|
    decreases maxFrames
  {
    if maxFrames == 0 then ([], buf)
    else
      match FrameHead(buf)
      case Incomplete => ([], buf)
      case TooLarge => ([], [])
      case Whole(_, total) =>
        var rest := ParseFrames(buf[total..], maxFrames - 1);
        ([HeadEvent(buf)] + rest.0, rest.1)
  }

  /** The events of a whole stream decoded at once. */
  function DecodeAll(s: seq<byte>): seq<RxEvent> {
    if FrameHead(s).Whole? then [HeadEvent(s)] + DecodeAll(s[FrameHead(s).total..]) else []
  }

  /** No frame of the stream is larger than the receive buffer or ends the session. */
  predicate Good(s: seq<byte>) {
    match FrameHead(s)
    case Incomplete => true
    case TooLarge => false
    case Whole(_, total) => HeadEvent(s) != ErrorExit && Good(s[total..])
  }

  datatype RxState = RxState(buf: seq<byte>, inbox: seq<byte>, events: seq<RxEvent>)

  /** What the network delivered since the last tick and the tick's two budgets. */
  datatype RxTick = RxTick(arrived: seq<byte>, maxBytes: nat, maxFrames: nat)

  predicate NoDrop(st: RxState, t: RxTick) {
    |st.buf| + Min(t.maxBytes, |st.inbox| + |t.arrived|) <= RX_MAX
  }

  function RxStep(st: RxState, t: RxTick): RxState {
    var inbox := st.inbox + t.arrived;
    var n := Min(t.maxBytes, |inbox|);
    var filled := st.buf + inbox[..n];
    var parsed := ParseFrames(filled[..Min(|filled|, RX_MAX)], t.maxFrames);
    RxState(parsed.1, inbox[n..], st.events + parsed.0)
  }

  function RxRun(st: RxState, ticks: seq<RxTick>): RxState
    decreases |ticks|
  {
    if ticks == [] then st else RxRun(RxStep(st, ticks[0]), ticks[1..])
  }

  predicate RxRunNoDrop(st: RxState, ticks: seq<RxTick>)
    decreases |ticks|
  {
    ticks == [] || (NoDrop(st, ticks[0]) && RxRunNoDrop(RxStep(st, ticks[0]), ticks[1..]))
  }

  function Arrivals(ticks: seq<RxTick>): seq<byte> {
    if ticks == [] then [] else ticks[0].arrived + Arrivals(ticks[1..])
  }

  lemma HeadOfMore(a: seq<byte>, b: seq<byte>)
    requires FrameHead(a).Whole?
    ensures FrameHead(a + b) == FrameHead(a)
    ensures HeadEvent(a + b) == HeadEvent(a)
    ensures (a + b)[FrameHead(a).total..] == a[FrameHead(a).total..] + b
  {
    HeadLocal(a, b);
    var h := FrameHead(a);
    assert (a + b)[h.header..h.total] == a[h.header..h.total];
  }

  /** Parsing any number of frames now and the rest later decodes the same stream. */
  lemma {:induction false} ParseThenDecode(buf: seq<byte>, unread: seq<byte>, maxFrames: nat)
    requires Good(buf + unread)
    ensures var (events, rest) := ParseFrames(buf, maxFrames);
            && events + DecodeAll(rest + unread) == DecodeAll(buf + unread)
            && Good(rest + unread)
            && ErrorExit !in events
    decreases maxFrames
  {
    hide FrameHead, HeadEvent;
    if maxFrames > 0 && FrameHead(buf).Whole? {
      HeadOfMore(buf, unread);
      var e, later := HeadEvent(buf), buf[FrameHead(buf).total..];
      ParseThenDecode(later, unread, maxFrames - 1);
      var (events, rest) := ParseFrames(later, maxFrames - 1);
      assert DecodeAll(buf + unread) == [e] + DecodeAll(later + unread);
      assert ParseFrames(buf, maxFrames) == ([e] + events, rest);
      Associate([e], events, DecodeAll(rest + unread));
    } else if maxFrames > 0 {
      HeadLocal(buf, unread);
      assert [] + DecodeAll(buf + unread) == DecodeAll(buf + unread);
    }
  }

  lemma Recut(buf: seq<byte>, inbox: seq<byte>, arrived: seq<byte>, later: seq<byte>, n: nat)
    requires n <= |inbox + arrived|
    ensures buf + inbox + (arrived + later) == buf + (inbox + arrived)[..n] + ((inbox + arrived)[n..] + later)
  {
    var all := inbox + arrived;
    assert all == all[..n] + all[n..];
    Associate(buf, inbox, arrived + later);
    Associate(inbox, arrived, later);
    Associate(buf, all[..n], all[n..] + later);
    Associate(all[..n], all[n..], later);
  }

  /** One tick decodes nothing twice and loses nothing, whatever arrives later. */
  lemma TickDecodes(st: RxState, t: RxTick, later: seq<byte>)
    requires NoDrop(st, t)
    requires Good(st.buf + st.inbox + (t.arrived + later))
    ensures var next := RxStep(st, t);
            && Good(next.buf + next.inbox + later)
            && next.events + DecodeAll(next.buf + next.inbox + later)
               == st.events + DecodeAll(st.buf + st.inbox + (t.arrived + later))
  {
    hide Good, DecodeAll, ParseFrames;
    var inbox := st.inbox + t.arrived;
    var n := Min(t.maxBytes, |inbox|);
    var filled, unread := st.buf + inbox[..n], inbox[n..];
    assert filled[..Min(|filled|, RX_MAX)] == filled;
    Recut(st.buf, st.inbox, t.arrived, later, n);
    ParseThenDecode(filled, unread + later, t.maxFrames);
    var (parsed, rest) := ParseFrames(filled, t.maxFrames);
    assert RxStep(st, t) == RxState(rest, unread, st.events + parsed);
    Associate(rest, unread, later);
    Associate(st.events, parsed, DecodeAll(rest + (unread + later)));
  }

  /** Reception does not depend on how the stream is cut into ticks, reads and parsed frames. */
  lemma {:induction false} ReceiveIsChunkingIndependent(st: RxState, ticks: seq<RxTick>)
    requires RxRunNoDrop(st, ticks)
    requires Good(st.buf + st.inbox + Arrivals(ticks))
    ensures var end := RxRun(st, ticks);
            && end.events + DecodeAll(end.buf + end.inbox)
               == st.events + DecodeAll(st.buf + st.inbox + Arrivals(ticks))
            && Good(end.buf + end.inbox)
    decreases |ticks|
  {
    if ticks == [] {
      assert st.buf + st.inbox + [] == st.buf + st.inbox;
    } else {
      TickDecodes(st, ticks[0], Arrivals(ticks[1..]));
      ReceiveIsChunkingIndependent(RxStep(st, ticks[0]), ticks[1..]);
    }
  }

  /** Reading a prefix of a good stream yields a prefix of its events. */
  lemma {:induction false} DecodePrefix(a: seq<byte>, b: seq<byte>)
    requires Good(a + b)
    ensures DecodeAll(a) <= DecodeAll(a + b)
    ensures Good(a)
    decreases |a|
  {
    if FrameHead(a) != Incomplete {
      HeadLocal(a, b);
      HeadOfMore(a, b);
      DecodePrefix(a[FrameHead(a).total..], b);
    }
  }

  // ---- Sending -------------------------------------------------------------

  /** A printed publish: `measured` is what the encoder's first pass returned, `writes` what its second pass wrote and
      `returned` what that one returned; `behind` is what the buffer holds behind the bytes written. */
  datatype TxOp =
    | Publish(topic: CString, payload: seq<byte>, retained: bool)
    | PublishPrinted(topic: CString, measured: nat, writes: seq<seq<byte>>, returned: nat, behind: seq<byte>,
                     maxPayload: nat, retained: bool)
    | Subscribe(topic: CString)
    | Ping
    | Connect(cfg: Config)
    | Disconnect
    | Pump(maxBytes: nat, grants: seq<nat>)
    | Online(up: bool)
    | Reset

  datatype TxState = TxState(
    online: bool, nextPacketId: nat,
    pending: seq<byte>,         // staged and not yet taken by the network
    wire: seq<byte>,            // taken by the network since the last session reset
    packets: seq<seq<byte>>)    // accepted since the last session reset, oldest first
  {
    predicate Valid() { nextPacketId < 0x1_0000 }
  }

  function Scanned(topic: CString): CString { topic[..Min(|topic|, TOPIC_SCAN)] }

  /** The remaining-length digits of a PUBLISH. */
  function SizeDigits(topicLen: nat, payloadLen: nat): seq<byte> { EncodeLen(2 + topicLen + payloadLen) }

  function HeadSize(topicLen: nat, payloadLen: nat): nat { 1 + |SizeDigits(topicLen, payloadLen)| + 2 + topicLen }

  function PublishSize(topicLen: nat, payloadLen: nat): nat { HeadSize(topicLen, payloadLen) + payloadLen }

  /** The first `n` bytes from the start of the payload. */
  function Taken(printed: seq<byte>, behind: seq<byte>, n: nat): (r: seq<byte>)
    requires n <= |printed| + |behind|
    ensures |r| == n
  {
    (printed + behind)[..n]
  }

  /** The announced sizes stay in the 16-bit arithmetic of the builders. */
  predicate InRange(op: TxOp) {
    match op
    case Publish(topic, payload, _) => PublishSize(|Scanned(topic)|, |payload|) < 0x1_0000
    case PublishPrinted(topic, measured, writes, _, behind, maxPayload, _) =>
      && (measured <= maxPayload ==> PublishSize(|Scanned(topic)|, measured) < 0x1_0000)
      && (PublishSize(|Scanned(topic)|, measured) <= TX_MAX ==> measured <= |Concat(writes)| + |behind|)
    case Connect(cfg) => cfg.Valid()
    case _ => true
  }

  /** The 16-bit size check refuses what does not fit exactly as long as the size itself is not cut to 16 bits. */
  lemma SizeCheckExact(topicLen: nat, payloadLen: nat)
    requires topicLen <= TOPIC_SCAN && payloadLen < 0x1_0000
    ensures (PublishSize(topicLen, payloadLen) % 0x1_0000 <= TX_MAX <==> PublishSize(topicLen, payloadLen) <= TX_MAX)
            <==> PublishSize(topicLen, payloadLen) < 0x1_0000
    ensures PublishSize(1, 65535) % 0x1_0000 <= TX_MAX < PublishSize(1, 65535)
  {
    Pow128Of4();
    hide EncodeLen, DecodeLen;
    LenRoundTrip(2 + topicLen + payloadLen, 4, []);
    LenRoundTrip(65538, 4, []);
  }

  /** The packet an operation stages, if it is accepted. */
  function StagedBy(st: TxState, op: TxOp): Option<seq<byte>>
    requires st.Valid() && InRange(op)
  {
    if st.pending != [] then None
    else
      match op
      case Publish(topic, payload, retained) =>
        if topic == [] || !st.online || PublishSize(|Scanned(topic)|, |payload|) > TX_MAX then None
        else Some(PublishPacket(Scanned(topic), payload, retained))
      case PublishPrinted(topic, measured, writes, returned, behind, maxPayload, retained) =>
        if topic == [] || !st.online || measured == 0 || measured > maxPayload
           || PublishSize(|Scanned(topic)|, measured) > TX_MAX
           || HeadSize(|Scanned(topic)|, measured) + |Concat(writes)| > TX_MAX || returned != measured then None
        else Some(PublishPacket(Scanned(topic), Taken(Concat(writes), behind, measured), retained))
      case Subscribe(topic) =>
        if topic == [] || !st.online || |topic| >= 126 then None
        else Some(SubscribePacket(st.nextPacketId, topic))
      case Ping => Some(PINGREQ)
      case Disconnect => Some(DISCONNECT)
      case Connect(cfg) => ConnectPacket(cfg)
      case _ => None
  }

  /** Bytes taken by a pump: each write takes at most its grant, and a zero write ends the pump. */
  function Drained(remaining: nat, budget: nat, grants: seq<nat>): (n: nat)
    ensures n <= remaining && n <= budget
    decreases |grants|
  {
    if remaining == 0 || budget == 0 || grants == [] then 0
    else
      var w := Min(grants[0], Min(remaining, budget));
      if w == 0 then 0 else w + Drained(remaining - w, budget - w, grants[1..])
  }

  /** A subscribe that reaches the builder takes a packet id, even if its topic is then refused. */
  function NextPacketId(st: TxState, op: TxOp): (id: nat)
    requires st.Valid()
    ensures id < 0x1_0000
  {
    if op.Subscribe? && st.pending == [] && op.topic != [] && st.online then (st.nextPacketId + 1) % 0x1_0000
    else st.nextPacketId
  }

  function TxStep(st: TxState, op: TxOp): (r: TxState)
    requires st.Valid() && InRange(op)
    ensures r.Valid()
  {
    match op
    case Pump(budget, grants) =>
      var n := Drained(|st.pending|, budget, grants);
      st.(pending := st.pending[n..], wire := st.wire + st.pending[..n])
    case Online(up) => st.(online := up)
    case Reset => st.(pending := [], wire := [], packets := [])
    case _ =>
      var id := NextPacketId(st, op);
      match StagedBy(st, op)
      case None => st.(nextPacketId := id)
      case Some(p) => st.(nextPacketId := id, pending := p, packets := st.packets + [p])
  }

  /** An accepted CONNACK puts the session online. */
  function Opened(st: TxState, accepted: bool): TxState {
    st.(online := st.online || accepted)
  }

  function TxRun(st: TxState, ops: seq<TxOp>): (r: TxState)
    requires st.Valid() && forall op <- ops :: InRange(op)
    ensures r.Valid()
    decreases |ops|
  {
    if ops == [] then st else TxRun(TxStep(st, ops[0]), ops[1..])
  }

  /** Everything accepted is on the wire or staged, whole packets in order, and what is staged ends the newest one. */
  predicate Conserved(st: TxState) {
    && st.wire + st.pending == Concat(st.packets)
    && (st.pending == [] || (st.packets != [] && IsTail(st.pending, st.packets[|st.packets| - 1])))
  }

  predicate IsTail(t: seq<byte>, s: seq<byte>) {
    |t| <= |s| && s[|s| - |t|..] == t
  }

  lemma PumpConserves(st: TxState, n: nat)
    requires Conserved(st) && n <= |st.pending|
    ensures Conserved(st.(pending := st.pending[n..], wire := st.wire + st.pending[..n]))
  {
    assert st.pending == st.pending[..n] + st.pending[n..];
    assert st.wire + st.pending[..n] + st.pending[n..] == st.wire + st.pending;
  }

  lemma StageConserves(st: TxState, p: seq<byte>, id: nat)
    requires Conserved(st) && st.pending == []
    ensures Conserved(st.(nextPacketId := id, pending := p, packets := st.packets + [p]))
  {
    ConcatSnoc(st.packets, p);
    assert st.wire + [] == st.wire;
  }

  lemma StepConserves(st: TxState, op: TxOp)
    requires st.Valid() && InRange(op) && Conserved(st)
    ensures Conserved(TxStep(st, op))
  {
    if op.Pump? {
      PumpConserves(st, Drained(|st.pending|, op.maxBytes, op.grants));
    } else if !op.Online? && !op.Reset? {
      match StagedBy(st, op)
      case None =>
      case Some(p) =>
        StageConserves(st, p, NextPacketId(st, op));
    }
  }

  /** Whatever the network takes and whatever is refused, packets are conserved and never interleaved. */
  lemma {:induction false} TransmitConserves(st: TxState, ops: seq<TxOp>)
    requires st.Valid() && (forall op <- ops :: InRange(op)) && Conserved(st)
    ensures Conserved(TxRun(st, ops))
    decreases |ops|
  {
    if ops != [] {
      StepConserves(st, ops[0]);
      TransmitConserves(TxStep(st, ops[0]), ops[1..]);
    }
  }

  lemma {:induction false} LongerTakesMore(a: nat, b: nat)
    requires a <= b
    ensures |EncodeLen(a)| <= |EncodeLen(b)|
    decreases b
  {
    if a >= 128 {
      LongerTakesMore(a / 128, b / 128);
    }
  }

  lemma PublishLength(topic: CString, payload: seq<byte>, retained: bool)
    requires |topic| <= TOPIC_SCAN
    ensures |PublishPacket(topic, payload, retained)| == PublishSize(|topic|, |payload|)
  {
    assert |PublishBody(topic, payload)| == 2 + |topic| + |payload|;
    hide EncodeLen;
  }

  /** A printed publish is accepted exactly when the second pass reports the measured length without running over the
      buffer and the plain publish of that many bytes is accepted; it stages what the plain publish of the bytes printed
      would exactly when these are as many as reported. */
  lemma PrintedMatchesPlain(st: TxState, op: TxOp)
    requires op.PublishPrinted? && st.Valid() && InRange(op)
    ensures StagedBy(st, op).Some? <==>
              && op.returned == op.measured && 0 < op.measured <= op.maxPayload
              && HeadSize(|Scanned(op.topic)|, op.measured) + |Concat(op.writes)| <= TX_MAX
              && PublishSize(|Scanned(op.topic)|, op.measured) <= TX_MAX
              && StagedBy(st, Publish(op.topic, Taken(Concat(op.writes), op.behind, op.measured), op.retained)).Some?
    ensures StagedBy(st, op).Some? ==>
              && StagedBy(st, op)
                 == StagedBy(st, Publish(op.topic, Taken(Concat(op.writes), op.behind, op.measured), op.retained))
              && PublishSize(|Scanned(op.topic)|, |Concat(op.writes)|) < 0x1_0000
              && (StagedBy(st, op) == StagedBy(st, Publish(op.topic, Concat(op.writes), op.retained))
                  <==> |Concat(op.writes)| == op.measured)
  {
    hide EncodeLen, PublishPacket;
    if StagedBy(st, op).Some? {
      var topic, printed := Scanned(op.topic), Concat(op.writes);
      var content := Taken(printed, op.behind, op.measured);
      PrintedIsSmall(|topic|, |printed|);
      PublishLength(topic, printed, op.retained);
      PublishLength(topic, content, op.retained);
      if |printed| == op.measured {
        assert (printed + op.behind)[..|printed|] == printed;
      } else if |printed| < op.measured {
        LongerTakesMore(2 + |topic| + |printed|, 2 + |topic| + op.measured);
      } else {
        LongerTakesMore(2 + |topic| + op.measured, 2 + |topic| + |printed|);
      }
    }
  }

  lemma PrintedIsSmall(topicLen: nat, payloadLen: nat)
    requires topicLen <= TOPIC_SCAN && payloadLen <= TX_MAX
    ensures PublishSize(topicLen, payloadLen) < 0x1_0000
  {
    LenDigits(2 + topicLen + payloadLen, 2);
    assert Pow128(2) == 128 * Pow128(1);
    hide EncodeLen;
  }

  // ---- End to end ----------------------------------------------------------

  /** A packet the receiving client frames as exactly itself, and that does not end its session. */
  predicate Framed(p: seq<byte>) {
    FrameHead(p).Whole? && FrameHead(p).total == |p| && HeadEvent(p) != ErrorExit
  }

  predicate AllFramed(packets: seq<seq<byte>>) {
    forall i | 0 <= i < |packets| :: Framed(packets[i])
  }

  function Events(packets: seq<seq<byte>>): seq<RxEvent>
    requires AllFramed(packets)
  {
    if packets == [] then [] else [HeadEvent(packets[0])] + Events(packets[1..])
  }

  lemma {:induction false} PacketsDecode(packets: seq<seq<byte>>)
    requires AllFramed(packets)
    ensures DecodeAll(Concat(packets)) == Events(packets)
    ensures Good(Concat(packets))
  {
    if packets != [] {
      var p, rest := packets[0], Concat(packets[1..]);
      HeadOfMore(p, rest);
      assert p[|p|..] + rest == rest;
      PacketsDecode(packets[1..]);
    }
  }

  /** A packet the client stages is framed by a receiving client as itself exactly when it is no DISCONNECT and fits
      the receive buffer. */
  lemma StagedIsFramed(st: TxState, op: TxOp)
    requires st.Valid() && InRange(op) && StagedBy(st, op).Some?
    ensures Framed(StagedBy(st, op).value) <==> !op.Disconnect? && |StagedBy(st, op).value| <= RX_MAX
    ensures Framed(StagedBy(st, op).value) && op.Publish? && |op.topic| < TOPIC_MAX ==>
              HeadEvent(StagedBy(st, op).value) == Published(op.topic, op.payload, op.retained)
    ensures Framed(StagedBy(st, op).value) && op.PublishPrinted? && |op.topic| < TOPIC_MAX ==>
              HeadEvent(StagedBy(st, op).value)
              == Published(op.topic, Taken(Concat(op.writes), op.behind, op.measured), op.retained)
  {
    match op
    case Publish(topic, payload, retained) => PublishFramed(topic, payload, retained);
    case PublishPrinted(topic, measured, writes, _, behind, _, retained) =>
      PublishFramed(topic, Taken(Concat(writes), behind, measured), retained);
    case Subscribe(topic) => SubscribeFramed(st.nextPacketId, topic);
    case Ping => PacketFramed(0xC0, []);
    case Disconnect => ErrorExitExactly(0xE0, []);
    case Connect(cfg) => ConnectFramed(cfg);
    case _ =>
  }

  lemma SubscribeFramed(pid: nat, topic: CString)
    requires pid < 0x1_0000 && |topic| < 126
    ensures Framed(SubscribePacket(pid, topic)) && |SubscribePacket(pid, topic)| <= RX_MAX
  {
    var body := U16(pid) + (U16(|topic|) + topic + [0]);
    LenDigits(|body|, 2);
    assert Pow128(2) == 128 * Pow128(1);
    hide EncodeLen;
    PacketFramed(0x82, body);
  }

  lemma ConnectFramed(cfg: Config)
    requires cfg.Valid() && ConnectPacket(cfg).Some?
    ensures Framed(ConnectPacket(cfg).value) && |ConnectPacket(cfg).value| <= RX_MAX
  {
    hide ConnectStrings;
    StoredBytes([], ConnectStrings(cfg));
    var ts := Stored(ConnectStrings(cfg), PAYLOAD_MAX).value;
    StoredExactly(ConnectStrings(cfg), PAYLOAD_MAX);
    StringsSizeIsLength(ts);
    var body := ConnectHeader(cfg) + PutStrings([], ConnectStrings(cfg)).value;
    LenDigits(|body|, 2);
    assert Pow128(2) == 128 * Pow128(1);
    hide EncodeLen, PutStrings;
    PacketFramed(0x10, body);
  }

  lemma PacketFramed(typeFlags: byte, body: seq<byte>)
    requires |body| < REMAINING_LIMIT
    ensures FrameHead(Packet(typeFlags, body)).Whole? <==> |Packet(typeFlags, body)| <= RX_MAX
    ensures |Packet(typeFlags, body)| <= RX_MAX ==>
              && FrameHead(Packet(typeFlags, body)).total == |Packet(typeFlags, body)|
              && HeadEvent(Packet(typeFlags, body)) == FrameEvent(typeFlags, body)
  {
    var s := Packet(typeFlags, body);
    PacketHead(typeFlags, body, []);
    assert s + [] == s;
    if |s| <= RX_MAX {
      assert s[FrameHead(s).header..FrameHead(s).total] == body;
    }
  }

  lemma PublishFramed(topic: CString, payload: seq<byte>, retained: bool)
    requires topic != [] && |PublishBody(Scanned(topic), payload)| < REMAINING_LIMIT
    ensures var p := PublishPacket(Scanned(topic), payload, retained);
            && (Framed(p) <==> |p| <= RX_MAX)
            && (Framed(p) && |topic| < TOPIC_MAX ==> HeadEvent(p) == Published(topic, payload, retained))
  {
    PacketFramed(if retained then 0x31 else 0x30, PublishBody(Scanned(topic), payload));
    var p := PublishPacket(Scanned(topic), payload, retained);
    if |topic| < TOPIC_MAX && |p| <= RX_MAX {
      assert Scanned(topic) == topic;
      PublishRoundTrip(topic, payload, retained, []);
      assert p + [] == p;
    }
  }

  /** An operation whose packet, if it stages one, the other side can take. */
  predicate Fits(op: TxOp) {
    match op
    case Publish(topic, payload, _) => PublishSize(|Scanned(topic)|, |payload|) <= RX_MAX
    case PublishPrinted(topic, measured, _, _, _, maxPayload, _) =>
      InRange(op) && (measured <= maxPayload ==> PublishSize(|Scanned(topic)|, measured) <= RX_MAX)
    case Disconnect => false
    case Connect(cfg) => cfg.Valid()
    case _ => true
  }

  lemma FittingStages(st: TxState, op: TxOp)
    requires st.Valid() && Fits(op) && StagedBy(st, op).Some?
    ensures InRange(op) && Framed(StagedBy(st, op).value)
  {
    StagedIsFramed(st, op);
    match op
    case Subscribe(topic) => SubscribeFramed(st.nextPacketId, topic);
    case Connect(cfg) => ConnectFramed(cfg);
    case _ =>
  }

  /** Every packet accepted over a run of fitting operations is framed as itself. */
  lemma {:induction false} RunIsFramed(st: TxState, ops: seq<TxOp>)
    requires st.Valid() && AllFramed(st.packets) && forall op <- ops :: Fits(op) && InRange(op)
    ensures AllFramed(TxRun(st, ops).packets)
    decreases |ops|
  {
    hide Framed, StagedBy, Fits, InRange;
    if ops != [] {
      assert ops[0] in ops;
      if StagedBy(st, ops[0]).Some? {
        FittingStages(st, ops[0]);
      }
      RunIsFramed(TxStep(st, ops[0]), ops[1..]);
    }
  }

  /** Two clients back to back: under any short writes on one side and any chunking on the other,
      the receiver's events are those of the accepted packets, in order, up to what is still under way. */
  lemma EndToEnd(ops: seq<TxOp>, tx: TxState, ticks: seq<RxTick>)
    requires forall op <- ops :: InRange(op) && Fits(op)
    requires tx.Valid() && tx.pending == [] && tx.wire == [] && tx.packets == []
    requires Arrivals(ticks) <= TxRun(tx, ops).wire && RxRunNoDrop(RxState([], [], []), ticks)
    ensures var sent, received := TxRun(tx, ops), RxRun(RxState([], [], []), ticks);
            var events := received.events + DecodeAll(received.buf + received.inbox);
            && AllFramed(sent.packets)
            && events <= Events(sent.packets)
            && (Arrivals(ticks) == sent.wire && sent.pending == [] ==> events == Events(sent.packets))
  {
    hide Good, DecodeAll, RxRun, TxRun, InRange, Fits;
    TransmitConserves(tx, ops);
    RunIsFramed(tx, ops);
    var sent := TxRun(tx, ops);
    var whole, arrived: seq<byte> := Concat(sent.packets), Arrivals(ticks);
    PacketsDecode(sent.packets);
    assert sent.wire <= sent.wire + sent.pending;
    assert whole == arrived + whole[|arrived|..];
    DecodePrefix(arrived, whole[|arrived|..]);
    assert arrived == sent.wire && sent.pending == [] ==> arrived == whole;
    assert [] + [] + arrived == arrived;
    ReceiveIsChunkingIndependent(RxState([], [], []), ticks);
    assert [] + DecodeAll(arrived) == DecodeAll(arrived);
  }
}
