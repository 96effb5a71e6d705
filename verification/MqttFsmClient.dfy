/** The MQTT client object: staging and reassembly buffers updated in place, refining `MqttStream`. */
module MqttFsmClient {
  import opened Bytes
  import opened MqttCodec
  import opened MqttStream

  /** The network: bytes not read yet, bytes taken, and how much each coming write will take. */
  class Net {
    var inbox: seq<byte>
    var accepted: seq<byte>
    var grants: seq<nat>

    method Write(p: seq<byte>) returns (n: nat)
      requires p != []
      modifies this
      ensures inbox == old(inbox)
      ensures n == if old(grants) == [] then 0 else Min(old(grants)[0], |p|)
      ensures accepted == old(accepted) + p[..n]
      ensures grants == if old(grants) == [] then [] else old(grants)[1..]
    {
      n := if grants == [] then 0 else Min(grants[0], |p|);
      accepted := accepted + p[..n];
      grants := if grants == [] then [] else grants[1..];
    }
  }

  datatype State = Idle | TcpConnecting | MqttConnecting | Connected | Error

  class Client {
    const net: Net
    const rx: array<byte>
    const tx: array<byte>
    var rxLen: nat
    var txLen: nat
    var txOff: nat
    var state: State
    var nextPacketId: nat
    var subPacketId: nat
    var awaitingSuback: bool
    var events: seq<RxEvent>             // what the frames made the client do, oldest first
    ghost var mark: nat                  // bytes the network had taken at the last session reset
    ghost var packets: seq<seq<byte>>    // accepted since the last session reset

    ghost predicate Shaped()
      reads this
    {
      && rx != tx && rx.Length == RX_MAX && tx.Length == TX_MAX
      && txOff <= txLen <= TX_MAX && (txLen == 0 || txOff < txLen)
      && nextPacketId < 0x1_0000
    }

    ghost predicate Valid()
      reads this, net
    {
      Shaped() && rxLen <= RX_MAX && mark <= |net.accepted|
    }

    ghost function Tx(): (st: TxState)
      requires Shaped() && mark <= |net.accepted|
      reads this, tx, net
      ensures st.Valid()
    {
      TxState(state == Connected, nextPacketId, tx[txOff..txLen], net.accepted[mark..], packets)
    }

    ghost function Rx(): RxState
      requires Shaped() && rxLen <= RX_MAX
      reads this, rx, net
    {
      RxState(rx[..rxLen], net.inbox, events)
    }

    constructor (net: Net)
      ensures Valid() && this.net == net && fresh(rx) && fresh(tx)
      ensures Tx() == TxState(false, 1, [], [], []) && Conserved(Tx())
      ensures Rx() == RxState([], net.inbox, [])
    {
      this.net := net;
      rx := new byte[RX_MAX];
      tx := new byte[TX_MAX];
      rxLen, txLen, txOff, state, nextPacketId, subPacketId := 0, 0, 0, Idle, 1, 0;
      awaitingSuback, events, mark, packets := false, [], |net.accepted|, [];
    }

    // ---- Session -----------------------------------------------------------

    method ResetSession()
      requires Valid()
      modifies this
      ensures Valid() && Tx() == TxStep(old(Tx()), Reset)
      ensures Tx().pending == [] && Tx().wire == [] && Tx().packets == []
      ensures rxLen == 0 && !awaitingSuback && state == old(state) && events == old(events)
    {
      hide StagedBy, NextPacketId, Drained;
      txLen, txOff, rxLen, awaitingSuback, subPacketId := 0, 0, 0, false, 0;
      mark, packets := |net.accepted|, [];
      assert net.accepted[mark..] == [] && tx[txOff..txLen] == [];
    }

    /** Makes the first `len` bytes of the transmit buffer the staged packet. */
    method Stage(len: nat, ghost p: seq<byte>)
      requires Valid() && Tx().pending == []
      requires 0 < len <= TX_MAX && tx[..len] == p
      modifies this`txLen, this`txOff, this`packets
      ensures Valid()
      ensures Tx() == old(Tx()).(pending := p, packets := old(packets) + [p])
    {
      txLen, txOff := len, 0;
      packets := packets + [p];
      assert tx[txOff..txLen] == tx[..len] == p;
    }

    // ---- Sending -----------------------------------------------------------

    method BuildPacket(typeFlags: byte, body: seq<byte>)
      requires Valid() && txLen == 0 && |Packet(typeFlags, body)| <= TX_MAX
      modifies this`txLen, this`txOff, this`packets, tx
      ensures Valid()
      ensures Tx() == old(Tx()).(pending := Packet(typeFlags, body), packets := old(packets) + [Packet(typeFlags, body)])
    {
      var rl := EncodeRemainingLen(|body|);
      var off := Put(tx, 0, [typeFlags]);
      off := Put(tx, off, rl);
      off := Put(tx, off, body);
      assert tx[..off] == Packet(typeFlags, body);
      Stage(off, Packet(typeFlags, body));
    }

    method BuildPublish(topic: CString, payload: seq<byte>, retained: bool) returns (ok: bool)
      requires Valid() && state == Connected
      requires InRange(Publish(topic, payload, retained))
      modifies this`txLen, this`txOff, this`packets, tx
      ensures Valid() && Tx() == TxStep(old(Tx()), Publish(topic, payload, retained))
      ensures ok == StagedBy(old(Tx()), Publish(topic, payload, retained)).Some?
    {
      if txLen != 0 || topic == [] {
        return false;
      }
      assert Tx().pending == [];
      var topicLen := Min(|topic|, TOPIC_SCAN);
      var rl := PublishDigits(topicLen, |payload|);
      if 1 + |rl| + 2 + topicLen + |payload| > TX_MAX {
        return false;
      }
      BuildPacket(if retained then 0x31 else 0x30, U16(topicLen) + topic[..topicLen] + payload);
      return true;
    }

    /** The remaining-length digits of a PUBLISH that stays in 16-bit arithmetic. */
    method PublishDigits(topicLen: nat, payloadLen: nat) returns (rl: seq<byte>)
      requires 2 + topicLen + payloadLen < 0x2_0000
      ensures rl == SizeDigits(topicLen, payloadLen)
    {
      rl := EncodeRemainingLen(2 + topicLen + payloadLen);
    }

    method PublishNow(topic: CString, payload: seq<byte>, retained: bool) returns (ok: bool)
      requires Valid() && InRange(Publish(topic, payload, retained))
      modifies this`txLen, this`txOff, this`packets, tx
      ensures Valid() && Tx() == TxStep(old(Tx()), Publish(topic, payload, retained))
      ensures ok == StagedBy(old(Tx()), Publish(topic, payload, retained)).Some?
    {
      if topic == [] || state != Connected || txLen != 0 {
        return false;
      }
      ok := BuildPublish(topic, payload, retained);
    }

    /** Copies one write of the encoder behind `n` bytes already printed at `off`, as far as the buffer goes. */
    method IntoBuffer(off: nat, n: nat, write: seq<byte>) returns (m: nat, overflow: bool)
      requires Shaped() && off + n <= TX_MAX
      modifies tx
      ensures overflow <==> off + n + |write| > TX_MAX
      ensures m == n + Min(|write|, TX_MAX - off - n) && tx[off + m..] == old(tx[off + m..])
      ensures tx[..off + m] == old(tx[..off + n]) + write[..m - n]
    {
      m, overflow := n, false;
      var w := 0;
      while w < |write|
        invariant w <= |write| && m == n + w && off + m <= TX_MAX
        invariant tx[..off + m] == old(tx[..off + n]) + write[..w] && tx[off + m..] == old(tx[off + m..])
        invariant !overflow
      {
        if off + m >= TX_MAX {
          overflow := true;
          break;
        }
        tx[off + m] := write[w];
        m, w := m + 1, w + 1;
      }
    }

    /** Runs the encoder's second pass into the transmit buffer. */
    method PrintInto(off: nat, writes: seq<seq<byte>>) returns (n: nat, overflow: bool)
      requires Shaped() && off <= TX_MAX
      modifies tx
      ensures off + n <= TX_MAX
      ensures overflow <==> off + |Concat(writes)| > TX_MAX
      ensures !overflow ==> n == |Concat(writes)| && tx[..off + n] == old(tx[..off]) + Concat(writes)
                            && tx[off + n..] == old(tx[off + n..])
    {
      n, overflow := 0, false;
      var i := 0;
      while i < |writes|
        invariant i <= |writes| && off + n <= TX_MAX
        invariant overflow ==> off + |Concat(writes[..i])| > TX_MAX
        invariant !overflow ==> n == |Concat(writes[..i])| && tx[..off + n] == old(tx[..off]) + Concat(writes[..i])
                                && tx[off + n..] == old(tx[off + n..])
      {
        var over;
        assert writes[..i + 1] == writes[..i] + [writes[i]];
        ConcatSnoc(writes[..i], writes[i]);
        n, over := IntoBuffer(off, n, writes[i]);
        overflow := overflow || over;
        i := i + 1;
      }
      assert writes[..i] == writes;
    }

    /** The part of a PUBLISH before its payload. */
    method PutPublishHead(kind: byte, rl: seq<byte>, topic: CString) returns (off: nat)
      requires Shaped() && 1 + |rl| + 2 + |topic| <= TX_MAX && |topic| < 0x1_0000
      modifies tx
      ensures off == 1 + |rl| + 2 + |topic|
      ensures tx[..off] == [kind] + rl + U16(|topic|) + topic && tx[off..] == old(tx[off..])
    {
      ghost var data := tx[..];
      off := Put(tx, 0, [kind]);
      assert tx[off..] == data[off..];
      off := PutNext(data, off, rl);
      off := PutNext(data, off, U16(|topic|));
      off := PutNext(data, off, topic);
    }

    /** Puts `s` at `off` and leaves everything behind it as it was in `data`. */
    method PutNext(ghost data: seq<byte>, off: nat, s: seq<byte>) returns (next: nat)
      requires Shaped() && off + |s| <= TX_MAX && |data| == TX_MAX && tx[off..] == data[off..]
      modifies tx
      ensures next == off + |s| && tx[..next] == old(tx[..off]) + s && tx[next..] == data[next..]
    {
      assert tx[off..][|s|..] == tx[off + |s|..] && data[off..][|s|..] == data[off + |s|..];
      next := Put(tx, off, s);
    }

    static lemma BodySize(topic: CString, doc: seq<byte>)
      requires |topic| <= TOPIC_SCAN
      ensures |PublishBody(topic, doc)| == 2 + |topic| + |doc|
    {
    }

    static lemma PublishLayout(topic: CString, doc: seq<byte>, retained: bool, rl: seq<byte>)
      requires |topic| <= TOPIC_SCAN && rl == EncodeLen(2 + |topic| + |doc|)
      ensures PublishPacket(topic, doc, retained)
           == [if retained then 0x31 else 0x30] + rl + U16(|topic|) + topic + doc
    {
      BodySize(topic, doc);
      var body := PublishBody(topic, doc);
      assert EncodeLen(|body|) == rl;
      assert PublishPacket(topic, doc, retained) == [if retained then 0x31 else 0x30] + rl + body;
      hide PublishPacket, EncodeLen, U16;
      Regroup([if retained then 0x31 else 0x30] + rl, U16(|topic|), topic, doc);
    }

    static lemma Regroup(a: seq<byte>, b: seq<byte>, c: seq<byte>, d: seq<byte>)
      ensures a + (b + c + d) == a + b + c + d
    {
      Associate(a, b + c, d);
      Associate(a, b, c);
    }

    /** What the transmit buffer holds behind the first `n` bytes. */
    ghost function Behind(n: nat): seq<byte>
      requires Shaped()
      reads this, tx
    {
      if n <= TX_MAX then tx[n..] else []
    }

    /** A printed publish over the buffer as it is. */
    ghost function Printing(topic: CString, measured: nat, writes: seq<seq<byte>>, returned: nat, maxPayload: nat, retained: bool)
      : (op: TxOp)
      requires Shaped()
      reads this, tx
    {
      var off := HeadSize(|Scanned(topic)|, measured);
      PublishPrinted(topic, measured, writes, returned, Behind(off + |Concat(writes)|), maxPayload, retained)
    }

    static lemma PrintedRefused(st: TxState, op: TxOp)
      requires st.Valid() && op.PublishPrinted? && InRange(op)
      ensures op.topic == [] || !st.online || st.pending != [] || op.measured == 0 || op.measured > op.maxPayload ==>
                TxStep(st, op) == st && StagedBy(st, op).None?
      ensures op.measured <= op.maxPayload ==> op.measured < 0x1_0000
    {
    }

    /** What a printed publish amounts to when nothing is staged and its length is known. */
    static lemma PrintedStages(st: TxState, op: TxOp, kind: byte, rl: seq<byte>)
      requires st.Valid() && op.PublishPrinted? && InRange(op) && st.pending == []
      requires op.topic != [] && st.online && 0 < op.measured <= op.maxPayload
      requires rl == SizeDigits(|Scanned(op.topic)|, op.measured) && kind == if op.retained then 0x31 else 0x30
      ensures var topic, body := Scanned(op.topic), Concat(op.writes);
              var off := HeadSize(|topic|, op.measured);
              off == 1 + |rl| + 2 + |topic| &&
              if off + op.measured > TX_MAX || off + |body| > TX_MAX || op.returned != op.measured
              then TxStep(st, op) == st && StagedBy(st, op).None?
              else
                var p := [kind] + rl + U16(|topic|) + topic + Taken(body, op.behind, op.measured);
                TxStep(st, op) == st.(pending := p, packets := st.packets + [p]) && StagedBy(st, op) == Some(p)
    {
      if PublishSize(|Scanned(op.topic)|, op.measured) <= TX_MAX {
        PublishLayout(Scanned(op.topic), Taken(Concat(op.writes), op.behind, op.measured), op.retained, rl);
      }
      hide PublishPacket, Taken;
    }

    /** Publishes what an encoder prints: `measured` is what its first pass returns, `writes` what its second pass writes
        and `returned` what that one returns. */
    method PublishPrintedMeasured(topic: CString, measured: nat, writes: seq<seq<byte>>, returned: nat, maxPayload: nat,
                                  retained: bool)
      returns (ok: bool)
      requires Valid() && InRange(Printing(topic, measured, writes, returned, maxPayload, retained))
      modifies this`txLen, this`txOff, this`packets, tx
      ensures Valid() && Tx() == TxStep(old(Tx()), old(Printing(topic, measured, writes, returned, maxPayload, retained)))
      ensures ok == StagedBy(old(Tx()), old(Printing(topic, measured, writes, returned, maxPayload, retained))).Some?
    {
      hide TxStep, StagedBy, InRange;
      PrintedRefused(Tx(), Printing(topic, measured, writes, returned, maxPayload, retained));
      if topic == [] || state != Connected || txLen != 0 {
        return false;
      }
      if measured == 0 || measured > maxPayload {
        return false;
      }
      ok := EncodeMeasured(topic, measured, writes, returned, maxPayload, retained);
    }

    /** The second pass, once the first one has been accepted. */
    method EncodeMeasured(topic: CString, measured: nat, writes: seq<seq<byte>>, returned: nat, maxPayload: nat, retained: bool)
      returns (ok: bool)
      requires Valid() && InRange(Printing(topic, measured, writes, returned, maxPayload, retained))
      requires topic != [] && state == Connected && txLen == 0 && 0 < measured <= maxPayload
      modifies this`txLen, this`txOff, this`packets, tx
      ensures Valid() && Tx() == TxStep(old(Tx()), old(Printing(topic, measured, writes, returned, maxPayload, retained)))
      ensures ok == StagedBy(old(Tx()), old(Printing(topic, measured, writes, returned, maxPayload, retained))).Some?
    {
      hide TxStep, StagedBy, InRange, PublishSize, HeadSize, SizeDigits, Taken;
      ghost var start, op := Tx(), Printing(topic, measured, writes, returned, maxPayload, retained);
      PrintedRefused(start, op);
      assert start.pending == [];
      var topicLen := Min(|topic|, TOPIC_SCAN);
      var rl := PublishDigits(topicLen, measured);
      var kind: byte := if retained then 0x31 else 0x30;
      PrintedStages(start, op, kind, rl);
      if 1 + |rl| + 2 + topicLen + measured > TX_MAX {
        return false;
      }
      assert op.behind == Behind(1 + |rl| + 2 + topicLen + |Concat(writes)|);
      ok := StagePrinted(kind, rl, topic[..topicLen], measured, writes, returned);
    }

    /** Prints the packet and stages it, unless the second pass runs over the buffer or reports another length. */
    method StagePrinted(kind: byte, rl: seq<byte>, topic: CString, measured: nat, writes: seq<seq<byte>>, returned: nat)
      returns (ok: bool)
      requires Valid() && Tx().pending == [] && |topic| < 0x1_0000 && 1 + |rl| + 2 + |topic| + measured <= TX_MAX
      modifies this`txLen, this`txOff, this`packets, tx
      ensures Valid()
      ensures ok <==> 1 + |rl| + 2 + |topic| + |Concat(writes)| <= TX_MAX && returned == measured
      ensures !ok ==> Tx() == old(Tx())
      ensures ok ==>
                var behind := old(Behind(1 + |rl| + 2 + |topic| + |Concat(writes)|));
                var p := [kind] + rl + U16(|topic|) + topic + Taken(Concat(writes), behind, measured);
                Tx() == old(Tx()).(pending := p, packets := old(packets) + [p])
    {
      ghost var start, behind := Tx(), Behind(1 + |rl| + 2 + |topic| + |Concat(writes)|);
      var len, fits := EncodePublish(kind, rl, topic, measured, writes, returned);
      hide Concat, Taken;
      assert Tx() == start;
      if !fits {
        return false;
      }
      Stage(len, [kind] + rl + U16(|topic|) + topic + Taken(Concat(writes), behind, measured));
      return true;
    }

    /** Prints the packet into the transmit buffer; it counts as fitting when the second pass reports the measured
        length, and its payload is then as much of the buffer. */
    method EncodePublish(kind: byte, rl: seq<byte>, topic: CString, measured: nat, writes: seq<seq<byte>>, returned: nat)
      returns (len: nat, fits: bool)
      requires Shaped() && |topic| < 0x1_0000 && 1 + |rl| + 2 + |topic| + measured <= TX_MAX
      modifies tx
      ensures var off := 1 + |rl| + 2 + |topic|;
              fits <==> off + |Concat(writes)| <= TX_MAX && returned == measured
      ensures var off := 1 + |rl| + 2 + |topic|;
              fits ==> len == off + measured
                       && tx[..len] == [kind] + rl + U16(|topic|) + topic
                                       + Taken(Concat(writes), old(Behind(off + |Concat(writes)|)), measured)
    {
      hide Taken, U16;
      ghost var before, k := tx[..], |Concat(writes)|;
      ghost var behind := Behind(1 + |rl| + 2 + |topic| + k);
      var off := PutPublishHead(kind, rl, topic);
      ghost var head := tx[..off];
      if off + k <= TX_MAX {
        SameBehind(before, tx[..], off, k);
      }
      var w, overflow := PrintInto(off, writes);
      len, fits := off + returned, !overflow && returned == measured;
      if fits {
        TakenFrom(tx[..], head, Concat(writes), behind, measured);
      }
    }

    static lemma SameBehind(a: seq<byte>, b: seq<byte>, off: nat, k: nat)
      requires off + k <= |a| == |b| && a[off..] == b[off..]
      ensures a[off + k..] == b[off + k..]
    {
      assert a[off..][k..] == a[off + k..] && b[off..][k..] == b[off + k..];
    }

    static lemma TakenFrom(buf: seq<byte>, head: seq<byte>, body: seq<byte>, behind: seq<byte>, m: nat)
      requires |head| + |body| <= |buf| && m <= |body| + |behind|
      requires buf[..|head| + |body|] == head + body && buf[|head| + |body|..] == behind
      ensures buf[..|head| + m] == head + Taken(body, behind, m)
    {
      Associate(head, body, behind);
      assert buf == head + body + behind;
      assert (head + (body + behind))[..|head| + m] == head + (body + behind)[..m];
    }

    method BuildSubscribe(topic: CString) returns (ok: bool)
      requires Valid()
      modifies this`txLen, this`txOff, this`packets, this`nextPacketId, this`subPacketId, tx
      ensures Valid() && Tx() == TxStep(old(Tx()), Subscribe(topic))
      ensures ok == StagedBy(old(Tx()), Subscribe(topic)).Some?
    {
      if txLen != 0 || topic == [] || state != Connected {
        return false;
      }
      assert Tx().pending == [];
      var pid := nextPacketId;
      nextPacketId := (nextPacketId + 1) % 0x1_0000;
      subPacketId := pid;
      var pl := U16(Min(|topic|, 126)) + topic[..Min(|topic|, 126)];
      if |pl| + 1 > 128 {
        return false;
      }
      pl := pl + [0];
      assert topic[..|topic|] == topic;
      Pow128Of4();
      LenRoundTrip(2 + |pl|, 4, []);
      BuildPacket(0x82, U16(pid) + pl);
      return true;
    }

    /** Packets without a body have the remaining length zero. */
    static lemma EmptyBodies()
      ensures Packet(0xC0, []) == PINGREQ && Packet(0xE0, []) == DISCONNECT
    {
      assert EncodeLen(0) == [0];
    }

    method BuildPingreq() returns (ok: bool)
      requires Valid()
      modifies this`txLen, this`txOff, this`packets, tx
      ensures Valid() && Tx() == TxStep(old(Tx()), Ping) && ok == StagedBy(old(Tx()), Ping).Some?
    {
      if txLen != 0 {
        return false;
      }
      EmptyBodies();
      BuildPacket(0xC0, []);
      return true;
    }

    method BuildDisconnect() returns (ok: bool)
      requires Valid()
      modifies this`txLen, this`txOff, this`packets, tx
      ensures Valid() && Tx() == TxStep(old(Tx()), Disconnect) && ok == StagedBy(old(Tx()), Disconnect).Some?
    {
      if txLen != 0 {
        return false;
      }
      EmptyBodies();
      BuildPacket(0xE0, []);
      return true;
    }

    /** Appends strings to the CONNECT payload one by one. */
    method PutAll(ss: seq<CString>) returns (pl: Option<seq<byte>>)
      ensures pl == PutStrings([], ss)
      ensures pl.Some? ==> |pl.value| <= PAYLOAD_MAX
    {
      var out: seq<byte> := [];
      var i := 0;
      while i < |ss|
        invariant i <= |ss| && |out| <= PAYLOAD_MAX
        invariant PutStrings([], ss) == PutStrings(out, ss[i..])
      {
        assert ss[i..][1..] == ss[i + 1..];
        match PutStr(PAYLOAD_MAX - |out|, ss[i])
        case None =>
          return None;
        case Some(p) =>
          out := out + p;
        i := i + 1;
      }
      return Some(out);
    }

    method BuildConnect(cfg: Config) returns (ok: bool)
      requires Valid() && cfg.Valid()
      modifies this`txLen, this`txOff, this`packets, tx
      ensures Valid() && Tx() == TxStep(old(Tx()), Connect(cfg)) && ok == StagedBy(old(Tx()), Connect(cfg)).Some?
    {
      if txLen != 0 || cfg.clientId == [] {
        return false;
      }
      var pl := PutAll(ConnectStrings(cfg));
      if pl.None? {
        return false;
      }
      var body := ConnectHeader(cfg) + pl.value;
      Pow128Of4();
      LenRoundTrip(|body|, 4, []);
      BuildPacket(0x10, body);
      return true;
    }

    /** Offers the staged bytes to the network until the budget, the packet or the network's room ends. */
    method Drain(staged: seq<byte>, maxBytes: nat) returns (taken: nat)
      modifies net
      ensures net.inbox == old(net.inbox)
      ensures taken == Drained(|staged|, maxBytes, old(net.grants))
      ensures net.accepted == old(net.accepted) + staged[..taken]
    {
      hide Drained;
      var budget, remaining := maxBytes, |staged|;
      ghost var total := Drained(remaining, budget, net.grants);
      taken := 0;
      while budget > 0 && remaining > 0
        invariant budget == maxBytes - taken >= 0 && remaining == |staged| - taken >= 0
        invariant total == taken + Drained(remaining, budget, net.grants)
        invariant net.inbox == old(net.inbox)
        invariant net.accepted == old(net.accepted) + staged[..taken]
        decreases budget
      {
        DrainStep(remaining, budget, net.grants);
        var w := net.Write(staged[taken..taken + Min(remaining, budget)]);
        if w == 0 {
          return;
        }
        assert staged[..taken] + staged[taken..taken + Min(remaining, budget)][..w] == staged[..taken + w];
        budget, remaining, taken := budget - w, remaining - w, taken + w;
      }
      DrainStep(remaining, budget, net.grants);
    }

    static lemma DrainStep(remaining: nat, budget: nat, grants: seq<nat>)
      ensures var w := if grants == [] then 0 else Min(grants[0], Min(remaining, budget));
              Drained(remaining, budget, grants)
              == if w == 0 then 0 else w + Drained(remaining - w, budget - w, grants[1..])
    {
    }

    /** A pump that takes `n` bytes. */
    static lemma PumpTakes(st: TxState, maxBytes: nat, grants: seq<nat>, n: nat)
      requires st.Valid() && n == Drained(|st.pending|, maxBytes, grants)
      ensures TxStep(st, Pump(maxBytes, grants)) == st.(pending := st.pending[n..], wire := st.wire + st.pending[..n])
    {
    }

    method PumpWrite(maxBytes: nat)
      requires Valid()
      modifies this`txLen, this`txOff, net
      ensures Valid() && net.inbox == old(net.inbox)
      ensures Tx() == TxStep(old(Tx()), Pump(maxBytes, old(net.grants)))
    {
      ghost var start, data, len := Tx(), tx[..], txLen;
      if txLen == 0 {
        assert start.pending == [] && start.wire + [] == start.wire;
        PumpTakes(start, maxBytes, net.grants, 0);
        return;
      }
      var taken := Drain(tx[txOff..txLen], maxBytes);
      assert tx[..] == data && start.pending == data[txOff..len];
      PumpTakes(start, maxBytes, old(net.grants), taken);
      hide TxStep, Drained;
      assert net.accepted[mark..] == start.wire + start.pending[..taken];
      txOff := txOff + taken;
      assert data[txOff..len] == start.pending[taken..];
      if txOff >= txLen {
        txLen, txOff := 0, 0;
        assert start.pending[taken..] == [];
      }
    }

    // ---- Receiving ---------------------------------------------------------

    /** Reads bytes while the budget lasts; what finds no room is dropped. */
    method PumpRead(maxBytes: nat)
      requires Valid()
      modifies this`rxLen, rx, net`inbox
      ensures Valid()
      ensures Tx() == old(Tx()) && events == old(events)
      ensures var n := Min(maxBytes, |old(net.inbox)|);
              var filled := old(rx[..rxLen]) + old(net.inbox)[..n];
              && net.inbox == old(net.inbox)[n..]
              && rx[..rxLen] == filled[..Min(|filled|, RX_MAX)]
    {
      var budget := maxBytes;
      ghost var n, k := Min(maxBytes, |net.inbox|), 0;
      ghost var filled := rx[..rxLen] + net.inbox[..n];
      while budget > 0 && net.inbox != []
        invariant budget == maxBytes - k && k <= n
        invariant net.inbox == old(net.inbox)[k..]
        invariant net.accepted == old(net.accepted)
        invariant rxLen == Min(old(rxLen) + k, RX_MAX)
        invariant rx[..rxLen] == filled[..rxLen]
        decreases budget
      {
        var c := net.inbox[0];
        net.inbox := net.inbox[1..];
        if rxLen < RX_MAX {
          assert filled[rxLen] == c;
          rx[rxLen] := c;
          rxLen := rxLen + 1;
        }
        budget, k := budget - 1, k + 1;
      }
    }

    /** Looks at the header of the frame at the front of the buffer. */
    method FrontFrame() returns (h: Head)
      requires Shaped() && rxLen <= RX_MAX
      ensures h == FrameHead(rx[..rxLen])
    {
      if rxLen < 2 {
        return Incomplete;
      }
      ghost var s := rx[..rxLen];
      assert s[1..] == rx[1..rxLen];
      var len := DecodeRemainingLen(rx[1..rxLen]);
      match len
      case MoreBytes =>
        return Incomplete;
      case Len(remLen, used) =>
        var headerLen := 1 + used;
        var totalLen := headerLen + remLen;
        if totalLen > RX_MAX {
          return TooLarge;
        }
        if rxLen < totalLen {
          return Incomplete;
        }
        return Whole(headerLen, totalLen);
    }

    /** Moves the bytes behind the first `total` to the front. */
    method Consume(total: nat)
      requires Shaped() && total <= rxLen <= RX_MAX
      modifies this`rxLen, rx
      ensures Shaped() && rxLen == old(rxLen) - total
      ensures rx[..rxLen] == old(rx[..rxLen])[total..]
    {
      var remain := rxLen - total;
      forall i | 0 <= i < remain {
        rx[i] := rx[total + i];
      }
      rxLen := remain;
    }

    /** One frame from the front of the buffer.
        A refused CONNACK or a DISCONNECT resets the session and then subtracts the frame length from
        the cleared length in 16 bits: the buffer invariant holds afterwards exactly when there was none. */
    method ParseOneFrame() returns (more: bool)
      requires Valid()
      modifies this, rx
      ensures more == FrameHead(old(rx[..rxLen])).Whole?
      ensures !more ==>
                && Valid() && Tx() == old(Tx())
                && Rx() == if FrameHead(old(rx[..rxLen])).TooLarge? then old(Rx()).(buf := []) else old(Rx())
      ensures more ==> (Valid() <==> HeadEvent(old(rx[..rxLen])) != ErrorExit)
      ensures more && HeadEvent(old(rx[..rxLen])) == ErrorExit ==>
                state == Error && rxLen == 0x1_0000 - FrameHead(old(rx[..rxLen])).total
      ensures more && HeadEvent(old(rx[..rxLen])) != ErrorExit ==> Took(old(Rx()), old(Tx()), Rx(), Tx())
    {
      hide FrameHead, FrameEvent;
      ghost var s := rx[..rxLen];
      var h := FrontFrame();
      assert h == FrameHead(s);
      match h
      case Incomplete =>
        return false;
      case TooLarge =>
        rxLen := 0;
        assert rx[..0] == [];
        return false;
      case Whole(headerLen, totalLen) =>
        SliceOfFront(rx, rxLen, headerLen, totalLen);
        var event := Dispatch(rx[0], rx[headerLen..totalLen]);
        assert event == HeadEvent(s);
        if event == ErrorExit {
          CloseOnError();
          rxLen := (rxLen - totalLen) % 0x1_0000;
        } else {
          ghost var st := Tx();
          Consume(totalLen);
          assert Tx() == st;
        }
        return true;
    }

    static lemma SliceOfFront(a: array<byte>, n: nat, i: nat, j: nat)
      requires 0 < i <= j <= n <= a.Length
      ensures a[i..j] == a[..n][i..j] && a[0] == a[..n][0]
    {
    }

    /** The first frame of the buffer was consumed and acted on. */
    static ghost predicate Took(rx: RxState, tx: TxState, rxAfter: RxState, txAfter: TxState)
      requires FrameHead(rx.buf).Whole?
    {
      var event := HeadEvent(rx.buf);
      && rxAfter == RxState(rx.buf[FrameHead(rx.buf).total..], rx.inbox, rx.events + [event])
      && txAfter == Opened(tx, event == ConnAccepted)
    }

    /** Acts on a complete frame, except that the error exit is left to the caller. */
    method Dispatch(typeFlags: byte, p: seq<byte>) returns (event: RxEvent)
      requires Valid()
      modifies this`state, this`awaitingSuback, this`subPacketId, this`events
      ensures Valid() && event == FrameEvent(typeFlags, p) && events == old(events) + [event]
      ensures Tx() == Opened(old(Tx()), event == ConnAccepted)
      ensures state == if event == ConnAccepted then Connected else old(state)
      ensures awaitingSuback == (old(awaitingSuback) && event !in {ConnAccepted, SubAck})
    {
      var pktType, flags := typeFlags / 16, typeFlags % 16;
      event := Ignored;
      if pktType == 2 {
        if |p| >= 2 {
          var rc := p[1];
          if rc == 0 {
            state, awaitingSuback, subPacketId := Connected, false, 0;
            event := ConnAccepted;
          } else {
            event := ErrorExit;
          }
        }
      } else if pktType == 9 {
        if |p| >= 3 {
          awaitingSuback, subPacketId := false, 0;
          event := SubAck;
        }
      } else if pktType == 3 {
        var retained := flags % 2 != 0;
        if |p| >= 2 {
          var topicLen := U16Of(p[0], p[1]);
          if topicLen + 2 <= |p| && topicLen < TOPIC_MAX {
            var topic := p[2..2 + topicLen];
            var off := 2 + topicLen;
            if (flags / 2) % 4 != 0 {
              if off + 2 <= |p| {
                off := off + 2;
              }
            }
            event := Published(topic, p[off..], retained);
          }
        }
      } else if pktType == 14 {
        event := ErrorExit;
      }
      events := events + [event];
    }

    method CloseOnError()
      requires Valid()
      modifies this
      ensures Valid() && state == Error && rxLen == 0
    {
      state := Error;
      ResetSession();
    }

    /** Parses frames while the budget lasts. */
    method ParseMany(maxFrames: nat)
      requires Valid() && ErrorExit !in ParseFrames(rx[..rxLen], maxFrames).0
      modifies this, rx
      ensures Valid()
      ensures var parsed := ParseFrames(old(rx[..rxLen]), maxFrames);
              && Rx() == RxState(parsed.1, old(net.inbox), old(events) + parsed.0)
              && Tx() == Opened(old(Tx()), ConnAccepted in parsed.0)
    {
      hide FrameHead, HeadEvent, ParseFrames, Rx, Tx, Took, Opened, Parsing;
      var frames := 0;
      ghost var rx0, tx0, rx1, tx1 := Rx(), Tx(), Rx(), Tx();
      ghost var parsed: seq<RxEvent> := [];
      assert rx0.buf == rx[..rxLen] && rx0.inbox == net.inbox && rx0.events == events by { RxFields(); }
      ParsingStarts(rx0, tx0, maxFrames);
      while frames < maxFrames
        invariant Valid() && frames <= maxFrames && Rx() == rx1 && Tx() == tx1
        invariant Parsing(rx0, tx0, maxFrames, rx1, tx1, maxFrames - frames, parsed)
        decreases maxFrames - frames
      {
        RxFields();
        ParsingStep(rx0, tx0, maxFrames, rx1, tx1, maxFrames - frames, parsed);
        var more := ParseOneFrame();
        if !more {
          return;
        }
        frames, parsed := frames + 1, parsed + [HeadEvent(rx1.buf)];
        rx1, tx1 := Rx(), Tx();
      }
      ParsingStep(rx0, tx0, maxFrames, rx1, tx1, 0, parsed);
    }

    lemma RxFields()
      requires Valid()
      ensures Rx().buf == rx[..rxLen] && Rx().inbox == net.inbox && Rx().events == events
    {
    }

    /** With `parsed` acted on since `rx0` and `tx0`, parsing `k` more frames makes the budget of `n`: nothing is parsed
        twice and nothing skipped. */
    static ghost predicate Parsing(rx0: RxState, tx0: TxState, n: nat, rx: RxState, tx: TxState, k: nat, parsed: seq<RxEvent>)
    {
      var all, rest := ParseFrames(rx0.buf, n), ParseFrames(rx.buf, k);
      && all == (parsed + rest.0, rest.1)
      && rx.inbox == rx0.inbox && rx.events == rx0.events + parsed
      && tx == Opened(tx0, ConnAccepted in parsed)
    }

    static lemma ParsingStarts(rx0: RxState, tx0: TxState, n: nat)
      ensures Parsing(rx0, tx0, n, rx0, tx0, n, [])
    {
      hide ParseFrames;
      var all := ParseFrames(rx0.buf, n);
      assert [] + all.0 == all.0 && rx0.events + [] == rx0.events;
    }

    /** When no more frames are to be had, and when one is taken. */
    static lemma ParsingStep(rx0: RxState, tx0: TxState, n: nat, rx: RxState, tx: TxState, k: nat, parsed: seq<RxEvent>)
      requires Parsing(rx0, tx0, n, rx, tx, k, parsed)
      ensures var all := ParseFrames(rx0.buf, n);
              && (k == 0 || !FrameHead(rx.buf).Whole? ==>
                    && RxState(if k > 0 && FrameHead(rx.buf).TooLarge? then [] else rx.buf, rx.inbox, rx.events)
                       == RxState(all.1, rx0.inbox, rx0.events + all.0)
                    && tx == Opened(tx0, ConnAccepted in all.0))
              && (k > 0 && FrameHead(rx.buf).Whole? ==> HeadEvent(rx.buf) in all.0)
              && (k > 0 && FrameHead(rx.buf).Whole? ==>
                    forall rx1, tx1 | Took(rx, tx, rx1, tx1) ::
                      Parsing(rx0, tx0, n, rx1, tx1, k - 1, parsed + [HeadEvent(rx.buf)]))
    {
      hide FrameHead, HeadEvent;
      if k > 0 && FrameHead(rx.buf).Whole? {
        var e, rest := HeadEvent(rx.buf), ParseFrames(rx.buf[FrameHead(rx.buf).total..], k - 1);
        assert ParseFrames(rx.buf, k) == ([e] + rest.0, rest.1);
        hide ParseFrames;
        assert (parsed + ([e] + rest.0))[|parsed|] == e;
        Associate(parsed, [e], rest.0);
        Associate(rx0.events, parsed, [e]);
      } else {
        assert parsed + [] == parsed;
      }
    }

    method PumpReadAndParse(maxBytes: nat, maxFrames: nat)
      requires Valid()
      requires ErrorExit !in ParseFrames(Fill(Rx(), maxBytes), maxFrames).0
      modifies this, rx, net`inbox
      ensures Valid()
      ensures Rx() == RxStep(old(Rx()), RxTick([], maxBytes, maxFrames))
      ensures Tx() == Opened(old(Tx()), ConnAccepted in ParseFrames(Fill(old(Rx()), maxBytes), maxFrames).0)
    {
      assert net.inbox + [] == net.inbox;
      PumpRead(maxBytes);
      ParseMany(maxFrames);
    }

    ghost function Fill(st: RxState, maxBytes: nat): seq<byte> {
      var filled := st.buf + st.inbox[..Min(maxBytes, |st.inbox|)];
      filled[..Min(|filled|, RX_MAX)]
    }
  }
}
