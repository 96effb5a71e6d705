/** What the pumps achieve under their budgets: short writes, receive ticks, and the packet identifiers of a run. */
module MqttPumps {
  import opened Bytes
  import opened MqttCodec
  import opened MqttStream

  // ---- Writing -------------------------------------------------------------

  /** What the network takes until it first takes nothing. */
  function Offered(grants: seq<nat>): nat {
    if grants == [] || grants[0] == 0 then 0 else grants[0] + Offered(grants[1..])
  }

  /** A pump takes as much as the packet, the budget and the network allow, whichever is least. */
  lemma {:induction false} DrainedExactly(remaining: nat, budget: nat, grants: seq<nat>)
    ensures Drained(remaining, budget, grants) == Min(Min(remaining, budget), Offered(grants))
    decreases |grants|
  {
    if grants != [] && grants[0] != 0 && remaining > 0 && budget > 0 {
      var w := Min(grants[0], Min(remaining, budget));
      DrainedExactly(remaining - w, budget - w, grants[1..]);
    }
  }

  /** A staged packet is gone after enough pumps of which each takes a byte. */
  lemma {:induction false} PumpsDeliver(st: TxState, pumps: seq<TxOp>)
    requires st.Valid()
    requires forall op <- pumps :: op.Pump? && op.maxBytes > 0 && op.grants != [] && op.grants[0] > 0
    requires |pumps| >= |st.pending|
    ensures TxRun(st, pumps) == st.(pending := [], wire := st.wire + st.pending)
    decreases |pumps|
  {
    if pumps == [] {
      assert st.wire + [] == st.wire;
    } else {
      var op := pumps[0];
      assert op in pumps;
      DrainedExactly(|st.pending|, op.maxBytes, op.grants);
      var n := Drained(|st.pending|, op.maxBytes, op.grants);
      assert TxStep(st, op) == st.(pending := st.pending[n..], wire := st.wire + st.pending[..n]);
      PumpsDeliver(TxStep(st, op), pumps[1..]);
      Associate(st.wire, st.pending[..n], st.pending[n..]);
      assert st.pending[..n] + st.pending[n..] == st.pending;
    }
  }

  // ---- Reading -------------------------------------------------------------

  /** A tick reads at most its byte budget and acts on at most its frame budget; it stops short of the latter only
      before an incomplete frame. */
  lemma TickBudgets(st: RxState, t: RxTick)
    ensures var next := RxStep(st, t);
            && |next.inbox| == |st.inbox| + |t.arrived| - Min(t.maxBytes, |st.inbox| + |t.arrived|)
            && |st.events| <= |next.events| <= |st.events| + t.maxFrames
            && (|next.events| < |st.events| + t.maxFrames ==> FrameHead(next.buf) == Incomplete)
            && |next.buf| <= 320
  {
    var inbox := st.inbox + t.arrived;
    var filled := st.buf + inbox[..Min(t.maxBytes, |inbox|)];
    ParseStops(filled[..Min(|filled|, RX_MAX)], t.maxFrames);
  }

  lemma {:induction false} ParseStops(buf: seq<byte>, maxFrames: nat)
    ensures |ParseFrames(buf, maxFrames).0| < maxFrames ==> FrameHead(ParseFrames(buf, maxFrames).1) == Incomplete
    decreases maxFrames
  {
    assert FrameHead([]) == Incomplete;
    hide FrameHead, HeadEvent;
    if maxFrames > 0 && FrameHead(buf).Whole? {
      ParseStops(buf[FrameHead(buf).total..], maxFrames - 1);
    }
  }

  /** One tick with budgets large enough makes every callback that is due: a frame has at least two bytes. */
  lemma TickFinishes(st: RxState, t: RxTick)
    requires NoDrop(st, t) && Good(st.buf + st.inbox + t.arrived)
    requires t.maxBytes >= |st.inbox| + |t.arrived| && 2 * t.maxFrames >= |st.buf| + |st.inbox| + |t.arrived|
    ensures var next := RxStep(st, t);
            next.inbox == [] && next.events == st.events + DecodeAll(st.buf + st.inbox + t.arrived)
  {
    var inbox := st.inbox + t.arrived;
    assert inbox[..|inbox|] == inbox && inbox[|inbox|..] == [];
    var filled := st.buf + inbox;
    Associate(st.buf, st.inbox, t.arrived);
    assert filled[..|filled|] == filled;
    ParseFinishes(filled, t.maxFrames);
    hide FrameHead, HeadEvent;
    var parsed := ParseFrames(filled, t.maxFrames);
    assert RxStep(st, t) == RxState(parsed.1, [], st.events + parsed.0);
  }

  lemma {:induction false} ParseFinishes(buf: seq<byte>, maxFrames: nat)
    requires Good(buf) && 2 * maxFrames >= |buf|
    ensures ParseFrames(buf, maxFrames).0 == DecodeAll(buf)
    decreases maxFrames
  {
    hide FrameHead, HeadEvent;
    if maxFrames == 0 {
      NothingDecodes(buf);
    } else if FrameHead(buf).Whole? {
      ParseFinishes(buf[FrameHead(buf).total..], maxFrames - 1);
    }
  }

  lemma NothingDecodes(buf: seq<byte>)
    requires buf == []
    ensures FrameHead(buf) == Incomplete && DecodeAll(buf) == []
  {
  }

  // ---- Packet identifiers --------------------------------------------------

  /** The subscribes of a run that reach the builder. */
  function Numbered(st: TxState, ops: seq<TxOp>): nat
    requires st.Valid() && forall op <- ops :: InRange(op)
    decreases |ops|
  {
    if ops == [] then 0
    else
      (if ops[0].Subscribe? && st.pending == [] && st.online && ops[0].topic != [] then 1 else 0)
      + Numbered(TxStep(st, ops[0]), ops[1..])
  }

  /** Identifiers count the subscribes modulo 2^16. */
  lemma {:induction false} IdsCount(st: TxState, ops: seq<TxOp>)
    requires st.Valid() && forall op <- ops :: InRange(op)
    ensures TxRun(st, ops).nextPacketId == (st.nextPacketId + Numbered(st, ops)) % 0x1_0000
    decreases |ops|
  {
    hide InRange, TxStep;
    if ops != [] {
      StepId(st, ops[0]);
      IdsCount(TxStep(st, ops[0]), ops[1..]);
    }
  }

  lemma StepId(st: TxState, op: TxOp)
    requires st.Valid() && InRange(op)
    ensures TxStep(st, op).nextPacketId == NextPacketId(st, op)
  {
    hide StagedBy, Drained;
  }

  /** A new client numbers from 1. The identifier 0, which section 2.3.1 of MQTT 3.1.1 forbids, is the next one exactly
      after 65535 subscribes, or that many and any multiple of 65536 more. */
  lemma IdIsZeroExactly(ops: seq<TxOp>)
    requires forall op <- ops :: InRange(op)
    ensures var start := TxState(false, 1, [], [], []);
            TxRun(start, ops).nextPacketId == 0 <==> Numbered(start, ops) % 0x1_0000 == 65535
  {
    hide InRange, TxStep;
    IdsCount(TxState(false, 1, [], [], []), ops);
  }
}
