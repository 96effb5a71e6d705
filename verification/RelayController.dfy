/** The relay driver: one bit per relay, the time each was switched on, and the on-time limits. */
module RelayController {
  import opened Bytes
  import opened ProgramTypes

  /** `1 << i`. */
  function BitOf(i: nat): bv8
    requires i < RELAYS
  {
    if i == 0 then 0x01 else if i == 1 then 0x02 else if i == 2 then 0x04 else if i == 3 then 0x08 else 0x10
  }

  function HasBit(m: bv8, i: nat): bool
    requires i < RELAYS
  {
    m & BitOf(i) != 0
  }

  /** The relays a mask switches on. */
  function Bits(m: bv8): (r: seq<bool>)
    ensures |r| == RELAYS
  {
    [HasBit(m, 0), HasBit(m, 1), HasBit(m, 2), HasBit(m, 3), HasBit(m, 4)]
  }

  predicate OneOf(b: bv8) { b == 0x01 || b == 0x02 || b == 0x04 || b == 0x08 || b == 0x10 }

  lemma OneBit(m: bv8, b: bv8, c: bv8)
    requires OneOf(b) && OneOf(c)
    ensures (m | b) & c != 0 <==> b == c || m & c != 0
    ensures (m & !b) & c != 0 <==> b != c && m & c != 0
  {
  }

  lemma BitsDiffer(i: nat, k: nat)
    requires i < RELAYS && k < RELAYS
    ensures OneOf(BitOf(i))
    ensures BitOf(i) == BitOf(k) <==> i == k
  {
  }

  lemma BitAfter(m: bv8, i: nat, k: nat)
    requires i < RELAYS && k < RELAYS
    ensures HasBit(m | BitOf(i), k) == (k == i || HasBit(m, k))
    ensures HasBit(m & !BitOf(i), k) == (k != i && HasBit(m, k))
  {
    hide BitOf;
    BitsDiffer(i, k);
    BitsDiffer(k, i);
    OneBit(m, BitOf(i), BitOf(k));
  }

  /** Setting or clearing one bit changes that relay and no other. */
  lemma BitOps(m: bv8, i: nat)
    requires i < RELAYS
    ensures Bits(m | BitOf(i)) == Bits(m)[i := true] && Bits(m & !BitOf(i)) == Bits(m)[i := false]
  {
    BitSet(m, i);
    BitClear(m, i);
  }

  lemma BitSet(m: bv8, i: nat)
    requires i < RELAYS
    ensures Bits(m | BitOf(i)) == Bits(m)[i := true]
  {
    hide HasBit, BitOf;
    BitAfter(m, i, 0);
    BitAfter(m, i, 1);
    BitAfter(m, i, 2);
    BitAfter(m, i, 3);
    BitAfter(m, i, 4);
  }

  lemma BitClear(m: bv8, i: nat)
    requires i < RELAYS
    ensures Bits(m & !BitOf(i)) == Bits(m)[i := false]
  {
    hide HasBit, BitOf;
    BitAfter(m, i, 0);
    BitAfter(m, i, 1);
    BitAfter(m, i, 2);
    BitAfter(m, i, 3);
    BitAfter(m, i, 4);
  }

  /** The bits above the last relay stay clear. */
  lemma StaysSmall(m: bv8, i: nat)
    requires i < RELAYS && m < 32
    ensures m | BitOf(i) < 32 && m & !BitOf(i) < 32
  {
  }

  class Controller {
    var mask: bv8
    var maxOnTime: seq<nat>     // 0 is no limit
    var turnOnTime: seq<nat>

    ghost predicate Valid()
      reads this
    {
      mask < 32 && |maxOnTime| == |turnOnTime| == RELAYS
    }

    /** The state of every relay. */
    ghost function View(): (v: seq<bool>)
      reads this
      ensures |v| == RELAYS
    {
      Bits(mask)
    }

    constructor ()
      ensures Valid() && View() == [false, false, false, false, false] && maxOnTime == [0, 0, 0, 0, 0]
    {
      assert forall i | 0 <= i < RELAYS :: !HasBit(0, i);
      mask, maxOnTime, turnOnTime := 0, [0, 0, 0, 0, 0], [0, 0, 0, 0, 0];
    }

    method SetRelay(relay: nat, on: bool, now: nat)
      requires Valid()
      modifies this`mask, this`turnOnTime
      ensures Valid()
      ensures relay >= RELAYS ==> View() == old(View()) && turnOnTime == old(turnOnTime)
      ensures relay < RELAYS ==> View() == old(View())[relay := on]
      ensures relay < RELAYS ==> turnOnTime == old(turnOnTime)[relay := if on then now else 0]
    {
      if relay >= RELAYS {
        return;
      }
      BitOps(mask, relay);
      StaysSmall(mask, relay);
      hide HasBit, BitOf;
      if on {
        mask := mask | BitOf(relay);
        turnOnTime := turnOnTime[relay := now];
      } else {
        mask := mask & !BitOf(relay);
        turnOnTime := turnOnTime[relay := 0];
      }
    }

    method GetState(relay: nat) returns (on: bool)
      requires Valid()
      ensures on == (relay < RELAYS && View()[relay])
    {
      if relay >= RELAYS {
        return false;
      }
      on := mask & BitOf(relay) != 0;
    }

    method Toggle(relay: nat, now: nat)
      requires Valid()
      modifies this`mask, this`turnOnTime
      ensures Valid()
      ensures View() == if relay < RELAYS then old(View())[relay := !old(View())[relay]] else old(View())
    {
      if relay >= RELAYS {
        return;
      }
      var on := GetState(relay);
      SetRelay(relay, !on, now);
    }

    method AllOff(now: nat)
      requires Valid()
      modifies this`mask, this`turnOnTime
      ensures Valid() && View() == [false, false, false, false, false]
    {
      var i := 0;
      while i < RELAYS
        invariant 0 <= i <= RELAYS && Valid()
        invariant forall k | 0 <= k < i :: !View()[k]
      {
        SetRelay(i, false, now);
        i := i + 1;
      }
    }

    /** Only relays that differ are switched. */
    method SetMask(wanted: bv8, now: nat)
      requires Valid()
      modifies this`mask, this`turnOnTime
      ensures Valid() && View() == Bits(wanted)
      ensures forall k | 0 <= k < RELAYS && old(View())[k] == Bits(wanted)[k] :: turnOnTime[k] == old(turnOnTime)[k]
    {
      hide HasBit;
      var i := 0;
      while i < RELAYS
        invariant 0 <= i <= RELAYS && Valid()
        invariant forall k | 0 <= k < i :: View()[k] == Bits(wanted)[k]
        invariant forall k | i <= k < RELAYS :: View()[k] == old(View())[k] && turnOnTime[k] == old(turnOnTime)[k]
        invariant forall k | 0 <= k < i && old(View())[k] == Bits(wanted)[k] :: turnOnTime[k] == old(turnOnTime)[k]
      {
        var on := HasBit(wanted, i);
        var state := GetState(i);
        if state != on {
          SetRelay(i, on, now);
        }
        i := i + 1;
      }
    }

    /** Switches off exactly the relays that are over their limit, and none on; the starter relay counts only
        while a starter step runs. */
    method CheckSafety(now: nat, starterRelayId: nat, starterActive: bool) returns (timeouts: nat)
      requires Valid()
      modifies this`mask, this`turnOnTime
      ensures Valid()
      ensures var starter := if starterActive then None else RelayIndex(starterRelayId);
              forall k | 0 <= k < RELAYS ::
                View()[k] == (old(View())[k] && (starter == Some(k) || !Expired(old(turnOnTime)[k], maxOnTime[k], now)))
      ensures timeouts == 0 <==> View() == old(View())
    {
      hide HasBit, Expired;
      timeouts := 0;
      var exempt := if starterActive then None else RelayIndex(starterRelayId);
      ghost var before, times := View(), turnOnTime;
      var i := 0;
      while i < RELAYS
        invariant 0 <= i <= RELAYS && Valid()
        invariant forall k | 0 <= k < i ::
                    View()[k] == (before[k] && (exempt == Some(k) || !Expired(times[k], maxOnTime[k], now)))
        invariant forall k | i <= k < RELAYS :: View()[k] == before[k] && turnOnTime[k] == times[k]
        invariant timeouts == 0 ==> View() == before
        invariant timeouts > 0 ==> exists k | 0 <= k < i :: before[k] && !View()[k]
      {
        var on := GetState(i);
        if exempt != Some(i) && on && Expired(turnOnTime[i], maxOnTime[i], now) {
          SetRelay(i, false, now);
          timeouts := timeouts + 1;
          assert before[i] && !View()[i];
        }
        i := i + 1;
      }
    }
  }

  predicate Expired(onSince: nat, limit: nat, now: nat) {
    limit > 0 && Since(now, onSince) > limit
  }

  /** A relay is over its limit exactly when it has one and has been on for longer, by unbounded time across clock
      wraps. */
  lemma ExpiresOnTime(onSince: nat, limit: nat, now: nat)
    requires onSince <= now < onSince + 0x1_0000_0000
    ensures Expired(Millis(onSince), limit, Millis(now)) <==> limit > 0 && now > onSince + limit
  {
    SinceIsElapsed(onSince, now);
    hide Since;
  }

  /** Which relay each bit of the mask switches. */
  lemma BitsByMask(m: bv8)
    ensures Bits(m) == [m & 1 != 0, m & 2 != 0, m & 4 != 0, m & 8 != 0, m & 16 != 0]
  {
  }
}
