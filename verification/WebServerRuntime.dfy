/** The web server's session bookkeeping, updating the slots in place. */
module WebServerRuntime {
  import opened Bytes
  import opened UiSessions

  class WebServer {
    const uiSessions: array<Slot>
    var activeUiSessionCount: nat
    var lastUiActivityMs: nat

    ghost predicate Valid()
      reads this, uiSessions
    {
      uiSessions.Length == SLOTS && Inv(uiSessions[..]) && activeUiSessionCount == Count(uiSessions[..])
    }

    constructor ()
      ensures Valid() && fresh(uiSessions) && uiSessions[..] == Empty()
    {
      uiSessions := new Slot[SLOTS](_ => FreeSlot);
      activeUiSessionCount, lastUiActivityMs := 0, 0;
      new;
      assert uiSessions[..] == Empty();
      NoneActive(uiSessions[..]);
    }

    /** The active count is recomputed from the slots. */
    method RebuildActiveUiSessionCount()
      modifies this`activeUiSessionCount
      ensures activeUiSessionCount == Count(uiSessions[..])
    {
      var count := 0;
      for i := 0 to uiSessions.Length
        invariant count == Count(uiSessions[..i])
      {
        CountSnoc(uiSessions[..i], uiSessions[i]);
        assert uiSessions[..i + 1] == uiSessions[..i] + [uiSessions[i]];
        if uiSessions[i].active {
          count := count + 1;
        }
      }
      assert uiSessions[..uiSessions.Length] == uiSessions[..];
      activeUiSessionCount := count;
    }

    /** One pass finds the client's slot, the first free slot and the oldest slot. */
    method TouchUiSession(id: nat, now: nat) returns (ok: bool)
      requires Valid()
      modifies this`activeUiSessionCount, this`lastUiActivityMs, uiSessions
      ensures Valid() && ok == (id != 0)
      ensures uiSessions[..] == if id == 0 then old(uiSessions[..]) else Touch(old(uiSessions[..]), id, now)
      ensures lastUiActivityMs == if id == 0 then old(lastUiActivityMs) else now
    {
      if id == 0 {
        return false;
      }
      ghost var before := uiSessions[..];
      TouchServes(before, id, now);
      lastUiActivityMs := now;
      var freeIdx, oldestIdx, oldestAge := -1, -1, 0;
      var i := 0;
      while i < SLOTS
        invariant i <= SLOTS && uiSessions[..] == before && Valid()
        invariant Find(before, id, i) == None
        invariant freeIdx == match FirstFree(before, i) case None => -1 case Some(f) => f
        invariant i == 0 ==> oldestIdx == -1
        invariant i > 0 ==> oldestIdx == Oldest(before, now, i) && oldestAge == Age(before, Oldest(before, now, i), now)
      {
        var session := uiSessions[i];
        assert session == before[i];
        if session.active && session.id == id {
          FindStays(before, id, i + 1, SLOTS);
          uiSessions[i] := session.(lastSeen := now);
          assert uiSessions[..] == Touch(before, id, now);
          SameCount(before, uiSessions[..]);
          return true;
        }
        if !session.active && freeIdx < 0 {
          freeIdx := i;
        }
        var age := Since(now, session.lastSeen);
        if oldestIdx < 0 || age > oldestAge {
          oldestIdx, oldestAge := i, age;
        }
        i := i + 1;
      }
      var idx := if freeIdx >= 0 then freeIdx else oldestIdx;
      assert idx == Target(before, id, now);
      uiSessions[idx] := Slot(true, id, now);
      assert uiSessions[..] == Touch(before, id, now);
      RebuildActiveUiSessionCount();
      ok := true;
    }

    /** Reports whether a session was closed. */
    method CloseUiSession(id: nat) returns (ok: bool)
      requires Valid()
      modifies this`activeUiSessionCount, uiSessions
      ensures Valid() && ok == (id != 0 && Holds(old(uiSessions[..]), id))
      ensures uiSessions[..] == if id == 0 then old(uiSessions[..]) else Close(old(uiSessions[..]), id)
    {
      if id == 0 {
        return false;
      }
      ghost var before := uiSessions[..];
      CloseKeeps(before, id);
      var i := 0;
      while i < SLOTS
        invariant i <= SLOTS && uiSessions[..] == before && Valid()
        invariant Find(before, id, i) == None
      {
        var session := uiSessions[i];
        assert session == before[i];
        if session.active && session.id == id {
          FindStays(before, id, i + 1, SLOTS);
          uiSessions[i] := FreeSlot;
          assert uiSessions[..] == Close(before, id);
          RebuildActiveUiSessionCount();
          return true;
        }
        i := i + 1;
      }
      ok := false;
    }

    /** Expires old sessions; `clients` and `queued` are what the event stream shows when the last one is gone, and the
        result tells whether the stream is closed then. */
    method ProcessUiSessions(now: nat, clients: nat, queued: nat) returns (closes: bool)
      requires Valid()
      modifies this`activeUiSessionCount, uiSessions
      ensures Valid() && uiSessions[..] == Expire(old(uiSessions[..]), now)
      ensures closes <==> Count(old(uiSessions[..])) > 0 && Count(uiSessions[..]) == 0 && (clients > 0 || queued > 0)
    {
      ghost var before := uiSessions[..];
      ghost var after := Expire(before, now);
      ExpireKeeps(before, now);
      var changed := false;
      var i := 0;
      while i < SLOTS
        invariant i <= SLOTS && |before| == SLOTS == |after|
        invariant uiSessions[..i] == after[..i] && uiSessions[i..] == before[i..]
        invariant !changed ==> uiSessions[..] == before
        invariant activeUiSessionCount == old(activeUiSessionCount)
      {
        var session := uiSessions[i];
        assert session == uiSessions[i..][0] == before[i];
        if session.active && Since(now, session.lastSeen) >= TIMEOUT_MS {
          uiSessions[i] := FreeSlot;
          changed := true;
        }
        assert uiSessions[i] == after[i];
        assert uiSessions[..i + 1] == after[..i + 1];
        assert uiSessions[i + 1..] == before[i + 1..];
        i := i + 1;
      }
      assert uiSessions[..] == after;
      closes := false;
      if changed {
        var prev := activeUiSessionCount;
        RebuildActiveUiSessionCount();
        if prev > 0 && activeUiSessionCount == 0 {
          closes := clients > 0 || queued > 0;
        }
      }
    }
  }

  lemma {:induction false} CountSnoc(t: Table, s: Slot)
    ensures Count(t + [s]) == Count(t) + if s.active then 1 else 0
  {
    if t == [] {
      assert t + [s] == [s];
    } else {
      CountSnoc(t[1..], s);
      assert (t + [s])[1..] == t[1..] + [s];
    }
  }

  lemma {:induction false} NoneActive(t: Table)
    requires forall i | 0 <= i < |t| :: !t[i].active
    ensures Count(t) == 0
  {
    if t != [] {
      NoneActive(t[1..]);
    }
  }

  lemma {:induction false} SameCount(a: Table, b: Table)
    requires |a| == |b| && forall i | 0 <= i < |a| :: a[i].active == b[i].active
    ensures Count(a) == Count(b)
  {
    if a != [] {
      SameCount(a[1..], b[1..]);
    }
  }

  /** Looking further does not change what was found. */
  lemma {:induction false} FindStays(t: Table, id: nat, n: nat, m: nat)
    requires n <= m <= |t| && Find(t, id, n).Some?
    ensures Find(t, id, m) == Find(t, id, n)
    decreases m
  {
    if n < m {
      FindStays(t, id, n, m - 1);
    }
  }
}
