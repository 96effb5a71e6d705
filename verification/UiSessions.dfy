/** The table of web UI sessions: a fixed pool of slots that is an LRU cache of client ids. */
module UiSessions {
  import opened Bytes

  const SLOTS := 4
  const TIMEOUT_MS := 60000

  datatype Slot = Slot(active: bool, id: nat, lastSeen: nat)

  const FreeSlot := Slot(false, 0, 0)

  type Table = seq<Slot>

  /** Active ids are nonzero and distinct. */
  predicate Inv(t: Table) {
    && |t| == SLOTS
    && (forall i | 0 <= i < |t| :: t[i].active ==> t[i].id != 0)
    && (forall i, j | 0 <= i < j < |t| :: t[i].active && t[j].active ==> t[i].id != t[j].id)
  }

  function Count(t: Table): nat {
    if t == [] then 0 else (if t[0].active then 1 else 0) + Count(t[1..])
  }

  function Age(t: Table, i: nat, now: nat): nat
    requires i < |t|
  {
    Since(now, t[i].lastSeen)
  }

  predicate Holds(t: Table, id: nat) { exists i | 0 <= i < |t| :: t[i].active && t[i].id == id }

  /** The first active slot of an id among the first `n`. */
  function Find(t: Table, id: nat, n: nat): (r: Option<nat>)
    requires n <= |t|
    ensures r.Some? ==> r.value < n && t[r.value].active && t[r.value].id == id
    ensures r.None? ==> forall i | 0 <= i < n :: !(t[i].active && t[i].id == id)
  {
    if n == 0 then None
    else
      match Find(t, id, n - 1)
      case Some(i) => Some(i)
      case None => if t[n - 1].active && t[n - 1].id == id then Some(n - 1) else None
  }

  function FirstFree(t: Table, n: nat): (r: Option<nat>)
    requires n <= |t|
    ensures r.Some? ==> r.value < n && !t[r.value].active
    ensures r.None? ==> forall i | 0 <= i < n :: t[i].active
  {
    if n == 0 then None
    else
      match FirstFree(t, n - 1)
      case Some(i) => Some(i)
      case None => if !t[n - 1].active then Some(n - 1) else None
  }

  /** A slot of greatest age among the first `n`. */
  function Oldest(t: Table, now: nat, n: nat): (r: nat)
    requires 0 < n <= |t|
    ensures r < n && forall i | 0 <= i < n :: Age(t, i, now) <= Age(t, r, now)
  {
    if n == 1 then 0
    else
      var o := Oldest(t, now, n - 1);
      if Age(t, n - 1, now) > Age(t, o, now) then n - 1 else o
  }

  /** The slot a touch writes: the client's own, else the first free one, else the oldest. */
  function Target(t: Table, id: nat, now: nat): (r: nat)
    requires |t| == SLOTS
    ensures r < SLOTS
  {
    match Find(t, id, |t|)
    case Some(i) => i
    case None =>
      match FirstFree(t, |t|)
      case Some(f) => f
      case None => Oldest(t, now, |t|)
  }

  function Touch(t: Table, id: nat, now: nat): (r: Table)
    requires |t| == SLOTS
    ensures |r| == SLOTS
  {
    var i := Target(t, id, now);
    t[i := Slot(true, id, now)]
  }

  function Close(t: Table, id: nat): (r: Table)
    requires |t| == SLOTS
    ensures |r| == SLOTS
  {
    match Find(t, id, |t|)
    case Some(i) => t[i := FreeSlot]
    case None => t
  }

  predicate IsExpired(s: Slot, now: nat) { s.active && Since(now, s.lastSeen) >= TIMEOUT_MS }

  function Expire(t: Table, now: nat): (r: Table)
    ensures |r| == |t|
    ensures forall i | 0 <= i < |t| :: r[i] == if IsExpired(t[i], now) then FreeSlot else t[i]
  {
    if t == [] then [] else [if IsExpired(t[0], now) then FreeSlot else t[0]] + Expire(t[1..], now)
  }

  // ---- Invariants ----------------------------------------------------------

  /** Touching keeps the ids distinct, serves its id at once, disturbs no other session while a slot is free or the
      id is known, and otherwise evicts exactly one session of greatest age. */
  lemma TouchServes(t: Table, id: nat, now: nat)
    requires Inv(t) && id != 0
    ensures var r := Touch(t, id, now);
            && Inv(r)
            && (exists i | 0 <= i < SLOTS :: r[i] == Slot(true, id, now))
            && (Holds(t, id) || Count(t) < SLOTS ==>
                  forall i | 0 <= i < SLOTS && t[i].active && t[i].id != id :: r[i] == t[i])
            && (!Holds(t, id) && Count(t) == SLOTS ==>
                  exists e | 0 <= e < SLOTS ::
                    && r == t[e := Slot(true, id, now)]
                    && forall i | 0 <= i < SLOTS :: Age(t, i, now) <= Age(t, e, now))
  {
    FullIffAllActive(t);
    var i := Target(t, id, now);
    assert Touch(t, id, now)[i] == Slot(true, id, now);
  }

  lemma {:induction false} FullIffAllActive(t: Table)
    ensures Count(t) <= |t|
    ensures Count(t) == |t| <==> forall i | 0 <= i < |t| :: t[i].active
  {
    if t != [] {
      FullIffAllActive(t[1..]);
      assert forall i | 1 <= i < |t| :: t[i] == t[1..][i - 1];
      if forall i | 0 <= i < |t| :: t[i].active {
        assert forall i | 0 <= i < |t[1..]| :: t[1..][i].active;
        assert t[0].active;
      }
    }
  }

  lemma CloseKeeps(t: Table, id: nat)
    requires Inv(t)
    ensures Inv(Close(t, id)) && !Holds(Close(t, id), id)
    ensures forall k | k != id :: Holds(Close(t, id), k) <==> Holds(t, k)
  {
    var r := Close(t, id);
    forall k | k != id && Holds(t, k)
      ensures Holds(r, k)
    {
      var i :| 0 <= i < |t| && t[i].active && t[i].id == k;
      assert r[i] == t[i];
    }
  }

  lemma ExpireKeeps(t: Table, now: nat)
    requires Inv(t)
    ensures Inv(Expire(t, now))
  {
  }

  // ---- An LRU cache --------------------------------------------------------

  /** Sessions by id, with the unbounded time each was last touched. */
  type Times = map<nat, nat>

  /** The table shows these sessions through the 32-bit clock. */
  ghost predicate Shows(t: Table, m: Times) {
    && Inv(t)
    && (forall i | 0 <= i < |t| && t[i].active :: t[i].id in m && t[i].lastSeen == Millis(m[t[i].id]))
    && (forall id | id in m :: Holds(t, id))
  }

  /** Every session was touched less than a clock period before `now`. */
  ghost predicate Timely(m: Times, now: nat) {
    forall a | a in m :: m[a] <= now < m[a] + WORD
  }

  ghost predicate IsOldest(m: Times, o: nat) {
    o in m && forall a | a in m :: m[o] <= m[a]
  }

  /** The cache `m` with `id` touched at `now`, after evicting `o`. */
  function Replace(m: Times, o: nat, id: nat, now: nat): Times { (m - {o})[id := now] }

  /** What an LRU cache of four does on a touch. */
  ghost predicate LruStep(m: Times, id: nat, now: nat, m': Times) {
    if id in m || |m| < SLOTS then m' == m[id := now]
    else exists o: nat :: IsOldest(m, o) && m' == Replace(m, o, id, now)
  }

  lemma {:induction false} CountIsSize(t: Table, ids: set<nat>)
    requires forall i, j | 0 <= i < j < |t| :: t[i].active && t[j].active ==> t[i].id != t[j].id
    requires forall k: nat :: k in ids <==> Holds(t, k)
    ensures Count(t) == |ids|
    decreases |t|
  {
    if t == [] {
      assert forall k: nat :: !Holds(t, k);
      assert ids == {};
    } else {
      var rest := t[1..];
      var others := if t[0].active then ids - {t[0].id} else ids;
      forall k: nat
        ensures k in others <==> Holds(rest, k)
      {
        HoldsSplit(t, k);
        assert !(t[0].active && Holds(rest, t[0].id));
      }
      CountIsSize(rest, others);
      HoldsSplit(t, t[0].id);
      assert t[0].active ==> ids == others + {t[0].id};
    }
  }

  lemma HoldsSplit(t: Table, k: nat)
    requires t != []
    ensures Holds(t, k) <==> (t[0].active && t[0].id == k) || Holds(t[1..], k)
  {
    if Holds(t, k) {
      var i :| 0 <= i < |t| && t[i].active && t[i].id == k;
      assert i > 0 ==> t[1..][i - 1] == t[i];
    }
    if Holds(t[1..], k) {
      var i :| 0 <= i < |t[1..]| && t[1..][i].active && t[1..][i].id == k;
      assert t[i + 1] == t[1..][i];
    }
  }

  /** The table refines the LRU cache as long as no session is older than a clock period. */
  lemma TouchIsLru(t: Table, m: Times, id: nat, now: nat) returns (m': Times)
    requires Shows(t, m) && Timely(m, now) && id != 0
    ensures Shows(Touch(t, id, Millis(now)), m') && LruStep(m, id, now, m')
  {
    hide Count, Age, Millis;
    CountIsSize(t, m.Keys);
    assert |m| == |m.Keys|;
    FullIffAllActive(t);
    var i := Target(t, id, Millis(now));
    if Holds(t, id) || !t[i].active {
      m' := m[id := now];
      ShownBeside(t, m, i, id, now);
    } else {
      var o := t[i].id;
      OldestByTime(t, m, i, now);
      m' := Replace(m, o, id, now);
      ShownInstead(t, m, i, id, now);
    }
  }

  lemma OldestByTime(t: Table, m: Times, e: nat, now: nat)
    requires Shows(t, m) && Timely(m, now) && e < |t| && forall i | 0 <= i < |t| :: t[i].active
    requires forall i | 0 <= i < |t| :: Age(t, i, Millis(now)) <= Age(t, e, Millis(now))
    ensures IsOldest(m, t[e].id)
  {
    hide Millis, Since;
    forall a | a in m
      ensures m[t[e].id] <= m[a]
    {
      var i :| 0 <= i < |t| && t[i].active && t[i].id == a;
      assert Age(t, i, Millis(now)) <= Age(t, e, Millis(now));
      SinceIsElapsed(m[a], now);
      SinceIsElapsed(m[t[e].id], now);
    }
  }

  /** Writing a touched id over its own slot, or into a free one, adds it to what the table shows. */
  lemma ShownBeside(t: Table, m: Times, i: nat, id: nat, now: nat)
    requires Shows(t, m) && i < |t| && id != 0
    requires forall j | 0 <= j < |t| && j != i :: !(t[j].active && t[j].id == id)
    requires t[i].active ==> t[i].id == id
    ensures Shows(t[i := Slot(true, id, Millis(now))], m[id := now])
  {
    hide Millis;
    var r, m' := t[i := Slot(true, id, Millis(now))], m[id := now];
    forall k | k in m'
      ensures Holds(r, k)
    {
      if k == id {
        assert r[i].id == k;
      } else {
        var j :| 0 <= j < |t| && t[j].active && t[j].id == k;
        assert r[j] == t[j];
      }
    }
  }

  /** Writing a new id over an active slot replaces that slot's session. */
  lemma ShownInstead(t: Table, m: Times, i: nat, id: nat, now: nat)
    requires Shows(t, m) && i < |t| && id != 0 && t[i].active && !Holds(t, id)
    ensures Shows(t[i := Slot(true, id, Millis(now))], Replace(m, t[i].id, id, now))
  {
    hide Millis;
    var r, m' := t[i := Slot(true, id, Millis(now))], Replace(m, t[i].id, id, now);
    forall k | k in m'
      ensures Holds(r, k)
    {
      if k == id {
        assert r[i].id == k;
      } else {
        var j :| 0 <= j < |t| && t[j].active && t[j].id == k;
        assert r[j] == t[j];
      }
    }
  }

  /** Closing a session removes exactly that id. */
  lemma CloseRemoves(t: Table, m: Times, id: nat)
    requires Shows(t, m)
    ensures Shows(Close(t, id), m - {id})
  {
    hide Millis;
    CloseKeeps(t, id);
  }

  /** Expiry keeps exactly the sessions touched less than a minute ago. */
  lemma ExpireRemoves(t: Table, m: Times, now: nat)
    requires Shows(t, m) && Timely(m, now)
    ensures Shows(Expire(t, Millis(now)), Recent(m, now))
  {
    hide Millis, Since;
    var r := Expire(t, Millis(now));
    ExpireKeeps(t, Millis(now));
    forall i | 0 <= i < |t| && t[i].active
      ensures r[i].active <==> now - m[t[i].id] < TIMEOUT_MS
    {
      SinceIsElapsed(m[t[i].id], now);
    }
    forall k | k in m && now - m[k] < TIMEOUT_MS
      ensures Holds(r, k)
    {
      var j :| 0 <= j < |t| && t[j].active && t[j].id == k;
      assert r[j] == t[j];
    }
  }

  /** The table has four slots, and a sweep frees exactly the ones not touched for a minute, by unbounded time. */
  lemma MinuteAndFour(t: Table, i: nat, seen: nat, now: nat)
    requires Inv(t) && i < |t| && t[i].active && t[i].lastSeen == Millis(seen) && seen <= now < seen + 0x1_0000_0000
    ensures |t| == 4
    ensures Expire(t, Millis(now))[i] == if now - seen < 60000 then t[i] else Slot(false, 0, 0)
  {
    SinceIsElapsed(seen, now);
    hide Since;
  }

  // ---- The four most recent ------------------------------------------------

  function Newer(last: Times, id: nat): set<nat>
    requires id in last
  {
    set y | y in last && last[y] > last[id]
  }

  /** Fewer than four ids were touched more recently. */
  predicate InTop(last: Times, id: nat) { id in last && |Newer(last, id)| < SLOTS }

  /** The cache holds the four most recently touched ids of the history `last`, each with its last touch. */
  ghost predicate IsTopFour(last: Times, m: Times) {
    && (forall id: nat :: id in m <==> InTop(last, id))
    && (forall id | id in m :: m[id] == last[id])
  }

  ghost predicate Distinct(m: Times) { forall a, b | a in m && b in m && a != b :: m[a] != m[b] }

  lemma {:induction false} SubsetSize(a: set<nat>, b: set<nat>)
    requires a <= b
    ensures |a| <= |b|
    decreases b
  {
    if a != b {
      var x :| x in b && x !in a;
      SubsetSize(a, b - {x});
    }
  }

  /** More recent ids of a top-four id are top-four too. */
  lemma NewerAreTop(last: Times, m: Times, id: nat)
    requires IsTopFour(last, m) && id in m
    ensures Newer(last, id) + {id} <= m.Keys
    ensures |Newer(last, id)| + 1 <= |m|
  {
    forall y | y in Newer(last, id)
      ensures y in m
    {
      SubsetSize(Newer(last, y), Newer(last, id));
      assert InTop(last, y);
    }
    SubsetSize(Newer(last, id) + {id}, m.Keys);
    assert |Newer(last, id) + {id}| == |Newer(last, id)| + 1;
    assert |m| == |m.Keys|;
  }

  /** The oldest cached id has every other cached id ahead of it, so the cache never holds more than four. */
  lemma OldestIsLast(last: Times, m: Times, o: nat)
    requires Distinct(last) && IsTopFour(last, m) && IsOldest(m, o)
    ensures m.Keys == Newer(last, o) + {o} && |Newer(last, o)| + 1 == |m| <= SLOTS
  {
    hide InTop;
    InHistory(last, m, o);
    NewerAreTop(last, m, o);
    forall k | k in m
      ensures k in Newer(last, o) + {o}
    {
      assert m[o] <= m[k];
      InHistory(last, m, k);
    }
    assert m.Keys == Newer(last, o) + {o};
    assert |m.Keys| == |Newer(last, o)| + 1;
    assert InTop(last, o);
    TopRank(last, o);
    assert |m| == |m.Keys|;
  }

  /** An LRU step over the whole touch history leaves the four most recent ids again. */
  lemma LruKeepsTopFour(last: Times, m: Times, id: nat, now: nat, m': Times)
    requires Distinct(last) && (forall a | a in last :: last[a] < now)
    requires IsTopFour(last, m) && LruStep(m, id, now, m')
    ensures IsTopFour(last[id := now], m')
  {
    hide InTop, IsOldest;
    var after := last[id := now];
    assert InTop(after, id) by { NewestIsTop(last, id, now); }
    forall y: nat
      ensures y in m' <==> InTop(after, y)
    {
      if y in last && y != id {
        if id in Newer(last, y) {
          StaysWhenKnown(last, m, id, now, m', y);
        } else {
          MovesDown(last, m, id, now, m', y);
        }
      } else if y != id {
        assert !InTop(last, y) && !InTop(after, y) by { NotInTop(last, y); NotInTop(after, y); }
      }
    }
  }

  lemma NotInTop(last: Times, y: nat)
    requires y !in last
    ensures !InTop(last, y)
  {
  }

  lemma NewestIsTop(last: Times, id: nat, now: nat)
    requires forall a | a in last :: last[a] < now
    ensures InTop(last[id := now], id)
  {
    assert Newer(last[id := now], id) == {};
  }

  /** An id behind the touched one keeps its place. */
  lemma StaysWhenKnown(last: Times, m: Times, id: nat, now: nat, m': Times, y: nat)
    requires IsTopFour(last, m) && LruStep(m, id, now, m') && (forall a | a in last :: last[a] < now)
    requires y in last && y != id && id in Newer(last, y)
    ensures y in m' <==> InTop(last[id := now], y)
  {
    assert Newer(last[id := now], y) == Newer(last, y);
    if y in m {
      NewerAreTop(last, m, y);
    }
  }

  lemma RankAfter(last: Times, id: nat, now: nat, y: nat)
    requires forall a | a in last :: last[a] < now
    requires y in last && y != id && id !in Newer(last, y)
    ensures InTop(last[id := now], y) <==> |Newer(last, y)| + 1 < SLOTS
  {
    assert Newer(last[id := now], y) == Newer(last, y) + {id};
  }

  /** Ranks grow along the history. */
  lemma RankBelow(last: Times, y: nat, z: nat)
    requires y in last && z in last && last[z] < last[y]
    ensures |Newer(last, y)| + 1 <= |Newer(last, z)|
  {
    SubsetSize(Newer(last, y) + {y}, Newer(last, z));
    assert |Newer(last, y) + {y}| == |Newer(last, y)| + 1;
  }

  /** An id ahead of the touched one falls one place, and leaves exactly when it was the fourth. */
  lemma MovesDown(last: Times, m: Times, id: nat, now: nat, m': Times, y: nat)
    requires Distinct(last) && IsTopFour(last, m) && LruStep(m, id, now, m') && (forall a | a in last :: last[a] < now)
    requires y in last && y != id && id !in Newer(last, y)
    ensures y in m' <==> InTop(last[id := now], y)
  {
    RankAfter(last, id, now, y);
    assert y in m <==> |Newer(last, y)| < SLOTS;
    if id in m {
      assert last[y] > last[id];
      RankBelow(last, y, id);
    } else if y in m {
      NewerAreTop(last, m, y);
      if |m| >= SLOTS {
        EvictsTheFourth(last, m, id, now, m', y);
      }
    }
  }

  /** A full cache evicts its fourth id. */
  lemma EvictsTheFourth(last: Times, m: Times, id: nat, now: nat, m': Times, y: nat)
    requires Distinct(last) && IsTopFour(last, m) && LruStep(m, id, now, m') && id !in m && |m| >= SLOTS
    requires y in m && y != id
    ensures y in m' <==> |Newer(last, y)| + 1 < SLOTS
  {
    hide InTop, Newer;
    var o: nat :| IsOldest(m, o) && m' == Replace(m, o, id, now);
    OldestIsLast(last, m, o);
    if y != o {
      InHistory(last, m, y);
      InHistory(last, m, o);
      assert last[y] != last[o];
      RankBelow(last, y, o);
    }
  }

  lemma TopRank(last: Times, y: nat)
    requires InTop(last, y)
    ensures |Newer(last, y)| < SLOTS
  {
  }

  lemma InHistory(last: Times, m: Times, y: nat)
    requires IsTopFour(last, m) && y in m
    ensures y in last && last[y] == m[y]
  {
  }

  /** When each id was last touched in a run of touches. */
  function History(touches: seq<(nat, nat)>): Times {
    if touches == [] then map[]
    else var n := |touches| - 1; History(touches[..n])[touches[n].0 := touches[n].1]
  }

  function TouchAll(touches: seq<(nat, nat)>): (t: Table)
    ensures |t| == SLOTS
  {
    if touches == [] then Empty()
    else var n := |touches| - 1; Touch(TouchAll(touches[..n]), touches[n].0, Millis(touches[n].1))
  }

  function Empty(): (t: Table)
    ensures |t| == SLOTS && forall i | 0 <= i < SLOTS :: t[i] == FreeSlot
  {
    [FreeSlot, FreeSlot, FreeSlot, FreeSlot]
  }

  /** Nonzero ids at increasing times, where no top-four id is a clock period old at the next touch. */
  ghost predicate Prompt(touches: seq<(nat, nat)>) {
    touches == [] ||
    var n := |touches| - 1;
    var last, id, now := History(touches[..n]), touches[n].0, touches[n].1;
    && Prompt(touches[..n]) && id != 0
    && (forall a | a in last :: last[a] < now)
    && (forall a: nat | InTop(last, a) :: now < last[a] + WORD)
  }

  lemma {:induction false} HistoryIsDistinct(touches: seq<(nat, nat)>)
    requires Prompt(touches)
    ensures Distinct(History(touches))
  {
    if touches != [] {
      HistoryIsDistinct(touches[..|touches| - 1]);
    }
  }

  /** After any run of touches the table holds exactly the four most recently touched ids. */
  lemma {:induction false} TouchesKeepTopFour(touches: seq<(nat, nat)>) returns (m: Times)
    requires Prompt(touches)
    ensures Shows(TouchAll(touches), m) && IsTopFour(History(touches), m)
  {
    hide Touch;
    if touches == [] {
      m := map[];
    } else {
      var n := |touches| - 1;
      var before := TouchesKeepTopFour(touches[..n]);
      HistoryIsDistinct(touches[..n]);
      assert Timely(before, touches[n].1) by {
        forall a | a in before
          ensures before[a] <= touches[n].1 < before[a] + WORD
        {
          InHistory(History(touches[..n]), before, a);
        }
      }
      m := TouchIsLru(TouchAll(touches[..n]), before, touches[n].0, touches[n].1);
      LruKeepsTopFour(History(touches[..n]), before, touches[n].0, touches[n].1, m);
    }
  }

  // ---- Whole runs with expiry ----------------------------------------------

  datatype Event = Touched(id: nat, at: nat) | Closed(id: nat, at: nat) | Swept(at: nat)

  function Apply(t: Table, e: Event): (r: Table)
    requires |t| == SLOTS
    ensures |r| == SLOTS
  {
    match e
    case Touched(id, at) => if id == 0 then t else Touch(t, id, Millis(at))
    case Closed(id, _) => if id == 0 then t else Close(t, id)
    case Swept(at) => Expire(t, Millis(at))
  }

  function ApplyAll(events: seq<Event>): (t: Table)
    ensures |t| == SLOTS
  {
    if events == [] then Empty() else Apply(ApplyAll(events[..|events| - 1]), events[|events| - 1])
  }

  /** The cache with expiry that the table stands for, in unbounded time. */
  ghost predicate CacheStep(m: Times, e: Event, m': Times) {
    match e
    case Touched(id, at) => if id == 0 then m' == m else LruStep(m, id, at, m')
    case Closed(id, _) => m' == m - {id}
    case Swept(at) => m' == Recent(m, at)
  }

  function Recent(m: Times, now: nat): Times {
    map id | id in m && now - m[id] < TIMEOUT_MS :: m[id]
  }

  ghost predicate CacheAfter(events: seq<Event>, m: Times) {
    if events == [] then m == map[]
    else exists before: Times {:trigger CacheStep(before, events[|events| - 1], m)} ::
           CacheAfter(events[..|events| - 1], before) && CacheStep(before, events[|events| - 1], m)
  }

  function LastSweep(events: seq<Event>): nat {
    if events == [] then 0
    else var n := |events| - 1; if events[n].Swept? then events[n].at else LastSweep(events[..n])
  }

  function Latest(events: seq<Event>): nat { if events == [] then 0 else events[|events| - 1].at }

  /** Time does not run back, and sweeps come at least every clock period less a minute (49.7 days). */
  ghost predicate Regular(events: seq<Event>) {
    events == [] ||
    var n := |events| - 1;
    && Regular(events[..n])
    && Latest(events[..n]) <= events[n].at < LastSweep(events[..n]) + WORD - TIMEOUT_MS
  }

  ghost predicate Young(m: Times, sweep: int, now: nat) {
    && 0 !in m
    && forall a | a in m :: sweep - TIMEOUT_MS < m[a] <= now
  }

  /** Through any number of clock wraps, the 32-bit table is exactly the LRU cache with one-minute expiry. */
  lemma {:induction false} RunsAreCaches(events: seq<Event>) returns (m: Times)
    requires Regular(events)
    ensures CacheAfter(events, m) && Shows(ApplyAll(events), m)
    ensures Young(m, LastSweep(events), Latest(events)) && LastSweep(events) <= Latest(events)
  {
    if events == [] {
      m := map[];
    } else {
      var n := |events| - 1;
      var before := RunsAreCaches(events[..n]);
      m := EventIsCacheStep(ApplyAll(events[..n]), before, events[n], LastSweep(events[..n]), Latest(events[..n]));
      StaysYoung(before, events[n], m, LastSweep(events[..n]), Latest(events[..n]));
    }
  }

  lemma StaysYoung(m: Times, e: Event, m': Times, sweep: int, latest: nat)
    requires Young(m, sweep, latest) && CacheStep(m, e, m') && latest <= e.at < sweep + WORD - TIMEOUT_MS
    requires sweep <= latest
    ensures Young(m', if e.Swept? then e.at else sweep, e.at)
  {
  }

  lemma EventIsCacheStep(t: Table, m: Times, e: Event, sweep: nat, latest: nat) returns (m': Times)
    requires Shows(t, m) && Young(m, sweep, latest) && latest <= e.at < sweep + WORD - TIMEOUT_MS
    ensures Shows(Apply(t, e), m') && CacheStep(m, e, m')
  {
    hide Shows, Touch, Close, Expire;
    match e
    case Touched(id, at) =>
      if id == 0 {
        m' := m;
      } else {
        m' := TouchIsLru(t, m, id, at);
      }
    case Closed(id, _) =>
      m' := m - {id};
      if id == 0 {
        assert m' == m;
      } else {
        CloseRemoves(t, m, id);
      }
    case Swept(at) =>
      ExpireRemoves(t, m, at);
      m' := Recent(m, at);
  }
}
