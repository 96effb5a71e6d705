/** The statically allocated byte slots and their 8-bit reference counts. */
module PoolManager {
  import opened Bytes
  import opened ProgramModel

  datatype Slot = FsScratch | ProgramExecSteps | ProgramExecActions
  {
    function Index(): nat {
      match this
      case FsScratch => 0
      case ProgramExecSteps => 1
      case ProgramExecActions => 2
    }
  }

  class Pool {
    const sizes: seq<nat>    // the size of each slot's static buffer
    var refs: seq<nat>       // the holders of each slot

    ghost predicate Valid()
      reads this
    {
      |sizes| == 3 && sizes[0] > 0 && sizes[1] > 0 && sizes[2] > 0 && |refs| == 3
    }

    constructor (sizes: seq<nat>)
      requires |sizes| == 3 && sizes[0] > 0 && sizes[1] > 0 && sizes[2] > 0
      ensures Valid() && this.sizes == sizes && refs == [0, 0, 0]
    {
      this.sizes, refs := sizes, [0, 0, 0];
    }

    /** A held slot is shared; a free one is taken; a wrong size gets nothing. */
    method Acquire(slot: Slot, size: nat) returns (ok: bool)
      requires Valid()
      modifies this
      ensures Valid() && ok == (0 < size == sizes[slot.Index()])
      ensures refs == if ok then old(refs)[slot.Index() := AcquireRef(old(refs)[slot.Index()])] else old(refs)
    {
      var i := slot.Index();
      if size == 0 || size != sizes[i] {
        return false;
      }
      if refs[i] > 0 {
        refs := refs[i := (refs[i] + 1) % 256];
        return true;
      }
      refs := refs[i := 1];
      return true;
    }

    method Release(slot: Slot)
      requires Valid()
      modifies this
      ensures Valid()
      ensures refs == old(refs)[slot.Index() := ReleaseRef(old(refs)[slot.Index()])]
    {
      var i := slot.Index();
      if refs[i] == 0 {
        return;
      }
      refs := refs[i := refs[i] - 1];
    }
  }

  // ---- Counting holders ----------------------------------------------------

  datatype PoolOp = Take | LetGo

  /** The count of a slot after some operations on it. */
  function Count(ops: seq<PoolOp>): nat {
    if ops == [] then 0
    else
      var before := Count(ops[..|ops| - 1]);
      if ops[|ops| - 1].Take? then AcquireRef(before) else ReleaseRef(before)
  }

  /** How many takes are still to be let go. */
  function Holders(ops: seq<PoolOp>): int {
    if ops == [] then 0 else Holders(ops[..|ops| - 1]) + if ops[|ops| - 1].Take? then 1 else -1
  }

  /** Nobody lets go of what was not taken. */
  predicate Matched(ops: seq<PoolOp>) { forall i | 0 <= i <= |ops| :: Holders(ops[..i]) >= 0 }

  /** The slot was never held more often than its 8-bit count can tell. */
  predicate Countable(ops: seq<PoolOp>) { forall i | 0 <= i <= |ops| :: Holders(ops[..i]) <= 255 }

  predicate Counts(ops: seq<PoolOp>) { forall i | 0 <= i <= |ops| :: Count(ops[..i]) == Holders(ops[..i]) }

  /** Over any run of takes and releases, nested or not, the count is the number of holders all along exactly while
      at most 255 hold at once. */
  lemma {:induction false} CountIsHolders(ops: seq<PoolOp>)
    requires Matched(ops)
    ensures Counts(ops) <==> Countable(ops)
  {
    if ops != [] {
      var n := |ops| - 1;
      var init := ops[..n];
      assert forall i | 0 <= i <= n :: init[..i] == ops[..i];
      assert ops[..n + 1] == ops;
      CountIsHolders(init);
      CountFits(ops);
      assert forall i | 0 <= i <= |ops| :: i <= n || ops[..i] == ops;
      if Countable(ops) {
        assert Holders(init) >= 0 by { assert Holders(ops[..n]) >= 0; }
        assert Count(init) == Holders(init) by { assert Count(init[..n]) == Holders(init[..n]); }
      }
    }
  }

  lemma {:induction false} CountFits(ops: seq<PoolOp>)
    ensures Count(ops) <= 255
  {
    if ops != [] {
      CountFits(ops[..|ops| - 1]);
    }
  }

  function Takes(n: nat): seq<PoolOp> { seq(n, _ => Take) }

  /** Any number of nested holders leaves the count modulo 256: right up to 255, then nothing is held at 256. */
  lemma {:induction false} TakesWrap(n: nat)
    ensures Count(Takes(n)) == n % 256 && Holders(Takes(n)) == n
    ensures Count(Takes(n)) == n <==> n <= 255
  {
    if n > 0 {
      assert Takes(n)[..n - 1] == Takes(n - 1);
      TakesWrap(n - 1);
    }
  }
}
