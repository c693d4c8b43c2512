/**
 * The freezable reference counter of utils_refcnt.c.
 *
 * A counter of users, a freeze count that makes new increments fail, and a
 * one-shot "counter reached zero" callback armed by RegisterZeroCb.  The
 * atomics of the C code are plain sequential updates here; the only
 * interleaving kept is the one ocf_refcnt_inc itself checks for (another
 * context freezing the counter between its two reads of `freeze`), which is
 * an explicit input.
 */
module Refcnt {

  /** The observable state of one counter; `fired` counts invocations of the
      registered callback. */
  datatype RcState = RcState(counter: int, freeze: int, callback: int, fired: nat)

  /** The operations a client may apply to a counter. */
  datatype RcOp = OpInc(frozenMeanwhile: bool) | OpDec | OpFreeze | OpUnfreeze

  // ---------------------------------------------------------------------
  // Specification functions (one per operation)
  // ---------------------------------------------------------------------

  /** ocf_refcnt_dec: one user fewer; the armed callback fires (and is
      disarmed) when the counter reaches zero. */
  function Dec(s: RcState): RcState
    requires s.counter > 0
  {
    var c := s.counter - 1;
    if c == 0 && s.callback == 1 then
      s.(counter := c, callback := 0, fired := s.fired + 1)
    else
      s.(counter := c)
  }

  /** ocf_refcnt_inc.  `frozenMeanwhile` says whether another context froze
      the counter between the two reads of `freeze`; then the increment is
      taken back with Dec.  Returns the new state and whether the counter
      stays incremented. */
  function Inc(s: RcState, frozenMeanwhile: bool): (RcState, bool)
    requires s.counter >= 0
  {
    if s.freeze != 0 then (s, false)
    else
      var up := s.(counter := s.counter + 1);
      if !frozenMeanwhile then (up, true)
      else (Dec(up.(freeze := up.freeze + 1)), false)
  }

  /** ocf_refcnt_freeze */
  function Freeze(s: RcState): RcState
  {
    s.(freeze := s.freeze + 1)
  }

  /** ocf_refcnt_unfreeze */
  function Unfreeze(s: RcState): RcState
  {
    s.(freeze := s.freeze - 1)
  }

  /** ocf_refcnt_register_zero_cb: take a reference, arm the callback, drop
      the reference (which fires the callback at once if nobody else holds
      one). */
  function RegisterZeroCb(s: RcState): RcState
    requires s.freeze != 0 && s.counter >= 0
  {
    Dec(s.(counter := s.counter + 1, callback := 1))
  }

  /** Applying a sequence of client operations; a Dec on a zero counter is a
      fatal assertion in the C code, so the run stops there. */
  function Run(ops: seq<RcOp>, s: RcState): RcState
    requires s.counter >= 0
    decreases |ops|
  {
    if ops == [] then s
    else
      match ops[0]
      case OpInc(m) => Run(ops[1..], Inc(s, m).0)
      case OpDec => if s.counter == 0 then s else Run(ops[1..], Dec(s))
      case OpFreeze => Run(ops[1..], Freeze(s))
      case OpUnfreeze => Run(ops[1..], Unfreeze(s))
  }

  // ---------------------------------------------------------------------
  // Properties
  // ---------------------------------------------------------------------

  /** The guarded increment: it succeeds exactly when the counter is not
      frozen (and stays so), and a failed increment leaves the counter as it
      was. */
  lemma IncSucceedsIffUnfrozen(s: RcState, m: bool)
    requires s.counter >= 0
    ensures Inc(s, m).1 <==> s.freeze == 0 && !m
    ensures Inc(s, m).1 ==> Inc(s, m).0 == s.(counter := s.counter + 1)
    ensures !Inc(s, m).1 ==> Inc(s, m).0.counter == s.counter
    ensures s.freeze != 0 ==> Inc(s, m).0 == s
  {
  }

  /** The counter never goes below zero: every reachable state of a run from
      a non-negative counter is non-negative. */
  lemma {:induction false} RunKeepsCounterNonNegative(ops: seq<RcOp>, s: RcState)
    requires s.counter >= 0
    ensures Run(ops, s).counter >= 0
    decreases |ops|
  {
    if ops != [] {
      match ops[0]
      case OpInc(m) => RunKeepsCounterNonNegative(ops[1..], Inc(s, m).0);
      case OpDec => if s.counter != 0 { RunKeepsCounterNonNegative(ops[1..], Dec(s)); }
      case OpFreeze => RunKeepsCounterNonNegative(ops[1..], Freeze(s));
      case OpUnfreeze => RunKeepsCounterNonNegative(ops[1..], Unfreeze(s));
    }
  }

  /** The zero callback is one-shot: without a new registration, any run
      invokes it at most once, and only if it was armed. */
  lemma {:induction false} CallbackFiresAtMostOnce(ops: seq<RcOp>, s: RcState)
    requires s.counter >= 0 && (s.callback == 0 || s.callback == 1)
    ensures Run(ops, s).fired <= s.fired + s.callback
    ensures Run(ops, s).callback == 0 || Run(ops, s).callback == 1
    ensures Run(ops, s).callback == 1 ==> Run(ops, s).fired == s.fired
    ensures s.callback == 0 ==> Run(ops, s).callback == 0
    decreases |ops|
  {
    if ops != [] {
      match ops[0]
      case OpInc(m) => CallbackFiresAtMostOnce(ops[1..], Inc(s, m).0);
      case OpDec => if s.counter != 0 { CallbackFiresAtMostOnce(ops[1..], Dec(s)); }
      case OpFreeze => CallbackFiresAtMostOnce(ops[1..], Freeze(s));
      case OpUnfreeze => CallbackFiresAtMostOnce(ops[1..], Unfreeze(s));
    }
  }

  /** Registering on a frozen counter nobody holds fires the callback at
      once; otherwise it stays armed until the last holder leaves. */
  lemma RegisterFiresWhenIdle(s: RcState)
    requires s.freeze != 0 && s.counter >= 0
    ensures s.counter == 0 ==> RegisterZeroCb(s).fired == s.fired + 1 && RegisterZeroCb(s).callback == 0
    ensures s.counter > 0 ==> RegisterZeroCb(s).fired == s.fired && RegisterZeroCb(s).callback == 1
    ensures RegisterZeroCb(s).counter == s.counter
  {
  }

  /** Freeze and unfreeze undo each other. */
  lemma FreezeUnfreezeInverse(s: RcState)
    ensures Unfreeze(Freeze(s)) == s && Freeze(Unfreeze(s)) == s
  {
  }

  // ---------------------------------------------------------------------
  // The cleaning guard of ocf_lru_clean
  // ---------------------------------------------------------------------

  /** The guard as ocf_lru_clean writes it: the bool result of the
      increment is stored in an int `cnt`, a pass declines when `cnt` is 0
      and would give its reference back when `cnt > 1`, which a bool never
      reaches.  Returns the new state and whether the pass proceeds to
      collect lines. */
  function CleanGuardAsWritten(s: RcState, frozenMeanwhile: bool): (RcState, bool)
    requires s.counter >= 0
  {
    var (s1, ok) := Inc(s, frozenMeanwhile);
    var cnt := if ok then 1 else 0;
    if cnt == 0 then (s1, false)
    else if cnt > 1 then (GiveBack(s1), false)
    else (s1, true)
  }

  /** What the guard as written decides: a pass proceeds exactly when the
      increment succeeds, whoever else holds the guard, and then keeps its
      reference; a declined pass leaves the count as it was. */
  lemma CleanGuardAsWrittenIgnoresHolders(s: RcState, m: bool)
    requires s.counter >= 0
    ensures CleanGuardAsWritten(s, m).1 <==> s.freeze == 0 && !m
    ensures CleanGuardAsWritten(s, m).1 ==> CleanGuardAsWritten(s, m).0 == s.(counter := s.counter + 1)
    ensures !CleanGuardAsWritten(s, m).1 ==> CleanGuardAsWritten(s, m).0.counter == s.counter
  {
    IncSucceedsIffUnfrozen(s, m);
  }

  /** Dec where a reference is held, otherwise no change (the total form of
      the give-back step, used where the guard cannot prove a holder). */
  function GiveBack(s: RcState): RcState
  {
    if s.counter > 0 then Dec(s) else s
  }

  /** The flaw: starting from an idle guard, a second pass entered while the
      first is still in flight also proceeds, so two passes share the
      partition's cleaning context. */
  lemma CleanGuardAsWrittenAdmitsTwoPasses()
    ensures var idle := RcState(0, 0, 0, 0);
            var (s1, first) := CleanGuardAsWritten(idle, false);
            var (s2, second) := CleanGuardAsWritten(s1, false);
            first && second && s2.counter == 2
  {
  }

  /** The increment the guard needs: it reports the counter value reached
      (0 when frozen), as a count. */
  function IncValue(s: RcState): (r: (RcState, int))
    requires s.counter >= 0
    ensures s.freeze == 0 ==> r.0 == s.(counter := s.counter + 1) && r.1 == s.counter + 1
    ensures s.freeze != 0 ==> r.0 == s && r.1 == 0
    ensures r.1 >= 0
  {
    if s.freeze != 0 then (s, 0) else (s.(counter := s.counter + 1), s.counter + 1)
  }

  /** The guard with a counting increment: proceed only as the sole holder. */
  function CleanGuard(s: RcState): (RcState, bool)
    requires s.counter >= 0
  {
    var (s1, cnt) := IncValue(s);
    if cnt == 0 then (s1, false)
    else if cnt > 1 then (Dec(s1), false)
    else (s1, true)
  }

  /** Single flight: a pass proceeds only from an idle, unfrozen guard, and
      while a pass holds the guard every further attempt declines and leaves
      the counter as it found it. */
  lemma CleanGuardSingleFlight(s: RcState)
    requires s.counter >= 0
    ensures CleanGuard(s).1 <==> s.freeze == 0 && s.counter == 0
    ensures CleanGuard(s).1 ==> CleanGuard(s).0.counter == 1
    ensures !CleanGuard(s).1 ==> CleanGuard(s).0.counter == s.counter
    ensures s.counter >= 1 ==> !CleanGuard(s).1
  {
  }

  /** Two passes started back to back: the second declines. */
  lemma {:induction false} CleanGuardSecondPassDeclines(s: RcState)
    requires s.counter >= 0
    requires CleanGuard(s).1
    ensures !CleanGuard(CleanGuard(s).0).1
  {
    CleanGuardSingleFlight(s);
    CleanGuardSingleFlight(CleanGuard(s).0);
  }

  // ---------------------------------------------------------------------
  // The counter object, updated in place
  // ---------------------------------------------------------------------

  /** struct ocf_refcnt; `fired` counts invocations of the callback. */
  class Counter {
    var counter: int
    var freeze: int
    var callback: int
    ghost var fired: nat

    ghost function State(): RcState
      reads this
    {
      RcState(counter, freeze, callback, fired)
    }

    ghost predicate Valid()
      reads this
    {
      counter >= 0 && (callback == 0 || callback == 1)
    }

    /** A counter as zero-initialised memory leaves it. */
    constructor ()
      ensures Valid() && State() == RcState(0, 0, 0, 0)
    {
      counter, freeze, callback, fired := 0, 0, 0, 0;
    }

    /** ocf_refcnt_dec; dropping a reference nobody holds is a fatal
        assertion in the C code. */
    method DecRef()
      requires Valid() && counter > 0
      modifies this
      ensures Valid() && State() == Dec(old(State()))
    {
      counter := counter - 1;
      var val := counter;
      if val == 0 && callback == 1 {
        callback := 0;
        fired := fired + 1;
      }
    }

    /** ocf_refcnt_inc; see Inc for `frozenMeanwhile`. */
    method IncRef(frozenMeanwhile: bool) returns (incremented: bool)
      requires Valid()
      modifies this
      ensures Valid()
      ensures (State(), incremented) == Inc(old(State()), frozenMeanwhile)
    {
      incremented := false;
      if freeze == 0 {
        counter := counter + 1;
        if frozenMeanwhile {
          freeze := freeze + 1;
        }
        if freeze == 0 {
          incremented := true;
        } else {
          DecRef();
        }
      }
    }

    /** ocf_refcnt_freeze */
    method FreezeRef()
      requires Valid()
      modifies this
      ensures Valid() && State() == Freeze(old(State()))
    {
      freeze := freeze + 1;
    }

    /** ocf_refcnt_unfreeze */
    method UnfreezeRef()
      requires Valid()
      modifies this
      ensures Valid() && State() == Unfreeze(old(State()))
    {
      freeze := freeze - 1;
    }

    /** ocf_refcnt_register_zero_cb; requires a frozen counter. */
    method RegisterZeroCbRef()
      requires Valid() && freeze != 0
      modifies this
      ensures Valid() && State() == RegisterZeroCb(old(State()))
    {
      counter := counter + 1;
      callback := 1;
      DecRef();
    }
  }
}
