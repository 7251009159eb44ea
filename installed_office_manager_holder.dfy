/**
 * The process-wide default office manager slot of JODConverter
 * (`org.jodconverter.office.InstalledOfficeManagerHolder`).
 *
 * The Java class keeps one static, initially `null` reference to an
 * `OfficeManager` and offers two `synchronized` static methods: `getInstance`
 * reads the reference and `setInstance` replaces it, returning the value it
 * replaced. Each call is one atomic step, so the holder's whole behaviour is a
 * sequential state machine over a single optional value.
 *
 * The module has two layers:
 *  - the specification: `Step` (one call), `Run` (a sequence of calls) and
 *    the lemmas stating how calls compose;
 *  - the class `Holder`, whose field `instance` is the static field and whose
 *    members are the two static methods, each proved against `Step`.
 */
module OfficeManagerHolder {
  import opened Wrappers

  /** An office manager, known to the holder only by its identity. The holder
      never starts, stops or inspects one. */
  type OfficeManager(==)

  /** The content of the static field: a manager, or `null` (`None`). */
  type Slot = Option<OfficeManager>

  /** A call on the holder: `getInstance()` or `setInstance(manager)`. */
  datatype Call = Get | Set(manager: Slot)

  /** What one call leaves in the slot and what it returns to its caller. */
  datatype Outcome = Outcome(slot: Slot, reply: Slot)

  /** The result of a sequence of calls: the final slot and, in call order,
      the value each call returned. */
  datatype Trace = Trace(slot: Slot, replies: seq<Slot>)

  // ---------------------------------------------------------------------
  // Specification
  // ---------------------------------------------------------------------

  /** One atomic call. `getInstance` returns the slot and leaves it alone;
      `setInstance(m)` stores `m`, with no check on it, and returns the value
      that was stored before. */
  function Step(slot: Slot, call: Call): (o: Outcome)
    ensures o.reply == slot
    ensures o.slot == (if call.Set? then call.manager else slot)
  {
    match call
    case Get => Outcome(slot, slot)
    case Set(m) => Outcome(m, slot)
  }

  /** A sequence of calls, one after the other, from the slot `slot`. */
  function Run(slot: Slot, calls: seq<Call>): (t: Trace)
    ensures |t.replies| == |calls|
    decreases |calls|
  {
    if calls == [] then Trace(slot, [])
    else
      var first := Step(slot, calls[0]);
      var rest := Run(first.slot, calls[1..]);
      Trace(rest.slot, [first.reply] + rest.replies)
  }

  /** Reference definition, read from the end of the sequence: the manager
      passed to the last `setInstance` among `calls`, or `init` if there is
      none. */
  function LastInstalled(init: Slot, calls: seq<Call>): Slot
  {
    if calls == [] then init
    else
      match calls[|calls| - 1]
      case Set(m) => m
      case Get => LastInstalled(init, calls[..|calls| - 1])
  }

  /** The calls of `calls` that are `setInstance` calls, in order: each
      `setInstance` of `calls` is kept, and nothing else is (see also
      `SetsOnlyAppend` for the order). */
  function SetsOnly(calls: seq<Call>): (sets: seq<Call>)
    ensures |sets| <= |calls|
    ensures forall k :: 0 <= k < |sets| ==> sets[k].Set? && sets[k] in calls
    ensures forall k :: 0 <= k < |calls| && calls[k].Set? ==> calls[k] in sets
  {
    if calls == [] then []
    else if calls[0].Get? then SetsOnly(calls[1..])
    else [calls[0]] + SetsOnly(calls[1..])
  }

  /** Filtering out the reads keeps the order of the sets: the sets of a
      concatenation are the sets of the first part followed by those of the
      second. */
  lemma {:induction false} SetsOnlyAppend(a: seq<Call>, b: seq<Call>)
    ensures SetsOnly(a + b) == SetsOnly(a) + SetsOnly(b)
    decreases |a|
  {
    if a != [] {
      assert (a + b)[0] == a[0];
      assert (a + b)[1..] == a[1..] + b;
      SetsOnlyAppend(a[1..], b);
    } else {
      assert a + b == b;
    }
  }

  // ---------------------------------------------------------------------
  // How calls compose
  // ---------------------------------------------------------------------

  /** Running one more call after a sequence is one more `Step`. */
  lemma {:induction false} RunSnoc(slot: Slot, calls: seq<Call>, c: Call)
    ensures Run(slot, calls + [c]).slot == Step(Run(slot, calls).slot, c).slot
    ensures Run(slot, calls + [c]).replies
         == Run(slot, calls).replies + [Step(Run(slot, calls).slot, c).reply]
    decreases |calls|
  {
    if calls != [] {
      assert (calls + [c])[0] == calls[0];
      assert (calls + [c])[1..] == calls[1..] + [c];
      RunSnoc(Step(slot, calls[0]).slot, calls[1..], c);
    }
  }

  /** After any sequence of calls the slot holds the manager given to the
      last `setInstance`, or the initial value if no `setInstance` was made. */
  lemma {:induction false} FinalSlotIsLastInstalled(init: Slot, calls: seq<Call>)
    ensures Run(init, calls).slot == LastInstalled(init, calls)
  {
    if calls != [] {
      var prefix := calls[..|calls| - 1];
      assert calls == prefix + [calls[|calls| - 1]];
      RunSnoc(init, prefix, calls[|calls| - 1]);
      FinalSlotIsLastInstalled(init, prefix);
    }
  }

  /** Every call, `getInstance` and `setInstance` alike, returns the value the
      slot held just before it. */
  lemma {:induction false} ReplyIsSlotBefore(init: Slot, calls: seq<Call>, i: nat)
    requires i < |calls|
    ensures Run(init, calls).replies[i] == Run(init, calls[..i]).slot
    decreases i
  {
    if i > 0 {
      var next := Step(init, calls[0]).slot;
      ReplyIsSlotBefore(next, calls[1..], i - 1);
      assert calls[..i][0] == calls[0];
      assert calls[..i][1..] == calls[1..][..i - 1];
    }
  }

  /** Every call returns the manager given to the most recent earlier
      `setInstance`, or the initial value if there was none. */
  lemma ReplyIsLastInstalled(init: Slot, calls: seq<Call>, i: nat)
    requires i < |calls|
    ensures Run(init, calls).replies[i] == LastInstalled(init, calls[..i])
  {
    ReplyIsSlotBefore(init, calls, i);
    FinalSlotIsLastInstalled(init, calls[..i]);
  }

  /** Trailing reads do not change which manager was last installed. */
  lemma {:induction false} LastInstalledOfGets(init: Slot, calls: seq<Call>)
    requires forall k :: 0 <= k < |calls| ==> calls[k] == Get
    ensures LastInstalled(init, calls) == init
  {
    if calls != [] {
      LastInstalledOfGets(init, calls[..|calls| - 1]);
    }
  }

  /** The static field starts out `null`: from the initial state, every call
      made before the first `setInstance` returns `null`. */
  lemma NullBeforeFirstSet(calls: seq<Call>, i: nat)
    requires i < |calls|
    requires forall k :: 0 <= k < i ==> calls[k] == Get
    ensures Run(None, calls).replies[i] == None
  {
    ReplyIsLastInstalled(None, calls, i);
    LastInstalledOfGets(None, calls[..i]);
  }

  /** Reading never changes the slot: dropping every `getInstance` from a
      sequence of calls leaves the final slot as it was. */
  lemma {:induction false} GetsDoNotChangeSlot(slot: Slot, calls: seq<Call>)
    ensures Run(slot, SetsOnly(calls)).slot == Run(slot, calls).slot
    decreases |calls|
  {
    if calls != [] {
      GetsDoNotChangeSlot(Step(slot, calls[0]).slot, calls[1..]);
      if calls[0].Set? {
        var sets := SetsOnly(calls);
        assert sets[0] == calls[0];
        assert sets[1..] == SetsOnly(calls[1..]);
      }
    }
  }

  /** Calls between `i` and `j` that are all `getInstance` leave the slot
      alone, so call `j` sees what call `i` saw. */
  lemma {:induction false} ReadsBetweenAgree(init: Slot, calls: seq<Call>, i: nat, j: nat)
    requires i <= j < |calls|
    requires forall k :: i <= k < j ==> calls[k] == Get
    ensures Run(init, calls).replies[j] == Run(init, calls).replies[i]
    decreases j - i
  {
    if i < j {
      ReadsBetweenAgree(init, calls, i, j - 1);
      ReplyIsLastInstalled(init, calls, j);
      ReplyIsLastInstalled(init, calls, j - 1);
      assert calls[..j][..j - 1] == calls[..j - 1];
    }
  }

  /** Repeated reads with no `setInstance` in between all return the same
      manager. */
  lemma RepeatedReadsAgree(init: Slot, calls: seq<Call>, i: nat, j: nat)
    requires i <= j < |calls|
    requires forall k :: i <= k <= j ==> calls[k] == Get
    ensures Run(init, calls).replies[j] == Run(init, calls).replies[i]
  {
    ReadsBetweenAgree(init, calls, i, j);
  }

  /** If call `i` installed `m` and only reads follow it up to call `j`, then
      call `j` (a read, or a further `setInstance`) returns `m`. */
  lemma SeesLatestSet(init: Slot, calls: seq<Call>, i: nat, j: nat, m: Slot)
    requires i < j < |calls|
    requires calls[i] == Set(m)
    requires forall k :: i < k < j ==> calls[k] == Get
    ensures Run(init, calls).replies[j] == m
  {
    ReadsBetweenAgree(init, calls, i + 1, j);
    ReplyIsLastInstalled(init, calls, i + 1);
    assert calls[..i + 1][i] == Set(m);
  }

  // ---------------------------------------------------------------------
  // Two-call sequences
  // ---------------------------------------------------------------------

  /** `setInstance(m)` then `getInstance()`: the set returns the previous
      value and the get returns `m`. */
  lemma GetAfterSet(slot: Slot, m: Slot)
    ensures Run(slot, [Set(m), Get]) == Trace(m, [slot, m])
  {
    assert [Set(m), Get][1..] == [Get];
    assert Run(m, [Get]) == Trace(m, [m]) by {
      assert [Get][1..] == [];
    }
  }

  /** `setInstance(a)` then `setInstance(b)`: the second call returns `a`
      and `b` stays installed. */
  lemma SetAfterSet(slot: Slot, a: Slot, b: Slot)
    ensures Run(slot, [Set(a), Set(b)]) == Trace(b, [slot, a])
  {
    assert [Set(a), Set(b)][1..] == [Set(b)];
    assert Run(a, [Set(b)]) == Trace(b, [a]) by {
      assert [Set(b)][1..] == [];
    }
  }

  /** `setInstance(null)` is accepted: it returns the previous value and
      a following `getInstance()` returns `null`. */
  lemma SetNullClears(slot: Slot)
    ensures Run(slot, [Set(None), Get]) == Trace(None, [slot, None])
  {
  }

  /** Installing the manager already installed returns it and changes
      nothing. */
  lemma SetSameIsIdempotent(slot: Slot)
    ensures Run(slot, [Set(slot)]) == Trace(slot, [slot])
  {
  }

  // ---------------------------------------------------------------------
  // The holder itself
  // ---------------------------------------------------------------------

  /** The static state of `InstalledOfficeManagerHolder`. One object of this
      class stands for the class's static field; the Java class itself cannot
      be instantiated. */
  class Holder {
    /** The installed manager, `None` for `null`. */
    var instance: Slot

    /** Class initialisation: the static field starts out `null`. */
    constructor ()
      ensures instance == None
    {
      instance := None;
    }

    /** `getInstance()`: one `Get` step, which returns the installed manager
        and leaves the slot unchanged. */
    function GetInstance(): (manager: Slot)
      reads this
      ensures manager == instance
      ensures Step(instance, Get) == Outcome(instance, manager)
    {
      instance
    }

    /** `setInstance(manager)`: one `Set` step. It stores `manager` without
        any check and returns the manager it replaced. Only the slot changes:
        neither manager is touched. */
    method SetInstance(manager: Slot) returns (previous: Slot)
      modifies this
      ensures Step(old(instance), Set(manager)) == Outcome(instance, previous)
      ensures previous == old(instance) && instance == manager
    {
      previous := instance;
      instance := manager;
    }
  }

  /** Makes the calls `calls` on the holder `h`, one after the other, and
      collects what each returns. The holder ends, and the calls return, what
      `Run` says: the lemmas about `Run` hold of the class as written. */
  method Replay(h: Holder, calls: seq<Call>) returns (replies: seq<Slot>)
    modifies h
    ensures Run(old(h.instance), calls) == Trace(h.instance, replies)
  {
    ghost var init := h.instance;
    replies := [];
    var i := 0;
    while i < |calls|
      invariant 0 <= i <= |calls|
      invariant Run(init, calls[..i]) == Trace(h.instance, replies)
    {
      RunSnoc(init, calls[..i], calls[i]);
      assert calls[..i + 1] == calls[..i] + [calls[i]];
      var reply;
      match calls[i] {
        case Get =>
          reply := h.GetInstance();
        case Set(m) =>
          reply := h.SetInstance(m);
      }
      replies := replies + [reply];
      i := i + 1;
    }
    assert calls[..i] == calls;
  }
}
