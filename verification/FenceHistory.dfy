/**
 What the CPU and the GPU did, in order, and the rules the order must obey: when an allocator may be reset,
 which fence values are signalled and waited for, and when a timestamp slot may be recorded or read.
 */
module FenceHistory {
  import opened FenceTimeline

  const SLOTS: nat := 16

  /**
   `Recorded`: a timestamp slot is written into a command list. `Queued` and `Finished`: a command list recorded
   with the buffer's allocator. `Harvested(stamp, contents)`: the slot of submission `stamp` is read, and holds the
   timestamps of submission `contents`.
   */
  datatype Event =
    | Reset(buffer: nat)
    | Recorded(slot: nat)
    | Queued(buffer: nat, stamp: nat)
    | Finished(buffer: nat, stamp: nat)
    | Signalled(value: nat)
    | Waited(value: nat)
    | TimerReached(stamp: nat)
    | Harvested(stamp: nat, contents: nat)

  /** The slot of the submission with this number; the first submission has number 1. */
  function SlotOf(stamp: nat): nat
    requires stamp > 0
  {
    (stamp - 1) % SLOTS
  }

  /** Whether an event is allowed after a history. */
  ghost predicate Allowed(t: seq<Event>, e: Event) {
    match e
    case Reset(b) => forall s :: Queued(b, s) in t ==> Finished(b, s) in t
    case Recorded(slot) =>
      forall b, s :: Queued(b, s) in t && s > 0 && SlotOf(s) == slot ==> Finished(b, s) in t && Harvested(s, s) in t
    case Signalled(v) => forall w: nat :: Signalled(w) in t ==> w < v
    case Waited(v) => v == 0 || Signalled(v) in t
    case Harvested(s, c) => c == s && TimerReached(s) in t && Harvested(s, s) !in t
    case _ => true
  }

  ghost predicate SafeTrace(t: seq<Event>) {
    forall p :: 0 <= p < |t| ==> Allowed(t[..p], t[p])
  }

  lemma ExtendSafe(t: seq<Event>, e: Event)
    requires SafeTrace(t) && Allowed(t, e)
    ensures SafeTrace(t + [e])
  {
    var u := t + [e];
    forall p | 0 <= p < |u|
      ensures Allowed(u[..p], u[p])
    {
      if p < |t| {
        assert u[..p] == t[..p];
      } else {
        assert u[..p] == t;
      }
    }
  }

  ghost predicate Holds(q: seq<Command>, b: nat, s: nat) {
    exists d :: Exec(b, s, d) in q
  }

  ghost predicate StillQueued(q: seq<Command>, s: nat) {
    exists k :: 0 <= k < |q| && q[k].Exec? && q[k].stamp == s
  }

  /** The history accounts for the queue and for the fence values. */
  ghost predicate History(t: seq<Event>, q: seq<Command>, v: View) {
    && Sound(q, v) && SafeTrace(t)
    && (forall b: nat, s: nat :: Queued(b, s) in t ==> 0 < s <= v.submitted && (Finished(b, s) in t || Holds(q, b, s)))
    && (forall b: nat, s: nat :: Finished(b, s) in t ==> s <= v.submitted && !StillQueued(q, s))
    && (forall w: nat :: Signalled(w) in t ==> w < v.next)
    && (forall i :: 0 <= i < BUFFERS ==>
          v.values[i] == v.next || v.values[i] == 0 || Signalled(v.values[i]) in t)
    && (forall s :: 0 < s <= v.marked ==> TimerReached(s) in t)
  }

  /**
   The timer's slots account for the submissions: each is harvested or still in its slot, and a slot's memory is
   its own submission's as soon as that has run.
   */
  ghost predicate Ledger(t: seq<Event>, q: seq<Command>, v: View, fences: seq<nat>, memory: seq<nat>) {
    && |fences| == SLOTS && |memory| == SLOTS
    && (forall i :: 0 <= i < SLOTS && fences[i] != 0 ==>
          && fences[i] <= v.submitted < fences[i] + SLOTS / 2 && SlotOf(fences[i]) == i
          && Harvested(fences[i], fences[i]) !in t
          && (memory[i] == fences[i] || StillQueued(q, fences[i])))
    && (forall s :: 0 < s <= v.submitted ==> Harvested(s, s) in t || fences[SlotOf(s)] == s)
    && (forall s: nat, c: nat :: Harvested(s, c) in t ==> c == s && 0 < s <= v.marked)
  }

  // ---------------------------------------------------------------------------------------------
  // The GPU's steps
  // ---------------------------------------------------------------------------------------------

  /** What the GPU's next step adds to the history. */
  function Effect(c: Command): seq<Event> {
    match c
    case Exec(b, s, _) => [Finished(b, s)]
    case Mark(_, s, _) => [TimerReached(s)]
    case Signal(_) => []
  }

  function Written(c: Command, memory: seq<nat>): (m: seq<nat>)
    requires |memory| == SLOTS && (c.Exec? ==> c.stamp > 0)
    ensures |m| == SLOTS
  {
    if c.Exec? then memory[SlotOf(c.stamp) := c.stamp] else memory
  }

  lemma AgreementOf(t: seq<Event>, q: seq<Command>, v: View)
    requires History(t, q, v)
    ensures SafeTrace(t) && Sound(q, v) && Ordered(q) && |v.values| == BUFFERS
    ensures forall k :: 0 <= k < |q| && !q[k].Signal? ==> q[k].stamp > 0
    ensures q != [] ==> v.completed < q[0].due
    ensures forall i :: 0 <= i < BUFFERS ==> v.values[i] <= v.next
  {
  }

  /** What the next command does is allowed. */
  lemma RetireIsSafe(t: seq<Event>, q: seq<Command>, v: View)
    requires History(t, q, v) && q != []
    ensures SafeTrace(t + Effect(q[0]))
  {
    RetireKeeps(q, v);
    RestOf(q);
    hide SafeTrace;
    if Effect(q[0]) != [] {
      ExtendSafe(t, Effect(q[0])[0]);
    } else {
      assert t + Effect(q[0]) == t;
    }
  }

  /** A submission is finished with its execution, and held until then. */
  lemma RetireAccounts(q: seq<Command>, v: View)
    requires Sound(q, v) && q != []
    ensures forall b: nat, s: nat :: Holds(q, b, s) ==> Finished(b, s) in Effect(q[0]) || Holds(q[1..], b, s)
    ensures forall s: nat :: StillQueued(q[1..], s) ==> StillQueued(q, s)
    ensures forall b: nat, s: nat :: Finished(b, s) in Effect(q[0]) ==> s <= v.submitted && !StillQueued(q[1..], s)
  {
    RestOf(q);
    hide Sound;
    forall b: nat, s: nat | Holds(q, b, s)
      ensures Finished(b, s) in Effect(q[0]) || Holds(q[1..], b, s)
    {
      var d :| Exec(b, s, d) in q;
      assert Exec(b, s, d) == q[0] || Exec(b, s, d) in q[1..];
    }
    forall s: nat | StillQueued(q[1..], s)
      ensures StillQueued(q, s)
    {
      var k :| 0 <= k < |q[1..]| && q[1..][k].Exec? && q[1..][k].stamp == s;
      assert q[k + 1] == q[1..][k];
    }
  }

  lemma RetireHistory(t: seq<Event>, q: seq<Command>, v: View)
    requires History(t, q, v) && q != []
    ensures History(t + Effect(q[0]), q[1..], Retire(v, q[0]))
  {
    RetireKeeps(q, v);
    RetireIsSafe(t, q, v);
    RetireAccounts(q, v);
    hide SafeTrace, Sound, Holds, StillQueued;
  }

  lemma SameSlotSameStamp(s: nat, r: nat)
    requires 0 < s < r + SLOTS && 0 < r < s + SLOTS && SlotOf(s) == SlotOf(r)
    ensures s == r
  {
  }

  lemma RetireLedger(t: seq<Event>, q: seq<Command>, v: View, fences: seq<nat>, memory: seq<nat>)
    requires History(t, q, v) && Ledger(t, q, v, fences, memory) && q != []
    ensures |memory| == SLOTS && (q[0].Exec? ==> q[0].stamp > 0)
    ensures Ledger(t + Effect(q[0]), q[1..], Retire(v, q[0]), fences, Written(q[0], memory))
  {
    RetireKeeps(q, v);
    FewInFlight(q, v);
    var c, rest := q[0], q[1..];
    assert c in q;
    var m := Written(c, memory);
    forall i | 0 <= i < SLOTS && fences[i] != 0
      ensures m[i] == fences[i] || StillQueued(rest, fences[i])
    {
      if c.Exec? && SlotOf(c.stamp) == i {
        SameSlotSameStamp(c.stamp, fences[i]);
      } else if memory[i] != fences[i] {
        var k :| 0 <= k < |q| && q[k].Exec? && q[k].stamp == fences[i];
        assert k > 0;
        assert rest[k - 1] == q[k];
      }
    }
  }

  // ---------------------------------------------------------------------------------------------
  // The CPU's steps
  // ---------------------------------------------------------------------------------------------

  lemma LedgerIgnores(t: seq<Event>, q: seq<Command>, v: View, fences: seq<nat>, memory: seq<nat>, e: Event)
    requires Ledger(t, q, v, fences, memory) && !e.Harvested?
    ensures Ledger(t + [e], q, v, fences, memory)
  {
  }

  lemma HeldIsPending(q: seq<Command>, v: View, b: nat, s: nat)
    requires Sound(q, v)
    ensures Holds(q, b, s) ==> v.marked < s && b < BUFFERS && (!v.open ==> v.values[b] < v.next)
  {
  }

  /** Resetting the current allocator between frames is allowed. */
  lemma ResetAllowed(t: seq<Event>, q: seq<Command>, v: View)
    requires History(t, q, v) && !v.open && v.values[v.frame] == v.next
    ensures Allowed(t, Reset(v.frame)) && History(t + [Reset(v.frame)], q, v)
  {
    AllocatorIsFree(q, v);
    forall s | Queued(v.frame, s) in t
      ensures Finished(v.frame, s) in t
    {
      HeldIsPending(q, v, v.frame, s);
    }
    ExtendSafe(t, Reset(v.frame));
  }

  lemma NextSlotIsFree(t: seq<Event>, q: seq<Command>, v: View, fences: seq<nat>, memory: seq<nat>)
    requires Ledger(t, q, v, fences, memory)
    ensures fences[v.submitted % SLOTS] == 0
  {
    var slot := v.submitted % SLOTS;
    if fences[slot] != 0 {
      SameSlotSameStamp(fences[slot], v.submitted + 1);
      assert false;
    }
  }

  /** The next slot is free: what it held before has finished and has been harvested. */
  lemma RecordAllowed(t: seq<Event>, q: seq<Command>, v: View, fences: seq<nat>, memory: seq<nat>)
    requires History(t, q, v) && Ledger(t, q, v, fences, memory)
    ensures var slot := v.submitted % SLOTS;
            fences[slot] == 0 && Allowed(t, Recorded(slot))
            && History(t + [Recorded(slot)], q, v) && Ledger(t + [Recorded(slot)], q, v, fences, memory)
  {
    var slot := v.submitted % SLOTS;
    NextSlotIsFree(t, q, v, fences, memory);
    forall b, s | Queued(b, s) in t && s > 0 && SlotOf(s) == slot
      ensures Finished(b, s) in t && Harvested(s, s) in t
    {
      assert fences[SlotOf(s)] != s;
      HeldIsPending(q, v, b, s);
    }
    ExtendSafe(t, Recorded(slot));
    LedgerIgnores(t, q, v, fences, memory, Recorded(slot));
    hide Ledger, Sound;
  }

  lemma SubmitHistory(t: seq<Event>, q: seq<Command>, v: View)
    requires History(t, q, v) && !v.open && v.values[v.frame] == v.next
    ensures var s := v.submitted + 1;
            History(t + [Queued(v.frame, s)], q + [Exec(v.frame, s, v.next), Mark(v.frame, s, v.next)],
                    v.(open := true, submitted := s))
  {
    SubmitKeeps(q, v);
    var s := v.submitted + 1;
    ExtendSafe(t, Queued(v.frame, s));
    var r := q + [Exec(v.frame, s, v.next), Mark(v.frame, s, v.next)];
    assert r[|q|] == Exec(v.frame, s, v.next);
    assert forall c :: c in q ==> c in r;
    forall b, z | Queued(b, z) in t && Finished(b, z) !in t
      ensures Holds(r, b, z)
    {
      var d :| Exec(b, z, d) in q;
      assert Exec(b, z, d) in r;
    }
  }

  lemma SubmitLedger(t: seq<Event>, q: seq<Command>, v: View, fences: seq<nat>, memory: seq<nat>)
    requires Sound(q, v) && Ledger(t, q, v, fences, memory) && fences[v.submitted % SLOTS] == 0
    requires forall i :: 0 <= i < SLOTS && fences[i] != 0 ==> v.submitted < fences[i] + BUFFERS
    ensures var s := v.submitted + 1;
            Ledger(t + [Queued(v.frame, s)], q + [Exec(v.frame, s, v.next), Mark(v.frame, s, v.next)],
                   v.(open := true, submitted := s), fences[v.submitted % SLOTS := s], memory)
  {
    var s := v.submitted + 1;
    var r := q + [Exec(v.frame, s, v.next), Mark(v.frame, s, v.next)];
    assert r[|q|] == Exec(v.frame, s, v.next);
    assert StillQueued(r, s);
    forall z: nat | StillQueued(q, z)
      ensures StillQueued(r, z)
    {
      var k :| 0 <= k < |q| && q[k].Exec? && q[k].stamp == z;
      assert r[k] == q[k];
    }
    var f := fences[v.submitted % SLOTS := s];
    forall i | 0 <= i < SLOTS && f[i] != 0
      ensures memory[i] == f[i] || StillQueued(r, f[i])
    {
      assert i != v.submitted % SLOTS ==> f[i] == fences[i];
    }
    assert SlotOf(s) == v.submitted % SLOTS;
  }

  lemma SignalHistory(t: seq<Event>, q: seq<Command>, v: View)
    requires History(t, q, v) && v.values[v.frame] == v.next
    ensures History(t + [Signalled(v.next)], q + [Signal(v.next)], v.(next := v.next + 1, open := false))
  {
    SignalKeeps(q, v);
    ExtendSafe(t, Signalled(v.next));
    forall b, s | Queued(b, s) in t && Finished(b, s) !in t
      ensures Holds(q + [Signal(v.next)], b, s)
    {
      var d :| Exec(b, s, d) in q;
      assert Exec(b, s, d) in q + [Signal(v.next)];
    }
  }

  lemma SignalLedger(t: seq<Event>, q: seq<Command>, v: View, fences: seq<nat>, memory: seq<nat>)
    requires Ledger(t, q, v, fences, memory)
    ensures Ledger(t + [Signalled(v.next)], q + [Signal(v.next)], v.(next := v.next + 1, open := false), fences, memory)
  {
    forall s: nat | StillQueued(q, s)
      ensures StillQueued(q + [Signal(v.next)], s)
    {
      var k :| 0 <= k < |q| && q[k].Exec? && q[k].stamp == s;
      assert (q + [Signal(v.next)])[k] == q[k];
    }
  }

  /** Waiting for a buffer's value is waiting for a value that was signalled, and does not disturb the history. */
  lemma WaitHistory(t: seq<Event>, q: seq<Command>, v: View, i: nat)
    requires History(t, q, v) && i < BUFFERS && v.values[i] < v.next
    ensures Allowed(t, Waited(v.values[i])) && History(t + [Waited(v.values[i])], q, v)
    ensures v.values[i] <= v.completed || Signal(v.values[i]) in q
  {
    ExtendSafe(t, Waited(v.values[i]));
  }

  /** Reading a slot the timer's fence has passed reads that submission's own timestamps, for the first time. */
  lemma HarvestOne(t: seq<Event>, q: seq<Command>, v: View, fences: seq<nat>, memory: seq<nat>, i: nat)
    requires History(t, q, v) && Ledger(t, q, v, fences, memory)
    requires i < SLOTS && 0 < fences[i] <= v.marked
    ensures memory[i] == fences[i]
    ensures History(t + [Harvested(fences[i], memory[i])], q, v)
    ensures Ledger(t + [Harvested(fences[i], memory[i])], q, v, fences[i := 0], memory)
  {
    ExtendSafe(t, Harvested(fences[i], fences[i]));
  }

  lemma TakeBufferHistory(t: seq<Event>, q: seq<Command>, v: View, i: nat)
    requires History(t, q, v) && !v.open && i < BUFFERS && v.values[i] <= v.completed
    ensures History(t, q, v.(values := v.values[i := v.next], frame := i))
  {
    TakeBufferKeeps(q, v, i);
  }

  lemma TakeBufferLedger(t: seq<Event>, q: seq<Command>, v: View, fences: seq<nat>, memory: seq<nat>, i: nat)
    requires Ledger(t, q, v, fences, memory) && i < |v.values|
    ensures Ledger(t, q, v.(values := v.values[i := v.next], frame := i), fences, memory)
  {
  }

  function AllAt(value: nat): (s: seq<nat>)
    ensures |s| == BUFFERS && forall i :: 0 <= i < BUFFERS ==> s[i] == value
  {
    seq(BUFFERS, _ => value)
  }

  /** With nothing queued, all values may restart together at the next one. */
  lemma RestartHistory(t: seq<Event>, v: View, first: nat)
    requires History(t, [], v) && first < BUFFERS
    ensures History(t, [], v.(values := AllAt(v.next), frame := first))
  {
  }

  lemma RestartLedger(t: seq<Event>, v: View, fences: seq<nat>, memory: seq<nat>, first: nat)
    requires Ledger(t, [], v, fences, memory)
    ensures Ledger(t, [], v.(values := AllAt(v.next), frame := first), fences, memory)
  {
  }

  /** A command list that is queued cannot have its allocator reset. */
  lemma QueuedIsNotFinished(t: seq<Event>, q: seq<Command>, v: View, b: nat, s: nat)
    requires History(t, q, v) && Queued(b, s) in t && StillQueued(q, s)
    ensures !SafeTrace(t + [Reset(b)])
  {
    var u := t + [Reset(b)];
    assert u[..|t|] == t && u[|t|] == Reset(b);
  }
}
