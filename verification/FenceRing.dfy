/**
 The frame ring of the DX12 test applications: one command allocator and one fence value per back buffer, an
 auto-reset event to wait with, and the GPU timestamp ring that relies on it. The GPU runs on its own between
 any two of the CPU's observations.
 */
module FenceRing {
  import opened FenceTimeline
  import opened FenceHistory

  /** Timestamps of each frame's command list, in a ring of slots read back once the timer's own fence allows. */
  class GpuFrameTimer {
    const slotFence: array<nat>
    var slot: nat
    var fenceValue: nat

    ghost predicate Valid()
      reads this
    {
      slotFence.Length == SLOTS && slot == fenceValue % SLOTS
    }

    constructor ()
      ensures Valid() && fresh(slotFence) && fenceValue == 0
      ensures slotFence.Length == 16 && forall i :: 0 <= i < 16 ==> slotFence[i] == 0
    {
      slotFence := new nat[SLOTS](_ => 0);
      slot, fenceValue := 0, 0;
    }

    /** Fences the slot just recorded and moves on. */
    method Advance()
      requires Valid()
      modifies this, slotFence
      ensures Valid() && fenceValue == old(fenceValue) + 1
      ensures slotFence[..] == old(slotFence[..])[old(slot) := fenceValue]
    {
      fenceValue := fenceValue + 1;
      slotFence[slot] := fenceValue;
      slot := (slot + 1) % SLOTS;
    }
  }

  /** What the frame fence reaches when the GPU retires this many commands, or all there are. */
  function FenceAfter(q: seq<Command>, completed: nat, steps: nat): nat {
    if steps == 0 || q == [] then completed
    else FenceAfter(q[1..], if q[0].Signal? then q[0].due else completed, steps - 1)
  }

  function QueueAfter(q: seq<Command>, steps: nat): seq<Command> {
    if steps <= |q| then q[steps..] else []
  }

  lemma FenceAfterTwice(q: seq<Command>, completed: nat, m: nat, n: nat)
    ensures FenceAfter(QueueAfter(q, m), FenceAfter(q, completed, m), n) == FenceAfter(q, completed, m + n)
    ensures QueueAfter(QueueAfter(q, m), n) == QueueAfter(q, m + n)
  {
    if m > 0 && q != [] {
      FenceAfterTwice(q[1..], if q[0].Signal? then q[0].due else completed, m - 1, n);
      assert QueueAfter(q[1..], m - 1) == QueueAfter(q, m);
    }
  }

  /** The registrations a fence value leaves waiting. */
  function Pending(registered: set<nat>, completed: nat): set<nat> {
    set r | r in registered && completed < r
  }

  predicate Fired(registered: set<nat>, completed: nat) {
    exists r :: r in registered && r <= completed
  }

  lemma PendingTwice(registered: set<nat>, c: nat, d: nat)
    requires c <= d
    ensures Pending(Pending(registered, c), d) == Pending(registered, d)
    ensures Fired(registered, d) <==> Fired(registered, c) || Fired(Pending(registered, c), d)
  {
    if r :| r in registered && r <= d {
      assert r <= c || r in Pending(registered, c);
    }
  }

  /** What fires while an event for v is being registered. */
  lemma FiresBetween(registered: set<nat>, v: nat, c: nat, d: nat)
    requires c <= d
    ensures Pending(Pending(Pending(registered, c) + {v}, c), d) == Pending(registered + {v}, d)
    ensures Fired(registered + {v}, d)
            <==> Fired(registered, c) || c >= v || Fired(Pending(Pending(registered, c) + {v}, c), d)
  {
    assert Pending(Pending(registered, c) + {v}, c) == Pending(registered + {v}, c);
    PendingTwice(registered + {v}, c, d);
    assert Fired(registered + {v}, c) <==> Fired(registered, c) || c >= v by {
      assert c >= v ==> v in registered + {v};
      assert forall r :: r in registered && r <= c ==> r in registered + {v};
    }
  }

  lemma NoneFired(registered: set<nat>, c: nat)
    requires !Fired(registered, c)
    ensures Pending(registered, c) == registered
  {
  }

  /** The first registered value to be reached is the value waited for exactly if no lower one was registered. */
  lemma FirstToFire(registered: set<nat>, v: nat, completed: nat)
    requires completed in registered + {v} && forall r :: r in registered + {v} ==> completed <= r
    ensures completed >= v <==> !exists r :: r in registered && r < v
  {
  }

  /**
   What the GPU gets done while one wait is under way: `gap` commands before the event is registered, `slip` before
   the fence is first read again, then by turns during a timed wait and between its time-out and the next reading.
   */
  datatype Pace = Pace(gap: nat, slip: nat, windows: seq<(nat, nat)>)

  /** A wait: whether it began with a set event and a value out of reach, and whether it reached the value. */
  datatype Wait = Wait(value: nat, stale: bool, reached: bool)

  const ZERO_VALUES: seq<nat> := [0, 0, 0, 0]

  /** The audio/video test application blocks on the event alone; the switch application polls the fence as well. */
  class Ring {
    const polling: bool
    const values: array<nat>
    const timer: GpuFrameTimer
    var buffers: nat
    var frameIndex: nat

    // the device
    var queue: seq<Command>
    var completed: nat
    var marked: nat
    var memory: seq<nat>

    // the auto-reset event, and the values the fence will set it for
    var eventSet: bool
    var registered: set<nat>

    ghost var next: nat
    ghost var open: bool
    var trace: seq<Event>
    var waits: seq<Wait>

    ghost function Now(): View
      reads `frameIndex, `next, `open, `completed, `marked, values, timer
    {
      View(values[..], frameIndex, next, open, completed, marked, timer.fenceValue)
    }

    /** The rings and the queue are accounted for by the history. */
    ghost predicate Linked()
      reads `frameIndex, `next, `open, `completed, `marked, `buffers, `queue, `memory, `trace,
            values, timer, timer.slotFence
    {
      && values.Length == BUFFERS && 0 < buffers <= BUFFERS && frameIndex < buffers
      && values != timer.slotFence && timer.Valid() && |memory| == SLOTS
      && History(trace, queue, Now())
      && Ledger(trace, queue, Now(), timer.slotFence[..], memory)
    }

    /** A registered value has not been reached, and its signal is on its way. */
    ghost predicate Armed()
      reads `registered, `completed, `queue
    {
      forall r :: r in registered ==> completed < r && Signal(r) in queue
    }

    /** No wait is under way; only one that polls may have left the event set. */
    predicate NoWait()
      reads `eventSet, `registered
    {
      registered == {} && (eventSet ==> polling)
    }

    /** Only the last few submissions are still in their timestamp slots. */
    ghost predicate WellHarvested()
      reads timer, timer.slotFence
    {
      forall i :: 0 <= i < timer.slotFence.Length && timer.slotFence[i] != 0 ==>
        timer.fenceValue < timer.slotFence[i] + BUFFERS
    }

    /** Between frames. */
    ghost predicate AtRest()
      reads `frameIndex, `next, `open, `completed, `marked, `buffers, `queue, `memory, `trace,
            values, timer, timer.slotFence
    {
      Linked() && !open && values[frameIndex] == next && WellHarvested()
    }

    ghost predicate Valid()
      reads this, values, timer, timer.slotFence
    {
      AtRest() && NoWait()
    }

    /** A fresh fence and zeroed values; only the first buffer's value is raised. */
    constructor (polling: bool, buffers: nat, first: nat)
      requires 0 < buffers <= BUFFERS && first < buffers
      ensures Valid() && trace == [] && queue == [] && frameIndex == first && this.buffers == buffers
      ensures values[..] == ZERO_VALUES[first := 1] && next == 1 && timer.fenceValue == 0 && completed == 0
      ensures fresh(values) && fresh(timer) && fresh(timer.slotFence)
      ensures this.polling == polling && !eventSet && waits == []
    {
      this.polling := polling;
      this.buffers, frameIndex := buffers, first;
      values := new nat[BUFFERS](i => if i == first then 1 else 0);
      timer := new GpuFrameTimer();
      queue, completed, marked := [], 0, 0;
      memory := seq(SLOTS, _ => 0);
      eventSet, registered := false, {};
      next, open, trace, waits := 1, false, [], [];
    }

    // -------------------------------------------------------------------------------------------
    // The GPU
    // -------------------------------------------------------------------------------------------

    /** A value whose signal is on its way, or has arrived. */
    predicate Coming(v: nat)
      reads `completed, `queue
    {
      v <= completed || Signal(v) in queue
    }

    /** The next command is the earliest, and takes the fences further. */
    lemma NextInOrder()
      requires Linked() && queue != []
      ensures forall c :: c in queue ==> c == queue[0] || c in queue[1..]
      ensures forall r: nat :: queue[0].Signal? && Signal(r) in queue[1..] ==> queue[0].due < r
      ensures var v := FenceTimeline.Retire(Now(), queue[0]); v.completed >= completed && v.marked >= marked
    {
      hide Ledger;
      AgreementOf(trace, queue, Now());
      RetireKeeps(queue, Now());
      RestOf(queue);
    }

    /** The GPU retires its next command. */
    method RetireNext()
      requires Linked() && queue != []
      modifies `queue, `completed, `marked, `memory, `trace
      ensures Linked() && queue == old(queue[1..]) && Now() == FenceTimeline.Retire(old(Now()), old(queue[0]))
      ensures old(trace) <= trace
    {
      hide History, Ledger;
      RetireHistory(trace, queue, Now());
      RetireLedger(trace, queue, Now(), timer.slotFence[..], memory);
      var c := queue[0];
      queue := queue[1..];
      trace := trace + Effect(c);
      match c {
        case Signal(due) => completed := due;
        case Mark(_, stamp, _) => marked := stamp;
        case Exec(_, stamp, _) => memory := Written(c, memory);
      }
    }

    /** A command retired; a fence signal sets the event if it was registered for a value that is now reached. */
    method Retire()
      requires Linked() && Armed() && queue != []
      modifies `queue, `completed, `marked, `memory, `eventSet, `registered, `trace
      ensures Linked() && Armed() && queue == old(queue[1..])
      ensures completed == old(if queue[0].Signal? then queue[0].due else completed)
      ensures old(trace) <= trace && completed >= old(completed) && marked >= old(marked)
      ensures forall v: nat :: old(Coming(v)) ==> Coming(v)
      ensures registered == Pending(old(registered), completed)
      ensures eventSet == (old(eventSet) || Fired(old(registered), completed))
      ensures Fired(old(registered), completed) ==>
                completed in old(registered) && forall r :: r in old(registered) ==> completed <= r
    {
      hide Linked;
      NextInOrder();
      RetireNext();
      var pending := Pending(registered, completed);
      if pending != registered {
        eventSet := true;
      }
      registered := pending;
    }

    /** The GPU gets ahead by at most this many commands. */
    method RunGpu(steps: nat)
      requires Linked() && Armed()
      modifies `queue, `completed, `marked, `memory, `eventSet, `registered, `trace
      ensures Linked() && Armed() && old(trace) <= trace && completed >= old(completed) && marked >= old(marked)
      ensures queue == QueueAfter(old(queue), steps) && completed == old(FenceAfter(queue, completed, steps))
      ensures forall v: nat :: old(Coming(v)) ==> Coming(v)
      ensures registered == Pending(old(registered), completed)
      ensures eventSet == (old(eventSet) || Fired(old(registered), completed))
      decreases steps
    {
      hide Linked, Coming;
      if steps > 0 && queue != [] {
        ghost var before := registered;
        Retire();
        ghost var mid := completed;
        RunGpu(steps - 1);
        PendingTwice(before, mid, completed);
      }
    }

    // -------------------------------------------------------------------------------------------
    // Waiting
    // -------------------------------------------------------------------------------------------

    /**
     Blocks until the fence reaches a value that has been signalled. The event is registered once and consumed
     once, so no later wait can be woken by it; the GPU always has the signal to come to, so the wait ends.
     */
    method WaitFor(v: nat, early: nat)
      requires Linked() && registered == {} && !eventSet && Coming(v)
      modifies `queue, `completed, `marked, `memory, `eventSet, `registered, `trace
      ensures Linked() && registered == {} && !eventSet && completed >= v && marked >= old(marked)
      ensures old(trace) <= trace
      ensures old(completed) >= v ==> queue == old(queue) && trace == old(trace)
    {
      hide Linked;
      if completed >= v {
        return;
      }
      RunGpu(early);
      SetEventOnCompletion(v);
      while !eventSet
        invariant Linked() && Armed() && old(trace) <= trace && marked >= old(marked)
        invariant if eventSet then registered == {} && completed >= v else registered == {v} && completed < v
        decreases |queue|
      {
        Retire();
      }
      eventSet := false;
    }

    /** The event will be set when the fence gets there, or is set at once. */
    method SetEventOnCompletion(v: nat)
      requires Armed() && Coming(v)
      modifies `eventSet, `registered
      ensures Armed() && registered == Pending(old(registered) + {v}, completed)
      ensures eventSet == (old(eventSet) || completed >= v)
    {
      if completed >= v {
        eventSet := true;
      } else {
        registered := registered + {v};
      }
    }

    /** Whether the GPU's next commands complete the value. */
    predicate Within(v: nat, steps: nat)
      reads `queue, `completed
    {
      completed >= v || FenceAfter(queue, completed, steps) >= v
    }

    /** Something other than the value will be the first to set the event, or has set it already. */
    ghost predicate Misled(v: nat, steps: nat)
      reads `queue, `completed, `eventSet, `registered
    {
      !Within(v, steps) && (eventSet || exists r :: r in registered && r < v)
    }

    /**
     The wait of the switch application: it polls the fence around timed waits, so it can leave without consuming
     the event or the registration, and it takes a set event for the fence. It returns early exactly if it is woken
     after having been misled: by an event that was left set, or by the registration of an earlier wait.
     `woken`: whether it left by consuming the event.
     */
    method PatientWait(v: nat, pace: Pace) returns (woken: bool)
      requires Linked() && Armed() && Coming(v)
      modifies `queue, `completed, `marked, `memory, `eventSet, `registered, `trace
      ensures Linked() && Armed() && old(trace) <= trace
      ensures completed >= v <==> !(woken && old(Misled(v, pace.gap + pace.slip)))
      ensures old(eventSet && !Within(v, pace.gap + pace.slip)) ==> woken
      ensures old(Within(v, pace.gap + pace.slip)) ==> !woken
      // what is left behind
      ensures registered == Pending(old(registered) + {v}, completed)
      ensures eventSet == (!woken && old(eventSet || completed < v))
      // how far the GPU has got, when the first reading of the fence or the first look at the event decides
      ensures old(completed >= v) ==> queue == old(queue) && completed == old(completed)
      ensures old(completed < v && (eventSet || Within(v, pace.gap + pace.slip))) ==>
                queue == QueueAfter(old(queue), pace.gap + pace.slip)
    {
      hide Linked;
      woken := false;
      if completed >= v {
        return;
      }
      Register(v, pace);
      ghost var first := true;
      var w := 0;
      while completed < v
        invariant Linked() && Armed() && old(trace) <= trace && 0 <= w <= |pace.windows|
        invariant registered == Pending(old(registered) + {v}, completed)
        invariant eventSet == (old(eventSet) || Fired(old(registered) + {v}, completed))
        invariant first ==> queue == QueueAfter(old(queue), pace.gap + pace.slip)
                            && (completed >= v <==> old(Within(v, pace.gap + pace.slip)))
        invariant !first ==> !old(eventSet) && !old(Within(v, pace.gap + pace.slip))
        decreases |queue|, |pace.windows| - w
      {
        ghost var waiting, head := old(registered) + {v}, completed;
        woken := TimedWait(if w < |pace.windows| then pace.windows[w].0 else 1);
        PendingTwice(waiting, head, completed);
        if woken {
          if !Fired(waiting, head) && !old(eventSet) {
            NoneFired(waiting, head);
            FirstToFire(old(registered), v, completed);
          }
          return;
        }
        head := completed;
        RunGpu(if w < |pace.windows| then pace.windows[w].1 else 0);
        PendingTwice(waiting, head, completed);
        first := false;
        if w < |pace.windows| {
          w := w + 1;
        }
      }
    }

    /** The GPU does not stand still while the event is being registered. */
    method Register(v: nat, pace: Pace)
      requires Linked() && Armed() && Coming(v) && completed < v
      modifies `queue, `completed, `marked, `memory, `eventSet, `registered, `trace
      ensures Linked() && Armed() && old(trace) <= trace && completed >= old(completed)
      ensures registered == Pending(old(registered) + {v}, completed)
      ensures eventSet == (old(eventSet) || Fired(old(registered) + {v}, completed))
      ensures queue == QueueAfter(old(queue), pace.gap + pace.slip)
      ensures completed == old(FenceAfter(queue, completed, pace.gap + pace.slip))
    {
      hide Linked, Pending, Fired;
      FenceAfterTwice(queue, completed, pace.gap, pace.slip);
      ghost var before := registered;
      RunGpu(pace.gap);
      ghost var between := completed;
      SetEventOnCompletion(v);
      RunGpu(pace.slip);
      FiresBetween(before, v, between, completed);
    }

    /** Up to a hundred milliseconds: the GPU makes some progress until the event is set, which is then consumed. */
    method TimedWait(steps: nat) returns (woken: bool)
      requires Linked() && Armed()
      modifies `queue, `completed, `marked, `memory, `eventSet, `registered, `trace
      ensures Linked() && Armed() && old(trace) <= trace && !eventSet
      ensures woken == (old(eventSet) || Fired(old(registered), completed))
      ensures registered == Pending(old(registered), completed)
      ensures old(eventSet) ==> queue == old(queue) && completed == old(completed)
      ensures woken && !old(eventSet) ==>
                completed in old(registered) && forall r :: r in old(registered) ==> completed <= r
      ensures completed >= old(completed)
      ensures |queue| <= old(|queue|) && (steps > 0 && old(queue) != [] && !old(eventSet) ==> |queue| < old(|queue|))
    {
      hide Linked, Coming;
      woken := eventSet;
      var k := 0;
      while k < steps && queue != [] && !woken
        invariant 0 <= k <= steps && Linked() && Armed() && old(trace) <= trace && |queue| + k <= old(|queue|)
        invariant registered == Pending(old(registered), completed)
        invariant eventSet == woken == (old(eventSet) || Fired(old(registered), completed))
        invariant woken && !old(eventSet) ==>
                    completed in old(registered) && forall r :: r in old(registered) ==> completed <= r
        invariant k == 0 || woken || |queue| < old(|queue|)
        invariant old(eventSet) || k == 0 ==> queue == old(queue) && completed == old(completed)
        invariant (k == 0 ==> woken == old(eventSet)) && completed >= old(completed)
      {
        Retire();
        woken := eventSet;
        k := k + 1;
      }
      eventSet := false;
    }

    /** One wait of either application, put on record. */
    method Await(v: nat, pace: Pace)
      requires Linked() && NoWait() && Coming(v)
      modifies `queue, `completed, `marked, `memory, `eventSet, `registered, `trace, `waits
      ensures Linked() && old(trace) <= trace && (completed >= v ==> NoWait())
      ensures var stale := old(eventSet && !Within(v, pace.gap + pace.slip));
              waits == old(waits) + [Wait(v, stale, completed >= v)] && (completed >= v <==> !stale)
      ensures !polling ==> completed >= v
    {
      hide Linked;
      var stale := eventSet && !Within(v, pace.gap + pace.slip);
      if polling {
        var _ := PatientWait(v, pace);
      } else {
        WaitFor(v, pace.gap);
      }
      waits := waits + [Wait(v, stale, completed >= v)];
    }

    // -------------------------------------------------------------------------------------------
    // Frames
    // -------------------------------------------------------------------------------------------

    /**
     Records and submits one frame: the allocator is reset and the timestamp slot rewritten, both of which the
     history must allow; afterwards every slot the GPU has finished with is harvested.
     */
    method SubmitFrame(ahead: nat)
      requires Valid()
      modifies `queue, `completed, `marked, `memory, `eventSet, `registered, `trace, `open, timer, timer.slotFence
      ensures Linked() && NoWait() && open && values[frameIndex] == next && old(trace) <= trace
      ensures WellHarvested()
      ensures timer.fenceValue == old(timer.fenceValue) + 1
      ensures var frame, due := old(timer.fenceValue) + 1, next;
              queue == QueueAfter(old(queue) + [Exec(frameIndex, frame, due), Mark(frameIndex, frame, due)], ahead)
      ensures old(trace) + [Reset(frameIndex), Recorded(old(timer.slot)), Queued(frameIndex, timer.fenceValue)] <= trace
    {
      hide History, Ledger;
      BeginFrame();
      Execute();
      RunGpu(ahead);
      Harvest();
    }

    method BeginFrame()
      requires AtRest()
      modifies `trace
      ensures AtRest() && timer.slotFence[timer.slot] == 0
      ensures trace == old(trace) + [Reset(frameIndex), Recorded(timer.slot)]
    {
      hide History, Ledger;
      ghost var fences := timer.slotFence[..];
      ResetAllowed(trace, queue, Now());
      LedgerIgnores(trace, queue, Now(), fences, memory, Reset(frameIndex));
      trace := trace + [Reset(frameIndex)];
      RecordAllowed(trace, queue, Now(), fences, memory);
      trace := trace + [Recorded(timer.slot)];
    }

    method Execute()
      requires AtRest() && timer.slotFence[timer.slot] == 0
      modifies `queue, `trace, `open, timer, timer.slotFence
      ensures Linked() && open && values[frameIndex] == next
      ensures queue == old(queue) + [Exec(frameIndex, timer.fenceValue, next), Mark(frameIndex, timer.fenceValue, next)]
      ensures timer.fenceValue == old(timer.fenceValue) + 1
      ensures trace == old(trace) + [Queued(frameIndex, timer.fenceValue)]
    {
      hide History, Ledger;
      AgreementOf(trace, queue, Now());
      SubmitHistory(trace, queue, Now());
      SubmitLedger(trace, queue, Now(), timer.slotFence[..], memory);
      queue := queue + [Exec(frameIndex, timer.fenceValue + 1, values[frameIndex]),
                        Mark(frameIndex, timer.fenceValue + 1, values[frameIndex])];
      trace := trace + [Queued(frameIndex, timer.fenceValue + 1)];
      open := true;
      timer.Advance();
    }

    method Harvest()
      requires Linked()
      modifies `trace, timer.slotFence
      ensures Linked() && old(trace) <= trace
      ensures WellHarvested()
      ensures forall i :: 0 <= i < SLOTS ==>
                timer.slotFence[i] == if old(timer.slotFence[i]) <= marked then 0 else old(timer.slotFence[i])
    {
      hide History, Ledger;
      ghost var before := timer.slotFence[..];
      var i := 0;
      while i < SLOTS
        invariant 0 <= i <= SLOTS && Linked() && old(trace) <= trace
        invariant forall j :: 0 <= j < i ==> timer.slotFence[j] == if before[j] <= marked then 0 else before[j]
        invariant forall j :: i <= j < SLOTS ==> timer.slotFence[j] == before[j]
      {
        if timer.slotFence[i] != 0 && timer.slotFence[i] <= marked {
          HarvestOne(trace, queue, Now(), timer.slotFence[..], memory, i);
          trace := trace + [Harvested(timer.slotFence[i], memory[i])];
          timer.slotFence[i] := 0;
        }
        i := i + 1;
      }
      AgreementOf(trace, queue, Now());
      FewInFlight(queue, Now());
    }

    /** Closes the frame: its value is signalled on the queue. */
    method SignalQueue()
      requires Linked() && values[frameIndex] == next
      modifies `queue, `trace, `next, `open
      ensures Linked() && !open && next == old(next) + 1
      ensures queue == old(queue) + [Signal(values[frameIndex])]
      ensures trace == old(trace) + [Signalled(values[frameIndex])]
      ensures forall i :: 0 <= i < BUFFERS ==> values[i] < next
    {
      hide History, Ledger;
      AgreementOf(trace, queue, Now());
      SignalHistory(trace, queue, Now());
      SignalLedger(trace, queue, Now(), timer.slotFence[..], memory);
      trace := trace + [Signalled(values[frameIndex])];
      queue := queue + [Signal(values[frameIndex])];
      next, open := next + 1, false;
    }

    /** A buffer becomes current with the next value, which is in order if its noted value is complete. */
    method Become(i: nat, value: nat)
      requires values.Length == BUFFERS && i < buffers <= BUFFERS
      modifies `frameIndex, values
      ensures frameIndex == i && values[..] == old(values[..])[i := value]
      ensures old(Linked() && !open && values[i] <= completed && value == next && WellHarvested()) ==> AtRest()
    {
      hide History, Ledger;
      if Linked() && !open && values[i] <= completed {
        TakeBufferHistory(trace, queue, Now(), i);
        TakeBufferLedger(trace, queue, Now(), timer.slotFence[..], memory, i);
      }
      frameIndex := i;
      values[i] := value;
    }

    /** A buffer is taken after the wait for its value; `ready`: whether the wait was right to end. */
    method TakeBuffer(i: nat, value: nat, pace: Pace) returns (ready: bool)
      requires Linked() && NoWait() && !open && i < buffers && values[i] < next == value && WellHarvested()
      modifies `queue, `completed, `marked, `memory, `eventSet, `registered, `trace, `waits, `frameIndex, values
      ensures frameIndex == i && values[..] == old(values[..])[i := value]
      ensures ready ==> Valid() && completed >= old(values[i])
      ensures OneMoreWait(old(waits), ready) && (!polling ==> ready) && SafeTrace(trace)
      ensures old(trace) + [Waited(old(values[i]))] <= trace
    {
      hide History, Ledger;
      WaitHistory(trace, queue, Now(), i);
      LedgerIgnores(trace, queue, Now(), timer.slotFence[..], memory, Waited(values[i]));
      trace := trace + [Waited(values[i])];
      Await(values[i], pace);
      ready := completed >= values[i];
      AgreementOf(trace, queue, Now());
      Become(i, value);
    }

    /** One wait more is on record, which reached its value unless it began with a stale event. */
    ghost predicate OneMoreWait(before: seq<Wait>, reached: bool)
      reads `waits
    {
      |waits| == |before| + 1 && before <= waits && waits[|before|].reached == reached == !waits[|before|].stale
    }

    /** Ends a frame: its value is signalled, and the buffer the swapchain names next is waited for. */
    method MoveToNextFrame(reported: nat, pace: Pace) returns (ready: bool)
      requires Linked() && NoWait() && values[frameIndex] == next
      requires WellHarvested()
      modifies `queue, `completed, `marked, `memory, `eventSet, `registered, `trace, `waits, `next, `open, `frameIndex,
               values
      ensures frameIndex == reported % buffers && (ready ==> Valid())
      ensures OneMoreWait(old(waits), ready) && (!polling ==> ready) && SafeTrace(trace)
      ensures old(trace) + [Signalled(old(values[frameIndex]))] <= trace
    {
      var current := values[frameIndex];
      SignalQueue();
      ready := TakeBuffer(reported % buffers, current + 1, pace);
    }

    /** Everything submitted is waited for; afterwards nothing is queued, unless the wait was misled. */
    method WaitForGpu(pace: Pace) returns (ready: bool)
      requires Valid()
      modifies `queue, `completed, `marked, `memory, `eventSet, `registered, `trace, `waits, `next, `open, `frameIndex,
               values
      ensures frameIndex == old(frameIndex) && (ready ==> Valid() && queue == [] && completed + 1 == next)
      ensures OneMoreWait(old(waits), ready) && (!polling ==> ready) && SafeTrace(trace)
      ensures old(trace) + [Signalled(old(values[frameIndex]))] <= trace
    {
      hide History, Ledger;
      SignalQueue();
      ready := TakeBuffer(frameIndex, values[frameIndex] + 1, pace);
      if ready {
        AgreementOf(trace, queue, Now());
        DrainedIsEmpty(queue, Now());
      }
    }

    /** A new swapchain: after the drain every buffer's value becomes the next one, whatever buffer is current. */
    method RecreateSwapChain(count: nat, first: nat, pace: Pace) returns (ready: bool)
      requires Valid() && 0 < count <= BUFFERS && first < count
      modifies this, values
      ensures old(trace) <= trace && buffers == count && frameIndex == first
      ensures OneMoreWait(old(waits), ready) && (!polling ==> ready) && SafeTrace(trace)
      ensures ready ==> Valid() && forall i :: 0 <= i < BUFFERS ==> values[i] == completed + 1
    {
      hide History, Ledger;
      ready := WaitForGpu(pace);
      if ready {
        RestartHistory(trace, Now(), first);
        RestartLedger(trace, Now(), timer.slotFence[..], memory, first);
      }
      buffers, frameIndex := count, first;
      var i := 0;
      while i < BUFFERS
        invariant 0 <= i <= BUFFERS
        invariant forall j :: 0 <= j < i ==> values[j] == completed + 1
        modifies values
      {
        values[i] := completed + 1;
        i := i + 1;
      }
      assert values[..] == AllAt(completed + 1);
    }
  }

  /** What may happen to the ring between frames; the numbers are the environment's choice. */
  datatype Op =
    | RenderFrame(ahead: nat, reported: nat, pace: Pace)
    | Drain(pace: Pace)
    | Recreate(count: nat, first: nat, pace: Pace)
    | GpuRuns(steps: nat)

  predicate Possible(op: Op) {
    op.Recreate? ==> 0 < op.count <= BUFFERS && op.first < op.count
  }

  function FramesIn(ops: seq<Op>): nat {
    if ops == [] then 0 else FramesIn(ops[..|ops| - 1]) + if ops[|ops| - 1].RenderFrame? then 1 else 0
  }

  /** Every operation but a pause for the GPU waits once. */
  function WaitsIn(ops: seq<Op>): nat {
    if ops == [] then 0 else WaitsIn(ops[..|ops| - 1]) + if ops[|ops| - 1].GpuRuns? then 0 else 1
  }

  ghost predicate WasQueued(t: seq<Event>, s: nat) {
    exists b: nat :: Queued(b, s) in t
  }

  /** The first n submissions are all in the history. */
  ghost predicate AllQueued(t: seq<Event>, n: nat) {
    forall s: nat :: 0 < s <= n ==> WasQueued(t, s)
  }

  lemma QueuedGrows(t: seq<Event>, u: seq<Event>, n: nat)
    requires t <= u && AllQueued(t, n)
    ensures AllQueued(u, n)
  {
    forall s: nat | 0 < s <= n
      ensures WasQueued(u, s)
    {
      assert WasQueued(t, s);
      var b: nat :| Queued(b, s) in t;
      assert Queued(b, s) in u;
    }
  }

  method Perform(ring: Ring, op: Op) returns (ready: bool)
    requires ring.Valid() && Possible(op)
    modifies ring, ring.values, ring.timer, ring.timer.slotFence
    ensures (ready ==> ring.Valid()) && old(ring.trace) <= ring.trace && SafeTrace(ring.trace)
    ensures ring.timer.fenceValue == old(ring.timer.fenceValue) + if op.RenderFrame? then 1 else 0
    ensures op.RenderFrame? ==> WasQueued(ring.trace, ring.timer.fenceValue)
    ensures if op.GpuRuns? then ready && ring.waits == old(ring.waits) else ring.OneMoreWait(old(ring.waits), ready)
    ensures !ring.polling ==> ready
    ensures op.GpuRuns? ==> ring.queue == QueueAfter(old(ring.queue), op.steps)
  {
    hide History, Ledger, SafeTrace;
    match op {
      case RenderFrame(ahead, reported, pace) =>
        ghost var n := |ring.trace|;
        ring.SubmitFrame(ahead);
        ghost var queued := Queued(ring.frameIndex, ring.timer.fenceValue);
        assert ring.trace[n + 2] == queued;
        ready := ring.MoveToNextFrame(reported, pace);
        assert ring.trace[n + 2] == queued;
      case Drain(pace) => ready := ring.WaitForGpu(pace);
      case Recreate(count, start, pace) => ready := ring.RecreateSwapChain(count, start, pace);
      case GpuRuns(steps) =>
        ring.RunGpu(steps);
        RingIsSafe(ring);
        ready := true;
    }
  }

  /**
   Any run of the ring, in any interleaving with the GPU, up to the first wait that does not reach its value. It obeys
   the rules: no allocator is reset under a queued command list, signalled values only grow, only signalled values are
   waited for, no timestamp slot is rewritten before it was harvested, and each submission is harvested at most once,
   after its fence, with its own contents. A wait reaches its value exactly unless it begins with a set event and a
   value out of reach, which only happens where the fence is polled; if every wait does, the run is complete and every
   frame of it is in the history.
   */
  method RunRing(polling: bool, buffers: nat, first: nat, ops: seq<Op>) returns (trace: seq<Event>, waits: seq<Wait>)
    requires 0 < buffers <= BUFFERS && first < buffers
    requires forall k :: 0 <= k < |ops| ==> Possible(ops[k])
    ensures SafeTrace(trace)
    ensures forall k :: 0 <= k < |waits| ==> (waits[k].reached <==> !waits[k].stale)
    ensures forall k :: 0 <= k < |waits| - 1 ==> waits[k].reached
    ensures !polling ==> AllReached(waits)
    ensures AllReached(waits) ==> |waits| == WaitsIn(ops) && AllQueued(trace, FramesIn(ops))
  {
    hide *;
    var ring := new Ring(polling, buffers, first);
    NoFrames(ops);
    var k, ready := 0, true;
    while k < |ops| && ready
      invariant 0 <= k <= |ops| && (ready ==> ring.Valid()) && SafeTrace(ring.trace) && ring.polling == polling
      invariant fresh(ring) && fresh(ring.values) && fresh(ring.timer) && fresh(ring.timer.slotFence)
      invariant ring.timer.fenceValue == FramesIn(ops[..k]) && AllQueued(ring.trace, FramesIn(ops[..k]))
      invariant |ring.waits| == WaitsIn(ops[..k]) && Followed(ring.waits, ready) && (!polling ==> ready)
    {
      ghost var before, waited := ring.trace, ring.waits;
      ready := Perform(ring, ops[k]);
      OneMoreOp(ops, k, before, ring.trace);
      Follow(ring, ops[k], waited, ready);
      k := k + 1;
    }
    assert ops[..k] == ops || !ready;
    FollowedMeans(ring.waits, ready);
    trace, waits := ring.trace, ring.waits;
  }

  ghost predicate AllReached(waits: seq<Wait>) {
    forall k :: 0 <= k < |waits| ==> waits[k].reached
  }

  /** Every wait but perhaps the last reached its value, and exactly the stale ones did not. */
  ghost predicate Followed(waits: seq<Wait>, ready: bool) {
    && (forall k :: 0 <= k < |waits| ==> (waits[k].reached <==> !waits[k].stale))
    && (forall k :: 0 <= k < |waits| - 1 ==> waits[k].reached)
    && (if waits == [] then ready else waits[|waits| - 1].reached == ready)
  }

  lemma FollowedMeans(waits: seq<Wait>, ready: bool)
    requires Followed(waits, ready)
    ensures forall k :: 0 <= k < |waits| ==> (waits[k].reached <==> !waits[k].stale)
    ensures forall k :: 0 <= k < |waits| - 1 ==> waits[k].reached
    ensures AllReached(waits) <==> ready
  {
  }

  lemma Follow(ring: Ring, op: Op, before: seq<Wait>, ready: bool)
    requires Followed(before, true)
    requires if op.GpuRuns? then ready && ring.waits == before else ring.OneMoreWait(before, ready)
    ensures Followed(ring.waits, ready) && |ring.waits| == |before| + if op.GpuRuns? then 0 else 1
  {
  }

  lemma NoFrames(ops: seq<Op>)
    ensures FramesIn(ops[..0]) == 0 && WaitsIn(ops[..0]) == 0 && AllQueued([], 0) && SafeTrace([]) && Followed([], true)
  {
  }

  lemma OneMoreOp(ops: seq<Op>, k: nat, before: seq<Event>, after: seq<Event>)
    requires k < |ops| && before <= after && AllQueued(before, FramesIn(ops[..k]))
    requires ops[k].RenderFrame? ==> WasQueued(after, FramesIn(ops[..k]) + 1)
    ensures FramesIn(ops[..k + 1]) == FramesIn(ops[..k]) + (if ops[k].RenderFrame? then 1 else 0)
    ensures WaitsIn(ops[..k + 1]) == WaitsIn(ops[..k]) + (if ops[k].GpuRuns? then 0 else 1)
    ensures AllQueued(after, FramesIn(ops[..k + 1]))
  {
    QueuedGrows(before, after, FramesIn(ops[..k]));
    assert ops[..k + 1][..k] == ops[..k];
  }

  lemma RingIsSafe(ring: Ring)
    requires ring.Linked()
    ensures SafeTrace(ring.trace)
  {
  }

  // ---------------------------------------------------------------------------------------------
  // A run of the switch application's wait that breaks the rules
  // ---------------------------------------------------------------------------------------------

  const NO_PROGRESS := Pace(0, 0, [])

  /** One frame up to its signal, with no progress on the GPU. */
  method FrameInOneGo(ring: Ring)
    requires ring.AtRest()
    modifies ring`queue, ring`trace, ring`open, ring`next, ring.timer, ring.timer.slotFence
    ensures ring.Linked() && !ring.open && ring.WellHarvested() && ring.next == old(ring.next) + 1
    ensures var b, s, due := ring.frameIndex, ring.timer.fenceValue, ring.values[ring.frameIndex];
            && ring.queue == old(ring.queue) + [Exec(b, s, due), Mark(b, s, due), Signal(due)]
            && Queued(b, s) in ring.trace && s == old(ring.timer.fenceValue) + 1
    ensures old(ring.trace) <= ring.trace
    ensures forall i :: 0 <= i < BUFFERS ==> ring.values[i] < ring.next
  {
    hide History, Ledger;
    ring.BeginFrame();
    ring.Execute();
    assert ring.trace[|ring.trace| - 1] == Queued(ring.frameIndex, ring.timer.fenceValue);
    ring.Harvest();
    ring.SignalQueue();
  }

  predicate Clear(ring: Ring)
    reads ring`eventSet, ring`registered
  {
    !ring.eventSet && ring.registered == {}
  }

  method FirstFrame() returns (ring: Ring)
    ensures fresh(ring) && fresh(ring.values) && fresh(ring.timer) && fresh(ring.timer.slotFence)
    ensures ring.AtRest() && Clear(ring) && ring.buffers == 2 && ring.frameIndex == 1
    ensures ring.values[..] == [1, 2, 0, 0] && ring.queue == [Exec(0, 1, 1), Mark(0, 1, 1), Signal(1)]
    ensures ring.timer.fenceValue == 1 && ring.next == 2
  {
    hide History, Ledger;
    ring := new Ring(true, 2, 0);
    FrameInOneGo(ring);
    var _ := ring.PatientWait(ring.values[1], NO_PROGRESS);
    ring.Become(1, 2);
  }

  /** Two frames, neither of which the GPU has touched. */
  method TwoFrames() returns (ring: Ring)
    ensures fresh(ring) && fresh(ring.values) && fresh(ring.timer) && fresh(ring.timer.slotFence)
    ensures ring.Linked() && !ring.open && ring.WellHarvested() && Clear(ring)
    ensures ring.buffers == 2 && ring.frameIndex == 1
    ensures ring.values[..] == [1, 2, 0, 0] && ring.next == 3 && ring.completed < 1
    ensures ring.queue == [Exec(0, 1, 1), Mark(0, 1, 1), Signal(1)] + [Exec(1, 2, 2), Mark(1, 2, 2), Signal(2)]
    ensures Queued(1, 2) in ring.trace
  {
    hide History, Ledger;
    ring := FirstFrame();
    FrameInOneGo(ring);
    AgreementOf(ring.trace, ring.queue, ring.Now());
  }

  /** The wait between the next two finds its value at the last moment and leaves the event set. */
  method LeaveEventSet() returns (ring: Ring)
    ensures fresh(ring) && fresh(ring.values) && fresh(ring.timer) && fresh(ring.timer.slotFence)
    ensures ring.AtRest() && ring.buffers == 2 && ring.frameIndex == 0 && ring.eventSet && ring.registered == {}
    ensures ring.values[..] == [3, 2, 0, 0] && ring.queue == [Exec(1, 2, 2), Mark(1, 2, 2), Signal(2)]
    ensures Queued(1, 2) in ring.trace
  {
    hide History, Ledger;
    ring := TwoFrames();
    ghost var q := ring.queue;
    ThirdIsSignal(q, ring.completed);
    assert q[2] == Signal(1) && q[3..] == [Exec(1, 2, 2), Mark(1, 2, 2), Signal(2)];
    hide FenceAfter;
    assert ring.values[0] == 1 && Signal(1) in q;
    var _ := ring.PatientWait(1, Pace(3, 0, []));
    assert ring.queue == q[3..] && ring.values[0] == 1;
    hide Ring.Linked, Ring.WellHarvested, Ring.Within, Ring.Coming;
    ring.Become(0, 3);
  }

  lemma ThirdIsSignal(q: seq<Command>, completed: nat)
    requires |q| > 3 && !q[0].Signal? && !q[1].Signal? && q[2].Signal?
    ensures FenceAfter(q, completed, 3) == q[2].due
  {
    assert FenceAfter(q[1..], completed, 2) == FenceAfter(q[1..][1..], completed, 1);
    assert q[1..][1..][0] == q[2];
    assert FenceAfter(q[1..][1..], completed, 1) == FenceAfter(q[1..][1..][1..], q[2].due, 0);
  }

  /** The next wait takes the event for its own, and the allocator of a queued command list is reset. */
  method StaleEventRun() returns (trace: seq<Event>)
    ensures !SafeTrace(trace)
  {
    hide History, Ledger;
    var ring := LeaveEventSet();
    FrameInOneGo(ring);
    assert ring.queue[0] == Exec(1, 2, 2) && ring.queue[2] == Signal(2);
    AgreementOf(ring.trace, ring.queue, ring.Now());
    var _ := ring.PatientWait(ring.values[1], NO_PROGRESS);
    trace := ring.trace + [Reset(1)];
    QueuedIsNotFinished(ring.trace, ring.queue, ring.Now(), 1, 2);
  }
}
