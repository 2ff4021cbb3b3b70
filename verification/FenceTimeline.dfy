/**
 The GPU command queue as the CPU has filled it, and the agreement between the queue and the CPU's fence
 values that makes it safe to reuse a command allocator.
 */
module FenceTimeline {

  const BUFFERS: nat := 4

  /**
   `Exec` runs a frame's command list, which was recorded with the allocator of `buffer` and writes the
   timestamps of submission `stamp`; `Mark` signals the timer's fence with `stamp`; `Signal` signals the frame
   fence. `due` is the frame-fence value that closes the frame the command belongs to.
   */
  datatype Command =
    | Exec(buffer: nat, stamp: nat, due: nat)
    | Mark(buffer: nat, stamp: nat, due: nat)
    | Signal(due: nat)

  /**
   `values[i]`: the fence value to wait for before buffer i is used again. `next`: the next value to signal.
   `completed`, `marked`: what the frame fence and the timer fence have reached. `submitted`: frames so far.
   `open`: the current frame is submitted and not yet closed by a signal.
   */
  datatype View = View(values: seq<nat>, frame: nat, next: nat, open: bool, completed: nat, marked: nat, submitted: nat)

  predicate Before(a: Command, b: Command) {
    && a.due <= b.due && (a.Signal? ==> a.due < b.due)
    && (!a.Signal? && !b.Signal? ==>
          && a.stamp <= b.stamp && (a.Mark? || b.Exec? ==> a.stamp < b.stamp)
          && (a.due == b.due <==> a.stamp == b.stamp))
  }

  ghost predicate Ordered(q: seq<Command>) {
    forall j, k :: 0 <= j < k < |q| ==> Before(q[j], q[k])
  }

  ghost predicate Marks(q: seq<Command>, stamp: nat) {
    exists k :: 0 <= k < |q| && q[k].Mark? && q[k].stamp == stamp
  }

  ghost predicate Sound(q: seq<Command>, v: View) {
    && |v.values| == BUFFERS && v.frame < BUFFERS
    && v.completed < v.next && v.marked <= v.submitted
    && (forall i :: 0 <= i < BUFFERS ==>
          v.values[i] <= v.next
          && (v.values[i] == v.next || v.values[i] <= v.completed || Signal(v.values[i]) in q))
    && (forall k :: 0 <= k < |q| ==>
          && v.completed < q[k].due <= v.next
          && (q[k].due == v.next ==> v.open && !q[k].Signal?)
          && (q[k].due < v.next ==> Signal(q[k].due) in q)
          && (!q[k].Signal? ==> q[k].buffer < BUFFERS && v.values[q[k].buffer] == q[k].due
                                && v.marked < q[k].stamp <= v.submitted))
    && Ordered(q)
    && (forall s :: v.marked < s <= v.submitted ==> Marks(q, s))
  }

  /** Between frames, the CPU may record with the current buffer's allocator: nothing queued uses it. */
  lemma AllocatorIsFree(q: seq<Command>, v: View)
    requires Sound(q, v) && !v.open && v.values[v.frame] == v.next
    ensures forall k :: 0 <= k < |q| && !q[k].Signal? ==> q[k].buffer != v.frame
  {
  }

  /** The fences after the GPU has retired a command. */
  function Retire(v: View, c: Command): View {
    match c
    case Signal(due) => v.(completed := due)
    case Mark(_, stamp, _) => v.(marked := stamp)
    case Exec(_, _, _) => v
  }

  lemma RestOf(q: seq<Command>)
    requires q != [] && Ordered(q)
    ensures Ordered(q[1..])
    ensures forall c :: c in q[1..] ==> c in q && Before(q[0], c)
    ensures forall c :: c in q ==> c == q[0] || c in q[1..]
    ensures forall s :: Marks(q, s) && !(q[0].Mark? && q[0].stamp == s) ==> Marks(q[1..], s)
  {
    var rest := q[1..];
    assert forall k :: 0 <= k < |rest| ==> rest[k] == q[k + 1];
    assert forall k :: 1 <= k < |q| ==> q[k] == rest[k - 1];
  }

  /** Whatever the GPU retires next, the agreement stands; the timer's marks are retired one by one. */
  lemma RetireKeeps(q: seq<Command>, v: View)
    requires Sound(q, v) && q != []
    ensures Sound(q[1..], Retire(v, q[0]))
    ensures q[0].Mark? ==> q[0].stamp == v.marked + 1
  {
    var rest := q[1..];
    RestOf(q);
    assert forall k :: 0 <= k < |rest| ==> rest[k] in rest;
    if q[0].Mark? {
      assert Marks(q, v.marked + 1);
      assert q[0].stamp == v.marked + 1;
    }
  }

  lemma SubmitOrdered(q: seq<Command>, v: View)
    requires Sound(q, v) && !v.open
    ensures Ordered(q + [Exec(v.frame, v.submitted + 1, v.next), Mark(v.frame, v.submitted + 1, v.next)])
  {
    var r := q + [Exec(v.frame, v.submitted + 1, v.next), Mark(v.frame, v.submitted + 1, v.next)];
    forall j, k | 0 <= j < k < |r|
      ensures Before(r[j], r[k])
    {
      assert j < |q| ==> r[j] == q[j] && q[j].due < v.next;
      assert k < |q| ==> r[k] == q[k];
    }
  }

  lemma SubmitKeeps(q: seq<Command>, v: View)
    requires Sound(q, v) && !v.open && v.values[v.frame] == v.next
    ensures var s := v.submitted + 1;
            Sound(q + [Exec(v.frame, s, v.next), Mark(v.frame, s, v.next)], v.(open := true, submitted := s))
  {
    var s := v.submitted + 1;
    var added := [Exec(v.frame, s, v.next), Mark(v.frame, s, v.next)];
    var r := q + added;
    assert forall k :: 0 <= k < |q| ==> r[k] == q[k];
    assert r[|q|] == added[0] && r[|q| + 1] == added[1];
    forall t: nat | Marks(q, t)
      ensures Marks(r, t)
    {
      var k :| 0 <= k < |q| && q[k].Mark? && q[k].stamp == t;
      assert r[k].Mark?;
    }
    assert Marks(r, s);
    SubmitOrdered(q, v);
    hide Ordered, Before, Marks;
  }

  /** The signal closes the frame; the CPU's own value for it is now one behind. */
  lemma SignalKeeps(q: seq<Command>, v: View)
    requires Sound(q, v) && v.values[v.frame] == v.next
    ensures Sound(q + [Signal(v.next)], v.(next := v.next + 1, open := false))
  {
    var r := q + [Signal(v.next)];
    assert forall k :: 0 <= k < |q| ==> r[k] == q[k];
    assert r[|q|] == Signal(v.next);
    forall t: nat | Marks(q, t)
      ensures Marks(r, t)
    {
      var k :| 0 <= k < |q| && q[k].Mark? && q[k].stamp == t;
      assert r[k].Mark?;
    }
  }

  /** Once the value noted for a buffer is complete, the buffer may become current with the next value. */
  lemma TakeBufferKeeps(q: seq<Command>, v: View, i: nat)
    requires Sound(q, v) && !v.open && i < BUFFERS && v.values[i] <= v.completed
    ensures Sound(q, v.(values := v.values[i := v.next], frame := i))
  {
  }

  lemma FrontIsOutstanding(q: seq<Command>, v: View)
    requires Sound(q, v)
    ensures q != [] ==> v.completed < q[0].due && (v.open || q[0].due < v.next)
  {
  }

  /** When everything signalled is complete, nothing is queued. */
  lemma DrainedIsEmpty(q: seq<Command>, v: View)
    requires Sound(q, v) && !v.open && v.completed + 1 == v.next
    ensures q == []
  {
    FrontIsOutstanding(q, v);
  }

  // ---------------------------------------------------------------------------------------------
  // How many frames can be in flight
  // ---------------------------------------------------------------------------------------------

  lemma {:induction false} SubsetOfSmall(s: set<nat>, n: nat)
    requires forall x :: x in s ==> x < n
    ensures |s| <= n
  {
    if n == 0 {
      assert s == {};
    } else {
      SubsetOfSmall(s - {n - 1}, n - 1);
    }
  }

  ghost predicate UsesBuffer(q: seq<Command>, lo: nat, hi: nat, b: nat) {
    exists k :: 0 <= k < |q| && q[k].Mark? && q[k].buffer == b && lo < q[k].stamp <= hi
  }

  lemma OneMarkPerBuffer(q: seq<Command>, v: View)
    requires Sound(q, v)
    ensures forall j, k :: 0 <= j < |q| && 0 <= k < |q| && q[j].Mark? && q[k].Mark? && q[j].buffer == q[k].buffer ==>
              q[j].stamp == q[k].stamp
    ensures forall k :: 0 <= k < |q| && q[k].Mark? ==> q[k].buffer < BUFFERS
    ensures forall s :: v.marked < s <= v.submitted ==> Marks(q, s)
  {
    forall j, k | 0 <= j < k < |q| && q[j].Mark? && q[k].Mark? && q[j].buffer == q[k].buffer
      ensures q[j].stamp == q[k].stamp
    {
      assert Before(q[j], q[k]);
    }
  }

  lemma NextBuffer(q: seq<Command>, v: View, hi: nat) returns (b: nat)
    requires Sound(q, v) && v.marked <= hi < v.submitted
    ensures b < BUFFERS && !UsesBuffer(q, v.marked, hi, b) && UsesBuffer(q, v.marked, hi + 1, b)
  {
    OneMarkPerBuffer(q, v);
    hide Sound;
    assert Marks(q, hi + 1);
    var k :| 0 <= k < |q| && q[k].Mark? && q[k].stamp == hi + 1;
    b := q[k].buffer;
  }

  lemma UsesMore(q: seq<Command>, lo: nat, hi: nat)
    ensures forall b :: UsesBuffer(q, lo, hi, b) ==> UsesBuffer(q, lo, hi + 1, b)
  {
  }

  lemma {:induction false} BuffersInFlight(q: seq<Command>, v: View, n: nat) returns (s: set<nat>)
    requires Sound(q, v) && v.marked + n <= v.submitted
    ensures |s| == n && forall b :: b in s ==> b < BUFFERS && UsesBuffer(q, v.marked, v.marked + n, b)
  {
    hide Sound, UsesBuffer;
    if n == 0 {
      return {};
    }
    var rest := BuffersInFlight(q, v, n - 1);
    var b := NextBuffer(q, v, v.marked + n - 1);
    UsesMore(q, v.marked, v.marked + n - 1);
    s := rest + {b};
  }

  /** Each frame in flight holds a buffer of its own, so at most four are. */
  lemma FewInFlight(q: seq<Command>, v: View)
    requires Sound(q, v)
    ensures v.submitted - v.marked <= BUFFERS
  {
    var s := BuffersInFlight(q, v, v.submitted - v.marked);
    SubsetOfSmall(s, BUFFERS);
  }
}
