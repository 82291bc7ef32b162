/**
 * The tick counter and the sleep future of src/task/timer.rs, and the
 * spinning indicator driven by them.
 *
 * The two statics `TICKS` (an atomic counter) and `WAKERS` (a lazily created
 * lock-free queue of capacity 100) are the fields of one TickState object,
 * used sequentially. A waker is an opaque identity; waking it is recorded in
 * the `woken` log.
 */
module Timer {
  import opened Optional

  /** The capacity `ArrayQueue::new(100)` gives the waker queue. */
  const WakerCapacity: nat := 100
  /** `usize` is 64 bits wide. */
  const UsizeLimit: nat := 0x1_0000_0000_0000_0000

  type WakerId = nat

  /** `Sleeper`: the tick count at which the sleep is over. */
  datatype Sleeper = Sleeper(targetTicks: nat)

  /** `Poll<()>`. */
  datatype Poll = Ready | Pending

  class TickState {
    /** `TICKS`. */
    var ticks: nat
    /** `WAKERS`: None while the `OnceCell` is not initialised; the queue
        pops from the front. */
    var wakers: Option<seq<WakerId>>
    /** Every `Waker::wake` call so far, in order. */
    var woken: seq<WakerId>

    ghost predicate Valid()
      reads this
    {
      ticks < UsizeLimit && (wakers.Some? ==> |wakers.value| <= WakerCapacity)
    }

    /** The statics as the kernel starts: no ticks, no queue yet. */
    constructor ()
      ensures Valid() && ticks == 0 && wakers == None && woken == []
    {
      ticks := 0;
      wakers := None;
      woken := [];
    }

    /** `ArrayQueue::pop`. */
    method PopWaker() returns (waker: Option<WakerId>)
      requires wakers.Some?
      modifies this`wakers
      ensures wakers.Some?
      ensures old(wakers.value) == [] ==> waker == None && wakers == old(wakers)
      ensures old(wakers.value) != [] ==>
        waker == Some(old(wakers.value)[0]) && wakers == Some(old(wakers.value)[1..])
    {
      var queue := wakers.value;
      if queue == [] {
        waker := None;
      } else {
        waker := Some(queue[0]);
        wakers := Some(queue[1..]);
      }
    }

    /** `tick`: advance the counter by one (wrapping like `fetch_add`) and,
        once the queue exists, wake every queued waker in order, leaving the
        queue empty. */
    method Tick()
      requires Valid()
      modifies this
      ensures Valid()
      ensures ticks == (old(ticks) + 1) % UsizeLimit
      ensures wakers == if old(wakers).Some? then Some([]) else None
      ensures woken == old(woken) + if old(wakers).Some? then old(wakers).value else []
    {
      ticks := (ticks + 1) % UsizeLimit;
      if wakers.Some? {
        var waker := PopWaker();
        while waker.Some?
          invariant Valid() && wakers.Some? && ticks == (old(ticks) + 1) % UsizeLimit
          invariant waker.None? ==> wakers.value == []
          invariant woken + (if waker.Some? then [waker.value] else []) + wakers.value
                    == old(woken) + old(wakers).value
          decreases |wakers.value| + if waker.Some? then 1 else 0
        {
          woken := woken + [waker.value];
          waker := PopWaker();
        }
      }
    }

    /** `Sleeper::new`: make sure the waker queue exists and aim at the
        current tick count plus `delta` (an addition the source does not
        allow to overflow). */
    method NewSleeper(delta: nat) returns (s: Sleeper)
      requires Valid()
      requires ticks + delta < UsizeLimit
      modifies this`wakers
      ensures Valid()
      ensures s.targetTicks == ticks + delta
      ensures wakers == if old(wakers).None? then Some([]) else old(wakers)
    {
      if wakers.None? {
        wakers := Some([]);
      }
      s := Sleeper(ticks + delta);
    }

    /** `sleep`. */
    method Sleep(delta: nat) returns (s: Sleeper)
      requires Valid()
      requires ticks + delta < UsizeLimit
      modifies this`wakers
      ensures Valid()
      ensures s.targetTicks == ticks + delta
      ensures wakers == if old(wakers).None? then Some([]) else old(wakers)
    {
      s := NewSleeper(delta);
    }

    /** `Sleeper::poll`: Ready, without touching the queue, once the target
        is reached; otherwise queue the task's waker and check again. Pushing
        onto a missing or full queue panics, so the caller must not let it. */
    method Poll(s: Sleeper, waker: WakerId) returns (p: Poll)
      requires Valid()
      requires ticks < s.targetTicks ==> wakers.Some? && |wakers.value| < WakerCapacity
      modifies this`wakers
      ensures Valid()
      ensures p == Ready <==> ticks >= s.targetTicks
      ensures wakers == if p == Ready then old(wakers) else Some(old(wakers).value + [waker])
    {
      if ticks >= s.targetTicks {
        return Ready;
      }
      wakers := Some(wakers.value + [waker]);
      if ticks >= s.targetTicks {
        return Ready;
      } else {
        return Pending;
      }
    }
  }

  /** An executor driving `sleep(delta).await`: poll once, then after each
      tick (which wakes the task) poll again until Ready. The poll results
      are Pending exactly `delta` times and then Ready: the sleeper is ready
      right after the delta-th tick and never before. */
  method DriveSleeper(timer: TickState, delta: nat, waker: WakerId) returns (results: seq<Poll>)
    requires timer.Valid()
    requires timer.ticks + delta < UsizeLimit
    requires delta > 0 && timer.wakers.Some? ==> |timer.wakers.value| < WakerCapacity
    modifies timer
    ensures timer.Valid()
    ensures timer.ticks == old(timer.ticks) + delta
    ensures |results| == delta + 1 && results[delta] == Ready
    ensures forall k :: 0 <= k < delta ==> results[k] == Pending
  {
    var s := timer.Sleep(delta);
    var p := timer.Poll(s, waker);
    results := [p];
    var elapsed := 0;
    while p == Pending
      invariant timer.Valid() && timer.wakers.Some?
      invariant elapsed <= delta && timer.ticks == old(timer.ticks) + elapsed
      invariant p == Ready <==> elapsed == delta
      invariant |results| == elapsed + 1 && results[elapsed] == p
      invariant forall k :: 0 <= k < elapsed ==> results[k] == Pending
      decreases delta - elapsed
    {
      timer.Tick();
      elapsed := elapsed + 1;
      p := timer.Poll(s, waker);
      results := results + [p];
    }
  }

  /** The glyphs `indicator` cycles through. */
  const Indicator: seq<char> := ['\\', '|', '/', '-']

  /** `indicator`, for its first `rounds` iterations: the glyph it shows on
      iteration k. The index stays below 4 and runs 1, 2, 3, 0, 1, … */
  method IndicatorGlyphs(rounds: nat) returns (glyphs: seq<char>)
    ensures |glyphs| == rounds
    ensures forall k :: 0 <= k < rounds ==> glyphs[k] == Indicator[(k + 1) % |Indicator|]
  {
    var index := 0;
    glyphs := [];
    while |glyphs| < rounds
      invariant |glyphs| <= rounds
      invariant index < |Indicator| && index == |glyphs| % |Indicator|
      invariant forall k :: 0 <= k < |glyphs| ==> glyphs[k] == Indicator[(k + 1) % |Indicator|]
    {
      index := index + 1;
      if index >= |Indicator| {
        index := 0;
      }
      glyphs := glyphs + [Indicator[index]];
    }
  }
}
