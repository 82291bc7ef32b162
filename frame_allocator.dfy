/**
 * The physical frame bump allocator of src/memory/area_frame_allocator.rs.
 *
 * A frame is named by its number n: it covers the byte addresses
 * [n * 4096, (n + 1) * 4096). The boot loader's memory map is a sequence of
 * (start address, size) areas; the kernel image and the multiboot information
 * structure are inclusive frame ranges the allocator must never hand out.
 *
 * The pure functions below state what one pass of `allocate_frame` does
 * (AttemptOnce), what the retry loop computes (Allocate) and how the next
 * area is chosen (LowestQualifying, ChooseNext); the class
 * AreaFrameAllocator updates its fields in place and is proved against them.
 */
module FrameAllocation {
  import opened Optional

  const FrameSize: nat := 4096
  const OneMiB: nat := 1024 * 1024

  type Frame = nat

  /** `PhysFrame::start_address`. */
  function StartAddress(f: Frame): nat {
    f * FrameSize
  }

  /** `PhysFrame::containing_address`: the frame whose bytes include `address`. */
  function ContainingFrame(address: nat): (f: Frame)
    ensures StartAddress(f) <= address < StartAddress(f) + FrameSize
  {
    address / FrameSize
  }

  /** `PhysFrame::from_start_address(f.start_address() + f.size()).unwrap()`:
      the frame that begins where `f` ends. */
  function FrameAfter(f: Frame): (r: Frame)
    ensures StartAddress(r) == StartAddress(f) + FrameSize
    ensures r == f + 1
  {
    ContainingFrame(StartAddress(f) + FrameSize)
  }

  lemma ContainingFrameMonotone(a: nat, b: nat)
    requires a <= b
    ensures ContainingFrame(a) <= ContainingFrame(b)
  {
  }

  /** `PhysFrameRangeInclusive`: both ends belong to the range. */
  datatype FrameRange = FrameRange(start: Frame, end: Frame) {
    predicate Contains(f: Frame) {
      start <= f && f <= end
    }
  }

  /** One entry of the multiboot memory map. */
  datatype MemoryArea = MemoryArea(startAddress: nat, size: nat)

  /** The last byte `start + size - 1` of the area is an address; only the
      empty area at address 0 has none (its computation would underflow). */
  predicate WellFormedArea(a: MemoryArea) {
    a.startAddress + a.size >= 1
  }

  predicate WellFormedMap(areas: seq<MemoryArea>) {
    forall i :: 0 <= i < |areas| ==> WellFormedArea(areas[i])
  }

  /** The frame holding the area's last byte. */
  function LastFrame(a: MemoryArea): Frame
    requires WellFormedArea(a)
  {
    ContainingFrame(a.startAddress + a.size - 1)
  }

  /** The inclusive frame range `choose_next_area` builds for an area. */
  function AreaFrames(a: MemoryArea): (r: FrameRange)
    requires WellFormedArea(a)
  {
    FrameRange(ContainingFrame(a.startAddress), LastFrame(a))
  }

  /** The filter of `choose_next_area`: the area still has a frame at or
      after the cursor. */
  predicate Qualifies(a: MemoryArea, cursor: Frame)
    requires WellFormedArea(a)
  {
    LastFrame(a) >= cursor
  }

  /** `filter(..).min_by_key(start_address)`: the index of the
      lowest-starting qualifying area, the first one among equals. */
  function LowestQualifying(areas: seq<MemoryArea>, cursor: Frame): (r: Option<nat>)
    requires WellFormedMap(areas)
    ensures r.Some? ==> r.value < |areas| && Qualifies(areas[r.value], cursor)
    ensures r.Some? ==> forall j :: 0 <= j < |areas| && Qualifies(areas[j], cursor) ==>
                          areas[r.value].startAddress <= areas[j].startAddress
    ensures r.Some? ==> forall j :: 0 <= j < r.value && Qualifies(areas[j], cursor) ==>
                          areas[r.value].startAddress < areas[j].startAddress
    ensures r.None? <==> forall j :: 0 <= j < |areas| ==> !Qualifies(areas[j], cursor)
  {
    if areas == [] then None
    else
      var last := |areas| - 1;
      var best := LowestQualifying(areas[..last], cursor);
      if !Qualifies(areas[last], cursor) then best
      else if best.Some? && areas[best.value].startAddress <= areas[last].startAddress then best
      else Some(last)
  }

  /** The largest last frame of any area (0 for an empty map). */
  function MaxLastFrame(areas: seq<MemoryArea>): (m: Frame)
    requires WellFormedMap(areas)
    ensures forall i :: 0 <= i < |areas| ==> LastFrame(areas[i]) <= m
  {
    if areas == [] then 0
    else
      var rest := MaxLastFrame(areas[..|areas| - 1]);
      var last := LastFrame(areas[|areas| - 1]);
      if last > rest then last else rest
  }

  /** What the allocator is given when it is built: the memory map and the
      two excluded inclusive frame ranges. */
  datatype BootLayout = BootLayout(areas: seq<MemoryArea>, kernel: FrameRange, multiboot: FrameRange)

  /** The allocator's mutable fields `next_free_frame` and `current_area`. */
  datatype Cursor = Cursor(nextFreeFrame: Frame, currentArea: Option<FrameRange>)

  /** The current area has no frame left at or after the cursor. */
  predicate Exhausted(c: Cursor) {
    c.currentArea.Some? && c.nextFreeFrame > c.currentArea.value.end
  }

  /** `choose_next_area`: switch to the lowest-starting area that still has a
      frame at or after the cursor, moving the cursor up to its first frame;
      when there is none, change nothing. */
  function ChooseNext(layout: BootLayout, c: Cursor): Cursor
    requires WellFormedMap(layout.areas)
  {
    match LowestQualifying(layout.areas, c.nextFreeFrame)
    case None => c
    case Some(i) =>
      var range := AreaFrames(layout.areas[i]);
      Cursor(if c.nextFreeFrame < range.start then range.start else c.nextFreeFrame, Some(range))
  }

  /** The outcome of one pass of the body of `allocate_frame`, up to its
      self-call: a frame, a retry from the updated cursor, or no area. */
  datatype Attempt = Issued(frame: Frame, after: Cursor) | Retry(after: Cursor) | NoArea

  /** One pass of `allocate_frame` exactly as written: every branch but the
      last changes the cursor and asks for a retry. */
  function AttemptOnce(layout: BootLayout, c: Cursor): Attempt
    requires WellFormedMap(layout.areas)
  {
    match c.currentArea
    case None => NoArea
    case Some(area) =>
      var frame := c.nextFreeFrame;
      if frame > area.end then
        Retry(ChooseNext(layout, c))
      else if StartAddress(frame) < OneMiB then
        Retry(c.(nextFreeFrame := ContainingFrame(OneMiB)))
      else if layout.kernel.Contains(frame) then
        Retry(c.(nextFreeFrame := FrameAfter(layout.kernel.end)))
      else if layout.multiboot.Contains(frame) then
        Retry(c.(nextFreeFrame := FrameAfter(layout.multiboot.end)))
      else
        Issued(frame, c.(nextFreeFrame := FrameAfter(frame)))
  }

  /** A frame of some area of the map. */
  ghost predicate InSomeArea(areas: seq<MemoryArea>, f: Frame)
    requires WellFormedMap(areas)
  {
    exists i :: 0 <= i < |areas| && AreaFrames(areas[i]).Contains(f)
  }

  /** A frame the allocator may hand out: in the memory map, at or above
      1 MiB, outside the kernel and outside the multiboot structure. */
  ghost predicate Usable(layout: BootLayout, f: Frame)
    requires WellFormedMap(layout.areas)
  {
    && OneMiB <= StartAddress(f)
    && !layout.kernel.Contains(f)
    && !layout.multiboot.Contains(f)
    && InSomeArea(layout.areas, f)
  }

  ghost predicate NoUsableBetween(layout: BootLayout, lo: Frame, hi: Frame)
    requires WellFormedMap(layout.areas)
  {
    forall g :: lo <= g < hi ==> !Usable(layout, g)
  }

  ghost predicate NoUsableFrom(layout: BootLayout, lo: Frame)
    requires WellFormedMap(layout.areas)
  {
    forall g :: lo <= g ==> !Usable(layout, g)
  }

  /** The state invariant of the allocator: the current area is the frame
      range of an area of the map and starts at or before the cursor, and
      there is no current area only when no area reaches the cursor. */
  ghost predicate Consistent(layout: BootLayout, c: Cursor) {
    && WellFormedMap(layout.areas)
    && match c.currentArea
       case None => LowestQualifying(layout.areas, c.nextFreeFrame).None?
       case Some(area) =>
         && area.start <= c.nextFreeFrame
         && exists i :: 0 <= i < |layout.areas| && AreaFrames(layout.areas[i]) == area
  }

  /** How many frames of the map lie at or beyond the cursor, at most. */
  function Headroom(areas: seq<MemoryArea>, cursor: Frame): nat
    requires WellFormedMap(areas)
  {
    var top := MaxLastFrame(areas);
    if cursor <= top then top + 1 - cursor else 0
  }

  /** With no area at or after the cursor, no frame from the cursor on is usable. */
  lemma NoQualifyingAreaNoUsable(layout: BootLayout, cursor: Frame)
    requires WellFormedMap(layout.areas)
    requires LowestQualifying(layout.areas, cursor).None?
    ensures NoUsableFrom(layout, cursor)
  {
    forall g, j | cursor <= g && 0 <= j < |layout.areas|
      ensures !AreaFrames(layout.areas[j]).Contains(g)
    {
      assert !Qualifies(layout.areas[j], cursor);
    }
  }

  /** `choose_next_area` never jumps over a frame of the map: every frame
      between the old and the new cursor lies in no area. */
  lemma ChooseNextSkipsNoAreaFrame(layout: BootLayout, c: Cursor)
    requires WellFormedMap(layout.areas)
    ensures var after := ChooseNext(layout, c);
      c.nextFreeFrame <= after.nextFreeFrame &&
      forall g :: c.nextFreeFrame <= g < after.nextFreeFrame ==> !InSomeArea(layout.areas, g)
  {
    var after := ChooseNext(layout, c);
    var choice := LowestQualifying(layout.areas, c.nextFreeFrame);
    if choice.Some? {
      var chosen := layout.areas[choice.value];
      forall g, j | c.nextFreeFrame <= g < after.nextFreeFrame && 0 <= j < |layout.areas|
        ensures !AreaFrames(layout.areas[j]).Contains(g)
      {
        if Qualifies(layout.areas[j], c.nextFreeFrame) {
          ContainingFrameMonotone(chosen.startAddress, layout.areas[j].startAddress);
        }
      }
    }
  }

  /** Switching areas once the current one is used up: the new state is
      consistent and only frames outside every area are skipped. Either no
      area is left (the state is unchanged and nothing usable remains), or
      the cursor moves towards the end of the map, or it stays put and the
      new current area has a frame at the cursor. */
  lemma SwitchAreaStep(layout: BootLayout, c: Cursor)
    requires Consistent(layout, c) && Exhausted(c)
    ensures var after := ChooseNext(layout, c);
      && Consistent(layout, after)
      && c.nextFreeFrame <= after.nextFreeFrame
      && NoUsableBetween(layout, c.nextFreeFrame, after.nextFreeFrame)
      && (after == c ==>
            LowestQualifying(layout.areas, c.nextFreeFrame).None? && NoUsableFrom(layout, c.nextFreeFrame))
      && (after != c ==>
            || Headroom(layout.areas, after.nextFreeFrame) < Headroom(layout.areas, c.nextFreeFrame)
            || (Headroom(layout.areas, after.nextFreeFrame) == Headroom(layout.areas, c.nextFreeFrame)
                && !Exhausted(after)))
  {
    var areas := layout.areas;
    ChooseNextSkipsNoAreaFrame(layout, c);
    var choice := LowestQualifying(areas, c.nextFreeFrame);
    if choice.None? {
      NoQualifyingAreaNoUsable(layout, c.nextFreeFrame);
    } else {
      var k := choice.value;
      var range := AreaFrames(areas[k]);
      assert range.end <= MaxLastFrame(areas);
      assert c.nextFreeFrame <= range.end;
      // the new area still reaches the cursor, the used-up one does not
      assert ChooseNext(layout, c).currentArea == Some(range) != c.currentArea;
    }
  }

  /** The shape of one pass from a consistent state: an issued frame is the
      cursor's frame, inside the current area, with the cursor moved just
      past it; a retry keeps the state consistent, never moves the cursor
      back and makes progress towards the end of the map, unless it changes
      nothing, which happens only when the current area is used up and no
      area reaches the cursor. */
  lemma AttemptShape(layout: BootLayout, c: Cursor)
    requires Consistent(layout, c)
    ensures match AttemptOnce(layout, c)
      case NoArea => c.currentArea.None?
      case Issued(f, after) =>
        && f == c.nextFreeFrame
        && after == c.(nextFreeFrame := f + 1)
        && c.currentArea.Some? && c.currentArea.value.Contains(f)
        && Consistent(layout, after)
      case Retry(after) =>
        && Consistent(layout, after)
        && c.nextFreeFrame <= after.nextFreeFrame
        && (after == c ==> Exhausted(c) && LowestQualifying(layout.areas, c.nextFreeFrame).None?)
        && (after != c ==>
              || Headroom(layout.areas, after.nextFreeFrame) < Headroom(layout.areas, c.nextFreeFrame)
              || (&& Headroom(layout.areas, after.nextFreeFrame) == Headroom(layout.areas, c.nextFreeFrame)
                  && Exhausted(c) && !Exhausted(after)))
  {
    match c.currentArea
    case None =>
    case Some(area) =>
      var frame := c.nextFreeFrame;
      if frame > area.end {
        SwitchAreaStep(layout, c);
      } else if StartAddress(frame) < OneMiB {
        SkipStep(layout, c, ContainingFrame(OneMiB));
      } else if layout.kernel.Contains(frame) {
        SkipStep(layout, c, FrameAfter(layout.kernel.end));
      } else if layout.multiboot.Contains(frame) {
        SkipStep(layout, c, FrameAfter(layout.multiboot.end));
      }
  }

  /** What one pass of `allocate_frame` achieves from a consistent state: it
      keeps the state consistent, never moves the cursor back, never skips a
      usable frame, and either issues the cursor's frame or makes progress
      towards the end of the map, unless it changes nothing at all, which
      happens exactly when no usable frame is left. */
  lemma AttemptStep(layout: BootLayout, c: Cursor)
    requires Consistent(layout, c)
    ensures match AttemptOnce(layout, c)
      case NoArea => NoUsableFrom(layout, c.nextFreeFrame)
      case Issued(f, after) =>
        && f == c.nextFreeFrame
        && Usable(layout, f)
        && after == c.(nextFreeFrame := f + 1)
        && c.currentArea.Some? && c.currentArea.value.Contains(f)
        && Consistent(layout, after)
      case Retry(after) =>
        && Consistent(layout, after)
        && c.nextFreeFrame <= after.nextFreeFrame
        && NoUsableBetween(layout, c.nextFreeFrame, after.nextFreeFrame)
        && (after == c ==>
              && Exhausted(c) && LowestQualifying(layout.areas, c.nextFreeFrame).None?
              && NoUsableFrom(layout, c.nextFreeFrame))
        && (after != c ==>
              || Headroom(layout.areas, after.nextFreeFrame) < Headroom(layout.areas, c.nextFreeFrame)
              || (&& Headroom(layout.areas, after.nextFreeFrame) == Headroom(layout.areas, c.nextFreeFrame)
                  && Exhausted(c) && !Exhausted(after)))
  {
    var areas := layout.areas;
    var top := MaxLastFrame(areas);
    match c.currentArea
    case None =>
      NoQualifyingAreaNoUsable(layout, c.nextFreeFrame);
    case Some(area) =>
      var frame := c.nextFreeFrame;
      if frame > area.end {
        SwitchAreaStep(layout, c);
        return;
      }
      if StartAddress(frame) < OneMiB {
        SkipStep(layout, c, ContainingFrame(OneMiB));
      } else if layout.kernel.Contains(frame) {
        SkipStep(layout, c, FrameAfter(layout.kernel.end));
      } else if layout.multiboot.Contains(frame) {
        SkipStep(layout, c, FrameAfter(layout.multiboot.end));
      } else {
        var i :| 0 <= i < |areas| && AreaFrames(areas[i]) == area;
        assert AreaFrames(areas[i]).Contains(frame);
      }
  }

  /** Moving the cursor forward within the current area keeps the state
      consistent and brings the cursor closer to the end of the map. */
  lemma SkipStep(layout: BootLayout, c: Cursor, next: Frame)
    requires Consistent(layout, c) && c.currentArea.Some?
    requires c.nextFreeFrame <= c.currentArea.value.end && c.nextFreeFrame < next
    ensures Consistent(layout, c.(nextFreeFrame := next))
    ensures Headroom(layout.areas, next) < Headroom(layout.areas, c.nextFreeFrame)
  {
    var i :| 0 <= i < |layout.areas| && AreaFrames(layout.areas[i]) == c.currentArea.value;
    assert c.currentArea.value.end <= MaxLastFrame(layout.areas);
  }

  /** The result of `allocate_frame`: the frame handed out, if any, and the
      allocator's fields afterwards. */
  datatype Allocation = Allocation(frame: Option<Frame>, after: Cursor)

  /** `allocate_frame` with its self-call as iteration, corrected to report
      exhaustion (None) where the code as written would retry forever: when
      a pass changes nothing. The state stays consistent, the cursor never
      moves back, and a frame handed out lies at or after the old cursor, in
      the current area, right before the new cursor. */
  function Allocate(layout: BootLayout, c: Cursor): (r: Allocation)
    requires Consistent(layout, c)
    ensures Consistent(layout, r.after)
    ensures c.nextFreeFrame <= r.after.nextFreeFrame
    ensures r.frame.Some? ==>
      && c.nextFreeFrame <= r.frame.value
      && r.after.nextFreeFrame == r.frame.value + 1
      && r.after.currentArea.Some? && r.after.currentArea.value.Contains(r.frame.value)
    decreases Headroom(layout.areas, c.nextFreeFrame), if Exhausted(c) then 1 else 0
  {
    AttemptShape(layout, c);
    match AttemptOnce(layout, c)
    case NoArea => Allocation(None, c)
    case Issued(f, after) => Allocation(Some(f), after)
    case Retry(after) =>
      if after == c then Allocation(None, c)
      else Allocate(layout, after)
  }

  /** Allocate hands out the lowest usable frame at or after the cursor, and
      reports None exactly when no usable frame is left. */
  lemma {:induction false} AllocateSound(layout: BootLayout, c: Cursor)
    requires Consistent(layout, c)
    ensures var r := Allocate(layout, c);
      && (r.frame.Some? ==>
            Usable(layout, r.frame.value) && NoUsableBetween(layout, c.nextFreeFrame, r.frame.value))
      && (r.frame.None? ==> NoUsableFrom(layout, c.nextFreeFrame))
    decreases Headroom(layout.areas, c.nextFreeFrame), if Exhausted(c) then 1 else 0
  {
    AttemptStep(layout, c);
    match AttemptOnce(layout, c)
    case NoArea =>
    case Issued(_, _) =>
    case Retry(after) =>
      if after != c {
        AllocateSound(layout, after);
      }
  }

  /** Allocate, one pass at a time: what the loop of AllocateFrame follows. */
  lemma AllocateUnfold(layout: BootLayout, c: Cursor)
    requires Consistent(layout, c)
    ensures var attempt := AttemptOnce(layout, c);
      && (attempt.NoArea? ==> Allocate(layout, c) == Allocation(None, c))
      && (attempt.Issued? ==> Allocate(layout, c) == Allocation(Some(attempt.frame), attempt.after))
      && (attempt.Retry? && attempt.after == c ==> Allocate(layout, c) == Allocation(None, c))
      && (attempt.Retry? && attempt.after != c ==>
            Consistent(layout, attempt.after) && Allocate(layout, c) == Allocate(layout, attempt.after))
  {
    AttemptShape(layout, c);
  }

  /** The frames that `new` makes of the four boundary addresses, and the
      cursor it starts from: frame 0 and no area, followed by a first
      `choose_next_area`. */
  function InitialLayout(kernelStart: nat, kernelEnd: nat, multibootStart: nat, multibootEnd: nat,
                         areas: seq<MemoryArea>): (layout: BootLayout)
    ensures forall a :: kernelStart <= a <= kernelEnd ==> layout.kernel.Contains(ContainingFrame(a))
    ensures forall a :: multibootStart <= a <= multibootEnd ==> layout.multiboot.Contains(ContainingFrame(a))
  {
    assert forall a :: kernelStart <= a <= kernelEnd ==>
        ContainingFrame(kernelStart) <= ContainingFrame(a) <= ContainingFrame(kernelEnd) by {
      forall a | kernelStart <= a <= kernelEnd
        ensures ContainingFrame(kernelStart) <= ContainingFrame(a) <= ContainingFrame(kernelEnd)
      {
        ContainingFrameMonotone(kernelStart, a);
        ContainingFrameMonotone(a, kernelEnd);
      }
    }
    assert forall a :: multibootStart <= a <= multibootEnd ==>
        ContainingFrame(multibootStart) <= ContainingFrame(a) <= ContainingFrame(multibootEnd) by {
      forall a | multibootStart <= a <= multibootEnd
        ensures ContainingFrame(multibootStart) <= ContainingFrame(a) <= ContainingFrame(multibootEnd)
      {
        ContainingFrameMonotone(multibootStart, a);
        ContainingFrameMonotone(a, multibootEnd);
      }
    }
    BootLayout(areas,
               FrameRange(ContainingFrame(kernelStart), ContainingFrame(kernelEnd)),
               FrameRange(ContainingFrame(multibootStart), ContainingFrame(multibootEnd)))
  }

  /** The cursor `new` leaves: it is consistent, and it has an area exactly
      when the map has one. */
  lemma InitialCursorConsistent(layout: BootLayout)
    requires WellFormedMap(layout.areas)
    ensures Consistent(layout, ChooseNext(layout, Cursor(0, None)))
    ensures ChooseNext(layout, Cursor(0, None)).currentArea.Some? <==> |layout.areas| > 0
  {
    if |layout.areas| > 0 {
      assert Qualifies(layout.areas[0], 0);
    }
  }

  /** Every frame handed out so far was usable, lies below `bound` and is
      larger than every frame handed out before it: no frame is handed out twice. */
  ghost predicate HandedOut(layout: BootLayout, issued: seq<Frame>, bound: Frame)
    requires WellFormedMap(layout.areas)
  {
    && (forall k :: 0 <= k < |issued| ==> Usable(layout, issued[k]) && issued[k] < bound)
    && (forall k, l :: 0 <= k < l < |issued| ==> issued[k] < issued[l])
  }

  /** Handing out a usable frame at or above the bound keeps the history in order. */
  lemma HandOut(layout: BootLayout, issued: seq<Frame>, bound: Frame, f: Frame)
    requires WellFormedMap(layout.areas)
    requires HandedOut(layout, issued, bound) && bound <= f && Usable(layout, f)
    ensures HandedOut(layout, issued + [f], f + 1)
  {
  }

  class AreaFrameAllocator {
    var nextFreeFrame: Frame
    var currentArea: Option<FrameRange>
    const areas: seq<MemoryArea>
    const kernel: FrameRange
    const multiboot: FrameRange
    /** Every frame handed out so far, in order. */
    ghost var issued: seq<Frame>

    function Layout(): BootLayout {
      BootLayout(areas, kernel, multiboot)
    }

    function State(): Cursor
      reads this
    {
      Cursor(nextFreeFrame, currentArea)
    }

    /** The cursor is consistent and the frames handed out so far are in order
        below it. */
    ghost predicate Valid()
      reads this
    {
      Consistent(Layout(), State()) && HandedOut(Layout(), issued, nextFreeFrame)
    }

    /** `AreaFrameAllocator::new`. */
    constructor (kernelStart: nat, kernelEnd: nat, multibootStart: nat, multibootEnd: nat,
                 areas: seq<MemoryArea>)
      requires WellFormedMap(areas)
      ensures Valid() && issued == []
      ensures Layout() == InitialLayout(kernelStart, kernelEnd, multibootStart, multibootEnd, areas)
      ensures State() == ChooseNext(Layout(), Cursor(0, None))
    {
      this.areas := areas;
      kernel := FrameRange(ContainingFrame(kernelStart), ContainingFrame(kernelEnd));
      multiboot := FrameRange(ContainingFrame(multibootStart), ContainingFrame(multibootEnd));
      nextFreeFrame := ContainingFrame(0);
      currentArea := None;
      issued := [];
      new;
      ChooseNextArea();
      InitialCursorConsistent(Layout());
    }

    /** `choose_next_area`. */
    method ChooseNextArea()
      requires WellFormedMap(areas)
      modifies this`nextFreeFrame, this`currentArea
      ensures State() == ChooseNext(Layout(), old(State()))
    {
      var next := LowestQualifying(areas, nextFreeFrame);
      if next.Some? {
        var range := AreaFrames(areas[next.value]);
        if nextFreeFrame < range.start {
          nextFreeFrame := range.start;
        }
        currentArea := Some(range);
      }
    }

    /** One pass of the body of `allocate_frame` (everything but its
        self-call), updating the fields in place. */
    method Pass() returns (outcome: Attempt)
      requires WellFormedMap(areas)
      modifies this`nextFreeFrame, this`currentArea
      ensures outcome == AttemptOnce(Layout(), old(State()))
      ensures State() == if outcome.NoArea? then old(State()) else outcome.after
    {
      if currentArea.None? {
        return NoArea;
      }
      var area := currentArea.value;
      var frame := nextFreeFrame;
      if frame > area.end {
        // every frame of the current area is used: switch to the next area
        ChooseNextArea();
      } else if StartAddress(frame) < OneMiB {
        nextFreeFrame := ContainingFrame(OneMiB);
      } else if frame >= kernel.start && frame <= kernel.end {
        nextFreeFrame := FrameAfter(kernel.end);
      } else if frame >= multiboot.start && frame <= multiboot.end {
        nextFreeFrame := FrameAfter(multiboot.end);
      } else {
        nextFreeFrame := FrameAfter(nextFreeFrame);
        return Issued(frame, State());
      }
      return Retry(State());
    }

    /** `allocate_frame`, its self-call written as a loop over Pass. Where
        the code as written would retry forever because a pass changed
        nothing (the last area is used up), this returns None. */
    method AllocateFrame() returns (frame: Option<Frame>)
      requires Valid()
      modifies this`nextFreeFrame, this`currentArea, this`issued
      ensures Valid()
      ensures Allocation(frame, State()) == Allocate(Layout(), old(State()))
      ensures issued == if frame.Some? then old(issued) + [frame.value] else old(issued)
    {
      while true
        invariant Consistent(Layout(), State()) && issued == old(issued)
        invariant old(nextFreeFrame) <= nextFreeFrame
        invariant Allocate(Layout(), State()) == Allocate(Layout(), old(State()))
        decreases Headroom(areas, nextFreeFrame), if Exhausted(State()) then 1 else 0
      {
        var before := State();
        AttemptShape(Layout(), before);
        AllocateUnfold(Layout(), before);
        var outcome := Pass();
        match outcome
        case NoArea =>
          return None;
        case Issued(f, _) =>
          AllocateSound(Layout(), before);
          HandOut(Layout(), issued, old(nextFreeFrame), f);
          issued := issued + [f];
          return Some(f);
        case Retry(after) =>
          if after == before {
            // no area is left; the code as written retries from here forever
            return None;
          }
      }
    }
  }

  /** `allocate_frame` as written, followed through at most `depth` of its
      self-calls; Retry means it has not returned yet. */
  function RunAsWritten(layout: BootLayout, c: Cursor, depth: nat): Attempt
    requires WellFormedMap(layout.areas)
    decreases depth
  {
    match AttemptOnce(layout, c)
    case Retry(after) => if depth == 0 then Retry(after) else RunAsWritten(layout, after, depth - 1)
    case other => other
  }

  /** Once the current area is used up and no area reaches the cursor, the
      code as written never returns: after any number of self-calls it is
      still retrying from the very same state. */
  lemma {:induction false} StalledAllocatorNeverReturns(layout: BootLayout, c: Cursor, depth: nat)
    requires WellFormedMap(layout.areas)
    requires Exhausted(c) && LowestQualifying(layout.areas, c.nextFreeFrame).None?
    ensures RunAsWritten(layout, c, depth) == Retry(c)
    decreases depth
  {
    if depth > 0 {
      StalledAllocatorNeverReturns(layout, c, depth - 1);
    }
  }

  /** Whenever the code as written returns a frame, the corrected Allocate
      returns the same frame and state: the correction only replaces the
      endless retry. */
  lemma {:induction false} CorrectedAgreesWithSource(layout: BootLayout, c: Cursor, depth: nat)
    requires Consistent(layout, c)
    ensures RunAsWritten(layout, c, depth).Issued? ==>
      Allocate(layout, c) == Allocation(Some(RunAsWritten(layout, c, depth).frame),
                                        RunAsWritten(layout, c, depth).after)
    decreases depth
  {
    var attempt := AttemptOnce(layout, c);
    match attempt
    case NoArea =>
    case Issued(f, after) =>
      assert Allocate(layout, c) == Allocation(Some(f), after);
    case Retry(after) =>
      if depth > 0 {
        AttemptShape(layout, c);
        if after == c {
          StalledAllocatorNeverReturns(layout, c, depth - 1);
        } else {
          assert Allocate(layout, c) == Allocate(layout, after);
          CorrectedAgreesWithSource(layout, after, depth - 1);
        }
      }
  }

  /** The code as written reports no frame only when it is called without a
      current area, that is, when the memory map has no area at all; the
      corrected Allocate then reports no frame as well. */
  lemma {:induction false} AsWrittenReportsNoneOnlyWithoutArea(layout: BootLayout, c: Cursor, depth: nat)
    requires WellFormedMap(layout.areas)
    ensures RunAsWritten(layout, c, depth).NoArea? ==> c.currentArea.None?
    ensures c.currentArea.None? && Consistent(layout, c) ==> Allocate(layout, c) == Allocation(None, c)
    decreases depth
  {
    var attempt := AttemptOnce(layout, c);
    if attempt.Retry? && depth > 0 {
      assert attempt.after.currentArea.Some?;
      AsWrittenReportsNoneOnlyWithoutArea(layout, attempt.after, depth - 1);
    }
  }

  /** Every frame the corrected Allocate hands out is one the code as written
      also returns, after some number of self-calls, with the same new state. */
  lemma {:induction false} AllocateIssuedAsWritten(layout: BootLayout, c: Cursor)
    requires Consistent(layout, c)
    ensures Allocate(layout, c).frame.Some? ==>
      exists depth: nat :: RunAsWritten(layout, c, depth)
        == Issued(Allocate(layout, c).frame.value, Allocate(layout, c).after)
    decreases Headroom(layout.areas, c.nextFreeFrame), if Exhausted(c) then 1 else 0
  {
    AttemptShape(layout, c);
    AllocateUnfold(layout, c);
    match AttemptOnce(layout, c)
    case NoArea =>
    case Issued(f, after) =>
      assert RunAsWritten(layout, c, 0) == Issued(f, after);
    case Retry(after) =>
      if after != c {
        AllocateIssuedAsWritten(layout, after);
        if Allocate(layout, after).frame.Some? {
          var depth: nat :| RunAsWritten(layout, after, depth)
            == Issued(Allocate(layout, after).frame.value, Allocate(layout, after).after);
          assert RunAsWritten(layout, c, depth + 1) == RunAsWritten(layout, after, depth);
        }
      }
  }

  /** Wherever the corrected Allocate reports exhaustion from a state with a
      current area, the code as written never returns: after any number of
      self-calls it is still retrying. */
  lemma {:induction false} ExhaustedAsWrittenNeverReturns(layout: BootLayout, c: Cursor, depth: nat)
    requires Consistent(layout, c)
    ensures c.currentArea.Some? && Allocate(layout, c).frame.None? ==> RunAsWritten(layout, c, depth).Retry?
    decreases Headroom(layout.areas, c.nextFreeFrame), if Exhausted(c) then 1 else 0
  {
    match AttemptOnce(layout, c)
    case NoArea =>
    case Issued(f, _) =>
      assert Allocate(layout, c).frame == Some(f);
    case Retry(after) =>
      AttemptShape(layout, c);
      if depth == 0 {
        assert RunAsWritten(layout, c, depth) == Retry(after);
      } else if after == c {
        StalledAllocatorNeverReturns(layout, c, depth - 1);
        assert RunAsWritten(layout, c, depth) == RunAsWritten(layout, c, depth - 1);
      } else {
        assert after.currentArea.Some?;
        assert Allocate(layout, c) == Allocate(layout, after);
        ExhaustedAsWrittenNeverReturns(layout, after, depth - 1);
        assert RunAsWritten(layout, c, depth) == RunAsWritten(layout, after, depth - 1);
      }
  }

  /** A one-frame memory map at 1 MiB: the first allocation hands out that
      frame, after which the code as written is stalled (its next pass
      retries from an unchanged state, forever) while the corrected
      allocator reports exhaustion. */
  lemma OneFrameMapStalls()
    ensures var layout := BootLayout([MemoryArea(OneMiB, FrameSize)], FrameRange(512, 600), FrameRange(700, 700));
      var first := Allocate(layout, ChooseNext(layout, Cursor(0, None)));
      && first.frame == Some(256)
      && first.after == Cursor(257, Some(FrameRange(256, 256)))
      && AttemptOnce(layout, first.after) == Retry(first.after)
      && Allocate(layout, first.after).frame == None
  {
    var layout := BootLayout([MemoryArea(OneMiB, FrameSize)], FrameRange(512, 600), FrameRange(700, 700));
    var start := ChooseNext(layout, Cursor(0, None));
    assert LowestQualifying(layout.areas, 0) == Some(0);
    assert start == Cursor(256, Some(FrameRange(256, 256)));
    InitialCursorConsistent(layout);
    assert AttemptOnce(layout, start) == Issued(256, Cursor(257, Some(FrameRange(256, 256))));
    var stalled := Cursor(257, Some(FrameRange(256, 256)));
    assert !Qualifies(layout.areas[0], 257);
    assert LowestQualifying(layout.areas, 257) == None;
    assert AttemptOnce(layout, stalled) == Retry(stalled);
  }

  /** One available area [0, 16 MiB), the kernel at [1 MiB, 2 MiB] and the
      multiboot structure at [2 MiB, 2 MiB + 4 KiB], each given by its start
      and end address: both end addresses are taken as frames inside the
      excluded ranges, so the first frame handed out starts at 2 MiB + 8 KiB. */
  lemma FirstFrameAfterExcludedRanges()
    ensures var layout := InitialLayout(OneMiB, 2 * OneMiB, 2 * OneMiB, 2 * OneMiB + FrameSize,
                                        [MemoryArea(0, 16 * OneMiB)]);
      Allocate(layout, ChooseNext(layout, Cursor(0, None))).frame
        == Some(ContainingFrame(2 * OneMiB + 2 * FrameSize))
  {
    var layout := InitialLayout(OneMiB, 2 * OneMiB, 2 * OneMiB, 2 * OneMiB + FrameSize,
                                [MemoryArea(0, 16 * OneMiB)]);
    assert layout.kernel == FrameRange(256, 512);
    assert layout.multiboot == FrameRange(512, 513);
    var start := ChooseNext(layout, Cursor(0, None));
    InitialCursorConsistent(layout);
    assert LowestQualifying(layout.areas, 0) == Some(0);
    assert start == Cursor(0, Some(FrameRange(0, 4095)));
    assert AreaFrames(layout.areas[0]).Contains(514);
    assert Usable(layout, 514);
    AllocateSound(layout, start);
    var r := Allocate(layout, start);
    assert r.frame.Some?;
    assert r.frame.value <= 514;
  }

  /** The same map with each end given as the last byte of its range
      (2 MiB - 1 and 2 MiB + 4 KiB - 1): the first frame handed out then
      starts at 2 MiB + 4 KiB. */
  lemma FirstFrameAfterExcludedRangesLastByte()
    ensures var layout := InitialLayout(OneMiB, 2 * OneMiB - 1, 2 * OneMiB, 2 * OneMiB + FrameSize - 1,
                                        [MemoryArea(0, 16 * OneMiB)]);
      Allocate(layout, ChooseNext(layout, Cursor(0, None))).frame
        == Some(ContainingFrame(2 * OneMiB + FrameSize))
  {
    var layout := InitialLayout(OneMiB, 2 * OneMiB - 1, 2 * OneMiB, 2 * OneMiB + FrameSize - 1,
                                [MemoryArea(0, 16 * OneMiB)]);
    assert layout.kernel == FrameRange(256, 511);
    assert layout.multiboot == FrameRange(512, 512);
    var start := ChooseNext(layout, Cursor(0, None));
    InitialCursorConsistent(layout);
    assert LowestQualifying(layout.areas, 0) == Some(0);
    assert start == Cursor(0, Some(FrameRange(0, 4095)));
    assert AreaFrames(layout.areas[0]).Contains(513);
    assert Usable(layout, 513);
    AllocateSound(layout, start);
    var r := Allocate(layout, start);
    assert r.frame.Some?;
    assert r.frame.value <= 513;
  }
}
