# TrashOs core, modelled in Dafny

This project models three parts of the TrashOs x86_64 hobby kernel and proves
properties of each:

- **The physical frame allocator** (`src/memory/area_frame_allocator.rs`,
  module `FrameAllocation` in `frame_allocator.dfy`). It is a bump allocator
  over the boot loader's memory map. It never hands out:
  - frames below 1 MiB,
  - frames of the kernel image,
  - frames of the multiboot information structure.

  The pure functions state what one pass of `allocate_frame` does
  (`AttemptOnce`) and how the next area is chosen (`LowestQualifying`,
  `ChooseNext`). `Allocate` states the whole allocation. The class
  `AreaFrameAllocator` updates `next_free_frame` and `current_area` in place
  and is proved against `Allocate`.
- **The timer** (`src/task/timer.rs`, module `Timer` in `timer.dfy`).
  - The statics `TICKS` and `WAKERS` are the fields of a `TickState` object.
  - `tick` wraps at 2^64 and wakes every queued waker in order.
  - The `Sleeper` future is Ready exactly once the tick count reaches its target.
  - `indicator` cycles through its four glyphs.
- **The VGA text writer** (`src/vga.rs`, module `Vga` in `vga.dfy`).
  - The writer is an 80 x 25 grid of (byte, colour attribute) cells and a
    column cursor.
  - `write_byte` and `write_string` write only the bottom row, and a new line
    scrolls the grid up. The public `write_at` writes any cell; the timer's
    indicator uses it for row 0, column 79 (`src/task/timer.rs:63`).
  - The pure functions `Scroll`, `PutChar`, `WriteByteSpec` and
    `WriteStringSpec` give the meaning. The class `Writer` updates a
    two-dimensional array in place and is proved against them.

`optional.dfy` holds the `Option` datatype shared by the first two modules.

A frame is its frame number `n`. It covers the byte addresses
`[n * 4096, (n + 1) * 4096)`. Addresses are unbounded naturals.

### End addresses and exhaustion

**End addresses.** Take one area `[0, 16 MiB)`, the kernel at `[1 MiB, 2 MiB)` and the boot information at `[2 MiB, 2 MiB + 4 KiB)`. One would expect the first frame handed out to start at 2 MiB + 4 KiB, right after the boot information.

`AreaFrameAllocator::new` turns each end address into the frame containing it, and that frame counts as inside the excluded range. So the answer depends on how the caller gives the end addresses:
- Ends given as the first byte past each range: the first frame starts at 2 MiB + 8 KiB (frame 514). `FirstFrameAfterExcludedRanges` proves this.
- Ends given as the last byte of each range: the first frame starts at 2 MiB + 4 KiB (frame 513). `FirstFrameAfterExcludedRangesLastByte` proves this.

**Exhaustion.** `allocate_frame` has an explicit exhaustion result, `None // no free frames left` (`src/memory/area_frame_allocator.rs:98`), but it reaches it only when there is no current area. Once an area has been in use and every area is used up, the code as written calls itself forever instead (see Findings). The model proves that defect, and then models the corrected behaviour, which returns None.

## Model

| member | source | states |
|---|---|---|
| FrameAllocation.ContainingFrame | src/memory/area_frame_allocator.rs:22-25 | the frame returned holds the given address: its start is at most the address and its end lies beyond it |
| FrameAllocation.FrameAfter | src/memory/area_frame_allocator.rs:77-91 | the frame built from `start_address() + size()` begins exactly where the given frame ends, so it is the next frame number |
| FrameAllocation.ChooseNext | src/memory/area_frame_allocator.rs:37-60 | no contract of its own: `LowestQualifying` states which area it picks, and `ChooseNextSkipsNoAreaFrame` and `SwitchAreaStep` state what the new cursor and area satisfy |
| FrameAllocation.AttemptOnce | src/memory/area_frame_allocator.rs:64-95 | no contract of its own: `AttemptShape` and `AttemptStep` state what one pass issues or retries with |
| FrameAllocation.RunAsWritten | src/memory/area_frame_allocator.rs:64-98 | no contract of its own: `StalledAllocatorNeverReturns`, `ExhaustedAsWrittenNeverReturns`, `AllocateIssuedAsWritten` and `CorrectedAgreesWithSource` state how it relates to the corrected allocation |
| FrameAllocation.LowestQualifying | src/memory/area_frame_allocator.rs:38-47 | the area picked still has its last frame at or after the cursor; no qualifying area starts lower; every earlier qualifying area starts strictly higher (`min_by_key` keeps the first minimum); None exactly when no area qualifies |
| FrameAllocation.NoQualifyingAreaNoUsable | src/memory/area_frame_allocator.rs:43-48 | when the filter leaves no area, no frame at or after the cursor is usable |
| FrameAllocation.ChooseNextSkipsNoAreaFrame | src/memory/area_frame_allocator.rs:48-59 | `choose_next_area` never moves the cursor back, and every frame it jumps over lies in no area of the map |
| FrameAllocation.AttemptStep | src/memory/area_frame_allocator.rs:64-99 | one pass from a consistent state keeps the state consistent and never moves the cursor back. An issued frame is the cursor's frame, is usable and lies in the current area. A retry skips only unusable frames and makes measurable progress, unless it changes nothing, which happens only when no usable frame is left. With no current area, nothing usable is left. |
| FrameAllocation.SwitchAreaStep | src/memory/area_frame_allocator.rs:69-71 | switching areas keeps the state consistent and skips only frames outside every area. Either nothing is left and the state is unchanged, or the cursor moves on, or the new current area has a frame at the cursor. |
| FrameAllocation.SkipStep | src/memory/area_frame_allocator.rs:72-86 | moving the cursor forward inside the current area keeps the state consistent and strictly shrinks the part of the map still ahead |
| FrameAllocation.Allocate | src/memory/area_frame_allocator.rs:64-100 | the state afterwards is consistent and the cursor never moves back. A frame handed out lies at or after the old cursor and in the current area, and the cursor then sits just past it. |
| FrameAllocation.AllocateSound | src/memory/area_frame_allocator.rs:64-100 | the frame handed out is the lowest usable frame at or after the cursor: not below 1 MiB, not in the kernel or multiboot range, and inside some area. None is returned exactly when no usable frame is left. |
| FrameAllocation.AllocateUnfold | src/memory/area_frame_allocator.rs:64-98 | the allocation is one pass followed, on a retry that changed the state, by the allocation from the new state |
| FrameAllocation.InitialLayout | src/memory/area_frame_allocator.rs:22-31 | every address from the kernel's start to its end address lies in a frame of the kernel range, and likewise for the multiboot structure, so the frames holding both end addresses are excluded |
| FrameAllocation.InitialCursorConsistent | src/memory/area_frame_allocator.rs:26-33 | the state `new` leaves is consistent, and it has a current area exactly when the memory map has an area |
| FrameAllocation.HandOut | src/memory/area_frame_allocator.rs:87-93 | handing out a usable frame at or beyond the cursor keeps the handed-out frames usable, strictly increasing and below the cursor, so no frame is handed out twice |
| FrameAllocation.AreaFrameAllocator.constructor | src/memory/area_frame_allocator.rs:15-35 | the excluded ranges are built from the containing frames; the fields are those of one `choose_next_area` from frame 0 with no area; the invariant holds and no frame has been handed out |
| FrameAllocation.AreaFrameAllocator.ChooseNextArea | src/memory/area_frame_allocator.rs:37-60 | the new fields are those `ChooseNext` gives |
| FrameAllocation.AreaFrameAllocator.Pass | src/memory/area_frame_allocator.rs:65-95 | one pass of the body, in place: its outcome and the new fields are those of `AttemptOnce` |
| FrameAllocation.AreaFrameAllocator.AllocateFrame | src/memory/area_frame_allocator.rs:64-100 | the frame returned and the new fields are those `Allocate` gives. The frame is appended to the history of handed-out frames, which stays usable and strictly increasing. |
| FrameAllocation.StalledAllocatorNeverReturns | src/memory/area_frame_allocator.rs:65-96 | once the current area is used up and no area reaches the cursor, the code as written is still retrying from the same state after any number of self-calls |
| FrameAllocation.AttemptShape | src/memory/area_frame_allocator.rs:64-96 | with no current area the pass reports no area. An issued frame is the cursor's frame, in the current area, with the cursor moved just past it. A retry leaves a consistent state and never moves the cursor back; it leaves the state unchanged only when the current area is used up and no area reaches the cursor, and otherwise makes measurable progress. |
| FrameAllocation.CorrectedAgreesWithSource | src/memory/area_frame_allocator.rs:64-100 | whenever the code as written returns a frame, the corrected allocation returns the same frame and the same new state |
| FrameAllocation.AllocateIssuedAsWritten | src/memory/area_frame_allocator.rs:64-96 | every frame the corrected allocation hands out is also returned by the code as written after some number of self-calls, with the same new state |
| FrameAllocation.ExhaustedAsWrittenNeverReturns | src/memory/area_frame_allocator.rs:65-96 | wherever the corrected allocation returns None from a state with a current area, the code as written is still retrying after any number of self-calls |
| FrameAllocation.AsWrittenReportsNoneOnlyWithoutArea | src/memory/area_frame_allocator.rs:65-98 | the code as written returns None only when called with no current area (a memory map without areas), and the corrected allocation then returns None as well |
| FrameAllocation.OneFrameMapStalls | src/memory/area_frame_allocator.rs:65-96 | with a one-frame map at 1 MiB, frame 256 is handed out first. The next pass of the code as written retries from an unchanged state, while the corrected allocation returns None. |
| FrameAllocation.FirstFrameAfterExcludedRanges | src/memory/area_frame_allocator.rs:72-93 | one area of 16 MiB, with the kernel and multiboot end addresses given as the first byte past each range: the first frame handed out starts at 2 MiB + 8 KiB |
| FrameAllocation.FirstFrameAfterExcludedRangesLastByte | src/memory/area_frame_allocator.rs:72-93 | the same map with the end addresses given as each range's last byte: the first frame handed out starts at 2 MiB + 4 KiB |
| Timer.TickState.constructor | src/task/timer.rs:11-12 | no ticks yet, the waker queue not yet created, nothing woken |
| Timer.TickState.PopWaker | src/task/timer.rs:16 | `pop` returns the front waker and removes it, or None on an empty queue |
| Timer.TickState.Tick | src/task/timer.rs:13-21 | the tick count goes up by one modulo 2^64. An existing queue is drained, with every queued waker woken in queue order. A missing queue stays missing. |
| Timer.TickState.NewSleeper | src/task/timer.rs:28-33 | the queue exists afterwards (an existing one is kept), and the target is the current tick count plus the delay |
| Timer.TickState.Sleep | src/task/timer.rs:51-53 | the same as `Sleeper::new` |
| Timer.TickState.Poll | src/task/timer.rs:38-48 | Ready exactly when the tick count has reached the target. On Ready the queue is untouched; on Pending the task's waker is appended. |
| Timer.DriveSleeper | src/task/timer.rs:38-53 | `sleep(delta)` polled once and then after every tick is Pending exactly delta times and then Ready: never early, never late |
| Timer.IndicatorGlyphs | src/task/timer.rs:55-65 | iteration k shows glyph `(k + 1) mod 4` of the indicator |
| Vga.ColorValue | src/vga.rs:30-47 | every colour's discriminant fits in four bits |
| Vga.ColorOf | src/vga.rs:30-47 | the colour decoded from a nibble has that nibble as its discriminant |
| Vga.ColorOfValue | src/vga.rs:30-47 | decoding a colour's discriminant gives back the colour |
| Vga.NewColorCode | src/vga.rs:83-85 | the high nibble of the packed byte is the background's discriminant and the low nibble the foreground's |
| Vga.ColorCodeRoundTrip | src/vga.rs:83-85 | decoding the packed byte's nibbles gives back both colours |
| Vga.BlankRow | src/vga.rs:120-126 | 80 cells, each a space in the given colour |
| Vga.Scroll | src/vga.rs:113-128 | scrolling keeps the grid 25 x 80 |
| Vga.ScrollCells | src/vga.rs:113-128 | every row takes the contents of the row below it, and the bottom row becomes blank |
| Vga.PutChar | src/vga.rs:105-111 | the given cell holds the new character and every other cell is unchanged |
| Vga.WriteByteSpec | src/vga.rs:89-103 | after `write_byte`, whatever the column before, the column is at most 80 |
| Vga.WriteStringSpec | src/vga.rs:150-159 | after `write_string` the column is at most 80 (when it was, or when the string is not empty) |
| Vga.WriteBytePlacesCharacter | src/vga.rs:93-100 | a byte other than newline lands in the bottom row at the cursor, or at column 0 after a scroll when the row is full. The cursor ends just past it. Without a scroll no other cell changes; with one, the rows move up and the rest of the bottom row is blank. |
| Vga.WriteNewlineScrolls | src/vga.rs:91-92 | a newline moves every row up, blanks the bottom row and puts the cursor at column 0 |
| Vga.CarriageReturnOnlyRewinds | src/vga.rs:154 | a carriage return changes no cell and puts the cursor at column 0 |
| Vga.WriteStringConcat | src/vga.rs:150-166 | writing two strings one after the other is the same as writing their concatenation, so `write_fmt` may split its text into any pieces |
| Vga.WriteStringPlacesText | src/vga.rs:150-159 | text without newlines or carriage returns that fits in the rest of the bottom row appears there byte by byte from the cursor on. The cursor ends just after it and no other cell changes. |
| Vga.Writer.constructor | src/vga.rs:71-77 | the `WRITER` static starts at column 0 with green on black |
| Vga.Writer.WriteByte | src/vga.rs:89-103 | the grid and the column afterwards are those `WriteByteSpec` gives, and the column stays at most 80 |
| Vga.Writer.WriteAt | src/vga.rs:105-111 | the buffer afterwards is the old grid with exactly the one cell replaced |
| Vga.Writer.NewLine | src/vga.rs:113-128 | the buffer afterwards is the old grid scrolled up by one row with a blank bottom row, and the column is 0 |
| Vga.Writer.SetCursor | src/vga.rs:130-147 | the high and low bytes sent to the cursor registers recombine to the cursor position (bottom row, current column) |
| Vga.Writer.WriteString | src/vga.rs:150-159 | the grid and the column afterwards are those `WriteStringSpec` gives |
| Vga.Writer.WriteStr | src/vga.rs:162-166 | always succeeds, with the effect of `write_string` |

## Left out

- Physical addresses are unbounded. So the model does not cover:
  - `u64` overflow of `start + size - 1` or of `start_address() + size()`;
  - `PhysAddr::new` panicking on a non-canonical address;
  - `from_start_address(..).unwrap()`, which cannot fail on a frame boundary.
- FrameAllocation.AreaFrameAllocator.constructor: requires every area to have a last byte. The empty area at address 0 makes `start + size - 1` underflow in the source.
- `BootInformation` and its `memory_map_tag().unwrap()` are replaced by the list of memory areas.
  - The panic on a missing tag is not modelled.
  - The sequence of areas stands for whatever the multiboot2 crate's `memory_areas()` yields; whether that is every area or only the available ones depends on the crate release, so the model takes the sequence as given.
- The allocator's `FrameAllocator` trait plumbing and its page-size generic are reduced to frame numbers.
- Timer concurrency is not modelled:
  - `TICKS` and `WAKERS` are used from one context at a time, with no interleaving of `tick` (interrupt context) and `poll`;
  - so the second tick check in `poll` always sees the same count as the first.
- Wakers are modelled as plain identities. `Waker::wake` is recorded in a log instead of rescheduling a task.
- Timer.TickState.Poll: pushing onto a missing queue (`expect("uninited")`) or a full queue (`unwrap` on a full `ArrayQueue`) panics in the source. This is a precondition here, not an error path.
- Timer.TickState.NewSleeper: the source's `TICKS.load() + ticks` panics on overflow in debug builds. Here it is a precondition.
- Timer.IndicatorGlyphs: models only the glyph sequence of the endless `indicator` loop.
  - Its `write_at` to row 0, column 79 is not modelled here; `Vga.Writer.WriteAt` models that call.
  - Its `sleep(1).await` between rounds is not modelled here; `DriveSleeper` models a sleep.
- Not modelled in the VGA writer:
  - volatile memory-mapped I/O;
  - the `lazy_static`/`Mutex` around `WRITER`;
  - the interrupt masking in `_print`;
  - the `print!`/`println!` macros and `core::fmt` formatting.

  Text reaches the writer as byte strings.
- Vga.Writer.SetCursor: the four port writes are left out. The method returns the two bytes it would send.
- Vga.Writer.WriteAt: indexing outside the 25 x 80 buffer panics in the source. Here it is a precondition.
- The rest of the kernel is not part of this model:
  - interrupt handlers, the GDT and the IDT;
  - paging and `memory/mod.rs`;
  - the executor and the keyboard task;
  - the serial port;
  - the entry points.

## Findings

| source | as written | input that shows it | evidently intended | confidence | as-written member | corrected member |
|---|---|---|---|---|---|---|
| src/memory/area_frame_allocator.rs:69-71 | when the current area is used up and no other area reaches the cursor, `choose_next_area` changes nothing and `allocate_frame` calls itself again from the same state, so it never returns | a map with the single area `[1 MiB, 1 MiB + 4 KiB)`: the first call returns frame 256, and the second recurses forever (or overflows the stack) | return None ("no free frames left") once no area is left | not executed | FrameAllocation.StalledAllocatorNeverReturns | FrameAllocation.AreaFrameAllocator.AllocateFrame |
