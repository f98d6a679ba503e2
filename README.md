# Page replacement simulator: the step engine

This project models the engine of `PageReplacementSimulator`, a small
desktop tool that animates three page-replacement algorithms: FIFO, LRU
and OPT (Belady's optimal). The engine's state is:

- a reference string of page numbers (`generated_pages`);
- a fixed-length list of frames, where `None` marks an empty frame;
- a cursor into the reference string (`current_index`);
- a page-fault counter;
- a history per frame that records its occupant after every step.

Each step takes the next page of the string and hands it to the chosen
algorithm's handler. The handler decides hit or fault, updates the frames
and the counter, and appends to the histories. The model follows the
handlers as written, not the textbook algorithms:

- On a fault with no empty frame, FIFO and LRU both drop the page in
  slot 0, shift the others left and append the new page.
- An LRU hit moves the page to the end of the list, even past empty
  frames. List order is therefore not recency order.
- OPT overwrites the victim's slot in place. The victim is the first frame
  whose page is never referenced again; otherwise it is the first frame
  whose next reference is strictly the farthest.

The files:

- `frames.dfy` holds the frame list and the list primitives the handlers
  use: `in`, `list.index`, the slice `s[k:]`, and which list edits keep
  the pages distinct.
- `policies.dfy` holds each handler as a pure function from the frames and
  the page to an `Outcome`: new frames, fault flag and replaced page. It
  also holds the OPT victim stated outright (`IsOptVictim`), the victim
  search loop as a method, and the properties of one access.
- `replay.dfy` holds a whole run as a function of the policy, the frame
  count and the reference string (`RunSteps`), its invariants, and a
  refinement of FIFO to a textbook FIFO queue. It also holds concrete
  accesses, among them how the LRU handler departs from true LRU, and
  whole runs on short reference strings with their final frames and
  fault counts.
- `simulator.dfy` holds the class `PageReplacementSimulator`, whose fields
  its methods update in place:
  - setup, page generation and the dispatcher;
  - the three step handlers, each proved equal to its function in
    `policies.dfy`;
  - the history methods.

  The class invariant `Valid` (the predicate `Consistent`) states that the
  fields are exactly the state `RunSteps` gives for the current cursor.
  This holds while the reference string is the one the run was set up
  with; the ghost field `pristine` tracks that.

## Model

| member | source | states |
|---|---|---|
| Frames.Resident | src/main.py:480 | `current_page in self.frames`, the hit test of each handler (also lines 522 and 569): some frame holds the page |
| Frames.Full | src/main.py:483 | the negation of `None in self.frames`, the fill-or-replace test of each handler (also lines 525 and 572): no frame is empty |
| Frames.IndexOf | src/main.py:484 | `list.index(x)` on a list containing `x`: the position is in range and holds `x` |
| Frames.IndexOfFirst | src/main.py:484 | no position before `list.index(x)` holds `x`, so it is the first occurrence |
| Frames.Suffix | src/main.py:578-580 | the slice `s[k:]` has `|s| - k` elements, none once `k` passes the end, and element `i` is `s[k + i]` |
| Frames.EmptyFrames | src/main.py:336 | `[None] * n` has length `n` and every frame empty |
| Frames.DistinctAfterWrite | src/main.py:483-485 | writing a non-resident page into one slot keeps the resident pages pairwise distinct |
| Frames.DistinctAfterShift | src/main.py:486-490 | `frames[1:] + [p]` with `p` not resident keeps the resident pages distinct |
| Frames.DistinctAfterMoveToEnd | src/main.py:534-538 | moving a resident page to the end keeps the resident pages distinct |
| Policies.FillFirstEmpty | src/main.py:483-485 | writes the page into `frames.index(None)`; its properties are stated by `FaultFillsFirstEmpty`, `DistinctAfterWrite` and `EmptyFramesNeverGrow` |
| Policies.ShiftIn | src/main.py:488-489 | `frames[1:] + [p]`; its properties are stated by `QueueFaultShiftsLeft` and `DistinctAfterShift` |
| Policies.MoveToEnd | src/main.py:536-538 | `frames[:i] + frames[i+1:] + [p]` at `i = frames.index(p)`; its properties are stated by `LruHitMovesToEnd` and `DistinctAfterMoveToEnd` |
| Policies.NextUse | src/main.py:580-581 | `next_use`, the offset of the next reference to the page in the future; it is `IndexOf`, whose contract it inherits |
| Policies.IsOptVictim | src/main.py:576-591 | the frame the OPT scan picks, stated without the loop; `OptVictim`, `OptVictimUnique` and `FindOptVictim` are proved against it |
| Policies.FifoAccess | src/main.py:480-491 | the FIFO handler on values; `FaultIffAbsent`, `HitKeepsFrames`, `FaultFillsFirstEmpty` and `QueueFaultShiftsLeft` state what it does |
| Policies.LruAccess | src/main.py:522-538 | the LRU handler on values; `FaultIffAbsent`, `LruHitMovesToEnd`, `FaultFillsFirstEmpty` and `QueueFaultShiftsLeft` state what it does |
| Policies.OptAccess | src/main.py:569-592 | the OPT handler on values, with the future references as a parameter; `FaultIffAbsent`, `HitKeepsFrames`, `FaultFillsFirstEmpty` and `OptFaultReplacesVictim` state what it does |
| Policies.Access | src/main.py:458-464 | the dispatch on the chosen algorithm; `AccessKeepsLength`, `AccessKeepsFrameInvariant`, `AccessResidency` and `EmptyFramesNeverGrow` hold for every policy |
| Policies.FirstUnused | src/main.py:577-589 | the first frame from `i` on whose page is not referenced again, and every frame before it is referenced again |
| Policies.Farthest | src/main.py:577-586 | among frames whose pages are all reused, the first one whose next use is strictly the largest |
| Policies.OptVictim | src/main.py:576-591 | its result satisfies `IsOptVictim`, the OPT victim stated outright |
| Policies.OptVictimUnique | src/main.py:576-591 | at most one frame satisfies `IsOptVictim`, so the victim is determined |
| Policies.FindOptVictim | src/main.py:576-591 | the victim scan with early `break` returns the index satisfying `IsOptVictim`; this is `OptVictim` |
| Policies.FaultIffAbsent | src/main.py:480-491 | under every policy, the access is a fault exactly when the page is not in the frames, and only a fault replaces a page |
| Policies.HitKeepsFrames | src/main.py:480 | a FIFO or OPT hit leaves the frames, the counter and the replaced page untouched |
| Policies.LruHitMovesToEnd | src/main.py:534-538 | an LRU hit puts the page in the last slot and keeps the multiset of slots; with the page removed, the other slots keep their order |
| Policies.FaultFillsFirstEmpty | src/main.py:483-485 | a fault with an empty frame writes the page into the lowest-index empty frame only, under every policy |
| Policies.QueueFaultShiftsLeft | src/main.py:486-490 | a FIFO or LRU fault on full frames evicts slot 0, shifts every page one slot left and puts the new page last |
| Policies.OptFaultReplacesVictim | src/main.py:576-591 | an OPT fault on full frames overwrites exactly the `IsOptVictim` slot, returns its old page and leaves every other slot alone |
| Policies.AccessKeepsLength | src/main.py:480-592 | no access changes the number of frames |
| Policies.AccessKeepsFrameInvariant | src/main.py:480-491 | every access keeps the length and the distinct pages, and leaves the accessed page resident |
| Policies.AccessResidency | src/main.py:480-491 | afterwards a page is resident exactly when it was accessed, or was resident and not replaced; the replaced page was resident |
| Policies.EmptyFramesNeverGrow | src/main.py:483-490 | the number of empty frames never grows, and a fault on frames with an empty slot lowers it by exactly one |
| Replay.RunSteps | src/main.py:441-467 | the state after `k` accesses from empty frames always has `capacity` frames |
| Replay.Advance | src/main.py:458-467 | one access from a run state keeps the number of frames and raises the fault counter by at most one |
| Replay.RunInvariant | src/main.py:480-592 | after `k` accesses the pages are distinct, every resident page occurs in the first `k` references, and there are at most `k` faults |
| Replay.RunInvariantStep | src/main.py:480-491 | if the run after `k - 1` accesses has distinct pages, only pages referenced so far and at most `k - 1` faults, the run after `k` has the same with `k` |
| Replay.StepInvariant | src/main.py:480-491 | one access keeps the frame count and the distinct pages, adds at most one fault, and leaves only pages referenced so far resident |
| Replay.CompulsoryMiss | src/main.py:480 | the first reference to a page faults, whatever the policy |
| Replay.FirstReferences | src/main.py:441-467 | the number of first references among the first `k` accesses is at most `k` |
| Replay.FaultsAtLeastFirstReferences | src/main.py:441-467 | after `k` accesses, faults are at least the distinct pages referenced and at most `k` |
| Replay.Padded | src/main.py:336 | a reference layout, not code of the tool: a queue followed by empty frames, `capacity` slots in all; only `Padded([], n)` is the list `[None] * n` built at line 336. `PaddedResident` and `PaddedFill` state its residency and how a fill extends it |
| Replay.PaddedResident | src/main.py:480 | a page is resident in the padded frames exactly when it is in the queue |
| Replay.PaddedFill | src/main.py:483-485 | on a padded, non-full queue the first empty frame is the one just past the queue, and filling it appends the page to the queue |
| Replay.FifoQueueAccess | src/main.py:480-490 | the textbook FIFO queue step, the reference definition `FifoStepIsQueueStep` relates the handler to |
| Replay.FifoQueue | src/main.py:473-494 | the textbook FIFO queue after `k` references, the reference definition `FifoRunIsQueue` relates the run to |
| Replay.FifoStepIsQueueStep | src/main.py:480-490 | one FIFO access on a queue laid out in frames is the textbook FIFO queue step, with the same fault and the oldest page evicted |
| Replay.FifoRunIsQueue | src/main.py:473-494 | over a whole run, FIFO's frames are the textbook FIFO queue with the empty frames last |
| Replay.SingleFrame | src/main.py:480-491 | with one frame, under every policy, a first reference to 1 faults into the empty frame, a repeat keeps it, and a reference to 2 faults and replaces 1 |
| Replay.LruHitPastEmptyFrames | src/main.py:534-538 | an LRU hit on `[1,None,None]` moves 1 behind the empty frames |
| Replay.LruEvictsNotLeastRecent | src/main.py:525-532 | 2 and 3 then fill the empty frames, and the fault on 4 evicts 2, although 1 is the least recently used |
| Replay.OptEvictsUnused | src/main.py:587-589 | OPT evicts a page never referenced again |
| Replay.OptEvictsFarthest | src/main.py:580-586 | with every page reused, OPT evicts the one used farthest ahead |
| Replay.QueueFaultExample | src/main.py:486-490 | FIFO and LRU on full frames drop slot 0 and append |
| Replay.RunStepsNext | src/main.py:441-467 | the state after `k` accesses is `Advance` of access `k - 1`, with the rest of the string as its future, on the state after `k - 1` |
| Replay.FillPhase | src/main.py:480-485 | while the references are distinct and the frames not yet full, every policy faults on each one and reference `i` lands in frame `i` |
| Replay.LruFaultIsFifoFault | src/main.py:480-532 | from the same state, an access on which FIFO faults gives the same state under LRU |
| Replay.LruStepAsFifo | src/main.py:480-532 | from the LRU state after `k - 1` accesses, an access on which FIFO faults takes the LRU run to FIFO's next state |
| Replay.FillsOneTwoThree | src/main.py:480-485 | on `[1,2,3,4,1,2,5]` with 3 frames, every policy holds `[1,2,3]` with 3 faults after three accesses |
| Replay.FifoFullSteps | src/main.py:486-490 | once the frames hold `[1,2,3]`, FIFO's accesses to 4, 1, 2 and 5 each evict the oldest page and count a fault, whatever the future |
| Replay.FifoFirstFive | src/main.py:486-490 | FIFO then evicts 1 for 4 and 2 for 1, holding `[3,4,1]` with 5 faults |
| Replay.FifoSevenFaults | src/main.py:473-494 | FIFO faults on all seven references and ends with `[1,2,5]` |
| Replay.LruFirstFive | src/main.py:522-532 | LRU as written also evicts 1 for 4 and 2 for 1, holding `[3,4,1]` with 5 faults |
| Replay.LruSevenFaults | src/main.py:515-541 | LRU also faults seven times and ends with `[1,2,5]` |
| Replay.OptFirstFive | src/main.py:576-592 | OPT evicts the unused 3 for 4 and then hits on 1, holding `[1,2,4]` with 4 faults |
| Replay.OptFiveFaults | src/main.py:562-595 | OPT faults five times on the string and ends with `[5,2,4]` |
| Replay.RepeatedPage | src/main.py:480-491 | on `[1,1,1]` with one frame, every policy faults once and ends with `[1]` |
| Replay.TwoPagesTwoFrames | src/main.py:480-491 | on `[1,2,1,2]` with two frames, every policy faults exactly twice |
| Simulator.CountFaults | src/main.py:491 | the number of faulting steps is at most the number of steps |
| Simulator.CountFaultsAppend | src/main.py:491 | one more step adds one to the count exactly when it faulted |
| Simulator.EmptyHistory | src/main.py:338 | `[[] for _ in range(n)]`: `n` empty histories |
| Simulator.Consistent | src/main.py:319-373 | the class invariant: at most 50 pages; once an algorithm is chosen, 1 to 10 frames; distinct resident pages; one history per frame, each with `current_index` entries, the last being the frame's current occupant; a fault counter equal to the number of faulting steps; and, while `pristine` holds, frames, counter and histories equal to the run's state after `current_index` accesses |
| Simulator.PageReplacementSimulator.Valid | src/main.py:319-373 | `Consistent` on the object's current fields |
| Simulator.RecordColumn | src/main.py:370-373 | each frame's history gets exactly that frame's current occupant appended, and no frame is added or lost |
| Simulator.RunHistory | src/main.py:370-373 | the histories after `k` accesses of a run, one per frame |
| Simulator.RunHistoryEntries | src/main.py:370-373 | after `k` accesses each history has `k` entries, and entry `t` is that frame's occupant after access `t` |
| Simulator.ReplayedStep | src/main.py:441-467 | one access, with each frame's occupant appended to its history, extends a replayed prefix of the run, histories included, by one step |
| Simulator.StepKeepsConsistent | src/main.py:441-467 | one access, with its history entries and counter update, keeps the class invariant |
| Simulator.PageReplacementSimulator.constructor | src/main.py:14-18 | starts with no pages, no frames, no history, cursor and counter at zero |
| Simulator.PageReplacementSimulator.GeneratePages | src/main.py:172-183 | accepts exactly the counts 1 to 50 and then installs the drawn pages; otherwise nothing changes |
| Simulator.PageReplacementSimulator.PrepareAlgorithm | src/main.py:319-339 | fails exactly for a frame count outside 1..10 or an empty string, and changes nothing then; otherwise `frame_size` empty frames, `frame_size` empty histories, cursor and counter zero |
| Simulator.PageReplacementSimulator.RunAlgorithm | src/main.py:375-397 | on successful setup selects the algorithm; the state is then the run's state after 0 steps |
| Simulator.PageReplacementSimulator.GetFrameHistory | src/main.py:366-368 | a frame's history has one entry per step so far, the last being its current occupant; negative indices count from the end |
| Simulator.PageReplacementSimulator.UpdateFrameHistory | src/main.py:370-373 | appends to each frame's history exactly its current occupant |
| Simulator.PageReplacementSimulator.ProcessFifoStep | src/main.py:473-494 | new frames, replaced page and counter are those of `FifoAccess` on the old frames; one history entry per frame |
| Simulator.PageReplacementSimulator.ProcessLruStep | src/main.py:515-541 | new frames, replaced page and counter are those of `LruAccess` on the old frames; one history entry per frame |
| Simulator.PageReplacementSimulator.ProcessOptStep | src/main.py:562-595 | new frames, replaced page and counter are those of `OptAccess` with the remaining references `generated_pages[current_index+1:]` |
| Simulator.PageReplacementSimulator.DispatchStep | src/main.py:458-464 | the chosen algorithm's handler gives that policy's access on the current page with the rest of the string as the future, and records one history entry per frame |
| Simulator.PageReplacementSimulator.AnimateStep | src/main.py:441-467 | once the string is exhausted nothing changes; otherwise the chosen policy's access is applied and the cursor advances by one; the class invariant is kept |

## Left out

- The tkinter interface is not modelled: widgets, canvas drawing, highlighting, the log text and status strings.
- The timer-driven animation is not modelled: `root.after`, `after_cancel`, `is_animating`, `start_animation` and `stop_animation`. A step is a plain call of `AnimateStep`, so its `not self.is_animating` guard is not modelled.
- The speed slider and the floating-point delay it computes are not modelled.
- `random.randint(0, 9)` is not modelled. `GeneratePages` takes the drawn pages as the parameter `draws`, whose values lie in 0..9.
- Text parsing with `int(...)` and its `ValueError` dialogs are not modelled. The page and frame counts are integer parameters.
- `replaced_index` is only computed for logging and highlighting; for FIFO and LRU it is `frame_size - 1`, a display value. So the `frame_size` the handlers re-read is not modelled. The frame count is `|frames|`, fixed by setup.
- `reset_simulation` is not modelled. It only clears fields for the display, leaves `frame_history` as it is, and the next setup reinitialises everything anyway.
- The `algorithm` attribute does not exist in Python before the first `run_fifo`, `run_lru` or `run_opt` call. The model has `algorithm == None` there, and `AnimateStep` requires a chosen algorithm when a step would run.
- `GetFrameHistory` requires the index to be in Python's valid range; an out-of-range index raises `IndexError`, which is not modelled.
- OPT's optimality (fewest faults of any policy) is not proved. The model proves which frame the code picks, not that the choice is optimal.
- LRU is not proved to be true LRU, because the code is not. `LruHitPastEmptyFrames` and `LruEvictsNotLeastRecent` show where it differs.
