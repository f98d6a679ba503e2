/**
 * A whole simulation run as a function of the policy, the number of frames
 * and the reference string: the state after the first `k` accesses, starting
 * from all-empty frames, as `prepare_algorithm` leaves it.
 */
module Replay {
  import opened Wrappers
  import opened Frames
  import opened Policies

  /** Frames and fault counter after some number of accesses. */
  datatype RunState = RunState(frames: seq<Slot>, faults: nat)

  /**
   * The state after the first `k` accesses of `pages` with `capacity`
   * frames. Access `i` sees the rest of the string `pages[i+1..]`.
   */
  function RunSteps(policy: Policy, capacity: nat, pages: seq<Page>, k: nat): (s: RunState)
    requires 1 <= capacity && k <= |pages|
    ensures |s.frames| == capacity
  {
    if k == 0 then RunState(EmptyFrames(capacity), 0)
    else
      var prev := RunSteps(policy, capacity, pages, k - 1);
      var o := Access(policy, prev.frames, pages[k - 1], pages[k..]);
      AccessKeepsLength(policy, prev.frames, pages[k - 1], pages[k..]);
      RunState(o.frames, prev.faults + if o.fault then 1 else 0)
  }

  /**
   * One access applied to a run state: the new frames, and one more fault if
   * it faulted. This is the step case of `RunSteps`, written out there
   * inline; `RunStepsNext` states that the two agree.
   */
  function Advance(policy: Policy, s: RunState, p: Page, future: seq<Page>): (r: RunState)
    requires |s.frames| > 0
    ensures |r.frames| == |s.frames|
    ensures s.faults <= r.faults <= s.faults + 1
  {
    var o := Access(policy, s.frames, p, future);
    AccessKeepsLength(policy, s.frames, p, future);
    RunState(o.frames, s.faults + if o.fault then 1 else 0)
  }

  /**
   * What every run keeps: the pages in the frames are distinct, each was
   * referenced already, and there are at most as many faults as accesses.
   */
  lemma {:induction false} RunInvariant(policy: Policy, capacity: nat, pages: seq<Page>, k: nat)
    requires 1 <= capacity && k <= |pages|
    ensures var s := RunSteps(policy, capacity, pages, k);
      DistinctPages(s.frames) && s.faults <= k &&
      forall i :: 0 <= i < capacity && s.frames[i].Some? ==> s.frames[i].value in pages[..k]
  {
    if k > 0 {
      RunInvariant(policy, capacity, pages, k - 1);
      RunInvariantStep(policy, capacity, pages, k);
    }
  }

  /** The step case of `RunInvariant`: access `k - 1` keeps the invariant of the run. */
  lemma RunInvariantStep(policy: Policy, capacity: nat, pages: seq<Page>, k: nat)
    requires 1 <= capacity && 0 < k <= |pages|
    requires var s := RunSteps(policy, capacity, pages, k - 1);
      DistinctPages(s.frames) && s.faults <= k - 1 &&
      forall i :: 0 <= i < capacity && s.frames[i].Some? ==> s.frames[i].value in pages[..k - 1]
    ensures var s := RunSteps(policy, capacity, pages, k);
      DistinctPages(s.frames) && s.faults <= k &&
      forall i :: 0 <= i < capacity && s.frames[i].Some? ==> s.frames[i].value in pages[..k]
  {
    var prev := RunSteps(policy, capacity, pages, k - 1);
    var next := Advance(policy, prev, pages[k - 1], pages[k..]);
    RunStepsNext(policy, capacity, pages, k, prev, next);
    StepInvariant(policy, pages, k, prev, next);
  }

  /** `RunInvariantStep` on states: one access keeps the invariant of a run. */
  lemma StepInvariant(policy: Policy, pages: seq<Page>, k: nat, s: RunState, s': RunState)
    requires 1 <= k <= |pages| && |s.frames| > 0 && DistinctPages(s.frames) && s.faults <= k - 1
    requires forall i :: 0 <= i < |s.frames| && s.frames[i].Some? ==> s.frames[i].value in pages[..k - 1]
    requires s' == Advance(policy, s, pages[k - 1], pages[k..])
    ensures |s'.frames| == |s.frames| && DistinctPages(s'.frames) && s'.faults <= k
    ensures forall i :: 0 <= i < |s'.frames| && s'.frames[i].Some? ==> s'.frames[i].value in pages[..k]
  {
    AccessKeepsFrameInvariant(policy, s.frames, pages[k - 1], pages[k..]);
    RunSeenPages(policy, s.frames, pages, k);
  }

  /** The frames half of `StepInvariant`: after access `k-1` every resident page occurs in `pages[..k]`. */
  lemma RunSeenPages(policy: Policy, frames: seq<Slot>, pages: seq<Page>, k: nat)
    requires 1 <= k <= |pages| && |frames| > 0 && DistinctPages(frames)
    requires forall i :: 0 <= i < |frames| && frames[i].Some? ==> frames[i].value in pages[..k - 1]
    ensures var r := Access(policy, frames, pages[k - 1], pages[k..]).frames;
      forall i :: 0 <= i < |r| && r[i].Some? ==> r[i].value in pages[..k]
  {
    var r := Access(policy, frames, pages[k - 1], pages[k..]).frames;
    assert pages[..k] == pages[..k - 1] + [pages[k - 1]];
    forall i | 0 <= i < |r| && r[i].Some? ensures r[i].value in pages[..k] {
      var q := r[i].value;
      assert r[i] in r;
      AccessResidency(policy, frames, pages[k - 1], pages[k..], q);
      if q != pages[k - 1] {
        var j := IndexOf(frames, Some(q));
        assert frames[j].value in pages[..k - 1];
      }
    }
  }

  /**
   * Compulsory misses: the first reference to a page always faults,
   * whatever the policy, because only pages already referenced are resident.
   */
  lemma CompulsoryMiss(policy: Policy, capacity: nat, pages: seq<Page>, k: nat)
    requires 1 <= capacity && k < |pages| && pages[k] !in pages[..k]
    ensures Access(policy, RunSteps(policy, capacity, pages, k).frames, pages[k], pages[k + 1..]).fault
  {
    RunInvariant(policy, capacity, pages, k);
  }

  /** Number of positions `i < k` where `pages[i]` is referenced for the first time. */
  function FirstReferences(pages: seq<Page>, k: nat): (n: nat)
    requires k <= |pages|
    ensures n <= k
  {
    if k == 0 then 0
    else FirstReferences(pages, k - 1) + if pages[k - 1] !in pages[..k - 1] then 1 else 0
  }

  /** The fault count is at least the number of distinct pages referenced so far. */
  lemma {:induction false} FaultsAtLeastFirstReferences(policy: Policy, capacity: nat, pages: seq<Page>, k: nat)
    requires 1 <= capacity && k <= |pages|
    ensures FirstReferences(pages, k) <= RunSteps(policy, capacity, pages, k).faults <= k
  {
    if k > 0 {
      FaultsAtLeastFirstReferences(policy, capacity, pages, k - 1);
      RunInvariant(policy, capacity, pages, k);
      if pages[k - 1] !in pages[..k - 1] {
        CompulsoryMiss(policy, capacity, pages, k - 1);
      }
    }
  }

  // ---------------------------------------------------------------------------
  // FIFO against a textbook FIFO queue

  /** A queue of resident pages, oldest first, laid out in `capacity` frames with the empty frames last. */
  function Padded(queue: seq<Page>, capacity: nat): (r: seq<Slot>)
    requires |queue| <= capacity
    ensures |r| == capacity
  {
    seq(capacity, i => if 0 <= i < |queue| then Some(queue[i]) else None)
  }

  /**
   * Textbook FIFO replacement on a queue: a hit leaves the queue alone, a
   * fault appends the page, first dequeuing the oldest page when full.
   */
  function FifoQueueAccess(queue: seq<Page>, capacity: nat, p: Page): (r: seq<Page>)
    requires 1 <= capacity && |queue| <= capacity
    ensures |r| <= capacity
  {
    if p in queue then queue
    else if |queue| < capacity then queue + [p]
    else queue[1..] + [p]
  }

  /** The textbook FIFO queue after the given references, from an empty queue. */
  function FifoQueue(capacity: nat, pages: seq<Page>): (r: seq<Page>)
    requires 1 <= capacity
    ensures |r| <= capacity
  {
    if pages == [] then []
    else FifoQueueAccess(FifoQueue(capacity, pages[..|pages| - 1]), capacity, pages[|pages| - 1])
  }

  /**
   * One FIFO access on a padded queue is the textbook FIFO step: same
   * frames, same hit or fault, and on a full fault the evicted page is the
   * oldest one in the queue.
   */
  lemma FifoStepIsQueueStep(queue: seq<Page>, capacity: nat, p: Page)
    requires 1 <= capacity && |queue| <= capacity
    ensures var o := FifoAccess(Padded(queue, capacity), p);
      o.frames == Padded(FifoQueueAccess(queue, capacity, p), capacity) &&
      o.fault == (p !in queue) &&
      o.evicted == (if p !in queue && |queue| == capacity then Some(queue[0]) else None)
  {
    var frames := Padded(queue, capacity);
    assert Resident(frames, p) <==> p in queue by {
      if p in queue {
        var i := IndexOf(queue, p);
        assert frames[i] == Some(p);
      }
    }
    if p !in queue {
      if |queue| < capacity {
        assert frames[|queue|] == None;
        IndexOfFirst(frames, None);
        assert IndexOf(frames, None) == |queue|;
      } else {
        assert None !in frames;
      }
    }
  }

  /** Over a whole run, FIFO as written keeps its frames equal to the textbook FIFO queue. */
  lemma {:induction false} FifoRunIsQueue(capacity: nat, pages: seq<Page>, k: nat)
    requires 1 <= capacity && k <= |pages|
    ensures RunSteps(FIFO, capacity, pages, k).frames == Padded(FifoQueue(capacity, pages[..k]), capacity)
  {
    if k == 0 {
      assert Padded([], capacity) == EmptyFrames(capacity);
    } else {
      FifoRunIsQueue(capacity, pages, k - 1);
      assert pages[..k][..k - 1] == pages[..k - 1];
      FifoStepIsQueueStep(FifoQueue(capacity, pages[..k - 1]), capacity, pages[k - 1]);
    }
  }

  // ---------------------------------------------------------------------------
  // Concrete accesses

  /** With one frame holding 1, a reference to 1 hits and a reference to 2 replaces 1, under every policy. */
  lemma SingleFrame(policy: Policy, future: seq<Page>)
    ensures Access(policy, [None], 1, future) == Outcome([Some(1)], true, None)
    ensures Access(policy, [Some(1)], 1, future).frames == [Some(1)]
    ensures Access(policy, [Some(1)], 2, future) == Outcome([Some(2)], true, Some(1))
  {
    var empty: seq<Slot> := [None];
    assert !Resident(empty, 1) && IndexOf(empty, None) == 0;
    assert Resident([Some(1)], 1);
    assert !Resident([Some(1)], 2) && None !in [Some(1)];
  }

  /**
   * The LRU handler as written does not keep recency order. With 3 frames
   * and `[1,1,2,3,4]`, the hit on 1 moves it behind the empty frames ...
   */
  lemma LruHitPastEmptyFrames()
    ensures LruAccess([None, None, None], 1).frames == [Some(1), None, None]
    ensures LruAccess([Some(1), None, None], 1).frames == [None, None, Some(1)]
  {
  }

  /** ... 2 and 3 then fill the empty frames, and the fault on 4 evicts 2, not the least recently used page 1. */
  lemma LruEvictsNotLeastRecent()
    ensures LruAccess([None, None, Some(1)], 2).frames == [Some(2), None, Some(1)]
    ensures LruAccess([Some(2), None, Some(1)], 3).frames == [Some(2), Some(3), Some(1)]
    ensures LruAccess([Some(2), Some(3), Some(1)], 4) == Outcome([Some(3), Some(1), Some(4)], true, Some(2))
  {
    assert !Resident([None, None, Some(1)], 2) && IndexOf([None, None, Some(1)], None) == 0;
    assert !Resident([Some(2), None, Some(1)], 3) && IndexOf([Some(2), None, Some(1)], None) == 1;
    assert !Resident([Some(2), Some(3), Some(1)], 4) && None !in [Some(2), Some(3), Some(1)];
  }

  /** OPT on a full fault evicts a page that is never used again, here 3 for 4 in `[1,2,3,4,1,2]`. */
  lemma OptEvictsUnused()
    ensures OptAccess([Some(1), Some(2), Some(3)], 4, [1, 2]) ==
            Outcome([Some(1), Some(2), Some(4)], true, Some(3))
  {
    assert !Resident([Some(1), Some(2), Some(3)], 4) && None !in [Some(1), Some(2), Some(3)];
  }

  /** With every page used again, OPT evicts the one used farthest ahead. */
  lemma OptEvictsFarthest()
    ensures OptAccess([Some(1), Some(2), Some(3)], 4, [2, 3, 1]) ==
            Outcome([Some(4), Some(2), Some(3)], true, Some(1))
  {
    assert !Resident([Some(1), Some(2), Some(3)], 4) && None !in [Some(1), Some(2), Some(3)];
  }

  /** On a full fault FIFO and LRU drop slot 0 and append, unlike OPT's in-place overwrite. */
  lemma QueueFaultExample()
    ensures FifoAccess([Some(1), Some(2), Some(3)], 4) ==
            Outcome([Some(2), Some(3), Some(4)], true, Some(1))
    ensures LruAccess([Some(1), Some(2), Some(3)], 4) ==
            Outcome([Some(2), Some(3), Some(4)], true, Some(1))
  {
  }

  // ---------------------------------------------------------------------------
  // Whole runs

  /** The run after `k` accesses is access `k - 1`, with the rest of the string `pages[k..]` as its future, applied to the run after `k - 1`. */
  lemma RunStepsNext(policy: Policy, capacity: nat, pages: seq<Page>, k: nat, s: RunState, s': RunState)
    requires 1 <= capacity && 0 < k <= |pages| && RunSteps(policy, capacity, pages, k - 1) == s
    requires Advance(policy, s, pages[k - 1], pages[k..]) == s'
    ensures RunSteps(policy, capacity, pages, k) == s'
  {
  }

  /** A page is resident in the padded frames exactly when it is in the queue. */
  lemma PaddedResident(queue: seq<Page>, capacity: nat, p: Page)
    requires |queue| <= capacity
    ensures Resident(Padded(queue, capacity), p) <==> p in queue
  {
    var frames := Padded(queue, capacity);
    if p in queue {
      var i :| 0 <= i < |queue| && queue[i] == p;
      assert frames[i] == Some(p);
    } else {
      forall i | 0 <= i < capacity
        ensures frames[i] != Some(p)
      {
        if i < |queue| {
          assert frames[i] == Some(queue[i]);
        }
      }
    }
  }

  /** Filling the first empty frame of a padded, non-full queue appends to the queue. */
  lemma PaddedFill(queue: seq<Page>, capacity: nat, p: Page)
    requires |queue| < capacity
    ensures None in Padded(queue, capacity)
    ensures IndexOf(Padded(queue, capacity), None) == |queue|
    ensures Padded(queue, capacity)[|queue| := Some(p)] == Padded(queue + [p], capacity)
  {
    var frames := Padded(queue, capacity);
    assert frames[|queue|] == None;
    IndexOfFirst(frames, None);
  }

  /**
   * While the frames are not yet full and every reference is new, every
   * policy faults on each reference and puts the `i`-th page into slot `i`.
   */
  lemma {:induction false} FillPhase(policy: Policy, capacity: nat, pages: seq<Page>, k: nat)
    requires 1 <= capacity && k <= capacity && k <= |pages|
    requires forall i, j :: 0 <= i < j < k ==> pages[i] != pages[j]
    ensures RunSteps(policy, capacity, pages, k) == RunState(Padded(pages[..k], capacity), k)
  {
    if k == 0 {
      assert Padded(pages[..0], capacity) == EmptyFrames(capacity);
    } else {
      FillPhase(policy, capacity, pages, k - 1);
      var queue, p := pages[..k - 1], pages[k - 1];
      var frames := Padded(queue, capacity);
      PaddedResident(queue, capacity, p);
      PaddedFill(queue, capacity, p);
      assert queue + [p] == pages[..k];
      FaultFillsFirstEmpty(policy, frames, p, pages[k..]);
    }
  }

  /** `[1,2,3,4,1,2,5]` with 3 frames: under every policy the first three references fill the frames in order. */
  lemma FillsOneTwoThree(policy: Policy, p: seq<Page>)
    requires p == [1, 2, 3, 4, 1, 2, 5]
    ensures RunSteps(policy, 3, p, 3) == RunState([Some(1), Some(2), Some(3)], 3)
  {
    FillPhase(policy, 3, p, 3);
    assert Padded(p[..3], 3) == [Some(1), Some(2), Some(3)];
  }

  /**
   * The FIFO accesses of `[1,2,3,4,1,2,5]` with 3 frames once the frames are
   * full: 4, 1, 2 and 5 each evict the oldest page. FIFO ignores the future.
   */
  lemma FifoFullSteps(future: seq<Page>)
    ensures Advance(FIFO, RunState([Some(1), Some(2), Some(3)], 3), 4, future) == RunState([Some(2), Some(3), Some(4)], 4)
    ensures Advance(FIFO, RunState([Some(2), Some(3), Some(4)], 4), 1, future) == RunState([Some(3), Some(4), Some(1)], 5)
    ensures Advance(FIFO, RunState([Some(3), Some(4), Some(1)], 5), 2, future) == RunState([Some(4), Some(1), Some(2)], 6)
    ensures Advance(FIFO, RunState([Some(4), Some(1), Some(2)], 6), 5, future) == RunState([Some(1), Some(2), Some(5)], 7)
  {
    assert !Resident([Some(1), Some(2), Some(3)], 4) && None !in [Some(1), Some(2), Some(3)];
    assert !Resident([Some(2), Some(3), Some(4)], 1) && None !in [Some(2), Some(3), Some(4)];
    assert !Resident([Some(3), Some(4), Some(1)], 2) && None !in [Some(3), Some(4), Some(1)];
    assert !Resident([Some(4), Some(1), Some(2)], 5) && None !in [Some(4), Some(1), Some(2)];
  }

  /** ... then FIFO evicts 1 for 4 and 2 for 1 ... */
  lemma FifoFirstFive(p: seq<Page>)
    requires p == [1, 2, 3, 4, 1, 2, 5]
    ensures RunSteps(FIFO, 3, p, 5) == RunState([Some(3), Some(4), Some(1)], 5)
  {
    FillsOneTwoThree(FIFO, p);
    FifoFullSteps(p[4..]);
    RunStepsNext(FIFO, 3, p, 4, RunState([Some(1), Some(2), Some(3)], 3), RunState([Some(2), Some(3), Some(4)], 4));
    FifoFullSteps(p[5..]);
    RunStepsNext(FIFO, 3, p, 5, RunState([Some(2), Some(3), Some(4)], 4), RunState([Some(3), Some(4), Some(1)], 5));
  }

  /** ... and 3 for 2 and 4 for 5: FIFO faults on all seven references. */
  lemma FifoSevenFaults(p: seq<Page>)
    requires p == [1, 2, 3, 4, 1, 2, 5]
    ensures RunSteps(FIFO, 3, p, 7) == RunState([Some(1), Some(2), Some(5)], 7)
  {
    FifoFirstFive(p);
    FifoFullSteps(p[6..]);
    RunStepsNext(FIFO, 3, p, 6, RunState([Some(3), Some(4), Some(1)], 5), RunState([Some(4), Some(1), Some(2)], 6));
    FifoFullSteps(p[7..]);
    RunStepsNext(FIFO, 3, p, 7, RunState([Some(4), Some(1), Some(2)], 6), RunState([Some(1), Some(2), Some(5)], 7));
  }

  /** An access that faults under FIFO has the same outcome under LRU as written. */
  lemma LruFaultIsFifoFault(s: RunState, p: Page, future: seq<Page>)
    requires |s.frames| > 0 && Advance(FIFO, s, p, future).faults > s.faults
    ensures Advance(LRU, s, p, future) == Advance(FIFO, s, p, future)
  {
  }

  /**
   * LRU as written differs from FIFO only on a hit: from an LRU state `s`
   * after `k - 1` accesses, an access on which FIFO faults takes the LRU run to
   * FIFO's next state.
   */
  lemma LruStepAsFifo(capacity: nat, pages: seq<Page>, k: nat, s: RunState, s': RunState)
    requires 1 <= capacity && 0 < k <= |pages| && RunSteps(LRU, capacity, pages, k - 1) == s
    requires Advance(FIFO, s, pages[k - 1], pages[k..]) == s' && s'.faults > s.faults
    ensures RunSteps(LRU, capacity, pages, k) == s'
  {
    LruFaultIsFifoFault(s, pages[k - 1], pages[k..]);
    RunStepsNext(LRU, capacity, pages, k, s, s');
  }

  /** On `[1,2,3,4,1,2,5]` with 3 frames LRU as written then also evicts 1 for 4 and 2 for 1 ... */
  lemma LruFirstFive(p: seq<Page>)
    requires p == [1, 2, 3, 4, 1, 2, 5]
    ensures RunSteps(LRU, 3, p, 5) == RunState([Some(3), Some(4), Some(1)], 5)
  {
    FillsOneTwoThree(LRU, p);
    FifoFullSteps(p[4..]);
    LruStepAsFifo(3, p, 4, RunState([Some(1), Some(2), Some(3)], 3), RunState([Some(2), Some(3), Some(4)], 4));
    FifoFullSteps(p[5..]);
    LruStepAsFifo(3, p, 5, RunState([Some(2), Some(3), Some(4)], 4), RunState([Some(3), Some(4), Some(1)], 5));
  }

  /** ... and faults on all seven references, ending as FIFO does. */
  lemma LruSevenFaults(p: seq<Page>)
    requires p == [1, 2, 3, 4, 1, 2, 5]
    ensures RunSteps(LRU, 3, p, 7) == RunState([Some(1), Some(2), Some(5)], 7)
  {
    LruFirstFive(p);
    FifoFullSteps(p[6..]);
    LruStepAsFifo(3, p, 6, RunState([Some(3), Some(4), Some(1)], 5), RunState([Some(4), Some(1), Some(2)], 6));
    FifoFullSteps(p[7..]);
    LruStepAsFifo(3, p, 7, RunState([Some(4), Some(1), Some(2)], 6), RunState([Some(1), Some(2), Some(5)], 7));
  }

  /** OPT instead overwrites 3, which is never used again, with 4, so 1 then hits ... */
  lemma OptFirstFive(p: seq<Page>)
    requires p == [1, 2, 3, 4, 1, 2, 5]
    ensures RunSteps(OPT, 3, p, 5) == RunState([Some(1), Some(2), Some(4)], 4)
  {
    FillsOneTwoThree(OPT, p);
    RunStepsNext(OPT, 3, p, 4, RunState([Some(1), Some(2), Some(3)], 3), RunState([Some(1), Some(2), Some(4)], 4));
    RunStepsNext(OPT, 3, p, 5, RunState([Some(1), Some(2), Some(4)], 4), RunState([Some(1), Some(2), Some(4)], 4));
  }

  /** ... 2 hits, and 5 overwrites the first frame, for five faults in all. */
  lemma OptFiveFaults(p: seq<Page>)
    requires p == [1, 2, 3, 4, 1, 2, 5]
    ensures RunSteps(OPT, 3, p, 7) == RunState([Some(5), Some(2), Some(4)], 5)
  {
    OptFirstFive(p);
    RunStepsNext(OPT, 3, p, 6, RunState([Some(1), Some(2), Some(4)], 4), RunState([Some(1), Some(2), Some(4)], 4));
    RunStepsNext(OPT, 3, p, 7, RunState([Some(1), Some(2), Some(4)], 4), RunState([Some(5), Some(2), Some(4)], 5));
  }

  /** `[1,1,1]` with one frame: under every policy one fault, and page 1 stays in the frame. */
  lemma RepeatedPage(policy: Policy, p: seq<Page>)
    requires p == [1, 1, 1]
    ensures RunSteps(policy, 1, p, 3) == RunState([Some(1)], 1)
  {
    FillPhase(policy, 1, p, 1);
    assert Padded(p[..1], 1) == [Some(1)];
    RunStepsNext(policy, 1, p, 2, RunState([Some(1)], 1), RunState([Some(1)], 1));
    RunStepsNext(policy, 1, p, 3, RunState([Some(1)], 1), RunState([Some(1)], 1));
  }

  /** `[1,2,1,2]` with two frames: under every policy only the two first references fault. */
  lemma TwoPagesTwoFrames(policy: Policy, p: seq<Page>)
    requires p == [1, 2, 1, 2]
    ensures RunSteps(policy, 2, p, 4).faults == 2
  {
    FillPhase(policy, 2, p, 2);
    assert Padded(p[..2], 2) == [Some(1), Some(2)];
    var s2 := RunSteps(policy, 2, p, 2);
    FaultIffAbsent(policy, s2.frames, 1, p[3..]);
    AccessResidency(policy, s2.frames, 1, p[3..], 2);
    var s3 := RunSteps(policy, 2, p, 3);
    FaultIffAbsent(policy, s3.frames, 2, p[4..]);
  }
}
