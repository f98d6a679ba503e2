/**
 * The simulation state of `PageReplacementSimulator` and the methods that
 * update it: setup, page generation, the per-step dispatcher and the three
 * step handlers, and the frame history.
 */
module Simulator {
  import opened Wrappers
  import opened Frames
  import opened Policies
  import opened Replay

  /** Number of `true` entries: the faulting steps among the recorded ones. */
  function CountFaults(flags: seq<bool>): (n: nat)
    ensures n <= |flags|
  {
    if flags == [] then 0
    else CountFaults(flags[..|flags| - 1]) + if flags[|flags| - 1] then 1 else 0
  }

  /** Recording one more step adds one to the count exactly when that step faulted. */
  lemma CountFaultsAppend(flags: seq<bool>, fault: bool)
    ensures CountFaults(flags + [fault]) == CountFaults(flags) + if fault then 1 else 0
  {
    assert (flags + [fault])[..|flags|] == flags;
  }

  /** `[[] for _ in range(n)]`: one empty history per frame. */
  function EmptyHistory(n: nat): (h: seq<seq<Slot>>)
    ensures |h| == n
    ensures forall i :: 0 <= i < n ==> h[i] == []
  {
    seq(n, _ => [])
  }

  /** Each frame's history with that frame's current occupant appended, as `update_frame_history` leaves it. */
  function RecordColumn(history: seq<seq<Slot>>, frames: seq<Slot>): (h: seq<seq<Slot>>)
    requires |history| == |frames|
    ensures |h| == |history|
    ensures forall i :: 0 <= i < |h| ==> h[i] == history[i] + [frames[i]]
  {
    seq(|history|, i requires 0 <= i < |history| => history[i] + [frames[i]])
  }

  /** The frame histories after the first `k` accesses of a run, one entry recorded per access. */
  ghost function RunHistory(policy: Policy, capacity: nat, pages: seq<Page>, k: nat): (h: seq<seq<Slot>>)
    requires 1 <= capacity && k <= |pages|
    ensures |h| == capacity
  {
    if k == 0 then EmptyHistory(capacity)
    else RecordColumn(RunHistory(policy, capacity, pages, k - 1), RunSteps(policy, capacity, pages, k).frames)
  }

  /** Entry `t` of a frame after `RecordColumn`: the old entry, or the occupant just recorded. */
  lemma ColumnEntry(history: seq<seq<Slot>>, frames: seq<Slot>, i: nat, t: nat)
    requires |history| == |frames| && i < |history| && t <= |history[i]|
    ensures |RecordColumn(history, frames)[i]| == |history[i]| + 1
    ensures RecordColumn(history, frames)[i][t] == if t < |history[i]| then history[i][t] else frames[i]
  {
  }

  /** Entry `t` of each frame's recorded history is that frame's occupant after access `t`. */
  lemma {:induction false} RunHistoryEntries(policy: Policy, capacity: nat, pages: seq<Page>, k: nat)
    requires 1 <= capacity && k <= |pages|
    ensures forall i :: 0 <= i < capacity ==> |RunHistory(policy, capacity, pages, k)[i]| == k
    ensures forall i, t :: 0 <= i < capacity && 0 <= t < k ==>
      RunHistory(policy, capacity, pages, k)[i][t] == RunSteps(policy, capacity, pages, t + 1).frames[i]
  {
    if k > 0 {
      RunHistoryEntries(policy, capacity, pages, k - 1);
      var h := RunHistory(policy, capacity, pages, k - 1);
      var last := RunSteps(policy, capacity, pages, k).frames;
      assert RunHistory(policy, capacity, pages, k) == RecordColumn(h, last);
      forall i | 0 <= i < capacity
        ensures |RecordColumn(h, last)[i]| == k
      {
        ColumnEntry(h, last, i, 0);
      }
      forall i, t | 0 <= i < capacity && 0 <= t < k
        ensures RecordColumn(h, last)[i][t] == RunSteps(policy, capacity, pages, t + 1).frames[i]
      {
        ColumnEntry(h, last, i, t);
      }
    }
  }

  /**
   * `frames`, `faults` and the per-frame histories `history` are those of
   * the first `k` accesses of a run of `policy` over `pages`.
   */
  ghost predicate Replayed(policy: Policy, pages: seq<Page>, k: nat,
                           frames: seq<Slot>, faults: nat, history: seq<seq<Slot>>)
  {
    1 <= |frames| && k <= |pages| &&
    RunSteps(policy, |frames|, pages, k) == RunState(frames, faults) &&
    history == RunHistory(policy, |frames|, pages, k)
  }

  /** One more access, recorded in every history, extends a replayed prefix by one step. */
  lemma ReplayedStep(policy: Policy, pages: seq<Page>, k: nat,
                     frames: seq<Slot>, faults: nat, history: seq<seq<Slot>>,
                     frames': seq<Slot>, faults': nat, history': seq<seq<Slot>>)
    requires Replayed(policy, pages, k, frames, faults, history) && k < |pages|
    requires var o := Access(policy, frames, pages[k], pages[k + 1..]);
      frames' == o.frames && faults' == faults + (if o.fault then 1 else 0)
    requires |history'| == |frames'|
    requires forall i :: 0 <= i < |frames'| ==> history'[i] == history[i] + [frames'[i]]
    ensures Replayed(policy, pages, k + 1, frames', faults', history')
  {
    AccessKeepsLength(policy, frames, pages[k], pages[k + 1..]);
    assert RunSteps(policy, |frames|, pages, k + 1) == RunState(frames', faults');
    assert history' == RecordColumn(history, frames');
  }

  /**
   * What the simulator's fields always satisfy: bounded input, distinct
   * resident pages, one history entry per frame and step (the last being the
   * current frame), a fault counter that counts the faulting steps, and,
   * while the reference string is the one the run was set up with, the
   * state of that many accesses of the whole run.
   */
  ghost predicate Consistent(pages: seq<Page>, index: nat, frames: seq<Slot>,
                             history: seq<seq<Slot>>, faults: nat, algorithm: Option<Policy>,
                             flags: seq<bool>, pristine: bool)
  {
    |pages| <= MaxPages &&
    (algorithm.Some? ==> 1 <= |frames| <= MaxFrames) &&
    DistinctPages(frames) &&
    |history| == |frames| &&
    (forall i :: 0 <= i < |frames| ==> |history[i]| == index) &&
    (index > 0 ==> forall i :: 0 <= i < |frames| ==> history[i][index - 1] == frames[i]) &&
    |flags| == index && faults == CountFaults(flags) &&
    (pristine ==> algorithm.Some? && Replayed(algorithm.value, pages, index, frames, faults, history))
  }

  /** One access by the chosen policy, recorded in the histories and the counter, keeps the state consistent. */
  lemma StepKeepsConsistent(pages: seq<Page>, k: nat, frames: seq<Slot>, history: seq<seq<Slot>>,
                            faults: nat, algorithm: Option<Policy>, flags: seq<bool>, pristine: bool,
                            k': nat, frames': seq<Slot>, history': seq<seq<Slot>>, faults': nat, flags': seq<bool>)
    requires Consistent(pages, k, frames, history, faults, algorithm, flags, pristine)
    requires algorithm.Some? && k < |pages| && k' == k + 1
    requires var o := Access(algorithm.value, frames, pages[k], pages[k + 1..]);
      frames' == o.frames && faults' == faults + (if o.fault then 1 else 0) && flags' == flags + [o.fault]
    requires |history'| == |frames'|
    requires forall i :: 0 <= i < |frames'| ==> history'[i] == history[i] + [frames'[i]]
    ensures Consistent(pages, k', frames', history', faults', algorithm, flags', pristine)
  {
    var o := Access(algorithm.value, frames, pages[k], pages[k + 1..]);
    AccessKeepsFrameInvariant(algorithm.value, frames, pages[k], pages[k + 1..]);
    CountFaultsAppend(flags, o.fault);
    if pristine {
      ReplayedStep(algorithm.value, pages, k, frames, faults, history, frames', faults', history');
    }
  }

  class PageReplacementSimulator {
    /** The reference string. */
    var generatedPages: seq<Page>
    /** Position of the next access in the reference string. */
    var currentIndex: nat
    /** The frames, `None` for an empty one. */
    var frames: seq<Slot>
    /** For each frame, its occupant after every step so far. */
    var frameHistory: seq<seq<Slot>>
    /** Number of page faults so far. */
    var pageFaults: nat
    /** The algorithm chosen by the last successful setup; `None` before the first. */
    var algorithm: Option<Policy>

    /** Whether each step since the last setup was a fault. */
    ghost var faultFlags: seq<bool>
    /** True while the reference string is the one the current run was set up with. */
    ghost var pristine: bool

    /** The class invariant, on the current field values. */
    ghost predicate Valid()
      reads this
    {
      Consistent(generatedPages, currentIndex, frames, frameHistory, pageFaults, algorithm,
                 faultFlags, pristine)
    }

    /** The state `__init__` sets up: no pages, no frames, no algorithm. */
    constructor ()
      ensures Valid()
      ensures generatedPages == [] && currentIndex == 0 && frames == [] &&
              frameHistory == [] && pageFaults == 0 && algorithm == None
    {
      generatedPages := [];
      currentIndex := 0;
      frames := [];
      frameHistory := [];
      pageFaults := 0;
      algorithm := None;
      faultFlags := [];
      pristine := false;
    }

    /**
     * `generate_pages`: accepts a page count of 1 to 50 and installs that many
     * pages; `draws` stands for the values `random.randint(0, 9)` returns.
     */
    method GeneratePages(numPages: int, draws: seq<Page>) returns (ok: bool)
      requires Valid()
      requires 1 <= numPages <= MaxPages ==> |draws| == numPages
      requires forall i :: 0 <= i < |draws| ==> 0 <= draws[i] <= MaxPageId
      modifies this`generatedPages, this`pristine
      ensures Valid()
      ensures ok <==> 1 <= numPages <= MaxPages
      ensures ok ==> generatedPages == draws && !pristine
      ensures !ok ==> generatedPages == old(generatedPages) && pristine == old(pristine)
    {
      if numPages <= 0 || numPages > MaxPages {
        return false;
      }
      generatedPages := draws;
      pristine := false;
      return true;
    }

    /**
     * `prepare_algorithm`: rejects a frame count outside 1..10 or an empty
     * reference string and then changes nothing; otherwise resets the run to
     * `frameSize` empty frames, empty histories and zero counters.
     */
    method PrepareAlgorithm(frameSize: int) returns (ok: bool)
      requires Valid()
      modifies this
      ensures Valid()
      ensures ok <==> 1 <= frameSize <= MaxFrames && |generatedPages| > 0
      ensures generatedPages == old(generatedPages) && algorithm == old(algorithm)
      ensures ok ==> frames == EmptyFrames(frameSize) && frameHistory == EmptyHistory(frameSize) &&
                     currentIndex == 0 && pageFaults == 0 && faultFlags == [] && !pristine
      ensures !ok ==> frames == old(frames) && frameHistory == old(frameHistory) &&
                      currentIndex == old(currentIndex) && pageFaults == old(pageFaults) &&
                      faultFlags == old(faultFlags) && pristine == old(pristine)
    {
      if frameSize <= 0 || frameSize > MaxFrames {
        return false;
      }
      if generatedPages == [] {
        return false;
      }
      currentIndex := 0;
      frames := EmptyFrames(frameSize);
      frameHistory := EmptyHistory(frameSize);
      pageFaults := 0;
      faultFlags := [];
      pristine := false;
      return true;
    }

    /** `run_fifo`, `run_lru` and `run_opt`: set up and, on success, select the algorithm. */
    method RunAlgorithm(policy: Policy, frameSize: int) returns (ok: bool)
      requires Valid()
      modifies this
      ensures Valid()
      ensures ok <==> 1 <= frameSize <= MaxFrames && |generatedPages| > 0
      ensures generatedPages == old(generatedPages)
      ensures ok ==> algorithm == Some(policy) && frames == EmptyFrames(frameSize) &&
                     frameHistory == EmptyHistory(frameSize) &&
                     currentIndex == 0 && pageFaults == 0 && pristine
      ensures !ok ==> algorithm == old(algorithm) && frames == old(frames) &&
                      frameHistory == old(frameHistory) && currentIndex == old(currentIndex) &&
                      pageFaults == old(pageFaults) && pristine == old(pristine)
    {
      ok := PrepareAlgorithm(frameSize);
      if !ok {
        return;
      }
      algorithm := Some(policy);
      pristine := true;
    }

    /** `get_frame_history`: the recorded occupants of one frame (Python indexing, so negatives count from the end). */
    function GetFrameHistory(frameNum: int): (h: seq<Slot>)
      reads this
      requires -|frameHistory| <= frameNum < |frameHistory|
      ensures Valid() ==> |h| == currentIndex
      ensures Valid() && currentIndex > 0 ==>
                h[currentIndex - 1] == frames[if frameNum >= 0 then frameNum else |frames| + frameNum]
    {
      if frameNum >= 0 then frameHistory[frameNum] else frameHistory[|frameHistory| + frameNum]
    }

    /** `update_frame_history`: append each frame's current occupant to its history. */
    method UpdateFrameHistory()
      requires |frameHistory| == |frames|
      modifies this`frameHistory
      ensures |frameHistory| == |frames|
      ensures forall i :: 0 <= i < |frames| ==> frameHistory[i] == old(frameHistory[i]) + [frames[i]]
    {
      for i := 0 to |frames|
        invariant |frameHistory| == |frames|
        invariant forall j :: 0 <= j < i ==> frameHistory[j] == old(frameHistory[j]) + [frames[j]]
        invariant forall j :: i <= j < |frames| ==> frameHistory[j] == old(frameHistory[j])
      {
        frameHistory := frameHistory[i := frameHistory[i] + [frames[i]]];
      }
    }

    /** `process_fifo_step`; returns `replaced_page`. */
    method ProcessFifoStep(currentPage: Page) returns (replacedPage: Option<Page>)
      requires |frames| > 0 && |frameHistory| == |frames|
      modifies this`frames, this`frameHistory, this`pageFaults, this`faultFlags
      ensures var o := Access(FIFO, old(frames), currentPage, old(Suffix(generatedPages, currentIndex + 1)));
        frames == o.frames && replacedPage == o.evicted &&
        pageFaults == old(pageFaults) + (if o.fault then 1 else 0) &&
        faultFlags == old(faultFlags) + [o.fault]
      ensures |frameHistory| == |frames|
      ensures forall i :: 0 <= i < |frames| ==> frameHistory[i] == old(frameHistory[i]) + [frames[i]]
    {
      var pageFault := false;
      replacedPage := None;
      if Some(currentPage) !in frames {
        pageFault := true;
        if None in frames {
          var replacedIndex := IndexOf(frames, None);
          frames := frames[replacedIndex := Some(currentPage)];
        } else {
          replacedPage := frames[0];
          frames := frames[1..] + [Some(currentPage)];
        }
        pageFaults := pageFaults + 1;
      }
      faultFlags := faultFlags + [pageFault];
      UpdateFrameHistory();
    }

    /** `process_lru_step`; returns `replaced_page`. */
    method ProcessLruStep(currentPage: Page) returns (replacedPage: Option<Page>)
      requires |frames| > 0 && |frameHistory| == |frames|
      modifies this`frames, this`frameHistory, this`pageFaults, this`faultFlags
      ensures var o := Access(LRU, old(frames), currentPage, old(Suffix(generatedPages, currentIndex + 1)));
        frames == o.frames && replacedPage == o.evicted &&
        pageFaults == old(pageFaults) + (if o.fault then 1 else 0) &&
        faultFlags == old(faultFlags) + [o.fault]
      ensures |frameHistory| == |frames|
      ensures forall i :: 0 <= i < |frames| ==> frameHistory[i] == old(frameHistory[i]) + [frames[i]]
    {
      var pageFault := false;
      replacedPage := None;
      if Some(currentPage) !in frames {
        pageFault := true;
        if None in frames {
          var replacedIndex := IndexOf(frames, None);
          frames := frames[replacedIndex := Some(currentPage)];
        } else {
          replacedPage := frames[0];
          frames := frames[1..] + [Some(currentPage)];
        }
        pageFaults := pageFaults + 1;
      } else {
        var k := IndexOf(frames, Some(currentPage));
        frames := frames[..k] + frames[k + 1..] + [Some(currentPage)];
      }
      faultFlags := faultFlags + [pageFault];
      UpdateFrameHistory();
    }

    /** `process_opt_step`; returns `replaced_page`. */
    method ProcessOptStep(currentPage: Page) returns (replacedPage: Option<Page>)
      requires |frames| > 0 && |frameHistory| == |frames|
      modifies this`frames, this`frameHistory, this`pageFaults, this`faultFlags
      ensures var o := Access(OPT, old(frames), currentPage, old(Suffix(generatedPages, currentIndex + 1)));
        frames == o.frames && replacedPage == o.evicted &&
        pageFaults == old(pageFaults) + (if o.fault then 1 else 0) &&
        faultFlags == old(faultFlags) + [o.fault]
      ensures |frameHistory| == |frames|
      ensures forall i :: 0 <= i < |frames| ==> frameHistory[i] == old(frameHistory[i]) + [frames[i]]
    {
      ghost var o := OptAccess(frames, currentPage, Suffix(generatedPages, currentIndex + 1));
      var pageFault := false;
      replacedPage := None;
      if Some(currentPage) !in frames {
        pageFault := true;
        if None in frames {
          var replacedIndex := IndexOf(frames, None);
          frames := frames[replacedIndex := Some(currentPage)];
        } else {
          var future := Suffix(generatedPages, currentIndex + 1);
          var replacedIndex := FindOptVictim(frames, future);
          replacedPage := frames[replacedIndex];
          frames := frames[replacedIndex := Some(currentPage)];
        }
        pageFaults := pageFaults + 1;
      }
      assert frames == o.frames && replacedPage == o.evicted && pageFault == o.fault;
      faultFlags := faultFlags + [pageFault];
      UpdateFrameHistory();
    }

    /** The dispatch of `animate_step`: the chosen algorithm's handler processes the current page. */
    method DispatchStep(policy: Policy, currentPage: Page) returns (replacedPage: Option<Page>)
      requires |frames| > 0 && |frameHistory| == |frames| && currentIndex < |generatedPages|
      modifies this`frames, this`frameHistory, this`pageFaults, this`faultFlags
      ensures var o := Access(policy, old(frames), currentPage, old(generatedPages[currentIndex + 1..]));
        frames == o.frames && replacedPage == o.evicted &&
        pageFaults == old(pageFaults) + (if o.fault then 1 else 0) &&
        faultFlags == old(faultFlags) + [o.fault]
      ensures |frameHistory| == |frames|
      ensures forall i :: 0 <= i < |frames| ==> frameHistory[i] == old(frameHistory[i]) + [frames[i]]
    {
      assert Suffix(generatedPages, currentIndex + 1) == generatedPages[currentIndex + 1..];
      match policy {
        case FIFO => replacedPage := ProcessFifoStep(currentPage);
        case LRU => replacedPage := ProcessLruStep(currentPage);
        case OPT => replacedPage := ProcessOptStep(currentPage);
      }
    }

    /**
     * `animate_step`: once the reference string is exhausted nothing changes;
     * otherwise the next page is processed by the chosen algorithm and the
     * cursor advances by one.
     */
    method AnimateStep()
      requires Valid()
      requires currentIndex < |generatedPages| ==> algorithm.Some?
      modifies this`frames, this`frameHistory, this`pageFaults, this`currentIndex, this`faultFlags
      ensures Valid()
      ensures old(currentIndex >= |generatedPages|) ==>
                frames == old(frames) && frameHistory == old(frameHistory) &&
                pageFaults == old(pageFaults) && currentIndex == old(currentIndex)
      ensures old(currentIndex < |generatedPages|) ==>
                var o := old(Access(algorithm.value, frames, generatedPages[currentIndex],
                                    generatedPages[currentIndex + 1..]));
                currentIndex == old(currentIndex) + 1 && frames == o.frames &&
                pageFaults == old(pageFaults) + (if o.fault then 1 else 0) &&
                (forall i :: 0 <= i < |frames| ==> frameHistory[i] == old(frameHistory[i]) + [frames[i]])
    {
      if currentIndex >= |generatedPages| {
        return;
      }
      ghost var k, before, faults, history, flags := currentIndex, frames, pageFaults, frameHistory, faultFlags;
      var currentPage := generatedPages[currentIndex];
      var policy := algorithm.value;
      var replacedPage := DispatchStep(policy, currentPage);
      currentIndex := currentIndex + 1;
      StepKeepsConsistent(generatedPages, k, before, history, faults, algorithm, flags, pristine,
                          currentIndex, frames, frameHistory, pageFaults, faultFlags);
    }
  }
}
