/**
 * The three step handlers of the simulator (`process_fifo_step`,
 * `process_lru_step`, `process_opt_step`) as functions on the frame list,
 * the OPT victim scan, and the properties every access has.
 */
module Policies {
  import opened Wrappers
  import opened Frames

  /** The algorithm the user picked. */
  datatype Policy = FIFO | LRU | OPT

  /**
   * What one access did: the frame list afterwards, whether it was a page
   * fault, and the page it replaced (`replaced_page`; `None` on a hit or when
   * an empty frame was filled).
   */
  datatype Outcome = Outcome(frames: seq<Slot>, fault: bool, evicted: Option<Page>)

  /** The frame list after `frames[frames.index(None)] = p`. */
  function FillFirstEmpty(frames: seq<Slot>, p: Page): seq<Slot>
    requires None in frames
  {
    frames[IndexOf(frames, None) := Some(p)]
  }

  /** The frame list after `frames = frames[1:] + [p]`. */
  function ShiftIn(frames: seq<Slot>, p: Page): seq<Slot>
    requires |frames| > 0
  {
    frames[1..] + [Some(p)]
  }

  /** One FIFO access: hits change nothing; a full fault drops `frames[0]` and appends. */
  function FifoAccess(frames: seq<Slot>, p: Page): Outcome
    requires |frames| > 0
  {
    if Resident(frames, p) then Outcome(frames, false, None)
    else if None in frames then Outcome(FillFirstEmpty(frames, p), true, None)
    else Outcome(ShiftIn(frames, p), true, frames[0])
  }

  /** The frame list after an LRU hit: `frames[:k] + frames[k+1:] + [p]` with `k = frames.index(p)`. */
  function MoveToEnd(frames: seq<Slot>, p: Page): seq<Slot>
    requires Resident(frames, p)
  {
    var k := IndexOf(frames, Some(p));
    frames[..k] + frames[k + 1..] + [Some(p)]
  }

  /** One LRU access: faults as FIFO; a hit moves the page to the end of the list. */
  function LruAccess(frames: seq<Slot>, p: Page): Outcome
    requires |frames| > 0
  {
    if Resident(frames, p) then Outcome(MoveToEnd(frames, p), false, None)
    else if None in frames then Outcome(FillFirstEmpty(frames, p), true, None)
    else Outcome(ShiftIn(frames, p), true, frames[0])
  }

  /**
   * `next_use` at src/main.py:580: the offset of the next use of `p` in the
   * remaining references, `future.index(p)`. It is `IndexOf`, so it inherits
   * that contract.
   */
  function NextUse(future: seq<Page>, p: Page): nat
    requires p in future
  {
    IndexOf(future, p)
  }

  /**
   * The frame the OPT scan picks on a full fault, stated outright: every
   * earlier frame holds a page that is used again, and either the victim's
   * page is never used again, or every page is used again and the victim is
   * the first frame whose next use is strictly the farthest.
   */
  ghost predicate IsOptVictim(frames: seq<Slot>, future: seq<Page>, v: int)
    requires Full(frames)
  {
    FullOccupied(frames);
    0 <= v < |frames| &&
    (forall j :: 0 <= j < v ==> frames[j].value in future) &&
    (frames[v].value !in future ||
     ((forall j :: v < j < |frames| ==> frames[j].value in future) &&
      (forall j :: 0 <= j < v ==> NextUse(future, frames[j].value) < NextUse(future, frames[v].value)) &&
      (forall j :: v < j < |frames| ==> NextUse(future, frames[j].value) <= NextUse(future, frames[v].value))))
  }

  /** At most one frame satisfies `IsOptVictim`. */
  lemma OptVictimUnique(frames: seq<Slot>, future: seq<Page>, v: int, w: int)
    requires Full(frames) && IsOptVictim(frames, future, v) && IsOptVictim(frames, future, w)
    ensures v == w
  {
    FullOccupied(frames);
  }

  /** The first frame from `i` on whose page is not used again, if any. */
  function FirstUnused(frames: seq<Slot>, future: seq<Page>, i: nat): (r: Option<nat>)
    requires Full(frames) && i <= |frames|
    decreases |frames| - i
    ensures r.Some? ==> i <= r.value < |frames| && frames[r.value].Some? &&
                        frames[r.value].value !in future
    ensures forall j :: i <= j < (if r.Some? then r.value else |frames|) ==>
                        frames[j].Some? && frames[j].value in future
  {
    FullOccupied(frames);
    if i == |frames| then None
    else if frames[i].value !in future then Some(i)
    else FirstUnused(frames, future, i + 1)
  }

  /** Among the first `n` frames, all of whose pages are used again, the first one used farthest ahead. */
  function Farthest(frames: seq<Slot>, future: seq<Page>, n: nat): (v: nat)
    requires Full(frames) && 1 <= n <= |frames|
    requires forall j :: 0 <= j < |frames| ==> frames[j].Some? && frames[j].value in future
    ensures v < n
    ensures forall j :: 0 <= j < v ==> NextUse(future, frames[j].value) < NextUse(future, frames[v].value)
    ensures forall j :: v < j < n ==> NextUse(future, frames[j].value) <= NextUse(future, frames[v].value)
  {
    if n == 1 then 0
    else
      var w := Farthest(frames, future, n - 1);
      if NextUse(future, frames[n - 1].value) > NextUse(future, frames[w].value) then n - 1 else w
  }

  /** The OPT victim: the first never-reused frame, else the first farthest-reused one. */
  function OptVictim(frames: seq<Slot>, future: seq<Page>): (v: nat)
    requires |frames| > 0 && Full(frames)
    ensures IsOptVictim(frames, future, v)
  {
    match FirstUnused(frames, future, 0)
    case Some(i) => i
    case None => Farthest(frames, future, |frames|)
  }

  /**
   * The victim search loop of `process_opt_step`: scan the frames in order,
   * stop at the first page not used again, otherwise keep the first frame
   * whose next use is strictly farther than any seen so far.
   */
  method FindOptVictim(frames: seq<Slot>, future: seq<Page>) returns (replacedIndex: nat)
    requires |frames| > 0 && Full(frames)
    ensures IsOptVictim(frames, future, replacedIndex)
    ensures replacedIndex == OptVictim(frames, future)
  {
    FullOccupied(frames);
    var farthestUse: int := -1;
    var found := -1;
    var i := 0;
    while i < |frames|
      invariant 0 <= i <= |frames|
      invariant forall j :: 0 <= j < i ==> frames[j].value in future
      invariant i == 0 ==> found == -1 && farthestUse == -1
      invariant i > 0 ==> 0 <= found < i && farthestUse == NextUse(future, frames[found].value)
      invariant i > 0 ==> forall j :: 0 <= j < found ==> NextUse(future, frames[j].value) < farthestUse
      invariant i > 0 ==> forall j :: found < j < i ==> NextUse(future, frames[j].value) <= farthestUse
    {
      var frame := frames[i].value;
      if frame in future {
        var nextUse := NextUse(future, frame);
        if nextUse > farthestUse {
          farthestUse := nextUse;
          found := i;
        }
      } else {
        found := i;
        assert IsOptVictim(frames, future, found);
        break;
      }
      i := i + 1;
    }
    assert IsOptVictim(frames, future, found);
    replacedIndex := found;
    OptVictimUnique(frames, future, replacedIndex, OptVictim(frames, future));
  }

  /** One OPT access: hits change nothing; a full fault overwrites the OPT victim in place. */
  function OptAccess(frames: seq<Slot>, p: Page, future: seq<Page>): Outcome
    requires |frames| > 0
  {
    if Resident(frames, p) then Outcome(frames, false, None)
    else if None in frames then Outcome(FillFirstEmpty(frames, p), true, None)
    else
      var v := OptVictim(frames, future);
      Outcome(frames[v := Some(p)], true, frames[v])
  }

  /** One access under `policy`; `future` is the rest of the reference string. */
  function Access(policy: Policy, frames: seq<Slot>, p: Page, future: seq<Page>): Outcome
    requires |frames| > 0
  {
    match policy
    case FIFO => FifoAccess(frames, p)
    case LRU => LruAccess(frames, p)
    case OPT => OptAccess(frames, p, future)
  }

  // ---------------------------------------------------------------------------
  // Properties of one access, for every policy

  /** The access is a fault exactly when the page is not resident, and only a fault evicts. */
  lemma FaultIffAbsent(policy: Policy, frames: seq<Slot>, p: Page, future: seq<Page>)
    requires |frames| > 0
    ensures Access(policy, frames, p, future).fault <==> !Resident(frames, p)
    ensures Access(policy, frames, p, future).evicted.Some? ==> Access(policy, frames, p, future).fault
  {
  }

  /** FIFO and OPT hits leave the frame list untouched. */
  lemma HitKeepsFrames(policy: Policy, frames: seq<Slot>, p: Page, future: seq<Page>)
    requires |frames| > 0 && policy != LRU && Resident(frames, p)
    ensures Access(policy, frames, p, future) == Outcome(frames, false, None)
  {
  }

  /**
   * An LRU hit moves the page to the last slot: the length and the
   * multiset of slots are unchanged, and with that page taken out the list
   * reads exactly as before.
   */
  lemma LruHitMovesToEnd(frames: seq<Slot>, p: Page)
    requires |frames| > 0 && Resident(frames, p)
    ensures var r := LruAccess(frames, p).frames;
      |r| == |frames| && r[|r| - 1] == Some(p) &&
      multiset(r) == multiset(frames) &&
      Without(r, Some(p)) == Without(frames, Some(p))
  {
    var k := IndexOf(frames, Some(p));
    var a, b, x := frames[..k], frames[k + 1..], Some(p);
    var r := MoveToEnd(frames, p);
    assert r == a + b + [x];
    assert frames == a + [x] + b;
    assert multiset(r) == multiset(frames);
    WithoutPair(a, b, x);
  }

  /** Taking `x` out of `a + b + [x]` and of `a + [x] + b` gives the same list. */
  lemma WithoutPair<T>(a: seq<T>, b: seq<T>, x: T)
    ensures Without(a + b + [x], x) == Without(a + [x] + b, x)
  {
    assert Without([x], x) == [] by {
      assert [x][1..] == [];
    }
    calc {
      Without(a + b + [x], x);
    == { WithoutConcat(a + b, [x], x); }
      Without(a + b, x) + [];
    == { WithoutConcat(a, b, x); }
      Without(a, x) + Without(b, x);
    == { WithoutConcat(a, [x], x); }
      Without(a + [x], x) + Without(b, x);
    == { WithoutConcat(a + [x], b, x); }
      Without(a + [x] + b, x);
    }
  }

  /** A fault with an empty frame puts the page into the lowest-index empty frame and touches nothing else. */
  lemma FaultFillsFirstEmpty(policy: Policy, frames: seq<Slot>, p: Page, future: seq<Page>)
    requires |frames| > 0 && !Resident(frames, p) && None in frames
    ensures var o := Access(policy, frames, p, future);
      var i := IndexOf(frames, None);
      o.fault && o.evicted == None && |o.frames| == |frames| &&
      frames[i] == None && (forall j :: 0 <= j < i ==> frames[j].Some?) &&
      o.frames[i] == Some(p) &&
      (forall j :: 0 <= j < |frames| && j != i ==> o.frames[j] == frames[j])
  {
    IndexOfFirst(frames, None);
  }

  /**
   * A FIFO or LRU fault on a full list evicts the page in slot 0 and every
   * other page moves one slot to the left, the new page taking the last slot.
   */
  lemma QueueFaultShiftsLeft(policy: Policy, frames: seq<Slot>, p: Page, future: seq<Page>)
    requires |frames| > 0 && policy != OPT && !Resident(frames, p) && Full(frames)
    ensures var o := Access(policy, frames, p, future);
      o.fault && o.evicted == frames[0] && o.evicted.Some? &&
      |o.frames| == |frames| && o.frames[|frames| - 1] == Some(p) &&
      (forall j :: 0 <= j < |frames| - 1 ==> o.frames[j] == frames[j + 1])
  {
    FullOccupied(frames);
  }

  /** An OPT fault on a full list overwrites exactly the OPT victim's slot. */
  lemma OptFaultReplacesVictim(frames: seq<Slot>, p: Page, future: seq<Page>)
    requires |frames| > 0 && !Resident(frames, p) && Full(frames)
    ensures var o := OptAccess(frames, p, future);
      exists v :: IsOptVictim(frames, future, v) &&
        o.fault && o.evicted == frames[v] && o.evicted.Some? &&
        |o.frames| == |frames| && o.frames[v] == Some(p) &&
        (forall j :: 0 <= j < |frames| && j != v ==> o.frames[j] == frames[j])
  {
    FullOccupied(frames);
    var v := OptVictim(frames, future);
    assert IsOptVictim(frames, future, v);
  }

  /** Every access keeps the number of frames. */
  lemma AccessKeepsLength(policy: Policy, frames: seq<Slot>, p: Page, future: seq<Page>)
    requires |frames| > 0
    ensures |Access(policy, frames, p, future).frames| == |frames|
  {
  }

  /** Every access keeps the length and distinct pages, and leaves the accessed page resident. */
  lemma AccessKeepsFrameInvariant(policy: Policy, frames: seq<Slot>, p: Page, future: seq<Page>)
    requires |frames| > 0 && DistinctPages(frames)
    ensures var o := Access(policy, frames, p, future);
      |o.frames| == |frames| && DistinctPages(o.frames) && Resident(o.frames, p)
  {
    var o := Access(policy, frames, p, future);
    if Resident(frames, p) {
      if policy == LRU {
        var k := IndexOf(frames, Some(p));
        DistinctAfterMoveToEnd(frames, k);
        assert o.frames[|frames| - 1] == Some(p);
      }
    } else if None in frames {
      var i := IndexOf(frames, None);
      DistinctAfterWrite(frames, i, p);
      assert o.frames[i] == Some(p);
    } else if policy == OPT {
      var v := OptVictim(frames, future);
      DistinctAfterWrite(frames, v, p);
      assert o.frames[v] == Some(p);
    } else {
      DistinctAfterShift(frames, p);
      assert o.frames[|frames| - 1] == Some(p);
    }
  }

  /**
   * After an access the resident pages are exactly the accessed page plus the
   * previously resident pages other than the evicted one, and the evicted page
   * was resident.
   */
  lemma AccessResidency(policy: Policy, frames: seq<Slot>, p: Page, future: seq<Page>, q: Page)
    requires |frames| > 0 && DistinctPages(frames)
    ensures var o := Access(policy, frames, p, future);
      (Resident(o.frames, q) <==> q == p || (Resident(frames, q) && o.evicted != Some(q))) &&
      (o.evicted.Some? ==> Resident(frames, o.evicted.value))
  {
    var o := Access(policy, frames, p, future);
    if Resident(frames, p) {
      if policy == LRU {
        LruHitMovesToEnd(frames, p);
        assert Some(q) in o.frames <==> Some(q) in multiset(o.frames);
      }
    } else if None in frames {
      var i := IndexOf(frames, None);
      SlotWriteResidency(frames, i, p, q);
    } else if policy == OPT {
      FullOccupied(frames);
      var v := OptVictim(frames, future);
      SlotWriteResidency(frames, v, p, q);
      assert frames[v] in frames;
    } else {
      FullOccupied(frames);
      SlotWriteResidency(frames, 0, p, q);
      ShiftResidency(frames, p, q);
      assert frames[0] in frames;
    }
  }

  /** Residency after overwriting slot `k` of a list with distinct pages. */
  lemma SlotWriteResidency(frames: seq<Slot>, k: nat, p: Page, q: Page)
    requires k < |frames| && DistinctPages(frames)
    ensures Resident(frames[k := Some(p)], q) <==> q == p || (Resident(frames, q) && frames[k] != Some(q))
  {
    var r := frames[k := Some(p)];
    if Resident(frames, q) && frames[k] != Some(q) {
      var j := IndexOf(frames, Some(q));
      assert r[j] == Some(q);
    }
    if Resident(r, q) && q != p {
      var j := IndexOf(r, Some(q));
      assert j != k && frames[j] == Some(q);
    }
    assert r[k] == Some(p);
  }

  /** Residency after dropping slot 0 and appending `p`. */
  lemma ShiftResidency(frames: seq<Slot>, p: Page, q: Page)
    requires |frames| > 0 && DistinctPages(frames)
    ensures Resident(ShiftIn(frames, p), q) <==> q == p || (Resident(frames, q) && frames[0] != Some(q))
  {
    var r := ShiftIn(frames, p);
    if Resident(frames, q) && frames[0] != Some(q) {
      var j := IndexOf(frames, Some(q));
      assert j > 0 && r[j - 1] == Some(q);
    }
    if Resident(r, q) && q != p {
      var j := IndexOf(r, Some(q));
      assert j < |r| - 1 && frames[j + 1] == Some(q);
    }
    assert r[|r| - 1] == Some(p);
  }

  /** The number of empty frames never grows, and a fault on frames with an empty slot lowers it by exactly one. */
  lemma EmptyFramesNeverGrow(policy: Policy, frames: seq<Slot>, p: Page, future: seq<Page>)
    requires |frames| > 0
    ensures var o := Access(policy, frames, p, future);
      multiset(o.frames)[None] <= multiset(frames)[None] &&
      (o.fault && None in frames ==> multiset(o.frames)[None] == multiset(frames)[None] - 1)
  {
    var o := Access(policy, frames, p, future);
    if Resident(frames, p) {
      if policy == LRU {
        LruHitMovesToEnd(frames, p);
      }
    } else if None in frames {
      var i := IndexOf(frames, None);
      assert o.frames == frames[i := Some(p)];
    } else if policy == OPT {
      var v := OptVictim(frames, future);
      FullOccupied(frames);
      assert o.frames == frames[v := Some(p)];
      assert None !in o.frames;
    } else {
      assert o.frames == frames[1..] + [Some(p)];
      assert frames == [frames[0]] + frames[1..];
      assert None !in frames[1..];
    }
  }
}
