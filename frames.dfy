/** The optional value the simulator keeps in a frame slot: `None` is an empty frame. */
module Wrappers {
  datatype Option<+T> = None | Some(value: T)
}

/**
 * The frame list of the simulator and the list primitives the step handlers
 * use on it: membership (`in`), `list.index(x)`, slicing `s[k:]`, and the
 * facts the policies need about them.
 */
module Frames {
  import opened Wrappers

  /** A page identifier of the reference string. */
  type Page = int

  /** One frame: `None` when empty, `Some(p)` when it holds page `p`. */
  type Slot = Option<Page>

  /** Upper bound on the number of frames accepted by the setup. */
  const MaxFrames: int := 10

  /** Upper bound on the length of the reference string. */
  const MaxPages: int := 50

  /** Largest page identifier the generator draws (pages are drawn from 0..9). */
  const MaxPageId: int := 9

  /** `p in frames` on a list of pages and `None`s. */
  predicate Resident(frames: seq<Slot>, p: Page) {
    Some(p) in frames
  }

  /** No frame is empty (`None not in frames`). */
  predicate Full(frames: seq<Slot>) {
    None !in frames
  }

  /** The frames hold pairwise distinct pages (empty frames may repeat). */
  predicate DistinctPages(frames: seq<Slot>) {
    forall i, j :: 0 <= i < j < |frames| && frames[i].Some? ==> frames[i] != frames[j]
  }

  /** A list of `n` empty frames, `[None] * n`. */
  function EmptyFrames(n: nat): (r: seq<Slot>)
    ensures |r| == n
    ensures forall i :: 0 <= i < n ==> r[i] == None
  {
    if n == 0 then [] else [None] + EmptyFrames(n - 1)
  }

  /** Python's `s.index(x)`: a position holding `x`, the first one by `IndexOfFirst`. */
  function IndexOf<T(==)>(s: seq<T>, x: T): (i: nat)
    requires x in s
    ensures i < |s| && s[i] == x
  {
    if s[0] == x then 0
    else
      assert s == [s[0]] + s[1..];
      IndexOf(s[1..], x) + 1
  }

  /** No position before `IndexOf(s, x)` holds `x`. */
  lemma {:induction false} IndexOfFirst<T>(s: seq<T>, x: T)
    requires x in s
    ensures forall j :: 0 <= j < IndexOf(s, x) ==> s[j] != x
  {
    if s[0] != x {
      assert s == [s[0]] + s[1..];
      IndexOfFirst(s[1..], x);
      forall j | 0 <= j < IndexOf(s, x) ensures s[j] != x {
        if j > 0 {
          assert s[j] == s[1..][j - 1];
        }
      }
    }
  }

  /** Python's slice `s[k:]` for `k >= 0`: empty once `k` passes the end. */
  function Suffix<T>(s: seq<T>, k: nat): (r: seq<T>)
    ensures |r| == if k <= |s| then |s| - k else 0
    ensures forall i :: 0 <= i < |r| ==> r[i] == s[k + i]
  {
    if k <= |s| then s[k..] else []
  }

  /** `s` with every occurrence of `x` removed, keeping the order of the rest. */
  function Without<T(==)>(s: seq<T>, x: T): (r: seq<T>)
    ensures x !in r
    ensures |r| <= |s|
  {
    if s == [] then [] else (if s[0] == x then [] else [s[0]]) + Without(s[1..], x)
  }

  lemma {:induction false} WithoutConcat<T>(a: seq<T>, b: seq<T>, x: T)
    ensures Without(a + b, x) == Without(a, x) + Without(b, x)
  {
    if a == [] {
      assert a + b == b;
    } else {
      assert (a + b)[1..] == a[1..] + b;
      WithoutConcat(a[1..], b, x);
    }
  }

  /** Every slot of a full list holds a page. */
  lemma FullOccupied(frames: seq<Slot>)
    requires Full(frames)
    ensures forall i :: 0 <= i < |frames| ==> frames[i].Some?
  {
    forall i | 0 <= i < |frames| ensures frames[i].Some? {
      assert frames[i] in frames;
    }
  }

  /** Writing an absent page into one slot keeps the pages distinct. */
  lemma DistinctAfterWrite(frames: seq<Slot>, k: nat, p: Page)
    requires k < |frames| && DistinctPages(frames) && !Resident(frames, p)
    ensures DistinctPages(frames[k := Some(p)])
  {
    var r := frames[k := Some(p)];
    forall i, j | 0 <= i < j < |r| && r[i].Some? ensures r[i] != r[j] {
      if i == k {
        assert r[j] == frames[j] && frames[j] in frames;
      } else if j == k {
        assert r[i] == frames[i] && frames[i] in frames;
      }
    }
  }

  /** Dropping the first slot and appending an absent page keeps the pages distinct. */
  lemma DistinctAfterShift(frames: seq<Slot>, p: Page)
    requires |frames| > 0 && DistinctPages(frames) && !Resident(frames, p)
    ensures DistinctPages(frames[1..] + [Some(p)])
  {
    var r := frames[1..] + [Some(p)];
    forall i, j | 0 <= i < j < |r| && r[i].Some? ensures r[i] != r[j] {
      assert r[i] == frames[i + 1];
      if j < |r| - 1 {
        assert r[j] == frames[j + 1];
      } else {
        assert frames[i + 1] in frames;
      }
    }
  }

  /** Where each slot of `frames[..k] + frames[k+1..] + [x]` comes from. */
  lemma MoveToEndAt<T>(frames: seq<T>, k: nat, x: T, i: nat)
    requires k < |frames| && i < |frames|
    ensures |frames[..k] + frames[k + 1..] + [x]| == |frames|
    ensures (frames[..k] + frames[k + 1..] + [x])[i] ==
            if i == |frames| - 1 then x else if i < k then frames[i] else frames[i + 1]
  {
  }

  /** Moving page `frames[k]` to the end keeps the pages distinct. */
  lemma DistinctAfterMoveToEnd(frames: seq<Slot>, k: nat)
    requires k < |frames| && frames[k].Some? && DistinctPages(frames)
    ensures DistinctPages(frames[..k] + frames[k + 1..] + [frames[k]])
  {
    var r := frames[..k] + frames[k + 1..] + [frames[k]];
    var n := |frames|;
    forall i, j | 0 <= i < j < |r| && r[i].Some? ensures r[i] != r[j] {
      MoveToEndAt(frames, k, frames[k], i);
      MoveToEndAt(frames, k, frames[k], j);
      var i' := if i < k then i else i + 1;
      if j == n - 1 {
        assert r[i] == frames[i'] && i' != k;
      } else {
        var j' := if j < k then j else j + 1;
        assert r[i] == frames[i'] && r[j] == frames[j'] && i' < j';
      }
    }
  }
}
