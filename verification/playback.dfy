/** The playback controls of the visualizer pages. Every page precomputes its
    snapshots and then walks a cursor over them; the React state updates and
    the `setTimeout` timers become pure transitions, and one firing of the
    autoplay effect is one `Tick`.

    The two minimum-spanning-tree pages keep the cursor on a snapshot and
    move both ways; the two sorting pages only move forward and leave the
    cursor one past the snapshot on display. */
module Playback {
  import opened Common
  import InsertionSort
  import MergeSort

  function Min(a: int, b: int): int
  {
    if a <= b then a else b
  }

  // ---------------------------------------------------------------------
  // Prim and Kruskal pages

  /** `steps`, `currentStep`, `playing`, and the snapshot whose fields the page
      shows (`None` while it still shows the blank state `reset` leaves). */
  datatype MstPlayer<S> = MstPlayer(steps: seq<S>, cursor: nat, playing: bool, shown: Option<S>)

  /** The cursor is on a snapshot (or at 0 when there is none), and what is
      shown is the snapshot under the cursor. */
  predicate MstOk<S(==)>(p: MstPlayer<S>)
  {
    && (p.cursor == 0 || p.cursor < |p.steps|)
    && (p.shown.Some? ==> p.cursor < |p.steps| && p.shown.value == p.steps[p.cursor])
  }

  /** `reset`: fresh snapshots, cursor 0, paused; the MST, the candidate and
      rejected lists and the cost are cleared rather than loaded from the
      first snapshot. */
  function MstReset<S(==)>(steps: seq<S>): (p: MstPlayer<S>)
    ensures MstOk(p) && p.steps == steps && p.cursor == 0 && !p.playing && p.shown.None?
  {
    MstPlayer(steps, 0, false, None)
  }

  /** `executeStep(i)`: show snapshot `i`; an index past the end only stops
      the playback. */
  function Execute<S(==)>(p: MstPlayer<S>, i: nat): (p': MstPlayer<S>)
    ensures i < |p.steps| ==> p' == p.(shown := Some(p.steps[i]))
    ensures i >= |p.steps| ==> p' == p.(playing := false)
  {
    if i >= |p.steps| then p.(playing := false) else p.(shown := Some(p.steps[i]))
  }

  /** `stepForward`: move to the next snapshot and show it, or stop playing
      when the cursor is already on the last one. */
  function MstForward<S(==)>(p: MstPlayer<S>): (p': MstPlayer<S>)
    ensures p'.steps == p.steps
    ensures p.cursor + 1 < |p.steps| ==>
      p'.cursor == p.cursor + 1 && p'.shown == Some(p.steps[p.cursor + 1]) && p'.playing == p.playing
    ensures p.cursor + 1 >= |p.steps| ==> p' == p.(playing := false)
  {
    if p.cursor < |p.steps| - 1 then Execute(p.(cursor := p.cursor + 1), p.cursor + 1)
    else p.(playing := false)
  }

  /** `stepBackward`: move to the previous snapshot and show it; nothing at 0. */
  function MstBackward<S(==)>(p: MstPlayer<S>): (p': MstPlayer<S>)
    ensures p'.steps == p.steps
    ensures p.cursor > 0 && p.cursor <= |p.steps| ==>
      p'.cursor == p.cursor - 1 && p'.shown == Some(p.steps[p.cursor - 1]) && p'.playing == p.playing
    ensures p.cursor == 0 ==> p' == p
  {
    if p.cursor > 0 then Execute(p.(cursor := p.cursor - 1), p.cursor - 1) else p
  }

  /** The play/pause button, which is disabled on the last snapshot. */
  function MstToggle<S(==)>(p: MstPlayer<S>): (p': MstPlayer<S>)
    ensures p.cursor + 1 < |p.steps| ==> p' == p.(playing := !p.playing)
    ensures p.cursor + 1 >= |p.steps| ==> p' == p
  {
    if p.cursor >= |p.steps| - 1 then p else p.(playing := !p.playing)
  }

  /** One run of the autoplay effect: stop when paused or on the last
      snapshot, otherwise (once the timer fires) step forward. */
  function MstTick<S(==)>(p: MstPlayer<S>): MstPlayer<S>
  {
    if !p.playing || p.cursor >= |p.steps| - 1 then p.(playing := false) else MstForward(p)
  }

  function MstTicks<S(==)>(p: MstPlayer<S>, k: nat): MstPlayer<S>
    decreases k
  {
    if k == 0 then p else MstTicks(MstTick(p), k - 1)
  }

  /** Every control keeps the cursor on a snapshot and the display in step
      with it. */
  lemma MstStaysOk<S>(p: MstPlayer<S>)
    requires MstOk(p)
    ensures MstOk(MstForward(p)) && MstOk(MstBackward(p))
    ensures MstOk(MstToggle(p)) && MstOk(MstTick(p))
    ensures forall steps: seq<S> :: MstOk(MstReset(steps))
  {
  }

  /** A step back undoes a step forward, and a step forward undoes a step
      back, as far as the cursor and the display go. */
  lemma MstBackAndForth<S>(p: MstPlayer<S>)
    requires MstOk(p)
    ensures p.cursor + 1 < |p.steps| ==>
      MstBackward(MstForward(p)).cursor == p.cursor &&
      MstBackward(MstForward(p)).shown == Some(p.steps[p.cursor])
    ensures p.cursor > 0 ==>
      MstForward(MstBackward(p)).cursor == p.cursor &&
      MstForward(MstBackward(p)).shown == Some(p.steps[p.cursor])
  {
  }

  /** A paused page stays as it is. */
  lemma {:induction false} MstIdle<S>(p: MstPlayer<S>, k: nat)
    requires !p.playing
    ensures MstTicks(p, k) == p
    decreases k
  {
    if k > 0 {
      MstIdle(MstTick(p), k - 1);
    }
  }

  /** Autoplay from a snapshot before the last: after `k` ticks the cursor has
      moved `k` snapshots, or stopped on the last one, and the page keeps
      playing exactly until a tick finds it there. */
  lemma {:induction false} MstPlays<S>(p: MstPlayer<S>, k: nat)
    requires p.playing && p.cursor < |p.steps|
    decreases k
    ensures MstTicks(p, k).steps == p.steps
    ensures MstTicks(p, k).cursor == Min(p.cursor + k, |p.steps| - 1)
    ensures MstTicks(p, k).playing <==> p.cursor + k < |p.steps|
    ensures MstTicks(p, k).shown ==
      if k == 0 || p.cursor == |p.steps| - 1 then p.shown else Some(p.steps[Min(p.cursor + k, |p.steps| - 1)])
  {
    if k > 0 {
      var q := MstTick(p);
      if p.cursor < |p.steps| - 1 {
        MstPlays(q, k - 1);
      } else {
        MstIdle(q, k - 1);
      }
    }
  }

  /** Pressing play and leaving the page alone shows the last snapshot and
      then stops. */
  lemma MstPlaysToEnd<S>(p: MstPlayer<S>)
    requires MstOk(p) && !p.playing && p.cursor + 1 < |p.steps|
    ensures var n := |p.steps| - p.cursor;
      && MstTicks(MstToggle(p), n).cursor == |p.steps| - 1
      && !MstTicks(MstToggle(p), n).playing
      && MstTicks(MstToggle(p), n).shown == Some(p.steps[|p.steps| - 1])
  {
    MstPlays(MstToggle(p), |p.steps| - p.cursor);
  }

  // ---------------------------------------------------------------------
  // Insertion sort and merge sort pages

  /** `steps`, `currentStep`, `playing`, and the displayed `arr` and
      `highlight`. */
  datatype SortPlayer<T> = SortPlayer(steps: seq<SortStep<T>>, cursor: nat, playing: bool,
                                      arr: seq<T>, highlight: seq<nat>)

  /** The cursor is at most one past the last snapshot, and the page shows the
      snapshot just behind the cursor (nothing highlighted before the first). */
  predicate SortOk<T(==)>(p: SortPlayer<T>)
  {
    && p.cursor <= |p.steps|
    && (p.cursor == 0 ==> p.highlight == [])
    && (p.cursor > 0 ==> p.arr == p.steps[p.cursor - 1].arr && p.highlight == p.steps[p.cursor - 1].highlight)
  }

  /** `reset`: show the unsorted input, cursor 0, paused. */
  function SortReset<T(==)>(input: seq<T>, steps: seq<SortStep<T>>): (p: SortPlayer<T>)
    ensures SortOk(p) && p.steps == steps && p.cursor == 0 && !p.playing && p.arr == input
  {
    SortPlayer(steps, 0, false, input, [])
  }

  /** `stepForward`: show the snapshot under the cursor, then advance. The
      page never calls it past the last snapshot; there it would read a
      missing array element. */
  function SortForward<T(==)>(p: SortPlayer<T>): (p': SortPlayer<T>)
    requires p.cursor < |p.steps|
    ensures p'.cursor == p.cursor + 1 && p'.steps == p.steps && p'.playing == p.playing
    ensures p'.arr == p.steps[p.cursor].arr && p'.highlight == p.steps[p.cursor].highlight
  {
    var step := p.steps[p.cursor];
    p.(arr := step.arr, highlight := step.highlight, cursor := p.cursor + 1)
  }

  /** The play/pause button, always enabled on these pages. */
  function SortToggle<T(==)>(p: SortPlayer<T>): (p': SortPlayer<T>)
    ensures p' == p.(playing := !p.playing)
  {
    p.(playing := !p.playing)
  }

  /** One run of the autoplay effect: nothing while paused or once every
      snapshot has been shown (`playing` stays set), otherwise step forward. */
  function SortTick<T(==)>(p: SortPlayer<T>): SortPlayer<T>
  {
    if !p.playing || p.cursor >= |p.steps| then p else SortForward(p)
  }

  function SortTicks<T(==)>(p: SortPlayer<T>, k: nat): SortPlayer<T>
    decreases k
  {
    if k == 0 then p else SortTicks(SortTick(p), k - 1)
  }

  lemma SortStaysOk<T>(p: SortPlayer<T>)
    requires SortOk(p)
    ensures SortOk(SortToggle(p)) && SortOk(SortTick(p))
    ensures p.cursor < |p.steps| ==> SortOk(SortForward(p))
  {
  }

  /** Autoplay on a sorting page: after `k` ticks the cursor has moved `k`
      snapshots or reached the end, where it stays, still "playing". */
  lemma {:induction false} SortPlays<T>(p: SortPlayer<T>, k: nat)
    requires SortOk(p) && p.playing
    decreases k
    ensures SortOk(SortTicks(p, k)) && SortTicks(p, k).playing
    ensures SortTicks(p, k).steps == p.steps
    ensures SortTicks(p, k).cursor == Min(p.cursor + k, |p.steps|)
  {
    if k > 0 {
      SortPlays(SortTick(p), k - 1);
    }
  }

  /** Playing the insertion-sort page from a reset to the end leaves the input
      sorted on screen, as a permutation of it, with nothing highlighted. */
  lemma InsertionSortPageEnds(a: seq<int>)
    ensures var steps := InsertionSort.InsertionSortSteps(a);
      var p := SortTicks(SortToggle(SortReset(a, steps)), |steps|);
      && p.cursor == |steps|
      && InsertionSort.Sorted(p.arr) && multiset(p.arr) == multiset(a) && p.highlight == []
  {
    var steps := InsertionSort.InsertionSortSteps(a);
    InsertionSort.InsertionSortTrace(a);
    SortPlays(SortToggle(SortReset(a, steps)), |steps|);
  }

  /** The same for the merge-sort page: an input of two or more elements ends
      sorted (stably) on screen; a shorter one yields no snapshots and stays
      as it was. */
  lemma MergeSortPageEnds<T>(a: seq<T>, key: T -> int)
    ensures var steps := MergeSort.MergeSortSteps(a, key);
      var p := SortTicks(SortToggle(SortReset(a, steps)), |steps|);
      && p.cursor == |steps|
      && (|a| <= 1 ==> p.arr == a)
      && (|a| > 1 ==> MergeSort.SortedBy(p.arr, key) && multiset(p.arr) == multiset(a)
                      && MergeSort.SameKeyOrder(p.arr, a, key))
  {
    var steps := MergeSort.MergeSortSteps(a, key);
    MergeSort.MergeSortResult(a, key);
    SortPlays(SortToggle(SortReset(a, steps)), |steps|);
  }
}
