/** Block locators: how a node tells a peer which chain it is on in at most 64 hashes.

    The tip and the nine blocks below it are listed one by one; from there the gaps double. The
    peer answers from the first listed hash that is on its own active chain. `MatchIsClose`
    bounds how far below the true fork that hash can be. */
module Locator {
  import opened Types

  const MAX_LISTED := 63

  function StepBack(index: nat, step: nat): nat {
    if index > step then index - step else 0
  }

  function NextStep(count: nat, step: nat): nat {
    if count + 1 >= 10 then 2 * step else step
  }

  /** The heights listed from `index` down, when `count` hashes are listed already; genesis ends
      every locator. */
  function Heights(index: nat, count: nat, step: nat): (heights: seq<nat>)
    requires step >= 1
    ensures |heights| >= 1
    decreases index
  {
    if index == 0 || count >= MAX_LISTED then [0]
    else [index] + Heights(StepBack(index, NextStep(count, step)), count + 1, NextStep(count, step))
  }

  function LocatorHeights(length: nat): seq<nat>
    requires length > 0
  {
    Heights(length - 1, 0, 1)
  }

  lemma {:induction false} HeightsAreBelow(index: nat, count: nat, step: nat)
    requires step >= 1
    ensures forall i :: 0 <= i < |Heights(index, count, step)| ==> Heights(index, count, step)[i] <= index
    decreases index
  {
    if index > 0 && count < MAX_LISTED {
      HeightsAreBelow(StepBack(index, NextStep(count, step)), count + 1, NextStep(count, step));
    }
  }

  /** The hashes of a locator for a chain given by its hashes, genesis first. */
  function LocatorHashes(active: seq<Hash>): (hashes: seq<Hash>)
    requires |active| > 0
    ensures |hashes| == |LocatorHeights(|active|)|
  {
    HeightsAreBelow(|active| - 1, 0, 1);
    var heights := LocatorHeights(|active|);
    seq<Hash>(|heights|, i requires 0 <= i < |heights| => active[heights[i]])
  }

  /** The locator as the node computes it. A path visits genesis once, so it is appended last. */
  method ComputeLocator(active: seq<Hash>) returns (hashes: seq<Hash>)
    requires |active| > 0 && forall i :: 0 < i < |active| ==> active[i] != active[0]
    ensures hashes == LocatorHashes(active)
  {
    hashes := [];
    var index, step: nat := |active| - 1, 1;
    ghost var heights: seq<nat> := [];
    while index > 0 && |hashes| < 63
      invariant 0 <= index < |active| && step >= 1 && |hashes| <= 63 && |heights| == |hashes|
      invariant LocatorHeights(|active|) == heights + Heights(index, |hashes|, step)
      invariant forall i :: 0 <= i < |heights| ==> 0 < heights[i] < |active| && hashes[i] == active[heights[i]]
      decreases index
    {
      ghost var below := Heights(StepBack(index, NextStep(|hashes|, step)), |hashes| + 1, NextStep(|hashes|, step));
      assert heights + ([index] + below) == heights + [index] + below;
      heights := heights + [index];
      hashes := hashes + [active[index]];
      if |hashes| >= 10 {
        step := step * 2;
      }
      index := if index - step > 0 then index - step else 0;
    }
    if |hashes| == 0 || hashes[|hashes| - 1] != active[0] {
      hashes := hashes + [active[0]];
    }
  }

  // Shape

  lemma {:induction false} HeightsShape(index: nat, count: nat, step: nat)
    requires step >= 1 && count <= MAX_LISTED
    ensures var h := Heights(index, count, step);
            && |h| + count <= 64 && h[|h| - 1] == 0
            && (count < MAX_LISTED ==> h[0] == index) && (forall i :: 0 <= i < |h| ==> h[i] <= index)
            && forall i, j :: 0 <= i < j < |h| ==> h[i] > h[j]
    decreases index
  {
    if index > 0 && count < MAX_LISTED {
      HeightsShape(StepBack(index, NextStep(count, step)), count + 1, NextStep(count, step));
    }
  }

  /** A locator lists 1 to 64 heights, strictly descending from the tip to genesis. */
  lemma LocatorShape(length: nat)
    requires length > 0
    ensures var h := LocatorHeights(length);
            && 1 <= |h| <= 64 && h[0] == length - 1 && h[|h| - 1] == 0
            && forall i, j :: 0 <= i < j < |h| ==> h[i] > h[j]
  {
    HeightsShape(length - 1, 0, 1);
  }

  // Distance

  function Pow2(n: nat): nat {
    if n == 0 then 1 else 2 * Pow2(n - 1)
  }

  /** The first listed height at or below the fork. */
  function FirstMatch(heights: seq<nat>, fork: nat): (height: nat)
    requires exists i :: 0 <= i < |heights| && heights[i] <= fork
    ensures height <= fork && height in heights
  {
    if heights[0] <= fork then heights[0] else FirstMatch(heights[1..], fork)
  }

  lemma MatchIsFirst(heights: seq<nat>, fork: nat)
    requires |heights| > 0 && heights[0] <= fork
    ensures FirstMatch(heights, fork) == heights[0]
  {
  }

  /** Where the loop stands after listing `count` hashes, unless it has reached genesis. */
  predicate OnSchedule(top: nat, index: nat, count: nat, step: nat) {
    && step >= 1 && index <= top && count <= MAX_LISTED
    && (count <= 9 ==> step == 1 && top - index == count)
    && (count >= 9 ==> step == Pow2(count - 9) && top - index == 7 + 2 * step)
  }

  /** Up to depth 9 the fork itself is listed; beyond, the match is less than twice as deep. */
  function Bound(depth: nat): nat {
    if depth <= 9 then depth else 2 * depth - 9
  }

  /** One turn of the loop keeps the schedule, and lands no deeper than the bound allows for anything
      it jumped over. */
  lemma ScheduleGoesOn(top: nat, index: nat, count: nat, step: nat)
    requires OnSchedule(top, index, count, step) && 0 < index && count < MAX_LISTED
    ensures var step' := NextStep(count, step); var index' := StepBack(index, step');
            && index' < index && step' >= 1
            && (index' > 0 ==> OnSchedule(top, index', count + 1, step'))
            && top - index' <= Bound(top - index + 1)
  {
  }

  /** A list that is full before it reaches genesis spans more than 2^55 blocks. */
  lemma ScheduleEnds(top: nat, index: nat, count: nat, step: nat)
    requires OnSchedule(top, index, count, step) && count >= MAX_LISTED
    ensures top >= 7 + Pow2(55)
  {
    assert Pow2(55) == 2 * Pow2(54);
  }

  lemma {:induction false} MatchFrom(top: nat, index: nat, count: nat, step: nat, fork: nat)
    requires OnSchedule(top, index, count, step) && step >= 1 && fork <= index <= top
    ensures exists i :: 0 <= i < |Heights(index, count, step)| && Heights(index, count, step)[i] <= fork
    ensures var m := FirstMatch(Heights(index, count, step), fork);
            top - m <= Bound(top - fork) || (m == 0 && top >= 7 + Pow2(55))
    decreases index
  {
    hide OnSchedule, Pow2, StepBack, NextStep;
    var h := Heights(index, count, step);
    if index == fork && count < MAX_LISTED {
      assert h[0] == fork;
      MatchIsFirst(h, fork);
    } else if index == 0 || count >= MAX_LISTED {
      assert h == [0];
      MatchIsFirst(h, fork);
      if count >= MAX_LISTED {
        ScheduleEnds(top, index, count, step);
      }
    } else {
      var step' := NextStep(count, step);
      var index' := StepBack(index, step');
      ScheduleGoesOn(top, index, count, step);
      var tail := Heights(index', count + 1, step');
      assert h[0] > fork && h[1..] == tail;
      if index' > 0 && fork <= index' {
        MatchFrom(top, index', count + 1, step', fork);
      } else if index' > 0 && count + 1 >= MAX_LISTED {
        assert tail == [0];
        MatchIsFirst(tail, fork);
        ScheduleEnds(top, index', count + 1, step');
      } else {
        assert tail[0] == index';
        MatchIsFirst(tail, fork);
      }
    }
  }

  /** Every fork has a match, and the match is the fork itself up to depth 9 and less than twice as
      deep beyond. Only on a chain of more than 2^55 blocks can the list run out before that, and
      then the match is genesis. */
  lemma MatchIsClose(length: nat, fork: nat)
    requires fork < length
    ensures exists i :: 0 <= i < |LocatorHeights(length)| && LocatorHeights(length)[i] <= fork
    ensures var m, top := FirstMatch(LocatorHeights(length), fork), length - 1;
            && m <= fork
            && (top - m <= Bound(top - fork) || (m == 0 && top >= 7 + 0x80_0000_0000_0000))
  {
    var top: nat := length - 1;
    MatchFrom(top, top, 0, 1, fork);
    var m := FirstMatch(Heights(top, 0, 1), fork);
    assert LocatorHeights(length) == Heights(top, 0, 1);
    assert top - m <= Bound(top - fork) || (m == 0 && top >= 7 + Pow2(55));
    TwoToThe55();
    assert top - m <= Bound(top - fork) || (m == 0 && top >= 7 + 0x80_0000_0000_0000);
  }

  lemma TwoToThe55()
    ensures Pow2(55) == 0x80_0000_0000_0000
  {
    assert Pow2(11) == 0x800;
    assert Pow2(22) == 0x800 * Pow2(11);
    assert Pow2(33) == 0x800 * Pow2(22);
    assert Pow2(44) == 0x800 * Pow2(33);
    assert Pow2(55) == 0x800 * Pow2(44);
  }
}
