/**
 * The two scroll listeners of script.js and the state each keeps in its
 * closure: the header's hide-on-scroll-down rule and the scroll-depth
 * milestones. Positions and percentages arrive as integers already measured.
 */
module ScrollTracking {
  import opened Wrappers

  /** Below this many pixels from the top the header is never hidden. */
  const HideThreshold: int := 100

  /** The scroll depths, in percent, reported once reached. */
  predicate IsMilestone(p: int) {
    p == 25 || p == 50 || p == 75 || p == 90
  }

  /** The header hides while scrolling down past the threshold, and shows otherwise. */
  predicate HidesHeader(lastScrollTop: int, scrollTop: int) {
    scrollTop > lastScrollTop && scrollTop > HideThreshold
  }

  /** The header listener's closure: the previous position and the header's transform. */
  class HeaderScroll {
    var lastScrollTop: int
    var hidden: bool

    /** The header is only ever hidden below the threshold. */
    ghost predicate Valid()
      reads this
    {
      hidden ==> lastScrollTop > HideThreshold
    }

    constructor ()
      ensures Valid() && lastScrollTop == 0 && !hidden
    {
      lastScrollTop := 0;
      hidden := false;
    }

    /** One `scroll` event at `scrollTop`. */
    method OnScroll(scrollTop: int)
      requires Valid()
      modifies this
      ensures Valid()
      ensures hidden == HidesHeader(old(lastScrollTop), scrollTop)
      ensures lastScrollTop == scrollTop
    {
      if scrollTop > lastScrollTop && scrollTop > HideThreshold {
        hidden := true;
      } else {
        hidden := false;
      }
      lastScrollTop := scrollTop;
    }
  }

  /** The deepest percentage seen after the events `ps`, starting from `max`. */
  function MaxAfter(max: int, ps: seq<int>): (r: int)
    ensures r >= max
    ensures forall k :: 0 <= k < |ps| ==> r >= ps[k]
    decreases ps
  {
    if ps == [] then max
    else MaxAfter(if ps[0] > max then ps[0] else max, ps[1..])
  }

  /** The maximum is attained: it is the starting value or one of the events. */
  lemma {:induction false} MaxAfterAttained(max: int, ps: seq<int>)
    ensures MaxAfter(max, ps) == max || exists k :: 0 <= k < |ps| && MaxAfter(max, ps) == ps[k]
    decreases ps
  {
    if ps != [] {
      var next := if ps[0] > max then ps[0] else max;
      MaxAfterAttained(next, ps[1..]);
      if MaxAfter(next, ps[1..]) != next {
        var k :| 0 <= k < |ps[1..]| && MaxAfter(next, ps[1..]) == ps[1..][k];
        assert MaxAfter(max, ps) == ps[k + 1];
      } else if next == ps[0] {
        assert MaxAfter(max, ps) == ps[0];
      }
    }
  }

  /** The milestone one event reports, if any: only a new maximum that is a milestone. */
  function Reported(max: int, p: int): Option<int> {
    if p > max && IsMilestone(p) then Some(p) else None
  }

  /**
   * The milestones reported over the events `ps`, starting from `max`: each is
   * a milestone beyond the starting maximum, and they strictly increase, so no
   * milestone is ever reported twice.
   */
  function ReportedAll(max: int, ps: seq<int>): (r: seq<int>)
    ensures forall k :: 0 <= k < |r| ==> IsMilestone(r[k]) && r[k] > max
    ensures forall j, k :: 0 <= j < k < |r| ==> r[j] < r[k]
    decreases ps
  {
    if ps == [] then []
    else
      var p := ps[0];
      if p > max then
        (if IsMilestone(p) then [p] else []) + ReportedAll(p, ps[1..])
      else ReportedAll(max, ps[1..])
  }

  /** One more event extends the run by that event's step. */
  lemma {:induction false} RunStep(max: int, ps: seq<int>, p: int)
    ensures MaxAfter(max, ps + [p]) == (if p > MaxAfter(max, ps) then p else MaxAfter(max, ps))
    ensures ReportedAll(max, ps + [p]) ==
      ReportedAll(max, ps) + (match Reported(MaxAfter(max, ps), p) case Some(m) => [m] case None => [])
    decreases ps
  {
    if ps == [] {
      assert [p][1..] == [];
    } else {
      assert (ps + [p])[1..] == ps[1..] + [p];
      var next := if ps[0] > max then ps[0] else max;
      RunStep(next, ps[1..], p);
    }
  }

  /** The scroll-depth listener's closure. */
  class ScrollDepth {
    var maxScroll: int
    /** The percentages seen so far and the milestones reported so far. */
    ghost var events: seq<int>
    ghost var reported: seq<int>

    ghost predicate Valid()
      reads this
    {
      maxScroll == MaxAfter(0, events) && reported == ReportedAll(0, events)
    }

    constructor ()
      ensures Valid() && maxScroll == 0 && events == [] && reported == []
    {
      maxScroll := 0;
      events, reported := [], [];
    }

    /**
     * One `scroll` event at `percent`: a new maximum is recorded, and reported
     * when it is a milestone. The maximum never decreases, and the milestones
     * reported so far never repeat.
     */
    method OnScroll(percent: int) returns (milestone: Option<int>)
      requires Valid()
      modifies this
      ensures Valid() && events == old(events) + [percent]
      ensures maxScroll >= old(maxScroll) && maxScroll >= percent
      ensures milestone == Reported(old(maxScroll), percent)
      ensures reported == old(reported) + (if milestone.Some? then [milestone.value] else [])
    {
      RunStep(0, events, percent);
      milestone := None;
      if percent > maxScroll {
        maxScroll := percent;
        if IsMilestone(percent) {
          milestone := Some(percent);
        }
      }
      events := events + [percent];
      reported := reported + (if milestone.Some? then [milestone.value] else []);
    }
  }
}
