/**
 What `Input.matchSlides` computes: a greedy nearest-neighbour walk over the
 slides, starting at slide 0 and always moving to the first unvisited slide
 of strictly largest positive `compare` score, or back to index 0 when no
 candidate scores above 0.
 */
module Ordering {
  import opened Model

  /**
   The inner loop: over indices `0..n`, skipping the current slide and the
   visited ones, keep the index of strictly largest score, from `(0, 0)`.
   */
  function ScanSlides(slides: seq<Slide>, current: nat, matched: set<int>, n: nat): (b: Best)
    requires current < |slides| && n <= |slides|
    ensures b.max >= 0
    ensures b.max > 0 ==> 0 <= b.index < n && b.index != current && b.index !in matched &&
                          Compare(slides[current], slides[b.index]) == b.max
    ensures b.max == 0 ==> b.index == 0
  {
    if n == 0 then Best(0, 0)
    else
      var prev := ScanSlides(slides, current, matched, n - 1);
      var k := n - 1;
      if k == current || k in matched then prev
      else
        var v := Compare(slides[current], slides[k]);
        if v > prev.max then Best(v, k) else prev
  }

  /** No candidate scores more than the kept one, and every candidate before it scores strictly less. */
  lemma {:induction false} ScanSlidesFirstMax(slides: seq<Slide>, current: nat, matched: set<int>, n: nat)
    requires current < |slides| && n <= |slides|
    ensures var b := ScanSlides(slides, current, matched, n);
      forall j :: 0 <= j < n && j != current && j !in matched ==> Compare(slides[current], slides[j]) <= b.max
    ensures var b := ScanSlides(slides, current, matched, n);
      b.max > 0 ==> forall j :: 0 <= j < b.index && j != current && j !in matched ==>
                      Compare(slides[current], slides[j]) < b.max
  {
    if n > 0 {
      ScanSlidesFirstMax(slides, current, matched, n - 1);
    }
  }

  /**
   The inner loop of `matchSlides`: the best candidate for following
   `slide`, which is `slides[current]`.
   */
  method FindNext(slides: seq<Slide>, current: nat, slide: Slide, matched: set<int>) returns (max: int, maxIndex: int)
    requires current < |slides| && slide == slides[current]
    ensures Best(max, maxIndex) == ScanSlides(slides, current, matched, |slides|)
  {
    max, maxIndex := 0, 0;
    for index := 0 to |slides|
      invariant ScanSlides(slides, current, matched, index) == Best(max, maxIndex)
    {
      if !(index == current || index in matched) {
        var newValue := Compare(slide, slides[index]);
        if newValue > max {
          max := newValue;
          maxIndex := index;
        }
      }
    }
  }

  /** The walk so far: the indices picked (`finalSlides` as indices), `matchedIndices`, `currentIndex`. */
  datatype Walk = Walk(picks: seq<int>, matched: set<int>, current: int)

  /**
   The walk after `steps` rounds of the outer loop. The visited set always
   equals the set of picks, every pick is a valid index, the first pick is 0
   and the current slide is the last pick.
   */
  function Greedy(slides: seq<Slide>, steps: nat): (w: Walk)
    requires |slides| > 0
    ensures |w.picks| == steps + 1 && w.picks[0] == 0
    ensures 0 <= w.current < |slides| && w.current == w.picks[steps]
  {
    if steps == 0 then Walk([0], {0}, 0)
    else
      var w := Greedy(slides, steps - 1);
      var b := ScanSlides(slides, w.current, w.matched, |slides|);
      Walk(w.picks + [b.index], w.matched + {b.index}, b.index)
  }

  ghost predicate PicksValid(w: Walk, n: int)
  {
    && (forall i :: 0 <= i < |w.picks| ==> 0 <= w.picks[i] < n)
    && (forall k :: k in w.matched <==> k in w.picks)
  }

  /** The visited set is exactly the set of picks, and every pick is an index of `slides`. */
  lemma {:induction false} GreedyPicks(slides: seq<Slide>, steps: nat)
    requires |slides| > 0
    ensures PicksValid(Greedy(slides, steps), |slides|)
  {
    if steps > 0 {
      GreedyPicks(slides, steps - 1);
      var w := Greedy(slides, steps - 1);
      var b := ScanSlides(slides, w.current, w.matched, |slides|);
      assert Greedy(slides, steps).picks == w.picks + [b.index];
      assert Greedy(slides, steps).matched == w.matched + {b.index};
    }
  }

  /** The slides visited in the first `steps` rounds, in order. */
  function Visited(slides: seq<Slide>, steps: nat): (r: seq<Slide>)
    requires |slides| > 0
    ensures |r| == steps + 1 && r[0] == slides[0]
  {
    if steps == 0 then [slides[0]]
    else Visited(slides, steps - 1) + [slides[Greedy(slides, steps).picks[steps]]]
  }

  /** The `i`-th visited slide is the slide at the `i`-th pick of the walk. */
  lemma {:induction false} VisitedAt(slides: seq<Slide>, steps: nat, i: nat)
    requires |slides| > 0 && i <= steps
    ensures 0 <= Greedy(slides, steps).picks[i] < |slides|
    ensures Visited(slides, steps)[i] == slides[Greedy(slides, steps).picks[i]]
  {
    GreedyPicks(slides, steps);
    if i < steps {
      VisitedAt(slides, steps - 1, i);
      assert Greedy(slides, steps).picks[i] == Greedy(slides, steps - 1).picks[i];
    }
  }

  /** One round of the walk, as the loop of `matchSlides` performs it. */
  lemma AdvanceWalk(slides: seq<Slide>, steps: nat)
    requires |slides| > 0
    ensures var w := Greedy(slides, steps);
      var b := ScanSlides(slides, w.current, w.matched, |slides|);
      && Greedy(slides, steps + 1).current == b.index
      && Greedy(slides, steps + 1).matched == w.matched + {b.index}
      && Visited(slides, steps + 1) == Visited(slides, steps) + [slides[b.index]]
  {
  }

  /**
   What `matchSlides` appends to `finalSlides`: as many slides as there are
   slides, starting with the first one.
   */
  function Route(slides: seq<Slide>): (r: seq<Slide>)
    requires |slides| > 0
    ensures |r| == |slides| && r[0] == slides[0]
  {
    Visited(slides, |slides| - 1)
  }

  /**
   `next` is what one round of the outer loop picks from `current` with the
   visited set `matched`: the first unvisited, non-current index of strictly
   maximal positive score, or 0 when no such candidate scores above 0.
   */
  ghost predicate IsGreedyPick(slides: seq<Slide>, current: nat, matched: set<int>, next: int)
    requires current < |slides|
  {
    if forall j :: 0 <= j < |slides| && j != current && j !in matched ==> Compare(slides[current], slides[j]) <= 0
    then next == 0
    else
      && 0 <= next < |slides| && next != current && next !in matched
      && Compare(slides[current], slides[next]) > 0
      && (forall j :: 0 <= j < |slides| && j != current && j !in matched ==>
            Compare(slides[current], slides[j]) <= Compare(slides[current], slides[next]))
      && (forall j :: 0 <= j < next && j != current && j !in matched ==>
            Compare(slides[current], slides[j]) < Compare(slides[current], slides[next]))
  }

  /** Every round of the walk makes the greedy pick. */
  lemma GreedyStep(slides: seq<Slide>, steps: nat)
    requires |slides| > 0 && steps > 0
    ensures Greedy(slides, steps - 1).current < |slides|
    ensures IsGreedyPick(slides, Greedy(slides, steps - 1).current, Greedy(slides, steps - 1).matched,
                         Greedy(slides, steps).picks[steps])
  {
    var w := Greedy(slides, steps - 1);
    var b := ScanSlides(slides, w.current, w.matched, |slides|);
    ScanSlidesFirstMax(slides, w.current, w.matched, |slides|);
    assert Greedy(slides, steps).picks[steps] == b.index;
  }

  /** Any index other than 0 occurs at most once in `p`. */
  predicate OnlyZeroRepeats(p: seq<int>)
  {
    forall i, j :: 0 <= i < j < |p| && p[i] == p[j] ==> p[j] == 0
  }

  /** Only slide 0 can be visited twice: any other index occurs at most once in the walk. */
  lemma {:induction false} OnlyFirstRepeats(slides: seq<Slide>, steps: nat)
    requires |slides| > 0
    ensures OnlyZeroRepeats(Greedy(slides, steps).picks)
  {
    if steps > 0 {
      OnlyFirstRepeats(slides, steps - 1);
      GreedyPicks(slides, steps - 1);
      var w := Greedy(slides, steps - 1);
      var p := Greedy(slides, steps).picks;
      var b := ScanSlides(slides, w.current, w.matched, |slides|);
      assert p == w.picks + [b.index];
      forall i, j | 0 <= i < j < |p| && p[i] == p[j]
        ensures p[j] == 0
      {
        assert p[i] == w.picks[i] && p[i] in w.picks;
        assert p[i] in w.matched;
        if j < steps {
          assert p[j] == w.picks[j];
          assert w.picks[i] == w.picks[j];
        } else {
          assert p[j] == b.index;
          assert b.max == 0;
        }
      }
    }
  }

  /**
   The walk is not always a permutation: two slides with the same tags score
   0 against each other, so the walk falls back to slide 0 and repeats it.
   */
  lemma WalkCanRepeatFirst(s: Slide, t: Slide)
    requires s.tags == t.tags
    ensures Greedy([s, t], 1).picks == [0, 0]
    ensures Route([s, t]) == [s, s]
  {
    CompareSameTags(s, t);
    assert ScanSlides([s, t], 0, {0}, 2) == Best(0, 0);
  }
}
