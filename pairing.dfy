/**
 What `Input.matchVerticalSlides` computes. The vertical images live in a
 dictionary keyed by line index; `order` is the order in which that dictionary
 is enumerated (unspecified in Swift, but the same for both loops because the
 dictionary is not changed while they run).
 */
module Pairing {
  import opened Model

  /** `order` enumerates the keys of `vm`, each exactly once. */
  predicate IsOrderOf(order: seq<int>, vm: map<int, Image>)
  {
    (forall k :: k in vm ==> k in order) && (forall k :: k in order ==> k in vm) &&
    (forall i, j :: 0 <= i < j < |order| ==> order[i] != order[j])
  }

  /**
   The inner loop: over `cands`, skipping matched ids, keep the candidate
   whose union with `image1` is strictly larger than every earlier one,
   starting from `(0, 0)`.
   */
  function Scan(image1: Image, vm: map<int, Image>, cands: seq<int>, matched: set<int>): (b: Best)
    requires forall k :: k in cands ==> k in vm
    ensures b.max >= 0
    ensures b.max > 0 ==> b.index in cands && b.index !in matched && |Union(image1, vm[b.index])| == b.max
    ensures b.max == 0 ==> b.index == 0
  {
    if cands == [] then Best(0, 0)
    else
      var prev := Scan(image1, vm, cands[..|cands| - 1], matched);
      var k := cands[|cands| - 1];
      if k in matched then prev
      else
        var v := |Union(image1, vm[k])|;
        if v > prev.max then Best(v, k) else prev
  }

  /** The union size `image1` would reach with candidate `k`. */
  function Gain(image1: Image, vm: map<int, Image>, k: int): nat
    requires k in vm
  {
    |Union(image1, vm[k])|
  }

  /** No unmatched candidate has a larger union than the one the scan keeps. */
  lemma {:induction false} ScanIsMax(image1: Image, vm: map<int, Image>, cands: seq<int>, matched: set<int>)
    requires forall k :: k in cands ==> k in vm
    ensures forall j :: 0 <= j < |cands| && cands[j] !in matched ==>
      Gain(image1, vm, cands[j]) <= Scan(image1, vm, cands, matched).max
  {
    if cands != [] {
      var n := |cands| - 1;
      var front := cands[..n];
      ScanIsMax(image1, vm, front, matched);
      forall j | 0 <= j < n ensures cands[j] == front[j] { }
    }
  }

  /**
   The scan keeps the FIRST unmatched candidate of strictly maximal union
   size: every unmatched candidate before the chosen position scores
   strictly less.
   */
  lemma {:induction false} ScanIsFirst(image1: Image, vm: map<int, Image>, cands: seq<int>, matched: set<int>)
    requires forall k :: k in cands ==> k in vm
    ensures var b := Scan(image1, vm, cands, matched);
      b.max > 0 ==>
        exists p ::
          && 0 <= p < |cands| && cands[p] == b.index
          && forall j :: 0 <= j < p && cands[j] !in matched ==> Gain(image1, vm, cands[j]) < b.max
  {
    if cands != [] {
      var n := |cands| - 1;
      var front := cands[..n];
      var prev := Scan(image1, vm, front, matched);
      var b := Scan(image1, vm, cands, matched);
      if b.max > 0 {
        if b == prev {
          ScanIsFirst(image1, vm, front, matched);
          var p :| 0 <= p < |front| && front[p] == prev.index &&
            (forall j :: 0 <= j < p && front[j] !in matched ==> Gain(image1, vm, front[j]) < prev.max);
          assert cands[p] == b.index;
          forall j | 0 <= j < p ensures cands[j] == front[j] { }
        } else {
          ScanIsMax(image1, vm, front, matched);
          forall j | 0 <= j < n ensures cands[j] == front[j] { }
          assert cands[n] == b.index;
        }
      }
    }
  }

  /**
   The inner loop of `matchVerticalSlides` for `image1` (at `index1`): the
   best unmatched partner and the slide it would make, None while no
   candidate has a non-empty union.
   */
  method FindPartner(image1: Image, index1: int, vm: map<int, Image>, order: seq<int>, matched: set<int>)
    returns (max: int, maxIndex: int, maxSlide: Option<Slide>)
    requires forall k :: k in order ==> k in vm
    ensures Best(max, maxIndex) == Scan(image1, vm, order, matched)
    ensures maxSlide == if max > 0 then Some(Slide([index1, maxIndex], Union(image1, vm[maxIndex]))) else None
  {
    max, maxIndex, maxSlide := 0, 0, None;
    var j := 0;
    while j < |order|
      invariant 0 <= j <= |order|
      invariant Scan(image1, vm, order[..j], matched) == Best(max, maxIndex)
      invariant maxSlide == if max > 0 then Some(Slide([index1, maxIndex], Union(image1, vm[maxIndex]))) else None
    {
      var index2 := order[j];
      assert order[..j + 1][..j] == order[..j];
      if index2 !in matched {
        var newValue := Union(image1, vm[index2]);
        if |newValue| > max {
          max := |newValue|;
          maxIndex := index2;
          maxSlide := Some(Slide([index1, index2], newValue));
        }
      }
      j := j + 1;
    }
    assert order[..|order|] == order;
  }

  /** The slides made so far and the ids they consume (`matchedIndices`). */
  datatype Pairing = Pairing(matched: set<int>, made: seq<Slide>)

  /**
   One pass of the outer loop for `index1`: a matched image is skipped;
   otherwise it is paired with the scan's pick. When no candidate's union is
   non-empty, `maxSlide!` traps, which is None here.
   */
  function PairStep(vm: map<int, Image>, order: seq<int>, p: Pairing, index1: int): (r: Option<Pairing>)
    requires index1 in vm
    requires forall k :: k in order ==> k in vm
    ensures r.None? ==> index1 !in p.matched
    ensures r.Some? ==> p.matched <= r.value.matched && index1 in r.value.matched
    ensures r.Some? ==> p.made <= r.value.made && |r.value.made| <= |p.made| + 1
  {
    if index1 in p.matched then Some(p)
    else
      var b := Scan(vm[index1], vm, order, p.matched);
      if b.max > 0 then
        Some(Pairing(p.matched + {index1} + {b.index},
                     p.made + [Slide([index1, b.index], Union(vm[index1], vm[b.index]))]))
      else None
  }

  /** The outer loop run over the first `n` keys of `order`. */
  function Pairs(vm: map<int, Image>, order: seq<int>, n: nat): (r: Option<Pairing>)
    requires n <= |order|
    requires forall k :: k in order ==> k in vm
    ensures r.Some? ==> |r.value.made| <= n
    ensures r.Some? ==> forall j :: 0 <= j < n ==> order[j] in r.value.matched
  {
    if n == 0 then Some(Pairing({}, []))
    else
      match Pairs(vm, order, n - 1)
      case None => None
      case Some(p) => PairStep(vm, order, p, order[n - 1])
  }

  /** Once the loop has trapped it stays trapped. */
  lemma {:induction false} PairsStaysNone(vm: map<int, Image>, order: seq<int>, n: nat, n': nat)
    requires n <= n' <= |order|
    requires forall k :: k in order ==> k in vm
    requires Pairs(vm, order, n).None?
    ensures Pairs(vm, order, n').None?
  {
    if n < n' {
      PairsStaysNone(vm, order, n, n' - 1);
    }
  }

  /** The ids used by a list of slides. */
  function Ids(made: seq<Slide>): set<int>
  {
    if made == [] then {} else Ids(made[..|made| - 1]) + SlideIds(made[|made| - 1])
  }

  function SlideIds(s: Slide): set<int>
  {
    set k | k in s.imagesID
  }

  /** Each slide is two ids of the dictionary whose images' union is its tag set. */
  ghost predicate PairShapes(vm: map<int, Image>, made: seq<Slide>)
  {
    forall i :: 0 <= i < |made| ==>
      |made[i].imagesID| == 2 && made[i].imagesID[0] in vm && made[i].imagesID[1] in vm &&
      made[i].tags == vm[made[i].imagesID[0]].tags + vm[made[i].imagesID[1]].tags
  }

  /** No slide uses an id of an earlier slide. */
  ghost predicate DisjointSlides(made: seq<Slide>)
  {
    forall i :: 0 <= i < |made| ==> SlideIds(made[i]) !! Ids(made[..i])
  }

  /**
   What the pairing keeps true: `matchedIndices` is exactly the ids of the
   slides made; each slide is two ids whose images' union is its tag set;
   no slide reuses an id of an earlier slide; every key visited so far is
   matched; only keys of the dictionary are used.
   */
  ghost predicate WellPaired(vm: map<int, Image>, order: seq<int>, n: nat, p: Pairing)
    requires n <= |order|
  {
    && p.matched == Ids(p.made)
    && p.matched <= vm.Keys
    && (forall j :: 0 <= j < n ==> order[j] in p.matched)
    && PairShapes(vm, p.made)
    && DisjointSlides(p.made)
  }

  lemma IdsAppend(made: seq<Slide>, s: Slide)
    ensures Ids(made + [s]) == Ids(made) + SlideIds(s)
  {
    assert (made + [s])[..|made|] == made;
  }

  lemma AppendKeepsDisjoint(made: seq<Slide>, s: Slide)
    requires DisjointSlides(made)
    requires SlideIds(s) !! Ids(made)
    ensures DisjointSlides(made + [s])
  {
    var q := made + [s];
    forall i | 0 <= i < |q|
      ensures SlideIds(q[i]) !! Ids(q[..i])
    {
      if i < |made| {
        assert q[..i] == made[..i];
      } else {
        assert q[..i] == made;
      }
    }
  }

  lemma AppendKeepsShapes(vm: map<int, Image>, made: seq<Slide>, s: Slide)
    requires PairShapes(vm, made)
    requires |s.imagesID| == 2 && s.imagesID[0] in vm && s.imagesID[1] in vm
    requires s.tags == vm[s.imagesID[0]].tags + vm[s.imagesID[1]].tags
    ensures PairShapes(vm, made + [s])
  {
  }

  /** Pairing a visited, unmatched key with an unmatched partner keeps the pairing well formed. */
  lemma ExtendKeeps(vm: map<int, Image>, order: seq<int>, n: nat, p: Pairing, partner: int)
    requires n < |order| && order[n] in vm && partner in vm
    requires WellPaired(vm, order, n, p)
    requires order[n] !in p.matched && partner !in p.matched
    ensures var s := Slide([order[n], partner], Union(vm[order[n]], vm[partner]));
      WellPaired(vm, order, n + 1, Pairing(p.matched + {order[n]} + {partner}, p.made + [s]))
  {
    var index1 := order[n];
    var s := Slide([index1, partner], Union(vm[index1], vm[partner]));
    var q := Pairing(p.matched + {index1} + {partner}, p.made + [s]);
    ExtendIds(p.made, p.matched, s, index1, partner);
    AppendKeepsShapes(vm, p.made, s);
    WellPairedIntro(vm, order, n + 1, q);
  }

  lemma ExtendIds(made: seq<Slide>, matched: set<int>, s: Slide, index1: int, partner: int)
    requires matched == Ids(made) && DisjointSlides(made)
    requires s.imagesID == [index1, partner]
    requires index1 !in matched && partner !in matched
    ensures matched + {index1} + {partner} == Ids(made + [s])
    ensures DisjointSlides(made + [s])
  {
    assert SlideIds(s) == {index1, partner};
    IdsAppend(made, s);
    AppendKeepsDisjoint(made, s);
  }

  lemma WellPairedIntro(vm: map<int, Image>, order: seq<int>, n: nat, q: Pairing)
    requires n <= |order|
    requires q.matched == Ids(q.made) && q.matched <= vm.Keys
    requires forall j :: 0 <= j < n ==> order[j] in q.matched
    requires PairShapes(vm, q.made) && DisjointSlides(q.made)
    ensures WellPaired(vm, order, n, q)
  {
  }

  /** One pass of the outer loop keeps the pairing well formed. */
  lemma PairStepKeeps(vm: map<int, Image>, order: seq<int>, n: nat, p: Pairing)
    requires n < |order|
    requires forall k :: k in order ==> k in vm
    requires WellPaired(vm, order, n, p)
    requires PairStep(vm, order, p, order[n]).Some?
    ensures WellPaired(vm, order, n + 1, PairStep(vm, order, p, order[n]).value)
  {
    var index1 := order[n];
    if index1 !in p.matched {
      var b := Scan(vm[index1], vm, order, p.matched);
      ExtendKeeps(vm, order, n, p, b.index);
    }
  }

  lemma {:induction false} PairsWellPaired(vm: map<int, Image>, order: seq<int>, n: nat)
    requires n <= |order|
    requires forall k :: k in order ==> k in vm
    ensures Pairs(vm, order, n).Some? ==> WellPaired(vm, order, n, Pairs(vm, order, n).value)
  {
    if n > 0 {
      PairsWellPaired(vm, order, n - 1);
      var r := Pairs(vm, order, n - 1);
      if r.Some? && Pairs(vm, order, n).Some? {
        PairStepKeeps(vm, order, n - 1, r.value);
      }
    }
  }

  /** Every vertical image ends up in a slide when the pairing does not trap. */
  lemma PairingCovers(vm: map<int, Image>, order: seq<int>)
    requires IsOrderOf(order, vm)
    ensures Pairs(vm, order, |order|).Some? ==> Pairs(vm, order, |order|).value.matched == vm.Keys
  {
    PairsWellPaired(vm, order, |order|);
    if Pairs(vm, order, |order|).Some? {
      var p := Pairs(vm, order, |order|).value;
      forall k | k in vm ensures k in p.matched {
        var j :| 0 <= j < |order| && order[j] == k;
      }
    }
  }

  /** An image already matched never starts a new slide: ids never repeat across slides. */
  lemma PairingDisjoint(vm: map<int, Image>, order: seq<int>, i: nat, j: nat)
    requires forall k :: k in order ==> k in vm
    requires Pairs(vm, order, |order|).Some?
    requires i < j < |Pairs(vm, order, |order|).value.made|
    ensures var made := Pairs(vm, order, |order|).value.made;
      SlideIds(made[i]) !! SlideIds(made[j])
  {
    PairsWellPaired(vm, order, |order|);
    var made := Pairs(vm, order, |order|).value.made;
    IdsOfPrefix(made[..j], i);
    assert made[..j][i] == made[i];
  }

  lemma {:induction false} IdsOfPrefix(made: seq<Slide>, i: nat)
    requires i < |made|
    ensures SlideIds(made[i]) <= Ids(made)
  {
    if i < |made| - 1 {
      IdsOfPrefix(made[..|made| - 1], i);
    }
  }

  /**
   `maxSlide!` cannot trap when every vertical image has a tag: the unmatched
   image itself is a candidate whose union is its own non-empty tag set.
   */
  lemma {:induction false} PairsNeverTrap(vm: map<int, Image>, order: seq<int>, n: nat)
    requires n <= |order|
    requires forall k :: k in order ==> k in vm
    requires forall k :: k in vm ==> vm[k].tags != {}
    ensures Pairs(vm, order, n).Some?
  {
    if n > 0 {
      PairsNeverTrap(vm, order, n - 1);
      var p := Pairs(vm, order, n - 1).value;
      var index1 := order[n - 1];
      PairStepNeverTraps(vm, order, p, index1);
    }
  }

  /**
   `maxSlide!` is safe for an unmatched image with a tag: the image itself is
   an unmatched candidate whose union is its own non-empty tag set.
   */
  lemma PairStepNeverTraps(vm: map<int, Image>, order: seq<int>, p: Pairing, index1: int)
    requires index1 in order
    requires forall k :: k in order ==> k in vm
    requires vm[index1].tags != {}
    ensures PairStep(vm, order, p, index1).Some?
  {
    if index1 !in p.matched {
      ScanIsMax(vm[index1], vm, order, p.matched);
      var q :| 0 <= q < |order| && order[q] == index1;
      assert Gain(vm[index1], vm, order[q]) > 0;
    }
  }

  /** Each slide is made from the first unmatched candidate of strictly maximal union, possibly itself. */
  lemma PairStepPicksFirstMax(vm: map<int, Image>, order: seq<int>, p: Pairing, index1: int)
    requires index1 in vm
    requires forall k :: k in order ==> k in vm
    requires index1 !in p.matched
    requires PairStep(vm, order, p, index1).Some?
    ensures var s := PairStep(vm, order, p, index1).value.made[|p.made|];
      var m := s.imagesID[1];
      && s.imagesID[0] == index1
      && m in order && m !in p.matched
      && s.tags == vm[index1].tags + vm[m].tags
      && (forall j :: 0 <= j < |order| && order[j] !in p.matched ==>
            Gain(vm[index1], vm, order[j]) <= |s.tags|)
      && (exists q :: 0 <= q < |order| && order[q] == m &&
            (forall j :: 0 <= j < q && order[j] !in p.matched ==> Gain(vm[index1], vm, order[j]) < |s.tags|))
  {
    ScanIsMax(vm[index1], vm, order, p.matched);
    ScanIsFirst(vm[index1], vm, order, p.matched);
  }

  /**
   The scan does not skip `index1` itself, so an image can be its own best
   partner: two vertical images with the same tags each become a slide of
   one image shown twice.
   */
  lemma PairsCanPairImageWithItself(a: Image)
    requires a.tags != {}
    ensures Pairs(map[0 := a, 1 := a], [0, 1], 2)
         == Some(Pairing({0, 1}, [Slide([0, 0], a.tags), Slide([1, 1], a.tags)]))
  {
    var vm := map[0 := a, 1 := a];
    var order := [0, 1];
    assert Union(a, a) == a.tags;
    assert order[..1] == [0] && [0][..0] == [];
    assert Scan(a, vm, [0], {}) == Best(|a.tags|, 0);
    assert Scan(a, vm, order, {}) == Best(|a.tags|, 0);
    assert Scan(a, vm, [0], {0}) == Best(0, 0);
    assert Scan(a, vm, order, {0}) == Best(|a.tags|, 1);
    var p0 := Pairing({}, []);
    var p1 := Pairing({0}, [Slide([0, 0], a.tags)]);
    assert {} + {0} + {0} == {0} && p0.made + [Slide([0, 0], a.tags)] == p1.made;
    assert PairStep(vm, order, p0, 0) == Some(p1);
    assert Pairs(vm, order, 1) == Some(p1);
    assert {0} + {1} + {1} == {0, 1} && vm[1] == a && vm[0] == a;
    assert p1.made + [Slide([1, 1], a.tags)] == [Slide([0, 0], a.tags), Slide([1, 1], a.tags)];
    assert PairStep(vm, order, p1, 1) == Some(Pairing({0, 1}, [Slide([0, 0], a.tags), Slide([1, 1], a.tags)]));
  }

  /** With no vertical images nothing is appended. */
  lemma PairsOfEmpty(order: seq<int>)
    requires IsOrderOf(order, map[])
    ensures Pairs(map[], order, |order|) == Some(Pairing({}, []))
  {
    OrderVisitsEachOnce(order, map[]);
  }

  /** Enumerating the dictionary visits as many ids as it has keys. */
  lemma OrderVisitsEachOnce(order: seq<int>, vm: map<int, Image>)
    requires IsOrderOf(order, vm)
    ensures |order| == |vm|
  {
    DistinctSize(order);
    assert (set k | k in order) == vm.Keys;
  }

  lemma {:induction false} DistinctSize(s: seq<int>)
    requires forall i, j :: 0 <= i < j < |s| ==> s[i] != s[j]
    ensures |set k | k in s| == |s|
  {
    if s != [] {
      var n := |s| - 1;
      DistinctSize(s[..n]);
      assert (set k | k in s) == (set k | k in s[..n]) + {s[n]};
      assert s[n] !in s[..n];
    }
  }
}
