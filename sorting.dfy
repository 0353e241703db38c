/**
 `Input.sort`: the slides ordered by decreasing number of tags. The Swift
 library sort leaves the relative order of slides with equally many tags
 unspecified; the model promises only what the comparator fixes.
 */
module Sorting {
  import opened Model

  /** Tag counts never increase along `s`. */
  predicate SortedByTagCount(s: seq<Slide>)
  {
    forall i, j :: 0 <= i < j < |s| ==> |s[i].tags| >= |s[j].tags|
  }

  /** `x` placed after the leading slides that have at least as many tags. */
  function Insert(s: seq<Slide>, x: Slide): (r: seq<Slide>)
    ensures multiset(r) == multiset(s) + multiset{x}
    ensures |r| == |s| + 1
    ensures r[0] == x || (|s| > 0 && r[0] == s[0])
  {
    if s == [] then [x]
    else if |s[0].tags| >= |x.tags| then
      assert multiset(s) == multiset{s[0]} + multiset(s[1..]) by {
        assert s == [s[0]] + s[1..];
      }
      [s[0]] + Insert(s[1..], x)
    else [x] + s
  }

  /** Inserting into a sorted list keeps it sorted. */
  lemma {:induction false} InsertSorted(s: seq<Slide>, x: Slide)
    requires SortedByTagCount(s)
    ensures SortedByTagCount(Insert(s, x))
  {
    if s != [] && |s[0].tags| >= |x.tags| {
      var rest := Insert(s[1..], x);
      InsertSorted(s[1..], x);
      var r := [s[0]] + rest;
      assert |rest[0].tags| <= |s[0].tags|;
      forall i, j | 0 <= i < j < |r| ensures |r[i].tags| >= |r[j].tags|
      {
        if i == 0 {
          assert r[j] == rest[j - 1];
          if j > 1 {
            assert |rest[0].tags| >= |rest[j - 1].tags|;
          }
        } else {
          assert r[i] == rest[i - 1] && r[j] == rest[j - 1];
        }
      }
    }
  }
}
