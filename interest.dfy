/**
 What `Input.generateDictionary` computes: for every slide index a list of
 (slide, interest) entries, filled by a triangular double loop that keeps
 only pairs of positive interest.

 As written, the inner loop enumerates `slides.suffix(from: index1)`, whose
 `enumerated()` counts OFFSETS from 0, so the second entry of every pair is
 filed under the offset instead of under the partner's index. `Table` models
 that code; `MirroredTable` is the table the loop evidently means to build.
 */
module Interest {
  import opened Model

  /** The dictionary: list `k` belongs to slide index `k`. */
  type Table = seq<seq<SlideWithInterest>>

  /** One empty list per slide index. */
  function EmptyTable(n: nat): (t: Table)
    ensures |t| == n && forall k :: 0 <= k < n ==> t[k] == []
  {
    seq(n, k => [])
  }

  /**
   One pass of the inner loop, for `slide1 = slides[index1]` and the
   `offset`-th slide of the suffix: when the interest is positive, the
   partner is appended under `index1` and `slide1` under `key2`.
   */
  function Visit(slides: seq<Slide>, t: Table, index1: nat, offset: nat, key2: int): (r: Table)
    requires index1 + offset < |slides|
    requires index1 < |t| && 0 <= key2 < |t|
    ensures |r| == |t|
  {
    var slide1 := slides[index1];
    var slide2 := slides[index1 + offset];
    var interest := Compare(slide1, slide2);
    if interest <= 0 then t
    else
      var t1 := t[index1 := t[index1] + [SlideWithInterest(slide2, interest)]];
      t1[key2 := t1[key2] + [SlideWithInterest(slide1, interest)]]
  }

  /** The key of the second entry: the offset as written, or the partner's index when `mirrored`. */
  function SecondKey(index1: nat, offset: nat, mirrored: bool): nat
  {
    if mirrored then index1 + offset else offset
  }

  /** The inner loop for `index1`, over the first `m` offsets of the suffix. */
  function Row(slides: seq<Slide>, t: Table, index1: nat, m: nat, mirrored: bool): (r: Table)
    requires index1 + m <= |slides|
    requires |t| == |slides|
    ensures |r| == |t|
  {
    if m == 0 then t
    else
      var prev := Row(slides, t, index1, m - 1, mirrored);
      Visit(slides, prev, index1, m - 1, SecondKey(index1, m - 1, mirrored))
  }

  /** The outer loop over the first `n` slides, starting from the empty table. */
  function Rows(slides: seq<Slide>, n: nat, mirrored: bool): (r: Table)
    requires n <= |slides|
    ensures |r| == |slides|
  {
    if n == 0 then EmptyTable(|slides|)
    else
      var prev := Rows(slides, n - 1, mirrored);
      Row(slides, prev, n - 1, |slides| - (n - 1), mirrored)
  }

  /** The table `generateDictionary` builds, as written. */
  function GeneratedTable(slides: seq<Slide>): (r: Table)
    ensures |r| == |slides|
  {
    Rows(slides, |slides|, false)
  }

  /** The table the loop means to build: the second entry filed under the partner's index. */
  function MirroredTable(slides: seq<Slide>): (r: Table)
    ensures |r| == |slides|
  {
    Rows(slides, |slides|, true)
  }

  /** Every stored entry has positive interest and names one of the slides. */
  ghost predicate EntriesOk(slides: seq<Slide>, t: Table)
  {
    forall k, e :: 0 <= k < |t| && e in t[k] ==> e.interest > 0 && e.slide in slides
  }

  lemma {:induction false} RowEntriesOk(slides: seq<Slide>, t: Table, index1: nat, m: nat, mirrored: bool)
    requires index1 + m <= |slides|
    requires |t| == |slides|
    requires EntriesOk(slides, t)
    ensures EntriesOk(slides, Row(slides, t, index1, m, mirrored))
  {
    if m > 0 {
      RowEntriesOk(slides, t, index1, m - 1, mirrored);
    }
  }

  /** Only entries of positive interest are stored, and each names one of the slides. */
  lemma {:induction false} RowsEntriesOk(slides: seq<Slide>, n: nat, mirrored: bool)
    requires n <= |slides|
    ensures EntriesOk(slides, Rows(slides, n, mirrored))
  {
    if n > 0 {
      RowsEntriesOk(slides, n - 1, mirrored);
      RowEntriesOk(slides, Rows(slides, n - 1, mirrored), n - 1, |slides| - (n - 1), mirrored);
    }
  }

  /** Each list only grows: what a table holds under a key stays a prefix of what later passes hold there. */
  lemma {:induction false} RowGrows(slides: seq<Slide>, t: Table, index1: nat, m: nat, mirrored: bool)
    requires index1 + m <= |slides|
    requires |t| == |slides|
    ensures forall k :: 0 <= k < |t| ==> t[k] <= Row(slides, t, index1, m, mirrored)[k]
  {
    if m > 0 {
      RowGrows(slides, t, index1, m - 1, mirrored);
    }
  }

  lemma {:induction false} RowsGrow(slides: seq<Slide>, n: nat, n': nat, mirrored: bool)
    requires n <= n' <= |slides|
    ensures forall k :: 0 <= k < |slides| ==> Rows(slides, n, mirrored)[k] <= Rows(slides, n', mirrored)[k]
  {
    if n < n' {
      RowsGrow(slides, n, n' - 1, mirrored);
      RowGrows(slides, Rows(slides, n' - 1, mirrored), n' - 1, |slides| - (n' - 1), mirrored);
    }
  }

  /** After the pass for `offset`, a positive pair is recorded under `index1` and under the second key. */
  lemma {:induction false} RowRecordsPair(slides: seq<Slide>, t: Table, index1: nat, offset: nat, m: nat, mirrored: bool)
    requires offset < m && index1 + m <= |slides|
    requires |t| == |slides|
    requires Compare(slides[index1], slides[index1 + offset]) > 0
    ensures var c := Compare(slides[index1], slides[index1 + offset]);
      var r := Row(slides, t, index1, m, mirrored);
      && SlideWithInterest(slides[index1 + offset], c) in r[index1]
      && SlideWithInterest(slides[index1], c) in r[SecondKey(index1, offset, mirrored)]
  {
    var c := Compare(slides[index1], slides[index1 + offset]);
    var key2 := SecondKey(index1, offset, mirrored);
    if offset == m - 1 {
      var prev := Row(slides, t, index1, m - 1, mirrored);
      var t1 := prev[index1 := prev[index1] + [SlideWithInterest(slides[index1 + offset], c)]];
      assert SlideWithInterest(slides[index1 + offset], c) in t1[index1];
      assert t1[index1] <= Row(slides, t, index1, m, mirrored)[index1];
    } else {
      RowRecordsPair(slides, t, index1, offset, m - 1, mirrored);
      var prev := Row(slides, t, index1, m - 1, mirrored);
      RowGrows(slides, prev, index1, 1, mirrored);
    }
  }

  /** Every pair `i <= j` of positive interest is recorded under `i` and under the pass's second key. */
  lemma TableRecordsPair(slides: seq<Slide>, i: nat, j: nat, mirrored: bool)
    requires i <= j < |slides|
    requires Compare(slides[i], slides[j]) > 0
    ensures var c := Compare(slides[i], slides[j]);
      var t := Rows(slides, |slides|, mirrored);
      && SlideWithInterest(slides[j], c) in t[i]
      && SlideWithInterest(slides[i], c) in t[SecondKey(i, j - i, mirrored)]
  {
    var n := |slides|;
    var before := Rows(slides, i, mirrored);
    RowRecordsPair(slides, before, i, j - i, n - i, mirrored);
    RowsGrow(slides, i + 1, n, mirrored);
  }

  /**
   As written: for every pair `i <= j` of positive interest, `slides[j]` is
   listed under `i`, and `slides[i]` under the offset `j - i`.
   */
  lemma GeneratedTableRecordsPair(slides: seq<Slide>, i: nat, j: nat)
    requires i <= j < |slides|
    requires Compare(slides[i], slides[j]) > 0
    ensures var c := Compare(slides[i], slides[j]);
      && SlideWithInterest(slides[j], c) in GeneratedTable(slides)[i]
      && SlideWithInterest(slides[i], c) in GeneratedTable(slides)[j - i]
  {
    TableRecordsPair(slides, i, j, false);
  }

  /**
   Entry `e` under key `k` is one of the two entries the pass for the pair
   `i <= j` files: the partner under `i`, or `slides[i]` under the second key.
   */
  ghost predicate Filed(slides: seq<Slide>, i: nat, j: nat, mirrored: bool, k: int, e: SlideWithInterest)
    requires i <= j < |slides|
  {
    var c := Compare(slides[i], slides[j]);
    && c > 0
    && ((k == i && e == SlideWithInterest(slides[j], c)) ||
        (k == SecondKey(i, j - i, mirrored) && e == SlideWithInterest(slides[i], c)))
  }

  /** The inner loop adds nothing but the entries of the pairs it visits; `j` names the pair. */
  lemma {:induction false} RowEntriesFiled(slides: seq<Slide>, t: Table, index1: nat, m: nat, mirrored: bool,
                                           k: int, e: SlideWithInterest) returns (j: int)
    requires index1 + m <= |slides| && |t| == |slides|
    requires 0 <= k < |t| && e in Row(slides, t, index1, m, mirrored)[k]
    ensures e in t[k] || (index1 <= j < index1 + m && Filed(slides, index1, j, mirrored, k, e))
  {
    j := -1;
    if m > 0 {
      var prev := Row(slides, t, index1, m - 1, mirrored);
      if e in prev[k] {
        j := RowEntriesFiled(slides, t, index1, m - 1, mirrored, k, e);
      } else {
        j := index1 + m - 1;
        RowLastEntry(slides, t, index1, m, mirrored, k, e);
      }
    }
  }

  /** An entry the last pass of the inner loop added is one of that pass's two entries. */
  lemma RowLastEntry(slides: seq<Slide>, t: Table, index1: nat, m: nat, mirrored: bool, k: int, e: SlideWithInterest)
    requires 0 < m && index1 + m <= |slides| && |t| == |slides|
    requires 0 <= k < |t| && e in Row(slides, t, index1, m, mirrored)[k]
    requires e !in Row(slides, t, index1, m - 1, mirrored)[k]
    ensures Filed(slides, index1, index1 + m - 1, mirrored, k, e)
  {
    var prev := Row(slides, t, index1, m - 1, mirrored);
    VisitEntries(slides, prev, index1, m - 1, SecondKey(index1, m - 1, mirrored), k, e);
  }

  /** One pass adds nothing but its two entries, and only for a positive interest. */
  lemma VisitEntries(slides: seq<Slide>, t: Table, index1: nat, offset: nat, key2: int, k: int, e: SlideWithInterest)
    requires index1 + offset < |slides|
    requires index1 < |t| && 0 <= key2 < |t| && 0 <= k < |t|
    requires e in Visit(slides, t, index1, offset, key2)[k]
    ensures var c := Compare(slides[index1], slides[index1 + offset]);
      || e in t[k]
      || (c > 0 && k == index1 && e == SlideWithInterest(slides[index1 + offset], c))
      || (c > 0 && k == key2 && e == SlideWithInterest(slides[index1], c))
  {
    var c := Compare(slides[index1], slides[index1 + offset]);
    if c > 0 {
      var t1 := t[index1 := t[index1] + [SlideWithInterest(slides[index1 + offset], c)]];
      if k == key2 {
        assert e in t1[key2] || e == SlideWithInterest(slides[index1], c);
      }
    }
  }

  /** The table holds nothing but the entries of pairs of positive interest. */
  lemma {:induction false} TableEntriesFiled(slides: seq<Slide>, n: nat, mirrored: bool, k: int, e: SlideWithInterest)
    requires n <= |slides| && 0 <= k < |slides|
    requires e in Rows(slides, n, mirrored)[k]
    ensures exists i, j :: 0 <= i < n && i <= j < |slides| && Filed(slides, i, j, mirrored, k, e)
  {
    if n > 0 {
      var prev := Rows(slides, n - 1, mirrored);
      var j := RowEntriesFiled(slides, prev, n - 1, |slides| - (n - 1), mirrored, k, e);
      if e in prev[k] {
        TableEntriesFiled(slides, n - 1, mirrored, k, e);
      } else {
        assert 0 <= n - 1 < n && n - 1 <= j < |slides| && Filed(slides, n - 1, j, mirrored, k, e);
      }
    }
  }

  /** Every entry of the intended table under `k` is a slide `slides[j]` with its positive interest against `slides[k]`. */
  lemma MirroredTableEntries(slides: seq<Slide>, k: nat, e: SlideWithInterest)
    requires k < |slides| && e in MirroredTable(slides)[k]
    ensures exists j :: 0 <= j < |slides| && Compare(slides[k], slides[j]) > 0 &&
                        e == SlideWithInterest(slides[j], Compare(slides[k], slides[j]))
  {
    TableEntriesFiled(slides, |slides|, true, k, e);
    var i, j :| 0 <= i < |slides| && i <= j < |slides| && Filed(slides, i, j, true, k, e);
    CompareSymmetric(slides[i], slides[j]);
    if !(k == i && e == SlideWithInterest(slides[j], Compare(slides[i], slides[j]))) {
      assert k == j && e == SlideWithInterest(slides[i], Compare(slides[k], slides[i]));
    }
  }

  /** In the intended table, `slides[j]` is listed under `k` exactly when their interest is positive. */
  lemma MirroredTableLists(slides: seq<Slide>, k: nat, j: nat)
    requires k < |slides| && j < |slides|
    ensures SlideWithInterest(slides[j], Compare(slides[k], slides[j])) in MirroredTable(slides)[k]
        <==> Compare(slides[k], slides[j]) > 0
  {
    var c := Compare(slides[k], slides[j]);
    var e := SlideWithInterest(slides[j], c);
    if c > 0 {
      if k <= j {
        TableRecordsPair(slides, k, j, true);
      } else {
        CompareSymmetric(slides[j], slides[k]);
        TableRecordsPair(slides, j, k, true);
      }
    } else if e in MirroredTable(slides)[k] {
      MirroredTableEntries(slides, k, e);
    }
  }

  /**
   The evidently intended property, proved of the mirrored table: `slides[j]`
   is listed under `k` exactly when `slides[k]` is listed under `j`, both with
   their interest, which must be positive.
   */
  lemma MirroredTableIsSymmetric(slides: seq<Slide>, k: nat, j: nat)
    requires k < |slides| && j < |slides|
    ensures SlideWithInterest(slides[j], Compare(slides[k], slides[j])) in MirroredTable(slides)[k]
        <==> SlideWithInterest(slides[k], Compare(slides[j], slides[k])) in MirroredTable(slides)[j]
  {
    MirroredTableLists(slides, k, j);
    MirroredTableLists(slides, j, k);
    CompareSymmetric(slides[k], slides[j]);
  }

  /**
   As written, the second entry goes under the offset: with three slides
   where only the last two have positive interest, slide 1 is listed under
   its own index and nothing is listed under index 2.
   */
  lemma OffsetKeyMisfiles()
    ensures var x := Slide([0], {});
      var b := Slide([1], {"a", "b"});
      var c := Slide([2], {"b", "c"});
      var t := GeneratedTable([x, b, c]);
      && t[1] == [SlideWithInterest(c, 1), SlideWithInterest(b, 1)]
      && t[2] == []
  {
    var x := Slide([0], {});
    var b := Slide([1], {"a", "b"});
    var c := Slide([2], {"b", "c"});
    var s := [x, b, c];
    assert Compare(x, x) == 0 && Compare(x, b) == 0 && Compare(x, c) == 0;
    CompareSameTags(b, b);
    CompareSameTags(c, c);
    assert b.tags - c.tags == {"a"};
    assert c.tags - b.tags == {"c"};
    assert Compare(b, c) == 1;
    var t0 := EmptyTable(3);
    assert s[0] == x && s[1] == b && s[2] == c;
    assert Row(s, t0, 0, 1, false) == t0;
    assert Row(s, t0, 0, 2, false) == t0;
    assert Row(s, t0, 0, 3, false) == t0;
    assert Rows(s, 1, false) == t0;
    assert Row(s, t0, 1, 1, false) == t0;
    var t2 := t0[1 := [SlideWithInterest(c, 1), SlideWithInterest(b, 1)]];
    var t1 := t0[1 := t0[1] + [SlideWithInterest(c, 1)]];
    assert t1[1] == [SlideWithInterest(c, 1)];
    assert Visit(s, t0, 1, 1, 1) == t1[1 := t1[1] + [SlideWithInterest(b, 1)]];
    assert t1[1] + [SlideWithInterest(b, 1)] == [SlideWithInterest(c, 1), SlideWithInterest(b, 1)];
    assert t1[1 := t1[1] + [SlideWithInterest(b, 1)]] == t2 by {
      var u := t1[1 := t1[1] + [SlideWithInterest(b, 1)]];
      assert |u| == |t2|;
      forall k | 0 <= k < |u| ensures u[k] == t2[k] { }
    }
    assert Row(s, t0, 1, 2, false) == t2;
    assert Rows(s, 2, false) == t2;
    assert Row(s, t2, 2, 1, false) == t2;
    assert Rows(s, 3, false) == Row(s, t2, 2, 1, false);
  }
}
