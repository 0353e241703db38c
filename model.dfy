/**
 The values of the slideshow solver: images read from the input, slides made
 of one horizontal or two vertical images, and the two tag-set scores that
 drive the greedy heuristics (`Image.union` and `Slide.compare`).
 */
module Model {
  import opened Text

  datatype Option<T> = None | Some(value: T)

  datatype ImageType = Horizontal | Vertical

  /** One photo of the input: its orientation and its set of tags. */
  datatype Image = Image(kind: ImageType, tags: set<string>)

  /** One or two image ids (line indices) shown together, with the tags they carry. */
  datatype Slide = Slide(imagesID: seq<int>, tags: set<string>)

  /** An entry of the interest table: a neighbouring slide and its score. */
  datatype SlideWithInterest = SlideWithInterest(slide: Slide, interest: int)

  /** The best candidate seen so far by a scan: its score and its index. */
  datatype Best = Best(max: int, index: int)

  /**
   `Image(line:)`: the line split at single spaces; the first token "H" makes
   the image horizontal and anything else vertical, the second token (the tag
   count) is ignored and every further token is a tag. A line with fewer than
   two tokens makes the slice `comps[2..<comps.count]` trap, which is None here.
   */
  function ParseImage(line: string): (r: Option<Image>)
    ensures r.Some? <==> |Split(line, ' ')| >= 2
    ensures r.Some? ==> (r.value.kind == Horizontal <==> Split(line, ' ')[0] == "H")
    ensures r.Some? ==> forall t :: t in r.value.tags <==> t in Split(line, ' ')[2..]
  {
    var comps := Split(line, ' ');
    if |comps| < 2 then None
    else Some(Image(if comps[0] == "H" then Horizontal else Vertical, set t | t in comps[2..]))
  }

  /** The input line of one image: marker, tag count and tags, separated by single spaces. */
  function FormatLine(marker: string, count: string, tags: seq<string>): string
  {
    Join([marker, count] + tags, ' ')
  }

  /** Parsing a formatted line gives back the orientation and exactly the tags written on it. */
  lemma ParseFormatLine(marker: string, count: string, tags: seq<string>)
    requires ' ' !in marker && ' ' !in count
    requires forall i :: 0 <= i < |tags| ==> ' ' !in tags[i]
    ensures ParseImage(FormatLine(marker, count, tags))
         == Some(Image(if marker == "H" then Horizontal else Vertical, set t | t in tags))
  {
    var parts := [marker, count] + tags;
    SplitJoin(parts, ' ');
    assert parts[2..] == tags;
  }

  /** A line of a single token (no space at all) is the trapping case. */
  lemma ParseRejectsSingleToken(line: string)
    requires ' ' !in line
    ensures ParseImage(line) == None
  {
    SplitWithoutSeparator(line, ' ');
  }

  /** `Image.union(with:)`: the smallest tag set holding the tags of both images. */
  function Union(a: Image, b: Image): (r: set<string>)
    ensures a.tags <= r && b.tags <= r
    ensures forall t :: t in r ==> t in a.tags || t in b.tags
  {
    a.tags + b.tags
  }

  lemma UnionCommutes(a: Image, b: Image)
    ensures Union(a, b) == Union(b, a)
  {
  }

  /** The union is at least as large as either tag set and at most their total size. */
  lemma UnionSize(a: Image, b: Image)
    ensures |a.tags| <= |Union(a, b)| && |b.tags| <= |Union(a, b)|
    ensures |Union(a, b)| <= |a.tags| + |b.tags|
  {
    SubsetSize(a.tags, Union(a, b));
    SubsetSize(b.tags, Union(a, b));
  }

  lemma {:induction false} SubsetSize(x: set<string>, y: set<string>)
    requires x <= y
    ensures |x| <= |y|
  {
    if x != {} {
      var e :| e in x;
      SubsetSize(x - {e}, y - {e});
    }
  }

  /** Appending to a concatenation appends to its second part. */
  lemma AppendAssoc<T>(a: seq<T>, b: seq<T>, x: T)
    ensures (a + b) + [x] == a + (b + [x])
  {
  }

  function Min3(a: int, b: int, c: int): int
  {
    if a <= b && a <= c then a else if b <= c then b else c
  }

  /**
   `Slide.compare`: the minimum of the size of the UNION of the two tag sets,
   the tags only in `a` and the tags only in `b`. The score never exceeds
   either one-sided difference.
   */
  function Compare(a: Slide, b: Slide): (r: int)
    ensures 0 <= r
    ensures r <= |a.tags - b.tags| && r <= |b.tags - a.tags| && r <= |a.tags + b.tags|
    ensures r == |a.tags - b.tags| || r == |b.tags - a.tags| || r == |a.tags + b.tags|
  {
    Min3(|a.tags + b.tags|, |a.tags - b.tags|, |b.tags - a.tags|)
  }

  lemma CompareSymmetric(a: Slide, b: Slide)
    ensures Compare(a, b) == Compare(b, a)
  {
  }

  /** Two slides with the same tags score 0. */
  lemma CompareSameTags(a: Slide, b: Slide)
    requires a.tags == b.tags
    ensures Compare(a, b) == 0
  {
    assert a.tags - b.tags == {};
  }

  /**
   The union term of the minimum never decides it: the score is the smaller
   of the two one-sided differences.
   */
  lemma CompareIsSmallerDifference(a: Slide, b: Slide)
    ensures Compare(a, b) == if |a.tags - b.tags| <= |b.tags - a.tags| then |a.tags - b.tags| else |b.tags - a.tags|
  {
    SubsetSize(a.tags - b.tags, a.tags + b.tags);
  }

  /** A pair scores above 0 exactly when neither tag set contains the other. */
  lemma ComparePositive(a: Slide, b: Slide)
    ensures Compare(a, b) > 0 <==> !(a.tags <= b.tags) && !(b.tags <= a.tags)
  {
    CompareIsSmallerDifference(a, b);
    if a.tags <= b.tags {
      assert a.tags - b.tags == {};
    } else {
      var x :| x in a.tags && x !in b.tags;
      assert x in a.tags - b.tags;
    }
    if b.tags <= a.tags {
      assert b.tags - a.tags == {};
    } else {
      var x :| x in b.tags && x !in a.tags;
      assert x in b.tags - a.tags;
    }
  }
  /**
   The score the commented-out loop above `Slide.compare` computed, and the
   one the name `union` in that loop evidently stood for: the minimum of the
   tags the slides SHARE and the two one-sided differences.
   */
  function SharedCompare(a: Slide, b: Slide): (r: int)
    ensures 0 <= r
    ensures r <= |a.tags * b.tags| && r <= |a.tags - b.tags| && r <= |b.tags - a.tags|
    ensures r == |a.tags * b.tags| || r == |a.tags - b.tags| || r == |b.tags - a.tags|
  {
    Min3(|a.tags * b.tags|, |a.tags - b.tags|, |b.tags - a.tags|)
  }

  /** With the shared term, a pair scores above 0 exactly when the slides share a tag and neither contains the other. */
  lemma SharedComparePositive(a: Slide, b: Slide)
    ensures SharedCompare(a, b) > 0 <==> a.tags * b.tags != {} && !(a.tags <= b.tags) && !(b.tags <= a.tags)
  {
    ComparePositive(a, b);
    CompareIsSmallerDifference(a, b);
    if a.tags * b.tags != {} {
      var x :| x in a.tags * b.tags;
      assert x in a.tags * b.tags;
    }
  }

  /**
   As written, two slides with no tag in common still score 1: the union term
   cannot stand in for the shared one.
   */
  lemma CompareScoresDisjointTags()
    ensures Compare(Slide([0], {"x"}), Slide([1], {"y"})) == 1
    ensures SharedCompare(Slide([0], {"x"}), Slide([1], {"y"})) == 0
  {
    var a := Slide([0], {"x"});
    var b := Slide([1], {"y"});
    assert a.tags - b.tags == {"x"} && b.tags - a.tags == {"y"};
    assert a.tags * b.tags == {};
    assert |a.tags + b.tags| == 2 by {
      assert a.tags + b.tags == {"x", "y"};
    }
  }
}
