/**
 The `Input` object of the slideshow solver: it parses the text of an input
 file into images and slides, then mutates its fields step by step as the
 heuristics run. The constructor, `MatchSlides`, `GenerateDictionary` and a
 `MatchVerticalSlides` that does not trap are proved to leave their fields
 equal to their module's function; `Sort` is proved to leave a permutation
 of the slides with non-increasing tag counts.
 */
module Solver {
  import opened Model
  import opened Parsing
  import opened Pairing
  import opened Sorting
  import opened Ordering
  import opened Interest

  class Input {
    var images: seq<Image>
    var horizontalImages: seq<Image>
    var verticalImages: map<int, Image>
    var slides: seq<Slide>
    var finalSlides: seq<Slide>
    var dictionary: Table

    /**
     `Input(contents)`: one image per line between the header and the final
     line; horizontal images become slides at once, vertical ones wait in
     `verticalImages` under their line index.
     */
    constructor (contents: string)
      requires WellFormed(contents)
      ensures images == ParsedImages(Lines(contents))
      ensures horizontalImages == Horizontals(images)
      ensures slides == HorizontalSlides(images)
      ensures verticalImages == VerticalImagesOf(images)
      ensures finalSlides == [] && dictionary == []
    {
      var lines := Lines(contents);
      var imgs: seq<Image> := [];
      var hs: seq<Image> := [];
      var vs: map<int, Image> := map[];
      var ss: seq<Slide> := [];
      for index := 0 to |lines|
        invariant ParsedUpTo(lines, index, imgs, hs, ss, vs)
      {
        var image := ParseImage(lines[index]).value;
        ParseStep(lines, index, imgs, hs, ss, vs);
        imgs := imgs + [image];
        if image.kind == Horizontal {
          hs := hs + [image];
          ss := ss + [Slide([index], image.tags)];
        } else {
          vs := vs[index := image];
        }
      }
      assert ParsedImages(lines)[..|lines|] == ParsedImages(lines);
      images := imgs;
      horizontalImages := hs;
      verticalImages := vs;
      slides := ss;
      finalSlides := [];
      dictionary := [];
    }

    /**
     `matchVerticalSlides`, with `order` the enumeration order of
     `verticalImages`. It returns false where `maxSlide!` traps; otherwise it
     appends exactly the slides of the pairing specification.
     */
    method MatchVerticalSlides(order: seq<int>) returns (ok: bool)
      requires IsOrderOf(order, verticalImages)
      modifies this`slides
      ensures ok == Pairs(verticalImages, order, |order|).Some?
      ensures ok ==> slides == old(slides) + Pairs(verticalImages, order, |order|).value.made
      ensures old(slides) <= slides
    {
      var vm := verticalImages;
      var matchedIndices: set<int> := {};
      if |vm| == 0 {
        PairsOfEmpty(order);
        return true;
      }
      ghost var start := slides;
      var made: seq<Slide> := [];
      var i := 0;
      while i < |order|
        invariant 0 <= i <= |order|
        invariant slides == start + made
        invariant Pairs(vm, order, i) == Some(Pairing(matchedIndices, made))
      {
        var index1 := order[i];
        var image1 := vm[index1];
        if index1 !in matchedIndices {
          var max, maxIndex, maxSlide := FindPartner(image1, index1, vm, order, matchedIndices);
          matchedIndices := matchedIndices + {index1} + {maxIndex};
          if maxSlide == None {
            PairsStaysNone(vm, order, i + 1, |order|);
            return false;
          }
          slides := slides + [maxSlide.value];
          made := made + [maxSlide.value];
        }
        i := i + 1;
      }
      ok := true;
    }

    /** `sort`: the same slides, reordered by decreasing number of tags. */
    method Sort()
      modifies this`slides
      ensures multiset(slides) == multiset(old(slides))
      ensures SortedByTagCount(slides)
    {
      var ss := slides;
      var sorted: seq<Slide> := [];
      for i := 0 to |ss|
        invariant multiset(sorted) == multiset(ss[..i])
        invariant SortedByTagCount(sorted)
      {
        assert ss[..i + 1] == ss[..i] + [ss[i]];
        InsertSorted(sorted, ss[i]);
        sorted := Insert(sorted, ss[i]);
      }
      assert ss[..|ss|] == ss;
      slides := sorted;
    }

    /**
     `matchSlides`: the greedy walk from slide 0, appended to `finalSlides`
     (which is not cleared first). `slides[0]` traps on no slides, hence the
     precondition.
     */
    method MatchSlides()
      requires |slides| > 0
      modifies this`finalSlides
      ensures finalSlides == old(finalSlides) + Route(slides)
    {
      var ss := slides;
      ghost var start := finalSlides;
      var matchedIndices: set<int> := {};
      var finalCount := |ss|;
      var matchedCount := 0;
      var currentIndex := 0;
      var slide := ss[currentIndex];
      finalSlides := finalSlides + [slide];
      matchedIndices := matchedIndices + {0};
      ghost var walk := Greedy(ss, 0);
      assert Visited(ss, 0) == [ss[0]];
      while matchedCount < finalCount - 1
        invariant 0 <= matchedCount <= finalCount - 1
        invariant walk == Greedy(ss, matchedCount)
        invariant walk.matched == matchedIndices && walk.current == currentIndex
        invariant 0 <= currentIndex < |ss| && slide == ss[currentIndex]
        invariant finalSlides == start + Visited(ss, matchedCount)
      {
        var max, maxIndex := FindNext(ss, currentIndex, slide, matchedIndices);
        AdvanceWalk(ss, matchedCount);
        AppendAssoc(start, Visited(ss, matchedCount), ss[maxIndex]);
        matchedCount := matchedCount + 1;
        slide := ss[maxIndex];
        finalSlides := finalSlides + [slide];
        currentIndex := maxIndex;
        matchedIndices := matchedIndices + {maxIndex};
        walk := Greedy(ss, matchedCount);
      }
    }

    /**
     `generateDictionary`: one list per slide index, then the triangular
     double loop, with the second entry of each pair filed under the offset
     into the suffix, as written.
     */
    method GenerateDictionary()
      modifies this`dictionary
      ensures dictionary == GeneratedTable(slides)
    {
      var ss := slides;
      var count := |ss|;
      var d: Table := [];
      for i := 0 to count
        invariant d == EmptyTable(i)
      {
        d := d + [[]];
      }
      for index1 := 0 to count
        invariant d == Rows(ss, index1, false)
      {
        var slide1 := ss[index1];
        ghost var before := d;
        for index2 := 0 to count - index1
          invariant d == Row(ss, before, index1, index2, false)
        {
          var slide2 := ss[index1 + index2];
          var interest := Compare(slide1, slide2);
          if interest > 0 {
            d := d[index1 := d[index1] + [SlideWithInterest(slide2, interest)]];
            d := d[index2 := d[index2] + [SlideWithInterest(slide1, interest)]];
          }
        }
      }
      dictionary := d;
    }
  }
}
