/**
 What `Input.init` builds from the text of an input file: the header line and
 the final line are dropped, each remaining line becomes an image, each
 horizontal image immediately becomes a one-image slide, and each vertical
 image is stored under its line index (counted from the first image line).
 */
module Parsing {
  import opened Text
  import opened Model

  /** `contents.components(separatedBy: "\n").dropFirst().dropLast()` */
  function Lines(contents: string): (r: seq<string>)
    ensures |r| == if |Split(contents, '\n')| >= 2 then |Split(contents, '\n')| - 2 else 0
    ensures forall i :: 0 <= i < |r| ==> r[i] == Split(contents, '\n')[i + 1] && '\n' !in r[i]
  {
    var all := Split(contents, '\n');
    if |all| >= 2 then all[1..|all| - 1] else []
  }

  /** Every image line has at least two tokens, so that no line makes `Image(line:)` trap. */
  predicate WellFormed(contents: string)
  {
    forall i :: 0 <= i < |Lines(contents)| ==> ParseImage(Lines(contents)[i]).Some?
  }

  /** `images`: one image per line, in line order. */
  function ParsedImages(lines: seq<string>): (r: seq<Image>)
    requires forall i :: 0 <= i < |lines| ==> ParseImage(lines[i]).Some?
    ensures |r| == |lines|
  {
    seq(|lines|, i requires 0 <= i < |lines| => ParseImage(lines[i]).value)
  }

  /**
   `slides` after parsing: for every horizontal image, in line order, the
   slide `[index]` with that image's tags.
   */
  function HorizontalSlides(images: seq<Image>): (r: seq<Slide>)
    ensures |r| <= |images|
    ensures forall k :: 0 <= k < |r| ==>
      && |r[k].imagesID| == 1 && 0 <= r[k].imagesID[0] < |images|
      && images[r[k].imagesID[0]].kind == Horizontal
      && r[k].tags == images[r[k].imagesID[0]].tags
    ensures forall k, l :: 0 <= k < l < |r| ==> r[k].imagesID[0] < r[l].imagesID[0]
  {
    if images == [] then []
    else
      var n := |images| - 1;
      var prev := HorizontalSlides(images[..n]);
      assert forall j :: 0 <= j < n ==> images[..n][j] == images[j];
      prev + (if images[n].kind == Horizontal then [Slide([n], images[n].tags)] else [])
  }

  /** `horizontalImages`: the horizontal images, in line order. */
  function Horizontals(images: seq<Image>): (r: seq<Image>)
    ensures |r| == |HorizontalSlides(images)|
    ensures forall k :: 0 <= k < |r| ==> r[k].kind == Horizontal && r[k].tags == HorizontalSlides(images)[k].tags
  {
    if images == [] then []
    else
      var n := |images| - 1;
      Horizontals(images[..n]) + (if images[n].kind == Horizontal then [images[n]] else [])
  }

  /** `verticalImages`: each vertical image under its line index. */
  function VerticalImagesOf(images: seq<Image>): (r: map<int, Image>)
    ensures forall j :: j in r <==> 0 <= j < |images| && images[j].kind == Vertical
    ensures forall j :: j in r ==> r[j] == images[j]
  {
    if images == [] then map[]
    else
      var n := |images| - 1;
      var prev := VerticalImagesOf(images[..n]);
      if images[n].kind == Vertical then prev[n := images[n]] else prev
  }

  /** The state of the parsing loop after its first `index` lines. */
  ghost predicate ParsedUpTo(lines: seq<string>, index: nat, images: seq<Image>, hs: seq<Image>, ss: seq<Slide>, vs: map<int, Image>)
    requires forall i :: 0 <= i < |lines| ==> ParseImage(lines[i]).Some?
    requires index <= |lines|
  {
    && images == ParsedImages(lines)[..index]
    && hs == Horizontals(images)
    && ss == HorizontalSlides(images)
    && vs == VerticalImagesOf(images)
  }

  /** Parsing one more line extends the images by that line's image, and each derived result by that image alone. */
  lemma ParseStep(lines: seq<string>, index: nat, images: seq<Image>, hs: seq<Image>, ss: seq<Slide>, vs: map<int, Image>)
    requires forall i :: 0 <= i < |lines| ==> ParseImage(lines[i]).Some?
    requires index < |lines| && ParsedUpTo(lines, index, images, hs, ss, vs)
    ensures var image := ParseImage(lines[index]).value;
      if image.kind == Horizontal
      then ParsedUpTo(lines, index + 1, images + [image], hs + [image], ss + [Slide([index], image.tags)], vs)
      else ParsedUpTo(lines, index + 1, images + [image], hs, ss, vs[index := image])
  {
    var image := ParseImage(lines[index]).value;
    assert ParsedImages(lines)[..index + 1] == images + [image];
    HorizontalsStep(images, image);
    HorizontalSlidesStep(images, image);
    VerticalImagesStep(images, image);
  }

  /** Parsing one more line extends each of the three results by that line's image alone. */
  lemma HorizontalsStep(images: seq<Image>, image: Image)
    ensures Horizontals(images + [image]) == Horizontals(images) + (if image.kind == Horizontal then [image] else [])
  {
    assert (images + [image])[..|images|] == images;
  }

  lemma HorizontalSlidesStep(images: seq<Image>, image: Image)
    ensures HorizontalSlides(images + [image])
         == HorizontalSlides(images) + (if image.kind == Horizontal then [Slide([|images|], image.tags)] else [])
  {
    assert (images + [image])[..|images|] == images;
  }

  lemma VerticalImagesStep(images: seq<Image>, image: Image)
    ensures VerticalImagesOf(images + [image])
         == if image.kind == Vertical then VerticalImagesOf(images)[|images| := image] else VerticalImagesOf(images)
  {
    assert (images + [image])[..|images|] == images;
  }

  /** Every horizontal image has its slide: the horizontal line indices are exactly the slide ids. */
  lemma {:induction false} HorizontalSlidesComplete(images: seq<Image>, j: nat)
    requires j < |images| && images[j].kind == Horizontal
    ensures exists k :: 0 <= k < |HorizontalSlides(images)| && HorizontalSlides(images)[k].imagesID == [j]
  {
    var n := |images| - 1;
    var prev := HorizontalSlides(images[..n]);
    if j < n {
      HorizontalSlidesComplete(images[..n], j);
      var k :| 0 <= k < |prev| && prev[k].imagesID == [j];
      assert HorizontalSlides(images)[k] == prev[k];
    } else {
      assert HorizontalSlides(images)[|prev|] == Slide([n], images[n].tags);
    }
  }

  /** Every image is either a slide of its own or a vertical image waiting for a partner. */
  lemma {:induction false} ImagesArePartitioned(images: seq<Image>)
    ensures |HorizontalSlides(images)| + |VerticalImagesOf(images)| == |images|
  {
    if images != [] {
      var n := |images| - 1;
      ImagesArePartitioned(images[..n]);
      var prev := VerticalImagesOf(images[..n]);
      assert n !in prev;
      if images[n].kind == Vertical {
        assert VerticalImagesOf(images).Keys == prev.Keys + {n};
      } else {
        assert VerticalImagesOf(images) == prev;
      }
    }
  }

  /**
   The image lines of a file are exactly the lines between the header and
   the final line (usually the empty piece after the last newline).
   */
  lemma LinesOfFile(header: string, lines: seq<string>, last: string)
    requires '\n' !in header && '\n' !in last
    requires forall i :: 0 <= i < |lines| ==> '\n' !in lines[i]
    ensures Lines(Join([header] + lines + [last], '\n')) == lines
  {
    var parts := [header] + lines + [last];
    forall i | 0 <= i < |parts| ensures '\n' !in parts[i] {
      if 0 < i < |parts| - 1 {
        assert parts[i] == lines[i - 1];
      }
    }
    SplitJoin(parts, '\n');
    assert Split(Join(parts, '\n'), '\n') == parts;
    assert parts[1..|parts| - 1] == lines;
  }
}
