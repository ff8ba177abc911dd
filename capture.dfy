/**
 * The page-to-slides capture tool: the page is grown to a whole number of 1920x1080
 * viewports, cut into one screenshot per viewport from the top down, and each
 * screenshot becomes one full-size slide of a 16:9 deck, in order. The browser, the
 * file system and the deck writer are outside the model; the page's scroll height is
 * an input.
 */
module Capture {
  import opened Strings

  const ViewWidth: nat := 1920
  const ViewHeight: nat := 1080
  /** The wide layout's slide size, in inches. */
  const SlideWidth: real := 13.333
  const SlideHeight: real := 7.5

  /** `Math.ceil(a / b)` for a natural `a` and positive `b`. */
  function CeilDiv(a: nat, b: nat): (q: nat)
    requires b > 0
    ensures q * b >= a && (q == 0 || (q - 1) * b < a)
  {
    (a + b - 1) / b
  }

  /** The page height rounded up to a whole number of viewports. */
  function TotalHeight(fullHeight: nat): (total: nat)
    ensures total % ViewHeight == 0
    ensures fullHeight <= total < fullHeight + ViewHeight
  {
    CeilDiv(fullHeight, ViewHeight) * ViewHeight
  }

  /** The rounded height is the least whole number of viewports that holds the page. */
  lemma {:induction false} TotalHeightLeast(fullHeight: nat, m: nat)
    requires m % ViewHeight == 0 && m >= fullHeight
    ensures TotalHeight(fullHeight) <= m
  {
    var total := TotalHeight(fullHeight);
    var q, r := total / ViewHeight, m / ViewHeight;
    assert total == q * ViewHeight && m == r * ViewHeight;
    assert q * ViewHeight < (r + 1) * ViewHeight;
    assert q <= r;
  }

  /** A page already a whole number of viewports tall is left as it is; rounding twice is rounding once. */
  lemma {:induction false} TotalHeightIdempotent(fullHeight: nat)
    ensures fullHeight % ViewHeight == 0 ==> TotalHeight(fullHeight) == fullHeight
    ensures TotalHeight(TotalHeight(fullHeight)) == TotalHeight(fullHeight)
  {
    if fullHeight % ViewHeight == 0 {
      TotalHeightLeast(fullHeight, fullHeight);
    }
    var t := TotalHeight(fullHeight);
    TotalHeightLeast(t, t);
  }

  /** `Math.ceil(totalHeight / VIEW_H)`: exactly the viewports the rounded page holds. */
  function Segments(totalHeight: nat): (segments: nat)
    ensures segments * ViewHeight >= totalHeight
  {
    CeilDiv(totalHeight, ViewHeight)
  }

  /** For a rounded page the segments cover it exactly: one per started viewport of the page. */
  lemma {:induction false} SegmentsFill(fullHeight: nat)
    ensures Segments(TotalHeight(fullHeight)) * ViewHeight == TotalHeight(fullHeight)
    ensures Segments(TotalHeight(fullHeight)) == CeilDiv(fullHeight, ViewHeight)
  {
    var q := CeilDiv(fullHeight, ViewHeight);
    assert TotalHeight(fullHeight) == q * ViewHeight;
    assert (q * ViewHeight + ViewHeight - 1) / ViewHeight == q;
  }

  /** The screenshot region: `{ x, y, width, height }` in page pixels. */
  datatype Clip = Clip(x: int, y: int, width: int, height: int)

  /** The region of the `i`-th screenshot, counting from 0. */
  function ClipAt(i: nat): (c: Clip) {
    Clip(0, i * ViewHeight, ViewWidth, ViewHeight)
  }

  /** Consecutive clips meet: clip `i` ends on the row where clip `i + 1` begins. */
  lemma ClipsContiguous(i: nat)
    ensures ClipAt(i).y + ClipAt(i).height == ClipAt(i + 1).y
  {
  }

  /** Pixel row `y` of the page lies in the clip. */
  predicate RowIn(c: Clip, y: int) {
    c.y <= y < c.y + c.height
  }

  /**
   * The clips tile the page: every row of the rounded page lies in exactly one clip,
   * the one numbered `y / 1080`.
   */
  lemma {:induction false} ClipsTile(segments: nat, y: int)
    requires 0 <= y < segments * ViewHeight
    ensures y / ViewHeight < segments && RowIn(ClipAt(y / ViewHeight), y)
    ensures forall i: nat :: i < segments && RowIn(ClipAt(i), y) ==> i == y / ViewHeight
  {
    var j := y / ViewHeight;
    assert y == j * ViewHeight + y % ViewHeight;
  }

  /** The last clip ends exactly where the rounded page ends. */
  lemma {:induction false} LastClipEndsPage(fullHeight: nat)
    requires Segments(TotalHeight(fullHeight)) > 0
    ensures var last := ClipAt(Segments(TotalHeight(fullHeight)) - 1);
            last.y + last.height == TotalHeight(fullHeight)
  {
    SegmentsFill(fullHeight);
  }

  /** `cap_${String(n).padStart(2, "0")}.png`. */
  function CapName(n: nat): (name: string) {
    "cap_" + PadStart(NatToDecimal(n), 2, '0') + ".png"
  }

  /** The number part of a capture name: decimal digits whose value is `n`. */
  lemma {:induction false} PaddedValue(n: nat)
    ensures var d := PadStart(NatToDecimal(n), 2, '0');
            (forall k :: 0 <= k < |d| ==> IsDigit(d[k])) && DecimalValue(d) == n
  {
    var s := NatToDecimal(n);
    var d := PadStart(s, 2, '0');
    DecimalRoundTrip(n);
    LeadingZeros(|d| - |s|, s);
  }

  /** Captures 1 to 99 are numbered with exactly two digits. */
  lemma {:induction false} CapNameTwoDigits(n: nat)
    requires n < 100
    ensures |PadStart(NatToDecimal(n), 2, '0')| == 2
  {
    if n >= 10 {
      assert NatToDecimal(n) == NatToDecimal(n / 10) + NatToDecimal(n % 10);
    }
  }

  /** Different capture numbers give different file names, so no screenshot overwrites another. */
  lemma {:induction false} CapNameInjective(m: nat, n: nat)
    requires CapName(m) == CapName(n)
    ensures m == n
  {
    var a, b := PadStart(NatToDecimal(m), 2, '0'), PadStart(NatToDecimal(n), 2, '0');
    var ca, cb := CapName(m), CapName(n);
    assert |a| == |b| by {
      assert |ca| == 8 + |a| && |cb| == 8 + |b|;
    }
    assert a == ca[4..|ca| - 4];
    assert b == cb[4..|cb| - 4];
    PaddedValue(m);
    PaddedValue(n);
  }

  /**
   * The screenshot loop: screenshot `i` (from 0) covers viewport `i` and is saved as
   * capture `i + 1`; `capPaths` lists the files in the order taken.
   */
  method CaptureAll(segments: nat) returns (clips: seq<Clip>, capPaths: seq<string>)
    ensures |clips| == segments && |capPaths| == segments
    ensures forall i :: 0 <= i < segments ==> clips[i] == ClipAt(i) && capPaths[i] == CapName(i + 1)
  {
    clips, capPaths := [], [];
    for i := 0 to segments
      invariant |clips| == i && |capPaths| == i
      invariant forall k :: 0 <= k < i ==> clips[k] == ClipAt(k)
      invariant forall k :: 0 <= k < i ==> capPaths[k] == CapName(k + 1)
    {
      var y := i * ViewHeight;
      var capPath := CapName(i + 1);
      clips := clips + [Clip(0, y, ViewWidth, ViewHeight)];
      capPaths := capPaths + [capPath];
    }
  }

  /** The files written by one run are pairwise distinct. */
  lemma CapPathsDistinct(capPaths: seq<string>)
    requires forall i :: 0 <= i < |capPaths| ==> capPaths[i] == CapName(i + 1)
    ensures forall i, j :: 0 <= i < j < |capPaths| ==> capPaths[i] != capPaths[j]
  {
    forall i, j | 0 <= i < j < |capPaths| ensures capPaths[i] != capPaths[j] {
      if capPaths[i] == capPaths[j] {
        CapNameInjective(i + 1, j + 1);
      }
    }
  }

  /** `slide.addImage(...)`: the picture file and its placement, in inches. */
  datatype Picture = Picture(path: string, x: real, y: real, w: real, h: real)

  datatype Slide = Slide(picture: Picture)

  /** One slide per capture, in the order taken, each picture filling the slide. */
  method BuildSlides(capPaths: seq<string>) returns (slides: seq<Slide>)
    ensures |slides| == |capPaths|
    ensures forall i :: 0 <= i < |slides| ==>
              slides[i].picture == Picture(capPaths[i], 0.0, 0.0, SlideWidth, SlideHeight)
  {
    slides := [];
    for i := 0 to |capPaths|
      invariant |slides| == i
      invariant forall k :: 0 <= k < i ==>
                  slides[k].picture == Picture(capPaths[k], 0.0, 0.0, SlideWidth, SlideHeight)
    {
      slides := slides + [Slide(Picture(capPaths[i], 0.0, 0.0, SlideWidth, SlideHeight))];
    }
  }

  /**
   * A whole run for a page `fullHeight` pixels tall: `ceil(fullHeight / 1080)` slides,
   * slide `i` showing the capture of viewport `i`.
   */
  method Run(fullHeight: nat) returns (clips: seq<Clip>, slides: seq<Slide>)
    ensures |slides| == |clips| == CeilDiv(fullHeight, ViewHeight)
    ensures forall i :: 0 <= i < |slides| ==>
              clips[i] == ClipAt(i) && slides[i].picture.path == CapName(i + 1)
    ensures forall i, j :: 0 <= i < j < |slides| ==> slides[i].picture.path != slides[j].picture.path
  {
    var totalHeight := TotalHeight(fullHeight);
    var segments := Segments(totalHeight);
    SegmentsFill(fullHeight);
    var capPaths;
    clips, capPaths := CaptureAll(segments);
    CapPathsDistinct(capPaths);
    slides := BuildSlides(capPaths);
  }
}
