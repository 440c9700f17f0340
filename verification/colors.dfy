/** Colour classification: HSV pixels compared with inclusive per-channel
    ranges, one binary mask per colour and per cube side. */
module ColorsMapping {
  import opened Images
  import Results
  import Facelets

  /** An Emgu `Hsv` value: three doubles (hue, saturation, value). */
  datatype Hsv = Hsv(hue: real, sat: real, val: real)

  type HsvImage = seq<seq<Hsv>>

  /** The BGR-to-HSV conversion, whose float arithmetic is not modelled. */
  type ToHsv = BgrImage -> HsvImage

  /** Every channel lies in its inclusive range. */
  predicate IsInRange(color: Hsv, lower: Hsv, upper: Hsv) {
    && color.hue >= lower.hue && color.hue <= upper.hue
    && color.sat >= lower.sat && color.sat <= upper.sat
    && color.val >= lower.val && color.val <= upper.val
  }

  /** 255 where the pixel is in range, 0 elsewhere, sized like the input. */
  function ApplyColorThresholding(img: HsvImage, lower: Hsv, upper: Hsv): (mask: Grid)
    requires IsRect(img)
    ensures HasShape(mask, Width(img), Height(img)) && IsBinary(mask)
    ensures forall y, x :: 0 <= y < Height(img) && 0 <= x < Width(img) ==>
      (mask[y][x] == 255 <==> IsInRange(img[y][x], lower, upper))
  {
    seq(Height(img), y requires 0 <= y < Height(img) => seq(Width(img), x requires 0 <= x < Width(img) =>
      if IsInRange(img[y][x], lower, upper) then 255 else 0))
  }

  /** The hue-only variant: saturation and value are not looked at. */
  function ApplyHueThresholding(img: HsvImage, lowerHue: real, upperHue: real): (mask: Grid)
    requires IsRect(img)
    ensures HasShape(mask, Width(img), Height(img)) && IsBinary(mask)
    ensures forall y, x :: 0 <= y < Height(img) && 0 <= x < Width(img) ==>
      (mask[y][x] == 255 <==> lowerHue <= img[y][x].hue <= upperHue)
  {
    seq(Height(img), y requires 0 <= y < Height(img) => seq(Width(img), x requires 0 <= x < Width(img) =>
      if img[y][x].hue >= lowerHue && img[y][x].hue <= upperHue then 255 else 0))
  }

  /** Saturation and value of a byte image lie in [0, 255]. */
  predicate ByteChannels(img: HsvImage) {
    forall y, x :: 0 <= y < |img| && 0 <= x < |img[y]| ==>
      0.0 <= img[y][x].sat <= 255.0 && 0.0 <= img[y][x].val <= 255.0
  }

  /** On a byte image, hue thresholding is colour thresholding with the full
      [0, 255] range on saturation and value. */
  lemma HueThresholdingIsFullRange(img: HsvImage, lowerHue: real, upperHue: real)
    requires IsRect(img) && ByteChannels(img)
    ensures ApplyHueThresholding(img, lowerHue, upperHue)
         == ApplyColorThresholding(img, Hsv(lowerHue, 0.0, 0.0), Hsv(upperHue, 255.0, 255.0))
  {
    var a := ApplyHueThresholding(img, lowerHue, upperHue);
    var b := ApplyColorThresholding(img, Hsv(lowerHue, 0.0, 0.0), Hsv(upperHue, 255.0, 255.0));
    forall y | 0 <= y < Height(img) ensures a[y] == b[y] {
      assert forall x :: 0 <= x < Width(img) ==> a[y][x] == b[y][x];
    }
    assert a == b;
  }

  /** `wide` contains `narrow` on every channel. */
  predicate Contains(wideLower: Hsv, wideUpper: Hsv, lower: Hsv, upper: Hsv) {
    && wideLower.hue <= lower.hue && wideLower.sat <= lower.sat && wideLower.val <= lower.val
    && upper.hue <= wideUpper.hue && upper.sat <= wideUpper.sat && upper.val <= wideUpper.val
  }

  /** Widening a range never turns a 255 pixel into a 0 pixel. */
  lemma WideningKeepsPixels(img: HsvImage, lower: Hsv, upper: Hsv, wideLower: Hsv, wideUpper: Hsv)
    requires IsRect(img) && Contains(wideLower, wideUpper, lower, upper)
    ensures var narrow, wide := ApplyColorThresholding(img, lower, upper), ApplyColorThresholding(img, wideLower, wideUpper);
      forall y, x :: 0 <= y < Height(img) && 0 <= x < Width(img) && narrow[y][x] == 255 ==> wide[y][x] == 255
  {
  }

  /** A range whose lower bound exceeds its upper bound on some channel is empty. */
  predicate Inverted(lower: Hsv, upper: Hsv) {
    lower.hue > upper.hue || lower.sat > upper.sat || lower.val > upper.val
  }

  lemma InvertedRangeIsBlank(img: HsvImage, lower: Hsv, upper: Hsv)
    requires IsRect(img) && Inverted(lower, upper)
    ensures var mask := ApplyColorThresholding(img, lower, upper);
      forall y, x :: 0 <= y < Height(img) && 0 <= x < Width(img) ==> mask[y][x] == 0
  {
  }

  /** For every side, one mask per colour range, each computed from the
      side's HSV conversion. */
  function ApplyColorThresholdingToAllSides(sides: map<string, BgrImage>, ranges: map<string, (Hsv, Hsv)>, toHsv: ToHsv)
    : (r: map<string, map<string, Grid>>)
    requires forall s :: s in sides ==> IsRect(toHsv(sides[s]))
    ensures r.Keys == sides.Keys
    ensures forall s :: s in r ==> r[s].Keys == ranges.Keys
  {
    map s | s in sides :: map c | c in ranges :: ApplyColorThresholding(toHsv(sides[s]), ranges[c].0, ranges[c].1)
  }

  /** The mask of colour `c` on side `s` is 255 exactly at the pixels whose
      converted colour lies in the range of `c`. */
  lemma AllSidesMasks(sides: map<string, BgrImage>, ranges: map<string, (Hsv, Hsv)>, toHsv: ToHsv, s: string, c: string)
    requires forall s :: s in sides ==> IsRect(toHsv(sides[s]))
    requires s in sides && c in ranges
    ensures var hsv := toHsv(sides[s]);
      var mask := ApplyColorThresholdingToAllSides(sides, ranges, toHsv)[s][c];
      && HasShape(mask, Width(hsv), Height(hsv)) && IsBinary(mask)
      && forall y, x :: 0 <= y < Height(hsv) && 0 <= x < Width(hsv) ==>
           (mask[y][x] == 255 <==> IsInRange(hsv[y][x], ranges[c].0, ranges[c].1))
  {
  }

  // ---------------------------------------------------------------------------
  // The colour table of the pipeline
  // ---------------------------------------------------------------------------

  function H(h: int, s: int, v: int): Hsv {
    Hsv(h as real, s as real, v as real)
  }

  /** The seven ranges the pipeline thresholds with; red wraps around the hue
      circle and has two ranges. */
  const ColorHsvRanges: map<string, (Hsv, Hsv)> := map[
    "Red1"   := (H(0, 50, 50),   H(3, 255, 255)),
    "Orange" := (H(5, 50, 50),   H(20, 255, 255)),
    "Yellow" := (H(20, 50, 50),  H(35, 255, 255)),
    "Green"  := (H(40, 50, 50),  H(75, 255, 255)),
    "Blue"   := (H(100, 50, 50), H(130, 255, 255)),
    "Red2"   := (H(160, 50, 50), H(180, 255, 255)),
    "White"  := (H(0, 0, 80),    H(180, 30, 255))
  ]

  /** The orange and yellow ranges share hue 20, so a pixel can be in both masks. */
  lemma OrangeYellowOverlap()
    ensures IsInRange(H(20, 100, 100), ColorHsvRanges["Orange"].0, ColorHsvRanges["Orange"].1)
    ensures IsInRange(H(20, 100, 100), ColorHsvRanges["Yellow"].0, ColorHsvRanges["Yellow"].1)
  {
  }

  /** White needs saturation at most 30 and every other colour at least 50,
      so no pixel is both white and coloured. */
  lemma WhiteIsDisjoint(color: Hsv, c: string)
    requires c in ColorHsvRanges && c != "White"
    ensures !(IsInRange(color, ColorHsvRanges["White"].0, ColorHsvRanges["White"].1)
              && IsInRange(color, ColorHsvRanges[c].0, ColorHsvRanges[c].1))
  {
  }

  lemma DotFreeKeys(c: string)
    requires c in ColorHsvRanges
    ensures '.' !in c && |c| > 0
  {
    assert c in {"Red1", "Orange", "Yellow", "Green", "Blue", "Red2", "White"};
  }

  /** Each mask is saved as `<colour>.png`, which the face encoder reads as an
      image and whose letter is the colour's initial; both red ranges give 'R'. */
  lemma MaskFileLetters(c: string)
    requires c in ColorHsvRanges
    ensures Facelets.IsImageFile(c + ".png")
    ensures |c| > 0 && Facelets.MaskLetter(c + ".png") == Results.Ok([c[0]])
    ensures c == "Red1" || c == "Red2" ==> Facelets.MaskLetter(c + ".png") == Results.Ok("R")
  {
    DotFreeKeys(c);
    Facelets.PngMaskFile(c);
  }
}
