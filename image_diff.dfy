/** getImagesDiffPercent: how different two images of the same size and mode
    are, as the mean absolute channel difference over the pixels every mask
    keeps, relative to the largest possible difference 255. Images are their
    pixel lists in getdata() order; masks are their grayscale ("L") levels.
    The quotient is exact real arithmetic. */
module ImageDiff {
  import opened Wrappers
  import opened Numeric

  /** An image mode: its name and how many channels ("bands") a pixel has. */
  datatype Mode = Mode(name: string, bands: nat)

  datatype Image = Image(width: nat, height: nat, mode: Mode, pixels: seq<seq<int>>)

  /** A mask after conversion to grayscale: one level per pixel. */
  datatype Mask = Mask(width: nat, height: nat, levels: seq<int>)

  datatype DiffError =
    | SizeMismatch      // "Images sizes must be the same"
    | ModeMismatch      // "Image modes must be the same"
    | MaskSizeMismatch  // "Images and all masks sizes must be the same"
    | NoPixels          // pixels1[0] on an image without pixels
    | NotATuple         // len() of a single-band pixel, which is a plain int
    | ZeroDivision      // no pixel is kept by every mask

  /** What every image of the library satisfies: one pixel per position, one
      value per channel, at least one channel. */
  predicate WellFormedImage(im: Image) {
    im.mode.bands >= 1 && |im.pixels| == im.width * im.height &&
    forall i :: 0 <= i < |im.pixels| ==> |im.pixels[i]| == im.mode.bands
  }

  predicate WellFormedMask(m: Mask) {
    |m.levels| == m.width * m.height
  }

  predicate WellFormedMasks(masks: seq<Mask>) {
    forall k :: 0 <= k < |masks| ==> WellFormedMask(masks[k])
  }

  predicate SameSize(m: Mask, im: Image) {
    m.width == im.width && m.height == im.height
  }

  predicate MasksFit(masks: seq<Mask>, im: Image) {
    forall k :: 0 <= k < |masks| ==> SameSize(masks[k], im)
  }

  /** The pixel at index i is counted: every mask is nonzero there. */
  predicate Active(masks: seq<Mask>, i: nat)
    requires forall k :: 0 <= k < |masks| ==> i < |masks[k].levels|
  {
    forall k :: 0 <= k < |masks| ==> masks[k].levels[i] != 0
  }

  /** The number of counted pixels among the first n. */
  function ActiveCount(masks: seq<Mask>, n: nat): nat
    requires forall k :: 0 <= k < |masks| ==> n <= |masks[k].levels|
  {
    if n == 0 then 0 else ActiveCount(masks, n - 1) + (if Active(masks, n - 1) then 1 else 0)
  }

  /** The summed absolute difference of the first `bands` channels of two pixels. */
  function PixelDiff(p: seq<int>, q: seq<int>, bands: nat): nat
    requires bands <= |p| && bands <= |q|
  {
    if bands == 0 then 0 else PixelDiff(p, q, bands - 1) + Abs(p[bands - 1] - q[bands - 1])
  }

  /** The summed channel differences over the counted pixels among the first n. */
  function TotalDiff(a: Image, b: Image, masks: seq<Mask>, n: nat): nat
    requires WellFormedImage(a) && WellFormedImage(b) && a.mode == b.mode
    requires n <= |a.pixels| && n <= |b.pixels|
    requires forall k :: 0 <= k < |masks| ==> n <= |masks[k].levels|
  {
    if n == 0 then 0
    else TotalDiff(a, b, masks, n - 1) + (if Active(masks, n - 1) then PixelDiff(a.pixels[n - 1], b.pixels[n - 1], a.mode.bands) else 0)
  }

  /** The checks in the order the function makes them, up to the point where
      the pixels are read. */
  function Precheck(a: Image, b: Image, masks: seq<Mask>): Option<DiffError> {
    if (a.width, a.height) != (b.width, b.height) then Some(SizeMismatch)
    else if a.mode != b.mode then Some(ModeMismatch)
    else if !MasksFit(masks, a) then Some(MaskSizeMismatch)
    else if |a.pixels| == 0 then Some(NoPixels)
    else None
  }

  /** The result, the number of channels taken from the image's mode. */
  function DiffPercentOf(a: Image, b: Image, masks: seq<Mask>): Result<real, DiffError>
    requires WellFormedImage(a) && WellFormedImage(b) && WellFormedMasks(masks)
  {
    if Precheck(a, b, masks).Some? then Err(Precheck(a, b, masks).value)
    else
      var n := |a.pixels|;
      var active := ActiveCount(masks, n);
      if active == 0 then Err(ZeroDivision)
      else Ok(TotalDiff(a, b, masks, n) as real / (active * a.mode.bands * 255) as real)
  }

  /** The result as the code is written: the number of channels is the length
      of the first pixel, and a single-band image's pixels are plain ints. */
  function DiffPercentAsWritten(a: Image, b: Image, masks: seq<Mask>): Result<real, DiffError>
    requires WellFormedImage(a) && WellFormedImage(b) && WellFormedMasks(masks)
  {
    if Precheck(a, b, masks).Some? then Err(Precheck(a, b, masks).value)
    else if a.mode.bands == 1 then Err(NotATuple)
    else DiffPercentOf(a, b, masks)
  }

  /** Two one-pixel grayscale images: as written the comparison fails, where
      the intended result is 0. */
  lemma SingleBandCounterexample()
    ensures var im := Image(1, 1, Mode("L", 1), [[0]]);
      DiffPercentAsWritten(im, im, []) == Err(NotATuple) && DiffPercentOf(im, im, []) == Ok(0.0)
  {
    var im := Image(1, 1, Mode("L", 1), [[0]]);
    assert ActiveCount([], 1) == 1;
    assert PixelDiff([0], [0], 1) == 0;
    assert TotalDiff(im, im, [], 1) == 0;
  }

  /** Every image with two or more channels gets the same answer from both. */
  lemma AsWrittenAgreesOnMultiBand(a: Image, b: Image, masks: seq<Mask>)
    requires WellFormedImage(a) && WellFormedImage(b) && WellFormedMasks(masks)
    requires a.mode.bands >= 2
    ensures DiffPercentAsWritten(a, b, masks) == DiffPercentOf(a, b, masks)
  {
  }

  /** The function fails exactly when the sizes differ, the modes differ, a
      mask's size differs from the first image's, the images are empty, or
      the masks together keep no pixel; the checks come in that order. */
  lemma DiffPercentErrors(a: Image, b: Image, masks: seq<Mask>)
    requires WellFormedImage(a) && WellFormedImage(b) && WellFormedMasks(masks)
    ensures var r := DiffPercentOf(a, b, masks);
      (r == Err(SizeMismatch) <==> a.width != b.width || a.height != b.height) &&
      (r == Err(ModeMismatch) <==> a.width == b.width && a.height == b.height && a.mode != b.mode) &&
      (r == Err(MaskSizeMismatch) <==>
        (a.width == b.width && a.height == b.height && a.mode == b.mode &&
         exists k :: 0 <= k < |masks| && !SameSize(masks[k], a))) &&
      (r == Err(NoPixels) <==>
        (a.width == b.width && a.height == b.height && a.mode == b.mode && MasksFit(masks, a) &&
         a.width * a.height == 0)) &&
      (r == Err(ZeroDivision) <==>
        (a.width == b.width && a.height == b.height && a.mode == b.mode && MasksFit(masks, a) &&
         a.width * a.height > 0 && ActiveCount(masks, |a.pixels|) == 0)) &&
      r != Err(NotATuple)
  {
  }

  /** With no masks every pixel counts. */
  lemma {:induction false} NoMasksCountAll(n: nat)
    ensures ActiveCount([], n) == n
  {
    if n > 0 {
      NoMasksCountAll(n - 1);
    }
  }

  /** A mask that is zero everywhere leaves no pixel to count. */
  lemma {:induction false} BlankMaskCountsNone(masks: seq<Mask>, k: nat, n: nat)
    requires k < |masks| && forall j :: 0 <= j < |masks| ==> n <= |masks[j].levels|
    requires forall i :: 0 <= i < n ==> masks[k].levels[i] == 0
    ensures ActiveCount(masks, n) == 0
  {
    if n > 0 {
      BlankMaskCountsNone(masks, k, n - 1);
      assert masks[k].levels[n - 1] == 0;
      assert !Active(masks, n - 1);
    }
  }

  /** When one mask is zero everywhere and the checks pass, the final
      division fails. */
  lemma BlankMaskFails(a: Image, b: Image, masks: seq<Mask>, k: nat)
    requires WellFormedImage(a) && WellFormedImage(b) && WellFormedMasks(masks)
    requires Precheck(a, b, masks).None?
    requires k < |masks| && forall i :: 0 <= i < |masks[k].levels| ==> masks[k].levels[i] == 0
    ensures DiffPercentOf(a, b, masks) == Err(ZeroDivision)
  {
    BlankMaskCountsNone(masks, k, |a.pixels|);
  }

  /** Without masks every pixel counts, so the denominator is the number of
      pixels times the number of channels times 255. */
  lemma NoMasksAverage(a: Image, b: Image)
    requires WellFormedImage(a) && WellFormedImage(b) && Precheck(a, b, []).None?
    ensures DiffPercentOf(a, b, []) ==
      Ok(TotalDiff(a, b, [], |a.pixels|) as real / (a.width * a.height * a.mode.bands * 255) as real)
  {
    NoMasksCountAll(|a.pixels|);
  }

  /** Comparing an image with itself adds up no difference. */
  lemma {:induction false} SelfDiffZero(a: Image, masks: seq<Mask>, n: nat)
    requires WellFormedImage(a) && n <= |a.pixels|
    requires forall k :: 0 <= k < |masks| ==> n <= |masks[k].levels|
    ensures TotalDiff(a, a, masks, n) == 0
  {
    if n > 0 {
      SelfDiffZero(a, masks, n - 1);
      PixelDiffSelf(a.pixels[n - 1], a.mode.bands);
    }
  }

  lemma {:induction false} PixelDiffSelf(p: seq<int>, bands: nat)
    requires bands <= |p|
    ensures PixelDiff(p, p, bands) == 0
  {
    if bands > 0 {
      PixelDiffSelf(p, bands - 1);
    }
  }

  /** An image compared with itself differs by 0 whenever the comparison succeeds. */
  lemma DiffWithItself(a: Image, masks: seq<Mask>)
    requires WellFormedImage(a) && WellFormedMasks(masks)
    ensures DiffPercentOf(a, a, masks).Ok? ==> DiffPercentOf(a, a, masks).value == 0.0
  {
    if Precheck(a, a, masks).None? {
      SelfDiffZero(a, masks, |a.pixels|);
    }
  }

  lemma {:induction false} PixelDiffSymmetric(p: seq<int>, q: seq<int>, bands: nat)
    requires bands <= |p| && bands <= |q|
    ensures PixelDiff(p, q, bands) == PixelDiff(q, p, bands)
  {
    if bands > 0 {
      PixelDiffSymmetric(p, q, bands - 1);
    }
  }

  lemma {:induction false} TotalDiffSymmetric(a: Image, b: Image, masks: seq<Mask>, n: nat)
    requires WellFormedImage(a) && WellFormedImage(b) && a.mode == b.mode
    requires n <= |a.pixels| && n <= |b.pixels|
    requires forall k :: 0 <= k < |masks| ==> n <= |masks[k].levels|
    ensures TotalDiff(a, b, masks, n) == TotalDiff(b, a, masks, n)
  {
    if n > 0 {
      TotalDiffSymmetric(a, b, masks, n - 1);
      PixelDiffSymmetric(a.pixels[n - 1], b.pixels[n - 1], a.mode.bands);
    }
  }

  /** Swapping the two images changes nothing, errors included. */
  lemma DiffSymmetric(a: Image, b: Image, masks: seq<Mask>)
    requires WellFormedImage(a) && WellFormedImage(b) && WellFormedMasks(masks)
    ensures DiffPercentOf(a, b, masks) == DiffPercentOf(b, a, masks)
  {
    if Precheck(a, b, masks).None? {
      TotalDiffSymmetric(a, b, masks, |a.pixels|);
    }
  }

  predicate ChannelsInRange(im: Image) {
    forall i, j :: 0 <= i < |im.pixels| && 0 <= j < |im.pixels[i]| ==> 0 <= im.pixels[i][j] <= 255
  }

  lemma {:induction false} PixelDiffBound(p: seq<int>, q: seq<int>, bands: nat)
    requires bands <= |p| && bands <= |q|
    requires forall j :: 0 <= j < bands ==> 0 <= p[j] <= 255 && 0 <= q[j] <= 255
    ensures PixelDiff(p, q, bands) <= 255 * bands
  {
    if bands > 0 {
      PixelDiffBound(p, q, bands - 1);
    }
  }

  lemma {:induction false} TotalDiffBound(a: Image, b: Image, masks: seq<Mask>, n: nat)
    requires WellFormedImage(a) && WellFormedImage(b) && a.mode == b.mode
    requires ChannelsInRange(a) && ChannelsInRange(b)
    requires n <= |a.pixels| && n <= |b.pixels|
    requires forall k :: 0 <= k < |masks| ==> n <= |masks[k].levels|
    ensures TotalDiff(a, b, masks, n) <= ActiveCount(masks, n) * (a.mode.bands * 255)
  {
    if n > 0 {
      TotalDiffBound(a, b, masks, n - 1);
      var w := a.mode.bands * 255;
      var c := ActiveCount(masks, n - 1);
      if Active(masks, n - 1) {
        PixelDiffBound(a.pixels[n - 1], b.pixels[n - 1], a.mode.bands);
        assert (c + 1) * w == c * w + w;
      }
    }
  }

  lemma QuotientAtMostOne(t: real, d: real)
    requires 0.0 <= t <= d && 0.0 < d
    ensures 0.0 <= t / d <= 1.0
  {
    assert t / d * d == t;
  }

  /** For channel values within 0..255 the result lies in [0, 1]. */
  lemma DiffBounds(a: Image, b: Image, masks: seq<Mask>)
    requires WellFormedImage(a) && WellFormedImage(b) && WellFormedMasks(masks)
    requires ChannelsInRange(a) && ChannelsInRange(b)
    ensures DiffPercentOf(a, b, masks).Ok? ==> 0.0 <= DiffPercentOf(a, b, masks).value <= 1.0
  {
    if DiffPercentOf(a, b, masks).Ok? {
      var n := |a.pixels|;
      TotalDiffBound(a, b, masks, n);
      var c := ActiveCount(masks, n);
      assert c * a.mode.bands * 255 == c * (a.mode.bands * 255);
      QuotientAtMostOne(TotalDiff(a, b, masks, n) as real, (c * a.mode.bands * 255) as real);
    }
  }

  /** The counted pixels, one flag per pixel: the AND of the masks' flags. */
  method TotalBoolMask(masks: seq<Mask>, count: nat) returns (keep: array<bool>)
    requires forall k :: 0 <= k < |masks| ==> count <= |masks[k].levels|
    ensures fresh(keep) && keep.Length == count
    ensures forall i :: 0 <= i < count ==> keep[i] == Active(masks, i)
  {
    keep := new bool[count](_ => true);
    var m := 0;
    while m < |masks|
      invariant 0 <= m <= |masks|
      invariant forall i :: 0 <= i < count ==> keep[i] == Active(masks[..m], i)
    {
      var i := 0;
      while i < count
        invariant 0 <= i <= count
        invariant forall j :: 0 <= j < i ==> keep[j] == Active(masks[..m + 1], j)
        invariant forall j :: i <= j < count ==> keep[j] == Active(masks[..m], j)
      {
        assert masks[..m + 1][m] == masks[m];
        assert Active(masks[..m + 1], i) == (Active(masks[..m], i) && masks[m].levels[i] != 0) by {
          assert forall k :: 0 <= k < m ==> masks[..m + 1][k] == masks[..m][k];
        }
        keep[i] := keep[i] && masks[m].levels[i] != 0;
        i := i + 1;
      }
      m := m + 1;
    }
    assert masks[..m] == masks;
  }

  /** getImagesDiffPercent, with the number of channels taken from the mode. */
  method DiffPercent(a: Image, b: Image, masks: seq<Mask>) returns (r: Result<real, DiffError>)
    requires WellFormedImage(a) && WellFormedImage(b) && WellFormedMasks(masks)
    ensures r == DiffPercentOf(a, b, masks)
  {
    if a.width != b.width || a.height != b.height {
      return Err(SizeMismatch);
    }
    if a.mode != b.mode {
      return Err(ModeMismatch);
    }
    var k := 0;
    while k < |masks|
      invariant 0 <= k <= |masks|
      invariant forall j :: 0 <= j < k ==> SameSize(masks[j], a)
    {
      if !SameSize(masks[k], a) {
        return Err(MaskSizeMismatch);
      }
      k := k + 1;
    }
    var count := |a.pixels|;
    var keep := TotalBoolMask(masks, count);
    if count == 0 {
      return Err(NoPixels);
    }
    var directions := a.mode.bands;
    var totalDiff: nat := 0;
    var active: nat := 0;
    var i := 0;
    while i < count
      invariant 0 <= i <= count
      invariant active == ActiveCount(masks, i)
      invariant totalDiff == TotalDiff(a, b, masks, i)
    {
      if keep[i] {
        active := active + 1;
        var d := 0;
        var pixelDiff: nat := 0;
        while d < directions
          invariant 0 <= d <= directions
          invariant pixelDiff == PixelDiff(a.pixels[i], b.pixels[i], d)
        {
          pixelDiff := pixelDiff + Abs(a.pixels[i][d] - b.pixels[i][d]);
          d := d + 1;
        }
        totalDiff := totalDiff + pixelDiff;
      }
      i := i + 1;
    }
    if active == 0 {
      return Err(ZeroDivision);
    }
    r := Ok(totalDiff as real / (active * directions * 255) as real);
  }
}
