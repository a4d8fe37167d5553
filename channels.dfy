/** The in-place pixel edits applied to the loaded sprites: inverting some
    channels (255 - v) and scaling some channels by a factor, capped at 255.
    An image is a two-dimensional array of pixels indexed [x, y], a pixel the
    sequence of its channel values. Channel indexes follow Python list
    indexing: a negative index counts from the end. */
module Channels {
  import opened Numeric

  /** The position a Python index denotes in a list of length n. */
  function PyIndex(i: int, n: nat): (k: int)
    ensures -(n as int) <= i < n ==> 0 <= k < n
  {
    if i < 0 then i + n else i
  }

  /** Every channel index denotes a channel of a pixel with n channels. */
  predicate ValidChannels(channels: seq<int>, n: nat) {
    forall k :: 0 <= k < |channels| ==> -(n as int) <= channels[k] < n
  }

  predicate InRange(p: seq<int>) {
    forall j :: 0 <= j < |p| ==> 0 <= p[j] <= 255
  }

  /** A pixel after inverting the listed channels one after another. */
  function Inverted(p: seq<int>, channels: seq<int>): (q: seq<int>)
    requires ValidChannels(channels, |p|)
    ensures |q| == |p|
  {
    if channels == [] then p
    else
      var n := |channels| - 1;
      var q := Inverted(p, channels[..n]);
      var i := PyIndex(channels[n], |p|);
      q[i := 255 - q[i]]
  }

  /** How many of the channel indexes denote position j. */
  function Hits(channels: seq<int>, n: nat, j: int): nat {
    if channels == [] then 0
    else Hits(channels[..|channels| - 1], n, j) + (if PyIndex(channels[|channels| - 1], n) == j then 1 else 0)
  }

  /** A channel ends up inverted exactly when it was listed an odd number of
      times; every other channel keeps its value. */
  lemma {:induction false} InvertedAt(p: seq<int>, channels: seq<int>, j: nat)
    requires ValidChannels(channels, |p|) && j < |p|
    ensures Inverted(p, channels)[j] == if Hits(channels, |p|, j) % 2 == 1 then 255 - p[j] else p[j]
  {
    if channels != [] {
      InvertedAt(p, channels[..|channels| - 1], j);
    }
  }

  /** Inverting the same channels twice restores the pixel. */
  lemma InvertTwice(p: seq<int>, channels: seq<int>)
    requires ValidChannels(channels, |p|)
    ensures Inverted(Inverted(p, channels), channels) == p
  {
    var q := Inverted(p, channels);
    forall j | 0 <= j < |p|
      ensures Inverted(q, channels)[j] == p[j]
    {
      InvertedAt(p, channels, j);
      InvertedAt(q, channels, j);
    }
  }

  /** Inversion keeps channel values within 0..255. */
  lemma InvertKeepsRange(p: seq<int>, channels: seq<int>)
    requires ValidChannels(channels, |p|) && InRange(p)
    ensures InRange(Inverted(p, channels))
  {
    forall j | 0 <= j < |p|
      ensures 0 <= Inverted(p, channels)[j] <= 255
    {
      InvertedAt(p, channels, j);
    }
  }

  /** One channel value scaled: min(int(v * m), 255). */
  function ScaleValue(v: int, m: real): (r: int)
    ensures r <= 255 && r <= Trunc(v as real * m)
    ensures r == 255 || r == Trunc(v as real * m)
  {
    var t := Trunc(v as real * m);
    if t < 255 then t else 255
  }

  /** A value scaled n times over. */
  function ScaleTimes(v: int, m: real, n: nat): int {
    if n == 0 then v else ScaleValue(ScaleTimes(v, m, n - 1), m)
  }

  /** A pixel after scaling the listed channels one after another. */
  function Scaled(p: seq<int>, channels: seq<int>, m: real): (q: seq<int>)
    requires ValidChannels(channels, |p|)
    ensures |q| == |p|
  {
    if channels == [] then p
    else
      var n := |channels| - 1;
      var q := Scaled(p, channels[..n], m);
      var i := PyIndex(channels[n], |p|);
      q[i := ScaleValue(q[i], m)]
  }

  /** A channel listed n times is scaled n times over; with n == 1 it becomes
      min(int(v * m), 255), and an unlisted channel keeps its value. */
  lemma {:induction false} ScaledAt(p: seq<int>, channels: seq<int>, m: real, j: nat)
    requires ValidChannels(channels, |p|) && j < |p|
    ensures Scaled(p, channels, m)[j] == ScaleTimes(p[j], m, Hits(channels, |p|, j))
  {
    if channels != [] {
      ScaledAt(p, channels[..|channels| - 1], m, j);
    }
  }

  /** With a non-negative factor a scaled value is in 0..255; a factor of at
      most 1 never raises it. */
  lemma ScaleValueBounds(v: int, m: real)
    requires 0 <= v && 0.0 <= m
    ensures 0 <= ScaleValue(v, m) <= 255
    ensures m <= 1.0 ==> ScaleValue(v, m) <= v
  {
    var x := v as real * m;
    assert 0.0 <= x;
    if m <= 1.0 {
      assert v as real * m <= v as real * 1.0;
      assert x.Floor <= v;
    }
  }

  /** Scaling leaves unlisted channels alone, keeps every value within
      0..255 when the factor is non-negative, and with a factor in [0, 1]
      never makes a channel brighter (the alpha fades used on the sprites). */
  lemma {:induction false} ScaledBounds(p: seq<int>, channels: seq<int>, m: real)
    requires ValidChannels(channels, |p|) && InRange(p) && 0.0 <= m
    ensures InRange(Scaled(p, channels, m))
    ensures forall j :: 0 <= j < |p| && Hits(channels, |p|, j) == 0 ==> Scaled(p, channels, m)[j] == p[j]
    ensures m <= 1.0 ==> forall j :: 0 <= j < |p| ==> Scaled(p, channels, m)[j] <= p[j]
  {
    if channels != [] {
      var n := |channels| - 1;
      ScaledBounds(p, channels[..n], m);
      var q := Scaled(p, channels[..n], m);
      var i := PyIndex(channels[n], |p|);
      ScaleValueBounds(q[i], m);
    }
  }

  /** invertImageChannels: every pixel gets the listed channels inverted. */
  method InvertImageChannels(image: array2<seq<int>>, channels: seq<int>)
    requires forall x, y :: 0 <= x < image.Length0 && 0 <= y < image.Length1 ==> ValidChannels(channels, |image[x, y]|)
    modifies image
    ensures forall x, y :: 0 <= x < image.Length0 && 0 <= y < image.Length1 ==>
      image[x, y] == Inverted(old(image[x, y]), channels)
  {
    var x := 0;
    while x < image.Length0
      invariant 0 <= x <= image.Length0
      invariant forall i, j :: 0 <= i < x && 0 <= j < image.Length1 ==> image[i, j] == Inverted(old(image[i, j]), channels)
      invariant forall i, j :: x <= i < image.Length0 && 0 <= j < image.Length1 ==> image[i, j] == old(image[i, j])
    {
      var y := 0;
      while y < image.Length1
        invariant 0 <= y <= image.Length1
        invariant forall i, j :: 0 <= i < x && 0 <= j < image.Length1 ==> image[i, j] == Inverted(old(image[i, j]), channels)
        invariant forall j :: 0 <= j < y ==> image[x, j] == Inverted(old(image[x, j]), channels)
        invariant forall j :: y <= j < image.Length1 ==> image[x, j] == old(image[x, j])
        invariant forall i, j :: x < i < image.Length0 && 0 <= j < image.Length1 ==> image[i, j] == old(image[i, j])
      {
        var pixel := image[x, y];
        var k := 0;
        while k < |channels|
          invariant 0 <= k <= |channels|
          invariant ValidChannels(channels[..k], |image[x, y]|)
          invariant pixel == Inverted(image[x, y], channels[..k])
        {
          assert channels[..k + 1][..k] == channels[..k];
          var c := PyIndex(channels[k], |pixel|);
          pixel := pixel[c := 255 - pixel[c]];
          k := k + 1;
        }
        assert channels[..k] == channels;
        image[x, y] := pixel;
        y := y + 1;
      }
      x := x + 1;
    }
  }

  /** modifyImageChannels: every pixel gets the listed channels scaled by m. */
  method ModifyImageChannels(image: array2<seq<int>>, channels: seq<int>, m: real)
    requires forall x, y :: 0 <= x < image.Length0 && 0 <= y < image.Length1 ==> ValidChannels(channels, |image[x, y]|)
    modifies image
    ensures forall x, y :: 0 <= x < image.Length0 && 0 <= y < image.Length1 ==>
      image[x, y] == Scaled(old(image[x, y]), channels, m)
  {
    var x := 0;
    while x < image.Length0
      invariant 0 <= x <= image.Length0
      invariant forall i, j :: 0 <= i < x && 0 <= j < image.Length1 ==> image[i, j] == Scaled(old(image[i, j]), channels, m)
      invariant forall i, j :: x <= i < image.Length0 && 0 <= j < image.Length1 ==> image[i, j] == old(image[i, j])
    {
      var y := 0;
      while y < image.Length1
        invariant 0 <= y <= image.Length1
        invariant forall i, j :: 0 <= i < x && 0 <= j < image.Length1 ==> image[i, j] == Scaled(old(image[i, j]), channels, m)
        invariant forall j :: 0 <= j < y ==> image[x, j] == Scaled(old(image[x, j]), channels, m)
        invariant forall j :: y <= j < image.Length1 ==> image[x, j] == old(image[x, j])
        invariant forall i, j :: x < i < image.Length0 && 0 <= j < image.Length1 ==> image[i, j] == old(image[i, j])
      {
        var pixel := image[x, y];
        var k := 0;
        while k < |channels|
          invariant 0 <= k <= |channels|
          invariant ValidChannels(channels[..k], |image[x, y]|)
          invariant pixel == Scaled(image[x, y], channels[..k], m)
        {
          assert channels[..k + 1][..k] == channels[..k];
          var c := PyIndex(channels[k], |pixel|);
          pixel := pixel[c := ScaleValue(pixel[c], m)];
          k := k + 1;
        }
        assert channels[..k] == channels;
        image[x, y] := pixel;
        y := y + 1;
      }
      x := x + 1;
    }
  }
}
