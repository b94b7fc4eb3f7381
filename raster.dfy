/**
 * `convertToRGBA`: expands the raw samples of a decoded PDF image object into
 * four bytes per pixel (red, green, blue, alpha), according to its pdf.js
 * image kind: 1 is read as one grey byte per pixel, 2 as three colour bytes
 * per pixel, and every other kind is copied as four bytes per pixel.
 */
module Raster {

  type byte = x: int | 0 <= x < 256

  const Grayscale: int := 1
  const Rgb: int := 2
  const Opaque: byte := 255

  /** Grey samples as opaque RGBA pixels, in sample order. */
  function GrayPixels(data: seq<byte>): (r: seq<byte>)
    ensures |r| == 4 * |data|
  {
    if |data| == 0 then []
    else
      var v := data[|data| - 1];
      GrayPixels(data[..|data| - 1]) + [v, v, v, Opaque]
  }

  /** RGB triplets as opaque RGBA pixels, in sample order. */
  function RgbPixels(data: seq<byte>): (r: seq<byte>)
    requires |data| % 3 == 0
    ensures |r| == |data| / 3 * 4
  {
    if |data| == 0 then []
    else
      var n := |data|;
      RgbPixels(data[..n - 3]) + [data[n - 3], data[n - 2], data[n - 1], Opaque]
  }

  function Zeros(n: nat): (r: seq<byte>)
    ensures |r| == n && forall i :: 0 <= i < n ==> r[i] == 0
  {
    seq(n, i => 0)
  }

  function Min(a: nat, b: nat): nat
  {
    if a <= b then a else b
  }

  /** Sample `i` as a typed-array write stores it: past the end of the samples it reads `undefined`, stored as 0. */
  function Sample(data: seq<byte>, i: nat): byte
  {
    if i < |data| then data[i] else 0
  }

  /**
   * The buffer `convertToRGBA` returns. For kind 1 it has room for width * height
   * pixels: the first samples fill it in order, samples beyond it are dropped and
   * pixels without a sample stay all-zero. For kind 2 the whole triples become
   * opaque pixels; the buffer's truncated length then leaves room for exactly the
   * samples of a trailing partial triple, which land as they are.
   */
  function Canonical(data: seq<byte>, width: nat, height: nat, kind: int): seq<byte>
  {
    if kind == Grayscale then
      var n := Min(|data|, width * height);
      GrayPixels(data[..n]) + Zeros(4 * (width * height - n))
    else if kind == Rgb then
      var w := |data| / 3 * 3;
      RgbPixels(data[..w]) + data[w..]
    else data
  }

  /** `convertToRGBA`: one loop per kind, each writing into a fresh typed array. */
  method ConvertToRgba(data: seq<byte>, width: nat, height: nat, kind: int) returns (rgba: array<byte>)
    ensures rgba[..] == Canonical(data, width, height, kind)
  {
    if kind == Grayscale {
      rgba := ExpandGray(data, width * height);
    } else if kind == Rgb {
      rgba := ExpandRgb(data);
    } else {
      rgba := CopyRgba(data);
    }
  }

  /** The kind-1 loop over a zero-filled buffer of `pixels` four-byte pixels. */
  method ExpandGray(data: seq<byte>, pixels: nat) returns (rgba: array<byte>)
    ensures rgba[..] == GrayPixels(data[..Min(|data|, pixels)]) + Zeros(4 * (pixels - Min(|data|, pixels)))
  {
    rgba := new byte[pixels * 4](_ => 0);
    var i := 0;
    while i < |data|
      invariant 0 <= i <= |data|
      invariant rgba.Length == pixels * 4
      invariant rgba[..4 * Min(i, pixels)] == GrayPixels(data[..Min(i, pixels)])
      invariant forall k :: 4 * Min(i, pixels) <= k < rgba.Length ==> rgba[k] == 0
    {
      // A typed array drops writes past its end: only samples with a pixel land.
      if i < pixels {
        WriteGray(rgba, i, data[i]);
        GrayPixelsStep(data, i);
      }
      i := i + 1;
    }
    var n := Min(|data|, pixels);
    assert rgba[..] == rgba[..4 * n] + rgba[4 * n..];
    assert rgba[4 * n..] == Zeros(4 * (pixels - n));
  }

  /** Writes the grey pixel `v` at pixel index `i`. */
  method WriteGray(rgba: array<byte>, i: nat, v: byte)
    requires 4 * i + 4 <= rgba.Length
    modifies rgba
    ensures rgba[..4 * i + 4] == old(rgba[..4 * i]) + [v, v, v, Opaque]
    ensures forall k :: 4 * i + 4 <= k < rgba.Length ==> rgba[k] == old(rgba[k])
  {
    rgba[i * 4] := v;
    rgba[i * 4 + 1] := v;
    rgba[i * 4 + 2] := v;
    rgba[i * 4 + 3] := Opaque;
  }

  /**
   * The kind-2 loop: `i` walks the samples by threes while `j` walks the output
   * by fours. `(data.length / 3) * 4` is fractional unless the samples are whole
   * triples, and the typed array truncates it.
   */
  method ExpandRgb(data: seq<byte>) returns (rgba: array<byte>)
    ensures rgba[..] == RgbPixels(data[..|data| / 3 * 3]) + data[|data| / 3 * 3..]
  {
    rgba := new byte[|data| * 4 / 3];
    var i, j := 0, 0;
    while i < |data|
      invariant i % 3 == 0 && 3 * j == 4 * i && rgba.Length == |data| * 4 / 3
      invariant i <= |data| ==> j <= rgba.Length && rgba[..j] == RgbPixels(data[..i])
      invariant i > |data| ==> rgba[..] == RgbPixels(data[..|data| / 3 * 3]) + data[|data| / 3 * 3..]
      decreases |data| - i
    {
      var pixel := [data[i], Sample(data, i + 1), Sample(data, i + 2), Opaque];
      ghost var before := rgba[..];
      WriteClipped(rgba, j, pixel);
      if i + 3 <= |data| {
        WholeTripleStep(data, i, j, before, rgba[..], pixel);
      } else {
        PartialTripleStep(data, i, j, before, rgba[..], pixel);
      }
      i, j := i + 3, j + 4;
    }
    if i == |data| {
      WholeTriplesDone(data, i, j, rgba[..]);
    }
  }

  /** A whole triple at sample `i` extends the expansion by its opaque pixel. */
  lemma WholeTripleStep(data: seq<byte>, i: nat, j: nat, before: seq<byte>, after: seq<byte>, pixel: seq<byte>)
    requires i % 3 == 0 && 3 * j == 4 * i && i + 3 <= |data| && |after| == |data| * 4 / 3
    requires pixel == [data[i], Sample(data, i + 1), Sample(data, i + 2), Opaque]
    requires j <= |before| && before[..j] == RgbPixels(data[..i])
    requires after[..Min(j + 4, |after|)] == before[..j] + pixel[..Min(4, |after| - j)]
    ensures j + 4 <= |after| && after[..j + 4] == RgbPixels(data[..i + 3])
  {
    assert pixel[..4] == [data[i], data[i + 1], data[i + 2], Opaque];
    RgbPixelsStep(data, i);
  }

  /**
   * A partial last triple: the truncated length leaves room for its samples only,
   * and the writes of the missing samples and the alpha fall past the end.
   */
  lemma PartialTripleStep(data: seq<byte>, i: nat, j: nat, before: seq<byte>, after: seq<byte>, pixel: seq<byte>)
    requires i % 3 == 0 && 3 * j == 4 * i && i < |data| < i + 3 && |after| == |data| * 4 / 3
    requires pixel == [data[i], Sample(data, i + 1), Sample(data, i + 2), Opaque]
    requires j <= |before| && before[..j] == RgbPixels(data[..i])
    requires after[..Min(j + 4, |after|)] == before[..j] + pixel[..Min(4, |after| - j)]
    ensures after == RgbPixels(data[..|data| / 3 * 3]) + data[|data| / 3 * 3..]
  {
    assert |data| / 3 * 3 == i && |after| == j + (|data| - i);
    if |data| == i + 1 {
      assert pixel[..1] == [data[i]] == data[i..];
    } else {
      assert pixel[..2] == [data[i], data[i + 1]] == data[i..];
    }
    assert after == after[..Min(j + 4, |after|)];
  }

  /** When the samples are whole triples the loop ends having filled the buffer. */
  lemma WholeTriplesDone(data: seq<byte>, i: nat, j: nat, rgba: seq<byte>)
    requires i == |data| && i % 3 == 0 && 3 * j == 4 * i && |rgba| == |data| * 4 / 3
    requires j <= |rgba| && rgba[..j] == RgbPixels(data[..i])
    ensures rgba == RgbPixels(data[..|data| / 3 * 3]) + data[|data| / 3 * 3..]
  {
    assert rgba == rgba[..j];
    assert data[|data| / 3 * 3..] == [];
  }

  /**
   * The loop for every other kind: four bytes copied per pixel. `(data.length / 4) * 4`
   * is exactly the number of samples, and the writes of a trailing partial pixel that
   * fall past it are dropped.
   */
  method CopyRgba(data: seq<byte>) returns (rgba: array<byte>)
    ensures rgba[..] == data
  {
    rgba := new byte[|data|];
    var i, j := 0, 0;
    while i < |data|
      invariant j == i && rgba.Length == |data|
      invariant rgba[..Min(j, |data|)] == data[..Min(i, |data|)]
      decreases |data| - i
    {
      var pixel := [data[i], Sample(data, i + 1), Sample(data, i + 2), Sample(data, i + 3)];
      WriteClipped(rgba, j, pixel);
      CopiedPixel(data, i, pixel);
      i, j := i + 4, j + 4;
    }
    assert rgba[..] == rgba[..Min(j, |data|)];
  }

  /** The part of a copied pixel that fits is the next samples. */
  lemma CopiedPixel(data: seq<byte>, i: nat, pixel: seq<byte>)
    requires i < |data| && pixel == [data[i], Sample(data, i + 1), Sample(data, i + 2), Sample(data, i + 3)]
    ensures pixel[..Min(4, |data| - i)] == data[i..Min(i + 4, |data|)]
    ensures data[..Min(i + 4, |data|)] == data[..i] + data[i..Min(i + 4, |data|)]
  {
    var m := Min(4, |data| - i);
    assert forall k :: 0 <= k < m ==> pixel[k] == data[i + k];
  }

  /**
   * Writes the four bytes of `pixel` from byte offset `j`. A typed array drops the
   * writes that fall past its end, so only the first `rgba.Length - j` of them land.
   */
  method WriteClipped(rgba: array<byte>, j: nat, pixel: seq<byte>)
    requires |pixel| == 4 && j <= rgba.Length
    modifies rgba
    ensures rgba[..Min(j + 4, rgba.Length)] == old(rgba[..j]) + pixel[..Min(4, rgba.Length - j)]
    ensures forall k :: j + 4 <= k < rgba.Length ==> rgba[k] == old(rgba[k])
  {
    if j < rgba.Length {
      rgba[j] := pixel[0];
    }
    if j + 1 < rgba.Length {
      rgba[j + 1] := pixel[1];
    }
    if j + 2 < rgba.Length {
      rgba[j + 2] := pixel[2];
    }
    if j + 3 < rgba.Length {
      rgba[j + 3] := pixel[3];
    }
  }

  /** One more sample adds one grey pixel at the end. */
  lemma GrayPixelsStep(data: seq<byte>, i: nat)
    requires i < |data|
    ensures GrayPixels(data[..i + 1]) == GrayPixels(data[..i]) + [data[i], data[i], data[i], Opaque]
  {
    assert data[..i + 1][..i] == data[..i];
  }

  /** One more triple adds one opaque RGB pixel at the end. */
  lemma RgbPixelsStep(data: seq<byte>, i: nat)
    requires i % 3 == 0 && i + 3 <= |data|
    ensures RgbPixels(data[..i + 3]) == RgbPixels(data[..i]) + [data[i], data[i + 1], data[i + 2], Opaque]
  {
    assert data[..i + 3][..i] == data[..i];
  }

  /** Pixel k of a grey expansion repeats sample k on all three colour channels and is opaque. */
  lemma {:induction false} GrayPixelAt(data: seq<byte>, k: nat)
    requires k < |data|
    ensures GrayPixels(data)[4 * k..4 * k + 4] == [data[k], data[k], data[k], Opaque]
  {
    var n := |data|;
    var front := GrayPixels(data[..n - 1]);
    var v := data[n - 1];
    assert GrayPixels(data) == front + [v, v, v, Opaque];
    if k < n - 1 {
      GrayPixelAt(data[..n - 1], k);
      SliceOfFront(front, [v, v, v, Opaque], 4 * k, 4 * k + 4);
    } else {
      SliceOfBack(front, [v, v, v, Opaque], 4 * k, 4 * k + 4);
    }
  }

  lemma SliceOfFront<T>(a: seq<T>, b: seq<T>, i: nat, j: nat)
    requires i <= j <= |a|
    ensures (a + b)[i..j] == a[i..j]
  {
  }

  lemma SliceOfBack<T>(a: seq<T>, b: seq<T>, i: nat, j: nat)
    requires |a| <= i <= j <= |a| + |b|
    ensures (a + b)[i..j] == b[i - |a|..j - |a|]
  {
  }

  /** Pixel k of an RGB expansion is samples 3k, 3k+1, 3k+2 followed by an opaque alpha. */
  lemma {:induction false} RgbPixelAt(data: seq<byte>, k: nat)
    requires |data| % 3 == 0 && 3 * k < |data|
    ensures 4 * k + 4 <= |RgbPixels(data)|
    ensures RgbPixels(data)[4 * k..4 * k + 4] == [data[3 * k], data[3 * k + 1], data[3 * k + 2], Opaque]
  {
    var n := |data|;
    var front := RgbPixels(data[..n - 3]);
    var pixel := [data[n - 3], data[n - 2], data[n - 1], Opaque];
    assert RgbPixels(data) == front + pixel;
    if 3 * k < n - 3 {
      RgbPixelAt(data[..n - 3], k);
      SliceOfFront(front, pixel, 4 * k, 4 * k + 4);
    } else {
      SliceOfBack(front, pixel, 4 * k, 4 * k + 4);
    }
  }

  /** Kind 1: width * height pixels; each sample that has a pixel is grey and opaque, the rest is zero. */
  lemma CanonicalGray(data: seq<byte>, width: nat, height: nat)
    ensures |Canonical(data, width, height, Grayscale)| == width * height * 4
    ensures forall i :: 0 <= i < Min(|data|, width * height) ==>
      Canonical(data, width, height, Grayscale)[4 * i..4 * i + 4] == [data[i], data[i], data[i], Opaque]
    ensures forall p :: 4 * Min(|data|, width * height) <= p < width * height * 4 ==>
      Canonical(data, width, height, Grayscale)[p] == 0
  {
    var n := Min(|data|, width * height);
    var out := Canonical(data, width, height, Grayscale);
    forall i | 0 <= i < n
      ensures out[4 * i..4 * i + 4] == [data[i], data[i], data[i], Opaque]
    {
      GrayPixelAt(data[..n], i);
      assert out[4 * i..4 * i + 4] == GrayPixels(data[..n])[4 * i..4 * i + 4];
    }
  }

  /**
   * Kind 2: four bytes for every whole triple, pixel k being (data[3k], data[3k+1],
   * data[3k+2], 255), followed by the samples of a trailing partial triple.
   */
  lemma CanonicalRgb(data: seq<byte>, width: nat, height: nat)
    ensures |Canonical(data, width, height, Rgb)| == |data| / 3 * 4 + |data| % 3
    ensures forall k :: 0 <= k < |data| / 3 ==>
      Canonical(data, width, height, Rgb)[4 * k..4 * k + 4] == [data[3 * k], data[3 * k + 1], data[3 * k + 2], Opaque]
    ensures Canonical(data, width, height, Rgb)[|data| / 3 * 4..] == data[|data| / 3 * 3..]
  {
    var w := |data| / 3 * 3;
    var out := Canonical(data, width, height, Rgb);
    assert out == RgbPixels(data[..w]) + data[w..];
    forall k | 0 <= k < |data| / 3
      ensures out[4 * k..4 * k + 4] == [data[3 * k], data[3 * k + 1], data[3 * k + 2], Opaque]
    {
      WholeTriplePixel(data, k);
    }
  }

  /** Pixel k of the whole-triple part of a kind-2 buffer is triple k with alpha 255. */
  lemma WholeTriplePixel(data: seq<byte>, k: nat)
    requires k < |data| / 3
    ensures 4 * k + 4 <= |RgbPixels(data[..|data| / 3 * 3])|
    ensures RgbPixels(data[..|data| / 3 * 3])[4 * k..4 * k + 4] == [data[3 * k], data[3 * k + 1], data[3 * k + 2], Opaque]
  {
    var whole := data[..|data| / 3 * 3];
    RgbPixelAt(whole, k);
    assert whole[3 * k] == data[3 * k] && whole[3 * k + 1] == data[3 * k + 1] && whole[3 * k + 2] == data[3 * k + 2];
  }

  /** Any other kind: a byte-for-byte copy of the samples. */
  lemma CanonicalCopy(data: seq<byte>, width: nat, height: nat, kind: int)
    requires kind != Grayscale && kind != Rgb
    ensures Canonical(data, width, height, kind) == data
  {
  }

  /** The red channel of each pixel, in pixel order. */
  function RedChannel(rgba: seq<byte>): (r: seq<byte>)
    requires |rgba| % 4 == 0
    ensures |r| == |rgba| / 4
  {
    if |rgba| == 0 then [] else RedChannel(rgba[..|rgba| - 4]) + [rgba[|rgba| - 4]]
  }

  /** Each pixel without its alpha byte, in pixel order. */
  function DropAlpha(rgba: seq<byte>): (r: seq<byte>)
    requires |rgba| % 4 == 0
    ensures |r| == |rgba| / 4 * 3
  {
    if |rgba| == 0 then [] else DropAlpha(rgba[..|rgba| - 4]) + rgba[|rgba| - 4..|rgba| - 1]
  }

  /** A grey expansion loses nothing: its red channel is the samples. */
  lemma {:induction false} GrayRoundTrip(data: seq<byte>)
    ensures RedChannel(GrayPixels(data)) == data
  {
    if |data| > 0 {
      var n := |data|;
      GrayRoundTrip(data[..n - 1]);
      var g := GrayPixels(data);
      assert g[..|g| - 4] == GrayPixels(data[..n - 1]);
      assert data[..n - 1] + [data[n - 1]] == data;
    }
  }

  /** An RGB expansion loses nothing: dropping the alpha bytes gives the samples back. */
  lemma {:induction false} RgbRoundTrip(data: seq<byte>)
    requires |data| % 3 == 0
    ensures DropAlpha(RgbPixels(data)) == data
  {
    if |data| > 0 {
      var n := |data|;
      var front, last := data[..n - 3], data[n - 3..];
      assert |front| == n - 3 && |front| % 3 == 0;
      RgbRoundTrip(front);
      DropAlphaLast(data);
      SplitAt(data, n - 3);
    }
  }

  lemma SplitAt<T>(s: seq<T>, k: nat)
    requires k <= |s|
    ensures s[..k] + s[k..] == s
  {
  }

  /** Dropping the alpha of the last pixel of an RGB expansion gives back the last triple. */
  lemma DropAlphaLast(data: seq<byte>)
    requires |data| % 3 == 0 && |data| > 0
    ensures DropAlpha(RgbPixels(data)) == DropAlpha(RgbPixels(data[..|data| - 3])) + data[|data| - 3..]
  {
    var n := |data|;
    var front := data[..n - 3];
    assert |front| == n - 3 && |front| % 3 == 0;
    var pixel := [data[n - 3], data[n - 2], data[n - 1], Opaque];
    assert |pixel| == 4;
    RgbWholePixels(front);
    var pixels := RgbPixels(front);
    assert |pixels| % 4 == 0;
    DropAlphaSnoc(pixels, pixel);
    LastTriple(data, Opaque);
  }

  /** An RGB expansion is a whole number of RGBA pixels. */
  lemma RgbWholePixels(data: seq<byte>)
    requires |data| % 3 == 0
    ensures |RgbPixels(data)| % 4 == 0
  {
    var q := |data| / 3;
    assert |RgbPixels(data)| == q * 4;
  }

  /** The first three bytes of a pixel built from the last triple are that triple. */
  lemma LastTriple(data: seq<byte>, alpha: byte)
    requires |data| >= 3
    ensures [data[|data| - 3], data[|data| - 2], data[|data| - 1], alpha][..3] == data[|data| - 3..]
  {
    var t := data[|data| - 3..];
    assert |t| == 3 && t[0] == data[|data| - 3] && t[1] == data[|data| - 2] && t[2] == data[|data| - 1];
  }

  /** Appending a pixel to a whole number of pixels appends its first three bytes to the alpha-free view. */
  lemma DropAlphaSnoc(pixels: seq<byte>, pixel: seq<byte>)
    requires |pixels| % 4 == 0 && |pixel| == 4
    ensures DropAlpha(pixels + pixel) == DropAlpha(pixels) + pixel[..3]
  {
    var all := pixels + pixel;
    assert all[..|all| - 4] == pixels;
    assert all[|all| - 4..|all| - 1] == pixel[..3];
  }

  /** A kind-1 image with exactly one sample per pixel round-trips through its red channel. */
  lemma GrayCanonicalRoundTrip(data: seq<byte>, width: nat, height: nat)
    requires |data| == width * height
    ensures RedChannel(Canonical(data, width, height, Grayscale)) == data
  {
    var pixels := width * height;
    assert Min(|data|, pixels) == |data|;
    assert data[..|data|] == data;
    assert Zeros(4 * (pixels - |data|)) == [];
    assert Canonical(data, width, height, Grayscale) == GrayPixels(data);
    GrayRoundTrip(data);
  }
}
