/** The compositor of the clock-image renderer: it writes the back frame of
    the cache into the output pixel buffer, either verbatim or multiplied by
    an RGB tint with the alpha channel forced opaque. The program computes the
    tint in `f32`; here the arithmetic is exact over `real`. */
module Compositor {
  import opened Common
  import opened Clock
  import opened FrameCache

  /** A tint: the factor each colour channel is multiplied by. */
  datatype Rgb = Rgb(r: real, g: real, b: real)

  predicate InUnitRange(c: Rgb)
  {
    0.0 <= c.r <= 1.0 && 0.0 <= c.g <= 1.0 && 0.0 <= c.b <= 1.0
  }

  /** `color[k]` for the three colour channels. */
  function Channel(c: Rgb, k: nat): real
    requires k < 3
  {
    if k == 0 then c.r else if k == 1 then c.g else c.b
  }

  /** `(src as f32 * factor) as u8`: the product truncated toward zero and
      saturated to the byte range. A factor in [0, 1] never brightens, and a
      factor of one keeps the byte. */
  function Scale(src: Byte, factor: real): (v: Byte)
    ensures 0.0 <= factor <= 1.0 ==> v <= src
    ensures factor == 1.0 ==> v == src
  {
    var x := src as real * factor;
    ScaleDown(src as real, factor);
    if x <= 0.0 then 0
    else if x >= 255.0 then 255
    else
      FloorAtMost(x, src);
      assert 0.0 <= factor <= 1.0 ==> x <= src as real;
      assert 0.0 <= factor <= 1.0 ==> x.Floor <= src;
      x.Floor
  }

  lemma FloorAtMost(x: real, n: int)
    ensures x <= n as real ==> x.Floor <= n
  {
  }

  lemma ScaleDown(a: real, f: real)
    requires a >= 0.0
    ensures 0.0 <= f <= 1.0 ==> a * f <= a
  {
    if 0.0 <= f <= 1.0 {
      assert a * f <= a * 1.0;
    }
  }

  /** Byte `idx` of a tinted frame: the alpha byte of each pixel (every
      fourth) becomes 255, the others are scaled by their channel's factor. */
  function TintByte(idx: nat, src: Byte, c: Rgb): Byte
  {
    if (idx + 1) % 4 == 0 then 255 else Scale(src, Channel(c, idx % 4))
  }

  /** The output buffer after the compositor has written `frame` into `out`.
      Untinted, it is a copy (Rust's `copy_from_slice` requires equal lengths). Tinted, the
      two buffers are zipped, so bytes past the shorter one keep their value. */
  function Compose(out: seq<Byte>, frame: Frame, tint: Option<Rgb>): (r: seq<Byte>)
    requires tint.None? ==> |frame| == |out|
    ensures |r| == |out|
  {
    match tint
    case None => frame
    case Some(c) =>
      seq(|out|, i requires 0 <= i < |out| => if i < |frame| then TintByte(i, frame[i], c) else out[i])
  }

  /** A white tint leaves every colour byte as it is and makes every pixel
      opaque. */
  lemma WhiteTintOnlySetsAlpha(out: seq<Byte>, frame: Frame)
    requires |frame| == |out|
    ensures forall i :: 0 <= i < |out| ==>
              Compose(out, frame, Some(Rgb(1.0, 1.0, 1.0)))[i] == if (i + 1) % 4 == 0 then 255 else frame[i]
  {
  }

  /** A tint with factors in [0, 1] never makes a colour byte brighter, and
      every alpha byte inside the frame becomes opaque. */
  lemma TintNeverBrightens(out: seq<Byte>, frame: Frame, c: Rgb)
    requires InUnitRange(c)
    ensures forall i :: 0 <= i < |out| && i < |frame| ==>
              var v := Compose(out, frame, Some(c))[i];
              if (i + 1) % 4 == 0 then v == 255 else v <= frame[i]
  {
  }

  /** HSV to RGB with saturation and value one; the hue, in degrees, is
      taken modulo 360. */
  function HueToRgb(hue: real): (c: Rgb)
    requires hue >= 0.0
    ensures InUnitRange(c)
  {
    var turns := (hue / 360.0).Floor;
    var h := hue - turns as real * 360.0;
    var sector := (h / 60.0).Floor;
    var f := h / 60.0 - sector as real;
    if sector == 0 then Rgb(1.0, f, 0.0)
    else if sector == 1 then Rgb(1.0 - f, 1.0, 0.0)
    else if sector == 2 then Rgb(0.0, 1.0, f)
    else if sector == 3 then Rgb(0.0, 1.0 - f, 1.0)
    else if sector == 4 then Rgb(f, 0.0, 1.0)
    else Rgb(1.0, 0.0, 1.0 - f)
  }

  /** The rainbow tint for a time slot: the hue is the slot's share of the
      cycle, in degrees. */
  function RainbowTint(slot: U32): (c: Rgb)
    ensures InUnitRange(c)
  {
    HueToRgb(slot as real / MillisTotal as real * 360.0)
  }

  /** At the start of the cycle the rainbow tint is pure red; half way
      through it is cyan. */
  lemma RainbowHueExamples()
    ensures RainbowTint(0) == Rgb(1.0, 0.0, 0.0)
    ensures RainbowTint(MillisTotal / 2) == Rgb(0.0, 1.0, 1.0)
  {
    assert (MillisTotal / 2) as real / MillisTotal as real * 360.0 == 180.0;
    assert (180.0 / 360.0).Floor == 0;
    assert (180.0 / 60.0).Floor == 3;
  }

  /** `copy_from_slice`: the output becomes the frame, byte for byte. */
  method CopyFromSlice(pixels: array<Byte>, frame: Frame)
    requires |frame| == pixels.Length
    modifies pixels
    ensures pixels[..] == frame
  {
    for i := 0 to pixels.Length
      invariant pixels[..i] == frame[..i]
    {
      pixels[i] := frame[i];
    }
  }

  /** The tinting loop over the zipped output and frame bytes. */
  method TintInto(pixels: array<Byte>, frame: Frame, c: Rgb)
    modifies pixels
    ensures pixels[..] == Compose(old(pixels[..]), frame, Some(c))
  {
    var n := if pixels.Length < |frame| then pixels.Length else |frame|;
    for idx := 0 to n
      invariant forall i :: 0 <= i < idx ==> pixels[i] == TintByte(i, frame[i], c)
      invariant forall i :: idx <= i < pixels.Length ==> pixels[i] == old(pixels[i])
    {
      if (idx + 1) % 4 == 0 {
        pixels[idx] := 255;
      } else {
        pixels[idx] := Scale(frame[idx], Channel(c, idx % 4));
      }
    }
  }

  /** The redraw step of `render`: a tinted or a verbatim write of the frame. */
  method Composite(pixels: array<Byte>, frame: Frame, tint: Option<Rgb>)
    requires tint.None? ==> |frame| == pixels.Length
    modifies pixels
    ensures pixels[..] == Compose(old(pixels[..]), frame, tint)
  {
    match tint
    case None => CopyFromSlice(pixels, frame);
    case Some(c) => TintInto(pixels, frame, c);
  }
}
