/**
 * The sample quantisation of the uncompressed-codec service path: the server
 * sends `(int)(f * (1 << 15))` for a sample f, and the client maps an int v
 * back to `Clamp(v / 2^15, -1, 1)`, replacing a result of magnitude 1 by 0.
 *
 * Samples are reals. The float product f * 2^15 is exact in binary floating
 * point (a power-of-two scaling), and so is v / 2^15 for |v| < 2^24, which
 * covers every v the clamp does not saturate.
 */
module Quantize {
  import opened Bytes

  const Scale: int := 0x8000  // 1 << 15

  /** Truncation toward zero: the C# float-to-int cast. */
  function Trunc(x: real): (r: int)
    ensures x >= 0.0 ==> 0 <= r && r as real <= x < r as real + 1.0
    ensures x < 0.0 ==> r <= 0 && r as real - 1.0 < x <= r as real
  {
    if x >= 0.0 then x.Floor else -((-x).Floor)
  }

  /**
   * `(int)(f * (1 << 15))`. A product outside the int range converts to
   * int.MinValue, the x86/x64 conversion result the unchecked cast yields.
   */
  function Quantize(f: real): (r: int32)
    ensures -Two31 as real <= f * Scale as real < Two31 as real ==> r == Trunc(f * Scale as real)
  {
    var t := Trunc(f * Scale as real);
    if -Two31 <= t < Two31 then t else -Two31
  }

  /**
   * `Clamp((float)v / (1 << 15), -1, 1)`, then 0 when the magnitude is 1. For
   * an int v, `Mathf.Approximately(|s|, 1)` holds only when |s| is exactly 1:
   * the nearest unclamped magnitude, 1 - 2^-15, differs from 1 by far more
   * than the comparison's tolerance.
   */
  function Dequantize(v: int): (r: real)
    ensures -1.0 < r < 1.0
    ensures (v <= -Scale || v >= Scale) <==> r == 0.0 && v != 0
    ensures -Scale < v < Scale ==> r * Scale as real == v as real
  {
    var s := v as real / Scale as real;
    var clamped := if s < -1.0 then -1.0 else if s > 1.0 then 1.0 else s;
    if clamped == 1.0 || clamped == -1.0 then 0.0 else clamped
  }

  /**
   * The round trip through the integer codec: a sample strictly inside
   * (-1, 1) comes back within one quantisation step, truncated toward zero;
   * anything of magnitude 1 or more comes back as 0.
   */
  lemma QuantizeRoundTrip(f: real)
    ensures -1.0 < f < 1.0 ==>
              var g := Dequantize(Quantize(f));
              (f >= 0.0 ==> 0.0 <= g <= f && f - g < 1.0 / Scale as real)
              && (f < 0.0 ==> f <= g <= 0.0 && g - f < 1.0 / Scale as real)
    ensures (f <= -1.0 || f >= 1.0) ==> Dequantize(Quantize(f)) == 0.0
  {
    var p := f * Scale as real;
    var t := Trunc(p);
    if -1.0 < f < 1.0 {
      assert -Scale as real < p < Scale as real;
      assert -Scale < t < Scale;
      assert Quantize(f) == t;
      var g := Dequantize(t);
      assert g * Scale as real == t as real;
      assert g == t as real / Scale as real;
    } else if f >= 1.0 {
      assert p >= Scale as real;
      if t < Two31 {
        assert Quantize(f) == t && t >= Scale;
      }
    } else {
      assert p <= -Scale as real;
      if t >= -Two31 {
        assert Quantize(f) == t && t <= -Scale;
      }
    }
  }
}
