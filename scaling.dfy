/**
 * Aspect-preserving scale arithmetic of `PNGPetState.get_ratio` and
 * `PNGPetState.scale_image` (pngpet.py).  Exact reals stand for Python
 * floats; `int(...)` on a float truncates toward zero.
 */
module Scaling {

  /** The uniform factor that fits a `w`x`h` image into an `sw`x`sh` viewport:
      the smaller of the two per-axis ratios (`rw if rw < rh else rh`). */
  function Ratio(w: int, h: int, sw: int, sh: int): (r: real)
    requires w > 0 && h > 0
    ensures r <= sw as real / w as real && r <= sh as real / h as real
    ensures r == sw as real / w as real || r == sh as real / h as real
  {
    var rw := sw as real / w as real;
    var rh := sh as real / h as real;
    if rw < rh then rw else rh
  }

  /** Python's `int(x)` for a float `x`: truncation toward zero. */
  function Trunc(x: real): (n: int)
    ensures x >= 0.0 ==> n as real <= x < n as real + 1.0
    ensures x < 0.0 ==> n as real - 1.0 < x <= n as real
  {
    if x >= 0.0 then x.Floor else -((-x).Floor)
  }

  /** `int(n*ratio)`: one side of the image scaled by `ratio`, the exact
      product truncated toward zero. */
  function ScaleSide(n: int, ratio: real): (s: int)
    ensures n as real * ratio >= 0.0 ==> 0 <= s && s as real <= n as real * ratio < s as real + 1.0
    ensures n as real * ratio < 0.0 ==> s <= 0 && s as real - 1.0 < n as real * ratio <= s as real
  {
    Trunc(n as real * ratio)
  }

  /** `w * (sw / w) == sw` in exact arithmetic. */
  lemma CancelRatio(w: int, sw: int)
    requires w > 0
    ensures w as real * (sw as real / w as real) == sw as real
  {
  }

  /** `int(a/b)` for integers `a` and `b > 0`: the exact quotient truncated
      toward zero. */
  function TruncDiv(a: int, b: int): int
    requires b > 0
  {
    if a >= 0 then a / b else -((-a) / b)
  }

  /** The integer quotient truncated toward zero is `Trunc` of the exact
      quotient. */
  lemma TruncDivIsTrunc(a: int, b: int)
    requires b > 0
    ensures TruncDiv(a, b) == Trunc(a as real / b as real)
  {
    if a >= 0 {
      FloorQuotient(a, b);
    } else {
      FloorQuotient(-a, b);
      assert -(a as real / b as real) == (-a) as real / b as real;
    }
  }

  /** For `n >= 0` the floor of the exact quotient is the integer quotient. */
  lemma FloorQuotient(n: int, b: int)
    requires n >= 0 && b > 0
    ensures (n as real / b as real).Floor == n / b
  {
    var q, r := n / b, n % b;
    CastProduct(q, b);
    assert n as real == q as real * b as real + r as real;
    QuotientBounds(n as real / b as real, b as real, q as real, r as real);
  }

  /** `y = (q*b + r)/b` with `0 <= r < b` lies in `[q, q + 1)`. */
  lemma QuotientBounds(y: real, b: real, q: real, r: real)
    requires b > 0.0 && 0.0 <= r < b && y * b == q * b + r
    ensures q <= y < q + 1.0
  {
    var e := y - q;
    assert e * b == r;
  }

  /** A quotient whose exact value is at most the integer `c` truncates to
      at most `c`. */
  lemma TruncDivAtMost(a: int, b: int, c: int)
    requires b > 0
    ensures a <= c * b ==> TruncDiv(a, b) <= c
  {
    if a <= c * b {
      if a >= 0 {
        var q := a / b;
        assert a == q * b + a % b;
        if q > c {
          assert q * b >= (c + 1) * b by { MulMono(c + 1, q, b); }
        }
      } else {
        var q := (-a) / b;
        assert -a == q * b + (-a) % b;
        if q < -c {
          assert (q + 1) * b <= -c * b by { MulMono(q + 1, -c, b); }
        }
      }
    }
  }

  /** Multiplying by a positive factor keeps the order. */
  lemma MulMono(x: int, y: int, b: int)
    requires x <= y && b > 0
    ensures x * b <= y * b
  {
    assert y * b - x * b == (y - x) * b;
  }

  /** The size `scale_image` gives a `w`x`h` image in an `sw`x`sh` viewport,
      computed exactly on integers: the side whose ratio is the smaller one
      fills the viewport, and the other is the truncated quotient.  It never
      exceeds the viewport on either side. */
  function ScaledSize(w: int, h: int, sw: int, sh: int): (size: (int, int))
    requires w > 0 && h > 0
    ensures size.0 <= sw && size.1 <= sh
  {
    TruncDivAtMost(h * sw, w, sh);
    TruncDivAtMost(w * sh, h, sw);
    if sw * h < sh * w then (sw, TruncDiv(h * sw, w)) else (TruncDiv(w * sh, h), sh)
  }

  /** `sw/w < sh/h` exactly when `sw*h < sh*w`. */
  lemma RatioOrder(w: int, h: int, sw: int, sh: int)
    requires w > 0 && h > 0
    ensures sw as real / w as real < sh as real / h as real <==> sw * h < sh * w
  {
    var rw, rh := sw as real / w as real, sh as real / h as real;
    var wh := w as real * h as real;
    assert wh > 0.0;
    CastProduct(sw, h);
    CastProduct(sh, w);
    assert rw * wh == (sw * h) as real;
    assert rh * wh == (sh * w) as real;
    if rw < rh {
      assert (rh - rw) * wh > 0.0;
    } else {
      assert (rw - rh) * wh >= 0.0;
    }
  }

  /** Scaling a side `n` by `s/n` gives exactly `s`. */
  lemma ScaleToSide(n: int, s: int)
    requires n > 0
    ensures ScaleSide(n, s as real / n as real) == s
  {
    CancelRatio(n, s);
  }

  /** Scaling a side `m` by `s/n` gives the truncated quotient of `m*s` by `n`. */
  lemma ScaleOtherSide(n: int, s: int, m: int)
    requires n > 0
    ensures ScaleSide(m, s as real / n as real) == TruncDiv(m * s, n)
  {
    var y := s as real / n as real;
    assert y * n as real == s as real;
    assert (m as real * y) * n as real == (m * s) as real by {
      CastProduct(m, s);
    }
    assert m as real * y == (m * s) as real / n as real;
    TruncDivIsTrunc(m * s, n);
  }

  /** The integer form is `scale_image`'s `(int(w*ratio), int(h*ratio))` for
      the ratio `get_ratio` chooses. */
  lemma ScaledSizeTruncates(w: int, h: int, sw: int, sh: int)
    requires w > 0 && h > 0
    ensures ScaledSize(w, h, sw, sh) == (ScaleSide(w, Ratio(w, h, sw, sh)), ScaleSide(h, Ratio(w, h, sw, sh)))
  {
    RatioOrder(w, h, sw, sh);
    if sw * h < sh * w {
      ScaleToSide(w, sw);
      ScaleOtherSide(w, sw, h);
    } else {
      ScaleToSide(h, sh);
      ScaleOtherSide(h, sh, w);
    }
  }

  /** On the side that determined the ratio the scaled image fills the
      viewport exactly: the width when `sw/w < sh/h`, the height otherwise. */
  lemma FillsLimitingSide(w: int, h: int, sw: int, sh: int)
    requires w > 0 && h > 0
    ensures sw as real / w as real < sh as real / h as real ==> ScaledSize(w, h, sw, sh).0 == sw
    ensures sw as real / w as real >= sh as real / h as real ==> ScaledSize(w, h, sw, sh).1 == sh
  {
    RatioOrder(w, h, sw, sh);
  }

  /** A side scaled by a non-negative factor is non-negative and within one
      pixel below the exact product. */
  lemma ScaleSideBounds(n: int, r: real)
    requires n > 0 && r >= 0.0
    ensures 0 <= ScaleSide(n, r)
    ensures n as real * r - 1.0 < ScaleSide(n, r) as real <= n as real * r
  {
    assert n as real * r >= 0.0 by { assert n as real * r == n as real * (r - 0.0); }
  }

  /** A fraction `e` in `[0, 1)` of a positive `x` lies in `[0, x)`. */
  lemma FractionBelow(x: real, e: real)
    requires x > 0.0 && 0.0 <= e < 1.0
    ensures 0.0 <= e * x < x
  {
    assert x - e * x == x * (1.0 - e);
    assert x * (1.0 - e) > 0.0;
  }

  /** If `a` and `b` are `x` and `y` rounded down by less than one, and `x:y`
      is the ratio `W:H`, then `a*H - b*W` lies strictly between `-H` and `W`. */
  lemma AspectFromRounding(W: real, H: real, x: real, y: real, a: real, b: real)
    requires W > 0.0 && H > 0.0 && x * H == y * W
    requires x - 1.0 < a <= x && y - 1.0 < b <= y
    ensures -H < a * H - b * W < W
  {
    var e1, e2 := x - a, y - b;
    FractionBelow(W, e2);
    FractionBelow(H, e1);
    var p, q := e2 * W, e1 * H;
    assert a * H == x * H - q by { assert a == x - e1; }
    assert b * W == y * W - p by { assert b == y - e2; }
    assert a * H - b * W == p - q;
  }

  /** Exact products of integers agree with their products as reals. */
  lemma CastProduct(a: int, b: int)
    ensures (a * b) as real == a as real * b as real
  {
  }

  /** The integer form of `AspectFromRounding`. */
  lemma AspectOfIntegers(w: int, h: int, r: real, a: int, b: int)
    requires w > 0 && h > 0
    requires w as real * r - 1.0 < a as real <= w as real * r
    requires h as real * r - 1.0 < b as real <= h as real * r
    ensures -h < a * h - b * w < w
  {
    var W, H := w as real, h as real;
    assert (W * r) * H == (H * r) * W;
    AspectFromRounding(W, H, W * r, H * r, a as real, b as real);
    CastProduct(a, h);
    CastProduct(b, w);
  }

  /** Both sides scaled by one non-negative factor keep the aspect ratio up to
      rounding. */
  lemma AspectOfSides(w: int, h: int, r: real)
    requires w > 0 && h > 0 && r >= 0.0
    ensures -h < ScaleSide(w, r) * h - ScaleSide(h, r) * w < w
  {
    ScaleSideBounds(w, r);
    ScaleSideBounds(h, r);
    AspectOfIntegers(w, h, r, ScaleSide(w, r), ScaleSide(h, r));
  }

  /** For a non-negative viewport the scaled size is non-negative and keeps
      the image's aspect ratio up to the rounding of one pixel per side:
      `width*h - height*w` lies strictly between `-h` and `w`. */
  lemma KeepsAspect(w: int, h: int, sw: int, sh: int)
    requires w > 0 && h > 0 && sw >= 0 && sh >= 0
    ensures ScaledSize(w, h, sw, sh).0 >= 0 && ScaledSize(w, h, sw, sh).1 >= 0
    ensures -h < ScaledSize(w, h, sw, sh).0 * h - ScaledSize(w, h, sw, sh).1 * w < w
  {
    var r := Ratio(w, h, sw, sh);
    assert r >= 0.0;
    ScaledSizeTruncates(w, h, sw, sh);
    ScaleSideBounds(w, r);
    ScaleSideBounds(h, r);
    AspectOfSides(w, h, r);
  }
}
