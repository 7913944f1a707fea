/**
 Mapping a selection drawn on the scaled preview back to the pixel
 coordinates of the original screenshot.

 The tool multiplies each coordinate by the original extent and divides by
 the preview extent with true (floating-point) division, then hands the four
 quotients to `QRect(int, int, int, int)`, which truncates them toward zero.
 The model computes the exact rational quotient and truncates it toward
 zero; for the operand sizes of a screen capture the double-precision
 quotient truncates to the same integer.
 */
module Mapping {
  import opened Geometry

  /** `q` is the exact quotient `n / d` rounded toward zero. */
  predicate IsTruncQuotient(n: int, d: int, q: int)
  {
    && (n >= 0 ==> 0 <= q && q * d <= n < q * d + d)
    && (n < 0 ==> q <= 0 && -q * d <= -n < -q * d + d)
  }

  /** Division of `n` by a positive `d`, rounded toward zero. */
  function TruncDiv(n: int, d: int): (q: int)
    requires d > 0
    ensures IsTruncQuotient(n, d, q)
  {
    if n >= 0 then
      FloorDivBounds(n, d);
      n / d
    else
      FloorDivBounds(-n, d);
      -((-n) / d)
  }

  lemma FloorDivBounds(n: int, d: int)
    requires n >= 0 && d > 0
    ensures 0 <= n / d && (n / d) * d <= n < (n / d) * d + d
  {
    assert n == d * (n / d) + n % d;
  }

  /** Only one integer is the truncated quotient of `n` by a positive `d`. */
  lemma TruncQuotientUnique(n: int, d: int, q1: int, q2: int)
    requires d > 0
    requires IsTruncQuotient(n, d, q1) && IsTruncQuotient(n, d, q2)
    ensures q1 == q2
  {
    QuotientBelow(n, d, q1, q2);
    QuotientBelow(n, d, q2, q1);
  }

  lemma QuotientBelow(n: int, d: int, q1: int, q2: int)
    requires d > 0
    requires IsTruncQuotient(n, d, q1) && IsTruncQuotient(n, d, q2)
    ensures q2 <= q1
  {
    if q1 < q2 {
      MulMonotone(q1 + 1, q2, d);
      MulMonotone(-q2 + 1, -q1, d);
    }
  }

  lemma MulMonotone(a: int, b: int, c: int)
    requires a <= b && c >= 0
    ensures a * c <= b * c
  {
    assert b * c - a * c == (b - a) * c;
  }

  /** Truncated division by a positive number never decreases as the dividend grows. */
  lemma TruncDivMonotone(n1: int, n2: int, d: int)
    requires d > 0 && n1 <= n2
    ensures TruncDiv(n1, d) <= TruncDiv(n2, d)
  {
    var q1, q2 := TruncDiv(n1, d), TruncDiv(n2, d);
    if q2 < q1 {
      if n1 >= 0 {
        MulMonotone(q2 + 1, q1, d);
      } else if n2 < 0 {
        MulMonotone(-q1 + 1, -q2, d);
      }
    }
  }

  /** One coordinate or extent rescaled by the ratio `num / den`. */
  function ScaleCoord(v: int, num: int, den: int): int
    requires den > 0
  {
    TruncDiv(v * num, den)
  }

  /** Rescales a preview-space rectangle to the original screenshot: `x` and
      `width` by `pixmap.width / scaled.width`, `y` and `height` by
      `pixmap.height / scaled.height`, each rounded toward zero. */
  function MapToSource(sel: Rect, scaled: Size, pixmap: Size): (r: Rect)
    requires scaled.width > 0 && scaled.height > 0
    ensures IsTruncQuotient(sel.x * pixmap.width, scaled.width, r.x)
    ensures IsTruncQuotient(sel.y * pixmap.height, scaled.height, r.y)
    ensures IsTruncQuotient(sel.width * pixmap.width, scaled.width, r.width)
    ensures IsTruncQuotient(sel.height * pixmap.height, scaled.height, r.height)
  {
    Rect(ScaleCoord(sel.x, pixmap.width, scaled.width),
         ScaleCoord(sel.y, pixmap.height, scaled.height),
         ScaleCoord(sel.width, pixmap.width, scaled.width),
         ScaleCoord(sel.height, pixmap.height, scaled.height))
  }

  /** Scaling by a ratio of one changes nothing. */
  lemma ScaleCoordIdentity(v: int, w: int)
    requires w > 0
    ensures ScaleCoord(v, w, w) == v
  {
    var n := v * w;
    if v >= 0 {
      assert v * w <= n < v * w + w;
    } else {
      assert -v * w <= -n < -v * w + w;
    }
    assert IsTruncQuotient(n, w, v);
    TruncQuotientUnique(n, w, v, TruncDiv(n, w));
  }

  /** When the preview has the original's size the mapping is the identity. */
  lemma MapIdentity(sel: Rect, s: Size)
    requires s.width > 0 && s.height > 0
    ensures MapToSource(sel, s, s) == sel
  {
    ScaleCoordIdentity(sel.x, s.width);
    ScaleCoordIdentity(sel.y, s.height);
    ScaleCoordIdentity(sel.width, s.width);
    ScaleCoordIdentity(sel.height, s.height);
  }

  /** A larger preview coordinate never maps to a smaller source coordinate. */
  lemma ScaleCoordMonotone(v1: int, v2: int, num: int, den: int)
    requires den > 0 && num >= 0 && v1 <= v2
    ensures ScaleCoord(v1, num, den) <= ScaleCoord(v2, num, den)
  {
    MulMonotone(v1, v2, num);
    TruncDivMonotone(v1 * num, v2 * num, den);
  }

  /** The mapping is monotone in every coordinate and extent. */
  lemma MapMonotone(a: Rect, b: Rect, scaled: Size, pixmap: Size)
    requires scaled.width > 0 && scaled.height > 0
    requires pixmap.width >= 0 && pixmap.height >= 0
    requires a.x <= b.x && a.y <= b.y && a.width <= b.width && a.height <= b.height
    ensures var ra, rb := MapToSource(a, scaled, pixmap), MapToSource(b, scaled, pixmap);
            ra.x <= rb.x && ra.y <= rb.y && ra.width <= rb.width && ra.height <= rb.height
  {
    ScaleCoordMonotone(a.x, b.x, pixmap.width, scaled.width);
    ScaleCoordMonotone(a.y, b.y, pixmap.height, scaled.height);
    ScaleCoordMonotone(a.width, b.width, pixmap.width, scaled.width);
    ScaleCoordMonotone(a.height, b.height, pixmap.height, scaled.height);
  }

  lemma MulAddRight(a: int, b: int, c: int)
    ensures (a + b) * c == a * c + b * c
  {
  }

  /** An interval `[v, v + e)` inside `[0, den)` maps inside `[0, num)`. */
  lemma ScaleIntervalInBounds(v: int, e: int, num: int, den: int)
    requires den > 0 && num >= 0
    requires 0 <= v && 0 <= e && v + e <= den
    ensures var q, k := ScaleCoord(v, num, den), ScaleCoord(e, num, den);
            0 <= q && 0 <= k && q + k <= num
  {
    var a, b := v * num, e * num;
    MulMonotone(0, v, num);
    MulMonotone(0, e, num);
    assert 0 <= a && 0 <= b;
    var q, k := TruncDiv(a, den), TruncDiv(b, den);
    assert q * den <= a && k * den <= b;
    MulAddRight(v, e, num);
    MulMonotone(v + e, den, num);
    assert a + b <= den * num;
    MulAddRight(q, k, den);
    assert (q + k) * den <= den * num;
    if q + k > num {
      MulMonotone(num + 1, q + k, den);
      MulAddRight(num, 1, den);
      assert false;
    }
  }

  /** A selection inside the preview maps inside the original screenshot:
      the mapped rectangle lies in `[0, pixmap.width] x [0, pixmap.height]`. */
  lemma MapInBounds(sel: Rect, scaled: Size, pixmap: Size)
    requires scaled.width > 0 && scaled.height > 0
    requires pixmap.width >= 0 && pixmap.height >= 0
    requires 0 <= sel.x && 0 <= sel.width && sel.x + sel.width <= scaled.width
    requires 0 <= sel.y && 0 <= sel.height && sel.y + sel.height <= scaled.height
    ensures var r := MapToSource(sel, scaled, pixmap);
            && 0 <= r.x && 0 <= r.width && r.x + r.width <= pixmap.width
            && 0 <= r.y && 0 <= r.height && r.y + r.height <= pixmap.height
  {
    ScaleIntervalInBounds(sel.x, sel.width, pixmap.width, scaled.width);
    ScaleIntervalInBounds(sel.y, sel.height, pixmap.height, scaled.height);
  }

  /** A non-empty preview extent survives the mapping exactly when the scaled
      extent reaches one full preview pixel's worth of the original. */
  lemma ScaleExtentPositiveIff(e: int, num: int, den: int)
    requires den > 0 && num >= 0 && e >= 0
    ensures ScaleCoord(e, num, den) >= 1 <==> e * num >= den
  {
    MulMonotone(0, e, num);
    var k := ScaleCoord(e, num, den);
    if k >= 1 {
      MulMonotone(1, k, den);
    }
  }

  /** The mapped selection is non-empty exactly when each preview extent
      times the original-to-preview ratio reaches at least one pixel. */
  lemma MapNonEmptyIff(sel: Rect, scaled: Size, pixmap: Size)
    requires scaled.width > 0 && scaled.height > 0
    requires pixmap.width >= 0 && pixmap.height >= 0
    requires sel.width >= 0 && sel.height >= 0
    ensures var r := MapToSource(sel, scaled, pixmap);
            r.width >= 1 && r.height >= 1 <==>
              sel.width * pixmap.width >= scaled.width && sel.height * pixmap.height >= scaled.height
  {
    ScaleExtentPositiveIff(sel.width, pixmap.width, scaled.width);
    ScaleExtentPositiveIff(sel.height, pixmap.height, scaled.height);
  }
}
