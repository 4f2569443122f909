/**
 * Centring the image on a monitor rectangle, with no clamping.
 * overlay.py divides with Python's `//` (floor division); crosshair.cpp divides
 * with C++'s `/` on `int` (truncation toward zero).  The two differ exactly
 * when the monitor-minus-image difference is negative and odd.
 */
module Placement {
  import opened Win32

  /** Python's `a // b`: Dafny's `/` agrees with floor division when the divisor is positive. */
  function FloorDiv(a: int, b: int): (q: int)
    requires b > 0
    ensures q * b <= a < q * b + b
  {
    a / b
  }

  /** C++'s `a / b` on `int`: the quotient is truncated toward zero. */
  function TruncDiv(a: int, b: int): (q: int)
    requires b > 0
    ensures a >= 0 ==> q * b <= a < q * b + b
    ensures a < 0 ==> q * b - b < a <= q * b
  {
    if a >= 0 then a / b else -((-a) / b)
  }

  /**
   * overlay.py: x = left + (mon_w - img_w) // 2, and likewise for y. The offset from the
   * monitor's corner is the half of the free space rounded down, even when that space is negative.
   */
  function PyOrigin(mon: Rect, imgW: int, imgH: int): (o: Point)
    ensures var d := mon.Width() - imgW; 2 * (o.x - mon.left) <= d < 2 * (o.x - mon.left) + 2
    ensures var d := mon.Height() - imgH; 2 * (o.y - mon.top) <= d < 2 * (o.y - mon.top) + 2
  {
    Point(mon.left + FloorDiv(mon.Width() - imgW, 2), mon.top + FloorDiv(mon.Height() - imgH, 2))
  }

  /**
   * crosshair.cpp: x = left + (monitorWidth - imgWidth) / 2 with truncating division. The
   * offset is half of the free space rounded toward zero: down when the space is
   * non-negative, up when it is negative.
   */
  function CppOrigin(mon: Rect, imgW: int, imgH: int): (o: Point)
    ensures var d := mon.Width() - imgW;
            && (d >= 0 ==> 2 * (o.x - mon.left) <= d < 2 * (o.x - mon.left) + 2)
            && (d < 0 ==> 2 * (o.x - mon.left) - 2 < d <= 2 * (o.x - mon.left))
    ensures var d := mon.Height() - imgH;
            && (d >= 0 ==> 2 * (o.y - mon.top) <= d < 2 * (o.y - mon.top) + 2)
            && (d < 0 ==> 2 * (o.y - mon.top) - 2 < d <= 2 * (o.y - mon.top))
  {
    Point(mon.left + TruncDiv(mon.Width() - imgW, 2), mon.top + TruncDiv(mon.Height() - imgH, 2))
  }

  /** Space left free to the left of (above) and to the right of (below) an image of `size` placed at `start`. */
  function LeadMargin(lo: int, start: int): int { start - lo }
  function TrailMargin(hi: int, start: int, size: int): int { hi - (start + size) }

  /**
   * Python placement: with d = monitor size - image size, the left margin is floor(d/2) and
   * the right margin is ceil(d/2); they differ by at most one, the right one never smaller.
   * The left margin is negative exactly when the image is larger than the monitor, the right
   * one exactly when it is larger by two or more.
   */
  lemma PyMargins(mon: Rect, imgW: int, imgH: int)
    ensures var o := PyOrigin(mon, imgW, imgH);
            var d := mon.Width() - imgW;
            var lead := LeadMargin(mon.left, o.x);
            var trail := TrailMargin(mon.right, o.x, imgW);
            && 2 * lead <= d < 2 * lead + 2
            && lead + trail == d
            && lead <= trail <= lead + 1
            && (lead < 0 <==> d < 0)
            && (trail < 0 <==> d < -1)
    ensures var o := PyOrigin(mon, imgW, imgH);
            var d := mon.Height() - imgH;
            var lead := LeadMargin(mon.top, o.y);
            var trail := TrailMargin(mon.bottom, o.y, imgH);
            && 2 * lead <= d < 2 * lead + 2
            && lead + trail == d
            && lead <= trail <= lead + 1
            && (lead < 0 <==> d < 0)
            && (trail < 0 <==> d < -1)
  {
  }

  /**
   * C++ placement: the two margins also differ by at most one, but for a negative odd
   * difference the larger (less negative) margin is the left one.
   */
  lemma CppMargins(mon: Rect, imgW: int, imgH: int)
    ensures var o := CppOrigin(mon, imgW, imgH);
            var d := mon.Width() - imgW;
            var lead := LeadMargin(mon.left, o.x);
            var trail := TrailMargin(mon.right, o.x, imgW);
            && lead + trail == d
            && (d >= 0 ==> lead <= trail <= lead + 1)
            && (d < 0 ==> trail <= lead <= trail + 1)
    ensures var o := CppOrigin(mon, imgW, imgH);
            var d := mon.Height() - imgH;
            var lead := LeadMargin(mon.top, o.y);
            var trail := TrailMargin(mon.bottom, o.y, imgH);
            && lead + trail == d
            && (d >= 0 ==> lead <= trail <= lead + 1)
            && (d < 0 ==> trail <= lead <= trail + 1)
  {
  }

  /** The two programs place the image at the same column unless the difference is negative and odd. */
  lemma OriginsAgreeOrDifferByOne(mon: Rect, imgW: int, imgH: int)
    ensures var d := mon.Width() - imgW;
            CppOrigin(mon, imgW, imgH).x ==
              (if d < 0 && d % 2 == 1 then PyOrigin(mon, imgW, imgH).x + 1 else PyOrigin(mon, imgW, imgH).x)
    ensures var d := mon.Height() - imgH;
            CppOrigin(mon, imgW, imgH).y ==
              (if d < 0 && d % 2 == 1 then PyOrigin(mon, imgW, imgH).y + 1 else PyOrigin(mon, imgW, imgH).y)
  {
  }

  /** Worked examples: a 100x50 image on a 1920x1080 monitor, and a 100x100 image on a 50x50 one. */
  lemma PyOriginExamples()
    ensures PyOrigin(Rect(0, 0, 1920, 1080), 100, 50) == Point(910, 515)
    ensures PyOrigin(Rect(0, 0, 50, 50), 100, 100) == Point(-25, -25)
  {
    assert FloorDiv(1820, 2) == 910;
    assert FloorDiv(1030, 2) == 515;
    assert FloorDiv(-50, 2) == -25;
  }

  /** A 101-wide image on a 50-wide monitor: C++ gives -25 where Python gives -26. */
  lemma OriginsDivergeExample()
    ensures CppOrigin(Rect(0, 0, 50, 50), 101, 50).x == -25
    ensures PyOrigin(Rect(0, 0, 50, 50), 101, 50).x == -26
  {
    assert TruncDiv(-51, 2) == -25;
    assert FloorDiv(-51, 2) == -26;
  }
}
