/**
  The logical world of the game and the two geometric helpers the engine
  relies on: clamping a value into a range, and the circle-against-rectangle
  collision test used for the paddle and for every brick.
*/
module Geometry {

  /** Logical canvas width; every entity lives in [0, WIDTH] x [0, HEIGHT]. */
  const WIDTH: real := 800.0
  /** Logical canvas height; the bottom edge is where the ball is lost. */
  const HEIGHT: real := 500.0

  function Abs(v: real): (r: real)
    ensures r >= 0.0 && (r == v || r == -v)
  {
    if v < 0.0 then -v else v
  }

  /**
    `Math.max(lo, Math.min(hi, v))`. Inside the range the value is kept,
    outside it is pulled to the nearer bound; when the range is empty
    (`lo > hi`) the lower bound wins, because `max` is applied last.
  */
  function Clamp(v: real, lo: real, hi: real): (r: real)
    ensures lo <= hi ==> lo <= r <= hi
    ensures lo <= v <= hi ==> r == v
    ensures v < lo ==> r == lo
    ensures lo <= hi < v ==> r == hi
    ensures hi < lo ==> r == lo
  {
    var upper := if hi < v then hi else v;
    if lo < upper then upper else lo
  }

  /** Squared distance between two points of the plane. */
  function DistSq(x1: real, y1: real, x2: real, y2: real): real
  {
    (x1 - x2) * (x1 - x2) + (y1 - y2) * (y1 - y2)
  }

  /** The point (px, py) lies in the closed rectangle at (rx, ry) of size rw x rh. */
  predicate InRect(rx: real, ry: real, rw: real, rh: real, px: real, py: real)
  {
    rx <= px <= rx + rw && ry <= py <= ry + rh
  }

  /**
    The circle of centre (cx, cy) and radius cr touches the rectangle: the
    point of the rectangle nearest the centre is found by clamping each
    coordinate, and its squared distance is compared with the squared radius.
  */
  predicate RectCircleCollide(rx: real, ry: real, rw: real, rh: real, cx: real, cy: real, cr: real)
    ensures InRect(rx, ry, rw, rh, cx, cy) ==> RectCircleCollide(rx, ry, rw, rh, cx, cy, cr)
  {
    var closestX := Clamp(cx, rx, rx + rw);
    var closestY := Clamp(cy, ry, ry + rh);
    var dx := cx - closestX;
    var dy := cy - closestY;
    dx * dx + dy * dy <= cr * cr
  }

  lemma SquareMonotone(a: real, b: real)
    requires 0.0 <= a <= b
    ensures a * a <= b * b
  {
    assert a * a <= a * b;
    assert a * b <= b * b;
  }

  lemma StrictSquare(a: real, b: real)
    requires 0.0 <= a < b
    ensures a * a < b * b
  {
    PositiveProduct(b - a, b + a);
  }

  lemma PositiveProduct(d: real, s: real)
    requires d > 0.0 && s > 0.0
    ensures d * s > 0.0
  {
  }

  /** Clamping gives the point of [lo, hi] nearest to v. */
  lemma ClampIsNearest(v: real, lo: real, hi: real, p: real)
    requires lo <= p <= hi
    ensures (v - Clamp(v, lo, hi)) * (v - Clamp(v, lo, hi)) <= (v - p) * (v - p)
  {
    var q := Clamp(v, lo, hi);
    if v < lo {
      SquareMonotone(q - v, p - v);
      assert (v - q) * (v - q) == (q - v) * (q - v);
      assert (v - p) * (v - p) == (p - v) * (p - v);
    } else if hi < v {
      SquareMonotone(v - q, v - p);
    } else {
      assert q == v;
    }
  }

  /**
    Reference reading of the collision test: the circle touches the rectangle
    exactly when SOME point of the rectangle is within the radius of the
    centre. This direction: any such witness point makes the test succeed.
  */
  lemma NearPointCollides(rx: real, ry: real, rw: real, rh: real, cx: real, cy: real, cr: real, px: real, py: real)
    requires InRect(rx, ry, rw, rh, px, py)
    requires DistSq(cx, cy, px, py) <= cr * cr
    ensures RectCircleCollide(rx, ry, rw, rh, cx, cy, cr)
  {
    ClampIsNearest(cx, rx, rx + rw, px);
    ClampIsNearest(cy, ry, ry + rh, py);
  }

  /**
    The other direction: when the test succeeds, the clamped point is a point
    of the rectangle within the radius of the centre.
  */
  lemma CollideHasNearPoint(rx: real, ry: real, rw: real, rh: real, cx: real, cy: real, cr: real)
    requires rw >= 0.0 && rh >= 0.0
    requires RectCircleCollide(rx, ry, rw, rh, cx, cy, cr)
    ensures InRect(rx, ry, rw, rh, Clamp(cx, rx, rx + rw), Clamp(cy, ry, ry + rh))
    ensures DistSq(cx, cy, Clamp(cx, rx, rx + rw), Clamp(cy, ry, ry + rh)) <= cr * cr
  {
  }

  /**
    A circle that lies wholly to one side of the rectangle (left of it, right
    of it, above it or below it) does not touch it.
  */
  lemma SeparatedMisses(rx: real, ry: real, rw: real, rh: real, cx: real, cy: real, cr: real)
    requires rw >= 0.0 && rh >= 0.0 && cr >= 0.0
    requires || cx + cr < rx || rx + rw < cx - cr
             || cy + cr < ry || ry + rh < cy - cr
    ensures !RectCircleCollide(rx, ry, rw, rh, cx, cy, cr)
  {
    var dx := cx - Clamp(cx, rx, rx + rw);
    var dy := cy - Clamp(cy, ry, ry + rh);
    assert Abs(dx) * Abs(dx) == dx * dx && Abs(dy) * Abs(dy) == dy * dy;
    if cx + cr < rx || rx + rw < cx - cr {
      StrictSquare(cr, Abs(dx));
      SquareMonotone(0.0, Abs(dy));
    } else {
      StrictSquare(cr, Abs(dy));
      SquareMonotone(0.0, Abs(dx));
    }
    assert dx * dx + dy * dy > cr * cr;
  }
}
