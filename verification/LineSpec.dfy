/** The ideal raster line: for each step along the longer axis, the nearest step along the shorter one. */
module LineSpec {

  datatype Point = Point(x: int, y: int)

  function Abs(a: int): nat { if a < 0 then -a else a }
  function Sign(a: int): int { if a < 0 then -1 else 1 }
  function Max(a: nat, b: nat): nat { if a > b then a else b }

  /**
   Steps taken along the shorter axis after k steps along the longer: k * minor / major
   rounded to the nearest integer, halves downwards.
   */
  function Nearest(k: nat, major: nat, minor: nat): (q: nat)
    requires major > 0
    ensures IsNearest(k, major, minor, q)
  {
    var t := k * minor + (major - 1) - major / 2;
    var q := t / major;
    assert t == major * q + t % major;
    assert major * q == q * major;
    q
  }

  predicate IsNearest(k: nat, major: nat, minor: nat, q: int)
  {
    0 <= major / 2 - k * minor + q * major < major
  }

  lemma NearestUnique(k: nat, major: nat, minor: nat, q: int)
    requires major > 0 && IsNearest(k, major, minor, q)
    ensures q == Nearest(k, major, minor)
  {
    hide Nearest;
    RoundUnique(major / 2 - k * minor, Nearest(k, major, minor), q, major);
  }

  lemma RoundUnique(c: int, p: int, q: int, m: int)
    requires 0 <= c + p * m < m && 0 <= c + q * m < m
    ensures p == q
  {
    if p < q { AtLeastOne(q - p, m, p, q); } else if q < p { AtLeastOne(p - q, m, q, p); }
  }

  lemma AtLeastOne(d: int, m: int, p: int, q: int)
    requires d >= 1 && m > 0 && d == q - p
    ensures q * m >= p * m + m
  {
    assert q * m == p * m + d * m;
    assert d * m >= 1 * m;
  }

  /** Never more than half a step away from the ideal line. */
  lemma HalfPixel(k: nat, major: nat, minor: nat)
    requires major > 0
    ensures 2 * Abs(Nearest(k, major, minor) * major - k * minor) <= major
  {
  }

  /** One more step along the longer axis: the error term tells whether the shorter one moves. */
  lemma NearestStep(k: nat, major: nat, minor: nat)
    requires major > 0 && minor <= major
    ensures var e := major / 2 - k * minor + Nearest(k, major, minor) * major;
            Nearest(k + 1, major, minor) == Nearest(k, major, minor) + (if e < minor then 1 else 0)
  {
    var q := Nearest(k, major, minor);
    var e := major / 2 - k * minor + q * major;
    assert (k + 1) * minor == k * minor + minor;
    assert (q + 1) * major == q * major + major;
    NearestUnique(k + 1, major, minor, if e < minor then q + 1 else q);
  }

  lemma NearestEnds(major: nat, minor: nat)
    requires major > 0
    ensures Nearest(0, major, minor) == 0 && Nearest(major, major, minor) == minor
  {
    assert major * minor == minor * major;
    NearestUnique(0, major, minor, 0);
    NearestUnique(major, major, minor, minor);
  }

  /** Point k of the line from a to b. */
  function LinePoint(a: Point, b: Point, k: nat): Point
  {
    var ax, ay := Abs(b.x - a.x), Abs(b.y - a.y);
    var sx, sy := Sign(b.x - a.x), Sign(b.y - a.y);
    if ax > ay then Point(a.x + sx * k, a.y + sy * Nearest(k, ax, ay))
    else if ay > 0 then Point(a.x + sx * Nearest(k, ay, ax), a.y + sy * k)
    else a
  }

  /** Number of points of the line, less one. */
  function Last(a: Point, b: Point): nat
  {
    Max(Abs(b.x - a.x), Abs(b.y - a.y))
  }

  function Line(a: Point, b: Point, n: nat): (s: seq<Point>)
    ensures |s| == n && forall k :: 0 <= k < n ==> s[k] == LinePoint(a, b, k)
  {
    seq(n, k requires 0 <= k < n => LinePoint(a, b, k))
  }

  /** The line starts and ends at the given points. */
  lemma LineEnds(a: Point, b: Point)
    ensures LinePoint(a, b, 0) == a && LinePoint(a, b, Last(a, b)) == b
  {
    var ax, ay := Abs(b.x - a.x), Abs(b.y - a.y);
    if ax > ay { NearestEnds(ax, ay); } else if ay > 0 { NearestEnds(ay, ax); }
  }

  /** Every point is at most half a pixel off the ideal line along the shorter axis. */
  lemma LineClose(a: Point, b: Point, k: nat)
    ensures var p := LinePoint(a, b, k);
            var dx, dy := b.x - a.x, b.y - a.y;
            && (Abs(dx) > Abs(dy) ==> p.x == a.x + Sign(dx) * k)
            && (Abs(dx) > Abs(dy) ==> 2 * Abs((p.y - a.y) * Abs(dx) - k * dy) <= Abs(dx))
            && (Abs(dx) <= Abs(dy) && dy != 0 ==> p.y == a.y + Sign(dy) * k)
            && (Abs(dx) <= Abs(dy) && dy != 0 ==> 2 * Abs((p.x - a.x) * Abs(dy) - k * dx) <= Abs(dy))
  {
    var dx, dy := b.x - a.x, b.y - a.y;
    var ax, ay := Abs(dx), Abs(dy);
    if ax > ay {
      HalfPixel(k, ax, ay);
      Signed(Nearest(k, ax, ay), k, ax, dy);
    } else if ay > 0 {
      HalfPixel(k, ay, ax);
      Signed(Nearest(k, ay, ax), k, ay, dx);
    }
  }

  lemma Signed(q: nat, k: nat, major: nat, d: int)
    ensures Abs((Sign(d) * q) * major - k * d) == Abs(q * major - k * Abs(d))
  {
    if d < 0 {
      assert (Sign(d) * q) * major == -(q * major);
      assert k * d == -(k * Abs(d));
    } else {
      assert (Sign(d) * q) * major == q * major;
    }
  }

  lemma {:induction false} NearestBelow(k: nat, major: nat, minor: nat)
    requires major > 0 && k <= major && minor <= major
    ensures Nearest(k, major, minor) <= minor
    decreases major - k
  {
    if k == major { NearestEnds(major, minor); } else {
      NearestStep(k, major, minor);
      NearestBelow(k + 1, major, minor);
    }
  }

  /** The line stays in the box of its end points. */
  lemma LineInBox(a: Point, b: Point, k: nat)
    requires k <= Last(a, b)
    ensures var p := LinePoint(a, b, k);
            && (a.x <= p.x <= b.x || b.x <= p.x <= a.x)
            && (a.y <= p.y <= b.y || b.y <= p.y <= a.y)
  {
    var ax, ay := Abs(b.x - a.x), Abs(b.y - a.y);
    if ax > ay { NearestBelow(k, ax, ay); } else if ay > 0 { NearestBelow(k, ay, ax); }
  }

  /** Step k of the longer axis meets the ideal line exactly between two pixels. */
  predicate Tie(k: nat, major: nat, minor: nat)
    requires major > 0
  {
    2 * (k * minor) % (2 * major) == major
  }

  lemma TieExact(k: nat, major: nat, minor: nat)
    requires major > 0
    ensures Tie(k, major, minor)
            <==> major % 2 == 0 && Nearest(k, major, minor) * major + major / 2 == k * minor
  {
    hide Nearest, Tie;
    if Tie(k, major, minor) { TieHalf(k, major, minor); }
    var q := Nearest(k, major, minor);
    if major % 2 == 0 && q * major + major / 2 == k * minor { HalfTie(k, major, minor, q); }
  }

  lemma TieHalf(k: nat, major: nat, minor: nat)
    requires major > 0 && Tie(k, major, minor)
    ensures major % 2 == 0 && Nearest(k, major, minor) * major + major / 2 == k * minor
  {
    hide Nearest;
    var t, d := 2 * (k * minor), 2 * major;
    var p := t / d;
    assert t == d * p + t % d;
    assert d * p == 2 * (p * major);
    NearestUnique(k, major, minor, p);
  }

  lemma HalfTie(k: nat, major: nat, minor: nat, q: nat)
    requires major > 0 && major % 2 == 0 && q * major + major / 2 == k * minor
    ensures Tie(k, major, minor)
  {
    var t, d := 2 * (k * minor), 2 * major;
    assert t == 2 * (q * major) + major;
    assert q * d == 2 * (q * major);
    RemainderIs(t, d, q, major);
  }

  lemma RemainderIs(t: nat, d: nat, q: nat, r: nat)
    requires d > 0 && t == q * d + r && r < d
    ensures t % d == r
  {
    var p := t / d;
    assert t == d * p + t % d;
    assert d * p == p * d;
    RoundUnique(d - 1 - t, p, q, d);
  }

  /** Counting from the other end, the step is the same except at a tie, which rounds the other way. */
  lemma NearestReversed(k: nat, major: nat, minor: nat)
    requires major > 0 && k <= major
    ensures Nearest(major - k, major, minor)
            == minor - Nearest(k, major, minor) - (if Tie(k, major, minor) then 1 else 0)
  {
    hide Nearest, Tie;
    TieExact(k, major, minor);
    var q, t := Nearest(k, major, minor), if Tie(k, major, minor) then 1 else 0;
    assert (major - k) * minor == major * minor - k * minor;
    assert (minor - q - t) * major == minor * major - q * major - t * major;
    assert major * minor == minor * major;
    NearestUnique(major - k, major, minor, minor - q - t);
  }

  /** Drawn from b to a, the line meets point k exactly when the ideal line has no tie there. */
  lemma ReversedIff(a: Point, b: Point, k: nat)
    requires k <= Last(a, b) && a != b
    ensures var ax, ay := Abs(b.x - a.x), Abs(b.y - a.y);
            LinePoint(b, a, Last(a, b) - k) == LinePoint(a, b, k)
            <==> !(if ax > ay then Tie(k, ax, ay) else Tie(k, ay, ax))
  {
    var ax, ay := Abs(b.x - a.x), Abs(b.y - a.y);
    hide Nearest, Tie;
    if ax > ay { NearestReversed(k, ax, ay); } else { NearestReversed(k, ay, ax); }
  }
}
