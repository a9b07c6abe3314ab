/** The linear framebuffer: clipped pixel writes of 3 or 4 bytes, and the line drawing loop. */
module Framebuffer {

  import opened Bytes
  import opened Machine
  import opened Arithmetic
  import opened Euclid
  import opened LineSpec

  const INT_MAX: int := 0x7FFF_FFFF

  predicate IsInt(a: int) { -INT_MAX - 1 <= a <= INT_MAX }

  /** Two's complement arithmetic on int. */
  function Wrap32(a: int): (r: int)
    ensures IsInt(r) && (IsInt(a) ==> r == a)
  {
    (a + INT_MAX + 1) % WORD32 - INT_MAX - 1
  }

  class Framebuffer {
    const arch: Arch
    const addr: nat
    const width: nat
    const height: nat
    const bytesPerPixel: nat
    /** Row r, byte b: the memory at addr + r * pitch + b. */
    const frame: array2<byte>

    constructor (arch: Arch, addr: nat, width: nat, height: nat, bytesPerPixel: nat, frame: array2<byte>)
      ensures this.arch == arch && this.addr == addr && this.width == width && this.height == height
      ensures this.bytesPerPixel == bytesPerPixel && this.frame == frame
    {
      this.arch, this.addr, this.frame := arch, addr, frame;
      this.width, this.height, this.bytesPerPixel := width, height, bytesPerPixel;
    }

    function Pitch(): nat { frame.Length1 }

    /** First byte of a pixel in its row. */
    function Column(x: int): int { if bytesPerPixel == 4 then 4 * x else 3 * x }

    /** A frame of 24 or 32 bits per pixel below 4 GiB. */
    ghost predicate Valid()
    {
      && width < WORD16 && height < WORD16 && (bytesPerPixel == 3 || bytesPerPixel == 4)
      && frame.Length0 == height && Column(width) <= Pitch()
      && addr + height * Pitch() <= WORD32
    }

    predicate Visible(p: Point) { 0 <= p.x < width && 0 <= p.y < height }

    /** The clipping test, on coordinates cut to 16 bits. */
    predicate Passes(p: Point) { p.x % WORD16 < width && p.y % WORD16 < height }

    /** Where the clipping test lets only visible points through. */
    predicate Honest(p: Point) { Passes(p) ==> Visible(p) }

    // ----- addresses -----

    /** The address of byte b of row r of the frame. */
    function Place(r: nat, b: nat): nat { addr + r * Pitch() + b }

    /** The address put_pixel computes in 32 bits for byte i of a pixel. */
    function Target(p: Point, i: nat): nat
    {
      arch.Wrap((addr + p.y * Pitch() + Column(p.x)) % WORD32 + i)
    }

    /** The addresses a call of fb_pixel writes, inside the frame or not. */
    ghost function Written(p: Point): set<nat>
    {
      if Passes(p) then set i: nat | i < bytesPerPixel :: Target(p, i) else {}
    }

    /** The address of byte i of the pixel at p. */
    function PixelPlace(p: Point, i: nat): nat
      requires Visible(p)
    {
      Place(p.y, Column(p.x) + i)
    }

    /** The bytes of the pixel at p, if the screen has one. */
    ghost function PixelPlaces(p: Point): set<nat>
    {
      if Visible(p) then set i: nat | i < bytesPerPixel :: PixelPlace(p, i) else {}
    }

    lemma VisiblePasses(p: Point)
      requires Valid() && Visible(p)
      ensures Passes(p)
    {
    }

    lemma RowsBelow(r: nat)
      requires Valid() && r < height
      ensures r * Pitch() + Pitch() <= height * Pitch()
    {
      assert (r + 1) * Pitch() <= height * Pitch();
    }

    /** For a visible pixel the computed addresses are those of its bytes. */
    lemma TargetIsPlace(p: Point, i: nat)
      requires Valid() && Visible(p) && i < bytesPerPixel
      ensures Column(p.x) + i < Pitch() && Target(p, i) == PixelPlace(p, i)
    {
      hide Arch.Wrap;
      RowsBelow(p.y);
      assert Column(p.x) + i < Pitch();
      assert addr + p.y * Pitch() + Column(p.x) + i < WORD32;
    }

    /**
     fb_pixel writes exactly the bytes of the pixel, and none when there is no such pixel, exactly
     when the clipping test does not let an invisible point through.
     */
    lemma PixelIff(p: Point)
      requires Valid()
      ensures Written(p) == PixelPlaces(p) <==> Honest(p)
    {
      hide Target, Place;
      if Visible(p) {
        VisiblePasses(p);
        forall i: nat | i < bytesPerPixel ensures Target(p, i) == PixelPlace(p, i) { TargetIsPlace(p, i); }
      } else if Passes(p) {
        assert Target(p, 0) in Written(p);
      }
    }

    /** Coordinates for which the cut to 16 bits cannot matter. */
    predicate InReach(p: Point)
    {
      width - WORD16 <= p.x < WORD16 && height - WORD16 <= p.y < WORD16
    }

    /** Two places of the frame are the same only in the same row and byte. */
    lemma PlaceUnique(r: nat, b: nat, q: nat, c: nat)
      requires b < Pitch() && c < Pitch()
      ensures Place(r, b) == Place(q, c) <==> r == q && b == c
    {
      if Place(r, b) == Place(q, c) { RoundUnique(Pitch() - 1 - (q * Pitch() + c), r, q, Pitch()); }
    }

    // ----- the frame -----

    /** The frame as rows of bytes. */
    ghost function Rows(): (m: seq<seq<byte>>)
      reads frame
      ensures |m| == frame.Length0 && forall r :: 0 <= r < |m| ==> |m[r]| == frame.Length1
      ensures forall r, b :: 0 <= r < frame.Length0 && 0 <= b < frame.Length1 ==> m[r][b] == frame[r, b]
    {
      seq(frame.Length0, r requires 0 <= r < frame.Length0 reads frame =>
        seq<byte>(frame.Length1, b requires 0 <= b < frame.Length1 && 0 <= r < frame.Length0 reads frame => frame[r, b]))
    }

    ghost predicate Fits(m: seq<seq<byte>>)
    {
      |m| == frame.Length0 && forall r :: 0 <= r < |m| ==> |m[r]| == frame.Length1
    }

    /** Byte i of the pixel at p. */
    ghost function PixelByte(m: seq<seq<byte>>, p: Point, i: nat): byte
      requires Valid() && Fits(m) && Visible(p) && i < bytesPerPixel
    {
      m[p.y][Column(p.x) + i]
    }

    /** Byte i of a colour, least significant first. */
    static function ColourByte(c: nat, i: nat): byte
    {
      if i == 0 then c % 256 else if i == 1 then c / 256 % 256 else if i == 2 then c / 0x1_0000 % 256 else c / 0x100_0000 % 256
    }

    /** The bytes of a pixel, least significant first, read back as the colour, or as its low 24 bits. */
    static lemma ColourReadsBack(c: nat)
      requires c < 0x1_0000_0000
      ensures var b0: int, b1: int, b2: int, b3: int := ColourByte(c, 0), ColourByte(c, 1), ColourByte(c, 2), ColourByte(c, 3);
              && b0 + 0x100 * b1 + 0x1_0000 * b2 + 0x100_0000 * b3 == c
              && b0 + 0x100 * b1 + 0x1_0000 * b2 == c % 0x100_0000
    {
      var x, y := c / 0x100, c / 0x1_0000;
      assert c == 0x100 * x + c % 0x100 && x == 0x100 * (x / 0x100) + x % 0x100 && x / 0x100 == y;
      assert y == 0x100 * (y / 0x100) + y % 0x100 && y / 0x100 == c / 0x100_0000;
      assert c == 0x100_0000 * (c / 0x100_0000) + c % 0x100_0000;
    }

    /** Every visible pixel in ps shows colour c in n, every other one what it showed in m. */
    ghost predicate Painted(m: seq<seq<byte>>, n: seq<seq<byte>>, ps: seq<Point>, c: nat)
      requires Valid() && Fits(m) && Fits(n)
    {
      forall p: Point, i: nat :: Visible(p) && i < bytesPerPixel ==>
        PixelByte(n, p, i) == if p in ps then ColourByte(c, i) else PixelByte(m, p, i)
    }

    lemma PaintedMore(m: seq<seq<byte>>, n: seq<seq<byte>>, k: seq<seq<byte>>, ps: seq<Point>, q: Point, c: nat)
      requires Valid() && Fits(m) && Fits(n) && Fits(k)
      requires Painted(m, n, ps, c) && Painted(n, k, [q], c)
      ensures Painted(m, k, ps + [q], c)
    {
      hide ColourByte, PixelByte;
    }

    /** Every address of the frame is a place of it. */
    lemma PlaceFound(at: nat)
      requires Valid() && addr <= at < addr + height * Pitch()
      ensures Pitch() > 0
      ensures var r, b := RowOf(at - addr, Pitch()), ColumnOf(at - addr, Pitch());
              r < height && b < Pitch() && Place(r, b) == at
    {
      RowAndColumn(at - addr, height, Pitch());
      var q := (at - addr) / Pitch();
      assert at - addr == Pitch() * q + (at - addr) % Pitch();
      assert Pitch() * q == q * Pitch();
    }

    lemma PlaceInside(r: nat, b: nat)
      requires Valid() && r < height && b < Pitch()
      ensures addr <= Place(r, b) < addr + height * Pitch()
    {
      RowsBelow(r);
    }

    /** One byte store at any address: the frame's byte at that address changes, if it has one. */
    method StoreByte(at: nat, v: byte)
      requires Valid()
      modifies frame
      ensures forall r: nat, b: nat :: r < height && b < Pitch() ==>
                frame[r, b] == if Place(r, b) == at then v else old(frame[r, b])
    {
      hide Place, RowOf, ColumnOf;
      if addr <= at < addr + height * Pitch() {
        PlaceFound(at);
        var row, col := RowOf(at - addr, Pitch()), ColumnOf(at - addr, Pitch());
        frame[row, col] := v;
        forall r: nat, b: nat | r < height && b < Pitch() ensures Place(r, b) == at <==> r == row && b == col {
          PlaceUnique(r, b, row, col);
        }
      } else {
        forall r: nat, b: nat | r < height && b < Pitch() ensures Place(r, b) != at { PlaceInside(r, b); }
      }
    }

    lemma TargetsApart(p: Point, i: nat, j: nat)
      requires i < 4 && j < 4 && i != j
      ensures Target(p, i) != Target(p, j)
    {
    }

    /** After the first k bytes of a pixel: what the addresses written hold, and what nobody wrote. */
    ghost predicate Stored(m: seq<seq<byte>>, p: Point, c: nat, k: nat)
      requires Valid() && Fits(m) && k <= bytesPerPixel
      reads frame
    {
      && (forall r: nat, b: nat :: r < height && b < Pitch() && (forall j: nat :: j < k ==> Target(p, j) != Place(r, b)) ==>
            frame[r, b] == m[r][b])
      && (forall r: nat, b: nat, j: nat :: r < height && b < Pitch() && j < k && Target(p, j) == Place(r, b) ==>
            frame[r, b] == ColourByte(c, j))
    }

    /** A call of fb_pixel for p writes byte b of row r of the frame. */
    ghost predicate Hits(p: Point, r: nat, b: nat)
    {
      Passes(p) && exists i: nat :: i < bytesPerPixel && Target(p, i) == Place(r, b)
    }

    /** Between the frames m and n one call of fb_pixel for p wrote the colour c. */
    ghost predicate Wrote(m: seq<seq<byte>>, n: seq<seq<byte>>, p: Point, c: nat)
      requires Fits(m) && Fits(n)
    {
      && (forall r: nat, b: nat :: r < frame.Length0 && b < Pitch() && !Hits(p, r, b) ==> n[r][b] == m[r][b])
      && (forall r: nat, b: nat, i: nat :: r < frame.Length0 && b < Pitch() && Passes(p) && i < bytesPerPixel && Target(p, i) == Place(r, b) ==>
            n[r][b] == ColourByte(c, i))
    }

    lemma StoredWrote(m: seq<seq<byte>>, p: Point, c: nat)
      requires Valid() && Fits(m) && Stored(m, p, c, if Passes(p) then bytesPerPixel else 0)
      ensures Wrote(m, Rows(), p, c)
    {
      hide Target, Place, ColourByte, Passes;
    }

    /**
     fb_pixel: the bytes at the addresses written take the colour, no other byte of the frame
     changes, and an honest point is painted if it is visible.
     */
    method Pixel(x: int, y: int, c: nat) returns (ghost wrote: set<nat>)
      requires Valid() && c < WORD32
      modifies frame
      ensures wrote == Written(Point(x, y))
      ensures Wrote(old(Rows()), Rows(), Point(x, y), c)
      ensures Honest(Point(x, y)) ==> Painted(old(Rows()), Rows(), [Point(x, y)], c)
    {
      hide ColourByte, Painted, Rows, Target, Place, Wrote;
      var p := Point(x, y);
      ghost var m := Rows();
      wrote := {};
      if x % WORD16 >= width || y % WORD16 >= height {
        if Visible(p) { VisiblePasses(p); }
        ClippedPainted(m, p, c);
        StoredWrote(m, p, c);
        return;
      }
      for i := 0 to bytesPerPixel
        invariant wrote == set j: nat | j < i :: Target(p, j)
        invariant Stored(m, p, c, i)
      {
        forall j: nat | j < i ensures Target(p, j) != Target(p, i) { TargetsApart(p, i, j); }
        StoreByte(Target(p, i), ColourByte(c, i));
        wrote := wrote + {Target(p, i)};
      }
      StoredWrote(m, p, c);
      if Honest(p) { PixelPainted(m, p, c); }
    }

    lemma ClippedPainted(m: seq<seq<byte>>, p: Point, c: nat)
      requires Valid() && Fits(m) && !Visible(p)
      ensures Painted(m, m, [p], c)
    {
    }

    lemma PixelPainted(m: seq<seq<byte>>, q: Point, c: nat)
      requires Valid() && Fits(m) && Visible(q) && Stored(m, q, c, bytesPerPixel)
      ensures Painted(m, Rows(), [q], c)
    {
      hide ColourByte, Target, Place;
      forall p: Point, i: nat | Visible(p) && i < bytesPerPixel
        ensures PixelByte(Rows(), p, i) == if p in [q] then ColourByte(c, i) else PixelByte(m, p, i)
      {
        TargetIsPlace(p, i);
        if p != q {
          forall j: nat | j < bytesPerPixel ensures Target(q, j) != Place(p.y, Column(p.x) + i) {
            TargetIsPlace(q, j);
            PlaceUnique(p.y, Column(p.x) + i, q.y, Column(q.x) + j);
          }
        }
      }
    }

    ghost predicate AllHonest(ps: seq<Point>)
    {
      forall k :: 0 <= k < |ps| ==> Honest(ps[k])
    }

    /** What fb_pixel writes for each point of a sequence. */
    ghost function WrittenAll(ps: seq<Point>): (ws: seq<set<nat>>)
      ensures |ws| == |ps| && forall k :: 0 <= k < |ps| ==> ws[k] == Written(ps[k])
    {
      seq(|ps|, k requires 0 <= k < |ps| => Written(ps[k]))
    }

    /** All points of a line between two end points within reach are honest. */
    lemma ReachInside(a: Point, b: Point)
      requires Valid() && InReach(a) && InReach(b)
      ensures AllHonest(Line(a, b, Last(a, b) + 1))
    {
      hide LinePoint;
      forall k: nat | k <= Last(a, b) ensures Honest(LinePoint(a, b, k)) { LineInBox(a, b, k); }
    }

    /** Point by point, a line writes exactly its visible pixels exactly when all its points are honest. */
    lemma LineIff(ps: seq<Point>)
      requires Valid()
      ensures (forall k :: 0 <= k < |ps| ==> WrittenAll(ps)[k] == PixelPlaces(ps[k])) <==> AllHonest(ps)
    {
      forall k | 0 <= k < |ps| ensures WrittenAll(ps)[k] == PixelPlaces(ps[k]) <==> Honest(ps[k]) {
        PixelIff(ps[k]);
      }
    }

    /** Byte b of row r after calls of fb_pixel for ps on the frame m: the last call that hits it decides. */
    ghost function ByteAfter(m: seq<seq<byte>>, ps: seq<Point>, c: nat, r: nat, b: nat): byte
      requires Fits(m) && r < frame.Length0 && b < Pitch()
    {
      if ps == [] then m[r][b]
      else
        var p := ps[|ps| - 1];
        if Hits(p, r, b) then
          var i: nat :| i < bytesPerPixel && Target(p, i) == Place(r, b);
          ColourByte(c, i)
        else ByteAfter(m, ps[..|ps| - 1], c, r, b)
    }

    /** The frame n is what calls for ps make of m, wild ones included. */
    ghost predicate Made(m: seq<seq<byte>>, n: seq<seq<byte>>, ps: seq<Point>, c: nat)
      requires Fits(m) && Fits(n)
    {
      forall r: nat, b: nat :: r < frame.Length0 && b < Pitch() ==> n[r][b] == ByteAfter(m, ps, c, r, b)
    }

    lemma MadeMore(m: seq<seq<byte>>, n: seq<seq<byte>>, k: seq<seq<byte>>, ps: seq<Point>, p: Point, c: nat)
      requires Valid() && Fits(m) && Fits(n) && Fits(k) && Made(m, n, ps, c) && Wrote(n, k, p, c)
      ensures Made(m, k, ps + [p], c)
    {
      hide Target, Place, ColourByte, Passes;
      var qs := ps + [p];
      assert qs[|qs| - 1] == p && qs[..|qs| - 1] == ps;
      forall r: nat, b: nat | r < frame.Length0 && b < Pitch() ensures k[r][b] == ByteAfter(m, qs, c, r, b) {
        assert n[r][b] == ByteAfter(m, ps, c, r, b);
      }
    }

    /** One more call of fb_pixel, after those for pts turned the frame m into the present one. */
    method Plot(x: int, y: int, c: nat, ghost m: seq<seq<byte>>, ghost pts: seq<Point>, ghost wrote: seq<set<nat>>)
      returns (ghost ps: seq<Point>, ghost ws: seq<set<nat>>)
      requires Valid() && c < WORD32 && Fits(m)
      requires wrote == WrittenAll(pts) && Made(m, Rows(), pts, c) && (AllHonest(pts) ==> Painted(m, Rows(), pts, c))
      modifies frame
      ensures ps == pts + [Point(x, y)] && ws == WrittenAll(ps) && Made(m, Rows(), ps, c)
      ensures AllHonest(ps) ==> Painted(m, Rows(), ps, c)
    {
      hide Painted, Rows, Honest, Written, Made, Wrote;
      ghost var was := Rows();
      ghost var w := Pixel(x, y, c);
      MadeMore(m, was, Rows(), pts, Point(x, y), c);
      ps, ws := pts + [Point(x, y)], wrote + [w];
      assert ps[..|pts|] == pts && ps[|pts|] == Point(x, y);
      if AllHonest(ps) {
        assert forall k :: 0 <= k < |pts| ==> pts[k] == ps[k];
        PaintedMore(m, was, Rows(), pts, Point(x, y), c);
      }
    }

    /**
     fb_line, for end points whose differences fit an int: it ends, it calls fb_pixel for exactly
     the points of the ideal line, in order, the frame is what these calls make of it, byte by byte,
     and if the points are honest the visible ones are painted.
     */
    method DrawLine(x0: int, y0: int, x1: int, y1: int, c: nat) returns (ghost pts: seq<Point>, ghost wrote: seq<set<nat>>)
      requires Valid() && c < WORD32
      requires IsInt(x0) && IsInt(y0) && IsInt(x1) && IsInt(y1)
      requires Abs(x1 - x0) <= INT_MAX && Abs(y1 - y0) <= INT_MAX
      modifies frame
      ensures pts == Line(Point(x0, y0), Point(x1, y1), Last(Point(x0, y0), Point(x1, y1)) + 1)
      ensures wrote == WrittenAll(pts) && Made(old(Rows()), Rows(), pts, c)
      ensures AllHonest(pts) ==> Painted(old(Rows()), Rows(), pts, c)
    {
      hide LinePoint, Nearest, Error, Column, Painted, Rows, AllHonest, WrittenAll, Made;
      ghost var a, b := Point(x0, y0), Point(x1, y1);
      var dx, dy := x1 - x0, y1 - y0;
      var ax, ay := if dx < 0 then -dx else dx, if dy < 0 then -dy else dy;
      var sx, sy := if dx < 0 then -1 else 1, if dy < 0 then -1 else 1;
      var err := if ax > ay then ax / 2 else -(ay / 2);
      var x, y := x0, y0;
      ghost var k := 0;
      pts, wrote := [], [];
      LineEnds(a, b);
      ErrorStart(a, b);
      NothingPainted(Rows(), c);
      NothingMade(c);
      assert WrittenAll([]) == [];
      while true
        invariant k <= Last(a, b) && pts == Line(a, b, k) && wrote == WrittenAll(pts)
        invariant Point(x, y) == LinePoint(a, b, k) && err == Error(a, b, k)
        invariant Made(old(Rows()), Rows(), pts, c)
        invariant AllHonest(pts) ==> Painted(old(Rows()), Rows(), pts, c)
        decreases Last(a, b) - k
      {
        pts, wrote := Plot(x, y, c, old(Rows()), pts, wrote);
        assert pts == Line(a, b, k + 1);
        Arrival(a, b, k);
        if x == x1 && y == y1 { break; }
        x, y, err := Onward(x, y, err, ax, ay, sx, sy, a, b, k);
        k := k + 1;
      }
    }

    /** One turn of the loop goes from point k of the line to the next. */
    method Onward(x0: int, y0: int, err0: int, ax: int, ay: int, sx: int, sy: int, ghost a: Point, ghost b: Point, ghost k: nat)
      returns (x: int, y: int, err: int)
      requires k < Last(a, b) && Point(x0, y0) == LinePoint(a, b, k) && err0 == Error(a, b, k)
      requires ax == Abs(b.x - a.x) <= INT_MAX && ay == Abs(b.y - a.y) <= INT_MAX
      requires sx == Sign(b.x - a.x) && sy == Sign(b.y - a.y)
      ensures Point(x, y) == LinePoint(a, b, k + 1) && err == Error(a, b, k + 1)
    {
      hide LinePoint, Nearest, Error;
      Advance(a, b, k);
      x, y, err := Turn(x0, y0, err0, ax, ay, sx, sy);
    }

    /** The two tests of the loop body. The sums are taken in 32-bit two's complement. */
    method Turn(x0: int, y0: int, err0: int, ax: int, ay: int, sx: int, sy: int) returns (x: int, y: int, err: int)
      requires 0 <= ax <= INT_MAX && 0 <= ay <= INT_MAX
      requires if ax > ay then 0 <= err0 < ax else -ay < err0 <= 0
      ensures Turns(ax, ay, err0, err, Point(x0, y0), Point(x, y), sx, sy)
    {
      x, y, err := x0, y0, err0;
      var e2 := err;
      if e2 > -ax {
        err := Wrap32(err - ay);
        x := x + sx;
      }
      if e2 < ay {
        err := Wrap32(err + ax);
        y := y + sy;
      }
    }

    lemma NothingMade(c: nat)
      ensures Made(Rows(), Rows(), [], c)
    {
    }

    lemma NothingPainted(m: seq<seq<byte>>, c: nat)
      requires Valid() && Fits(m)
      ensures Painted(m, m, [], c)
    {
    }
  }

  function RowOf(at: nat, pitch: nat): nat
    requires pitch > 0
  {
    at / pitch
  }

  function ColumnOf(at: nat, pitch: nat): nat
    requires pitch > 0
  {
    at % pitch
  }

  lemma RowAndColumn(at: nat, height: nat, pitch: nat)
    requires at < height * pitch
    ensures pitch > 0 && RowOf(at, pitch) < height && ColumnOf(at, pitch) < pitch
  {
    assert pitch == 0 ==> height * pitch == 0;
    var r := at / pitch;
    assert at == pitch * r + at % pitch;
    assert r >= height ==> pitch * r >= pitch * height;
  }

  /**
   A point the clipping test lets through although it is invisible: (65536, 0) on a screen of 640
   by 480 with 32 bits writes the pixel at (256, 102). A point further out is clipped as it should be.
   */
  lemma WildPixel(fb: Framebuffer)
    requires fb.Valid() && fb.width == 640 && fb.height == 480 && fb.bytesPerPixel == 4 && fb.Pitch() == 2560
    ensures var p := Point(65536, 0);
            !fb.Visible(p) && fb.Passes(p) && !fb.Honest(p) && fb.Written(p) == fb.PixelPlaces(Point(256, 102)) != {}
    ensures fb.Honest(Point(70000, 0)) && fb.Written(Point(70000, 0)) == {}
  {
    var p, q := Point(65536, 0), Point(256, 102);
    forall i: nat | i < 4 ensures fb.Target(p, i) == fb.Target(q, i) == fb.PixelPlace(q, i) {
      fb.TargetIsPlace(q, i);
    }
    fb.PixelIff(q);
    fb.VisiblePasses(q);
    assert fb.Target(q, 0) in fb.Written(q);
  }

  /** The error variable after k steps. */
  ghost function Error(a: Point, b: Point, k: nat): int
  {
    var ax, ay := Abs(b.x - a.x), Abs(b.y - a.y);
    if ax > ay then ax / 2 - k * ay + Nearest(k, ax, ay) * ax
    else if ay > 0 then -(ay / 2 - k * ax + Nearest(k, ay, ax) * ay)
    else 0
  }

  lemma ErrorStart(a: Point, b: Point)
    ensures var ax, ay := Abs(b.x - a.x), Abs(b.y - a.y);
            Error(a, b, 0) == if ax > ay then ax / 2 else -(ay / 2)
  {
    var ax, ay := Abs(b.x - a.x), Abs(b.y - a.y);
    if ax > ay { NearestEnds(ax, ay); } else if ay > 0 { NearestEnds(ay, ax); }
  }

  /** The end point is met at the last step and not before. */
  lemma Arrival(a: Point, b: Point, k: nat)
    requires k <= Last(a, b)
    ensures LinePoint(a, b, k) == b <==> k == Last(a, b)
  {
    LineEnds(a, b);
  }

  /** One turn of the loop: which coordinates move, and how the error changes. */
  ghost predicate Turns(ax: int, ay: int, e: int, f: int, p: Point, n: Point, sx: int, sy: int)
  {
    && n.x == (if e > -ax then p.x + sx else p.x)
    && n.y == (if e < ay then p.y + sy else p.y)
    && f == e - (if e > -ax then ay else 0) + (if e < ay then ax else 0)
    && (if ax > ay then 0 <= e < ax else -ay < e <= 0)
  }

  lemma Advance(a: Point, b: Point, k: nat)
    requires k < Last(a, b)
    ensures Turns(Abs(b.x - a.x), Abs(b.y - a.y), Error(a, b, k), Error(a, b, k + 1),
                  LinePoint(a, b, k), LinePoint(a, b, k + 1), Sign(b.x - a.x), Sign(b.y - a.y))
  {
    hide Nearest;
    var ax, ay := Abs(b.x - a.x), Abs(b.y - a.y);
    if ax > ay {
      NearestStep(k, ax, ay);
      ErrorStep(k, ax, ay);
      TimesNext(Sign(b.x - a.x), k);
      TimesNext(Sign(b.y - a.y), Nearest(k, ax, ay));
    } else {
      NearestStep(k, ay, ax);
      ErrorStep(k, ay, ax);
      TimesNext(Sign(b.y - a.y), k);
      TimesNext(Sign(b.x - a.x), Nearest(k, ay, ax));
    }
  }

  lemma TimesNext(s: int, k: nat)
    ensures s * (k + 1) == s * k + s
  {
  }

  /** The common part of both directions: the error before and after one step of the longer axis. */
  lemma ErrorStep(k: nat, major: nat, minor: nat)
    requires major > 0 && minor <= major
    ensures var e := major / 2 - k * minor + Nearest(k, major, minor) * major;
            && 0 <= e < major
            && major / 2 - (k + 1) * minor + Nearest(k + 1, major, minor) * major
               == e - minor + (if e < minor then major else 0)
  {
    hide Nearest;
    var q := Nearest(k, major, minor);
    NearestStep(k, major, minor);
    assert (k + 1) * minor == k * minor + minor;
    assert (q + 1) * major == q * major + major;
  }

  // ----- the error between the two tests -----

  /** In turn k the first test holds, and the error it leaves is not an int. */
  ghost predicate Overflows(a: Point, b: Point, k: nat)
  {
    var ax: int, ay: int := Abs(b.x - a.x), Abs(b.y - a.y);
    Error(a, b, k) > -ax && !IsInt(Error(a, b, k) - ay)
  }

  /** The largest error below ax, without its sign, that a steep line meets. */
  function Worst(ax: nat, ay: nat): int
    requires ax > 0
  {
    var g := Gcd(ax, ay);
    if g == 0 then 0 else ax - g + ay / 2 % g
  }

  /**
   Between the two tests the error leaves the range of int in some turn of the line exactly when the
   line is steep and its largest error below ax, added to ay, passes 2 to the 31. The errors a
   steep line meets are those that leave the same remainder as ay / 2 modulo the common divisor.
   */
  lemma OverflowsIff(a: Point, b: Point)
    requires Abs(b.x - a.x) <= INT_MAX && Abs(b.y - a.y) <= INT_MAX
    ensures var ax, ay := Abs(b.x - a.x), Abs(b.y - a.y);
            (exists k: nat :: k < Last(a, b) && Overflows(a, b, k))
            <==> 0 < ax <= ay && Worst(ax, ay) + ay > INT_MAX + 1
  {
    hide Error, Worst;
    var ax, ay := Abs(b.x - a.x), Abs(b.y - a.y);
    if k: nat :| k < Last(a, b) && Overflows(a, b, k) {
      Advance(a, b, k);
      if ax <= ay {
        SteepError(a, b, k);
        AtMostWorst(k, ax, ay, -Error(a, b, k));
      }
    }
    if 0 < ax <= ay && Worst(ax, ay) + ay > INT_MAX + 1 {
      var k := WorstMet(ax, ay);
      SteepError(a, b, k);
      assert Overflows(a, b, k);
    }
  }

  lemma SteepError(a: Point, b: Point, k: nat)
    requires Abs(b.x - a.x) <= Abs(b.y - a.y) && Abs(b.y - a.y) > 0
    ensures var ax, ay := Abs(b.x - a.x), Abs(b.y - a.y);
            -Error(a, b, k) == Residue(k, ax, ay, Nearest(k, ay, ax))
  {
  }

  function Residue(k: nat, ax: nat, ay: nat, q: int): int { ay / 2 - k * ax + q * ay }

  /** An error below ax is at most the worst one. */
  lemma AtMostWorst(k: nat, ax: nat, ay: nat, e: int)
    requires 0 <= e < ax <= ay && e == Residue(k, ax, ay, Nearest(k, ay, ax))
    ensures e <= Worst(ax, ay)
  {
    hide Nearest, Gcd;
    var m, n := GcdDivides(ax, ay);
    var g, q := Gcd(ax, ay), Nearest(k, ay, ax);
    var c, h := Division(ay / 2, g);
    var t := c - k * m + q * n;
    Regroup(e, g, c, h, k, m, q, n, ax, ay);
    BelowMultiple(t, m, g, h);
  }

  lemma Regroup(e: int, g: nat, c: nat, h: nat, k: nat, m: nat, q: int, n: nat, ax: nat, ay: nat)
    requires ay / 2 == g * c + h && ax == m * g && ay == n * g
    requires e == ay / 2 - k * ax + q * ay
    ensures e == (c - k * m + q * n) * g + h
  {
    assert k * ax == k * m * g;
    assert q * ay == q * n * g;
    assert (c - k * m + q * n) * g == c * g - k * m * g + q * n * g;
  }

  lemma BelowMultiple(t: int, m: nat, g: nat, h: nat)
    requires g > 0 && t * g + h < m * g
    ensures t * g + h <= m * g - g + h
  {
    TimesMono(t, m, g);
    TimesMono(m - 1, t, g);
    assert (m - 1) * g == m * g - g;
  }

  lemma WorstForm(ax: nat, ay: nat) returns (t: int)
    requires 0 < ax <= ay
    ensures Gcd(ax, ay) > 0 && ay / 2 - Worst(ax, ay) == t * Gcd(ax, ay) && 0 <= Worst(ax, ay) < ax
  {
    hide Gcd;
    var m, n := GcdDivides(ax, ay);
    var g := Gcd(ax, ay);
    var c, h := Division(ay / 2, g);
    t := (c as int) - m + 1;
    TimesMono(m, 1, g);
    assert t * g + m * g == c * g + g;
    assert g * c == c * g;
  }

  /** Some turn of a steep line meets the worst error. */
  lemma WorstMet(ax: nat, ay: nat) returns (k: nat)
    requires 0 < ax <= ay
    ensures k < ay && Residue(k, ax, ay, Nearest(k, ay, ax)) == Worst(ax, ay) && 0 <= Worst(ax, ay) < ax
  {
    hide Nearest, Gcd, Worst;
    var g, e := Gcd(ax, ay), Worst(ax, ay);
    var t := WorstForm(ax, ay);
    var u, v := Bezout(ax, ay);
    var w, q: int;
    k, w := Reduce(t * u, ay);
    q := -(t * v + w * ax);
    Solve(k, w, t, u, v, ax, ay, g);
    assert Residue(k, ax, ay, q) == e;
    NearestUnique(k, ay, ax, q);
  }

  lemma Reduce(x: int, d: nat) returns (k: nat, w: int)
    requires d > 0
    ensures k < d && x == w * d + k
  {
    k, w := x % d, x / d;
  }

  lemma Solve(k: nat, w: int, t: int, u: int, v: int, ax: nat, ay: nat, g: nat)
    requires u * ax + v * ay == g && t * u == w * ay + k
    ensures k * ax == t * g - (t * v + w * ax) * ay
  {
    assert t * u * ax == w * ay * ax + k * ax;
    assert t * (u * ax + v * ay) == t * u * ax + t * v * ay;
    assert (t * v + w * ax) * ay == t * v * ay + w * ax * ay;
    assert w * ay * ax == w * ax * ay;
  }

  /** As on the first turn of the longest diagonal. */
  lemma LongestDiagonal()
    ensures Overflows(Point(0, 0), Point(INT_MAX, INT_MAX), 0)
  {
    ErrorStart(Point(0, 0), Point(INT_MAX, INT_MAX));
  }
}
