/** draw_line of kernel/src/graphics/graphics.c: Bresenham's loop, over the pixels it hands to draw_pixel. */
module Lines {
  datatype Point = Point(x: int, y: int)

  function Abs(x: int): nat {
    if x < 0 then -x else x
  }

  function Max(a: int, b: int): int {
    if a < b then b else a
  }

  function Min(a: int, b: int): int {
    if a < b then a else b
  }

  /** The step direction from `a` to `b`. */
  function Direction(a: int, b: int): int {
    if a < b then 1 else -1
  }

  /** The coordinate `i` steps from `a` towards `b`. */
  function Along(a: int, b: int, i: nat): int {
    a + Direction(a, b) * i
  }

  lemma AlongNext(a: int, b: int, i: nat)
    ensures Along(a, b, 0) == a && Along(a, b, i + 1) == Along(a, b, i) + Direction(a, b)
    ensures Along(a, b, i) == b <==> i == Abs(b - a)
    ensures Abs(Along(a, b, i) - a) == i
  {
  }

  /** Pixel number `n` of the line: `n` steps along every axis that is as long as the other, never past
      the end point, and at most half a unit away from the ideal line along the shorter axis. The distance
      is |j - b * i / a| for a >= b, and |i - a * j / b| otherwise, multiplied out. */
  predicate OnLine(from: Point, to: Point, p: Point, n: nat) {
    var a, b := Abs(to.x - from.x), Abs(to.y - from.y);
    var i, j := Abs(p.x - from.x), Abs(p.y - from.y);
    && p == Point(Along(from.x, to.x, i), Along(from.y, to.y, j))
    && i <= a && j <= b && (a >= b ==> i == n) && (b >= a ==> j == n)
    && Abs(2 * (a * j - b * i)) <= Max(a, b)
  }

  /** After `n` steps the loop has made `i` steps across and `j` steps up, its error term is in step with
      them, and the doubled deviation is at most the longer side. */
  ghost predicate Inv(a: nat, b: nat, n: nat, i: nat, j: nat, err: int) {
    && err == a * j - b * i + a - b && Abs(2 * (a * j - b * i)) <= Max(a, b)
    && (a >= b ==> i == n) && (b >= a ==> j == n) && n <= Max(a, b)
  }

  /** One pass: the longer axis always advances and the invariant is kept. */
  lemma StepKeeps(a: nat, b: nat, n: nat, i: nat, j: nat, err: int, right: bool, up: bool)
    requires Inv(a, b, n, i, j, err) && n < Max(a, b)
    requires right == (2 * err + b >= 0) && up == (2 * err <= a)
    ensures (a >= b ==> right) && (b >= a ==> up)
    ensures Inv(a, b, n + 1, i + One(right), j + One(up), err - (if right then b else 0) + (if up then a else 0))
  {
    assert a * (j + 1) == a * j + a && b * (i + 1) == b * i + b;
  }

  function One(taken: bool): nat {
    if taken then 1 else 0
  }

  /** The deviation bound closes on the end point: the loop is there exactly after max(a, b) steps. */
  lemma AtEnd(a: nat, b: nat, n: nat, i: nat, j: nat, err: int)
    requires Inv(a, b, n, i, j, err)
    ensures i <= a && j <= b
    ensures i == a && j == b <==> n == Max(a, b)
  {
    if a >= b {
      MinorAxis(a, b, i, j);
    } else {
      MinorAxis(b, a, j, i);
    }
  }

  lemma MinorAxis(a: nat, b: nat, i: nat, j: nat)
    requires b <= a && i <= a && Abs(2 * (a * j - b * i)) <= a && (b == a ==> i == j)
    ensures j <= b && (i == a ==> j == b)
  {
    Multiples(a, b, j);
    Multiples(b, a, i);
    Squeeze(a, b, i, j, a * j, b * i, a * b);
  }

  lemma Multiples(k: nat, x: nat, y: nat)
    ensures k * x == x * k && (x < y ==> k * x + k <= k * y) && (y < x ==> k * y + k <= k * x)
  {
    if x < y {
      Gap(k, x, y - x - 1);
    } else if y < x {
      Gap(k, y, x - y - 1);
    }
  }

  lemma Gap(k: nat, x: nat, d: nat)
    ensures k * (x + d + 1) == k * x + k * d + k && k * d >= 0
  {
  }

  /** The argument of MinorAxis on the values of the products. */
  lemma Squeeze(a: nat, b: nat, i: nat, j: nat, aj: int, bi: int, ab: int)
    requires b <= a && i <= a && Abs(2 * (aj - bi)) <= a && (b == a ==> i == j) && (a == 0 ==> aj == bi)
    requires bi <= ab && (i == a ==> bi == ab) && (b < j ==> ab + a <= aj) && (j < b ==> aj + a <= ab)
    ensures j <= b && (i == a ==> j == b)
  {
  }

  /** `2 * err` stays within three times the longer side less twice the shorter. */
  lemma DoubledError(a: nat, b: nat, n: nat, i: nat, j: nat, err: int)
    requires Inv(a, b, n, i, j, err)
    ensures Abs(2 * err) <= 3 * Max(a, b) - 2 * Min(a, b)
  {
  }

  lemma InvOnLine(from: Point, to: Point, n: nat, i: nat, j: nat, err: int)
    requires Inv(Abs(to.x - from.x), Abs(to.y - from.y), n, i, j, err)
    ensures OnLine(from, to, Point(Along(from.x, to.x, i), Along(from.y, to.y, j)), n)
  {
    AlongNext(from.x, to.x, i);
    AlongNext(from.y, to.y, j);
    AtEnd(Abs(to.x - from.x), Abs(to.y - from.y), n, i, j, err);
  }

  /** Every pixel is where its number puts it. */
  ghost predicate AllOnLine(from: Point, to: Point, pixels: seq<Point>) {
    forall n :: 0 <= n < |pixels| ==> OnLine(from, to, pixels[n], n)
  }

  /** Three times the longer side less twice the shorter one. */
  function ErrorBound(from: Point, to: Point): int {
    var a, b := Abs(to.x - from.x), Abs(to.y - from.y);
    3 * Max(a, b) - 2 * Min(a, b)
  }

  ghost predicate AllWithin(doubled: seq<int>, bound: int) {
    forall n :: 0 <= n < |doubled| ==> Abs(doubled[n]) <= bound
  }

  lemma NothingDrawn(from: Point, to: Point)
    ensures AllOnLine(from, to, []) && AllWithin([], ErrorBound(from, to))
  {
  }

  lemma OneMorePixel(from: Point, to: Point, pixels: seq<Point>, p: Point)
    requires AllOnLine(from, to, pixels) && OnLine(from, to, p, |pixels|)
    ensures AllOnLine(from, to, pixels + [p])
  {
    hide OnLine;
  }

  lemma OneMoreError(from: Point, to: Point, doubled: seq<int>, e2: int)
    requires AllWithin(doubled, ErrorBound(from, to))
    requires var a, b := Abs(to.x - from.x), Abs(to.y - from.y); Abs(e2) <= 3 * Max(a, b) - 2 * Min(a, b)
    ensures AllWithin(doubled + [e2], ErrorBound(from, to))
  {
  }

  /** `draw_line`. `doubled` collects the values of `e2`, the largest that the loop computes: the machine's
      run is this one as long as they fit in an int, so whenever three times the longer side less twice the
      shorter one does. */
  method DrawLine(from: Point, to: Point) returns (pixels: seq<Point>, ghost doubled: seq<int>)
    ensures |pixels| == Max(Abs(to.x - from.x), Abs(to.y - from.y)) + 1
    ensures pixels[0] == from && pixels[|pixels| - 1] == to
    ensures AllOnLine(from, to, pixels)
    ensures |doubled| == |pixels| - 1
    ensures AllWithin(doubled, ErrorBound(from, to))
  {
    hide OnLine, AllOnLine, AllWithin, Inv, Direction, Along, ErrorBound;
    var x, y := from.x, from.y;
    var dx: int := Abs(to.x - x);
    var sx := Direction(x, to.x);
    var dy: int := -(Abs(to.y - y) as int);
    var sy := Direction(y, to.y);
    var err := dx + dy;
    ghost var a: nat, b: nat, i: nat, j: nat := dx, -dy, 0, 0;
    Start(a, b);
    AlongNext(from.x, to.x, 0);
    AlongNext(from.y, to.y, 0);
    pixels, doubled := [], [];
    NothingDrawn(from, to);
    while true
      invariant Inv(a, b, |pixels|, i, j, err)
      invariant x == Along(from.x, to.x, i) && y == Along(from.y, to.y, j)
      invariant |pixels| <= Max(a, b) && |doubled| == |pixels|
      invariant AllOnLine(from, to, pixels)
      invariant |pixels| > 0 ==> pixels[0] == from
      invariant |pixels| == 0 ==> i == 0 && j == 0
      invariant AllWithin(doubled, ErrorBound(from, to))
      decreases Max(a, b) - |pixels|
    {
      ghost var n := |pixels|;
      InvOnLine(from, to, n, i, j, err);
      AlongNext(from.x, to.x, i);
      AlongNext(from.y, to.y, j);
      AtEnd(a, b, n, i, j, err);
      OneMorePixel(from, to, pixels, Point(x, y));
      pixels := pixels + [Point(x, y)];
      if x == to.x && y == to.y {
        break;
      }
      var e2 := 2 * err;
      DoubledError(a, b, n, i, j, err);
      OneMoreError(from, to, doubled, e2);
      doubled := doubled + [e2];
      StepKeeps(a, b, n, i, j, err, e2 >= dy, e2 <= dx);
      if e2 >= dy {
        err := err + dy;
        x := x + sx;
        i := i + 1;
      }
      if e2 <= dx {
        err := err + dx;
        y := y + sy;
        j := j + 1;
      }
    }
  }

  lemma Start(a: nat, b: nat)
    ensures Inv(a, b, 0, 0, 0, a - b)
  {
  }
}
