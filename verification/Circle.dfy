/** The stepping of bagl_draw_circle_helper (lib_bagl/src/bagl.c): which columns an octant of a circle reaches. */
module Circle {
  /** The int of the target. */
  type cint = x: int | -0x8000_0000 <= x < 0x8000_0000

  /** The largest radius for which the int variables do not overflow. */
  const LARGEST_RADIUS := 0x4000_8002

  /** A row: as the source steps, the distance x that is drawn at height y. */
  datatype Point = Point(x: int, y: int)

  /** x is within half a step of the circle, in integers. */
  predicate OnCircle(p: Point, r: int) {
    p.x * p.x - p.x + p.y * p.y <= r * r < p.x * p.x + p.x + p.y * p.y
  }

  /** What every drawn row satisfies; a circle of radius zero is a single point. */
  predicate Drawn(p: Point, r: int) {
    0 <= p.y <= p.x <= r && if r > 0 then OnCircle(p, r) else p == Point(0, 0)
  }

  /** Half the midpoint criterion. */
  function Decision(p: Point, r: int): int {
    (p.y + 1) * (p.y + 1) + p.x * p.x - p.x - r * r
  }

  /** The least square of a radius for which height y is reached before the diagonal. */
  function Diagonal(y: int): int { 2 * y * y - y }

  /** The next row. */
  function Next(p: Point, d: int): Point {
    if d <= 0 then Point(p.x, p.y + 1) else Point(p.x - 1, p.y + 1)
  }

  /** The criterion is brought up to date by adding to it. */
  lemma DecisionStep(p: Point, r: int)
    ensures var q := Next(p, Decision(p, r));
      Decision(q, r) == Decision(p, r) + if Decision(p, r) <= 0 then 2 * q.y + 1 else 2 * (q.y - q.x) + 1
  {
    var x, y := p.x, p.y;
    assert (y + 2) * (y + 2) == (y + 1) * (y + 1) + 2 * (y + 1) + 1;
    assert (x - 1) * (x - 1) == x * x - 2 * x + 1;
  }

  /** As long as the next row is to be drawn, it is on the circle; and when it is not, its height is beyond the
      diagonal. */
  lemma StaysOnCircle(p: Point, r: int)
    requires Drawn(p, r)
    ensures var q := Next(p, Decision(p, r));
      if q.y <= q.x then Drawn(q, r) else Diagonal(q.y) > r * r
  {
    if r == 0 {
      assert Diagonal(1) == 1;
    } else if Decision(p, r) <= 0 {
      StepUp(p.x, p.y, r);
    } else {
      StepIn(p.x, p.y, r);
    }
  }

  lemma StepUp(x: int, y: int, r: int)
    requires OnCircle(Point(x, y), r) && 0 <= y <= x && Decision(Point(x, y), r) <= 0
    ensures y < x && OnCircle(Point(x, y + 1), r)
  {
    assert (y + 1) * (y + 1) == y * y + 2 * y + 1;
  }

  lemma StepIn(x: int, y: int, r: int)
    requires OnCircle(Point(x, y), r) && 0 <= y <= x && Decision(Point(x, y), r) > 0
    ensures if y + 1 <= x - 1 then OnCircle(Point(x - 1, y + 1), r) else Diagonal(y + 1) > r * r
  {
    assert (y + 1) * (y + 1) == y * y + 2 * y + 1;
    assert (x - 1) * (x - 1) == x * x - 2 * x + 1;
  }

  /** The criterion stays small, so it does not overflow. */
  lemma DecisionBounds(p: Point, r: int)
    requires Drawn(p, r)
    ensures 2 * p.y + 1 - 2 * p.x <= Decision(p, r) <= 2 * p.y + 1 && 0 <= p.y <= p.x <= r
  {
    assert (p.y + 1) * (p.y + 1) == p.y * p.y + 2 * p.y + 1;
  }

  /** The heights drawn are at most three quarters of the radius, and a little. */
  lemma HeightBound(y: nat, r: nat)
    requires Diagonal(y) <= r * r
    ensures 4 * y <= 3 * r + 6
  {
    var m := 4 * y - 1;
    assert m * m == 8 * Diagonal(y) + 1;
    if m >= 3 * r + 6 {
      SquaresOrder(3 * r + 6, m);
    }
  }

  /** A step inward comes late, so the two coordinates are never as far apart as twice the radius. */
  lemma InwardLate(p: Point, r: int)
    requires Drawn(p, r) && Decision(p, r) > 0
    ensures (p.y + 1) * (p.y + 1) > r
  {
    SquaresOrder(p.x, r);
  }

  /** What the expressions of the loop amount to. */
  lemma StepFits(p: Point, r: int)
    requires Drawn(p, r) && r <= LARGEST_RADIUS
    ensures 4 * p.y <= 3 * r + 6 && Decision(p, r) <= 2 * p.y + 1
    ensures Decision(p, r) > 0 ==> -0x4000_0000 <= (p.y + 1) - (p.x - 1) <= 2
  {
    DecisionBounds(p, r);
    RowsInside(p, r);
    HeightBound(p.y, r);
    if Decision(p, r) > 0 && r > 0x4000_0000 {
      InwardLate(p, r);
      if p.y + 1 <= 0x8000 {
        SquaresOrder(p.y + 1, 0x8000);
      }
    }
  }

  /** The first row behind which x decreases. */
  ghost predicate FirstInward(y: nat, r: int) {
    (forall k: nat :: k <= y ==> Drawn(Point(r, k), r)) &&
    (forall k: nat :: k < y ==> Decision(Point(r, k), r) <= 0) &&
    Decision(Point(r, y), r) > 0
  }

  /** Beyond it, twice the difference y - x is below the int range when x decreases for the first time. */
  lemma OverflowsBeyond(r: int)
    requires LARGEST_RADIUS < r < 0x8000_0000
    ensures exists y: nat :: FirstInward(y, r) && 2 * ((y + 1) - (r - 1)) < -0x8000_0000
  {
    var y := RootExists(r);
    forall k: nat | k <= y ensures Drawn(Point(r, k), r) && (k < y ==> Decision(Point(r, k), r) <= 0) {
      BeforeInward(k, y, r);
    }
    assert FirstInward(y, r);
    if y > 0x8000 {
      SquaresOrder(0x8001, y);
    }
  }

  lemma BeforeInward(k: nat, y: nat, r: nat)
    requires k <= y && y * y <= r && r > 0
    ensures Drawn(Point(r, k), r) && (k < y ==> Decision(Point(r, k), r) <= 0)
  {
    SquaresOrder(k, y);
    assert y <= y * y;
    if k < y {
      SquaresOrder(k + 1, y);
    }
  }

  lemma RootExists(n: nat) returns (y: nat)
    ensures y * y <= n < (y + 1) * (y + 1)
  {
    y := 0;
    while (y + 1) * (y + 1) <= n
      invariant y * y <= n
      decreases n - y * y
    {
      y := y + 1;
    }
  }

  lemma SquaresOrder(m: nat, n: nat)
    requires m <= n
    ensures m * m - m <= n * n - n && m * m <= n * n
  {
    var d := n - m;
    assert n * n == m * m + 2 * (d * m) + d * d;
    assert d * m >= 0 && d * d >= d;
  }

  lemma DiagonalOrder(m: nat, n: nat)
    requires m <= n
    ensures Diagonal(m) <= Diagonal(n)
  {
    SquaresOrder(m, n);
    assert Diagonal(m) == m * m + (m * m - m) && Diagonal(n) == n * n + (n * n - n);
  }

  lemma RowsInside(p: Point, r: int)
    requires Drawn(p, r)
    ensures Diagonal(p.y) <= r * r
  {
    SquaresOrder(p.y, p.x);
    assert Diagonal(p.y) == p.y * p.y + (p.y * p.y - p.y);
  }

  lemma Start(r: int)
    requires r >= 0
    ensures Decision(Point(r, 0), r) == 1 - r && Drawn(Point(r, 0), r)
  {
  }

  /** The loop, with its rows in order: row y is drawn exactly if its height is reached before the diagonal, and at the
      nearest column exactly if the square of its exact distance is not the product of two consecutive numbers. */
  method Rows(radius: int) returns (points: seq<Point>)
    requires 0 <= radius <= LARGEST_RADIUS
    ensures forall k :: 0 <= k < |points| ==> points[k].y == k && Drawn(points[k], radius)
    ensures forall y: nat :: y < |points| <==> Diagonal(y) <= radius * radius
    ensures radius > 0 ==> forall k :: 0 <= k < |points| ==>
      (NearestRoot(points[k].x, radius * radius - k * k) <==> !IsPronic(radius * radius - k * k))
  {
    assert radius <= 0x4000_8002;
    hide *;
    Start(radius);
    var x: cint, y: cint := radius, 0;
    var decisionOver2: cint := 1 - x;
    points := [];
    while y <= x
      invariant 0 <= y == |points| && x <= radius && y <= radius + 1
      invariant decisionOver2 == Decision(Point(x, y), radius)
      invariant forall k :: 0 <= k < |points| ==> points[k].y == k && Drawn(points[k], radius)
      invariant if y <= x then Drawn(Point(x, y), radius) else Diagonal(y) > radius * radius
      decreases x - y
    {
      var p := Point(x, y);
      points := points + [p];
      DecisionStep(p, radius);
      StaysOnCircle(p, radius);
      StepFits(p, radius);
      DecisionBounds(p, radius);
      NextIs(p, decisionOver2);
      y := y + 1;
      if decisionOver2 <= 0 {
        var twice: cint := 2 * y;
        var growth: cint := twice + 1;
        decisionOver2 := decisionOver2 + growth;
      } else {
        x := x - 1;
        var gap: cint := y - x;
        var twice: cint := 2 * gap;
        var growth: cint := twice + 1;
        decisionOver2 := decisionOver2 + growth;
      }
    }
    forall k: nat ensures k < |points| <==> Diagonal(k) <= radius * radius {
      if k < |points| {
        RowsInside(points[k], radius);
      } else {
        DiagonalOrder(y, k);
      }
    }
    if radius > 0 {
      forall k | 0 <= k < |points|
        ensures NearestRoot(points[k].x, radius * radius - k * k) <==> !IsPronic(radius * radius - k * k)
      {
        NearestRow(points[k], radius);
      }
    }
  }

  lemma NearestRow(p: Point, r: int)
    requires Drawn(p, r) && r > 0
    ensures NearestRoot(p.x, r * r - p.y * p.y) <==> !IsPronic(r * r - p.y * p.y)
  {
    NearestIff(p, r);
  }

  lemma NextIs(p: Point, d: int)
    ensures Next(p, d) == Point(if d <= 0 then p.x else p.x - 1, p.y + 1)
  {
  }

  // ------------------------------------------------------------------ the nearest column

  /** x is the integer nearest to the square root of s (which is never half-way between two). */
  predicate NearestRoot(x: int, s: int) {
    x >= 0 && 4 * s < (2 * x + 1) * (2 * x + 1) && (x > 0 ==> (2 * x - 1) * (2 * x - 1) < 4 * s)
  }

  /** The product of m and its predecessor. */
  function PronicNumber(m: nat): int { m * m - m }

  /** s is a product of two consecutive numbers. */
  ghost predicate IsPronic(s: int) {
    exists m: nat :: m > 0 && PronicNumber(m) == s
  }

  /** A column on the circle is the nearest one exactly if the square of the exact distance is no such product. */
  lemma NearestIff(p: Point, r: int)
    requires OnCircle(p, r) && 0 <= p.y <= p.x
    ensures NearestRoot(p.x, r * r - p.y * p.y) <==> !IsPronic(r * r - p.y * p.y)
  {
    var x, s := p.x, r * r - p.y * p.y;
    assert (2 * x - 1) * (2 * x - 1) == 4 * PronicNumber(x) + 1;
    assert (2 * x + 1) * (2 * x + 1) == 4 * (x * x + x) + 1;
    if IsPronic(s) {
      var m: nat :| m > 0 && PronicNumber(m) == s;
      PronicColumn(m, x);
    } else if x > 0 {
      assert PronicNumber(x) != s;
    }
  }

  /** Among the numbers from x * (x - 1) to x * (x + 1) only the first is a product of m and m - 1. */
  lemma PronicColumn(m: nat, x: nat)
    requires m > 0 && PronicNumber(x) <= PronicNumber(m) < x * x + x
    ensures m == x && x > 0
  {
    if m < x {
      NotBoth(m, x);
    } else if x < m {
      Successor(x, m);
    }
  }

  lemma Successor(a: nat, b: nat)
    requires a < b
    ensures a * a + a <= b * b - b
  {
    if a > 0 {
      NotBoth(a, b);
    }
  }

  /** If it is, the nearest column is the one before. */
  lemma OneTooFar(p: Point, r: int)
    requires OnCircle(p, r) && 0 <= p.y <= p.x && IsPronic(r * r - p.y * p.y)
    ensures p.x > 0 && NearestRoot(p.x - 1, r * r - p.y * p.y)
  {
    var m: nat :| m > 0 && PronicNumber(m) == r * r - p.y * p.y;
    PronicColumn(m, p.x);
    var x := p.x;
    assert (2 * (x - 1) - 1) * (2 * (x - 1) - 1) == 4 * (x * (x - 1)) - 8 * x + 9;
    assert (2 * (x - 1) + 1) * (2 * (x - 1) + 1) == 4 * (x * (x - 1)) + 1;
  }

  /** It does happen: at height 4 of a circle of radius 6 the loop reaches column 5, but 4 is nearer. */
  method RowsOfSix() returns (points: seq<Point>)
    ensures |points| == 5 && points[4] == Point(5, 4)
    ensures !NearestRoot(5, 6 * 6 - 4 * 4) && NearestRoot(4, 6 * 6 - 4 * 4)
  {
    points := Rows(6);
    assert Diagonal(4) == 28 && Diagonal(5) == 45;
    assert 4 < |points| && !(5 < |points|);
    ColumnUnique(points[4], Point(5, 4), 6);
  }

  /** There is only one column for a height. */
  lemma ColumnUnique(p: Point, q: Point, r: int)
    requires OnCircle(p, r) && OnCircle(q, r) && p.y == q.y && p.x > 0 && q.x > 0
    ensures p == q
  {
    if p.x < q.x {
      NotBoth(p.x, q.x);
    } else if q.x < p.x {
      NotBoth(q.x, p.x);
    }
  }

  lemma NotBoth(a: int, b: int)
    requires 0 < a < b
    ensures a * a + a <= b * b - b
  {
    var d := b - a;
    assert b * b - b == a * a - a + (2 * (d * a) + d * d - d);
    assert d * a >= a && d * d >= d;
  }
}
