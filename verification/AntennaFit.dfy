/** The antenna calibration's straight-line fit, over the reals. */
module AntennaFit {
  import opened Base

  datatype Point = Point(x: real, y: real)

  datatype Line = Line(slope: real, intercept: real)

  type Term = Point -> real

  function Sum(p: seq<Point>, f: Term): real {
    if p == [] then 0.0 else Sum(p[1..], f) + f(p[0])
  }

  function Squared(a: real): real {
    a * a
  }

  // ---- The fit --------------------------------------------------------------

  function X(): Term { (q: Point) => q.x }
  function Y(): Term { (q: Point) => q.y }
  function DeltaX(mx: real): Term { (q: Point) => q.x - mx }
  function DeltaY(my: real): Term { (q: Point) => q.y - my }
  function Covariation(mx: real, my: real): Term { (q: Point) => (q.x - mx) * (q.y - my) }
  function Spread(mx: real): Term { (q: Point) => Squared(q.x - mx) }

  function LinearFit(p: seq<Point>): Option<Line> {
    if |p| < 2 then None
    else
      var n := |p| as real;
      var meanX := Sum(p, X()) / n;
      var meanY := Sum(p, Y()) / n;
      var num := Sum(p, Covariation(meanX, meanY));
      var den := Sum(p, Spread(meanX));
      if den == 0.0 then None
      else Some(Through(num / den, meanX, meanY))
  }

  /** The line of this slope through (mx, my). */
  function Through(slope: real, mx: real, my: real): Line {
    Line(slope, my - slope * mx)
  }

  // ---- What a best line is --------------------------------------------------

  function Residual(q: Point, l: Line): real {
    q.y - (l.slope * q.x + l.intercept)
  }

  function ResidualSquared(l: Line): Term { (q: Point) => Squared(Residual(q, l)) }

  /** Sum of squared residuals: what a best line makes smallest. */
  function SquaredError(p: seq<Point>, l: Line): real {
    Sum(p, ResidualSquared(l))
  }

  // ---- Sums -----------------------------------------------------------------

  lemma Distributes(a: real, u: real, v: real)
    ensures a * (u + v) == a * u + a * v
    ensures a * (u - v) == a * u - a * v
  {
  }

  lemma DivideBack(a: real, b: real)
    requires b != 0.0
    ensures a / b * b == a
  {
  }

  lemma {:induction false} SumScales(p: seq<Point>, f: Term, g: Term, h: Term, a: real, c: real)
    requires forall q :: f(q) == a * g(q) + c * h(q)
    ensures Sum(p, f) == a * Sum(p, g) + c * Sum(p, h)
  {
    if p != [] {
      SumScales(p[1..], f, g, h, a, c);
      Distributes(a, Sum(p[1..], g), g(p[0]));
      Distributes(c, Sum(p[1..], h), h(p[0]));
    }
  }

  lemma {:induction false} SumExpands(p: seq<Point>, f: Term, g: Term, m: Term, h: Term)
    requires forall q :: f(q) == g(q) - 2.0 * m(q) + h(q)
    ensures Sum(p, f) == Sum(p, g) - 2.0 * Sum(p, m) + Sum(p, h)
  {
    if p != [] {
      SumExpands(p[1..], f, g, m, h);
    }
  }

  lemma {:induction false} SumShifts(p: seq<Point>, f: Term, g: Term, c: real)
    requires forall q :: f(q) == g(q) - c
    ensures Sum(p, f) == Sum(p, g) - |p| as real * c
  {
    if p != [] {
      SumShifts(p[1..], f, g, c);
      Distributes(c, |p[1..]| as real, 1.0);
    }
  }

  lemma {:induction false} SumOfSquares(p: seq<Point>, f: Term)
    requires forall q :: f(q) >= 0.0
    ensures Sum(p, f) >= 0.0
    ensures Sum(p, f) == 0.0 <==> forall i: nat :: i < |p| ==> f(p[i]) == 0.0
  {
    if p != [] {
      var rest := p[1..];
      SumOfSquares(rest, f);
      if Sum(p, f) == 0.0 {
        forall i: nat | i < |p|
          ensures f(p[i]) == 0.0
        {
          assert i > 0 ==> p[i] == rest[i - 1];
        }
      } else if f(p[0]) == 0.0 {
        var i: nat :| i < |rest| && f(rest[i]) != 0.0;
        assert f(p[i + 1]) != 0.0;
      }
    }
  }

  lemma NegatedProduct(a: real, b: real)
    ensures (-a) * b == -(a * b)
  {
  }

  lemma NonZeroProduct(a: real, b: real, product: real)
    requires product == a * b && a != 0.0 && b != 0.0
    ensures product != 0.0
  {
  }

  lemma SquareIsNotNegative(a: real, square: real)
    requires square == a * a
    ensures square >= 0.0
  {
  }

  lemma SquareOf(a: real, square: real)
    requires square == Squared(a)
    ensures square >= 0.0 && (a != 0.0 ==> square > 0.0)
  {
    SquareIsNotNegative(a, square);
    if a != 0.0 {
      NonZeroProduct(a, a, square);
    }
  }

  lemma Square(a: real)
    ensures Squared(a) >= 0.0
    ensures a != 0.0 ==> Squared(a) > 0.0
  {
    SquareOf(a, Squared(a));
  }

  // ---- When there is a line -------------------------------------------------

  lemma SpreadIsZeroIff(p: seq<Point>, mx: real)
    ensures Sum(p, Spread(mx)) == 0.0 <==> forall i: nat :: i < |p| ==> p[i].x == mx
  {
    forall q
      ensures Spread(mx)(q) >= 0.0 && (q.x == mx ==> Spread(mx)(q) == 0.0) && (q.x != mx ==> Spread(mx)(q) > 0.0)
    {
      Square(q.x - mx);
    }
    SumOfSquares(p, Spread(mx));
  }

  lemma {:induction false} SumOfEqual(p: seq<Point>, x: real)
    requires forall i: nat :: i < |p| ==> p[i].x == x
    ensures Sum(p, X()) == |p| as real * x
  {
    if p != [] {
      SumOfEqual(p[1..], x);
      Distributes(x, |p[1..]| as real, 1.0);
    }
  }

  predicate AllSameX(p: seq<Point>) {
    forall i: nat, j: nat :: i < j < |p| ==> p[i].x == p[j].x
  }

  /** There is no line exactly with fewer than two points or all at one x. */
  lemma NoLineIff(p: seq<Point>)
    ensures LinearFit(p) == None <==> |p| < 2 || AllSameX(p)
  {
    if |p| >= 2 {
      var n := |p| as real;
      var meanX := Sum(p, X()) / n;
      SpreadIsZeroIff(p, meanX);
      if AllSameX(p) {
        forall i: nat | i < |p|
          ensures p[i].x == p[0].x
        {
          assert i > 0 ==> p[0].x == p[i].x;
        }
        SumOfEqual(p, p[0].x);
        assert n * p[0].x / n == p[0].x;
      }
    }
  }

  // ---- The best line --------------------------------------------------------

  function Height(q: Point, a: real, b: real): real {
    a * q.x + b
  }

  /** (residual of `l`) * (a x + b): sums to zero for every a, b when `l` is a best line. */
  function Moment(l: Line, a: real, b: real): Term { (q: Point) => Residual(q, l) * Height(q, a, b) }

  function GapSquared(a: real, b: real): Term { (q: Point) => Squared(Height(q, a, b)) }

  lemma SquareOfDifference(r: real, d: real, moved: real)
    requires moved == r - d
    ensures moved * moved == r * r - 2.0 * (r * d) + d * d
  {
  }

  lemma ResidualMoves(q: Point, l: Line, m: Line, a: real, b: real)
    requires a == m.slope - l.slope && b == m.intercept - l.intercept
    ensures Residual(q, m) == Residual(q, l) - Height(q, a, b)
  {
    Distributes(q.x, m.slope, l.slope);
  }

  lemma SquareMoves(q: Point, l: Line, m: Line, a: real, b: real)
    requires a == m.slope - l.slope && b == m.intercept - l.intercept
    ensures ResidualSquared(m)(q) == ResidualSquared(l)(q) - 2.0 * Moment(l, a, b)(q) + GapSquared(a, b)(q)
  {
    ResidualMoves(q, l, m, a, b);
    SquareOfDifference(Residual(q, l), Height(q, a, b), Residual(q, m));
  }

  /** Moving from line `l` to `m` changes the squared error by a moment and a gap. */
  lemma ErrorMoves(p: seq<Point>, l: Line, m: Line, a: real, b: real)
    requires a == m.slope - l.slope && b == m.intercept - l.intercept
    ensures SquaredError(p, m) == SquaredError(p, l) - 2.0 * Sum(p, Moment(l, a, b)) + Sum(p, GapSquared(a, b))
  {
    forall q
      ensures ResidualSquared(m)(q) == ResidualSquared(l)(q) - 2.0 * Moment(l, a, b)(q) + GapSquared(a, b)(q)
    {
      SquareMoves(q, l, m, a, b);
    }
    SumExpands(p, ResidualSquared(m), ResidualSquared(l), Moment(l, a, b), GapSquared(a, b));
  }

  /** The two sums the normal equations make zero. */
  function Slack(slope: real, mx: real, my: real): Term {
    (q: Point) => 1.0 * DeltaY(my)(q) + -slope * DeltaX(mx)(q)
  }

  function SlackX(slope: real, mx: real, my: real): Term {
    (q: Point) => 1.0 * Covariation(mx, my)(q) + -slope * Spread(mx)(q)
  }

  lemma SlackAt(q: Point, slope: real, mx: real, my: real, dx: real, dy: real)
    requires dx == q.x - mx && dy == q.y - my
    ensures Slack(slope, mx, my)(q) == dy - slope * dx
    ensures SlackX(slope, mx, my)(q) == dx * dy - slope * (dx * dx)
    ensures Residual(q, Through(slope, mx, my)) == dy - slope * dx
  {
    NegatedProduct(slope, dx);
    NegatedProduct(slope, Squared(dx));
    assert DeltaX(mx)(q) == dx && DeltaY(my)(q) == dy && Spread(mx)(q) == Squared(dx);
    Distributes(slope, q.x, mx);
  }

  lemma MomentTerm(q: Point, slope: real, mx: real, my: real, a: real, b: real)
    ensures Moment(Through(slope, mx, my), a, b)(q)
            == a * SlackX(slope, mx, my)(q) + (a * mx + b) * Slack(slope, mx, my)(q)
  {
    var dx, dy, c := q.x - mx, q.y - my, a * mx + b;
    var r := dy - slope * dx;
    SlackAt(q, slope, mx, my, dx, dy);
    Distributes(a, q.x, mx);
    assert Height(q, a, b) == a * dx + c;
    ProductOfSums(r, a, dx, c);
    SlackTerm(dx, dy, slope);
  }

  lemma ProductOfSums(r: real, a: real, dx: real, c: real)
    ensures r * (a * dx + c) == a * (r * dx) + c * r
  {
  }

  lemma SlackTerm(dx: real, dy: real, slope: real)
    ensures (dy - slope * dx) * dx == dx * dy - slope * (dx * dx)
  {
  }

  lemma MomentSplits(p: seq<Point>, slope: real, mx: real, my: real, a: real, b: real)
    ensures Sum(p, Moment(Through(slope, mx, my), a, b))
            == a * Sum(p, SlackX(slope, mx, my)) + (a * mx + b) * Sum(p, Slack(slope, mx, my))
  {
    forall q
      ensures Moment(Through(slope, mx, my), a, b)(q)
              == a * SlackX(slope, mx, my)(q) + (a * mx + b) * Slack(slope, mx, my)(q)
    {
      MomentTerm(q, slope, mx, my, a, b);
    }
    SumScales(p, Moment(Through(slope, mx, my), a, b), SlackX(slope, mx, my), Slack(slope, mx, my), a, a * mx + b);
  }

  lemma FitHasNoMoment(p: seq<Point>, a: real, b: real)
    requires LinearFit(p).Some?
    ensures Sum(p, Moment(LinearFit(p).value, a, b)) == 0.0
  {
    var n := |p| as real;
    var mx, my := Sum(p, X()) / n, Sum(p, Y()) / n;
    var slope := Sum(p, Covariation(mx, my)) / Sum(p, Spread(mx));
    MomentSplits(p, slope, mx, my, a, b);
    DivideBack(Sum(p, Covariation(mx, my)), Sum(p, Spread(mx)));
    SlackXIsZero(p, mx, my, slope);
    SlackIsZero(p, mx, my, slope);
    FitFields(p, mx, my, slope);
    ZeroCombination(a, Sum(p, SlackX(slope, mx, my)), a * mx + b, Sum(p, Slack(slope, mx, my)));
  }

  lemma FitFields(p: seq<Point>, mx: real, my: real, slope: real)
    requires LinearFit(p).Some? && mx == Sum(p, X()) / |p| as real && my == Sum(p, Y()) / |p| as real
    requires slope == Sum(p, Covariation(mx, my)) / Sum(p, Spread(mx))
    ensures LinearFit(p).value == Through(slope, mx, my)
  {
  }

  lemma ZeroCombination(a: real, u: real, c: real, v: real)
    requires u == 0.0 && v == 0.0
    ensures a * u + c * v == 0.0
  {
  }

  lemma SlackXIsZero(p: seq<Point>, mx: real, my: real, slope: real)
    requires slope * Sum(p, Spread(mx)) == Sum(p, Covariation(mx, my))
    ensures Sum(p, SlackX(slope, mx, my)) == 0.0
  {
    Balances(p, SlackX(slope, mx, my), Covariation(mx, my), Spread(mx), slope);
  }

  lemma Balances(p: seq<Point>, f: Term, g: Term, h: Term, slope: real)
    requires forall q :: f(q) == 1.0 * g(q) + -slope * h(q)
    requires slope * Sum(p, h) == Sum(p, g)
    ensures Sum(p, f) == 0.0
  {
    SumScales(p, f, g, h, 1.0, -slope);
    NegatedProduct(slope, Sum(p, h));
  }

  lemma SlackIsZero(p: seq<Point>, mx: real, my: real, slope: real)
    requires p != [] && mx == Sum(p, X()) / |p| as real && my == Sum(p, Y()) / |p| as real
    ensures Sum(p, Slack(slope, mx, my)) == 0.0
  {
    SumScales(p, Slack(slope, mx, my), DeltaY(my), DeltaX(mx), 1.0, -slope);
    SumShifts(p, DeltaX(mx), X(), mx);
    SumShifts(p, DeltaY(my), Y(), my);
    DivideBack(Sum(p, X()), |p| as real);
    DivideBack(Sum(p, Y()), |p| as real);
  }

  /** No line has a smaller squared error than the fit, and no other line has as small a one. */
  lemma FitIsBest(p: seq<Point>, other: Line)
    requires LinearFit(p).Some?
    ensures SquaredError(p, LinearFit(p).value) <= SquaredError(p, other)
    ensures SquaredError(p, LinearFit(p).value) == SquaredError(p, other) ==> other == LinearFit(p).value
  {
    var fit := LinearFit(p).value;
    var a, b := other.slope - fit.slope, other.intercept - fit.intercept;
    ErrorMoves(p, fit, other, a, b);
    FitHasNoMoment(p, a, b);
    GapIsZeroIff(p, a, b);
  }

  lemma GapAt(q: Point, a: real, b: real)
    ensures GapSquared(a, b)(q) >= 0.0
    ensures GapSquared(a, b)(q) == 0.0 ==> Height(q, a, b) == 0.0
  {
    Square(Height(q, a, b));
  }

  lemma GapIsNotNegative(p: seq<Point>, a: real, b: real)
    ensures Sum(p, GapSquared(a, b)) >= 0.0
    ensures Sum(p, GapSquared(a, b)) == 0.0 ==> forall i: nat :: i < |p| ==> Height(p[i], a, b) == 0.0
  {
    forall q
      ensures GapSquared(a, b)(q) >= 0.0 && (GapSquared(a, b)(q) == 0.0 ==> Height(q, a, b) == 0.0)
    {
      GapAt(q, a, b);
    }
    SumOfSquares(p, GapSquared(a, b));
  }

  lemma GapIsZeroIff(p: seq<Point>, a: real, b: real)
    requires LinearFit(p).Some?
    ensures Sum(p, GapSquared(a, b)) >= 0.0
    ensures Sum(p, GapSquared(a, b)) == 0.0 ==> a == 0.0 && b == 0.0
  {
    GapIsNotNegative(p, a, b);
    if Sum(p, GapSquared(a, b)) == 0.0 {
      NoLineIff(p);
      var i: nat, j: nat :| i < j < |p| && p[i].x != p[j].x;
      SameLine(a, b, p[i], p[j]);
    }
  }

  lemma SameLine(a: real, b: real, q: Point, r: Point)
    requires q.x != r.x && Height(q, a, b) == 0.0 && Height(r, a, b) == 0.0
    ensures a == 0.0 && b == 0.0
  {
    Distributes(a, q.x, r.x);
    if a != 0.0 {
      NonZeroProduct(a, q.x - r.x, a * (q.x - r.x));
    }
  }

  /** Points on a line give back that line. */
  lemma CollinearGivesBackLine(p: seq<Point>, l: Line)
    requires LinearFit(p).Some?
    requires forall i: nat :: i < |p| ==> p[i].y == l.slope * p[i].x + l.intercept
    ensures LinearFit(p) == Some(l)
  {
    var fit := LinearFit(p).value;
    forall q, m: Line
      ensures ResidualSquared(m)(q) >= 0.0
    {
      Square(Residual(q, m));
    }
    SumOfSquares(p, ResidualSquared(l));
    SumOfSquares(p, ResidualSquared(fit));
    FitIsBest(p, l);
  }
}
