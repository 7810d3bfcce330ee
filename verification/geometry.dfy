/**
 * Points and line segments on the fixed-point grid shared by every component.
 *
 * Coordinates are integers in hundredths of a model unit, so the source's
 * `Math.Round(c, 2)` comparisons become plain equality and `|dZ| < 0.01`
 * becomes `dZ == 0`. Weights are integers in thousandths (see Weighting).
 */
module Geometry {

  datatype Point = Point(x: int, y: int, z: int)

  /** Rhino's `Line` struct: an ordered pair of points compared by value. */
  datatype Line = Line(from: Point, to: Point)

  /** `Line.Flip()`: the same segment traversed the other way. */
  function Flip(l: Line): (r: Line)
    ensures r.from == l.to && r.to == l.from
  {
    Line(l.to, l.from)
  }

  /**
   * The conditional `Flip` that turns a segment upwards: a segment whose
   * start is higher than its end is reversed, any other is left as it is.
   */
  function Upward(l: Line): (r: Line)
    ensures r.from.z <= r.to.z
    ensures r == l || r == Flip(l)
    ensures l.from.z <= l.to.z ==> r == l
  {
    if l.from.z > l.to.z then Flip(l) else l
  }

  /** Every segment of `lines` turned upwards, in order. */
  function Upwards(lines: seq<Line>): (r: seq<Line>)
    ensures |r| == |lines|
    ensures forall i :: 0 <= i < |lines| ==> r[i] == Upward(lines[i])
  {
    seq(|lines|, i requires 0 <= i < |lines| => Upward(lines[i]))
  }

  /** Turning upwards twice is turning upwards once. */
  lemma UpwardsTwice(lines: seq<Line>)
    ensures Upwards(Upwards(lines)) == Upwards(lines)
  {
  }

  /** End points agree in x and y (to two decimals). */
  predicate IsVertical(l: Line) {
    l.from.x == l.to.x && l.from.y == l.to.y
  }

  /** End points agree in z (`|dZ| < 0.01`). */
  predicate IsHorizontal(l: Line) {
    l.from.z == l.to.z
  }

  /** Neither vertical nor horizontal. */
  predicate IsAngled(l: Line) {
    !IsVertical(l) && !IsHorizontal(l)
  }

  function Sq(a: int): nat {
    if a < 0 then (-a) * (-a) else a * a
  }

  /** Squared Euclidean distance, in squared hundredths. */
  function SqDist(p: Point, q: Point): nat {
    Sq(p.x - q.x) + Sq(p.y - q.y) + Sq(p.z - q.z)
  }

  function SqLength(l: Line): nat {
    SqDist(l.from, l.to)
  }

  /**
   * `l.Length < d`, compared without a square root: `sqBound` is `d`
   * squared, in squared hundredths (40 units is 4000 * 4000).
   */
  predicate ShorterThan(l: Line, sqBound: nat) {
    SqLength(l) < sqBound
  }

  /** Every point that starts or ends one of the lines. */
  function Endpoints(lines: seq<Line>): set<Point> {
    (set l | l in lines :: l.from) + (set l | l in lines :: l.to)
  }

  /** Appending a line adds exactly its two end points. */
  lemma EndpointsSnoc(prefix: seq<Line>, last: Line)
    ensures Endpoints(prefix + [last]) == Endpoints(prefix) + {last.from, last.to}
  {
    assert forall l :: l in prefix + [last] <==> l in prefix || l == last;
  }

  /** `p` is one of the line's end points. */
  predicate Touches(l: Line, p: Point) {
    l.from == p || l.to == p
  }

  /** How often a line lists `p` as an end point (2 for a degenerate line at `p`). */
  function Ends(l: Line, p: Point): nat {
    (if l.from == p then 1 else 0) + (if l.to == p then 1 else 0)
  }

  /** Classification does not depend on the direction a segment is stored in. */
  lemma FlipKeepsClass(l: Line)
    ensures IsVertical(Flip(l)) == IsVertical(l)
    ensures IsHorizontal(Flip(l)) == IsHorizontal(l)
    ensures IsAngled(Flip(l)) == IsAngled(l)
    ensures SqLength(Flip(l)) == SqLength(l)
  {
  }

  /** Horizontal is decided before vertical, so a degenerate segment is horizontal and never angled. */
  lemma DegenerateIsHorizontal(l: Line)
    requires l.from == l.to
    ensures IsHorizontal(l) && IsVertical(l) && !IsAngled(l)
  {
  }
}
