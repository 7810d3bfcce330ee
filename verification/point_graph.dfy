/**
 * GraphSorting.cs: the undirected point graph (`Graph`) and the placeholder
 * line weighting (`LineProcessor.AddWeightToLines`).
 *
 * A graph is a map from a point to the set of its neighbours. Weights are in
 * thousandths, so the average height (z1 + z2) / 2 of a segment in
 * hundredths is 5 * (z1 + z2) thousandths.
 */
module PointGraph {
  import opened Wrappers
  import opened Geometry

  type Graph = map<Point, set<Point>>

  /** Every listed neighbour is a node, and adjacency runs both ways. */
  predicate Symmetric(g: Graph) {
    forall a, b :: a in g && b in g[a] ==> b in g && a in g[b]
  }

  /** `AddNode`: a new node starts without neighbours; an existing node is left as it is. */
  function AddNode(g: Graph, n: Point): (r: Graph)
    ensures r.Keys == g.Keys + {n}
    ensures n in g ==> r == g
    ensures n !in g ==> r[n] == {}
    ensures forall m :: m in g ==> r[m] == g[m]
  {
    if n in g then g else g[n := {}]
  }

  /** `AddEdge`: both end points become nodes and each gains the other as neighbour; nothing else changes. */
  function AddEdge(g: Graph, a: Point, b: Point): (r: Graph)
    ensures r.Keys == g.Keys + {a, b}
    ensures forall m, n :: m in r ==> (n in r[m] <==> (m in g && n in g[m]) || (m == a && n == b) || (m == b && n == a))
    ensures forall m :: m in g && m != a && m != b ==> r[m] == g[m]
  {
    var g1 := AddNode(AddNode(g, a), b);
    var g2 := g1[a := g1[a] + {b}];
    g2[b := g2[b] + {a}]
  }

  /** `b` is joined to `a` by one of the lines, in either direction. */
  predicate Linked(lines: seq<Line>, a: Point, b: Point) {
    Line(a, b) in lines || Line(b, a) in lines
  }

  /** `CreateGraphFromLines` on a graph `g`: an edge per line, in order; the nodes are those of `g` plus every end point. */
  function CreateGraphFromLines(g: Graph, lines: seq<Line>): (r: Graph)
    ensures r.Keys == g.Keys + Endpoints(lines)
  {
    if lines == [] then g
    else
      var prefix := lines[..|lines| - 1];
      var l := lines[|lines| - 1];
      assert lines == prefix + [l];
      EndpointsSnoc(prefix, l);
      AddEdge(CreateGraphFromLines(g, prefix), l.from, l.to)
  }

  /** Appending a line links exactly its two end points, in both directions. */
  lemma LinkedSnoc(prefix: seq<Line>, l: Line, a: Point, b: Point)
    ensures Linked(prefix + [l], a, b) <==> Linked(prefix, a, b) || (a == l.from && b == l.to) || (a == l.to && b == l.from)
  {
    assert forall x :: x in prefix + [l] <==> x in prefix || x == l;
  }

  /** In the built graph, `b` neighbours `a` exactly when it did before or some line joins them. */
  lemma {:induction false} CreatedAdjacency(g: Graph, lines: seq<Line>, a: Point, b: Point)
    requires a in CreateGraphFromLines(g, lines)
    ensures b in CreateGraphFromLines(g, lines)[a] <==> (a in g && b in g[a]) || Linked(lines, a, b)
    decreases |lines|
  {
    if lines != [] {
      var prefix := lines[..|lines| - 1];
      var l := lines[|lines| - 1];
      assert lines == prefix + [l];
      var r0 := CreateGraphFromLines(g, prefix);
      LinkedSnoc(prefix, l, a, b);
      if a in r0 {
        CreatedAdjacency(g, prefix, a, b);
      }
    }
  }

  /** Built from a symmetric graph (the empty one included), the graph is symmetric. */
  lemma CreatedSymmetric(g: Graph, lines: seq<Line>)
    requires Symmetric(g)
    ensures Symmetric(CreateGraphFromLines(g, lines))
  {
    var r := CreateGraphFromLines(g, lines);
    forall a, b | a in r && b in r[a]
      ensures b in r && a in r[b]
    {
      CreatedPair(g, lines, a, b);
    }
  }

  /** One pair of `CreatedSymmetric`. */
  lemma CreatedPair(g: Graph, lines: seq<Line>, a: Point, b: Point)
    requires Symmetric(g)
    requires a in CreateGraphFromLines(g, lines) && b in CreateGraphFromLines(g, lines)[a]
    ensures b in CreateGraphFromLines(g, lines) && a in CreateGraphFromLines(g, lines)[b]
  {
    CreatedAdjacency(g, lines, a, b);
    if !(a in g && b in g[a]) {
      assert b in Endpoints(lines) by {
        if Line(a, b) in lines { assert Line(a, b).to == b; } else { assert Line(b, a).from == b; }
      }
    }
    CreatedAdjacency(g, lines, b, a);
  }

  // ---------------------------------------------------------------------
  // AddWeightToLines
  // ---------------------------------------------------------------------

  /** The constant subtracted from the average height (32.481). */
  const HeightOffset: int := 32481

  /** The placeholder adjustments of a vertical line: 0.05 at its end plus 0.1 at its start. */
  const VerticalAtEnd: int := 50
  const VerticalAtStart: int := 100

  /** The placeholder adjustments of an angled line: -0.15, 0.21 and 0.07. */
  const AngledAtStart: int := -150
  const AngledAtEnd: int := 210
  const VerticalsWithAngledAtStart: int := 70

  /** `VerticalNoAngleAtTop`'s bonus when no angled line tops out at the line's end (0.07). */
  const NoAngleAtTopBonus: int := 70

  /** The average height of a segment, in thousandths. */
  function AverageZ(l: Line): int {
    5 * (l.from.z + l.to.z)
  }

  function Abs(a: int): nat {
    if a < 0 then -a else a
  }

  /**
   * A line that counts against `VerticalNoAngleAtTop(input)`: rising or
   * falling by more than 0.02, not exactly vertical, no higher on average
   * than `input`, and, once turned upwards by the `Flip` on the loop variable
   * at GraphSorting.cs:202-205, ending where `input` ends.
   */
  predicate AngledUnderTop(l: Line, input: Line) {
    Abs(l.to.z - l.from.z) > 2 && !IsVertical(l)
    && l.from.z + l.to.z <= input.from.z + input.to.z
    && Upward(l).to == input.to
  }

  /** The counter of `VerticalNoAngleAtTop`. */
  function AngledUnderTopCount(input: Line, lines: seq<Line>): (n: nat)
    ensures n <= |lines|
    ensures n == 0 <==> forall k :: 0 <= k < |lines| ==> !AngledUnderTop(lines[k], input)
  {
    if lines == [] then 0
    else
      var l := lines[|lines| - 1];
      AngledUnderTopCount(input, lines[..|lines| - 1]) + (if AngledUnderTop(l, input) then 1 else 0)
  }

  /** `VerticalNoAngleAtTop`: 0.07 exactly when no line counts against `input`, else 0. */
  function VerticalNoAngleAtTop(input: Line, lines: seq<Line>): (w: int)
    ensures w == 0 || w == NoAngleAtTopBonus
    ensures w == NoAngleAtTopBonus <==> forall l :: l in lines ==> !AngledUnderTop(l, input)
  {
    if AngledUnderTopCount(input, lines) == 0 then NoAngleAtTopBonus else 0
  }

  /**
   * The weight of one line, already turned upwards by the caller: average
   * height less 32.481 plus the class adjustment.
   */
  function LineWeight(line: Line, lines: seq<Line>): int {
    var adjustment :=
      if IsHorizontal(line) then 0
      else if IsVertical(line) then
        VerticalAtEnd + VerticalAtStart + VerticalNoAngleAtTop(line, lines)
      else AngledAtStart + AngledAtEnd + VerticalsWithAngledAtStart;
    adjustment + (AverageZ(line) - HeightOffset)
  }

  /**
   * `AddWeightToLines`: throws on an empty list; otherwise one weight per
   * input line turned upwards. The `Flip` at GraphSorting.cs:109-110 acts on
   * the loop variable, which is then weighed and used as the key; the height
   * tests read the end points captured before it, and do not depend on the
   * direction. A repeated line, or one given both ways, gets the same value.
   */
  function AddWeightToLines(lines: seq<Line>): (r: Result<map<Line, int>>)
    ensures r.Err? <==> lines == []
    ensures r.Err? ==> r.error == EmptyInput
    ensures r.Ok? ==> r.value.Keys == set l | l in Upwards(lines)
    ensures r.Ok? ==> forall l :: l in r.value ==>
      var offset := r.value[l] - (AverageZ(l) - HeightOffset);
      l.from.z <= l.to.z
      && (IsHorizontal(l) ==> offset == 0)
      && (IsAngled(l) ==> offset == 130)
      && (IsVertical(l) && !IsHorizontal(l) ==> offset == 150 || offset == 220)
  {
    if lines == [] then Err(EmptyInput) else Ok(Weigh(lines))
  }

  /** The weights of the loop at GraphSorting.cs:103-142, keyed by the lines turned upwards. */
  function Weigh(lines: seq<Line>): (w: map<Line, int>)
    ensures w.Keys == set l | l in Upwards(lines)
    ensures forall l :: l in w ==> l.from.z <= l.to.z && w[l] == LineWeight(l, lines)
  {
    var ups := Upwards(lines);
    var w := map l | l in ups :: LineWeight(l, lines);
    assert forall l :: l in w ==> l.from.z <= l.to.z by {
      forall l | l in w
        ensures l.from.z <= l.to.z
      {
        var i :| 0 <= i < |ups| && ups[i] == l;
      }
    }
    w
  }

  /**
   * A vertical line gets 0.15 plus 0.07 exactly when no angled line lower
   * on average, turned upwards, ends at its end point.
   */
  lemma VerticalWeight(line: Line, lines: seq<Line>)
    requires IsVertical(line) && !IsHorizontal(line)
    ensures LineWeight(line, lines) == AverageZ(line) - HeightOffset + 150
                                       + (if forall l :: l in lines ==> !AngledUnderTop(l, line) then 70 else 0)
  {
  }

  /**
   * Horizontal and angled weights depend only on the average height, so
   * reversing such a line does not change its weight.
   */
  lemma ReversedWeight(line: Line, lines: seq<Line>)
    requires !IsVertical(line)
    ensures LineWeight(Flip(line), lines) == LineWeight(line, lines)
  {
    FlipKeepsClass(line);
  }

  /** Whether a line counts against `input` does not depend on its direction. */
  lemma UnderTopUpward(l: Line, input: Line)
    ensures AngledUnderTop(Upward(l), input) == AngledUnderTop(l, input)
  {
    FlipKeepsClass(l);
  }

  /** The bonus of `VerticalNoAngleAtTop` does not depend on the direction of the other lines. */
  lemma NoAngleIgnoresDirection(input: Line, lines: seq<Line>)
    ensures VerticalNoAngleAtTop(input, Upwards(lines)) == VerticalNoAngleAtTop(input, lines)
  {
    var ups := Upwards(lines);
    forall k | 0 <= k < |lines|
      ensures AngledUnderTop(ups[k], input) == AngledUnderTop(lines[k], input)
    {
      UnderTopUpward(lines[k], input);
    }
    if forall l :: l in lines ==> !AngledUnderTop(l, input) {
      forall l | l in ups
        ensures !AngledUnderTop(l, input)
      {
        var k :| 0 <= k < |ups| && ups[k] == l;
      }
    }
    if forall l :: l in ups ==> !AngledUnderTop(l, input) {
      forall l | l in lines
        ensures !AngledUnderTop(l, input)
      {
        var k :| 0 <= k < |lines| && lines[k] == l;
        assert ups[k] in ups;
      }
    }
  }

  /** The weighting gives the same result for the lines turned upwards first. */
  lemma AddWeightIgnoresDirection(lines: seq<Line>)
    ensures AddWeightToLines(Upwards(lines)) == AddWeightToLines(lines)
  {
    WeighIgnoresDirection(lines);
    assert Upwards(lines) == [] <==> lines == [];
  }

  /** The weights themselves do not depend on the direction of the input lines. */
  lemma WeighIgnoresDirection(lines: seq<Line>)
    ensures Weigh(Upwards(lines)) == Weigh(lines)
  {
    var w, w' := Weigh(lines), Weigh(Upwards(lines));
    UpwardsTwice(lines);
    assert w'.Keys == w.Keys;
    forall l | l in w
      ensures w'[l] == w[l]
    {
      NoAngleIgnoresDirection(l, lines);
    }
  }
}
