/**
 * `LineConnectivityFinder` (GraphSorting002.cs): the map from every end point
 * to the lines that touch it, and each line's neighbours at its two ends.
 */
module Connectivity {
  import opened Geometry

  /** `Dictionary<Point3d, List<Line>>`: the lines registered under each point. */
  type PointMap = map<Point, seq<Line>>

  /** A line's neighbours: the other lines at its From point and at its To point. */
  datatype Neighbours = Neighbours(starts: seq<Line>, ends: seq<Line>)

  /** The list registered under `q` so far (empty when `q` is not yet a key). */
  function Listed(m: PointMap, q: Point): seq<Line> {
    if q in m then m[q] else []
  }

  /** The copies of `l` that one loop pass appends under `q`: one per end of `l` at `q`. */
  function Copies(l: Line, q: Point): (s: seq<Line>)
    ensures forall x {:trigger multiset(s)[x]} :: multiset(s)[x] == if x == l then Ends(l, q) else 0
  {
    (if l.from == q then [l] else []) + (if l.to == q then [l] else [])
  }

  /**
   * One pass of the loop in `BuildPointConnections`: create the two keys when
   * missing, then append the line under From and then under To.
   */
  function AddLine(m: PointMap, l: Line): (r: PointMap)
    ensures r.Keys == m.Keys + {l.from, l.to}
    ensures forall q :: q in r ==> r[q] == Listed(m, q) + Copies(l, q)
  {
    var m1 := if l.from in m then m else m[l.from := []];
    var m2 := if l.to in m1 then m1 else m1[l.to := []];
    var m3 := m2[l.from := m2[l.from] + [l]];
    m3[l.to := m3[l.to] + [l]]
  }

  /**
   * `m` registers `lines`: its keys are exactly their end points, and each line
   * is listed under a point once per end it has there.
   */
  ghost predicate Registers(m: PointMap, lines: seq<Line>) {
    && m.Keys == Endpoints(lines)
    && forall p, x {:trigger multiset(m[p])[x]} :: p in m ==>
         multiset(m[p])[x] == multiset(lines)[x] * Ends(x, p)
  }

  /**
   * The end-point map: its keys are exactly the end points, and every line is
   * listed under a point once per end it has there (twice when From == To).
   */
  function BuildPointConnections(lines: seq<Line>): (m: PointMap)
    ensures Registers(m, lines)
  {
    if lines == [] then map[]
    else
      var m0 := BuildPointConnections(lines[..|lines| - 1]);
      SnocRegisters(lines, m0);
      AddLine(m0, lines[|lines| - 1])
  }

  /** Registering the last line of `lines` on top of a registration of the rest. */
  lemma SnocRegisters(lines: seq<Line>, m0: PointMap)
    requires lines != []
    requires Registers(m0, lines[..|lines| - 1])
    ensures Registers(AddLine(m0, lines[|lines| - 1]), lines)
  {
    var prefix := lines[..|lines| - 1];
    assert lines == prefix + [lines[|lines| - 1]];
    BuildStep(prefix, lines[|lines| - 1], m0);
  }

  /** The loop invariant of `BuildPointConnections` survives appending one more line. */
  lemma BuildStep(prefix: seq<Line>, last: Line, m0: PointMap)
    requires Registers(m0, prefix)
    ensures Registers(AddLine(m0, last), prefix + [last])
  {
    EndpointsSnoc(prefix, last);
    var m := AddLine(m0, last);
    forall p, x | p in m
      ensures multiset(m[p])[x] == multiset(prefix + [last])[x] * Ends(x, p)
    {
      assert m[p] == Listed(m0, p) + Copies(last, p);
      assert multiset(m[p])[x] == multiset(Listed(m0, p))[x] + multiset(Copies(last, p))[x];
      BuildStepAt(prefix, last, m0, p, x);
    }
  }

  /** The count at one point `p` for one line `x` after appending `last`. */
  lemma BuildStepAt(prefix: seq<Line>, last: Line, m0: PointMap, p: Point, x: Line)
    requires m0.Keys == Endpoints(prefix)
    requires p in m0 ==> multiset(m0[p])[x] == multiset(prefix)[x] * Ends(x, p)
    ensures multiset(Listed(m0, p))[x] + (if x == last then Ends(last, p) else 0)
      == multiset(prefix + [last])[x] * Ends(x, p)
  {
    var c := multiset(prefix)[x];
    if x in prefix && Ends(x, p) > 0 {
      assert p in Endpoints(prefix);
    }
    assert multiset(prefix + [last])[x] == c + (if x == last then 1 else 0);
    if x == last {
      assert (c + 1) * Ends(x, p) == c * Ends(x, p) + Ends(x, p);
    }
  }

  /** `Where(l => l != line)`: the list without any copy of `line`, order kept. */
  function Without(s: seq<Line>, line: Line): (r: seq<Line>)
    ensures forall x {:trigger multiset(r)[x]} :: multiset(r)[x] == if x == line then 0 else multiset(s)[x]
  {
    if s == [] then []
    else
      assert s == [s[0]] + s[1..];
      (if s[0] == line then [] else [s[0]]) + Without(s[1..], line)
  }

  /**
   * `FindConnectedLines`: every input line is a key (duplicates collapse), and
   * its start (end) neighbours are the other input lines touching its From (To)
   * point, each copy counted once per touching end.
   */
  function FindConnectedLines(lines: seq<Line>): (r: map<Line, Neighbours>)
    ensures r.Keys == set l | l in lines
    ensures forall l, x {:trigger multiset(r[l].starts)[x]} :: l in r ==>
      multiset(r[l].starts)[x] == if x == l then 0 else multiset(lines)[x] * Ends(x, l.from)
    ensures forall l, x {:trigger multiset(r[l].ends)[x]} :: l in r ==>
      multiset(r[l].ends)[x] == if x == l then 0 else multiset(lines)[x] * Ends(x, l.to)
  {
    var pc := BuildPointConnections(lines);
    assert Registers(pc, lines);
    // Both end points of an input line are keys of `pc`, so the ContainsKey tests always hold.
    map l | l in lines :: Neighbours(Without(pc[l.from], l), Without(pc[l.to], l))
  }

  /** A neighbour of a line is another input line that touches the corresponding end point. */
  lemma NeighboursTouch(lines: seq<Line>, l: Line, x: Line)
    requires l in lines
    ensures x in FindConnectedLines(lines)[l].starts <==> x in lines && x != l && (x.from == l.from || x.to == l.from)
    ensures x in FindConnectedLines(lines)[l].ends <==> x in lines && x != l && (x.from == l.to || x.to == l.to)
  {
    var r := FindConnectedLines(lines);
    var c := multiset(lines)[x];
    assert c > 0 <==> x in lines;
    ProductPositive(c, Ends(x, l.from));
    ProductPositive(c, Ends(x, l.to));
    assert x in r[l].starts <==> multiset(r[l].starts)[x] > 0;
    assert x in r[l].ends <==> multiset(r[l].ends)[x] > 0;
  }

  lemma ProductPositive(a: nat, b: nat)
    ensures a * b > 0 <==> a > 0 && b > 0
  {
  }
}
