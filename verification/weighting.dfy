/**
 * `LineProcessor` of GraphSorting002.cs: the sort weight of every line from
 * its height and the orientation of the lines touching its two ends, followed
 * by a bounded number of refinement passes that nudge tied weights apart.
 *
 * Weights are integers in thousandths of a model unit; a z coordinate in
 * hundredths becomes `10 * z`. `Math.Round(_, 3)` is then the identity.
 *
 * Direction: `line.Flip()` at GraphSorting002.cs:119 is called on the
 * `foreach` iteration variable. That variable is a read-only local, not a
 * field, so the call reverses the variable itself (the list element is
 * untouched), and lines 120-121 re-read its new From and To. A line whose
 * start is higher than its end is therefore weighed and keyed as its upward
 * reversal (`Upward`), while the point map still lists the lines as given.
 */
module Weighting {
  import opened Wrappers
  import opened Geometry
  import opened Sequences
  import opened Connectivity

  /** `Dictionary<Line, double>` with values in thousandths. */
  type Weights = map<Line, int>

  const HorizontalOffset: int := 900    // + 0.9
  const VerticalAdjustment: int := 500  // +/- 0.5
  const AngledAdjustment: int := 50     // +/- 0.05
  const RefineStep: int := 50           // +/- 0.05 per refinement nudge
  const RefineLimit: int := 5           // depth handed to RefineWeights

  /** A height in hundredths as a weight in thousandths. */
  function ZWeight(p: Point): int {
    10 * p.z
  }

  // ---------------------------------------------------------------------------
  // Connectivity tests (`IsConnectedAtEndToAngled` and its three siblings)
  // ---------------------------------------------------------------------------

  /**
   * `IsConnectedAtEndToAngled` / `IsConnectedAtStartToAngled` (the two differ
   * only in the point they are handed): some other line listed under `p` is
   * angled.
   */
  predicate ConnectedToAngled(p: Point, line: Line, pc: PointMap) {
    p in pc && exists l :: l in pc[p] && l != line && IsAngled(l)
  }

  /**
   * `IsConnectedAtEndToVertical` / `IsConnectedAtStartToVertical`: some other
   * line listed under `p` is vertical (a degenerate line counts, as only
   * `IsVertical` is asked).
   */
  predicate ConnectedToVertical(p: Point, line: Line, pc: PointMap) {
    p in pc && exists l :: l in pc[p] && l != line && IsVertical(l)
  }

  /** Reference: another input line with an end at `p` is angled. */
  ghost predicate AngledAt(lines: seq<Line>, line: Line, p: Point) {
    exists l :: l in lines && l != line && (l.from == p || l.to == p) && IsAngled(l)
  }

  /** Reference: another input line with an end at `p` is vertical. */
  ghost predicate VerticalAt(lines: seq<Line>, line: Line, p: Point) {
    exists l :: l in lines && l != line && (l.from == p || l.to == p) && IsVertical(l)
  }

  /** A line is listed under `p` exactly when it is an input line with an end at `p`. */
  lemma ListedUnder(lines: seq<Line>, p: Point, l: Line)
    requires p in BuildPointConnections(lines)
    ensures l in BuildPointConnections(lines)[p] <==> l in lines && (l.from == p || l.to == p)
  {
    var pc := BuildPointConnections(lines);
    assert Registers(pc, lines);
    assert l in pc[p] <==> multiset(pc[p])[l] > 0;
    ProductPositive(multiset(lines)[l], Ends(l, p));
  }

  /** The map-based tests agree with the reference predicates over the input list. */
  lemma ConnectedMeans(lines: seq<Line>, line: Line, p: Point)
    ensures ConnectedToAngled(p, line, BuildPointConnections(lines)) <==> AngledAt(lines, line, p)
    ensures ConnectedToVertical(p, line, BuildPointConnections(lines)) <==> VerticalAt(lines, line, p)
  {
    var pc := BuildPointConnections(lines);
    assert Registers(pc, lines);
    if AngledAt(lines, line, p) {
      var l :| l in lines && l != line && (l.from == p || l.to == p) && IsAngled(l);
      assert p in pc;
      ListedUnder(lines, p, l);
    }
    if ConnectedToAngled(p, line, pc) {
      var l :| l in pc[p] && l != line && IsAngled(l);
      ListedUnder(lines, p, l);
    }
    if VerticalAt(lines, line, p) {
      var l :| l in lines && l != line && (l.from == p || l.to == p) && IsVertical(l);
      assert p in pc;
      ListedUnder(lines, p, l);
    }
    if ConnectedToVertical(p, line, pc) {
      var l :| l in pc[p] && l != line && IsVertical(l);
      ListedUnder(lines, p, l);
    }
  }

  // ---------------------------------------------------------------------------
  // First pass: one weight per line
  // ---------------------------------------------------------------------------

  /** The body of the loop at GraphSorting002.cs:113-156 for one line. */
  function InitialWeight(line: Line, pc: PointMap): int {
    var base := ZWeight(line.to);
    if IsHorizontal(line) then
      base + HorizontalOffset
    else if IsVertical(line) then
      base
      - (if ConnectedToAngled(line.to, line, pc) then VerticalAdjustment else 0)
      + (if ConnectedToAngled(line.from, line, pc) then VerticalAdjustment else 0)
    else
      base
      + (if ConnectedToVertical(line.to, line, pc) then AngledAdjustment else 0)
      - (if ConnectedToVertical(line.from, line, pc) then AngledAdjustment else 0)
  }

  /**
   * The weights before refinement. Every input line, turned upwards, is one
   * key (a repeated line, or one given in both directions, overwrites its
   * entry with the same value), so the base is the line's top height.
   * Horizontal lines, degenerate ones included, get their height plus 0.9; a
   * vertical line gets -0.5 for an angled line at its top and +0.5 for one at
   * its foot; an angled line gets +0.05 for a vertical at its top and -0.05
   * for one at its foot.
   */
  function InitialWeights(lines: seq<Line>): (w: Weights)
    ensures w.Keys == set l | l in Upwards(lines)
    ensures forall u :: u in w ==> u.from.z <= u.to.z
    ensures forall u :: u in w && IsHorizontal(u) ==> w[u] == ZWeight(u.to) + HorizontalOffset
    ensures forall u :: u in w && IsVertical(u) && !IsHorizontal(u) ==>
      w[u] == ZWeight(u.to)
              - (if AngledAt(lines, u, u.to) then VerticalAdjustment else 0)
              + (if AngledAt(lines, u, u.from) then VerticalAdjustment else 0)
    ensures forall u :: u in w && IsAngled(u) ==>
      w[u] == ZWeight(u.to)
              + (if VerticalAt(lines, u, u.to) then AngledAdjustment else 0)
              - (if VerticalAt(lines, u, u.from) then AngledAdjustment else 0)
  {
    var pc := BuildPointConnections(lines);
    var ups := Upwards(lines);
    var w := map u | u in ups :: InitialWeight(u, pc);
    forall u | u in w
      ensures u.from.z <= u.to.z
      ensures ConnectedToAngled(u.to, u, pc) <==> AngledAt(lines, u, u.to)
      ensures ConnectedToAngled(u.from, u, pc) <==> AngledAt(lines, u, u.from)
      ensures ConnectedToVertical(u.to, u, pc) <==> VerticalAt(lines, u, u.to)
      ensures ConnectedToVertical(u.from, u, pc) <==> VerticalAt(lines, u, u.from)
    {
      var i :| 0 <= i < |ups| && ups[i] == u;
      ConnectedMeans(lines, u, u.to);
      ConnectedMeans(lines, u, u.from);
    }
    w
  }

  /**
   * Turning the input lines upwards first changes nothing: the neighbour
   * tests only ask which lines end at a point and whether they are of the
   * other class than the line being weighed, and neither depends on the
   * direction a neighbour is given in.
   */
  lemma InitialWeightsIgnoreDirection(lines: seq<Line>)
    ensures InitialWeights(Upwards(lines)) == InitialWeights(lines)
  {
    var w, w' := InitialWeights(lines), InitialWeights(Upwards(lines));
    UpwardsTwice(lines);
    assert w'.Keys == w.Keys;
    forall u | u in w
      ensures w'[u] == w[u]
    {
      SameInitialWeight(lines, u);
    }
  }

  /** One key of `InitialWeightsIgnoreDirection`. */
  lemma SameInitialWeight(lines: seq<Line>, u: Line)
    requires u in InitialWeights(lines) && u in InitialWeights(Upwards(lines))
    ensures InitialWeights(Upwards(lines))[u] == InitialWeights(lines)[u]
  {
    if IsVertical(u) && !IsHorizontal(u) {
      AngledAtUpwards(lines, u, u.to);
      AngledAtUpwards(lines, u, u.from);
    } else if IsAngled(u) {
      VerticalAtUpwards(lines, u, u.to);
      VerticalAtUpwards(lines, u, u.from);
    }
  }

  /** The `i`-th line and its upward turn touch the same points and are of the same class. */
  lemma UpwardPlace(lines: seq<Line>, i: nat, p: Point)
    requires i < |lines|
    ensures var l, u := lines[i], Upwards(lines)[i];
      (u.from == p || u.to == p) == (l.from == p || l.to == p)
      && IsAngled(u) == IsAngled(l) && IsVertical(u) == IsVertical(l)
  {
    FlipKeepsClass(lines[i]);
  }

  /** For a vertical line, an angled neighbour at `p` is found whichever way the inputs run. */
  lemma AngledAtUpwards(lines: seq<Line>, u: Line, p: Point)
    requires IsVertical(u)
    ensures AngledAt(Upwards(lines), u, p) <==> AngledAt(lines, u, p)
  {
    var ups := Upwards(lines);
    if AngledAt(lines, u, p) {
      var i :| 0 <= i < |lines| && lines[i] != u && (lines[i].from == p || lines[i].to == p) && IsAngled(lines[i]);
      UpwardPlace(lines, i, p);
      assert ups[i] in ups;
    }
    if AngledAt(ups, u, p) {
      var i :| 0 <= i < |ups| && ups[i] != u && (ups[i].from == p || ups[i].to == p) && IsAngled(ups[i]);
      UpwardPlace(lines, i, p);
      assert lines[i] in lines;
    }
  }

  /** For an angled line, a vertical neighbour at `p` is found whichever way the inputs run. */
  lemma VerticalAtUpwards(lines: seq<Line>, u: Line, p: Point)
    requires IsAngled(u)
    ensures VerticalAt(Upwards(lines), u, p) <==> VerticalAt(lines, u, p)
  {
    var ups := Upwards(lines);
    if VerticalAt(lines, u, p) {
      var i :| 0 <= i < |lines| && lines[i] != u && (lines[i].from == p || lines[i].to == p) && IsVertical(lines[i]);
      UpwardPlace(lines, i, p);
      assert ups[i] in ups;
    }
    if VerticalAt(ups, u, p) {
      var i :| 0 <= i < |ups| && ups[i] != u && (ups[i].from == p || ups[i].to == p) && IsVertical(ups[i]);
      UpwardPlace(lines, i, p);
      assert lines[i] in lines;
    }
  }

  // ---------------------------------------------------------------------------
  // Refinement (`RefineWeights`)
  // ---------------------------------------------------------------------------

  /** `+0.05` for the start-neighbour loop, `-0.05` for the end-neighbour loop. */
  function Signed(up: bool, n: int): int {
    if up then n else -n
  }

  /**
   * One `foreach` over a neighbour list: GraphSorting002.cs:187-196 (`up`) or
   * :199-208 (not `up`). Every listed line that is a key moves 0.05 against the
   * direction, and on the first iteration (`counter == 0`) the vertical line
   * itself moves 0.05 in the direction.
   */
  function Nudge(w: Weights, key: Line, s: seq<Line>, up: bool, first: bool): (r: Weights)
    requires key in w
    ensures r.Keys == w.Keys
    ensures forall x :: x in w ==>
      r[x] == w[x] - Signed(up, RefineStep * multiset(s)[x]) + (if x == key && first && s != [] then Signed(up, RefineStep) else 0)
  {
    if s == [] then w
    else
      var w1 := if s[0] in w then w[s[0] := w[s[0]] - Signed(up, RefineStep)] else w;
      var w2 := if first then w1[key := w1[key] + Signed(up, RefineStep)] else w1;
      var r := Nudge(w2, key, s[1..], up, false);
      NudgeHead(w, w2, r, key, s, up, first);
      r
  }

  /** The first nudge of `s` together with the rest of them. */
  lemma NudgeHead(w: Weights, w2: Weights, r: Weights, key: Line, s: seq<Line>, up: bool, first: bool)
    requires key in w && s != []
    requires w2.Keys == w.Keys
    requires forall x :: x in w ==>
      w2[x] == w[x] - (if x == s[0] then Signed(up, RefineStep) else 0) + (if x == key && first then Signed(up, RefineStep) else 0)
    requires r.Keys == w2.Keys
    requires forall x :: x in w2 ==> r[x] == w2[x] - Signed(up, RefineStep * multiset(s[1..])[x])
    ensures r.Keys == w.Keys
    ensures forall x :: x in w ==>
      r[x] == w[x] - Signed(up, RefineStep * multiset(s)[x]) + (if x == key && first then Signed(up, RefineStep) else 0)
  {
    assert s == [s[0]] + s[1..];
    forall x | x in w
      ensures r[x] == w[x] - Signed(up, RefineStep * multiset(s)[x]) + (if x == key && first then Signed(up, RefineStep) else 0)
    {
      assert multiset(s)[x] == (if x == s[0] then 1 else 0) + multiset(s[1..])[x];
    }
  }

  /**
   * What the two neighbour loops of vertical line `k` do to line `x`
   * (GraphSorting002.cs:185-209): `k` gains 0.05 when it has a start neighbour
   * and loses 0.05 when it has an end neighbour; each copy of a start neighbour
   * loses 0.05 and each copy of an end neighbour gains 0.05.
   */
  function VerticalEffect(k: Line, nb: Neighbours, x: Line): int {
    (if x == k then (if nb.starts != [] then RefineStep else 0) - (if nb.ends != [] then RefineStep else 0) else 0)
    - RefineStep * multiset(nb.starts)[x] + RefineStep * multiset(nb.ends)[x]
  }

  /** Only vertical lines of a group adjust anything (`if (isVertical)` at :183). */
  function Effect(k: Line, nb: Neighbours, x: Line): int {
    if IsVertical(k) then VerticalEffect(k, nb, x) else 0
  }

  /** The summed effect on `x` of the lines `ks`, each with its neighbours in `conns`. */
  function SumEffects(conns: map<Line, Neighbours>, ks: seq<Line>, x: Line): int
    requires forall k :: k in ks ==> k in conns
  {
    if ks == [] then 0 else Effect(ks[0], conns[ks[0]], x) + SumEffects(conns, ks[1..], x)
  }

  /** The two neighbour loops for one vertical line: start neighbours, then end neighbours. */
  function AdjustVertical(w: Weights, k: Line, nb: Neighbours): (r: Weights)
    requires k in w
    ensures r.Keys == w.Keys
    ensures forall x :: x in w ==> r[x] == w[x] + VerticalEffect(k, nb, x)
  {
    Nudge(Nudge(w, k, nb.starts, true, true), k, nb.ends, false, true)
  }

  /**
   * `foreach (var connection in connections)` at GraphSorting002.cs:179-211:
   * the lines of a group in dictionary order, each vertical one adjusting its
   * neighbours. The result is the sum of the individual effects.
   */
  function ApplyConnections(w: Weights, conns: map<Line, Neighbours>, ks: seq<Line>): (r: Weights)
    requires forall k :: k in ks ==> k in conns && k in w
    ensures r.Keys == w.Keys
    ensures forall x :: x in w ==> r[x] == w[x] + SumEffects(conns, ks, x)
  {
    if ks == [] then w
    else
      var k := ks[0];
      var w1 := if IsVertical(k) then AdjustVertical(w, k, conns[k]) else w;
      assert forall x :: x in w ==> w1[x] == w[x] + Effect(k, conns[k], x);
      ApplyConnections(w1, conns, ks[1..])
  }

  /** `order` lists the keys of `w` once each, in dictionary enumeration order. */
  predicate Enumerates(order: seq<Line>, w: Weights) {
    Distinct(order) && (forall k :: k in order ==> k in w) && (forall k :: k in w ==> k in order)
  }

  /** `x` shares its weight with another line. */
  ghost predicate Tied(w: Weights, x: Line)
    requires x in w
  {
    exists y :: y in w && y != x && w[y] == w[x]
  }

  /** The lines of weight `v`, in enumeration order: one `GroupBy` group. */
  function GroupOf(w: Weights, order: seq<Line>, v: int): (g: seq<Line>)
    requires forall k :: k in order ==> k in w
    ensures forall k :: k in g <==> k in order && w[k] == v
    ensures Distinct(order) ==> Distinct(g)
  {
    if order == [] then []
    else
      var rest := GroupOf(w, order[1..], v);
      assert forall k :: k in order <==> k == order[0] || k in order[1..];
      if w[order[0]] == v then [order[0]] + rest else rest
  }

  /** The weights of `order`, position by position. */
  function ValuesOf(w: Weights, order: seq<Line>): (vs: seq<int>)
    requires forall k :: k in order ==> k in w
    ensures |vs| == |order|
    ensures forall i :: 0 <= i < |order| ==> vs[i] == w[order[i]]
  {
    if order == [] then [] else [w[order[0]]] + ValuesOf(w, order[1..])
  }

  /** The groups for the values `vs` that have more than one line (`Where(g => g.Count() > 1)`). */
  function TiedGroupsFor(w: Weights, order: seq<Line>, vs: seq<int>): seq<seq<Line>>
    requires forall k :: k in order ==> k in w
  {
    if vs == [] then []
    else
      var g := GroupOf(w, order, vs[0]);
      (if |g| > 1 then [g] else []) + TiedGroupsFor(w, order, vs[1..])
  }

  /** `weights.GroupBy(kvp => kvp.Value).Where(g => g.Count() > 1)`, groups in order of first appearance. */
  function TiedGroups(w: Weights, order: seq<Line>): seq<seq<Line>>
    requires forall k :: k in order ==> k in w
  {
    TiedGroupsFor(w, order, Dedup(ValuesOf(w, order)))
  }

  /** The effect a group's refinement has on `x`. */
  function GroupEffect(g: seq<Line>, x: Line): int {
    SumEffects(FindConnectedLines(g), g, x)
  }

  /** The running effect of a list of groups on `x`. */
  function GroupsEffect(gs: seq<seq<Line>>, x: Line): int {
    if gs == [] then 0 else GroupEffect(gs[0], x) + GroupsEffect(gs[1..], x)
  }

  /** The `foreach (var group in groupedWeights)` loop, groups taken from the weights at its start. */
  function ApplyGroups(w: Weights, gs: seq<seq<Line>>): (r: Weights)
    requires forall g, k :: g in gs && k in g ==> k in w
    ensures r.Keys == w.Keys
    ensures forall x :: x in w ==> r[x] == w[x] + GroupsEffect(gs, x)
  {
    if gs == [] then w
    else
      var w1 := ApplyConnections(w, FindConnectedLines(gs[0]), gs[0]);
      ApplyGroups(w1, gs[1..])
  }

  /**
   * One refinement level (GraphSorting002.cs:170-212). No key is added or
   * removed, a line whose weight no other line shares keeps its weight, and a
   * tied line moves by exactly the effect of its own group's vertical lines.
   */
  function RefineLevel(w: Weights, order: seq<Line>): (r: Weights)
    requires Enumerates(order, w)
    ensures r.Keys == w.Keys
    ensures forall x :: x in w && !Tied(w, x) ==> r[x] == w[x]
    ensures forall x :: x in w && Tied(w, x) ==> r[x] == w[x] + GroupEffect(GroupOf(w, order, w[x]), x)
  {
    var gs := TiedGroups(w, order);
    var vs := Dedup(ValuesOf(w, order));
    TiedGroupsMembers(w, order, vs);
    var r := ApplyGroups(w, gs);
    forall x | x in w
      ensures GroupsEffect(gs, x) == if Tied(w, x) then GroupEffect(GroupOf(w, order, w[x]), x) else 0
    {
      var i :| 0 <= i < |order| && order[i] == x;
      assert w[x] in vs;
      TiedGroupsEffect(w, order, vs, x);
      TiedIffGroup(w, order, x);
    }
    r
  }

  /** Every line of every tied group is a key. */
  lemma TiedGroupsMembers(w: Weights, order: seq<Line>, vs: seq<int>)
    requires forall k :: k in order ==> k in w
    ensures forall g, k :: g in TiedGroupsFor(w, order, vs) && k in g ==> k in w
  {
    if vs != [] {
      TiedGroupsMembers(w, order, vs[1..]);
    }
  }

  /** A line is tied exactly when its weight group has more than one line. */
  lemma TiedIffGroup(w: Weights, order: seq<Line>, x: Line)
    requires Enumerates(order, w)
    requires x in w
    ensures |GroupOf(w, order, w[x])| > 1 <==> Tied(w, x)
  {
    var g := GroupOf(w, order, w[x]);
    assert x in g;
    if |g| > 1 {
      var y := OtherMember(g, x);
      assert y in w && y != x && w[y] == w[x];
    }
    if Tied(w, x) {
      var y :| y in w && y != x && w[y] == w[x];
      assert y in g;
      TwoMembers(g, x, y);
    }
  }

  /** A group's effect reaches only its own lines. */
  lemma GroupEffectOutside(g: seq<Line>, ks: seq<Line>, x: Line)
    requires forall k :: k in ks ==> k in g
    requires x !in g
    ensures SumEffects(FindConnectedLines(g), ks, x) == 0
  {
    if ks != [] {
      var conns := FindConnectedLines(g);
      assert multiset(g)[x] == 0;
      assert multiset(conns[ks[0]].starts)[x] == 0;
      assert multiset(conns[ks[0]].ends)[x] == 0;
      GroupEffectOutside(g, ks[1..], x);
    }
  }

  /** The first value's group, when tied, comes first among the tied groups. */
  lemma TiedGroupsHead(w: Weights, order: seq<Line>, vs: seq<int>, x: Line)
    requires forall k :: k in order ==> k in w
    requires vs != []
    ensures var g := GroupOf(w, order, vs[0]);
      GroupsEffect(TiedGroupsFor(w, order, vs), x)
      == (if |g| > 1 then GroupEffect(g, x) else 0) + GroupsEffect(TiedGroupsFor(w, order, vs[1..]), x)
  {
    var g := GroupOf(w, order, vs[0]);
    var rest := TiedGroupsFor(w, order, vs[1..]);
    var tg := TiedGroupsFor(w, order, vs);
    if |g| > 1 {
      assert tg[0] == g && tg[1..] == rest;
    } else {
      assert tg == rest;
    }
  }

  /**
   * Summed over the tied groups of distinct values `vs`, only the group of
   * `x`'s own weight contributes, and only when `x` is tied.
   */
  lemma {:induction false} TiedGroupsEffect(w: Weights, order: seq<Line>, vs: seq<int>, x: Line)
    requires forall k :: k in order ==> k in w
    requires Distinct(vs)
    requires x in w
    ensures var own := GroupOf(w, order, w[x]);
      GroupsEffect(TiedGroupsFor(w, order, vs), x) == if w[x] in vs && |own| > 1 then GroupEffect(own, x) else 0
  {
    if vs != [] {
      assert Distinct(vs[1..]);
      TiedGroupsEffect(w, order, vs[1..], x);
      TiedGroupsStep(w, order, vs, x, GroupOf(w, order, w[x]));
    }
  }

  /** The inductive step of `TiedGroupsEffect`, `own` being the group of `x`'s weight. */
  lemma TiedGroupsStep(w: Weights, order: seq<Line>, vs: seq<int>, x: Line, own: seq<Line>)
    requires forall k :: k in order ==> k in w
    requires Distinct(vs) && vs != []
    requires x in w && own == GroupOf(w, order, w[x])
    requires GroupsEffect(TiedGroupsFor(w, order, vs[1..]), x) == if w[x] in vs[1..] && |own| > 1 then GroupEffect(own, x) else 0
    ensures GroupsEffect(TiedGroupsFor(w, order, vs), x) == if w[x] in vs && |own| > 1 then GroupEffect(own, x) else 0
  {
    TiedGroupsHead(w, order, vs, x);
    if vs[0] == w[x] {
      assert vs[0] !in vs[1..];
    } else {
      OtherGroupEffect(w, order, vs[0], x);
      SkipHead(vs, w[x]);
    }
  }

  /** A value other than the first is among `vs` exactly when it is among the rest. */
  lemma SkipHead(vs: seq<int>, v: int)
    requires vs != [] && vs[0] != v
    ensures v in vs <==> v in vs[1..]
  {
    assert vs == [vs[0]] + vs[1..];
  }

  /** The group of another weight has no effect on `x`. */
  lemma OtherGroupEffect(w: Weights, order: seq<Line>, v: int, x: Line)
    requires forall k :: k in order ==> k in w
    requires x in w && w[x] != v
    ensures GroupEffect(GroupOf(w, order, v), x) == 0
  {
    var g := GroupOf(w, order, v);
    GroupEffectOutside(g, g, x);
  }

  /**
   * `RefineWeights(weights, pointConnections, limit)`: returns at once when
   * `limit <= 0`, otherwise refines one level and recurses with `limit - 1`,
   * so it stops after `max(limit, 0)` levels. The key set never changes. (The
   * `pointConnections` argument is never read by the source.)
   */
  function RefineWeights(w: Weights, order: seq<Line>, limit: int): (r: Weights)
    requires Enumerates(order, w)
    ensures r.Keys == w.Keys
    ensures limit <= 0 ==> r == w
    decreases limit
  {
    if limit <= 0 then w
    else RefineWeights(RefineLevel(w, order), order, limit - 1)
  }

  /**
   * `AssignWeightsForSorting`: throws on an empty list; otherwise every input
   * line, turned upwards, gets exactly one weight, the initial weights refined
   * five levels deep, enumerated in order of first writing.
   */
  function AssignWeightsForSorting(lines: seq<Line>): (r: Result<Weights>)
    ensures r.Err? <==> lines == []
    ensures r.Err? ==> r.error == EmptyInput
    ensures r.Ok? ==> r.value.Keys == set l | l in Upwards(lines)
    ensures r.Ok? ==> forall u :: u in r.value ==> u.from.z <= u.to.z
  {
    if |lines| == 0 then Err(EmptyInput)
    else
      var w := InitialWeights(lines);
      var order := Dedup(Upwards(lines));
      FirstWritings(lines);
      Ok(RefineWeights(w, order, RefineLimit))
  }

  /** The keys in order of first writing enumerate the initial weights. */
  lemma FirstWritings(lines: seq<Line>)
    ensures Enumerates(Dedup(Upwards(lines)), InitialWeights(lines))
  {
    var ups, w := Upwards(lines), InitialWeights(lines);
    var order := Dedup(ups);
    forall k | k in w
      ensures k in order
    {
      var i :| 0 <= i < |ups| && ups[i] == k;
    }
    forall k | k in order
      ensures k in w
    {
      var i :| 0 <= i < |order| && order[i] == k;
    }
  }

  /** The whole weighting gives the same result for the lines turned upwards first. */
  lemma AssignIgnoresDirection(lines: seq<Line>)
    ensures AssignWeightsForSorting(Upwards(lines)) == AssignWeightsForSorting(lines)
  {
    if lines != [] {
      InitialWeightsIgnoreDirection(lines);
      UpwardsTwice(lines);
    }
  }
}
