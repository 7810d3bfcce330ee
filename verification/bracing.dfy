/**
 * `CurveReorderer` (N_Bracing.cs): one pass over a list of bracing curves that
 * pulls an angled curve in behind the vertical curve it leaves from, and a
 * vertical curve in front of the angled curve whose top it reaches.
 *
 * Curves are reference objects in the source and `Reverse` flips one in
 * place; here a curve is a value that carries its reversal flag. Whether a
 * curve is vertical or angled depends on tangents and an angle threshold in
 * floating point, so both tests are parameters, applied to the curve as it
 * currently points. End points within the 1e-6 tolerance are read as equal
 * points. An index is decremented to look at a position again, and with
 * arbitrary tests the pass need not end, so the model runs on `fuel` outer
 * iterations; with tests that behave as the source's do under reversal, it
 * ends within three iterations per curve (`ReorderFinishes`).
 */
module Bracing {
  import opened Geometry
  import opened Wrappers
  import opened Sequences

  /** A curve from `a` to `b`, possibly reversed, with `IsLinear()` recorded. */
  datatype Curve = Curve(a: Point, b: Point, linear: bool, reversed: bool)

  /** A classification of curves, such as `IsVertical` or `IsAngled`. */
  type Test = Curve -> bool

  function Start(c: Curve): Point {
    if c.reversed then c.b else c.a
  }

  function End(c: Curve): Point {
    if c.reversed then c.a else c.b
  }

  /** The curve with its direction forgotten. */
  function Base(c: Curve): Curve {
    c.(reversed := false)
  }

  /** `Curve.Reverse()`: swaps the two ends and changes nothing else. */
  function Reverse(c: Curve): (r: Curve)
    ensures Start(r) == End(c) && End(r) == Start(c)
    ensures Base(r) == Base(c) && r != c
  {
    c.(reversed := !c.reversed)
  }

  /** The curves with their directions forgotten. */
  function Bases(cs: seq<Curve>): (r: seq<Curve>)
    ensures |r| == |cs| && forall i :: 0 <= i < |cs| ==> r[i] == Base(cs[i])
  {
    seq(|cs|, i requires 0 <= i < |cs| => Base(cs[i]))
  }

  /** `r` holds the curves of `cs`, some possibly reversed, in some order. */
  predicate SameUpToReversal(r: seq<Curve>, cs: seq<Curve>) {
    multiset(Bases(r)) == multiset(Bases(cs))
  }

  /** `p` is one of the curve's ends (the `DistanceTo(...) < _tolerance` tests). */
  predicate Connected(p: Point, c: Curve) {
    Start(c) == p || End(c) == p
  }

  /** `topPt`: the start when it is strictly higher than the end, otherwise the end. */
  function Top(c: Curve): (p: Point)
    ensures Connected(p, c)
    ensures p.z >= Start(c).z && p.z >= End(c).z
  {
    if Start(c).z > End(c).z then Start(c) else End(c)
  }

  /** The first index from `j` on whose curve passes `want`, as an inner `for`/`break` finds it. */
  function FirstFrom(cs: seq<Curve>, want: Test, j: nat): (r: Option<nat>)
    ensures r.Some? ==> j <= r.value < |cs| && want(cs[r.value])
    ensures r.Some? ==> forall m :: j <= m < r.value ==> !want(cs[m])
    ensures r.None? ==> forall m :: j <= m < |cs| ==> !want(cs[m])
    decreases |cs| - j
  {
    if j >= |cs| then None
    else if want(cs[j]) then Some(j)
    else FirstFrom(cs, want, j + 1)
  }

  /**
   * `r` is `cs` with the curve at `j` moved back to `k`: the curves before `k`
   * and after `j` stay where they were, and those from `k` to `j - 1` shift
   * up one place, keeping their order.
   */
  predicate Shifted(r: seq<Curve>, cs: seq<Curve>, j: nat, k: nat) {
    k <= j < |cs| && |r| == |cs| && r[k] == cs[j]
    && (forall m :: 0 <= m < k ==> r[m] == cs[m])
    && (forall m :: k < m <= j ==> r[m] == cs[m - 1])
    && (forall m :: j < m < |cs| ==> r[m] == cs[m])
  }

  /** `RemoveAt(j)` then `Insert(k, candidate)`: the curve at `j` moves back to `k` and those between shift up. */
  function Move(cs: seq<Curve>, j: nat, k: nat): (r: seq<Curve>)
    requires k <= j < |cs|
    ensures Shifted(r, cs, j, k)
    ensures SameUpToReversal(r, cs) && multiset(r) == multiset(cs)
  {
    var r := Insert(RemoveAt(cs, j), k, cs[j]);
    BasesOfMove(cs, j, k);
    r
  }

  /** Forgetting directions commutes with moving a curve. */
  lemma BasesOfMove(cs: seq<Curve>, j: nat, k: nat)
    requires k <= j < |cs|
    ensures Bases(Insert(RemoveAt(cs, j), k, cs[j])) == Insert(RemoveAt(Bases(cs), j), k, Base(cs[j]))
  {
    var a := Bases(Insert(RemoveAt(cs, j), k, cs[j]));
    var b := Insert(RemoveAt(Bases(cs), j), k, Base(cs[j]));
    assert |a| == |b|;
    forall m | 0 <= m < |a|
      ensures a[m] == b[m]
    {
    }
  }

  /** The curve at `j` is angled and touches the end point of the curve at `i` (N_Bracing.cs:66-67). */
  predicate LeavesTo(cs: seq<Curve>, i: nat, j: nat, isAngled: Test)
    requires i < |cs| && j < |cs|
  {
    isAngled(cs[j]) && Connected(End(cs[i]), cs[j])
  }

  /** The curve at `j` is vertical and touches the top point of the curve at `i` (N_Bracing.cs:89-90). */
  predicate ReachesTop(cs: seq<Curve>, i: nat, j: nat, isVertical: Test)
    requires i < |cs| && j < |cs|
  {
    isVertical(cs[j]) && Connected(Top(cs[i]), cs[j])
  }

  /**
   * The vertical half of one iteration: when the curve at `i` is vertical and
   * some later angled curve touches its end point, the first such curve moves
   * to `i + 1` and the curves between shift up; otherwise nothing changes.
   */
  function VerticalStep(cs: seq<Curve>, i: nat, isVertical: Test, isAngled: Test): (r: seq<Curve>)
    requires i < |cs|
    ensures |r| == |cs| && SameUpToReversal(r, cs) && multiset(r) == multiset(cs)
    ensures forall m :: 0 <= m <= i ==> r[m] == cs[m]
    ensures !(isVertical(cs[i]) && exists j :: i < j < |cs| && LeavesTo(cs, i, j, isAngled)) ==> r == cs
    ensures isVertical(cs[i]) && (exists j :: i < j < |cs| && LeavesTo(cs, i, j, isAngled)) ==>
      exists j :: i < j < |cs| && LeavesTo(cs, i, j, isAngled)
                  && (forall m :: i < m < j ==> !LeavesTo(cs, i, m, isAngled))
                  && Shifted(r, cs, j, i + 1)
  {
    if !isVertical(cs[i]) then cs
    else
      var endPt := End(cs[i]);
      match FirstFrom(cs, c => isAngled(c) && Connected(endPt, c), i + 1)
      case None => cs
      case Some(j) =>
        assert LeavesTo(cs, i, j, isAngled);
        Move(cs, j, i + 1)
  }

  /**
   * The angled half: when the curve at `i` is angled and some later vertical
   * curve touches its top point, the first such curve moves to `i`, the
   * angled curve, reversed, follows it at `i + 1`, and the curves between
   * shift up; `stay` then says that position `i` is to be looked at again.
   * Otherwise nothing changes.
   */
  function AngledStep(cs: seq<Curve>, i: nat, isVertical: Test, isAngled: Test): (r: (seq<Curve>, bool))
    requires i < |cs|
    ensures |r.0| == |cs| && SameUpToReversal(r.0, cs)
    ensures forall m :: 0 <= m < i ==> r.0[m] == cs[m]
    ensures r.1 <==> isAngled(cs[i]) && exists j :: i < j < |cs| && ReachesTop(cs, i, j, isVertical)
    ensures !r.1 ==> r.0 == cs
    ensures r.1 ==> isVertical(r.0[i]) && multiset(r.0) == multiset(cs[i := Reverse(cs[i])])
    ensures r.1 ==>
      exists j :: i < j < |cs| && ReachesTop(cs, i, j, isVertical)
                  && (forall m :: i < m < j ==> !ReachesTop(cs, i, m, isVertical))
                  && Shifted(r.0, cs[i := Reverse(cs[i])], j, i)
  {
    if !isAngled(cs[i]) then (cs, false)
    else
      var topPt := Top(cs[i]);
      match FirstFrom(cs, c => isVertical(c) && Connected(topPt, c), i + 1)
      case None => (cs, false)
      case Some(j) =>
        var flipped := cs[i := Reverse(cs[i])];
        assert Bases(flipped) == Bases(cs);
        assert ReachesTop(cs, i, j, isVertical);
        (Move(flipped, j, i), true)
  }

  /** One iteration of the outer loop: the curves afterwards and the next index (`i--` then `i++` stays put). */
  function Step(cs: seq<Curve>, i: nat, isVertical: Test, isAngled: Test): (r: (seq<Curve>, nat))
    requires i < |cs|
    ensures |r.0| == |cs| && SameUpToReversal(r.0, cs)
    ensures forall m :: 0 <= m < i ==> r.0[m] == cs[m]
    ensures r.1 == i || r.1 == i + 1
  {
    var v := VerticalStep(cs, i, isVertical, isAngled);
    var (s, stay) := AngledStep(v, i, isVertical, isAngled);
    (s, if stay then i else i + 1)
  }

  /** The reordered curves, and whether the loop ran to its end within the fuel. */
  datatype Reordered = Reordered(curves: seq<Curve>, finished: bool)

  /** The outer loop of `Reorder` from index `i` on. */
  function ReorderFrom(cs: seq<Curve>, i: nat, fuel: nat, isVertical: Test, isAngled: Test): (r: Reordered)
    requires i <= |cs|
    ensures |r.curves| == |cs| && SameUpToReversal(r.curves, cs)
    ensures forall m :: 0 <= m < i ==> r.curves[m] == cs[m]
    decreases fuel
  {
    if i == |cs| then Reordered(cs, true)
    else if fuel == 0 then Reordered(cs, false)
    else
      var (s, next) := Step(cs, i, isVertical, isAngled);
      ReorderFrom(s, next, fuel - 1, isVertical, isAngled)
  }

  /** `Reorder`: the whole pass, from the first curve. */
  function Reorder(cs: seq<Curve>, fuel: nat, isVertical: Test, isAngled: Test): (r: Reordered)
    ensures |r.curves| == |cs| && SameUpToReversal(r.curves, cs)
  {
    ReorderFrom(cs, 0, fuel, isVertical, isAngled)
  }

  /**
   * With no vertical curve from `i` on nothing moves: the pass visits each
   * remaining place once and returns the list as it was.
   */
  lemma {:induction false} NoVerticalUnchanged(cs: seq<Curve>, i: nat, fuel: nat, isVertical: Test, isAngled: Test)
    requires i <= |cs| && fuel >= |cs| - i
    requires forall m :: i <= m < |cs| ==> !isVertical(cs[m])
    ensures ReorderFrom(cs, i, fuel, isVertical, isAngled) == Reordered(cs, true)
    decreases |cs| - i
  {
    if i < |cs| {
      NoVerticalStep(cs, i, isVertical, isAngled);
      NoVerticalUnchanged(cs, i + 1, fuel - 1, isVertical, isAngled);
    }
  }

  /** One iteration at a non-vertical curve with no vertical curve after it moves nothing. */
  lemma NoVerticalStep(cs: seq<Curve>, i: nat, isVertical: Test, isAngled: Test)
    requires i < |cs|
    requires forall m :: i <= m < |cs| ==> !isVertical(cs[m])
    ensures Step(cs, i, isVertical, isAngled) == (cs, i + 1)
  {
    assert VerticalStep(cs, i, isVertical, isAngled) == cs;
    assert !AngledStep(cs, i, isVertical, isAngled).1;
  }

  // ---------------------------------------------------------------------
  // Termination with the source's own tests
  // ---------------------------------------------------------------------

  /**
   * What the source's tests promise about reversing `c`. `IsVertical` looks
   * only at the x and y of the tangent, so it ignores direction; `IsAngled`
   * measures the angle to +z, so a curve that is vertical and angled points
   * down, and reversed it points up and is no longer angled.
   */
  predicate ReversalRespected(c: Curve, isVertical: Test, isAngled: Test) {
    && isVertical(Reverse(c)) == isVertical(c)
    && (isVertical(c) && isAngled(c) ==> !isAngled(Reverse(c)))
  }

  /** The source's tests respect reversal for every curve. */
  ghost predicate SourceTests(isVertical: Test, isAngled: Test) {
    forall c :: ReversalRespected(c, isVertical, isAngled)
  }

  /** A curve that is both vertical and angled: a vertical curve pointing down. */
  predicate Downward(c: Curve, isVertical: Test, isAngled: Test) {
    isVertical(c) && isAngled(c)
  }

  /** How many curves of `cs` are vertical and point down. */
  function CountDownward(cs: seq<Curve>, isVertical: Test, isAngled: Test): (n: nat)
    ensures n <= |cs|
  {
    if cs == [] then 0
    else (if Downward(cs[0], isVertical, isAngled) then 1 else 0) + CountDownward(cs[1..], isVertical, isAngled)
  }

  /** Counting splits over concatenation. */
  lemma {:induction false} CountConcat(a: seq<Curve>, b: seq<Curve>, isVertical: Test, isAngled: Test)
    ensures CountDownward(a + b, isVertical, isAngled) == CountDownward(a, isVertical, isAngled) + CountDownward(b, isVertical, isAngled)
  {
    if a == [] {
      assert a + b == b;
    } else {
      assert (a + b)[0] == a[0] && (a + b)[1..] == a[1..] + b;
      CountConcat(a[1..], b, isVertical, isAngled);
    }
  }

  /** Taking out the curve at `k` takes out what it contributes to the count. */
  lemma CountRemove(b: seq<Curve>, k: nat, isVertical: Test, isAngled: Test)
    requires k < |b|
    ensures CountDownward(b, isVertical, isAngled)
         == CountDownward(RemoveAt(b, k), isVertical, isAngled) + (if Downward(b[k], isVertical, isAngled) then 1 else 0)
  {
    assert b == b[..k] + ([b[k]] + b[k + 1..]);
    CountConcat(b[..k], [b[k]] + b[k + 1..], isVertical, isAngled);
    CountConcat(b[..k], b[k + 1..], isVertical, isAngled);
    assert ([b[k]] + b[k + 1..])[1..] == b[k + 1..];
  }

  /** Matching the first curve of `a` with an equal curve of `b` leaves equal rests. */
  lemma RestsMatch(a: seq<Curve>, b: seq<Curve>, k: nat)
    requires multiset(a) == multiset(b) && a != [] && k < |b| && b[k] == a[0]
    ensures multiset(a[1..]) == multiset(RemoveAt(b, k))
  {
    assert a == [a[0]] + a[1..];
    assert multiset(a[1..]) == multiset(a) - multiset{a[0]};
  }

  /** Lists with the same curves, counted with multiplicity, have the same count. */
  lemma {:induction false} CountPermutation(a: seq<Curve>, b: seq<Curve>, isVertical: Test, isAngled: Test)
    requires multiset(a) == multiset(b)
    ensures CountDownward(a, isVertical, isAngled) == CountDownward(b, isVertical, isAngled)
  {
    if a == [] {
      assert |b| == |multiset(b)| == 0;
    } else {
      assert a[0] in multiset(b);
      var k :| 0 <= k < |b| && b[k] == a[0];
      RestsMatch(a, b, k);
      CountPermutation(a[1..], RemoveAt(b, k), isVertical, isAngled);
      CountRemove(b, k, isVertical, isAngled);
    }
  }

  /** Replacing the curve at `i` changes the count by what the two curves contribute. */
  lemma CountUpdate(cs: seq<Curve>, i: nat, c: Curve, isVertical: Test, isAngled: Test)
    requires i < |cs|
    ensures CountDownward(cs[i := c], isVertical, isAngled) + (if Downward(cs[i], isVertical, isAngled) then 1 else 0)
         == CountDownward(cs, isVertical, isAngled) + (if Downward(c, isVertical, isAngled) then 1 else 0)
  {
    assert cs == cs[..i] + ([cs[i]] + cs[i + 1..]);
    assert cs[i := c] == cs[..i] + ([c] + cs[i + 1..]);
    CountConcat(cs[..i], [cs[i]] + cs[i + 1..], isVertical, isAngled);
    CountConcat(cs[..i], [c] + cs[i + 1..], isVertical, isAngled);
    assert ([cs[i]] + cs[i + 1..])[1..] == cs[i + 1..];
    assert ([c] + cs[i + 1..])[1..] == cs[i + 1..];
  }

  /**
   * A bound on the iterations still to come at index `i`: two for every place
   * not yet passed, one for every downward vertical curve, and one more while
   * the curve at `i` is not vertical.
   */
  function Potential(cs: seq<Curve>, i: nat, isVertical: Test, isAngled: Test): nat
    requires i <= |cs|
  {
    2 * (|cs| - i) + CountDownward(cs, isVertical, isAngled) + (if i < |cs| && !isVertical(cs[i]) then 1 else 0)
  }

  /**
   * With the source's tests, every iteration lowers the potential: an advance
   * passes a place, a first stay puts a vertical curve at `i`, and a further
   * stay turns a downward vertical curve up.
   */
  lemma StepLowers(cs: seq<Curve>, i: nat, isVertical: Test, isAngled: Test)
    requires i < |cs| && SourceTests(isVertical, isAngled)
    ensures Step(cs, i, isVertical, isAngled).1 <= |cs|
    ensures Potential(Step(cs, i, isVertical, isAngled).0, Step(cs, i, isVertical, isAngled).1, isVertical, isAngled)
          < Potential(cs, i, isVertical, isAngled)
  {
    var v := VerticalStep(cs, i, isVertical, isAngled);
    var (s, stay) := AngledStep(v, i, isVertical, isAngled);
    CountPermutation(v, cs, isVertical, isAngled);
    if stay {
      var flipped := v[i := Reverse(v[i])];
      CountPermutation(s, flipped, isVertical, isAngled);
      CountUpdate(v, i, Reverse(v[i]), isVertical, isAngled);
      assert ReversalRespected(v[i], isVertical, isAngled);
      assert !Downward(Reverse(v[i]), isVertical, isAngled);
    } else {
      assert s == v;
    }
  }

  /** One iteration of the pass, with the fuel it leaves enough for what remains. */
  lemma NextPlace(cs: seq<Curve>, i: nat, fuel: nat, isVertical: Test, isAngled: Test) returns (s: seq<Curve>, next: nat)
    requires i < |cs| && SourceTests(isVertical, isAngled)
    requires fuel >= Potential(cs, i, isVertical, isAngled)
    ensures next <= |s| && fuel > 0 && fuel - 1 >= Potential(s, next, isVertical, isAngled)
    ensures ReorderFrom(cs, i, fuel, isVertical, isAngled).finished == ReorderFrom(s, next, fuel - 1, isVertical, isAngled).finished
  {
    StepLowers(cs, i, isVertical, isAngled);
    s, next := Step(cs, i, isVertical, isAngled).0, Step(cs, i, isVertical, isAngled).1;
  }

  /** With fuel at least the potential, the pass from `i` runs to its end. */
  lemma {:induction false} FinishesFrom(cs: seq<Curve>, i: nat, fuel: nat, isVertical: Test, isAngled: Test)
    requires i <= |cs| && SourceTests(isVertical, isAngled)
    requires fuel >= Potential(cs, i, isVertical, isAngled)
    ensures ReorderFrom(cs, i, fuel, isVertical, isAngled).finished
    decreases fuel
  {
    if i < |cs| {
      var s, next := NextPlace(cs, i, fuel, isVertical, isAngled);
      FinishesFrom(s, next, fuel - 1, isVertical, isAngled);
    } else {
      AtEnd(cs, fuel, isVertical, isAngled);
    }
  }

  /** At the end of the list the pass has finished, whatever fuel is left. */
  lemma AtEnd(cs: seq<Curve>, fuel: nat, isVertical: Test, isAngled: Test)
    ensures ReorderFrom(cs, |cs|, fuel, isVertical, isAngled).finished
  {
  }

  /**
   * With the source's own vertical and angled tests the pass ends: at most
   * three iterations per curve, so the loop of N_Bracing.cs:51-108 needs no
   * timeout.
   */
  lemma ReorderFinishes(cs: seq<Curve>, fuel: nat, isVertical: Test, isAngled: Test)
    requires SourceTests(isVertical, isAngled) && fuel >= 3 * |cs|
    ensures Reorder(cs, fuel, isVertical, isAngled).finished
  {
    if cs != [] {
      assert CountDownward(cs, isVertical, isAngled)
             == (if Downward(cs[0], isVertical, isAngled) then 1 else 0) + CountDownward(cs[1..], isVertical, isAngled);
    }
    FinishesFrom(cs, 0, fuel, isVertical, isAngled);
  }
}
