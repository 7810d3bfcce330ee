/**
 * `LineProcessing` (GraphSorting002.cs): the two-decimal point tests and
 * `CombineCurves`, which first joins collinear chained segments (the merge
 * pass) and then deletes short segments that overlap longer ones (the
 * overlap pass).
 *
 * The floating-point geometry of the source is abstracted:
 *  - `VectorsEqual` (equal unit vectors to two decimals) is the parameter
 *    `sameDir`;
 *  - the overlap test "the points of B at 20% and 80% of its length have
 *    themselves as closest point on A" is the parameter `covers(A, B)`.
 * Lengths and distances are compared squared on the integer grid.
 */
module Combine {
  import opened Wrappers
  import opened Geometry
  import opened Sequences

  /** `VectorsEqual` after `Unitize`: the two segments point the same way. */
  type SameDirection = (Line, Line) -> bool

  /** `covers(a, b)`: the 20% and 80% points of `b` lie on `a`. */
  type Covers = (Line, Line) -> bool

  /** A join is allowed only when the merged segment is shorter than 80 units (squared hundredths). */
  const JoinBound: nat := 8000 * 8000

  /** The weight bonus of a merged segment whose second half is vertical (0.13). */
  const VerticalJoinBonus: int := 130

  /** The overlap pass deletes only segments shorter than 40 units (squared hundredths). */
  const ShortBound: nat := 4000 * 4000

  // ---------------------------------------------------------------------
  // Point tests
  // ---------------------------------------------------------------------

  /** `ChainLinkingPt`: A ends where B starts. */
  predicate ChainLinkingPt(a: Line, b: Line) {
    a.to == b.from
  }

  /** The counter of `HorizontalPtIntTest`: horizontal lines with `pt` at either end. */
  function HorizontalCount(pt: Point, lines: seq<Line>): (n: nat)
    ensures n <= |lines|
    ensures n == 0 <==> forall k :: 0 <= k < |lines| && Touches(lines[k], pt) ==> !IsHorizontal(lines[k])
  {
    if lines == [] then 0
    else
      var l := lines[|lines| - 1];
      var here :=
        if pt == l.from then (if IsHorizontal(l) then 1 else 0)
        else if pt == l.to then (if IsHorizontal(l) then 1 else 0)
        else 0;
      HorizontalCount(pt, lines[..|lines| - 1]) + here
  }

  /** `HorizontalPtIntTest`: no horizontal line starts or ends at `pt`. */
  function HorizontalPtIntTest(pt: Point, lines: seq<Line>): (free: bool)
    ensures free <==> forall l :: l in lines && Touches(l, pt) ==> !IsHorizontal(l)
  {
    HorizontalCount(pt, lines) == 0
  }

  // ---------------------------------------------------------------------
  // Merge pass
  // ---------------------------------------------------------------------

  /**
   * Whether `crvs[i]` (as A) and `crvs[j]` (as B) may be merged. The chain
   * link and the direction use the upward-turned segments; the horizontal
   * tests and the distance use the end points captured before turning.
   */
  predicate Joins(crvs: seq<Line>, i: nat, j: nat, sameDir: SameDirection)
    requires i < |crvs| && j < |crvs|
  {
    var a := crvs[i];
    var b := crvs[j];
    var ua := Upward(a);
    var ub := Upward(b);
    sameDir(ua, ub) && ChainLinkingPt(ua, ub)
    && HorizontalPtIntTest(a.to, crvs) && HorizontalPtIntTest(b.from, crvs)
    && SqDist(a.from, b.to) < JoinBound
  }

  /** What the merge pass did at one outer index: kept the line, or joined it with a partner. */
  datatype Record = Kept(i: nat) | Joined(i: nat, j: nat)

  function Indices(rec: Record): set<nat> {
    match rec
    case Kept(p) => {p}
    case Joined(p, q) => {p, q}
  }

  /** Every index some record of `recs` mentions. */
  function AllIndices(recs: seq<Record>): set<nat> {
    if recs == [] then {} else Indices(recs[0]) + AllIndices(recs[1..])
  }

  predicate Valid(crvs: seq<Line>, weights: seq<int>, sameDir: SameDirection, rec: Record) {
    match rec
    case Kept(p) => p < |crvs| && p < |weights|
    case Joined(p, q) =>
      p < |crvs| && q < |crvs| && p != q && p < |weights| && q < |weights|
      && Joins(crvs, p, q, sameDir)
  }

  /**
   * The inner loop of the merge pass: the first index from `j` on that is
   * neither `i` nor merged and joins `crvs[i]`. Reading `weights[q]` for an
   * examined `q` past the end of `weights` throws.
   */
  function FindPartner(crvs: seq<Line>, weights: seq<int>, sameDir: SameDirection,
                       merged: set<nat>, i: nat, j: nat): (r: Result<Option<nat>>)
    requires i < |crvs| && j <= |crvs|
    decreases |crvs| - j
    ensures r.Err? ==> |weights| < |crvs|
    ensures r.Ok? && r.value.Some? ==>
      var q := r.value.value;
      j <= q < |crvs| && q != i && q !in merged && q < |weights| && Joins(crvs, i, q, sameDir)
      && forall q' :: j <= q' < q && q' != i && q' !in merged ==> !Joins(crvs, i, q', sameDir)
    ensures r.Ok? && r.value.None? ==>
      forall q :: j <= q < |crvs| && q != i && q !in merged ==> !Joins(crvs, i, q, sameDir)
  {
    if j == |crvs| then Ok(None)
    else if i == j || j in merged then FindPartner(crvs, weights, sameDir, merged, i, j + 1)
    else if j >= |weights| then Err(IndexOutOfRange)
    else if Joins(crvs, i, j, sameDir) then Ok(Some(j))
    else FindPartner(crvs, weights, sameDir, merged, i, j + 1)
  }

  /** The indices a record adds to the merged set: both indices of a join, none for a kept line. */
  function Taken(rec: Record): set<nat> {
    if rec.Joined? then Indices(rec) else {}
  }

  /**
   * What the merge pass promises about the records it produces from index
   * `i` on, with `merged` the indices joined before: every record is valid
   * and avoids `merged`; the outer indices strictly increase from `i` (so
   * there are at most `|crvs| - i` records); the indices of a join never
   * appear in a later record; and every index from `i` on that was not
   * merged appears in some record.
   */
  predicate Sound(crvs: seq<Line>, weights: seq<int>, sameDir: SameDirection,
                  i: nat, merged: set<nat>, recs: seq<Record>) {
    i <= |crvs| && |recs| <= |crvs| - i
    && (forall k :: 0 <= k < |recs| ==>
          Valid(crvs, weights, sameDir, recs[k]) && i <= recs[k].i && Indices(recs[k]) !! merged)
    && (forall k, l :: 0 <= k < l < |recs| ==> recs[k].i < recs[l].i)
    && (forall k, l :: 0 <= k < l < |recs| && recs[k].Joined? ==> Indices(recs[k]) !! Indices(recs[l]))
    && (forall p :: i <= p < |crvs| && p !in merged ==> p in AllIndices(recs))
  }

  /** Skipping a merged index keeps the promise. */
  lemma SoundSkip(crvs: seq<Line>, weights: seq<int>, sameDir: SameDirection,
                  i: nat, merged: set<nat>, recs: seq<Record>)
    requires i < |crvs| && i in merged
    requires Sound(crvs, weights, sameDir, i + 1, merged, recs)
    ensures Sound(crvs, weights, sameDir, i, merged, recs)
  {
  }

  /** A valid record for index `i` in front of a sound rest is sound. */
  lemma SoundCons(crvs: seq<Line>, weights: seq<int>, sameDir: SameDirection,
                  i: nat, merged: set<nat>, rec: Record, rest: seq<Record>)
    requires i < |crvs| && rec.i == i
    requires Valid(crvs, weights, sameDir, rec) && Indices(rec) !! merged
    requires Sound(crvs, weights, sameDir, i + 1, merged + Taken(rec), rest)
    ensures Sound(crvs, weights, sameDir, i, merged, [rec] + rest)
  {
    var recs := [rec] + rest;
    assert recs[1..] == rest;
    forall p | i <= p < |crvs| && p !in merged
      ensures p in AllIndices(recs)
    {
      if p !in Indices(rec) {
        assert p in AllIndices(rest);
      }
    }
  }

  /**
   * The choice for a line that is not merged yet (GraphSorting002.cs:438-489):
   * the record for `i` keeps it exactly when no index, before or after it,
   * that is neither `i` nor merged joins it, and otherwise joins it with the
   * first such index.
   */
  ghost predicate GreedyHead(crvs: seq<Line>, sameDir: SameDirection, i: nat, merged: set<nat>, rec: Record)
    requires i < |crvs|
  {
    rec.i == i
    && match rec
       case Kept(_) => forall q :: 0 <= q < |crvs| && q != i && q !in merged ==> !Joins(crvs, i, q, sameDir)
       case Joined(_, q) =>
         q < |crvs| && q != i && q !in merged && Joins(crvs, i, q, sameDir)
         && forall q' :: 0 <= q' < q && q' != i && q' !in merged ==> !Joins(crvs, i, q', sameDir)
  }

  /**
   * The choices of the merge pass from index `i` on, with `merged` the indices
   * joined so far (GraphSorting002.cs:423-490): a merged index is skipped, and
   * any other index heads the next record, chosen by `GreedyHead`; both
   * indices of a join then count as merged.
   */
  ghost predicate Greedy(crvs: seq<Line>, sameDir: SameDirection, i: nat, merged: set<nat>, recs: seq<Record>)
    requires i <= |crvs|
    decreases |crvs| - i
  {
    if i == |crvs| then recs == []
    else if i in merged then Greedy(crvs, sameDir, i + 1, merged, recs)
    else
      recs != [] && GreedyHead(crvs, sameDir, i, merged, recs[0])
      && Greedy(crvs, sameDir, i + 1, merged + Taken(recs[0]), recs[1..])
  }

  /** The greedy rule leaves no choice: at most one list of records follows it. */
  lemma {:induction false} GreedyUnique(crvs: seq<Line>, sameDir: SameDirection, i: nat, merged: set<nat>,
                                        recs1: seq<Record>, recs2: seq<Record>)
    requires i <= |crvs|
    requires Greedy(crvs, sameDir, i, merged, recs1) && Greedy(crvs, sameDir, i, merged, recs2)
    ensures recs1 == recs2
    decreases |crvs| - i
  {
    if i < |crvs| && i in merged {
      GreedyUnique(crvs, sameDir, i + 1, merged, recs1, recs2);
    } else if i < |crvs| {
      SameHead(crvs, sameDir, i, merged, recs1[0], recs2[0]);
      GreedyUnique(crvs, sameDir, i + 1, merged + Taken(recs1[0]), recs1[1..], recs2[1..]);
      assert recs1 == [recs1[0]] + recs1[1..] && recs2 == [recs2[0]] + recs2[1..];
    }
  }

  /** Two records that both follow the greedy rule at index `i` are the same record. */
  lemma SameHead(crvs: seq<Line>, sameDir: SameDirection, i: nat, merged: set<nat>, r1: Record, r2: Record)
    requires i < |crvs|
    requires GreedyHead(crvs, sameDir, i, merged, r1) && GreedyHead(crvs, sameDir, i, merged, r2)
    ensures r1 == r2
  {
  }

  /**
   * The outer loop of the merge pass from index `i`, with `merged` the
   * indices already joined. Each index that is not yet merged yields one
   * record; a joined partner is never looked at again.
   */
  function MergePass(crvs: seq<Line>, weights: seq<int>, sameDir: SameDirection,
                     i: nat, merged: set<nat>): (r: Result<seq<Record>>)
    requires i <= |crvs|
    decreases |crvs| - i
    ensures r.Ok? ==> Sound(crvs, weights, sameDir, i, merged, r.value)
    ensures r.Ok? ==> Greedy(crvs, sameDir, i, merged, r.value)
  {
    if i == |crvs| then Ok([])
    else if i in merged then
      var r := MergePass(crvs, weights, sameDir, i + 1, merged);
      if r.Ok? then SoundSkip(crvs, weights, sameDir, i, merged, r.value); r else r
    else if i >= |weights| then Err(IndexOutOfRange)
    else match FindPartner(crvs, weights, sameDir, merged, i, 0)
      case Err(e) => Err(e)
      case Ok(None) =>
        (match MergePass(crvs, weights, sameDir, i + 1, merged)
         case Err(e) => Err(e)
         case Ok(rest) =>
           SoundCons(crvs, weights, sameDir, i, merged, Kept(i), rest);
           assert ([Kept(i)] + rest)[1..] == rest && merged + Taken(Kept(i)) == merged;
           Ok([Kept(i)] + rest))
      case Ok(Some(q)) =>
        (match MergePass(crvs, weights, sameDir, i + 1, merged + {i, q})
         case Err(e) => Err(e)
         case Ok(rest) =>
           SoundCons(crvs, weights, sameDir, i, merged, Joined(i, q), rest);
           assert ([Joined(i, q)] + rest)[1..] == rest;
           Ok([Joined(i, q)] + rest))
  }

  /**
   * The merge pass throws exactly when `weights` is shorter than `crvs`:
   * the last index is always read, either as A or as a partner.
   */
  lemma {:induction false} MergePassFails(crvs: seq<Line>, weights: seq<int>, sameDir: SameDirection,
                                          i: nat, merged: set<nat>)
    requires i <= |crvs|
    requires forall m :: m in merged ==> m < |weights|
    ensures MergePass(crvs, weights, sameDir, i, merged).Err? <==> i < |crvs| && |weights| < |crvs|
    decreases |crvs| - i
  {
    if i == |crvs| {
    } else if i in merged {
      MergePassSkips(crvs, weights, sameDir, i, merged);
      MergePassFails(crvs, weights, sameDir, i + 1, merged);
    } else if i < |weights| {
      var fp := FindPartner(crvs, weights, sameDir, merged, i, 0);
      if fp.Ok? {
        var merged' := if fp.value.Some? then merged + {i, fp.value.value} else merged;
        MergePassFollows(crvs, weights, sameDir, i, merged, fp.value);
        MergePassFails(crvs, weights, sameDir, i + 1, merged');
      } else {
        MergePassPartnerFails(crvs, weights, sameDir, i, merged);
      }
    } else {
      MergePassShort(crvs, weights, sameDir, i, merged);
    }
  }

  /** A merged index is skipped. */
  lemma MergePassSkips(crvs: seq<Line>, weights: seq<int>, sameDir: SameDirection, i: nat, merged: set<nat>)
    requires i < |crvs| && i in merged
    ensures MergePass(crvs, weights, sameDir, i, merged) == MergePass(crvs, weights, sameDir, i + 1, merged)
  {
  }

  /** Reading the weight of an unmerged index past the end of `weights` throws. */
  lemma MergePassShort(crvs: seq<Line>, weights: seq<int>, sameDir: SameDirection, i: nat, merged: set<nat>)
    requires i < |crvs| && i !in merged && i >= |weights|
    ensures MergePass(crvs, weights, sameDir, i, merged).Err?
  {
  }

  /** A throw in the search for a partner ends the pass. */
  lemma MergePassPartnerFails(crvs: seq<Line>, weights: seq<int>, sameDir: SameDirection, i: nat, merged: set<nat>)
    requires i < |crvs| && i !in merged && i < |weights|
    requires FindPartner(crvs, weights, sameDir, merged, i, 0).Err?
    ensures MergePass(crvs, weights, sameDir, i, merged).Err?
  {
  }

  /** When index `i` finds no partner or a partner without error, the pass fails exactly when its rest does. */
  lemma MergePassFollows(crvs: seq<Line>, weights: seq<int>, sameDir: SameDirection,
                         i: nat, merged: set<nat>, partner: Option<nat>)
    requires i < |crvs| && i < |weights| && i !in merged
    requires FindPartner(crvs, weights, sameDir, merged, i, 0) == Ok(partner)
    ensures var merged' := if partner.Some? then merged + {i, partner.value} else merged;
            MergePass(crvs, weights, sameDir, i, merged).Err? <==> MergePass(crvs, weights, sameDir, i + 1, merged').Err?
  {
  }

  /** The line and weight a record contributes to the merged lists. */
  function Emitted(crvs: seq<Line>, weights: seq<int>, sameDir: SameDirection, rec: Record): (e: (Line, int))
    requires Valid(crvs, weights, sameDir, rec)
    ensures rec.Kept? ==> (e.0 == crvs[rec.i] || e.0 == Flip(crvs[rec.i])) && e.0.from.z <= e.0.to.z
                          && e.1 == weights[rec.i]
    ensures rec.Joined? ==> e.0.from == crvs[rec.i].from && e.0.to == crvs[rec.j].to
                            && ShorterThan(e.0, JoinBound)
                            && e.1 - weights[rec.j] == (if IsVertical(crvs[rec.j]) then VerticalJoinBonus else 0)
  {
    match rec
    case Kept(p) => (Upward(crvs[p]), weights[p])
    case Joined(p, q) =>
      var b := crvs[q];
      (Line(crvs[p].from, b.to), if IsVertical(b) then weights[q] + VerticalJoinBonus else weights[q])
  }

  /** Two lists kept in lockstep: the segments and their weights. */
  datatype Lists = Lists(lines: seq<Line>, weights: seq<int>)

  /** `out` holds, entry by entry, the line and weight that the records contribute. */
  predicate Emits(crvs: seq<Line>, weights: seq<int>, sameDir: SameDirection, recs: seq<Record>, out: Lists) {
    (forall k :: 0 <= k < |recs| ==> Valid(crvs, weights, sameDir, recs[k]))
    && |out.lines| == |recs| && |out.weights| == |recs|
    && forall k :: 0 <= k < |recs| ==> Emitted(crvs, weights, sameDir, recs[k]) == (out.lines[k], out.weights[k])
  }

  /**
   * The merge pass of `CombineCurves`: throws exactly when `weights` is
   * shorter than `crvs`; otherwise one entry per record of the greedy pass
   * over all indices, in order.
   */
  function MergeCurves(crvs: seq<Line>, weights: seq<int>, sameDir: SameDirection): (r: Result<Lists>)
    ensures r.Err? <==> |weights| < |crvs|
    ensures r.Ok? ==> |r.value.lines| == |r.value.weights| <= |crvs|
    ensures r.Ok? ==> exists recs :: Sound(crvs, weights, sameDir, 0, {}, recs) && Greedy(crvs, sameDir, 0, {}, recs)
                                     && Emits(crvs, weights, sameDir, recs, r.value)
  {
    MergePassFails(crvs, weights, sameDir, 0, {});
    match MergePass(crvs, weights, sameDir, 0, {})
    case Err(e) => Err(e)
    case Ok(recs) =>
      var es := seq(|recs|, k requires 0 <= k < |recs| => Emitted(crvs, weights, sameDir, recs[k]));
      var out := Lists(seq(|es|, k requires 0 <= k < |es| => es[k].0), seq(|es|, k requires 0 <= k < |es| => es[k].1));
      assert Emits(crvs, weights, sameDir, recs, out);
      Ok(out)
  }

  // ---------------------------------------------------------------------
  // Overlap pass
  // ---------------------------------------------------------------------

  /** What one inner step of the overlap pass decides about A and B. */
  datatype Action = Keep | DropB | DropA

  /**
   * The decision of one inner step for A (`newLines[i]` as read at the top
   * of the outer loop) and B (`newLines[j]`). Equal segments and horizontal
   * B are skipped. The "same start and end point" branch after the
   * horizontal test cannot be reached on the grid: such a B is horizontal.
   */
  function Overlap(a: Line, b: Line, sameDir: SameDirection, covers: Covers): (act: Action)
    ensures act == DropB ==> a != b && !IsHorizontal(b) && covers(a, b) && ShorterThan(b, ShortBound)
    ensures act == DropA ==> a != b && !IsHorizontal(b) && ShorterThan(a, ShortBound)
    ensures a == b || IsHorizontal(b) ==> act == Keep
  {
    if a == b then Keep
    else if IsHorizontal(b) then Keep
    else if IsVertical(b) then
      if covers(a, b) then
        if ShorterThan(b, ShortBound) then DropB else Keep
      else if covers(b, a) then
        if ShorterThan(a, ShortBound) then DropA else Keep
      else Keep
    else if sameDir(a, b) && covers(a, b) then
      if ShorterThan(b, ShortBound) then DropB
      else if ShorterThan(a, ShortBound) then DropA
      else Keep
    else Keep
  }

  /**
   * A B whose start and end coincide, the "same start and end point" branch
   * of GraphSorting002.cs:533-539, is never acted on: the horizontal test
   * before it already skips it.
   */
  lemma DegenerateKept(a: Line, b: Line, sameDir: SameDirection, covers: Covers)
    requires b.from == b.to
    ensures Overlap(a, b, sameDir, covers) == Keep
  {
    DegenerateIsHorizontal(b);
  }

  /**
   * The inner loop of the overlap pass as written: `a` is the line read
   * before the loop and stays fixed while the lists shrink, `i` is not
   * adjusted after a deletion, and `j` advances after every step.
   * `RemoveAt(i)` past the end throws.
   */
  function OverlapScanAsWritten(lines: seq<Line>, weights: seq<int>, a: Line, i: nat, j: nat,
                                sameDir: SameDirection, covers: Covers): (r: Result<Lists>)
    requires |lines| == |weights|
    decreases |lines| - j
    ensures r.Ok? ==> |r.value.lines| == |r.value.weights| <= |lines|
    ensures r.Ok? ==> multiset(Zip(r.value.lines, r.value.weights)) <= multiset(Zip(lines, weights))
  {
    if j >= |lines| then Ok(Lists(lines, weights))
    else match Overlap(a, lines[j], sameDir, covers)
      case Keep => OverlapScanAsWritten(lines, weights, a, i, j + 1, sameDir, covers)
      case DropB =>
        ZipRemoveAt(lines, weights, j);
        OverlapScanAsWritten(RemoveAt(lines, j), RemoveAt(weights, j), a, i, j + 1, sameDir, covers)
      case DropA =>
        if i < |lines| then
          ZipRemoveAt(lines, weights, i);
          OverlapScanAsWritten(RemoveAt(lines, i), RemoveAt(weights, i), a, i, j + 1, sameDir, covers)
        else Err(IndexOutOfRange)
  }

  /** The three lists `CombineCurves` returns. */
  datatype Combined = Combined(lines: seq<Line>, weights: seq<int>, debug: seq<Line>)

  /** The outer loop of the overlap pass as written, from index `i`; `debug` collects every A. */
  function OverlapPassAsWritten(lines: seq<Line>, weights: seq<int>, i: nat, debug: seq<Line>,
                                sameDir: SameDirection, covers: Covers): (r: Result<Combined>)
    requires |lines| == |weights|
    decreases |lines| - i
    ensures r.Ok? ==> |r.value.lines| == |r.value.weights|
    ensures r.Ok? ==> multiset(Zip(r.value.lines, r.value.weights)) <= multiset(Zip(lines, weights))
    ensures r.Ok? ==> |r.value.debug| >= |debug| && r.value.debug[..|debug|] == debug
  {
    if i >= |lines| then Ok(Combined(lines, weights, debug))
    else match OverlapScanAsWritten(lines, weights, lines[i], i, 0, sameDir, covers)
      case Err(e) => Err(e)
      case Ok(next) =>
        var r := OverlapPassAsWritten(next.lines, next.weights, i + 1, debug + [lines[i]], sameDir, covers);
        assert r.Ok? ==> r.value.debug[..|debug|] == (debug + [lines[i]])[..|debug|];
        r
  }

  /** Every entry missing from `after` was in `before` and belongs to a segment shorter than 40. */
  predicate DropsOnlyShort(before: seq<(Line, int)>, after: seq<(Line, int)>) {
    multiset(after) <= multiset(before)
    && forall e :: e in multiset(before) - multiset(after) ==> ShorterThan(e.0, ShortBound)
  }

  /**
   * `kept` and `keptWeights` are still in lockstep, and compared with `lines`
   * and `weights` they lost only entries whose segment is shorter than 40.
   */
  predicate ShortDropped(lines: seq<Line>, weights: seq<int>, kept: seq<Line>, keptWeights: seq<int>) {
    |lines| == |weights| && |kept| == |keptWeights| && DropsOnlyShort(Zip(lines, weights), Zip(kept, keptWeights))
  }

  /** The entries still listed, together with the deleted ones, are the entries the pass started from. */
  predicate Accounts(orig: seq<(Line, int)>, lines: seq<Line>, weights: seq<int>, removed: seq<(Line, int)>) {
    |lines| == |weights| && multiset(Zip(lines, weights)) + multiset(removed) == multiset(orig)
  }

  predicate AllShort(removed: seq<(Line, int)>) {
    forall k :: 0 <= k < |removed| ==> ShorterThan(removed[k].0, ShortBound)
  }

  /** Deleting place `k` from both lists moves that entry to the deleted ones. */
  lemma DropEntry(orig: seq<(Line, int)>, lines: seq<Line>, weights: seq<int>, removed: seq<(Line, int)>, k: nat)
    requires Accounts(orig, lines, weights, removed) && k < |lines|
    ensures Accounts(orig, RemoveAt(lines, k), RemoveAt(weights, k), removed + [(lines[k], weights[k])])
  {
    ZipRemoveAt(lines, weights, k);
    assert multiset(removed + [(lines[k], weights[k])]) == multiset(removed) + multiset{(lines[k], weights[k])};
  }

  /** When every deleted entry is short, the lists lost only short segments. */
  lemma AccountsDropsOnlyShort(orig: seq<(Line, int)>, lines: seq<Line>, weights: seq<int>, removed: seq<(Line, int)>)
    requires Accounts(orig, lines, weights, removed) && AllShort(removed)
    ensures DropsOnlyShort(orig, Zip(lines, weights))
  {
    var d := multiset(orig) - multiset(Zip(lines, weights));
    assert d == multiset(removed);
    forall e | e in d
      ensures ShorterThan(e.0, ShortBound)
    {
      var k :| 0 <= k < |removed| && removed[k] == e;
    }
  }

  /** An entry still listed is a segment of the input. */
  lemma KeptFromInput(lines: seq<Line>, weights: seq<int>, kept: seq<Line>, keptWeights: seq<int>,
                      removed: seq<(Line, int)>, p: nat)
    requires |lines| == |weights| && Accounts(Zip(lines, weights), kept, keptWeights, removed) && p < |kept|
    ensures kept[p] in lines
  {
    var e := Zip(kept, keptWeights)[p];
    assert e in multiset(Zip(lines, weights));
    var k :| 0 <= k < |lines| && Zip(lines, weights)[k] == e;
  }

  /** No segment among the first `i` calls for a deletion against any segment of `lines`. */
  predicate Settled(lines: seq<Line>, i: nat, sameDir: SameDirection, covers: Covers) {
    forall p, q :: 0 <= p < i && p < |lines| && 0 <= q < |lines| ==> Overlap(lines[p], lines[q], sameDir, covers) == Keep
  }

  /** `a` calls for no deletion against the first `j` segments of `lines`. */
  predicate ClearUpTo(a: Line, lines: seq<Line>, j: nat, sameDir: SameDirection, covers: Covers) {
    forall q :: 0 <= q < j && q < |lines| ==> Overlap(a, lines[q], sameDir, covers) == Keep
  }

  /** Deleting one entry keeps the settled prefix settled; the prefix closes up over the gap. */
  lemma KeepAfterRemoval(lines: seq<Line>, k: nat, i: nat, sameDir: SameDirection, covers: Covers)
    requires k < |lines| && i <= |lines|
    requires Settled(lines, i, sameDir, covers)
    ensures Settled(RemoveAt(lines, k), if k < i then i - 1 else i, sameDir, covers)
  {
    var r := RemoveAt(lines, k);
    var i' := if k < i then i - 1 else i;
    forall p, q | 0 <= p < i' && 0 <= q < |r|
      ensures Overlap(r[p], r[q], sameDir, covers) == Keep
    {
      var p0 := if p < k then p else p + 1;
      var q0 := if q < k then q else q + 1;
      assert r[p] == lines[p0] && r[q] == lines[q0];
    }
  }

  /**
   * One outer step of the corrected overlap pass: scan every entry against
   * A = `kept[i0]`, re-reading the current list. After a deletion at `j`
   * the entry that moved into place `j` is examined next and `i` follows a
   * deletion before it; deleting A ends the scan. `next` is where the outer
   * loop goes on: past A when A survived (no entry then calls for a
   * deletion against it), at A's old place when A was deleted.
   */
  method ScanAgainst(orig: seq<(Line, int)>, kept0: seq<Line>, weights0: seq<int>, ghost removed0: seq<(Line, int)>,
                     i0: nat, sameDir: SameDirection, covers: Covers)
    returns (kept: seq<Line>, keptWeights: seq<int>, ghost removed: seq<(Line, int)>, next: nat)
    requires i0 < |kept0|
    requires Accounts(orig, kept0, weights0, removed0) && AllShort(removed0)
    requires Settled(kept0, i0, sameDir, covers)
    ensures next <= |kept| == |keptWeights|
    ensures Accounts(orig, kept, keptWeights, removed) && AllShort(removed)
    ensures Settled(kept, next, sameDir, covers)
    ensures |kept| - next < |kept0| - i0
  {
    kept, keptWeights, removed := kept0, weights0, removed0;
    var i: nat, droppedA := i0, false;
    var a := kept0[i0];
    var j := 0;
    while j < |kept| && !droppedA
      invariant j <= |kept| == |keptWeights| && i <= |kept|
      invariant !droppedA ==> i < |kept| && kept[i] == a
      invariant !droppedA ==> ClearUpTo(a, kept, j, sameDir, covers)
      invariant |kept| - i <= |kept0| - i0 && (droppedA ==> |kept| - i < |kept0| - i0)
      invariant Accounts(orig, kept, keptWeights, removed) && AllShort(removed)
      invariant Settled(kept, i, sameDir, covers)
      decreases |kept| - j
    {
      match Overlap(a, kept[j], sameDir, covers)
      case Keep =>
        j := j + 1;
      case DropB =>
        DropEntry(orig, kept, keptWeights, removed, j);
        KeepAfterRemoval(kept, j, i, sameDir, covers);
        removed := removed + [(kept[j], keptWeights[j])];
        kept, keptWeights := RemoveAt(kept, j), RemoveAt(keptWeights, j);
        if j < i {
          i := i - 1;
        }
      case DropA =>
        DropEntry(orig, kept, keptWeights, removed, i);
        KeepAfterRemoval(kept, i, i, sameDir, covers);
        removed := removed + [(kept[i], keptWeights[i])];
        kept, keptWeights := RemoveAt(kept, i), RemoveAt(keptWeights, i);
        droppedA := true;
    }
    if droppedA {
      next := i;
    } else {
      SettleNext(kept, i, sameDir, covers);
      next := i + 1;
    }
  }

  /** A segment that calls for no deletion against any segment joins the settled prefix. */
  lemma SettleNext(lines: seq<Line>, i: nat, sameDir: SameDirection, covers: Covers)
    requires i < |lines|
    requires Settled(lines, i, sameDir, covers) && ClearUpTo(lines[i], lines, |lines|, sameDir, covers)
    ensures Settled(lines, i + 1, sameDir, covers)
  {
  }

  /**
   * The overlap pass with its index bookkeeping corrected (see
   * `ScanAgainst`). Only segments shorter than 40 are deleted, weights go
   * with their segments, and when the pass ends no remaining pair calls
   * for a deletion.
   */
  method RemoveOverlaps(lines: seq<Line>, weights: seq<int>, sameDir: SameDirection, covers: Covers)
    returns (kept: seq<Line>, keptWeights: seq<int>, debug: seq<Line>)
    requires |lines| == |weights|
    ensures ShortDropped(lines, weights, kept, keptWeights)
    ensures forall p, q :: 0 <= p < |kept| && 0 <= q < |kept| ==> Overlap(kept[p], kept[q], sameDir, covers) == Keep
    ensures |debug| <= |lines|
    ensures forall d :: d in debug ==> d in lines
  {
    kept, keptWeights, debug := lines, weights, [];
    ghost var removed: seq<(Line, int)> := [];
    var i: nat := 0;
    while i < |kept|
      invariant i <= |kept| == |keptWeights|
      invariant Accounts(Zip(lines, weights), kept, keptWeights, removed) && AllShort(removed)
      invariant Settled(kept, i, sameDir, covers)
      invariant |debug| + |kept| - i <= |lines|
      invariant forall d :: d in debug ==> d in lines
      decreases |kept| - i
    {
      KeptFromInput(lines, weights, kept, keptWeights, removed, i);
      debug := debug + [kept[i]];
      kept, keptWeights, removed, i := ScanAgainst(Zip(lines, weights), kept, keptWeights, removed, i, sameDir, covers);
    }
    AccountsDropsOnlyShort(Zip(lines, weights), kept, keptWeights, removed);
    SettledAll(kept, sameDir, covers);
  }

  lemma SettledAll(lines: seq<Line>, sameDir: SameDirection, covers: Covers)
    requires Settled(lines, |lines|, sameDir, covers)
    ensures forall p, q :: 0 <= p < |lines| && 0 <= q < |lines| ==> Overlap(lines[p], lines[q], sameDir, covers) == Keep
  {
  }

  /**
   * `CombineCurves` with the corrected overlap pass: throws exactly when
   * `weights` is shorter than `crvs`; otherwise the result is the merged
   * lists less some segments shorter than 40, with no overlapping pair left.
   */
  method CombineCurves(crvs: seq<Line>, weights: seq<int>, sameDir: SameDirection, covers: Covers)
    returns (r: Result<Combined>)
    ensures r.Err? <==> |weights| < |crvs|
    ensures r.Ok? ==> MergeCurves(crvs, weights, sameDir).Ok?
    ensures r.Ok? ==>
      var m := MergeCurves(crvs, weights, sameDir).value;
      var c := r.value;
      |c.lines| == |c.weights|
      && DropsOnlyShort(Zip(m.lines, m.weights), Zip(c.lines, c.weights))
      && (forall p, q :: 0 <= p < |c.lines| && 0 <= q < |c.lines| ==> Overlap(c.lines[p], c.lines[q], sameDir, covers) == Keep)
      && (forall d :: d in c.debug ==> d in m.lines)
  {
    var m := MergeCurves(crvs, weights, sameDir);
    if m.Err? {
      return Err(m.error);
    }
    var lines, ws, debug := RemoveOverlaps(m.value.lines, m.value.weights, sameDir, covers);
    return Ok(Combined(lines, ws, debug));
  }

  /** `CombineCurves` exactly as written, stale indices included. */
  function CombineCurvesAsWritten(crvs: seq<Line>, weights: seq<int>, sameDir: SameDirection, covers: Covers)
    : (r: Result<Combined>)
    ensures |weights| < |crvs| ==> r.Err?
    ensures r.Ok? ==> MergeCurves(crvs, weights, sameDir).Ok?
    ensures r.Ok? ==>
      var m := MergeCurves(crvs, weights, sameDir).value;
      |r.value.lines| == |r.value.weights|
      && multiset(Zip(r.value.lines, r.value.weights)) <= multiset(Zip(m.lines, m.weights))
  {
    match MergeCurves(crvs, weights, sameDir)
    case Err(e) => Err(e)
    case Ok(m) => OverlapPassAsWritten(m.lines, m.weights, 0, [], sameDir, covers)
  }

  // ---------------------------------------------------------------------
  // The stale-index finding
  // ---------------------------------------------------------------------

  /**
   * A concrete overlap test for vertical segments on a common axis: the 20%
   * and 80% points of `b` lie within the z-range of `a` (in fifths of a
   * hundredth, so that no division is needed). Used only to exhibit the
   * finding below.
   */
  predicate AxisCovers(a: Line, b: Line) {
    var lo := if a.from.z <= a.to.z then a.from.z else a.to.z;
    var hi := if a.from.z <= a.to.z then a.to.z else a.from.z;
    IsVertical(a) && IsVertical(b) && a.from.x == b.from.x && a.from.y == b.from.y
    && 5 * lo <= 4 * b.from.z + b.to.z <= 5 * hi
    && 5 * lo <= b.from.z + 4 * b.to.z <= 5 * hi
  }

  function Vertical(z0: int, z1: int): Line {
    Line(Point(0, 0, z0), Point(0, 0, z1))
  }

  function NoDirection(a: Line, b: Line): bool {
    false
  }

  /** The decisions the overlap pass takes on the example. */
  lemma ExampleDecisions()
    ensures Overlap(Vertical(1000, 2000), Vertical(0, 5000), NoDirection, AxisCovers) == DropA
    ensures Overlap(Vertical(1000, 2000), Vertical(0, 6000), NoDirection, AxisCovers) == DropA
    ensures Overlap(Vertical(0, 6000), Line(Point(100, 0, 3000), Point(200, 0, 3000)), NoDirection, AxisCovers) == Keep
  {
    var x, a, z := Vertical(1000, 2000), Vertical(0, 5000), Vertical(0, 6000);
    assert ShorterThan(x, ShortBound) by {
      assert SqLength(x) == 1000 * 1000;
    }
    assert !AxisCovers(x, a) && AxisCovers(a, x);
    assert !AxisCovers(x, z) && AxisCovers(z, x);
  }

  /** One inner step of the pass as written that keeps both lines. */
  lemma ScanKeeps(lines: seq<Line>, weights: seq<int>, a: Line, i: nat, j: nat, sameDir: SameDirection, covers: Covers)
    requires |lines| == |weights| && j < |lines| && Overlap(a, lines[j], sameDir, covers) == Keep
    ensures OverlapScanAsWritten(lines, weights, a, i, j, sameDir, covers)
         == OverlapScanAsWritten(lines, weights, a, i, j + 1, sameDir, covers)
  {
  }

  /** One inner step of the pass as written that deletes "A", that is whatever now sits at index `i`. */
  lemma ScanDropsAtI(lines: seq<Line>, weights: seq<int>, a: Line, i: nat, j: nat, sameDir: SameDirection, covers: Covers)
    requires |lines| == |weights| && j < |lines| && i < |lines| && Overlap(a, lines[j], sameDir, covers) == DropA
    ensures OverlapScanAsWritten(lines, weights, a, i, j, sameDir, covers)
         == OverlapScanAsWritten(RemoveAt(lines, i), RemoveAt(weights, i), a, i, j + 1, sameDir, covers)
  {
  }

  /** The inner loop of the pass as written stops once `j` reaches the end of the list. */
  lemma ScanEnds(lines: seq<Line>, weights: seq<int>, a: Line, i: nat, j: nat, sameDir: SameDirection, covers: Covers)
    requires |lines| == |weights| && j >= |lines|
    ensures OverlapScanAsWritten(lines, weights, a, i, j, sameDir, covers) == Ok(Lists(lines, weights))
  {
  }

  /** Deleting the first entry leaves the tail. */
  lemma RemoveFirst<T>(s: seq<T>)
    requires |s| > 0
    ensures RemoveAt(s, 0) == s[1..]
  {
  }

  /** The first outer step on [x, a, y, z]: x deletes itself against a, and the stale index then deletes a. */
  lemma StaleFirstStep(x: Line, a: Line, y: Line, z: Line, ws: seq<int>, sameDir: SameDirection, covers: Covers)
    requires |ws| == 4
    requires Overlap(x, a, sameDir, covers) == DropA && Overlap(x, z, sameDir, covers) == DropA
    ensures OverlapScanAsWritten([x, a, y, z], ws, x, 0, 0, sameDir, covers) == Ok(Lists([y, z], ws[2..]))
  {
    var l0, l1, l2 := [x, a, y, z], [a, y, z], [y, z];
    RemoveFirst(l0);
    RemoveFirst(l1);
    RemoveFirst(ws);
    RemoveFirst(ws[1..]);
    ScanKeeps(l0, ws, x, 0, 0, sameDir, covers);
    ScanDropsAtI(l0, ws, x, 0, 1, sameDir, covers);
    ScanDropsAtI(l1, ws[1..], x, 0, 2, sameDir, covers);
    ScanEnds(l2, ws[1..][1..], x, 0, 3, sameDir, covers);
  }

  /** The second outer step on [y, z]: A = z calls for nothing. */
  lemma StaleSecondStep(y: Line, z: Line, ws: seq<int>, sameDir: SameDirection, covers: Covers)
    requires |ws| == 2 && Overlap(z, y, sameDir, covers) == Keep
    ensures OverlapScanAsWritten([y, z], ws, z, 1, 0, sameDir, covers) == Ok(Lists([y, z], ws))
  {
    assert Overlap(z, z, sameDir, covers) == Keep;
    assert OverlapScanAsWritten([y, z], ws, z, 1, 1, sameDir, covers) == Ok(Lists([y, z], ws));
  }

  /** One outer step of the pass as written: scan against `lines[i]`, record it, go on at `i + 1`. */
  lemma PassStep(lines: seq<Line>, weights: seq<int>, i: nat, debug: seq<Line>, next: Lists,
                 sameDir: SameDirection, covers: Covers)
    requires |lines| == |weights| && i < |lines|
    requires OverlapScanAsWritten(lines, weights, lines[i], i, 0, sameDir, covers) == Ok(next)
    ensures |next.lines| == |next.weights|
    ensures OverlapPassAsWritten(lines, weights, i, debug, sameDir, covers)
         == OverlapPassAsWritten(next.lines, next.weights, i + 1, debug + [lines[i]], sameDir, covers)
  {
  }

  /** The outer loop of the pass as written stops once `i` reaches the end of the list. */
  lemma PassEnds(lines: seq<Line>, weights: seq<int>, i: nat, debug: seq<Line>, sameDir: SameDirection, covers: Covers)
    requires |lines| == |weights| && i >= |lines|
    ensures OverlapPassAsWritten(lines, weights, i, debug, sameDir, covers) == Ok(Combined(lines, weights, debug))
  {
  }

  /** The first outer step on [x, a, y, z] leaves [y, z] and records x. */
  lemma StaleFirstPass(x: Line, a: Line, y: Line, z: Line, ws: seq<int>, sameDir: SameDirection, covers: Covers)
    requires |ws| == 4
    requires Overlap(x, a, sameDir, covers) == DropA && Overlap(x, z, sameDir, covers) == DropA
    ensures OverlapPassAsWritten([x, a, y, z], ws, 0, [], sameDir, covers)
         == OverlapPassAsWritten([y, z], ws[2..], 1, [x], sameDir, covers)
  {
    StaleFirstStep(x, a, y, z, ws, sameDir, covers);
    assert [x, a, y, z][0] == x && [] + [x] == [x];
    PassStep([x, a, y, z], ws, 0, [], Lists([y, z], ws[2..]), sameDir, covers);
  }

  /** The second outer step on [y, z] changes nothing, records z, and ends the pass. */
  lemma StaleSecondPass(x: Line, y: Line, z: Line, ws: seq<int>, sameDir: SameDirection, covers: Covers)
    requires |ws| == 2 && Overlap(z, y, sameDir, covers) == Keep
    ensures OverlapPassAsWritten([y, z], ws, 1, [x], sameDir, covers) == Ok(Combined([y, z], ws, [x, z]))
  {
    StaleSecondStep(y, z, ws, sameDir, covers);
    assert [y, z][1] == z && [x] + [z] == [x, z];
    PassStep([y, z], ws, 1, [x], Lists([y, z], ws), sameDir, covers);
    PassEnds([y, z], ws, 2, [x, z], sameDir, covers);
  }

  /**
   * The stale index in general: on four segments [x, a, y, z], when x is
   * deleted against a and against z, and z calls for nothing against y,
   * the pass as written deletes a as well, without testing a's length.
   */
  lemma StaleIndexDropsCovered(x: Line, a: Line, y: Line, z: Line, ws: seq<int>, sameDir: SameDirection, covers: Covers)
    requires |ws| == 4
    requires Overlap(x, a, sameDir, covers) == DropA && Overlap(x, z, sameDir, covers) == DropA
    requires Overlap(z, y, sameDir, covers) == Keep
    ensures OverlapPassAsWritten([x, a, y, z], ws, 0, [], sameDir, covers) == Ok(Combined([y, z], ws[2..], [x, z]))
  {
    StaleFirstPass(x, a, y, z, ws, sameDir, covers);
    StaleSecondPass(x, y, z, ws[2..], sameDir, covers);
  }

  /**
   * An instance: three upward vertical segments on one axis (z 10..20, 0..50
   * and 0..60) and a horizontal one between the second and the last. The
   * short segment deletes itself at j = 1 (the 50-unit one covers it); at
   * j = 2 the stale A is covered by the 60-unit segment, and "delete index
   * i" now removes the 50-unit segment, which is not short.
   */
  lemma StaleIndexDropsLongLine(x: Line, a: Line, y: Line, z: Line)
    requires x == Vertical(1000, 2000) && a == Vertical(0, 5000) && z == Vertical(0, 6000)
    requires y == Line(Point(100, 0, 3000), Point(200, 0, 3000))
    ensures var r := OverlapPassAsWritten([x, a, y, z], [1, 2, 3, 4], 0, [], NoDirection, AxisCovers);
            r.Ok? && !ShorterThan(a, ShortBound) && a !in r.value.lines
  {
    ExampleDecisions();
    StaleIndexDropsCovered(x, a, y, z, [1, 2, 3, 4], NoDirection, AxisCovers);
    assert SqLength(a) == 5000 * 5000;
    assert [1, 2, 3, 4][2..] == [3, 4];
    assert y.from.z == 3000;
  }
}
