/** Day 3, `day3.rs`: two wires on a grid, each a list of segments that move
    a position one cell at a time from the origin. Part 1 is the smallest
    Manhattan distance of a cell both wires visit; part 2 the smallest sum of
    the steps each wire takes to reach a shared cell.

    A panic of the source (`unwrap` on a failed parse or on an empty minimum,
    `unreachable!` on an unknown direction) is `None` here. Coordinates are
    `i64` and distances `u64`; neither is bounded here. */
module Wires {
  import opened Results
  import opened Text

  datatype Direction = Up | Down | Right | Left

  /** A grid cell; `Position::default()` is the origin. */
  datatype Position = Position(x: int, y: int)

  const Origin := Position(0, 0)

  datatype Segment = Segment(direction: Direction, distance: nat)

  datatype Wire = Wire(segments: seq<Segment>)

  // ---------------------------------------------------------------------------
  // Moves and distances
  // ---------------------------------------------------------------------------

  /** `move_in`: down and up change `x`, left and right change `y`. */
  function MoveIn(p: Position, d: Direction): Position
  {
    match d
    case Down => p.(x := p.x + 1)
    case Up => p.(x := p.x - 1)
    case Left => p.(y := p.y - 1)
    case Right => p.(y := p.y + 1)
  }

  function Opposite(d: Direction): Direction
  {
    match d
    case Down => Up
    case Up => Down
    case Left => Right
    case Right => Left
  }

  function Abs(v: int): nat
  {
    if v < 0 then -v else v
  }

  /** `manhatthan_distance`: the distance from the origin. */
  function Manhattan(p: Position): nat
  {
    Abs(p.x) + Abs(p.y)
  }

  /** `p` and `q` differ in exactly one coordinate, by exactly one. */
  predicate Adjacent(p: Position, q: Position)
  {
    || (q.x == p.x && Abs(q.y - p.y) == 1)
    || (q.y == p.y && Abs(q.x - p.x) == 1)
  }

  /** A move goes to a neighbouring cell. */
  lemma MoveInIsUnitStep(p: Position, d: Direction)
    ensures Adjacent(p, MoveIn(p, d))
  {
  }

  /** Moving back the opposite way undoes a move. */
  lemma MoveInOpposite(p: Position, d: Direction)
    ensures MoveIn(MoveIn(p, d), Opposite(d)) == p
    ensures MoveIn(p, d) != p
  {
  }

  /** The distance is zero exactly at the origin. */
  lemma ManhattanZero(p: Position)
    ensures Manhattan(p) == 0 <==> p == Origin
  {
  }

  /** One move changes the distance from the origin by exactly one. */
  lemma ManhattanOfMove(p: Position, d: Direction)
    ensures Manhattan(MoveIn(p, d)) == Manhattan(p) + 1 || Manhattan(MoveIn(p, d)) + 1 == Manhattan(p)
  {
  }

  // ---------------------------------------------------------------------------
  // Walking a wire
  // ---------------------------------------------------------------------------

  function Repeat(d: Direction, n: nat): (ds: seq<Direction>)
    ensures |ds| == n && forall i :: 0 <= i < n ==> ds[i] == d
  {
    seq(n, _ => d)
  }

  /** The `flat_map`: each segment's direction, as many times as its
      distance. */
  function Directions(segments: seq<Segment>): seq<Direction>
  {
    if segments == [] then []
    else
      var last := segments[|segments| - 1];
      Directions(segments[..|segments| - 1]) + Repeat(last.direction, last.distance)
  }

  function TotalDistance(segments: seq<Segment>): nat
  {
    if segments == [] then 0
    else TotalDistance(segments[..|segments| - 1]) + segments[|segments| - 1].distance
  }

  lemma {:induction false} DirectionsLength(segments: seq<Segment>)
    ensures |Directions(segments)| == TotalDistance(segments)
  {
    if segments != [] {
      DirectionsLength(segments[..|segments| - 1]);
    }
  }

  /** Where `dirs` lead from `start`. */
  function End(start: Position, dirs: seq<Direction>): Position
  {
    if dirs == [] then start else MoveIn(End(start, dirs[..|dirs| - 1]), dirs[|dirs| - 1])
  }

  /** The `scan`: the position after each move, the start excluded. */
  function Walk(start: Position, dirs: seq<Direction>): (ps: seq<Position>)
    ensures |ps| == |dirs|
  {
    if dirs == [] then []
    else
      var prefix := dirs[..|dirs| - 1];
      Walk(start, prefix) + [MoveIn(End(start, prefix), dirs[|dirs| - 1])]
  }

  /** `Wire::positions`. */
  function Positions(wire: Wire): seq<Position>
  {
    Walk(Origin, Directions(wire.segments))
  }

  /** The walk is a chain of moves: its first cell is one move from the start,
      each later one is one move from the one before, and the last is where
      the moves lead. */
  lemma {:induction false} WalkIsChain(start: Position, dirs: seq<Direction>)
    ensures var ps := Walk(start, dirs);
            && (|dirs| > 0 ==> ps[0] == MoveIn(start, dirs[0]) && ps[|ps| - 1] == End(start, dirs))
            && forall i :: 0 < i < |ps| ==> ps[i] == MoveIn(ps[i - 1], dirs[i])
  {
    if dirs != [] {
      var prefix := dirs[..|dirs| - 1];
      WalkIsChain(start, prefix);
      var ps := Walk(start, dirs);
      assert ps[..|prefix|] == Walk(start, prefix);
      if prefix != [] {
        assert prefix[0] == dirs[0];
      }
      forall i | 0 < i < |ps|
        ensures ps[i] == MoveIn(ps[i - 1], dirs[i])
      {
        if i < |prefix| {
          assert prefix[i] == dirs[i];
        }
      }
    }
  }

  /** Each cell of a walk is at most one further from the origin than the one
      before (than the start, for the first). */
  lemma WalkNeighbours(start: Position, dirs: seq<Direction>)
    ensures var ps := Walk(start, dirs);
            && (|ps| > 0 ==> Manhattan(ps[0]) <= Manhattan(start) + 1)
            && forall i :: 0 < i < |ps| ==> Manhattan(ps[i]) <= Manhattan(ps[i - 1]) + 1
  {
    WalkIsChain(start, dirs);
    var ps := Walk(start, dirs);
    if |ps| > 0 {
      ManhattanOfMove(start, dirs[0]);
    }
    forall i | 0 < i < |ps|
      ensures Manhattan(ps[i]) <= Manhattan(ps[i - 1]) + 1
    {
      ManhattanOfMove(ps[i - 1], dirs[i]);
    }
  }

  lemma {:induction false} WalkDistanceBound(start: Position, dirs: seq<Direction>, i: nat)
    requires i < |dirs|
    ensures Manhattan(Walk(start, dirs)[i]) <= Manhattan(start) + i + 1
  {
    WalkNeighbours(start, dirs);
    if i > 0 {
      WalkDistanceBound(start, dirs, i - 1);
    }
  }

  /** A wire visits one cell per unit of its total distance, and each cell is
      a neighbour of the one before (of the origin, for the first). */
  lemma PositionsShape(wire: Wire)
    ensures var ps := Positions(wire);
            && |ps| == TotalDistance(wire.segments)
            && (|ps| > 0 ==> Adjacent(Origin, ps[0]))
            && forall i :: 0 < i < |ps| ==> Adjacent(ps[i - 1], ps[i])
  {
    var dirs := Directions(wire.segments);
    DirectionsLength(wire.segments);
    WalkIsChain(Origin, dirs);
    var ps := Positions(wire);
    if |ps| > 0 {
      MoveInIsUnitStep(Origin, dirs[0]);
    }
    forall i | 0 < i < |ps|
      ensures Adjacent(ps[i - 1], ps[i])
    {
      MoveInIsUnitStep(ps[i - 1], dirs[i]);
    }
  }

  /** The cell reached after `i + 1` moves is at most `i + 1` away from the
      origin. */
  lemma PositionDistanceBound(wire: Wire, i: nat)
    requires i < |Positions(wire)|
    ensures Manhattan(Positions(wire)[i]) <= i + 1
  {
    WalkDistanceBound(Origin, Directions(wire.segments), i);
  }

  /** One more move appends the cell it reaches to the walk. */
  lemma WalkExtend(start: Position, dirs: seq<Direction>, d: Direction)
    ensures Walk(start, dirs + [d]) == Walk(start, dirs) + [MoveIn(End(start, dirs), d)]
    ensures End(start, dirs + [d]) == MoveIn(End(start, dirs), d)
  {
    assert (dirs + [d])[..|dirs|] == dirs;
  }

  /** One more repetition appends one more copy of the direction. */
  lemma RepeatStep(before: seq<Direction>, d: Direction, k: nat)
    ensures before + Repeat(d, k + 1) == (before + Repeat(d, k)) + [d]
  {
    assert Repeat(d, k + 1) == Repeat(d, k) + [d];
  }

  /** One more segment appends its repeated direction. */
  lemma DirectionsExtend(segments: seq<Segment>, s: nat)
    requires s < |segments|
    ensures Directions(segments[..s + 1])
         == Directions(segments[..s]) + Repeat(segments[s].direction, segments[s].distance)
  {
    assert segments[..s + 1][..s] == segments[..s];
  }

  /** `positions`, with the scan's `current_position` moved in place. */
  method WirePositions(wire: Wire) returns (positions: seq<Position>)
    ensures positions == Positions(wire)
  {
    var segments := wire.segments;
    var current := Origin;
    positions := [];
    for s := 0 to |segments|
      invariant positions == Walk(Origin, Directions(segments[..s]))
      invariant current == End(Origin, Directions(segments[..s]))
    {
      ghost var before := Directions(segments[..s]);
      var segment := segments[s];
      assert before + Repeat(segment.direction, 0) == before;
      for k := 0 to segment.distance
        invariant positions == Walk(Origin, before + Repeat(segment.direction, k))
        invariant current == End(Origin, before + Repeat(segment.direction, k))
      {
        ghost var dirs := before + Repeat(segment.direction, k);
        WalkExtend(Origin, dirs, segment.direction);
        current := MoveIn(current, segment.direction);
        positions := positions + [current];
        RepeatStep(before, segment.direction, k);
      }
      DirectionsExtend(segments, s);
    }
    assert segments[..|segments|] == segments;
  }

  // ---------------------------------------------------------------------------
  // The two answers
  // ---------------------------------------------------------------------------

  /** `min()` of a sequence: `None` when it is empty. */
  function Min(xs: seq<nat>): (m: Option<nat>)
    ensures m.Some? <==> |xs| > 0
    ensures m.Some? ==> m.value in xs && forall i :: 0 <= i < |xs| ==> m.value <= xs[i]
  {
    if xs == [] then None
    else
      match Min(xs[..|xs| - 1])
      case None => Some(xs[|xs| - 1])
      case Some(m) => Some(if xs[|xs| - 1] < m then xs[|xs| - 1] else m)
  }

  /** The `filter_map` of part 1: the distance of each cell of the second
      wire, in order, that is also on the first. */
  function SharedDistances(onFirst: set<Position>, second: seq<Position>): seq<nat>
  {
    if second == [] then []
    else
      var p := second[|second| - 1];
      SharedDistances(onFirst, second[..|second| - 1]) + (if p in onFirst then [Manhattan(p)] else [])
  }

  /** The `HashSet` of a wire's cells. */
  function Cells(positions: seq<Position>): (cells: set<Position>)
    ensures forall p :: p in cells <==> p in positions
  {
    set p | p in positions
  }

  /** `solve_part1`: `first()` and `last()` are the same wire when there is
      only one. */
  function SolvePart1(input: seq<Wire>): Option<nat>
  {
    if input == [] then None
    else
      var first := Positions(input[0]);
      var onFirst := Cells(first);
      Min(SharedDistances(onFirst, Positions(input[|input| - 1])))
  }

  /** The `collect` into a `HashMap` of part 2: each cell with the number of
      steps (from 1) to its last visit, since a later entry replaces an
      earlier one. */
  function StepsTo(positions: seq<Position>): map<Position, nat>
  {
    if positions == [] then map[]
    else StepsTo(positions[..|positions| - 1])[positions[|positions| - 1] := |positions|]
  }

  /** The `filter_map` of part 2: for each cell of the second wire, in order,
      that the first wire reaches, the first wire's steps plus the second's
      (from 1). */
  function StepSums(stepsOne: map<Position, nat>, second: seq<Position>): seq<nat>
  {
    if second == [] then []
    else
      var p := second[|second| - 1];
      StepSums(stepsOne, second[..|second| - 1]) + (if p in stepsOne then [stepsOne[p] + |second|] else [])
  }

  function SolvePart2(input: seq<Wire>): Option<nat>
  {
    if input == [] then None
    else Min(StepSums(StepsTo(Positions(input[0])), Positions(input[|input| - 1])))
  }

  /** A cell is in the map exactly when the wire visits it, and its entry
      counts the steps to its last visit. */
  lemma {:induction false} StepsToLastVisit(positions: seq<Position>, p: Position)
    ensures p in StepsTo(positions) <==> p in positions
    ensures p in positions ==>
              var n := StepsTo(positions)[p];
              && 1 <= n <= |positions| && positions[n - 1] == p
              && forall j :: n <= j < |positions| ==> positions[j] != p
  {
    if positions != [] {
      var prefix := positions[..|positions| - 1];
      StepsToLastVisit(prefix, p);
      assert positions == prefix + [positions[|positions| - 1]];
    }
  }

  /** The distances of part 1 are those of the second wire's cells on the
      first. */
  lemma {:induction false} SharedDistancesMembers(onFirst: set<Position>, second: seq<Position>, x: nat)
    ensures x in SharedDistances(onFirst, second) <==>
              exists i :: 0 <= i < |second| && second[i] in onFirst && x == Manhattan(second[i])
  {
    if second != [] {
      var prefix := second[..|second| - 1];
      SharedDistancesMembers(onFirst, prefix, x);
      if x in SharedDistances(onFirst, prefix) {
        var i :| 0 <= i < |prefix| && prefix[i] in onFirst && x == Manhattan(prefix[i]);
        assert second[i] == prefix[i];
      }
      if exists i :: 0 <= i < |second| && second[i] in onFirst && x == Manhattan(second[i]) {
        var i :| 0 <= i < |second| && second[i] in onFirst && x == Manhattan(second[i]);
        if i < |prefix| {
          assert prefix[i] == second[i];
        }
      }
    }
  }

  /** The sums of part 2 are those of the second wire's cells that the first
      reaches, with the second wire's steps counted from 1. */
  lemma {:induction false} StepSumsMembers(stepsOne: map<Position, nat>, second: seq<Position>, x: nat)
    ensures x in StepSums(stepsOne, second) <==>
              exists i :: 0 <= i < |second| && second[i] in stepsOne && x == stepsOne[second[i]] + i + 1
  {
    if second != [] {
      var prefix := second[..|second| - 1];
      StepSumsMembers(stepsOne, prefix, x);
      if x in StepSums(stepsOne, prefix) {
        var i :| 0 <= i < |prefix| && prefix[i] in stepsOne && x == stepsOne[prefix[i]] + i + 1;
        assert second[i] == prefix[i];
      }
      if exists i :: 0 <= i < |second| && second[i] in stepsOne && x == stepsOne[second[i]] + i + 1 {
        var i :| 0 <= i < |second| && second[i] in stepsOne && x == stepsOne[second[i]] + i + 1;
        if i < |prefix| {
          assert prefix[i] == second[i];
        }
      }
    }
  }

  /** Some cell of the second walk is on the first exactly when one is in
      the first's map of steps. */
  lemma CrossingsAgree(first: seq<Position>, second: seq<Position>)
    ensures |SharedDistances(Cells(first), second)| > 0 <==> |StepSums(StepsTo(first), second)| > 0
  {
    var onFirst := Cells(first);
    var stepsOne := StepsTo(first);
    var distances, sums := SharedDistances(onFirst, second), StepSums(stepsOne, second);
    if |distances| > 0 {
      SharedDistancesMembers(onFirst, second, distances[0]);
      var i :| 0 <= i < |second| && second[i] in onFirst && distances[0] == Manhattan(second[i]);
      StepsToLastVisit(first, second[i]);
      StepSumsMembers(stepsOne, second, stepsOne[second[i]] + i + 1);
    }
    if |sums| > 0 {
      StepSumsMembers(stepsOne, second, sums[0]);
      var i :| 0 <= i < |second| && second[i] in stepsOne && sums[0] == stepsOne[second[i]] + i + 1;
      StepsToLastVisit(first, second[i]);
      SharedDistancesMembers(onFirst, second, Manhattan(second[i]));
    }
  }

  /** For walks whose `j`-th cell is at most `j + 1` from the origin, every
      combined step count is at least twice the smallest crossing distance. */
  lemma SumsDominate(first: seq<Position>, second: seq<Position>)
    requires forall j :: 0 <= j < |first| ==> Manhattan(first[j]) <= j + 1
    requires forall j :: 0 <= j < |second| ==> Manhattan(second[j]) <= j + 1
    requires |SharedDistances(Cells(first), second)| > 0
    requires |StepSums(StepsTo(first), second)| > 0
    ensures Min(StepSums(StepsTo(first), second)).value >= 2 * Min(SharedDistances(Cells(first), second)).value
  {
    var onFirst := Cells(first);
    var stepsOne := StepsTo(first);
    var distances, sums := SharedDistances(onFirst, second), StepSums(stepsOne, second);
    var total := Min(sums).value;
    StepSumsMembers(stepsOne, second, total);
    var i :| 0 <= i < |second| && second[i] in stepsOne && total == stepsOne[second[i]] + i + 1;
    var p := second[i];
    StepsToLastVisit(first, p);
    SharedDistancesMembers(onFirst, second, Manhattan(p));
    var k :| 0 <= k < |distances| && distances[k] == Manhattan(p);
  }

  /** The cell reached after `j + 1` moves is at most `j + 1` away from the
      origin. */
  lemma PositionsNearOrigin(wire: Wire)
    ensures forall j :: 0 <= j < |Positions(wire)| ==> Manhattan(Positions(wire)[j]) <= j + 1
  {
    forall j | 0 <= j < |Positions(wire)|
      ensures Manhattan(Positions(wire)[j]) <= j + 1
    {
      PositionDistanceBound(wire, j);
    }
  }

  /** Both answers exist exactly when the wires cross, and the fewest combined
      steps to a crossing are at least twice the distance of the nearest
      crossing, since reaching a cell takes at least its distance in steps. */
  lemma AnswersAgree(input: seq<Wire>)
    ensures SolvePart1(input).Some? <==> SolvePart2(input).Some?
    ensures SolvePart2(input).Some? ==> SolvePart2(input).value >= 2 * SolvePart1(input).value
  {
    if input != [] {
      var first, second := Positions(input[0]), Positions(input[|input| - 1]);
      CrossingsAgree(first, second);
      if SolvePart2(input).Some? {
        PositionsNearOrigin(input[0]);
        PositionsNearOrigin(input[|input| - 1]);
        SumsDominate(first, second);
      }
    }
  }

  /** `d` is the least distance from the origin of a cell of `second` that
      lies on `first`. */
  predicate IsNearestCrossing(first: seq<Position>, second: seq<Position>, d: nat)
  {
    && (exists i :: 0 <= i < |second| && second[i] in first && Manhattan(second[i]) == d)
    && (forall i :: 0 <= i < |second| && second[i] in first ==> d <= Manhattan(second[i]))
  }

  /** Part 1's answer is the distance of the nearest crossing of the first
      and the last wire; there is none for an empty input. */
  lemma Part1Answer(input: seq<Wire>, d: nat)
    ensures input == [] ==> SolvePart1(input) == None
    ensures input != [] ==>
              (SolvePart1(input) == Some(d) <==> IsNearestCrossing(Positions(input[0]), Positions(input[|input| - 1]), d))
  {
    if input != [] {
      var first, second := Positions(input[0]), Positions(input[|input| - 1]);
      var distances := SharedDistances(Cells(first), second);
      forall i | 0 <= i < |second| && second[i] in first
        ensures Manhattan(second[i]) in distances
      {
        SharedDistancesMembers(Cells(first), second, Manhattan(second[i]));
      }
      if SolvePart1(input).Some? {
        var m := SolvePart1(input).value;
        SharedDistancesMembers(Cells(first), second, m);
        assert IsNearestCrossing(first, second, m) by {
          forall i | 0 <= i < |second| && second[i] in first
            ensures m <= Manhattan(second[i])
          {
            var k :| 0 <= k < |distances| && distances[k] == Manhattan(second[i]);
          }
        }
      }
      if IsNearestCrossing(first, second, d) {
        var i :| 0 <= i < |second| && second[i] in first && Manhattan(second[i]) == d;
        var k :| 0 <= k < |distances| && distances[k] == d;
        var m := SolvePart1(input).value;
        SharedDistancesMembers(Cells(first), second, m);
      }
    }
  }

  /** Visit `n` (counted from 1) is the last time `positions` reaches `p`. */
  predicate IsLastVisit(positions: seq<Position>, p: Position, n: nat)
  {
    1 <= n <= |positions| && positions[n - 1] == p && forall j :: n <= j < |positions| ==> positions[j] != p
  }

  lemma LastVisitUnique(positions: seq<Position>, p: Position, n: nat, n': nat)
    requires IsLastVisit(positions, p, n) && IsLastVisit(positions, p, n')
    ensures n == n'
  {
  }

  /** `t` is the fewest steps over the cells of `second` that `first` reaches:
      the steps along `second` to that visit plus the steps along `first` to
      its last visit of the cell, both counted from 1. */
  ghost predicate IsFewestSteps(first: seq<Position>, second: seq<Position>, t: nat)
  {
    && (exists i: int, n: nat :: 0 <= i < |second| && IsLastVisit(first, second[i], n) && t == n + i + 1)
    && (forall i: int, n: nat :: 0 <= i < |second| && IsLastVisit(first, second[i], n) ==> t <= n + i + 1)
  }

  /** Part 2's answer is the fewest combined steps to a crossing of the first
      and the last wire, where the first wire's steps are those of its last
      visit, as the `HashMap` keeps; there is none for an empty input. */
  lemma Part2Answer(input: seq<Wire>, t: nat)
    ensures input == [] ==> SolvePart2(input) == None
    ensures input != [] ==>
              (SolvePart2(input) == Some(t) <==> IsFewestSteps(Positions(input[0]), Positions(input[|input| - 1]), t))
  {
    if input != [] {
      var first, second := Positions(input[0]), Positions(input[|input| - 1]);
      var sums := StepSums(StepsTo(first), second);
      if Min(sums).Some? {
        FewestOfSums(first, second);
      }
      if IsFewestSteps(first, second, t) {
        SumsHoldFewest(first, second, t);
        FewestOfSums(first, second);
        FewestUnique(first, second, t, Min(sums).value);
      }
    }
  }

  /** A crossing visit's combined steps are among part 2's candidates. */
  lemma LastVisitSum(first: seq<Position>, second: seq<Position>, i: nat, n: nat)
    requires i < |second| && IsLastVisit(first, second[i], n)
    ensures n + i + 1 in StepSums(StepsTo(first), second)
  {
    var stepsOne := StepsTo(first);
    StepsToLastVisit(first, second[i]);
    LastVisitUnique(first, second[i], n, stepsOne[second[i]]);
    StepSumsMembers(stepsOne, second, n + i + 1);
  }

  /** The least candidate is the fewest combined steps. */
  lemma FewestOfSums(first: seq<Position>, second: seq<Position>)
    requires Min(StepSums(StepsTo(first), second)).Some?
    ensures IsFewestSteps(first, second, Min(StepSums(StepsTo(first), second)).value)
  {
    var stepsOne := StepsTo(first);
    var sums := StepSums(stepsOne, second);
    var m := Min(sums).value;
    StepSumsMembers(stepsOne, second, m);
    var i :| 0 <= i < |second| && second[i] in stepsOne && m == stepsOne[second[i]] + i + 1;
    StepsToLastVisit(first, second[i]);
    assert IsLastVisit(first, second[i], stepsOne[second[i]]);
    forall i': int, n: nat | 0 <= i' < |second| && IsLastVisit(first, second[i'], n)
      ensures m <= n + i' + 1
    {
      LastVisitSum(first, second, i', n);
      var k :| 0 <= k < |sums| && sums[k] == n + i' + 1;
    }
  }

  /** The fewest combined steps are a candidate. */
  lemma SumsHoldFewest(first: seq<Position>, second: seq<Position>, t: nat)
    requires IsFewestSteps(first, second, t)
    ensures t in StepSums(StepsTo(first), second)
  {
    var i: int, n: nat :| 0 <= i < |second| && IsLastVisit(first, second[i], n) && t == n + i + 1;
    LastVisitSum(first, second, i, n);
  }

  lemma FewestUnique(first: seq<Position>, second: seq<Position>, t: nat, t': nat)
    requires IsFewestSteps(first, second, t) && IsFewestSteps(first, second, t')
    ensures t == t'
  {
    var i: int, n: nat :| 0 <= i < |second| && IsLastVisit(first, second[i], n) && t == n + i + 1;
    var i': int, n': nat :| 0 <= i' < |second| && IsLastVisit(first, second[i'], n') && t' == n' + i' + 1;
    assert t' <= n + i + 1 && t <= n' + i' + 1;
  }

  // ---------------------------------------------------------------------------
  // Parsing
  // ---------------------------------------------------------------------------

  /** `Direction::from_str`: one of four letters, anything else unreachable. */
  function ParseDirection(s: string): Option<Direction>
  {
    if s == "U" then Some(Up)
    else if s == "D" then Some(Down)
    else if s == "R" then Some(Right)
    else if s == "L" then Some(Left)
    else None
  }

  /** `WireSegment::from_str`: the first character is the direction, the rest
      a `usize`; `split_at(1)` panics on an empty string. */
  function ParseSegment(s: string): Option<Segment>
  {
    if |s| < 1 then None
    else
      match (ParseDirection(s[..1]), ParseUsize(s[1..]))
      case (Some(direction), Some(distance)) => Some(Segment(direction, distance))
      case _ => None
  }

  function ParseSegmentEntry(piece: string): Option<Segment>
  {
    ParseSegment(Trim(piece))
  }

  /** `Wire::from_str`: comma-separated segments, each trimmed. */
  function ParseWire(s: string): Option<Wire>
  {
    match ParseEach(Split(s, ','), ParseSegmentEntry)
    case None => None
    case Some(segments) => Some(Wire(segments))
  }

  function ParseWireEntry(line: string): Option<Wire>
  {
    ParseWire(Trim(line))
  }

  /** `input_generator`: one wire per line feed-separated piece, trimmed. */
  function InputGenerator(text: string): Option<seq<Wire>>
  {
    ParseEach(Split(text, '\n'), ParseWireEntry)
  }

  function Letter(d: Direction): char
  {
    match d
    case Up => 'U'
    case Down => 'D'
    case Right => 'R'
    case Left => 'L'
  }

  /** A segment as the puzzle writes it, e.g. `R75`. */
  function ShowSegment(segment: Segment): string
  {
    [Letter(segment.direction)] + DecimalString(segment.distance)
  }

  function ShowSegments(segments: seq<Segment>): (texts: seq<string>)
    ensures |texts| == |segments|
    ensures forall i :: 0 <= i < |segments| ==> texts[i] == ShowSegment(segments[i])
  {
    seq(|segments|, i requires 0 <= i < |segments| => ShowSegment(segments[i]))
  }

  /** A wire as the puzzle writes it: its segments joined with commas. */
  function ShowWire(wire: Wire): string
    requires |wire.segments| >= 1
  {
    Join(ShowSegments(wire.segments), ',')
  }

  /** The two segments the parser test checks. */
  lemma ParseSegmentExamples()
    ensures ParseSegment("R75") == Some(Segment(Right, 75))
    ensures ParseSegment("U62") == Some(Segment(Up, 62))
    ensures ParseSegment("") == None
    ensures ParseSegment("X5") == None
  {
    assert "R75"[..1] == "R" && "R75"[1..] == "75" && "75"[..1] == "7";
    assert DigitsValue("75") == 75;
    assert "U62"[..1] == "U" && "U62"[1..] == "62" && "62"[..1] == "6";
    assert DigitsValue("62") == 62;
    assert "X5"[..1] == "X";
  }

  lemma ShowSegmentShape(segment: Segment)
    ensures var text := ShowSegment(segment);
            && |text| >= 2 && text[..1] == [Letter(segment.direction)] && text[1..] == DecimalString(segment.distance)
            && forall k :: 0 <= k < |text| ==> text[k] != ',' && text[k] != '\n' && !IsSpace(text[k]) && text[k] != '+'
  {
    var numeral := DecimalString(segment.distance);
    assert AllDigits(numeral);
  }

  /** A segment's text parses back to the segment. */
  lemma ParseShowSegment(segment: Segment)
    requires segment.distance < 0x1_0000_0000_0000_0000
    ensures ParseSegment(ShowSegment(segment)) == Some(segment)
  {
    var text := ShowSegment(segment);
    ShowSegmentShape(segment);
    ParseNatOfDecimalString(segment.distance);
  }

  /** A wire's text parses back to the wire. */
  lemma ParseShowWire(wire: Wire)
    requires |wire.segments| >= 1
    requires forall i :: 0 <= i < |wire.segments| ==> wire.segments[i].distance < 0x1_0000_0000_0000_0000
    ensures ParseWire(ShowWire(wire)) == Some(wire)
  {
    var texts := ShowSegments(wire.segments);
    forall i | 0 <= i < |texts|
      ensures ',' !in texts[i]
      ensures ParseSegmentEntry(texts[i]) == Some(wire.segments[i])
    {
      ShowSegmentShape(wire.segments[i]);
      TrimPadded("", texts[i]);
      assert "" + texts[i] == texts[i];
      ParseShowSegment(wire.segments[i]);
    }
    SplitJoin(texts, ',');
    assert ParseEach(texts, ParseSegmentEntry).value == wire.segments;
  }

  /** A wire's text starts with a direction letter, ends with a digit, and has
      no line feed in it. */
  lemma ShowWireShape(wire: Wire)
    requires |wire.segments| >= 1
    ensures var text := ShowWire(wire);
            text != [] && !IsSpace(text[0]) && !IsSpace(text[|text| - 1]) && '\n' !in text
  {
    var texts := ShowSegments(wire.segments);
    ShowSegmentShape(wire.segments[0]);
    ShowSegmentShape(wire.segments[|texts| - 1]);
    JoinEnds(texts, ',');
    if '\n' in ShowWire(wire) {
      JoinChars(texts, ',', '\n');
      var i :| 0 <= i < |texts| && '\n' in texts[i];
      ShowSegmentShape(wire.segments[i]);
    }
  }

  /** The lines of an input: each wire's text after its indentation. */
  function IndentedWires(indents: seq<string>, wires: seq<Wire>): (lines: seq<string>)
    requires |indents| == |wires|
    requires forall i :: 0 <= i < |wires| ==> |wires[i].segments| >= 1
    ensures |lines| == |wires|
    ensures forall i :: 0 <= i < |wires| ==> lines[i] == indents[i] + ShowWire(wires[i])
  {
    seq(|wires|, i requires 0 <= i < |wires| => indents[i] + ShowWire(wires[i]))
  }

  /** Wires written one per line, each line indented by white space other
      than line feeds (the second line of the puzzle's example is indented by
      four spaces), are read back by the generator. */
  lemma GeneratorReadsWires(indents: seq<string>, wires: seq<Wire>)
    requires |indents| == |wires| >= 1
    requires forall i :: 0 <= i < |wires| ==> |wires[i].segments| >= 1
    requires forall i, j :: 0 <= i < |wires| && 0 <= j < |wires[i].segments| ==>
               wires[i].segments[j].distance < 0x1_0000_0000_0000_0000
    requires forall i, k :: 0 <= i < |indents| && 0 <= k < |indents[i]| ==>
               IsSpace(indents[i][k]) && indents[i][k] != '\n'
    ensures InputGenerator(Join(IndentedWires(indents, wires), '\n')) == Some(wires)
  {
    var lines := IndentedWires(indents, wires);
    forall i | 0 <= i < |lines|
      ensures '\n' !in lines[i]
      ensures ParseWireEntry(lines[i]) == Some(wires[i])
    {
      var text := ShowWire(wires[i]);
      ShowWireShape(wires[i]);
      TrimPadded(indents[i], text);
      ParseShowWire(wires[i]);
      assert forall k :: 0 <= k < |lines[i]| ==> lines[i][k] == if k < |indents[i]| then indents[i][k] else text[k - |indents[i]|];
    }
    SplitJoin(lines, '\n');
    assert ParseEach(lines, ParseWireEntry).value == wires;
  }
}
