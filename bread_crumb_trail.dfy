/** BreadCrumbTrail: score a trajectory by how far along the maze's ordered
    breadcrumb waypoints it got, with a near-goal override and partial credit
    toward the first waypoint not reached. */
module BreadCrumbTrail {
  import opened Common
  import opened Geometry
  import opened FitnessStrategy

  /** Fitness added for each breadcrumb reached. */
  const CrumbReward: int := 30
  /** Within this distance of the goal the near-goal score overrides the walk. */
  const NearGoal: real := 5.0

  /** The score, or the NoSuchElementException that removeFirst throws when
      the maze has no breadcrumbs at all. */
  datatype Outcome = Fitness(value: int) | NoSuchElement

  /** The walk's local state: fitness so far, the last crumb reached (or the
      start), the crumb being aimed at, and the crumbs still queued after it. */
  datatype Walk = Walk(fitness: int, prev: Position, next: Position, crumbs: seq<Position>)

  /** One pass of the loop body for one path point: the cursor moves at most
      once, and only while crumbs remain queued after `next`. */
  function StepWalk(w: World, s: Walk, point: Position): Walk
  {
    if s.crumbs != [] && w.distance(s.next, point) < 2.0 * w.robotRadius
    then Walk(s.fitness + CrumbReward, s.next, s.crumbs[0], s.crumbs[1..])
    else s
  }

  /** The loop over the path, points in order. */
  function WalkPath(w: World, s: Walk, path: Path): Walk
    decreases |path|
  {
    if path == [] then s else WalkPath(w, StepWalk(w, s, path[0]), path[1..])
  }

  /** The state before the first point: prev is the maze start, next the first crumb. */
  function Start(maze: Maze): Walk
    requires |maze.breadCrumbs| > 0
  {
    Walk(0, maze.start, maze.breadCrumbs[0], maze.breadCrumbs[1..])
  }

  /** round(30 * max(1 - dist/len, 0)). When len is 0, Java's double division
      gives an infinite or NaN ratio; max(-Infinity, 0) is 0 and round(NaN) is
      0, so the term is 0 either way. */
  function PartialCredit(dist: real, len: real): (r: int)
    ensures dist >= 0.0 && len >= 0.0 ==> 0 <= r <= CrumbReward
  {
    if len == 0.0 then 0
    else
      var ratio := dist / len;
      assert dist >= 0.0 && len > 0.0 ==> ratio >= 0.0;
      Round(30.0 * RealMax(1.0 - ratio, 0.0))
  }

  /** calculateFitness, as a value. */
  function Score(maze: Maze, w: World, path: Path): Outcome
    requires |path| > 0
  {
    var d := w.distance(Last(path), maze.goal);
    if d <= NearGoal then Fitness(Round(MaxFitness as real - d))
    else if maze.breadCrumbs == [] then NoSuchElement
    else
      var end := WalkPath(w, Start(maze), path);
      Fitness(end.fitness + PartialCredit(w.distance(Last(path), end.next), w.distance(end.prev, end.next)))
  }

  /** calculateFitness: the single pass over the path, consuming a copy of the
      breadcrumb queue. */
  method CalculateFitness(maze: Maze, w: World, path: Path) returns (r: Outcome)
    requires |path| > 0
    ensures r == Score(maze, w, path)
  {
    var crumbs := maze.breadCrumbs;
    var euclidianDist := w.distance(Last(path), maze.goal);
    if euclidianDist <= NearGoal {
      return Fitness(Round(MaxFitness as real - euclidianDist));
    }
    if crumbs == [] {
      return NoSuchElement;
    }
    var fitness := 0;
    var prev := maze.start;
    var next := crumbs[0];
    crumbs := crumbs[1..];
    for i := 0 to |path|
      invariant WalkPath(w, Walk(fitness, prev, next, crumbs), path[i..]) == WalkPath(w, Start(maze), path)
    {
      var point := path[i];
      if crumbs != [] {
        if w.distance(next, point) < 2.0 * w.robotRadius {
          fitness := fitness + CrumbReward;
          prev := next;
          next := crumbs[0];
          crumbs := crumbs[1..];
        }
      }
    }
    var dist := w.distance(Last(path), next);
    var len := w.distance(prev, next);
    fitness := fitness + PartialCredit(dist, len);
    r := Fitness(fitness);
  }

  /** The walk's state once exactly the first k crumbs have been reached. */
  function Reached(maze: Maze, k: nat): Walk
    requires k < |maze.breadCrumbs|
  {
    Walk(CrumbReward * k,
         if k == 0 then maze.start else maze.breadCrumbs[k - 1],
         maze.breadCrumbs[k],
         maze.breadCrumbs[k + 1..])
  }

  /** Some point of the path comes strictly within two robot radii of the crumb. */
  ghost predicate ReachedBy(w: World, crumb: Position, path: Path)
  {
    exists i :: 0 <= i < |path| && w.distance(crumb, path[i]) < 2.0 * w.robotRadius
  }

  lemma ReachedByTail(w: World, crumb: Position, path: Path)
    requires |path| > 0 && ReachedBy(w, crumb, path[1..])
    ensures ReachedBy(w, crumb, path)
  {
    var i :| 0 <= i < |path[1..]| && w.distance(crumb, path[1..][i]) < 2.0 * w.robotRadius;
    assert path[1..][i] == path[i + 1];
  }

  /** Crumbs are consumed strictly in maze order, one per path point at most,
      never the last one, each only when some point came strictly within two
      robot radii of it. Starting from k crumbs reached, the walk ends with k'
      reached: fitness 30 * k', prev the k'-th crumb (or the start), next the
      crumb after it. */
  lemma {:induction false} WalkReachesInOrder(maze: Maze, w: World, k: nat, path: Path) returns (k': nat)
    requires k < |maze.breadCrumbs|
    ensures k <= k' < |maze.breadCrumbs|
    ensures k' - k <= |path|
    ensures WalkPath(w, Reached(maze, k), path) == Reached(maze, k')
    ensures forall j :: k <= j < k' ==> ReachedBy(w, maze.breadCrumbs[j], path)
    decreases |path|
  {
    var crumbs := maze.breadCrumbs;
    if path == [] {
      k' := k;
    } else {
      var s := StepWalk(w, Reached(maze, k), path[0]);
      if k + 1 < |crumbs| && w.distance(crumbs[k], path[0]) < 2.0 * w.robotRadius {
        assert crumbs[k + 1..][1..] == crumbs[k + 2..];
        assert s == Reached(maze, k + 1);
        k' := WalkReachesInOrder(maze, w, k + 1, path[1..]);
        forall j | k <= j < k'
          ensures ReachedBy(w, crumbs[j], path)
        {
          if j > k {
            ReachedByTail(w, crumbs[j], path);
          } else {
            assert w.distance(crumbs[j], path[0]) < 2.0 * w.robotRadius;
          }
        }
      } else {
        assert s == Reached(maze, k);
        k' := WalkReachesInOrder(maze, w, k, path[1..]);
        forall j | k <= j < k'
          ensures ReachedBy(w, crumbs[j], path)
        {
          ReachedByTail(w, crumbs[j], path);
        }
      }
    }
  }

  /** The reach test is strict: a crumb that no point comes closer to than
      two robot radii (equality included) stops the walk for good. */
  lemma {:induction false} UnreachedCrumbStopsWalk(maze: Maze, w: World, k: nat, path: Path)
    requires k < |maze.breadCrumbs|
    requires forall i :: 0 <= i < |path| ==> w.distance(maze.breadCrumbs[k], path[i]) >= 2.0 * w.robotRadius
    ensures WalkPath(w, Reached(maze, k), path) == Reached(maze, k)
    decreases |path|
  {
    if path != [] {
      assert StepWalk(w, Reached(maze, k), path[0]) == Reached(maze, k);
      UnreachedCrumbStopsWalk(maze, w, k, path[1..]);
    }
  }

  /** Near the goal the score is round(300 - d), in [295, 300], whatever the
      breadcrumbs are (even none). */
  lemma NearGoalOverride(maze: Maze, w: World, path: Path, crumbs: seq<Position>)
    requires |path| > 0 && NonNegativeDistances(w)
    requires w.distance(Last(path), maze.goal) <= NearGoal
    ensures Score(maze, w, path) == Fitness(Round(300.0 - w.distance(Last(path), maze.goal)))
    ensures 295 <= Score(maze, w, path).value <= 300
    ensures Score(maze.(breadCrumbs := crumbs), w, path) == Score(maze, w, path)
  {
    assert w.distance(Last(path), maze.goal) >= 0.0;
  }

  /** calculateFitness throws exactly when the maze has no breadcrumbs and the
      path ends farther than 5 from the goal. */
  lemma FailsOnlyWithoutCrumbs(maze: Maze, w: World, path: Path)
    requires |path| > 0
    ensures Score(maze, w, path).NoSuchElement? <==>
            (maze.breadCrumbs == [] && w.distance(Last(path), maze.goal) > NearGoal)
  {
  }

  /** Away from the goal the score is 30 per crumb reached, k of them with
      k < |breadcrumbs| and k <= |path|, plus a partial-credit term in [0, 30];
      nothing caps the sum at MaxFitness. */
  lemma ScoreIsCrumbsPlusPartial(maze: Maze, w: World, path: Path) returns (k: nat)
    requires |path| > 0 && NonNegativeDistances(w)
    requires |maze.breadCrumbs| > 0 && w.distance(Last(path), maze.goal) > NearGoal
    ensures Score(maze, w, path).Fitness?
    ensures k < |maze.breadCrumbs| && k <= |path|
    ensures CrumbReward * k <= Score(maze, w, path).value <= CrumbReward * k + CrumbReward
    ensures Score(maze, w, path).value <= CrumbReward * |maze.breadCrumbs|
  {
    assert Start(maze) == Reached(maze, 0);
    k := WalkReachesInOrder(maze, w, 0, path);
    var end := Reached(maze, k);
    assert w.distance(Last(path), end.next) >= 0.0 && w.distance(end.prev, end.next) >= 0.0;
  }
}
