/** EuclidianDistance: score a trajectory by how close its last position is
    to the goal, with the distance clamped to [MinFitness, MaxFitness]. */
module EuclidianDistance {
  import opened Common
  import opened Geometry
  import opened FitnessStrategy

  /** The score of a final distance d to the goal. */
  function DistanceScore(d: real): (r: int)
    ensures 0 <= r <= MaxFitness - MinFitness
  {
    MaxFitness - Round(RealMin(RealMax(d, MinFitness as real), MaxFitness as real))
  }

  /** calculateFitness: the goal's distance to the path's last point, scored. */
  function CalculateFitness(maze: Maze, w: World, path: Path): (r: int)
    requires |path| > 0
    ensures 0 <= r <= 299
  {
    DistanceScore(w.distance(maze.goal, Last(path)))
  }

  /** Within one unit of the goal, even exactly on it, the score is 299, never 300. */
  lemma CloseScoresTwoNinetyNine(d: real)
    requires d <= 1.0
    ensures DistanceScore(d) == 299
  {
  }

  /** At distance 300 or beyond the score bottoms out at 0. */
  lemma FarScoresZero(d: real)
    requires d >= 300.0
    ensures DistanceScore(d) == 0
  {
  }

  /** Ending farther from the goal never scores more. */
  lemma ScoreNonIncreasing(d1: real, d2: real)
    requires d1 <= d2
    ensures DistanceScore(d1) >= DistanceScore(d2)
  {
    RoundMonotone(RealMin(RealMax(d1, 1.0), 300.0), RealMin(RealMax(d2, 1.0), 300.0));
  }

  /** Only the last position and the goal matter: not the rest of the path,
      not the start or the breadcrumbs. */
  lemma DependsOnlyOnLastAndGoal(m1: Maze, m2: Maze, w: World, p1: Path, p2: Path)
    requires |p1| > 0 && |p2| > 0
    requires m1.goal == m2.goal && Last(p1) == Last(p2)
    ensures CalculateFitness(m1, w, p1) == CalculateFitness(m2, w, p2)
  {
  }

  /** Two units short of the goal scores 298. */
  lemma TwoShortScoresTwoNinetyEight()
    ensures DistanceScore(2.0) == 298
  {
  }
}
