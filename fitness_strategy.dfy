/** FitnessStrategy: the family of scoring policies that turn a trajectory
    into an integer fitness. Each strategy is built with the maze it scores
    against; the maze is a value here, so no strategy can reassign or alter it. */
module FitnessStrategy {
  import opened Geometry

  const MinFitness: int := 1
  const MaxFitness: int := 300

  /** The strategies of the source. FastestEuclidianDistance is the one the
      domain builds for every name except "breadCrumbTrail"; its scoring code
      is not part of this model. */
  datatype Strategy =
    | EuclidianDistance(theMaze: Maze)
    | BreadCrumbTrail(theMaze: Maze)
    | FastestEuclidianDistance(theMaze: Maze)
  {
    /** getMaxFitnessValue: the same constant for every strategy and maze. */
    function GetMaxFitnessValue(): (r: int)
      ensures r == 300
    {
      MaxFitness
    }
  }

  lemma FitnessBoundsOrdered()
    ensures 1 == MinFitness < MaxFitness == 300
  {
  }
}
