/** The maze world as the evaluation engine sees it. The geometry itself
    (walls, the robot's kinematics, the Euclidean distance) lives outside the
    modelled core: positions are plain points, and the distance and the robot
    radius are supplied by a World value. */
module Geometry {

  datatype Position = Position(x: real, y: real)

  /** The trajectory of one simulated robot, one position per timestep. */
  type Path = seq<Position>

  /** A maze: start, goal and the ordered breadcrumb waypoints. */
  datatype Maze = Maze(start: Position, goal: Position, breadCrumbs: seq<Position>)

  /** The physics the core relies on without defining: Position.distance and Robot.RADIUS. */
  datatype World = World(distance: (Position, Position) -> real, robotRadius: real)

  /** Distances are never negative. */
  ghost predicate NonNegativeDistances(w: World)
  {
    forall p, q :: w.distance(p, q) >= 0.0
  }

  /** Path.getLast. */
  function Last(path: Path): Position
    requires |path| > 0
  {
    path[|path| - 1]
  }

  /** Math.round on a double: the nearest integer, halves rounded up. */
  function Round(x: real): (r: int)
    ensures x - 0.5 < r as real <= x + 0.5
  {
    (x + 0.5).Floor
  }

  lemma RoundMonotone(x: real, y: real)
    requires x <= y
    ensures Round(x) <= Round(y)
  {
  }
}
