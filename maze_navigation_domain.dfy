/** The maze-navigation evaluation domain: a memoised simulator of candidate
    controllers in a maze, the bounded working list and result caches of the
    generic evaluation orchestrator, the panel binding for user evaluation,
    the replay time cursor, and the fitness scoring of cached trajectories.

    The robot simulator is a deterministic oracle: `robotAt(c, maze, n)` is
    where candidate c's robot stands after n simulation steps. */
module MazeNavigationDomain {
  import opened Common
  import Text
  import opened Geometry
  import opened FitnessStrategy
  import opened EvaluationDomain
  import ED = EuclidianDistance
  import BCT = BreadCrumbTrail

  /** The defaults of the configuration keys. */
  const DefaultMazeType: string := "medium.map"
  const DefaultTimesteps: int := 1000
  const DefaultGoalThreshold: int := 5
  const DefaultFitnessApproach: string := "distance2goal"

  /** The configuration the domain is initialised with, and the collaborators
      it calls without defining: the two built-in maps, the physics, the robot
      simulator and the FastestEuclidianDistance score. */
  datatype Config = Config(
    mazeType: string,
    maxTimesteps: int,
    goalThreshold: int,
    fitnessApproach: string,
    mediumMap: Maze,
    hardMap: Maze,
    world: World,
    robotAt: (Candidate, Maze, nat) -> Position,
    fastestFitness: (Maze, Path) -> int)

  /** getMaze: "medium.map" and every unknown name give the medium map. */
  function GetMaze(mazeType: string, medium: Maze, hard: Maze): (m: Maze)
    ensures mazeType == "hard.map" ==> m == hard
    ensures mazeType != "hard.map" ==> m == medium
  {
    if mazeType == "medium.map" then medium
    else if mazeType == "hard.map" then hard
    else medium
  }

  /** getFitnessFunction: the breadcrumb strategy for "breadCrumbTrail" in any
      letter case, the fastest-distance strategy for every other name. */
  function GetFitnessFunction(approach: string, maze: Maze): (s: Strategy)
    ensures s.theMaze == maze
    ensures s.BreadCrumbTrail? <==> Text.EqualsIgnoreCase(approach, "breadCrumbTrail")
    ensures !s.BreadCrumbTrail? ==> s.FastestEuclidianDistance?
  {
    if Text.EqualsIgnoreCase(approach, "breadCrumbTrail") then BreadCrumbTrail(maze)
    else if Text.EqualsIgnoreCase(approach, "distance2goal") then FastestEuclidianDistance(maze)
    else FastestEuclidianDistance(maze)
  }

  /** The default approach names the fastest-distance strategy; the breadcrumb
      name is recognised whatever its letter case. */
  lemma ApproachNames(maze: Maze)
    ensures GetFitnessFunction(DefaultFitnessApproach, maze) == FastestEuclidianDistance(maze)
    ensures GetFitnessFunction("BREADCRUMBTRAIL", maze) == BreadCrumbTrail(maze)
    ensures GetFitnessFunction("breadCrumbTrail ", maze) == FastestEuclidianDistance(maze)
  {
    assert !Text.EqualsIgnoreCase(DefaultFitnessApproach, "breadCrumbTrail");
    assert Text.EqualsIgnoreCase("BREADCRUMBTRAIL", "breadCrumbTrail");
  }

  /** The dotless i matches the ASCII i, as String.equalsIgnoreCase has it. */
  lemma ApproachNameDotlessI(maze: Maze)
    ensures GetFitnessFunction("breadCrumbTra" + [Text.DotlessSmallI] + "l", maze) == BreadCrumbTrail(maze)
  {
    assert Text.EqualsIgnoreCase("breadCrumbTra" + [Text.DotlessSmallI] + "l", "breadCrumbTrail");
  }

  function ConfigMaze(cfg: Config): Maze
  {
    GetMaze(cfg.mazeType, cfg.mediumMap, cfg.hardMap)
  }

  function ConfigStrategy(cfg: Config): Strategy
  {
    GetFitnessFunction(cfg.fitnessApproach, ConfigMaze(cfg))
  }

  /** The built-in maps carry breadcrumbs, so the breadcrumb strategy can
      always start its walk. */
  predicate WellConfigured(cfg: Config)
  {
    ConfigStrategy(cfg).BreadCrumbTrail? ==> |ConfigMaze(cfg).breadCrumbs| > 0
  }

  /** What initialisation resolves once: the maze by name, the strategy by
      name, and the collaborators. */
  datatype Setup = Setup(
    maze: Maze,
    maxTimesteps: int,
    goalThreshold: int,
    world: World,
    robotAt: (Candidate, Maze, nat) -> Position,
    strategy: Strategy,
    fastestFitness: (Maze, Path) -> int)

  /** initialize: look up the maze, then the fitness function on that maze. */
  function Resolve(cfg: Config): (env: Setup)
    ensures WellConfigured(cfg) ==> WellFormed(env)
  {
    Setup(ConfigMaze(cfg), cfg.maxTimesteps, cfg.goalThreshold, cfg.world, cfg.robotAt,
          ConfigStrategy(cfg), cfg.fastestFitness)
  }

  /** The strategy scores against the resolved maze, and the breadcrumb
      strategy has breadcrumbs to walk. */
  predicate WellFormed(env: Setup)
  {
    && env.strategy.theMaze == env.maze
    && (env.strategy.BreadCrumbTrail? ==> |env.maze.breadCrumbs| > 0)
  }

  /** After n steps the robot is within the goal threshold. */
  predicate AtGoal(env: Setup, c: Candidate, n: nat)
  {
    env.world.distance(env.robotAt(c, env.maze, n), env.maze.goal) <= env.goalThreshold as real
  }

  /** How many steps the simulation loop takes when i have been taken and none
      of them ended within the threshold. */
  function StepsFrom(env: Setup, c: Candidate, i: nat): nat
    decreases env.maxTimesteps - i
  {
    if i >= env.maxTimesteps then i
    else if AtGoal(env, c, i + 1) then i + 1
    else StepsFrom(env, c, i + 1)
  }

  /** How many steps evaluate simulates candidate c for. */
  function StepsTaken(env: Setup, c: Candidate): nat
  {
    StepsFrom(env, c, 0)
  }

  /** The run ended by reaching the goal (rather than by running out of steps). */
  predicate SolvedBy(env: Setup, c: Candidate)
  {
    var n := StepsTaken(env, c);
    n >= 1 && AtGoal(env, c, n)
  }

  /** Some step within the budget ends within the goal threshold. */
  ghost predicate ReachesGoal(env: Setup, c: Candidate)
  {
    exists j: nat :: 1 <= j <= env.maxTimesteps && AtGoal(env, c, j)
  }

  /** The positions after 0, 1, ..., n steps. */
  function Trajectory(env: Setup, c: Candidate, n: nat): (p: Path)
    ensures |p| == n + 1
  {
    if n == 0 then [env.robotAt(c, env.maze, 0)]
    else Trajectory(env, c, n - 1) + [env.robotAt(c, env.maze, n)]
  }

  /** The path evaluate caches for candidate c. */
  function SimulatedPath(env: Setup, c: Candidate): Path
  {
    Trajectory(env, c, StepsTaken(env, c))
  }

  /** From i steps on, the loop takes at most maxTimesteps steps in all, never
      passes a step that ended within the threshold, and stops early only at
      such a step. */
  lemma {:induction false} StepsFromSpec(env: Setup, c: Candidate, i: nat)
    ensures var n := StepsFrom(env, c, i);
            i <= n <= Max(env.maxTimesteps, i) &&
            (forall j :: i < j < n ==> !AtGoal(env, c, j)) &&
            ((n > i && AtGoal(env, c, n)) || n == Max(env.maxTimesteps, i))
    decreases env.maxTimesteps - i
  {
    if i < env.maxTimesteps && !AtGoal(env, c, i + 1) {
      StepsFromSpec(env, c, i + 1);
    }
  }

  /** The simulation stops right after the first step that ends within the
      threshold, or after maxTimesteps steps when there is none; the solution
      flag is set exactly when some step within the budget reaches the goal. */
  lemma SimulationStopsAtFirstGoal(env: Setup, c: Candidate)
    ensures StepsTaken(env, c) <= Max(env.maxTimesteps, 0)
    ensures forall j :: 1 <= j < StepsTaken(env, c) ==> !AtGoal(env, c, j)
    ensures SolvedBy(env, c) <==> ReachesGoal(env, c)
    ensures !SolvedBy(env, c) ==> StepsTaken(env, c) == Max(env.maxTimesteps, 0)
    ensures |SimulatedPath(env, c)| == StepsTaken(env, c) + 1
  {
    StepsFromSpec(env, c, 0);
    var n := StepsTaken(env, c);
    if ReachesGoal(env, c) {
      var j: nat :| 1 <= j <= env.maxTimesteps && AtGoal(env, c, j);
      if n < env.maxTimesteps {
        assert AtGoal(env, c, n);
      } else {
        assert j == n;
      }
    }
  }

  /** The score the configured strategy gives a path. */
  function FitnessOf(env: Setup, path: Path): int
    requires WellFormed(env) && |path| > 0
  {
    match env.strategy
    case EuclidianDistance(m) => ED.CalculateFitness(m, env.world, path)
    case BreadCrumbTrail(m) =>
      BCT.FailsOnlyWithoutCrumbs(m, env.world, path);
      BCT.Score(m, env.world, path).value
    case FastestEuclidianDistance(m) => env.fastestFitness(m, path)
  }

  /** Under the breadcrumb strategy a score is never negative and never above
      the larger of 300 and 30 per breadcrumb. */
  lemma BreadCrumbFitnessBounds(env: Setup, path: Path)
    requires WellFormed(env) && |path| > 0 && NonNegativeDistances(env.world)
    requires env.strategy.BreadCrumbTrail?
    ensures 0 <= FitnessOf(env, path) <= Max(MaxFitness, BCT.CrumbReward * |env.maze.breadCrumbs|)
  {
    var m := env.maze;
    if env.world.distance(Last(path), m.goal) <= BCT.NearGoal {
      BCT.NearGoalOverride(m, env.world, path, m.breadCrumbs);
    } else {
      var k := BCT.ScoreIsCrumbsPlusPartial(m, env.world, path);
    }
  }

  /** The simulations map after the first n candidates are bound, in order,
      to the first n registered panels, starting from a cleared map: panel i
      shows the pinned result of candidate i, the last binding winning. */
  function Displayed(env: Setup, candidates: seq<Candidate>, panels: seq<Panel>, n: nat): map<Panel, Path>
    requires n <= |candidates| && n <= |panels|
  {
    if n == 0 then map[]
    else Displayed(env, candidates, panels, n - 1)[panels[n - 1] := SimulatedPath(env, candidates[n - 1])]
  }

  /** Its keys are exactly the first n panels. */
  lemma {:induction false} DisplayedKeys(env: Setup, candidates: seq<Candidate>, panels: seq<Panel>, n: nat)
    requires n <= |candidates| && n <= |panels|
    ensures Displayed(env, candidates, panels, n).Keys == Elems(panels[..n])
  {
    if n > 0 {
      DisplayedKeys(env, candidates, panels, n - 1);
      ElemsSnoc(panels, n - 1);
    }
  }

  /** Panel i shows candidate i's simulated path when no later candidate took
      the same panel. */
  lemma {:induction false} DisplayedAt(env: Setup, candidates: seq<Candidate>, panels: seq<Panel>, n: nat, i: nat)
    requires n <= |candidates| && n <= |panels|
    requires i < n && forall j :: i < j < n ==> panels[j] != panels[i]
    ensures panels[i] in Displayed(env, candidates, panels, n)
    ensures Displayed(env, candidates, panels, n)[panels[i]] == SimulatedPath(env, candidates[i])
  {
    if i < n - 1 {
      DisplayedAt(env, candidates, panels, n - 1, i);
    }
  }

  /** Every result in the map is its candidate's simulated path (the
      simulator is deterministic). */
  ghost predicate Simulated(env: Setup, results: map<Candidate, Path>)
  {
    forall c :: c in results ==> results[c] == SimulatedPath(env, c)
  }

  /** Every recorded endpoint is the end of its candidate's simulated path,
      and a recorded candidate is a solution exactly when its run reached the
      goal. */
  ghost predicate Recorded(env: Setup, points: map<Candidate, Position>, solutions: set<Candidate>)
  {
    && (forall c :: c in points ==> points[c] == Last(SimulatedPath(env, c)))
    && solutions <= points.Keys
    && (forall c :: c in points ==> (c in solutions <==> SolvedBy(env, c)))
  }

  /** Every fitness value belongs to a simulated candidate and is the
      strategy's score of its simulated path. */
  ghost predicate Scored(env: Setup, scores: map<Candidate, int>, simulated: set<Candidate>)
  {
    && WellFormed(env)
    && forall c :: c in scores ==> c in simulated && scores[c] == FitnessOf(env, SimulatedPath(env, c))
  }

  /** The domain's invariant over its state: the strategy is the resolved
      one, the working list is bounded, every cached or pinned result is the
      candidate's simulated path, every simulated candidate has its endpoint
      and solution flag recorded, and fitness values are the strategy's
      scores. */
  ghost predicate Consistent(env: Setup, strategy: Strategy, subjects: seq<Candidate>,
                             population: map<Candidate, Path>, pinned: map<Candidate, Path>,
                             points: map<Candidate, Position>, solutions: set<Candidate>,
                             scores: map<Candidate, int>)
  {
    && WellFormed(env)
    && strategy == env.strategy
    && |subjects| <= MaxSubjects
    && Simulated(env, population)
    && Simulated(env, pinned)
    && population.Keys <= points.Keys
    && pinned.Keys <= points.Keys
    && Recorded(env, points, solutions)
    && Scored(env, scores, points.Keys)
  }

  /** The run counter went up by one for each candidate in `added` and
      stayed for every other. */
  ghost predicate RanOnce(runs: map<Candidate, nat>, runs0: map<Candidate, nat>, added: set<Candidate>)
  {
    forall c :: RunsIn(runs, c) == RunsIn(runs0, c) + (if c in added then 1 else 0)
  }

  /** How often a candidate has been simulated, by a run counter. */
  function RunsIn(runs: map<Candidate, nat>, c: Candidate): nat
  {
    if c in runs then runs[c] else 0
  }

  lemma PrefixSnoc<T>(s: seq<T>, i: nat)
    requires i < |s|
    ensures s[..i + 1] == s[..i] + [s[i]]
  {
  }

  /** gotoSimulationTimestep's clamp of a requested time step. */
  function ClampTimestep(t: int, maxTimesteps: int): (r: int)
    ensures maxTimesteps >= 0 ==> 0 <= r <= maxTimesteps
    ensures 0 <= t <= maxTimesteps ==> r == t
    ensures t < 0 ==> r == 0
    ensures t > maxTimesteps ==> r == Max(maxTimesteps, 0)
  {
    Max(Min(t, maxTimesteps), 0)
  }

  class MazeNavigationDomain {
    const config: Config
    /** The maze, strategy and collaborators resolved from config. */
    const env: Setup
    /** The strategy chosen by name at initialisation. */
    const fitnessFunction: Strategy

    var allUserEvaluatedSubjects: map<Candidate, Path>
    var evaluationPanels: map<Candidate, Panel>
    var simulations: map<Panel, Path>
    var population: map<Candidate, Path>
    var subjects: seq<Candidate>
    var timeStep: int
    var panels: seq<Panel>
    var allPoints: map<Candidate, Position>
    /** The candidates' own fitness values and solution flags. */
    var fitnessValues: map<Candidate, int>
    var solutions: set<Candidate>
    /** The populations handed to the novelty metric, in call order. */
    var noveltyScored: seq<map<Candidate, Path>>
    /** How many times each candidate has been simulated. */
    ghost var runs: map<Candidate, nat>

    /** Every cached, pinned or displayed result is the candidate's simulated
        path (the simulator is deterministic); every simulated candidate has
        its endpoint recorded and its solution flag set exactly when its run
        reached the goal; fitness values are the strategy's scores. */
    ghost predicate Valid()
      reads this`subjects, this`population, this`allUserEvaluatedSubjects, this`allPoints,
            this`solutions, this`fitnessValues
    {
      Consistent(env, fitnessFunction, subjects, population, allUserEvaluatedSubjects, allPoints, solutions, fitnessValues)
    }

    /** A freshly initialised domain: every list and map empty, the cursor at 0. */
    constructor (config: Config)
      requires WellConfigured(config)
      ensures Valid()
      ensures this.config == config && env == Resolve(config)
      ensures fitnessFunction == GetFitnessFunction(config.fitnessApproach, ConfigMaze(config))
      ensures allUserEvaluatedSubjects == map[] && evaluationPanels == map[] && simulations == map[]
      ensures population == map[] && subjects == [] && timeStep == 0 && panels == []
      ensures allPoints == map[] && fitnessValues == map[] && solutions == {}
      ensures noveltyScored == [] && runs == map[]
    {
      this.config := config;
      env := Resolve(config);
      fitnessFunction := GetFitnessFunction(config.fitnessApproach, ConfigMaze(config));
      allUserEvaluatedSubjects := map[];
      evaluationPanels := map[];
      simulations := map[];
      population := map[];
      subjects := [];
      timeStep := 0;
      panels := [];
      allPoints := map[];
      fitnessValues := map[];
      solutions := {};
      noveltyScored := [];
      runs := map[];
    }

    /** Drop candidates from the front until at most MaxSubjects remain. */
    method TrimSubjects()
      modifies this`subjects
      ensures subjects == KeepNewest(old(subjects), MaxSubjects)
    {
      while |subjects| > MaxSubjects
        invariant |subjects| >= Min(|old(subjects)|, MaxSubjects)
        invariant subjects == old(subjects)[|old(subjects)| - |subjects|..]
        decreases |subjects|
      {
        subjects := subjects[1..];
      }
    }

    /** Append to the working list, then trim it to its newest MaxSubjects. */
    method AppendSubjects(candidates: seq<Candidate>)
      modifies this`subjects
      ensures subjects == KeepNewest(old(subjects) + candidates, MaxSubjects)
    {
      subjects := subjects + candidates;
      TrimSubjects();
    }

    /** population.keySet().retainAll(subjects): forget the cached results of
        candidates no longer in the working list. */
    method RetainSubjects()
      requires Valid()
      modifies this`population
      ensures Valid()
      ensures population.Keys == old(population).Keys * Elems(subjects)
      ensures forall c :: c in population ==> population[c] == old(population[c])
    {
      population := map c | c in population && c in subjects :: population[c];
      ElemsMembers(subjects);
    }

    /** The effect of evaluating, one after the other, the candidates in
        `seen`, from a cache holding `cached0` and points recorded for
        `points0`: exactly those candidates were added to both, and each was
        simulated once if it was not cached. */
    ghost predicate EvaluatedFrom(seen: set<Candidate>, cached0: set<Candidate>, points0: set<Candidate>,
                                  runs0: map<Candidate, nat>)
      reads this`population, this`allPoints, this`runs
    {
      && population.Keys == cached0 + seen
      && allPoints.Keys == points0 + seen
      && RanOnce(runs, runs0, seen - cached0)
    }

    /** setCandidates: append to the working list and trim it, forget cached
        results of candidates that fell out of it, then evaluate every given
        candidate that is not cached. A candidate is simulated exactly when it
        is given and its cached result did not survive, and only once however
        often it is given; the surviving cached results are kept as they were. */
    method SetCandidates(candidates: seq<Candidate>)
      requires Valid()
      modifies this`subjects, this`population, this`allPoints, this`solutions, this`runs
      ensures Valid()
      ensures subjects == KeepNewest(old(subjects) + candidates, MaxSubjects)
      ensures EvaluatedFrom(Elems(candidates), old(population).Keys * Elems(subjects),
                            old(allPoints).Keys, old(runs))
      ensures forall c :: c in old(population) && c in subjects ==> c in population && population[c] == old(population[c])
    {
      AppendSubjects(candidates);
      RetainSubjects();
      ghost var cached0 := population.Keys;
      for i := 0 to |candidates|
        modifies this`population, this`allPoints, this`solutions, this`runs
        invariant Valid()
        invariant EvaluatedFrom(Elems(candidates[..i]), cached0, old(allPoints).Keys, old(runs))
      {
        EvaluateNext(candidates, i, cached0, old(allPoints).Keys, old(runs));
      }
      ElemsAll(candidates);
      ElemsMembers(subjects);
    }

    /** One pass of setCandidates' loop: evaluate candidate i unless it is cached. */
    method EvaluateNext(candidates: seq<Candidate>, i: nat, ghost cached0: set<Candidate>,
                        ghost points0: set<Candidate>, ghost runs0: map<Candidate, nat>)
      requires Valid() && i < |candidates|
      requires EvaluatedFrom(Elems(candidates[..i]), cached0, points0, runs0)
      modifies this`population, this`allPoints, this`solutions, this`runs
      ensures Valid()
      ensures EvaluatedFrom(Elems(candidates[..i + 1]), cached0, points0, runs0)
    {
      var subject := candidates[i];
      if subject in population {
        // already cached
      } else {
        Evaluate(subject);
      }
      ElemsSnoc(candidates, i);
    }

    /** The pinning step of setUserEvaluatedCandidates for one candidate: a
        candidate never pinned is evaluated and its result pinned; the pinned
        result is then put back into the cache and returned. */
    method Pin(subject: Candidate) returns (result: Path)
      requires Valid()
      modifies this`population, this`allUserEvaluatedSubjects, this`allPoints, this`solutions, this`runs
      ensures Valid()
      ensures result == SimulatedPath(env, subject)
      ensures allUserEvaluatedSubjects.Keys == old(allUserEvaluatedSubjects).Keys + {subject}
      ensures population.Keys == old(population).Keys + {subject}
      ensures allPoints.Keys == old(allPoints).Keys + {subject}
      ensures RanOnce(runs, old(runs), {subject} - old(allUserEvaluatedSubjects).Keys - old(population).Keys)
    {
      if subject !in allUserEvaluatedSubjects {
        Evaluate(subject);
        allUserEvaluatedSubjects := allUserEvaluatedSubjects[subject := population[subject]];
      }
      result := allUserEvaluatedSubjects[subject];
      population := population[subject := result];
    }

    /** The effect of pinning, one after the other, the candidates in `seen`,
        from `pinned0` pinned, `cached0` cached and points recorded for
        `points0`: exactly those candidates were added to all three, and each
        was simulated once if it was neither pinned nor cached. */
    ghost predicate PinnedFrom(seen: set<Candidate>, pinned0: set<Candidate>, cached0: set<Candidate>,
                               points0: set<Candidate>, runs0: map<Candidate, nat>)
      reads this`allUserEvaluatedSubjects, this`population, this`allPoints, this`runs
    {
      && allUserEvaluatedSubjects.Keys == pinned0 + seen
      && population.Keys == cached0 + seen
      && allPoints.Keys == points0 + seen
      && RanOnce(runs, runs0, seen - pinned0 - cached0)
    }

    /** Where setUserEvaluatedCandidates' loop stands once the first i
        candidates are done: the domain invariant holds, candidate j is bound
        to panel j and panel j shows its result, and the pinning so far is
        recorded. */
    ghost predicate PinnedPrefix(candidates: seq<Candidate>, i: nat, panels0: map<Candidate, Panel>,
                                 pinned0: set<Candidate>, cached0: set<Candidate>,
                                 points0: set<Candidate>, runs0: map<Candidate, nat>)
      reads this`subjects, this`population, this`allUserEvaluatedSubjects, this`allPoints,
            this`solutions, this`fitnessValues, this`evaluationPanels, this`simulations, this`panels, this`runs
    {
      && Valid()
      && i <= |candidates| && i <= |panels|
      && evaluationPanels == BindPanels(panels0, candidates, panels, i)
      && simulations == Displayed(env, candidates, panels, i)
      && PinnedFrom(Elems(candidates[..i]), pinned0, cached0, points0, runs0)
    }

    /** setUserEvaluatedCandidates: move the given candidates to the newest end
        of the working list, bind them in order to the registered panels, pin
        each bound candidate's result (simulating it only if it was neither
        pinned nor cached), show the results on the panels, and rewind the
        cursor. Pinned results are never dropped or replaced. */
    method SetUserEvaluatedCandidates(candidates: seq<Candidate>)
      requires Valid()
      modifies this`subjects, this`population, this`simulations, this`evaluationPanels,
               this`allUserEvaluatedSubjects, this`timeStep, this`allPoints, this`solutions, this`runs
      ensures subjects == KeepNewest(Refreshed(old(subjects), candidates), MaxSubjects)
      ensures PinnedPrefix(candidates, Min(|candidates|, |panels|), old(evaluationPanels), old(allUserEvaluatedSubjects).Keys,
                           old(population).Keys * Elems(subjects), old(allPoints).Keys, old(runs))
      ensures timeStep == 0
    {
      ghost var panels0, pinned0, points0, runs0 := evaluationPanels, allUserEvaluatedSubjects.Keys, allPoints.Keys, runs;
      ghost var population0 := population.Keys;
      RefreshSubjects(candidates);
      ghost var cached0 := population0 * Elems(subjects);
      ClearAndPinAll(candidates, panels0, pinned0, cached0, points0, runs0);
      SetCurrentTimeStep(0);
    }

    /** Before the loop, with the panels cleared, no candidate is done. */
    lemma NothingPinnedYet(candidates: seq<Candidate>, panels0: map<Candidate, Panel>,
                           pinned0: set<Candidate>, cached0: set<Candidate>,
                           points0: set<Candidate>, runs0: map<Candidate, nat>)
      requires Valid() && evaluationPanels == panels0 && simulations == map[]
      requires allUserEvaluatedSubjects.Keys == pinned0 && population.Keys == cached0
      requires allPoints.Keys == points0 && runs == runs0
      ensures PinnedPrefix(candidates, 0, panels0, pinned0, cached0, points0, runs0)
    {
      assert candidates[..0] == [];
    }

    /** The rest of setUserEvaluatedCandidates before the rewind: clear the
        panels, then walk the candidates and the registered panels side by
        side until either runs out. */
    method ClearAndPinAll(candidates: seq<Candidate>, ghost panels0: map<Candidate, Panel>,
                          ghost pinned0: set<Candidate>, ghost cached0: set<Candidate>,
                          ghost points0: set<Candidate>, ghost runs0: map<Candidate, nat>)
      requires Valid() && evaluationPanels == panels0 && allUserEvaluatedSubjects.Keys == pinned0
      requires population.Keys == cached0 && allPoints.Keys == points0 && runs == runs0
      modifies this`population, this`simulations, this`evaluationPanels,
               this`allUserEvaluatedSubjects, this`allPoints, this`solutions, this`runs
      ensures PinnedPrefix(candidates, Min(|candidates|, |panels|), panels0, pinned0, cached0, points0, runs0)
    {
      simulations := map[];
      NothingPinnedYet(candidates, panels0, pinned0, cached0, points0, runs0);
      var i := 0;
      while i < |candidates| && i < |panels|
        invariant PinnedPrefix(candidates, i, panels0, pinned0, cached0, points0, runs0)
      {
        BindAndPin(candidates, i, panels0, pinned0, cached0, points0, runs0);
        i := i + 1;
      }
      assert i == Min(|candidates|, |panels|);
    }

    /** The list part of setUserEvaluatedCandidates: move the given
        candidates to the newest end of the working list, trim it and forget
        the cached results of candidates that fell out of it. */
    method RefreshSubjects(candidates: seq<Candidate>)
      requires Valid()
      modifies this`subjects, this`population
      ensures Valid()
      ensures subjects == KeepNewest(Refreshed(old(subjects), candidates), MaxSubjects)
      ensures population.Keys == old(population).Keys * Elems(subjects)
    {
      MoveToNewest(candidates);
      RetainSubjects();
    }

    /** One pass of setUserEvaluatedCandidates' loop: bind candidate i to
        panel i, pin its result and show the result on the panel. */
    method BindAndPin(candidates: seq<Candidate>, i: nat, ghost panels0: map<Candidate, Panel>,
                      ghost pinned0: set<Candidate>, ghost cached0: set<Candidate>,
                      ghost points0: set<Candidate>, ghost runs0: map<Candidate, nat>)
      requires i < |candidates| && i < |panels|
      requires PinnedPrefix(candidates, i, panels0, pinned0, cached0, points0, runs0)
      modifies this`population, this`simulations, this`evaluationPanels,
               this`allUserEvaluatedSubjects, this`allPoints, this`solutions, this`runs
      ensures PinnedPrefix(candidates, i + 1, panels0, pinned0, cached0, points0, runs0)
    {
      var result := PinNext(candidates, i, pinned0, cached0, points0, runs0);
      BindAndShow(candidates, i, panels0, result);
    }

    /** Pin candidate i. */
    method PinNext(candidates: seq<Candidate>, i: nat, ghost pinned0: set<Candidate>, ghost cached0: set<Candidate>,
                   ghost points0: set<Candidate>, ghost runs0: map<Candidate, nat>) returns (result: Path)
      requires Valid() && i < |candidates|
      requires PinnedFrom(Elems(candidates[..i]), pinned0, cached0, points0, runs0)
      modifies this`population, this`allUserEvaluatedSubjects, this`allPoints, this`solutions, this`runs
      ensures Valid()
      ensures result == SimulatedPath(env, candidates[i])
      ensures PinnedFrom(Elems(candidates[..i + 1]), pinned0, cached0, points0, runs0)
    {
      result := Pin(candidates[i]);
      ElemsSnoc(candidates, i);
    }

    /** evaluationPanels.put(candidate i, panel i), then simulations.put(panel
        i, the pinned result of candidate i). */
    method BindAndShow(candidates: seq<Candidate>, i: nat, ghost panels0: map<Candidate, Panel>, result: Path)
      requires i < |candidates| && i < |panels|
      requires evaluationPanels == BindPanels(panels0, candidates, panels, i)
      requires simulations == Displayed(env, candidates, panels, i)
      requires result == SimulatedPath(env, candidates[i])
      modifies this`evaluationPanels, this`simulations
      ensures evaluationPanels == BindPanels(panels0, candidates, panels, i + 1)
      ensures simulations == Displayed(env, candidates, panels, i + 1)
    {
      evaluationPanels := evaluationPanels[candidates[i] := panels[i]];
      simulations := simulations[panels[i] := result];
    }

    /** Move the given candidates to the newest end of the working list, then
        trim it. */
    method MoveToNewest(candidates: seq<Candidate>)
      modifies this`subjects
      ensures subjects == KeepNewest(Refreshed(old(subjects), candidates), MaxSubjects)
    {
      subjects := RemoveAll(subjects, Elems(candidates));
      subjects := subjects + candidates;
      TrimSubjects();
    }

    /** step: advance the cursor by one, with no upper bound. */
    method Step()
      modifies this`timeStep
      ensures timeStep == old(timeStep) + 1
      ensures old(AtLastStep()) ==> AtLastStep()
    {
      timeStep := timeStep + 1;
    }

    /** getCurrentTimeStep: the cursor Step, SetCurrentTimeStep and
        GotoSimulationTimestep move. */
    function GetCurrentTimeStep(): (r: int)
      reads this
      ensures r == timeStep
    {
      timeStep
    }

    method SetCurrentTimeStep(aNewTimeStep: int)
      modifies this`timeStep
      ensures timeStep == aNewTimeStep
      ensures GetCurrentTimeStep() == aNewTimeStep
    {
      timeStep := aNewTimeStep;
    }

    /** gotoSimulationTimestep: the requested step clamped into [0, maxTimesteps]. */
    method GotoSimulationTimestep(simulationTimeStep: int)
      modifies this`timeStep
      ensures timeStep == ClampTimestep(simulationTimeStep, env.maxTimesteps)
      ensures env.maxTimesteps > 0 ==> (AtLastStep() <==> simulationTimeStep >= env.maxTimesteps)
      ensures env.maxTimesteps == 0 ==> AtLastStep()
    {
      var t := Max(Min(simulationTimeStep, GetMaxSimulationTimesteps()), 0);
      assert t == ClampTimestep(simulationTimeStep, env.maxTimesteps);
      SetCurrentTimeStep(t);
    }

    /** getMaxSimulationTimesteps: the configured number of simulation steps,
        the same bound the simulation loop runs to. */
    function GetMaxSimulationTimesteps(): (r: int)
      ensures r == env.maxTimesteps
    {
      env.maxTimesteps
    }

    /** atLastStep: the cursor has reached the end; inside the range the
        clamp keeps it in, that is being exactly on the last step. */
    predicate AtLastStep(): (r: bool)
      reads this
      ensures 0 <= timeStep <= env.maxTimesteps ==> (r <==> timeStep == env.maxTimesteps)
      ensures timeStep < 0 ==> (r <==> env.maxTimesteps <= timeStep)
    {
      GetCurrentTimeStep() >= GetMaxSimulationTimesteps()
    }

    /** registerPanel: append; List.add always reports true. */
    method RegisterPanel(panel: Panel) returns (added: bool)
      modifies this`panels
      ensures panels == old(panels) + [panel]
      ensures added
    {
      panels := panels + [panel];
      added := true;
    }

    /** removePanel: remove the first occurrence, reporting whether there was one. */
    method RemovePanel(panel: Panel) returns (removed: bool)
      modifies this`panels
      ensures removed <==> panel in old(panels)
      ensures panels == RemoveFirstOccurrence(old(panels), panel)
    {
      removed := panel in panels;
      panels := RemoveFirstOccurrence(panels, panel);
    }

    /** getRegisteredPanels: the panels in registration order, as
        RegisterPanel and RemovePanel leave them. */
    function GetRegisteredPanels(): (r: seq<Panel>)
      reads this
      ensures r == panels
    {
      panels
    }

    /** The simulation loop of evaluate: step the robot up to maxTimesteps
        times, stopping right after the first step that ends within the goal
        threshold; report the path and whether the goal was reached. */
    method Simulate(subject: Candidate) returns (path: Path, solved: bool)
      ensures path == SimulatedPath(env, subject)
      ensures solved == SolvedBy(env, subject)
    {
      var maze := env.maze;
      path := [env.robotAt(subject, maze, 0)];
      solved := false;
      var i: nat := 0;
      while i < env.maxTimesteps
        invariant i == 0 || i <= env.maxTimesteps
        invariant path == Trajectory(env, subject, i)
        invariant StepsFrom(env, subject, i) == StepsTaken(env, subject)
        invariant i > 0 ==> !AtGoal(env, subject, i)
        invariant !solved
      {
        i := i + 1;
        path := path + [env.robotAt(subject, maze, i)];
        if env.world.distance(env.robotAt(subject, maze, i), maze.goal) <= env.goalThreshold as real {
          solved := true;
          break;
        }
      }
    }

    /** evaluate: a cached candidate is left alone; otherwise it is simulated
        once, marked as a solution when its run reached the goal, and its path
        and the path's endpoint are recorded. */
    method Evaluate(subject: Candidate)
      requires Valid()
      modifies this`population, this`allPoints, this`solutions, this`runs
      ensures Valid()
      ensures old(subject in population) ==>
                population == old(population) && allPoints == old(allPoints) &&
                solutions == old(solutions) && runs == old(runs)
      ensures subject !in old(population) ==>
                && population == old(population)[subject := SimulatedPath(env, subject)]
                && allPoints == old(allPoints)[subject := Last(SimulatedPath(env, subject))]
                && solutions == (if SolvedBy(env, subject) then old(solutions) + {subject} else old(solutions))
      ensures RanOnce(runs, old(runs), {subject} - old(population).Keys)
    {
      if subject in population {
        return;
      }
      var path, solved := Simulate(subject);
      if solved {
        solutions := solutions + {subject};
      }
      population := population[subject := path];
      allPoints := allPoints[subject := Last(path)];
      runs := runs[subject := RunsIn(runs, subject) + 1];
    }

    /** evaluate over a list: each candidate in turn, so each uncached one is
        simulated once and the cached ones not at all. */
    method EvaluateAll(candidates: seq<Candidate>)
      requires Valid()
      modifies this`population, this`allPoints, this`solutions, this`runs
      ensures Valid()
      ensures EvaluatedFrom(Elems(candidates), old(population).Keys, old(allPoints).Keys, old(runs))
    {
      for i := 0 to |candidates|
        invariant Valid()
        invariant EvaluatedFrom(Elems(candidates[..i]), old(population).Keys, old(allPoints).Keys, old(runs))
      {
        Evaluate(candidates[i]);
        ElemsSnoc(candidates, i);
      }
      ElemsAll(candidates);
    }

    /** fitnessFunction.calculateFitness, dispatched on the configured strategy. */
    method CalculateFitness(path: Path) returns (f: int)
      requires Valid() && |path| > 0
      ensures f == FitnessOf(env, path)
    {
      match fitnessFunction
      case EuclidianDistance(m) =>
        f := ED.CalculateFitness(m, env.world, path);
      case BreadCrumbTrail(m) =>
        var outcome := BCT.CalculateFitness(m, env.world, path);
        BCT.FailsOnlyWithoutCrumbs(m, env.world, path);
        f := outcome.value;
      case FastestEuclidianDistance(m) =>
        f := env.fastestFitness(m, path);
    }

    /** evaluateFitness: evaluate if needed, then score the cached path. */
    method EvaluateFitness(subject: Candidate)
      requires Valid()
      modifies this`population, this`allPoints, this`solutions, this`runs, this`fitnessValues
      ensures Valid()
      ensures population.Keys == old(population.Keys) + {subject}
      ensures allPoints.Keys == old(allPoints.Keys) + {subject}
      ensures RanOnce(runs, old(runs), {subject} - old(population).Keys)
      ensures fitnessValues == old(fitnessValues)[subject := FitnessOf(env, SimulatedPath(env, subject))]
    {
      Evaluate(subject);
      var path := population[subject];
      var f := CalculateFitness(path);
      fitnessValues := fitnessValues[subject := f];
    }

    /** evaluateFitness over a list: each candidate in turn; every given
        candidate ends up scored (the invariant fixes each score to the
        strategy's score of its simulated path). */
    method EvaluateFitnessAll(candidates: seq<Candidate>)
      requires Valid()
      modifies this`population, this`allPoints, this`solutions, this`runs, this`fitnessValues
      ensures Valid()
      ensures EvaluatedFrom(Elems(candidates), old(population).Keys, old(allPoints).Keys, old(runs))
      ensures fitnessValues.Keys == old(fitnessValues).Keys + Elems(candidates)
    {
      for i := 0 to |candidates|
        invariant Valid()
        invariant EvaluatedFrom(Elems(candidates[..i]), old(population).Keys, old(allPoints).Keys, old(runs))
        invariant fitnessValues.Keys == old(fitnessValues).Keys + Elems(candidates[..i])
      {
        EvaluateFitness(candidates[i]);
        ElemsSnoc(candidates, i);
      }
      ElemsAll(candidates);
    }

    /** evaluateNovelty: evaluate all, score all, then hand the whole
        population to the novelty metric once. The scoring pass simulates
        nothing more: every candidate is cached by then. */
    method EvaluateNovelty(candidates: seq<Candidate>)
      requires Valid()
      modifies this`population, this`allPoints, this`solutions, this`runs, this`fitnessValues, this`noveltyScored
      ensures Valid()
      ensures EvaluatedFrom(Elems(candidates), old(population).Keys, old(allPoints).Keys, old(runs))
      ensures fitnessValues.Keys == old(fitnessValues).Keys + Elems(candidates)
      ensures noveltyScored == old(noveltyScored) + [population]
    {
      EvaluateAll(candidates);
      EvaluateFitnessAll(candidates);
      noveltyScored := noveltyScored + [population];
    }

    function GetMaxFitnessValue(): (r: int)
      ensures r == MaxFitness
    {
      fitnessFunction.GetMaxFitnessValue()
    }

    /** getAllPointsVisited: each simulated candidate's final position. */
    function GetAllPointsVisited(): (r: map<Candidate, Position>)
      reads this
      ensures Valid() ==> forall c :: c in r ==> r[c] == Last(SimulatedPath(env, c))
      ensures Valid() ==> population.Keys <= r.Keys
    {
      allPoints
    }
  }
}
