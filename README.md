# Maze-navigation candidate evaluation, in Dafny

A model of the candidate-evaluation engine of a novelty-assisted interactive
evolution system for maze navigation, together with the two record types of
its experiment log.

- **Evaluation orchestrator** (`evaluation_domain.dfy`, `maze_navigation_domain.dfy`).
  - It keeps a FIFO working list of at most 500 candidates.
  - It keeps a memoised cache of simulated trajectories and a map of results pinned for user evaluation, which only grows.
  - It binds candidates to display panels by position and keeps a replay time cursor with a clamped `goto`.
  - It scores cached trajectories with the configured fitness strategy and hands the whole population to the novelty metric.
  - Both orchestrator classes are one Dafny class, `MazeNavigationDomain`. It has the base class's fields and the maze domain's, because the maze domain is the only subclass and Dafny classes do not inherit.
  - The robot simulator is a deterministic oracle: `robotAt(c, maze, n)` is where candidate c's robot stands after n steps.
  - A ghost run counter records how often each candidate was simulated. The contracts use it to state "simulated once, and only when not cached".
- **Fitness strategies** (`fitness_strategy.dfy`, `euclidian_distance.dfy`, `bread_crumb_trail.dfy`).
  - The clamped distance-to-goal score, and the breadcrumb walk with its near-goal override and partial credit.
  - Distances come from an oracle over `real` points.
  - `Math.round` is `floor(x + 1/2)`.
- **Experiment-log step** (`iec_step.dfy`, `iec_step_load.dfy`).
  - `IecStep` is a class with the source's fields.
  - `update` files the population's chromosomes into solution, selected and unselected lists.
  - `toXml` writes the step as an XML fragment, restoring every chromosome's flags.
  - `loadFromXml` reads a step back: the digit-guarded numeric parses, the throws it can raise, and the solution/selected classification.
  - A round-trip lemma connects writing and reading.
- **Replay step record** (`step.dfy`).
  - The `Step` reader's sibling loop, `parseAction` and `setId`.
  - The tag constants are modelled as declared, so the consequences of the colliding tags are proved. A second instance with the evidently intended tags is proved beside it.
  - As declared, the chromosome reader's guard compares against the literal text "CHROMOSOME_TAG". No child the step dispatches to it can pass that guard, so every chromosome record keeps its defaults (`Step.DispatchedChromosomeIsDefault`).

Shared pieces live in `common.dfy` (Option, Result, integer clamps), `text.dfy` (the case folding of `String.equalsIgnoreCase` as it applies against ASCII names: the ASCII letters plus the four characters outside ASCII that Java matches to them — dotted capital I, dotless small i, long s and the Kelvin sign — decimal rendering, the `[0-9]+`-guarded parse, an XML element value) and `geometry.dfy` (points, paths, mazes, the distance oracle, rounding).

Where the system's documented behaviour and the code disagree, the model follows the code:

- **The distance-to-goal score lies in [0, 299].** The distance is clamped to [1, 300] before it is subtracted from 300, so the score never reaches MAX_FITNESS and bottoms out at 0, below MIN_FITNESS.
- **The 500 bound applies only to the working list.** The cache is intersected with the trimmed list and then receives every given candidate. One call with more than 500 new candidates therefore leaves more than 500 cached results.
- **A zero-length partial-credit segment earns 0, not full credit.** With Java doubles, `dist / 0` is infinite or NaN, and both `max(-Infinity, 0)` and `round(NaN)` give 0 (`BreadCrumbTrail.PartialCredit`).

## Model

| member | source | states |
|---|---|---|
| Text.FoldCase | mazeNavigation/src/edu/ucf/eplex/mazeNavigation/MazeNavigationDomain.java:311 | ASCII capitals go to their small letters, the dotted capital I and dotless small i to i, the long s to s, the Kelvin sign to k; a character that changes always lands on a small ASCII letter |
| Text.EqualsIgnoreCaseTransitive | mazeNavigation/src/edu/ucf/eplex/mazeNavigation/util/Step.java:59-63 | equality ignoring case is symmetric and transitive |
| Text.DifferentNonLetterNotEqual | naiecFramework/src/edu/ucf/eplex/naiecFramework/controller/IecStep.java:229-258 | two names differing where neither has a letter, nor a character folding onto one, are never equal ignoring case |
| Text.FoldsOntoAsciiLetters | mazeNavigation/src/edu/ucf/eplex/mazeNavigation/util/Step.java:32 | the four characters outside ASCII match i, I, S and k ignoring case; the dotted capital I does not match j |
| Text.ParseDigits | naiecFramework/src/edu/ucf/eplex/naiecFramework/controller/IecStep.java:235-236 | text that is not all digits is NotANumber (and only such text); a Number is all digits and lies in [0, max] |
| Text.ParseDecimalRoundTrip | naiecFramework/src/edu/ucf/eplex/naiecFramework/controller/IecStep.java:234-238 | a non-negative number within the maximum, as toXml writes it, parses back to itself |
| Text.NegativeDecimalIsSkipped | naiecFramework/src/edu/ucf/eplex/naiecFramework/controller/IecStep.java:234-238 | a negative number is written with a minus sign, which the digit guard rejects |
| Text.NamedItem | naiecFramework/src/edu/ucf/eplex/naiecFramework/controller/IecStep.java:222 | an attribute value is found exactly when some attribute has that name, and it is that attribute's value |
| FitnessStrategy.Strategy.GetMaxFitnessValue | mazeNavigation/src/edu/ucf/eplex/mazeNavigation/FitnessStrategy.java:31-33 | 300 for every strategy and maze |
| FitnessStrategy.FitnessBoundsOrdered | mazeNavigation/src/edu/ucf/eplex/mazeNavigation/FitnessStrategy.java:35-36 | MIN_FITNESS = 1 < MAX_FITNESS = 300 |
| EuclidianDistance.DistanceScore | mazeNavigation/src/edu/ucf/eplex/mazeNavigation/EuclidianDistance.java:30-32 | the clamped-distance score lies in [0, 299] |
| EuclidianDistance.CalculateFitness | mazeNavigation/src/edu/ucf/eplex/mazeNavigation/EuclidianDistance.java:29-33 | the score of any path lies in [0, 299] |
| EuclidianDistance.CloseScoresTwoNinetyNine | mazeNavigation/src/edu/ucf/eplex/mazeNavigation/EuclidianDistance.java:31-32 | any distance up to 1, 0 included, scores exactly 299 |
| EuclidianDistance.FarScoresZero | mazeNavigation/src/edu/ucf/eplex/mazeNavigation/EuclidianDistance.java:31-32 | any distance of 300 or more scores exactly 0 |
| EuclidianDistance.ScoreNonIncreasing | mazeNavigation/src/edu/ucf/eplex/mazeNavigation/EuclidianDistance.java:30-32 | ending farther from the goal never scores more |
| EuclidianDistance.DependsOnlyOnLastAndGoal | mazeNavigation/src/edu/ucf/eplex/mazeNavigation/EuclidianDistance.java:30 | two paths with the same last point, scored against mazes with the same goal, score the same |
| EuclidianDistance.TwoShortScoresTwoNinetyEight | mazeNavigation/src/edu/ucf/eplex/mazeNavigation/EuclidianDistance.java:30-32 | ending 2 short of the goal scores 298 |
| BreadCrumbTrail.CalculateFitness | mazeNavigation/src/edu/ucf/eplex/mazeNavigation/BreadCrumbTrail.java:32-57 | the loop over the path, consuming the crumb queue, computes Score: the near-goal override, the walk and the partial credit, or the removeFirst failure |
| BreadCrumbTrail.PartialCredit | mazeNavigation/src/edu/ucf/eplex/mazeNavigation/BreadCrumbTrail.java:52-55 | for non-negative distances the partial-credit term lies in [0, 30] |
| BreadCrumbTrail.WalkReachesInOrder | mazeNavigation/src/edu/ucf/eplex/mazeNavigation/BreadCrumbTrail.java:40-51 | crumbs are consumed in maze order, at most one per path point and never the last; each consumed crumb was strictly within two radii of some point; the walk ends at 30 per crumb with prev the last consumed crumb (or the start) |
| BreadCrumbTrail.UnreachedCrumbStopsWalk | mazeNavigation/src/edu/ucf/eplex/mazeNavigation/BreadCrumbTrail.java:43-49 | the reach test is strict: a crumb that no point gets strictly within two radii of is never passed |
| BreadCrumbTrail.NearGoalOverride | mazeNavigation/src/edu/ucf/eplex/mazeNavigation/BreadCrumbTrail.java:35-38 | within 5 of the goal the score is round(300 - d), in [295, 300], whatever the breadcrumbs |
| BreadCrumbTrail.FailsOnlyWithoutCrumbs | mazeNavigation/src/edu/ucf/eplex/mazeNavigation/BreadCrumbTrail.java:33-42 | the score throws exactly when the maze has no breadcrumbs and the path ends farther than 5 from the goal |
| BreadCrumbTrail.ScoreIsCrumbsPlusPartial | mazeNavigation/src/edu/ucf/eplex/mazeNavigation/BreadCrumbTrail.java:40-56 | away from the goal the score is 30k plus a term in [0, 30], with k < the number of crumbs and k <= the path length, so it is at most 30 per crumb; it is not capped at 300 |
| EvaluationDomain.KeepNewest | naiecFramework/src/edu/ucf/eplex/naiecFramework/domain/EvaluationDomain.java:48-50 | the trim leaves the newest min(n, size) elements, in order |
| EvaluationDomain.RemoveAllMembers | naiecFramework/src/edu/ucf/eplex/naiecFramework/domain/EvaluationDomain.java:70 | removeAll keeps exactly the elements not removed |
| EvaluationDomain.RemoveAllAppend | naiecFramework/src/edu/ucf/eplex/naiecFramework/domain/EvaluationDomain.java:70 | removeAll keeps the order of what remains |
| EvaluationDomain.UserEvaluatedAtTail | naiecFramework/src/edu/ucf/eplex/naiecFramework/domain/EvaluationDomain.java:70-74 | after removeAll, addAll and the trim, the user-evaluated candidates are the tail of the list, in the given order, and none occurs before them |
| EvaluationDomain.RemovedAvoids | naiecFramework/src/edu/ucf/eplex/naiecFramework/domain/EvaluationDomain.java:70 | nothing left after removeAll is one of the removed candidates |
| EvaluationDomain.RemoveFirstOccurrenceSpec | naiecFramework/src/edu/ucf/eplex/naiecFramework/domain/EvaluationDomain.java:170-172 | List.remove drops the first occurrence and keeps the rest in order, or changes nothing when the element is absent |
| EvaluationDomain.BindPanelsKeys | naiecFramework/src/edu/ucf/eplex/naiecFramework/domain/EvaluationDomain.java:80-83 | after binding, the panel map holds the old keys and exactly the first n candidates |
| EvaluationDomain.BindPanelsAt | naiecFramework/src/edu/ucf/eplex/naiecFramework/domain/EvaluationDomain.java:80-83 | candidate i is bound to panel i unless a later candidate is the same one |
| EvaluationDomain.BindPanelsKeeps | naiecFramework/src/edu/ucf/eplex/naiecFramework/domain/EvaluationDomain.java:80-83 | the binding of a candidate not among those bound is kept |
| MazeNavigationDomain.GetMaze | mazeNavigation/src/edu/ucf/eplex/mazeNavigation/MazeNavigationDomain.java:269-277 | exactly "hard.map" gives the hard map; every other name gives the medium map |
| MazeNavigationDomain.GetFitnessFunction | mazeNavigation/src/edu/ucf/eplex/mazeNavigation/MazeNavigationDomain.java:310-318 | the breadcrumb strategy exactly for "breadCrumbTrail" in any case, the fastest-distance strategy otherwise, always on the given maze |
| MazeNavigationDomain.ApproachNames | mazeNavigation/src/edu/ucf/eplex/mazeNavigation/MazeNavigationDomain.java:306-318 | the default "distance2goal" gives the fastest-distance strategy; the breadcrumb name matches in upper case but not with a trailing space |
| MazeNavigationDomain.ApproachNameDotlessI | mazeNavigation/src/edu/ucf/eplex/mazeNavigation/MazeNavigationDomain.java:310-312 | "breadCrumbTra" + dotless i + "l" selects the breadcrumb strategy, as String.equalsIgnoreCase matches the dotless i to i |
| MazeNavigationDomain.Resolve | mazeNavigation/src/edu/ucf/eplex/mazeNavigation/MazeNavigationDomain.java:240-248 | a configuration whose breadcrumb strategy has crumbs resolves to a strategy on the resolved maze |
| MazeNavigationDomain.StepsFromSpec | mazeNavigation/src/edu/ucf/eplex/mazeNavigation/MazeNavigationDomain.java:168-178 | from step i the loop stops at most at maxTimesteps, never passes a step within the goal threshold, and stops early only at one |
| MazeNavigationDomain.SimulationStopsAtFirstGoal | mazeNavigation/src/edu/ucf/eplex/mazeNavigation/MazeNavigationDomain.java:168-178 | at most maxTimesteps steps; the run stops right after the first step within the threshold; the solution flag is set exactly when some step within the budget reached the goal; the path has one more position than steps |
| MazeNavigationDomain.BreadCrumbFitnessBounds | mazeNavigation/src/edu/ucf/eplex/mazeNavigation/BreadCrumbTrail.java:32-57 | under the breadcrumb strategy a cached path's fitness lies in [0, max(300, 30 per crumb)] |
| MazeNavigationDomain.DisplayedKeys | naiecFramework/src/edu/ucf/eplex/naiecFramework/domain/EvaluationDomain.java:77-93 | after the cleared simulations map is filled, its keys are exactly the first n panels |
| MazeNavigationDomain.DisplayedAt | naiecFramework/src/edu/ucf/eplex/naiecFramework/domain/EvaluationDomain.java:80-92 | panel i shows candidate i's result unless a later candidate took the same panel |
| MazeNavigationDomain.ClampTimestep | mazeNavigation/src/edu/ucf/eplex/mazeNavigation/MazeNavigationDomain.java:108-111 | the requested step clamped into [0, maxTimesteps]: unchanged inside, 0 below, maxTimesteps above |
| MazeNavigationDomain.MazeNavigationDomain.constructor | mazeNavigation/src/edu/ucf/eplex/mazeNavigation/MazeNavigationDomain.java:240-256 | initialisation resolves the maze and strategy by name and starts with every list and map empty and the cursor at 0 |
| MazeNavigationDomain.MazeNavigationDomain.TrimSubjects | naiecFramework/src/edu/ucf/eplex/naiecFramework/domain/EvaluationDomain.java:48-50 | the removeFirst loop leaves the newest 500 candidates |
| MazeNavigationDomain.MazeNavigationDomain.AppendSubjects | naiecFramework/src/edu/ucf/eplex/naiecFramework/domain/EvaluationDomain.java:47-50 | the working list is the newest 500 of the old list plus the candidates, duplicates kept |
| MazeNavigationDomain.MazeNavigationDomain.RetainSubjects | naiecFramework/src/edu/ucf/eplex/naiecFramework/domain/EvaluationDomain.java:53 | the cache keeps exactly the entries of candidates still in the working list, unchanged |
| MazeNavigationDomain.MazeNavigationDomain.SetCandidates | naiecFramework/src/edu/ucf/eplex/naiecFramework/domain/EvaluationDomain.java:46-62 | the working list is trimmed to its newest 500; surviving cached results are unchanged; exactly the given candidates are added to the cache, and each is simulated once if its result did not survive |
| MazeNavigationDomain.MazeNavigationDomain.EvaluateNext | naiecFramework/src/edu/ucf/eplex/naiecFramework/domain/EvaluationDomain.java:55-61 | one pass: candidate i is evaluated unless it is cached |
| MazeNavigationDomain.MazeNavigationDomain.Pin | naiecFramework/src/edu/ucf/eplex/naiecFramework/domain/EvaluationDomain.java:85-91 | a candidate never pinned is evaluated and pinned; the pinned result is its simulated path, put back into the cache; it is simulated only if neither pinned nor cached |
| MazeNavigationDomain.MazeNavigationDomain.SetUserEvaluatedCandidates | naiecFramework/src/edu/ucf/eplex/naiecFramework/domain/EvaluationDomain.java:69-95 | the candidates move to the newest end of the list; candidate i is bound to panel i and panel i shows its pinned result; pinned results are never dropped; the cursor ends at 0 |
| MazeNavigationDomain.MazeNavigationDomain.NothingPinnedYet | naiecFramework/src/edu/ucf/eplex/naiecFramework/domain/EvaluationDomain.java:77 | with the panels cleared, the binding loop starts from nothing done |
| MazeNavigationDomain.MazeNavigationDomain.ClearAndPinAll | naiecFramework/src/edu/ucf/eplex/naiecFramework/domain/EvaluationDomain.java:77-93 | the loop runs over min(candidates, panels) and binds, pins and shows each one |
| MazeNavigationDomain.MazeNavigationDomain.RefreshSubjects | naiecFramework/src/edu/ucf/eplex/naiecFramework/domain/EvaluationDomain.java:70-76 | removeAll, addAll, the trim and the retain |
| MazeNavigationDomain.MazeNavigationDomain.BindAndPin | naiecFramework/src/edu/ucf/eplex/naiecFramework/domain/EvaluationDomain.java:80-93 | one pass of the binding loop keeps the loop invariant |
| MazeNavigationDomain.MazeNavigationDomain.PinNext | naiecFramework/src/edu/ucf/eplex/naiecFramework/domain/EvaluationDomain.java:85-90 | candidate i is pinned to its simulated path |
| MazeNavigationDomain.MazeNavigationDomain.BindAndShow | naiecFramework/src/edu/ucf/eplex/naiecFramework/domain/EvaluationDomain.java:83-92 | candidate i is bound to panel i and panel i shows its result |
| MazeNavigationDomain.MazeNavigationDomain.MoveToNewest | naiecFramework/src/edu/ucf/eplex/naiecFramework/domain/EvaluationDomain.java:70-74 | removeAll, addAll and the trim |
| MazeNavigationDomain.MazeNavigationDomain.Step | naiecFramework/src/edu/ucf/eplex/naiecFramework/domain/EvaluationDomain.java:100-102 | the cursor goes up by exactly 1, so once atLastStep holds it keeps holding |
| MazeNavigationDomain.MazeNavigationDomain.SetCurrentTimeStep | naiecFramework/src/edu/ucf/eplex/naiecFramework/domain/EvaluationDomain.java:113-115 | the cursor takes the given value, and getCurrentTimeStep then reports it |
| MazeNavigationDomain.MazeNavigationDomain.GotoSimulationTimestep | mazeNavigation/src/edu/ucf/eplex/mazeNavigation/MazeNavigationDomain.java:108-111 | the cursor becomes max(min(t, maxTimesteps), 0); with a positive maxTimesteps, atLastStep holds afterwards exactly when t >= maxTimesteps, and with maxTimesteps 0 it always holds |
| MazeNavigationDomain.MazeNavigationDomain.GetCurrentTimeStep | naiecFramework/src/edu/ucf/eplex/naiecFramework/domain/EvaluationDomain.java:108-110 | the cursor that step, setCurrentTimeStep and gotoSimulationTimestep move |
| MazeNavigationDomain.MazeNavigationDomain.GetMaxSimulationTimesteps | mazeNavigation/src/edu/ucf/eplex/mazeNavigation/MazeNavigationDomain.java:113-116 | the configured step count the simulation loop runs to |
| MazeNavigationDomain.MazeNavigationDomain.AtLastStep | mazeNavigation/src/edu/ucf/eplex/mazeNavigation/MazeNavigationDomain.java:118-121 | inside the range gotoSimulationTimestep clamps to, true exactly on the last step; a negative cursor is at the end only when maxTimesteps is no larger |
| MazeNavigationDomain.MazeNavigationDomain.RegisterPanel | naiecFramework/src/edu/ucf/eplex/naiecFramework/domain/EvaluationDomain.java:179-181 | the panel is appended and the call reports true |
| MazeNavigationDomain.MazeNavigationDomain.RemovePanel | naiecFramework/src/edu/ucf/eplex/naiecFramework/domain/EvaluationDomain.java:170-172 | the first occurrence is removed; the result says whether there was one |
| MazeNavigationDomain.MazeNavigationDomain.GetRegisteredPanels | naiecFramework/src/edu/ucf/eplex/naiecFramework/domain/EvaluationDomain.java:187-189 | the registered panels in order, as registerPanel and removePanel leave them |
| MazeNavigationDomain.MazeNavigationDomain.Simulate | mazeNavigation/src/edu/ucf/eplex/mazeNavigation/MazeNavigationDomain.java:163-178 | the step loop yields the simulated path and reports whether the run reached the goal |
| MazeNavigationDomain.MazeNavigationDomain.Evaluate | mazeNavigation/src/edu/ucf/eplex/mazeNavigation/MazeNavigationDomain.java:155-183 | a cached candidate changes nothing; otherwise it is simulated once, marked a solution exactly when its run reached the goal, and its path and endpoint are recorded |
| MazeNavigationDomain.MazeNavigationDomain.EvaluateAll | mazeNavigation/src/edu/ucf/eplex/mazeNavigation/MazeNavigationDomain.java:148-153 | every given candidate ends up cached, each uncached one simulated exactly once |
| MazeNavigationDomain.MazeNavigationDomain.CalculateFitness | mazeNavigation/src/edu/ucf/eplex/mazeNavigation/MazeNavigationDomain.java:130 | the configured strategy's score of the path |
| MazeNavigationDomain.MazeNavigationDomain.EvaluateFitness | mazeNavigation/src/edu/ucf/eplex/mazeNavigation/MazeNavigationDomain.java:123-132 | the candidate is evaluated if needed and its fitness becomes the strategy's score of its cached path |
| MazeNavigationDomain.MazeNavigationDomain.EvaluateFitnessAll | mazeNavigation/src/edu/ucf/eplex/mazeNavigation/MazeNavigationDomain.java:134-139 | every given candidate is evaluated and scored |
| MazeNavigationDomain.MazeNavigationDomain.EvaluateNovelty | mazeNavigation/src/edu/ucf/eplex/mazeNavigation/MazeNavigationDomain.java:141-146 | evaluate all, score all, then one call of the novelty metric on the whole cache |
| MazeNavigationDomain.MazeNavigationDomain.GetMaxFitnessValue | mazeNavigation/src/edu/ucf/eplex/mazeNavigation/MazeNavigationDomain.java:185-188 | 300 |
| MazeNavigationDomain.MazeNavigationDomain.GetAllPointsVisited | mazeNavigation/src/edu/ucf/eplex/mazeNavigation/MazeNavigationDomain.java:205-208 | under the domain invariant, each recorded candidate maps to the last position of its own simulated path, and every candidate of the population is recorded |
| IecStep.NothingInEmpty | naiecFramework/src/edu/ucf/eplex/naiecFramework/controller/IecStep.java:157-160 | an empty population contains all of a list exactly when that list is empty |
| IecStep.FiledMembers | naiecFramework/src/edu/ucf/eplex/naiecFramework/controller/IecStep.java:161-171 | after filing, a list holds what it held plus exactly the chromosomes of that kind |
| IecStep.FiledNonEmpty | naiecFramework/src/edu/ucf/eplex/naiecFramework/controller/IecStep.java:161-171 | a filed list is non-empty exactly when it was before or some chromosome had that kind |
| IecStep.SolutionFiled | naiecFramework/src/edu/ucf/eplex/naiecFramework/controller/IecStep.java:161-164 | after update, hasSolution holds exactly when it did before or some chromosome of the population is a solution |
| IecStep.Indent | naiecFramework/src/edu/ucf/eplex/naiecFramework/controller/IecStep.java:308-314 | exactly 4x spaces, none for x <= 0 |
| IecStep.TextContentElementRoundTrip | naiecFramework/src/edu/ucf/eplex/naiecFramework/controller/IecStep.java:304-306 | `<l>v</l>` followed by a line break reads back as (l, v) |
| IecStep.OpenCloseRoundTrip | naiecFramework/src/edu/ucf/eplex/naiecFramework/controller/IecStep.java:296-302 | the opening and closing tags read back as their tag and attribute text |
| IecStep.Elements | naiecFramework/src/edu/ucf/eplex/naiecFramework/controller/IecStep.java:186-201 | the action comes first, and both time elements hold runTime |
| IecStep.ElementsTags | naiecFramework/src/edu/ucf/eplex/naiecFramework/controller/IecStep.java:187-201 | a tag is written exactly when it is the action or a time tag, or a counter tag whose counter is set |
| IecStep.ElementsOptional | naiecFramework/src/edu/ucf/eplex/naiecFramework/controller/IecStep.java:188-201 | each counter's element is written exactly when it is set, and then holds its decimal value |
| IecStep.IecStep.constructor | naiecFramework/src/edu/ucf/eplex/naiecFramework/controller/IecStep.java:42-53 | id and action as given; with a genotype the counters, population and filed lists come from it, and without one everything is empty |
| IecStep.IecStep.Copy | naiecFramework/src/edu/ucf/eplex/naiecFramework/controller/IecStep.java:55-69 | every field copied, the lists holding the same chromosomes |
| IecStep.IecStep.Update | naiecFramework/src/edu/ucf/eplex/naiecFramework/controller/IecStep.java:149-177 | the counters are taken from the genotype; the population is replaced unless it already holds all of the genotype's chromosomes; solutions, selected and unselected are appended to, not cleared; without a genotype the three counters become null |
| IecStep.IecStep.FileAll | naiecFramework/src/edu/ucf/eplex/naiecFramework/controller/IecStep.java:161-171 | each chromosome goes to solutions if a solution, to selected if selected, to unselected only if neither |
| IecStep.IecStep.FileInto | naiecFramework/src/edu/ucf/eplex/naiecFramework/controller/IecStep.java:161-171 | the filing loop computes Filed for each of the three kinds |
| IecStep.IecStep.FileStep | naiecFramework/src/edu/ucf/eplex/naiecFramework/controller/IecStep.java:161-171 | one pass appends the i-th chromosome to a list exactly when it has that kind |
| IecStep.IecStep.GetChromosomes | naiecFramework/src/edu/ucf/eplex/naiecFramework/controller/IecStep.java:132-147 | each chromosome's flags become its membership in selected and solutions; the population is returned |
| IecStep.IecStep.ToXml | naiecFramework/src/edu/ucf/eplex/naiecFramework/controller/IecStep.java:183-218 | the fragment is StepXml of the fields and of the pinned chromosomes, each written with its membership flags; every flag ends as it started |
| IecStep.IecStep.WriteHeader | naiecFramework/src/edu/ucf/eplex/naiecFramework/controller/IecStep.java:186-201 | the opening tag and the text elements |
| IecStep.IecStep.WriteChromosomes | naiecFramework/src/edu/ucf/eplex/naiecFramework/controller/IecStep.java:203-213 | only chromosomes in solutions or selected are written, in population order; their flags are restored |
| IecStep.IecStep.WriteChromosome | naiecFramework/src/edu/ucf/eplex/naiecFramework/controller/IecStep.java:204-212 | one chromosome written with its membership flags when pinned; its flags are restored |
| IecStep.IecStep.AppendElement | naiecFramework/src/edu/ucf/eplex/naiecFramework/controller/IecStep.java:187 | one indented text element appended |
| IecStep.IecStep.AppendCounter | naiecFramework/src/edu/ucf/eplex/naiecFramework/controller/IecStep.java:188-190 | a counter's element appended only when it is set |
| IecStep.IecStep.HasSolution | naiecFramework/src/edu/ucf/eplex/naiecFramework/controller/IecStep.java:329-331 | true exactly when the solution list is non-empty |
| IecStep.IecStep.GetChampConnectionCount | naiecFramework/src/edu/ucf/eplex/naiecFramework/controller/IecStep.java:333-339 | -1 exactly when there is no solution, otherwise the first solution's link count |
| IecStep.IecStep.GetChampNodeCount | naiecFramework/src/edu/ucf/eplex/naiecFramework/controller/IecStep.java:341-347 | -1 exactly when there is no solution, otherwise the first solution's node count |
| IecStepLoad.LoadId | naiecFramework/src/edu/ucf/eplex/naiecFramework/controller/IecStep.java:221-225 | no attributes: the id stays unset; attributes without an id throw; an all-digit id within the long range is read as its value |
| IecStepLoad.LoadCounter | naiecFramework/src/edu/ucf/eplex/naiecFramework/controller/IecStep.java:234-256 | a digit string within the int range replaces the counter; other text leaves it; too many digits throw |
| IecStepLoad.LoadAction | naiecFramework/src/edu/ucf/eplex/naiecFramework/controller/IecStep.java:229-232 | valueOf succeeds exactly on a known name, and throws otherwise |
| IecStepLoad.AllChromosomeChildren | naiecFramework/src/edu/ucf/eplex/naiecFramework/controller/IecStep.java:260-267 | the inner loop over a list of chromosome elements collects all of them, in order |
| IecStepLoad.FilterSplit | naiecFramework/src/edu/ucf/eplex/naiecFramework/controller/IecStep.java:269-277 | solutions gets exactly the solution chromosomes and selected all the others, nothing lost |
| IecStepLoad.ClassifiedPartition | naiecFramework/src/edu/ucf/eplex/naiecFramework/controller/IecStep.java:269-277 | a classified step's solutions and selected partition its population |
| IecStepLoad.LoadFields | naiecFramework/src/edu/ucf/eplex/naiecFramework/controller/IecStep.java:229-256 | a child changes only the scalar fields |
| IecStepLoad.Grow | naiecFramework/src/edu/ucf/eplex/naiecFramework/controller/IecStep.java:258-279 | the population grows by what is added, and the lists are rebuilt from it |
| IecStepLoad.GrowTwice | naiecFramework/src/edu/ucf/eplex/naiecFramework/controller/IecStep.java:258-279 | two rebuilds in a row equal one over both additions |
| IecStepLoad.LoadChildClassified | naiecFramework/src/edu/ucf/eplex/naiecFramework/controller/IecStep.java:227-282 | one child keeps the lists classified and unselected empty |
| IecStepLoad.LoadChildrenClassified | naiecFramework/src/edu/ucf/eplex/naiecFramework/controller/IecStep.java:227-282 | the child loop keeps the lists classified |
| IecStepLoad.LoadStepClassified | naiecFramework/src/edu/ucf/eplex/naiecFramework/controller/IecStep.java:220-283 | a loaded step's lists are always classified, and unselected is never filled |
| IecStepLoad.LoadedPartition | naiecFramework/src/edu/ucf/eplex/naiecFramework/controller/IecStep.java:269-277 | in a loaded step solutions are its solution chromosomes, selected all others, and it has a solution exactly when some chromosome is one |
| IecStepLoad.LoadChildrenAppend | naiecFramework/src/edu/ucf/eplex/naiecFramework/controller/IecStep.java:227-282 | the loop over two runs of children is the loop over the first, then, unless it threw, over the second |
| IecStepLoad.TagsDistinct | naiecFramework/src/edu/ucf/eplex/naiecFramework/controller/IecStep.java:318-326 | the step tags differ even ignoring case |
| IecStepLoad.LoadIdRoundTrip | naiecFramework/src/edu/ucf/eplex/naiecFramework/controller/IecStep.java:186 | the id toXml writes reads back, a negative one as unset |
| IecStepLoad.LoadOptional | naiecFramework/src/edu/ucf/eplex/naiecFramework/controller/IecStep.java:188-201 | a counter element written only when set reads back into its field |
| IecStepLoad.LoadTimeElement | naiecFramework/src/edu/ucf/eplex/naiecFramework/controller/IecStep.java:191-192 | the time elements are ignored on reading |
| IecStepLoad.LoadActionElement | naiecFramework/src/edu/ucf/eplex/naiecFramework/controller/IecStep.java:229-232 | the action element reads back as the action when its name is known |
| IecStepLoad.LoadElements | naiecFramework/src/edu/ucf/eplex/naiecFramework/controller/IecStep.java:186-201 | all the text elements toXml writes read back into their fields |
| IecStepLoad.CountersRead | naiecFramework/src/edu/ucf/eplex/naiecFramework/controller/IecStep.java:234-256 | from unset counters, each ends at its written value, or unset for a negative one |
| IecStepLoad.LoadChromosomeChild | naiecFramework/src/edu/ucf/eplex/naiecFramework/controller/IecStep.java:258-279 | a chromosome child only grows the population: by all chromosome siblings as written, by itself corrected |
| IecStepLoad.LoadEachOnce | naiecFramework/src/edu/ucf/eplex/naiecFramework/controller/IecStep.java:227-282 | children that each add themselves add the whole run, once each, in order |
| IecStepLoad.LoadEachAll | naiecFramework/src/edu/ucf/eplex/naiecFramework/controller/IecStep.java:258-267 | children that each add the same run add it once per child |
| IecStepLoad.LoadStepRoundTrip | naiecFramework/src/edu/ucf/eplex/naiecFramework/controller/IecStep.java:183-283 | with the loop corrected, reading back what toXml writes gives the fields written (a negative number unset) and the chromosomes written, once each, in order, classified |
| IecStepLoad.ChromosomeStepAsWritten | naiecFramework/src/edu/ucf/eplex/naiecFramework/controller/IecStep.java:258-267 | as written, k chromosome elements load as k copies of the list, k*k chromosomes |
| IecStepLoad.ChromosomeStepCorrected | naiecFramework/src/edu/ucf/eplex/naiecFramework/controller/IecStep.java:258-267 | corrected, the same step loads the k chromosomes once each |
| IecStepLoad.TwoChromosomesLoadFour | naiecFramework/src/edu/ucf/eplex/naiecFramework/controller/IecStep.java:258-267 | two chromosome elements load as four as written, and as two corrected |
| IecStepLoad.LoadFromXml | naiecFramework/src/edu/ucf/eplex/naiecFramework/controller/IecStep.java:220-283 | the child loop, with the chromosome loop corrected, computes LoadStep |
| IecStepLoad.ClassifyAll | naiecFramework/src/edu/ucf/eplex/naiecFramework/controller/IecStep.java:269-277 | the classification loop rebuilds solutions and selected as the two filters |
| Step.ParseActionCases | mazeNavigation/src/edu/ucf/eplex/mazeNavigation/util/Step.java:58-68 | each action exactly for its name in any case, UNDEFINED exactly for every other text |
| Step.ParseActionIgnoresCase | mazeNavigation/src/edu/ucf/eplex/mazeNavigation/util/Step.java:58-68 | texts equal up to case parse to the same action |
| Step.ParseActionFoldsNonAscii | mazeNavigation/src/edu/ucf/eplex/mazeNavigation/util/Step.java:58-68 | long s + "tep" is STEP and "f" + dotless i + "tness" is FITNESS, while a Kelvin sign in place of o leaves "novelty" UNDEFINED |
| Step.DispatchedChromosomeIsDefault | mazeNavigation/src/edu/ucf/eplex/mazeNavigation/util/Step.java:46-47 | a child dispatched as a chromosome never passes the chromosome guard, so its record keeps every default and the step's id is untouched |
| Step.AsWrittenSkipsStepElement | mazeNavigation/src/edu/ucf/eplex/mazeNavigation/util/Step.java:31-32 | an element not named "STEP_TAG" up to case keeps every field at its default |
| Step.AsWrittenIgnoresStepTag | mazeNavigation/src/edu/ucf/eplex/mazeNavigation/util/Step.java:32 | an element named "step" keeps every field at its default |
| Step.IntendedReadsStepElement | mazeNavigation/src/edu/ucf/eplex/mazeNavigation/util/Step.java:31-35 | with the intended guard a "step" element in any case is read, its id from the attribute |
| Step.AsWrittenNeverSetsChampFitness | mazeNavigation/src/edu/ucf/eplex/mazeNavigation/util/Step.java:36-45 | champFitness and speciesCount are never changed by any children |
| Step.IntendedCountersRead | mazeNavigation/src/edu/ucf/eplex/mazeNavigation/util/Step.java:40-45 | with the intended tags, the last champFitness and species children set those fields |
| Step.LastChildWins | mazeNavigation/src/edu/ucf/eplex/mazeNavigation/util/Step.java:35-49 | the last action, evaluations or archive child sets its field; without one the field is unchanged |
| Step.ChromosomesInOrder | mazeNavigation/src/edu/ucf/eplex/mazeNavigation/util/Step.java:46-47 | one record per chromosome child, appended after those there, each with only defaults; the id is unchanged |
| Step.Step.constructor | mazeNavigation/src/edu/ucf/eplex/mazeNavigation/util/Step.java:31-52 | the sibling loop yields Read of the element |
| Step.Step.SetId | mazeNavigation/src/edu/ucf/eplex/mazeNavigation/util/Step.java:54-56 | the id changes, to i, exactly when i >= 0 |
| Step.Chromosome.constructor | mazeNavigation/src/edu/ucf/eplex/mazeNavigation/util/Step.java:98-119 | the record, and the write to the enclosing step's id, are ReadChromosome's |

## Left out

- Text.EqualsIgnoreCase: two characters both outside ASCII (such as é against É) are compared unfolded, where String.equalsIgnoreCase would match them; every comparison in the source has an ASCII tag or name on one side, and there the fold agrees with Java.

- Swing/AWT rendering, `paintComponent`, `repaintAllPanels`, `getPhenotypeBehavior`, `getPhenotypeBehaviorCurrent` and the domain options panel: these are user interface only.
- `main` and the reading of `Properties` in `init`: this is I/O. The resulting map name, step budget, goal threshold and strategy name are the `Config` given to the constructor.
- `Environment`, `ANN_Behavior`, the maze geometry, `Robot.RADIUS` and `FastestEuclidianDistance` are not part of this model. They appear as oracles: the `robotAt` step function, the `World` distance and radius, and the `fastestFitness` score.
- The novelty metric (its scoring, threshold and archive) is a foreign collaborator. Only its calls are recorded, in `noveltyScored`.
- `getNoveltyThreshold`, `setNoveltyThreshold` and `getNoveltyArchiveSize` only delegate to the novelty metric.
- `BehaviorVector`: `allPoints` records the endpoint position itself.
- A candidate's fitness value and solution flag live on the foreign `Candidate` object. Here they are the side tables `fitnessValues` and `solutions`.
- Logging through `System.out.println` is left out, as is the unused private `calculateFitness_old`.
- `volatile` on the time cursor is a concurrency concern. The cursor is a plain field.
- Java `double` arithmetic is modelled with exact `real` arithmetic.
- MazeNavigationDomain.MazeNavigationDomain.Step: does not model the 32-bit wrap-around of the time cursor, because the cursor is an unbounded integer.
- IecStep timing is left out: `setAction`'s evaluation time, `recordEndOfStep`, `getRuntime` and `getIecEvalTime` read the wall clock. The clock reading at construction is a constructor parameter.
- IecStep's one-line getters and setters are left out.
- `Chromosome.toXml` is foreign and is the `chromosomeXml` parameter of `ToXml`.
- `new Chromosome(Node)` is foreign. A loaded step's chromosomes are the elements they are read from, and `isSolution` is a parameter.
- `StepType.valueOf` is the set of known constant names given to the reader, because the enumeration is not part of this model.
- IecStepLoad.LoadStep: returns the fields a loaded step ends with as a value, not an `IecStep` object, and does not read back the timing fields.
- IecStepLoad.LoadFromXml: implements the corrected chromosome loop only. The loop as written is the `AsWritten` variant of `LoadStep` (see Findings).
- An XML element is its name, attributes, text and element children. Whitespace text nodes are left out: their names match no tag, so every loop skips them.
- `Util.getLong` is not part of this model. Its two forms are the `getLong` and `getAttribute` parameters of the `Step` reader.
- The `Action` enumeration of the replay step is not part of this model. It is taken to hold FITNESS, NOVELTY, STEP and UNDEFINED.
- Step.Chromosome.constructor: the guard never passes for a dispatched child, so the corrected chromosome reader is not modelled. Correcting the guard alone would let the reader overwrite the enclosing step's id.

## Findings

| source | as written | input that shows it | evidently intended | confidence | as-written member | corrected member |
|---|---|---|---|---|---|---|
| naiecFramework/src/edu/ucf/eplex/naiecFramework/controller/IecStep.java:258-267 | for each chromosome child, the inner loop walks all of the step's children again and adds every chromosome element | a step with chromosome children a, b loads the population [a, b, a, b] | each chromosome child is added once, giving [a, b] | not executed | IecStepLoad.ChromosomeStepAsWritten | IecStepLoad.ChromosomeStepCorrected |
| mazeNavigation/src/edu/ucf/eplex/mazeNavigation/util/Step.java:32 | the guard compares the element's name with the literal text "STEP_TAG" instead of the constant STEP_TAG ("step") | a `<step id="3"><action>fitness</action></step>` element reads as all defaults | a step element named "step" is read | not executed | Step.AsWrittenIgnoresStepTag | Step.IntendedReadsStepElement |
| mazeNavigation/src/edu/ucf/eplex/mazeNavigation/util/Step.java:74-76 | CHAMP_FITNESS_TAG and SPECIES_TAG are both "action", so their branches sit behind the action branch and never run | a step with a `<champFitness>` or `<species>` child keeps champFitness and speciesCount at 0 | each counter is read from its own element | not executed | Step.AsWrittenNeverSetsChampFitness | Step.IntendedCountersRead |
