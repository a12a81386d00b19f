# chibi19_a navigation core in Dafny

This project models the two planners of the chibi19_a Roomba navigation stack.

**The A\* global planner** (`src/a_star.cpp`):
- it loads the occupancy grid once;
- it fills a Manhattan-distance heuristic table for each goal;
- it runs a 4-connected A\* search that closes cells when they are generated;
- it walks the recorded moves back from the goal to rebuild the path;
- it appends that segment to the accumulated global path and thins the path to every eighth pose;
- before all of this, it rotates the landmark tour to start near the robot (`set_waypoint`).

**The dynamic-window local planner** (`src/o_dwa.cpp`):
- it normalises angles;
- it intersects the static and the reachable velocity windows;
- it simulates one trajectory per velocity command;
- it scores each trajectory by speed, path heading and obstacle cost;
- it picks the strictly cheapest command, skipping turn rates in a dead band around zero;
- it falls back to turning in place when nothing scores 999 or less;
- it reports arrival at the goal (`is_goal`).

The modules follow the two source files:

| module | file | content |
|---|---|---|
| `Wrappers` | `wrappers.dfy` | `Option` |
| `Angles` | `angles.dfy` | `angle_range`, π |
| `GridCells` | `grid_cells.dfy` | cells, the four-move table `delta`, the map storage index, a bound on cell sets |
| `PathSampling` | `path_sampling.dfy` | path poses and `sampling_path`, corrected and as written |
| `Tour` | `tour.dfy` | `set_waypoint` |
| `AStar` | `astar.dfy` | class `Planner`; its methods model `map_callback`, `get_heuristic`, `search_path` and `sampling_path`, which update its fields in place |
| `DwaModel` | `dwa_model.dfy` | parameters, `calc_dynamic_window`, `motion`, `calc_l_traj`, `calc_speed_cost` |
| `DwaPathCost` | `dwa_path_cost.dfy` | `calc_to_g_path_cost` |
| `DwaSelection` | `dwa_control.dfy` | `dwa_control` |
| `DwaGoal` | `dwa_goal.dfy` | `is_goal`, corrected and as written |

Other modelling choices:
- Floating-point values are real numbers.
- A grid cell is a pair of integers.
- A path pose is a cell plus a symbolic heading: one of
  - the yaw of a move-table row,
  - the bearing between two cells, or
  - no move.

  The world coordinates (`cell * resolution + origin`) and the quaternion are left out.
- The trigonometric functions are parameters of the model (`DwaModel.Geometry`).
- So are the heading cost `calc_to_g_goal_cost` (`DwaPathCost.ToGoalCost`) and the obstacle cost `calc_l_ob_cost` (`DwaSelection.ObstacleCost`).

Two places where the model keeps the code's behaviour over the usual conventions:
- The map is read with index `row + rows * col`, where rows is the map height and cols its width. A `nav_msgs/OccupancyGrid` message stores its data row-major: index k holds the world cell x = k % width, y = k / width. The code thus reads the row-major data column by column, and the search indexes the grid as `grid[x][y]`.
  - On a square map, grid cell (x, y) is the world cell (x, y) (`GridCells.MapIndexSquare`).
  - On a map whose height and width differ, the cells are scrambled. For example, with height 2 and width 3, `grid[0][1]` reads `data[2]`, which is world cell (2, 0) (`GridCells.MapIndexNonSquare`).

  The model keeps the code's index.
- The look-ahead index of `calc_to_g_path_cost` is taken modulo the unsigned size type. A negative sum therefore wraps around 2^64 rather than going negative.

## Model

| member | source | states |
|---|---|---|
| Angles.AngleRange | src/o_dwa.cpp:67-75 | The result differs from the input by 0 or ±2π. Inputs in [-3π, 3π] end in [-π, π], and inputs already in [-π, π] are kept. |
| Angles.AngleRangeIdempotent | src/o_dwa.cpp:67-75 | On [-3π, 3π], applying the correction twice equals applying it once. |
| Angles.AngleRangeSingleCorrection | src/o_dwa.cpp:67-75 | Outside [-3π, 3π] the single correction leaves the angle outside [-π, π]. |
| Angles.AngleRangeOdd | src/o_dwa.cpp:67-75 | Normalising -θ gives minus the normalisation of θ. |
| GridCells.Neighbour | src/a_star.cpp:183-192 | Every row of the move table leads to a cell at Manhattan distance 1. |
| GridCells.Back | src/a_star.cpp:259-261 | Stepping back by move i from c gives the cell from which move i reaches c. |
| GridCells.MoveBetween | src/a_star.cpp:183-192 | Every adjacent cell is reached by one of the four moves. |
| GridCells.MapIndexInRange | src/a_star.cpp:91-95 | For an in-range cell, the index `row + rows*col` lies inside the `rows*cols` map buffer. |
| GridCells.MapIndexInjective | src/a_star.cpp:93 | Different in-range cells read different buffer entries. |
| GridCells.MapIndexCovers | src/a_star.cpp:93 | Every buffer entry is read by the cell `(k % rows, k / rows)`. |
| GridCells.MapIndexSquare | src/a_star.cpp:91-93 | On a square map, grid cell (x, y) reads the world cell (x, y) of the row-major message. |
| GridCells.MapIndexNonSquare | src/a_star.cpp:91-93 | When height and width differ (width ≥ 2), grid cell (0, 1) reads a different world cell of the message. |
| GridCells.CellSetBound | src/a_star.cpp:194-196 | A set of in-range cells has at most `rows*cols` elements. This bounds how many cells the search can close. |
| PathSampling.SampleFromShape | src/a_star.cpp:290-303 | From iteration q on, sampling yields one pose per remaining iteration, then the final dense pose with the previous heading. Each sample is oriented toward the pose eight ahead, or toward the last pose. |
| PathSampling.SampledShape | src/a_star.cpp:279-304 | For a non-empty dense path, the sparse path has `ceil(n/8) + 1` poses. Sample j is dense pose 8j, with every index inside the path. The last sample is the dense path's final pose. |
| PathSampling.SampledEmpty | src/a_star.cpp:281-290 | An empty dense path gives an empty sparse path. |
| PathSampling.LastBearingReadPastEnd | src/a_star.cpp:290-293 | As written, the last bearing read of every non-empty path is at index ≥ n, past the end. |
| PathSampling.AsWrittenDropsEndOnMultiple | src/a_star.cpp:298-302 | As written, when n is a multiple of 8 the last pose copied is n-8 and the final pose n-1 is never appended. |
| Tour.FirstMinimum | src/a_star.cpp:112-119 | The chosen index holds the least distance, and every earlier index is strictly farther. |
| Tour.TourStart | src/a_star.cpp:121-123 | The start is the nearest landmark or its cyclic successor, and it is always a valid index. |
| Tour.RotateAt | src/a_star.cpp:125-128 | Entry k of the rotation starting at n is landmark `(n + k) % waycount`. |
| Tour.RotatePermutation | src/a_star.cpp:125-128 | A rotation is a permutation of the landmarks. |
| Tour.TourVisitsEachLandmarkOnce | src/a_star.cpp:102-135 | The new tour has `waycount + 2` entries. The robot is first and last. The landmarks in between are a permutation of the first `waycount` landmarks, starting at the chosen one. |
| Tour.Nearest | src/a_star.cpp:108-119 | The first loop yields exactly the distance list and its first minimum. |
| Tour.ChooseStart | src/a_star.cpp:108-123 | The loop plus the successor adjustment yields `TourStart`. |
| Tour.SetWaypoint | src/a_star.cpp:102-135 | The landmark vector is replaced by `TourOf(robot, waycount, landmarks)`, whose shape `TourVisitsEachLandmarkOnce` states. |
| AStar.MinIndex | src/a_star.cpp:210-214 | The popped node has the least f of the open list. |
| AStar.RemoveAt | src/a_star.cpp:213-214 | Popping removes exactly that node and keeps the others in order. |
| AStar.LoadGrid | src/a_star.cpp:90-95 | A fresh `height × width` grid whose cell (r, c) holds `data[r + height*c]`. Every index read is inside the data. |
| AStar.Close | src/a_star.cpp:239 | After marking n, the closed mask holds exactly the previously closed cells plus n. |
| AStar.Planner.constructor | src/a_star.cpp:59-70 | No map yet, with empty global and sampled paths. |
| AStar.Planner.MapCallback | src/a_star.cpp:80-100 | If a map was already received, nothing changes. Otherwise the grid is the map data under index `row + rows*col`, the heuristic table is all zero, the planner is marked as having a map, and the paths are unchanged. |
| AStar.Planner.GetHeuristic | src/a_star.cpp:137-144 | Every entry becomes the Manhattan distance of its cell to the goal. |
| AStar.Planner.SegmentIsFreeWalk | src/a_star.cpp:249-270 | The cells of a reconstructed segment form a walk of unit moves through free cells from start to goal. |
| AStar.Planner.NoFreeWalk | src/a_star.cpp:204-208 | A cell set that contains the start, is closed under moves to free neighbours and misses the goal admits no free walk from start to goal. |
| AStar.Planner.Record | src/a_star.cpp:240 | The new cell's action entry becomes the move index i, and every other entry is unchanged. Every generated cell still links back to a generated cell whose g is one less. |
| AStar.Planner.Generate | src/a_star.cpp:226-241 | Generating neighbour n closes it, gives it g + 1, records move i as its action entry, and appends the node (g+1+h, g+1, h, n) to the open list. The search invariant is kept. |
| AStar.Planner.ClosureAfterExpand | src/a_star.cpp:223-244 | After an expansion, every generated cell that is no longer open has all its free neighbours generated and is not the goal. |
| AStar.Planner.TryMove | src/a_star.cpp:224-243 | Trying move i keeps the search invariant and the expansion bookkeeping. The free neighbours reached by the first i+1 moves are then generated. |
| AStar.Planner.SkipMove | src/a_star.cpp:226-227 | An out-of-grid, closed or occupied neighbour needs no generation. |
| AStar.Planner.Advance | src/a_star.cpp:227-241 | Same as TryMove, for a move that generates its neighbour. |
| AStar.Planner.Expand | src/a_star.cpp:222-245 | After expanding a popped non-goal node, all its free neighbours are generated, the node is not open again, and the invariants hold. Open list and closed set grow by the same amount and stay within `rows*cols`. |
| AStar.Planner.Start | src/a_star.cpp:164-200 | Only the start is closed, with g = 0. The only open node is the start, with f = h = its heuristic entry. |
| AStar.Planner.Step | src/a_star.cpp:209-245 | One loop iteration keeps the invariants. When it reports the goal, the goal has been generated. |
| AStar.Planner.Search | src/a_star.cpp:204-247 | The loop terminates after at most `rows*cols` pops. On success the goal is generated and linked back to the start. On failure no free walk joins start and goal. The goal need not lie on the grid; if it does not, it is never generated. |
| AStar.Planner.Reconstruct | src/a_star.cpp:249-270 | The walk back yields a segment from start to goal of `g(goal) + 1` poses. Each pose is headed along its move, and every cell after the start is free. The goal's action entry is not a move index exactly when start and goal coincide. As written, the move table is then read out of range. |
| AStar.Planner.SearchPath | src/a_star.cpp:146-277 | The heuristic table is rebuilt for the goal, which need not lie on the grid. On failure both paths are unchanged and no free walk exists. On success the old path is a prefix, the rest is a segment from start to goal, and the sampled path is resampled from the whole path. |
| AStar.Planner.AppendSegment | src/a_star.cpp:270-273 | The global path becomes old path plus segment, and the sampled path is resampled from it. |
| AStar.Planner.SamplingPath | src/a_star.cpp:279-304 | The sampled path becomes `Sampled(gpath)`, whose shape `SampledShape` states. |
| DwaModel.CalcDynamicWindow | src/o_dwa.cpp:109-131 | The window lies inside both the static and the reachable window. Each bound is one of theirs. A command is in it exactly when it is in both. |
| DwaModel.CurrentSpeedInWindow | src/o_dwa.cpp:109-131 | With non-negative limits, a current command inside the static limits is inside the dynamic window. |
| DwaModel.MotionKeepsYawInRange | src/o_dwa.cpp:98-107 | A yaw in [-π, π] stays there after a turn of at most 2π. |
| DwaModel.Rollout | src/o_dwa.cpp:134-145 | A trajectory is never empty and starts at the all-zero state. |
| DwaModel.RolloutFromShape | src/o_dwa.cpp:139-143 | From state s at time t, each entry is one motion step from the previous one. Steps are taken only while the time is below the horizon, and the last entry is at or past it. |
| DwaModel.RolloutShape | src/o_dwa.cpp:134-145 | calc_l_traj's result is as in RolloutFromShape, from the origin at time 0. It has more than one entry exactly when `predict_time > 0`, and every entry after the first carries the command's velocities. |
| DwaModel.CalcLTraj | src/o_dwa.cpp:134-145 | The loop's trajectory equals `Rollout`. |
| DwaModel.SpeedCostOfCommand | src/o_dwa.cpp:213-220 | For a positive horizon the speed cost of a command's trajectory is `speed_gain·(max_speed − v) + omega_gain·|ω|`. Otherwise it is that of the zero state. |
| DwaModel.SpeedCostFasterCheaper | src/o_dwa.cpp:213-220 | With a non-negative speed gain, a faster command never costs more. |
| DwaModel.SpeedCostStraightCheaper | src/o_dwa.cpp:213-220 | With a non-negative turn gain, going straight never costs more than turning. |
| DwaPathCost.Nearest | src/o_dwa.cpp:186-200 | The kept distance is at most 10000² and at most every entry. Either nothing is nearer than 10000 and index 0 is kept, or the index is the first strict minimum below 10000. |
| DwaPathCost.NearestInRange | src/o_dwa.cpp:191-200 | On a non-empty path the nearest index is a valid index. |
| DwaPathCost.NearestPathPoint | src/o_dwa.cpp:186-200 | The scan loop yields `Nearest` of the distances. |
| DwaPathCost.TruncToInt | src/o_dwa.cpp:203 | `(int)` truncates toward zero: the result is within 1 of x, on x's side of zero. |
| DwaPathCost.LookAheadIndex | src/o_dwa.cpp:203 | There is an index exactly when the path is non-empty, and then it is below the size, even for a negative horizon. |
| DwaPathCost.LookAheadCyclic | src/o_dwa.cpp:203 | Without wrap-around the look-ahead is `(nearest + floor(predict_time)) mod size`. |
| DwaPathCost.LookAheadFullLap | src/o_dwa.cpp:203 | A horizon of exactly one lap looks at the nearest point itself. |
| DwaPathCost.LookAheadNegativeWraps | src/o_dwa.cpp:203 | A sum `s` with `-2^64 <= s < 0` gives the index `(2^64 + s) mod size`. |
| DwaPathCost.LookAheadPoint | src/o_dwa.cpp:203-206 | There is a target exactly when the path is non-empty, and the target is a point of the path. |
| DwaPathCost.CalcToGPathCost | src/o_dwa.cpp:181-210 | The cost is the heading cost toward the look-ahead point (`PathCost`). |
| DwaSelection.Evaluate | src/o_dwa.cpp:330-337 | The loop body's cost of (v, y), built from `calc_l_traj`, the speed cost, the obstacle cost and the path cost, is `Eval`: their sum, and infinite when the obstacle cost is. |
| DwaSelection.DeadBandMagnitude | src/o_dwa.cpp:315-327 | A turn rate is skipped exactly when it is non-zero and its magnitude is below a tenth of `max_yawrate`. Zero is never skipped. |
| DwaSelection.StepsInRange | src/o_dwa.cpp:323-325 | Every value a stepped loop visits lies in [lo, hi]. It visits none exactly when lo > hi, and visits lo first otherwise. |
| DwaSelection.RowMembers | src/o_dwa.cpp:325-327 | The inner loop scores exactly the commands with speed v and a visited turn rate outside the dead band. |
| DwaSelection.GridMembers | src/o_dwa.cpp:323-327 | Both loops together score exactly the visited speeds × the visited turn rates outside the dead band. |
| DwaSelection.CandidatesInWindow | src/o_dwa.cpp:322-327 | The scored commands are exactly the grid points of the dynamic window outside the dead band, and all lie in the window. |
| DwaSelection.PickSpec | src/o_dwa.cpp:352-360 | The strict-less-than update over a command sequence either keeps the start when nothing is cheaper, or ends with the first command of least finite cost, together with that cost. |
| DwaSelection.PickAppend | src/o_dwa.cpp:323-362 | Scoring a+b is scoring a and then scoring b from where a stopped. |
| DwaSelection.DwaSelectSpec | src/o_dwa.cpp:305-370 | The turn-in-place command (0, 0.2) is returned when no scored command costs 999 or less. Otherwise the result is the first scored command of least finite cost below 1000, which lies in the window, is outside the dead band and has finite cost. |
| DwaSelection.InfiniteCostNeverSelected | src/o_dwa.cpp:352-367 | A command whose trajectory collides is returned only if it is the fallback command. |
| DwaSelection.DwaControl | src/o_dwa.cpp:305-370 | The two stepped loops, the dead band and the fallback compute `DwaSelect`, whose meaning `DwaSelectSpec` states. |
| DwaSelection.ScoreTurnRates | src/o_dwa.cpp:325-361 | The inner loop folds the strict update over the row of commands at speed v. |
| DwaSelection.ScoreCommand | src/o_dwa.cpp:330-360 | Scoring one command performs exactly one strict-less-than update. |
| DwaSelection.InnerStep | src/o_dwa.cpp:325-327 | One pass of the inner loop uses up one step, and skips its turn rate exactly in the dead band. |
| DwaGoal.IsGoalAsWritten | src/o_dwa.cpp:373-388 | The code is 0 or 11. |
| DwaGoal.IsGoalAsWrittenAcceptsMisaligned | src/o_dwa.cpp:378-384 | As written, a robot on the goal position but a quarter turn off the goal heading is reported as arrived. |
| DwaGoal.IsGoal | src/o_dwa.cpp:373-388 | The corrected test's code is 0 or 11. |
| DwaGoal.IsGoalSymmetric | src/o_dwa.cpp:378-382 | Corrected: swapping robot and goal headings does not change the answer. |
| DwaGoal.IsGoalStricterThanAsWritten | src/o_dwa.cpp:378-384 | For a heading error in [-π, π], the corrected test accepts only robots that the test as written accepts. The two differ exactly on robots within the radius whose heading error is at or below -π/90. |
| DwaGoal.HeadingAlignedFullTurn | src/o_dwa.cpp:378-382 | Corrected: heading errors a full turn apart are judged alike. |
| DwaGoal.IsGoalAtGoal | src/o_dwa.cpp:373-388 | A robot on the goal pose has arrived exactly when the radius is not negative. |
| DwaGoal.IsGoalRejectsMisaligned | src/o_dwa.cpp:378-384 | Corrected: the quarter-turn-off robot is not reported as arrived. |

## Left out

- `calc_l_ob_cost` (src/o_dwa.cpp:223-302): the polar clearance geometry over the laser scan is not modelled. It is a parameter that returns a finite cost or infinity. A zero or NaN `min_dist` is therefore not represented.
- `calc_to_g_goal_cost` (src/o_dwa.cpp:147-179): the frame transform with sqrt, atan, cos and sin is a parameter.
- `atan` (src/o_dwa.cpp:77-95): it is used only inside the two cost functions above.
- `motion`: the position update uses the uninterpreted cos and sin of `Geometry`. Only the yaw and velocity updates are stated.
- Floating point: doubles and floats are reals, so rounding and the accumulated error of the stepped loops are not modelled.
- DwaSelection.DwaControl: it requires a non-empty global path. The source takes the remainder by the path size for every scored command, and divides by zero on an empty path unless no command is scored.
- DwaModel.CalcLTraj: it requires `dt > 0`. DwaSelection.DwaControl requires `dt`, `dv` and `dyaw` to be positive. With other values the source's stepped loops may not terminate. The parameter defaults of 0 (src/o_dwa.cpp:439-441) are such values.
- DwaModel.CalcLTraj: it returns the trajectory instead of clearing and refilling the vector passed by reference.
- World-to-cell conversion: `floor((x - origin) / resolution)` (src/a_star.cpp:149-152) is not modelled. AStar.Planner.SearchPath takes start and goal cells and requires the start to lie on the grid. The source indexes `closed` at the start cell, out of bounds otherwise. The goal may lie anywhere.
- Non-square maps: the model keeps the code's map index, which scrambles them. It does not model a corrected, world-indexed grid.
- Pose output: the world coordinates of poses, quaternions, `tf::getYaw` and headers are not modelled. Headings are symbolic.
- AStar.Planner.Search: it does not claim that the path is shortest. Cells are closed when generated, so the search is not guaranteed optimal.
- AStar.Planner.Search: among nodes of equal f, the node std::sort leaves last is not determined. The model pops some node of least f.
- The action table is stored as `int`, not `char`. Its values are only -1..3.
- `int` overflow of `(int)predict_time`, and of the search's g and f values, is not modelled.
- ROS plumbing is not modelled: publishers, subscribers, `amcl_callback`, `pub_path`, parameter loading and the `main` loops of both nodes.
- `scripts/` and `src/scan_test.cpp` are not part of this model.

## Findings

| source | as written | input that shows it | evidently intended | confidence | as-written member | corrected member |
|---|---|---|---|---|---|---|
| src/a_star.cpp:290-293 | the bearing of sample i reads pose `i + 8` | any non-empty path: the last iteration reads at index ≥ size | look at most at the last pose | not executed | PathSampling.LastBearingReadPastEnd | PathSampling.SampledShape |
| src/a_star.cpp:298 | the final pose is appended only when `i + 8 > size` | a path of 8 poses: the final pose is never appended | `i + 8 >= size` | not executed | PathSampling.AsWrittenDropsEndOnMultiple | PathSampling.SampledShape |
| src/a_star.cpp:256 | the goal pose's yaw is `delta[action[goal]][2]` | start equal to goal: `action[goal]` is -1, so `delta[-1]` is read | no move into the goal, so no move yaw | not executed | AStar.Planner.Reconstruct | AStar.Planner.SearchPath |
| src/o_dwa.cpp:378-382 | the heading test is `goal.yaw - roomba.yaw < π/90`, signed | robot yaw π/2 at goal yaw 0: reported as arrived | `fabs(angle_range(error)) < π/90`, as in calc_to_g_goal_cost | not executed | DwaGoal.IsGoalAsWrittenAcceptsMisaligned | DwaGoal.IsGoalSymmetric |
