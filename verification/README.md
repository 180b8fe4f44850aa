# Snake agent: food targeting

A Dafny model of the food-targeting logic of the snake-playing `Agent` in
`agent.py`. Each turn the game engine hands the agent a board: a
two-dimensional list of `GameObject` cells (agent.py:17-18). The agent scans
the board for food, picks the food location closest to the snake's head, and
answers with a relative `Move`.

- `gameobjects.dfy` (module `GameObjects`): the cell kinds `Empty`, `Food`,
  `Wall`, `SnakeHead`, `SnakeBody`.
- `move.dfy` (module `Moves`): the relative moves `Left`, `Straight`, `Right`
  and the directions `North`, `South`, `East`, `West`.
- `agent.dfy` (module `Agent`): the agent's operations.
  - `GetFood` is the nested scan loop. It is proved equal to the specification
    function `FoodLocations`. Lemmas about that function show it lists exactly
    the food cells, in scan order, without duplicates.
  - `GetClosestFood` is the running-minimum loop. Its contract gives the
    `None` case and the closest location. On ties it keeps the first minimal
    location in scan order.
  - `HeuristicToFood` is the distance heuristic.
  - `GetMoveAsWritten`, `GetMove`, `ShouldRedrawBoard` and
    `ShouldGrowOnFoodCollision` model the engine-facing hooks.

The `Agent` class has no fields; `__init__` is empty. So its methods are
modelled as module-level functions and methods, not as a class.

Three modelling choices:

- **Board indexing.** The docstrings say a cell is read as `board[x][y]`
  (agent.py:17-18, agent.py:97-98). The scan actually reads `board[y][x]`
  (agent.py:105), and it bounds `y` by `len(board[x])` (agent.py:104). The model
  follows the code. `ScannedAsFood` reads `board[p.y][p.x]`. `ScanReadsRowFirst`
  shows the effect: food stored at `board[0][1]` is reported as `(1, 0)`.
- **Board shape.** Every operation requires `ScanStaysInRange`. It says that each
  read `board[y][x]` the scan makes at line 105 is in range. This is an
  assumption of the model; the source does not promise it. Square boards
  satisfy it. So do some jagged boards, such as `[[EMPTY, FOOD], [EMPTY]]`, and
  boards of empty rows, such as `[[], []]`. On a rectangular board with at least
  one row and one column it holds exactly when the board is square
  (`RectangularInRangeIffSquare`). On boards where it fails, the source raises
  IndexError.
- **Distance.** The source returns `math.sqrt(dx**2 + dy**2)` as a float. The
  model's `HeuristicToFood` returns the integer `dx*dx + dy*dy`. The square root
  is strictly increasing on non-negative numbers. `SqrtPreservesOrder` proves
  this over exact reals: two roots compare with `<` and `==` exactly as their
  squares do. So the strict `<` at agent.py:122 picks the same location either
  way, and ties stay ties.

## Model

| member | source | states |
|---|---|---|
| `Agent.GetFood` | agent.py:102-107 | the scan returns `FoodLocations(board)`. A location is in the result exactly when `0 <= x < len(board)`, `0 <= y < len(board[x])` and `board[y][x]` is FOOD. Results are strictly in scan order |
| `Agent.ScanFromMembership` | agent.py:103-106 | from any point `(x, y)`, the remaining scan lists exactly the food cells at or after `(x, y)` in scan order |
| `Agent.ScanFromOrdered` | agent.py:103-106 | from any point `(x, y)`, the remaining scan appends locations in strictly ascending scan order |
| `Agent.FoodLocationsExact` | agent.py:102-107 | a location is listed if and only if the scan reads FOOD there; none is missed and none is extra |
| `Agent.FoodLocationsInScanOrder` | agent.py:103-106 | listed locations ascend by `x`, and by `y` within the same `x` |
| `Agent.FoodLocationsDistinct` | agent.py:103-106 | no location is listed twice |
| `Agent.NoFoodIffEmpty` | agent.py:102-107 | the list is empty if and only if no cell the scan reads is FOOD |
| `Agent.ScanReadsRowFirst` | agent.py:104-105 | an example, not a general property: on the jagged board `[[EMPTY, FOOD], [EMPTY]]` every read is in range, and food stored at `board[0][1]` is reported as `(1, 0)`, because the scan reads `board[y][x]` |
| `Agent.RectangularInRangeIffSquare` | agent.py:103-105 | on a board whose inner lists all have the same positive length, every read of the scan is in range if and only if the board is square |
| `Agent.HeuristicToFood` | agent.py:136 | the squared distance is zero exactly when the two points coincide. It is at least the absolute difference of either coordinate, so it is non-negative |
| `Agent.HeuristicSymmetric` | agent.py:136 | the heuristic is the same with its two arguments swapped |
| `Agent.SqrtPreservesOrder` | agent.py:136 | for exact non-negative square roots `r1`, `r2` of `n1`, `n2`: `r1 < r2` if and only if `n1 < n2`, and `r1 == r2` if and only if `n1 == n2`. So ranking by squared distance equals ranking by Euclidean distance |
| `Agent.FirstClosestUnique` | agent.py:120-124 | at most one index of the food list is the first index with the least heuristic, so the selection is determined |
| `Agent.FirstClosestOnBoard` | agent.py:117-125 | the first closest entry of the food list is a food cell. It is no farther than any food cell and strictly closer than every food cell scanned before it |
| `Agent.GetClosestFood` | agent.py:109-125 | returns `None` if and only if there is no food. Otherwise it returns the first index of `get_food`'s list with the least heuristic to the head, because the update uses a strict `<`. That location is a food cell no farther than any food cell. Every food cell scanned before it is strictly farther |
| `Agent.GetMoveAsWritten` | agent.py:52-54 | `get_move` as written raises a TypeError if and only if no cell the scan reads is FOOD. Otherwise it returns STRAIGHT |
| `Agent.EmptyCellBoardHasNoFood` | agent.py:52-53 | an example, not a general property: the 1×1 board holding EMPTY is in range and has no food, so `get_move` as written raises on it |
| `Agent.GetMove` | agent.py:54 | `get_move` as intended always returns STRAIGHT |
| `Agent.ShouldRedrawBoard` | agent.py:64 | always true |
| `Agent.ShouldGrowOnFoodCollision` | agent.py:73 | always true |

## Findings

| source | as written | input that shows it | evidently intended | confidence | as-written member | corrected member |
|---|---|---|---|---|---|---|
| agent.py:52-54 | The debug print on line 53 calls `heuristic_to_food(head_position, get_closest_food(...))`. When the board holds no food, `get_closest_food` returns `None`, and `food_location[0]` raises TypeError. So `get_move` returns no move. The docstring (agent.py:13-15) says the snake then dies | any in-range board with no FOOD cell, e.g. the 1×1 board `[[EMPTY]]` | `get_move` returns STRAIGHT on every board; the prints are only diagnostics | high (not executed) | `Agent.GetMoveAsWritten` | `Agent.GetMove` |

## Left out

- `make_route` (agent.py:138-147) has a docstring and no body. No route search is modelled, and neither are direction translation or fallback moves, which have no code.
- `on_die` (agent.py:75-91) and `__init__` (agent.py:8-9) have empty bodies, so there is nothing to model.
- The `print` calls in `get_move` (agent.py:52-53) are console output. `GetMoveAsWritten` keeps only the calls whose failure affects the result.
- `get_move` ignores `score`, `turns_alive`, `turns_to_starve`, `direction` and `body_parts`. The model takes them as parameters and does not use them either.
- Floating point: `HeuristicToFood` is the integer squared distance, not the float `math.sqrt` result. Float rounding is not modelled. From 2^52 on, distinct squared distances can have equal float square roots. For example, `math.sqrt` gives 2^26 for both 2^52 and 2^52+1. With the head at (0, 0) and food at (1, 2^26) and (2^26, 0), the source keeps the earlier (1, 2^26), but `GetClosestFood` returns (2^26, 0).
- HeuristicToFood: the triangle inequality of the Euclidean distance is not stated. It does not hold for the squared distance that the model uses.
- Out-of-range boards: when some read `board[y][x]` at agent.py:105 is out of range, `get_food` raises IndexError. This happens, for example, on every rectangular non-square board with at least one row and one column. The model requires `ScanStaysInRange` and does not model that error.
- The `gameobjects` and `move` modules are not part of this model. `GameObject`, `Move` and `Direction` are plain datatypes. Their constructors are the ones the docstrings list: agent.py:19-22 for `GameObject`, agent.py:36-37 for `Direction` and agent.py:46-47 for `Move`. Python's identity test `is GameObject.FOOD` is modelled as equality.
