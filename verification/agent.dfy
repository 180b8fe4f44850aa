/** The food-targeting logic of the snake agent: scanning the board for food,
    choosing the closest food location, and the distance heuristic. */
module Agent {
  import opened GameObjects
  import opened Moves

  /** Python's `None` or a value. */
  datatype Option<T> = None | Some(value: T)

  /** The exception a Python call can raise in this model. */
  datatype Exception = TypeError

  /** A Python call either returns a value or raises. */
  datatype Outcome<T> = Returned(value: T) | Raised(error: Exception)

  /** An `(x, y)` tuple. */
  datatype Position = Position(x: int, y: int)

  /** The board as the engine hands it over: a list of lists of cells. */
  type Board = seq<seq<GameObject>>

  /** Every read `board[y][x]` the scan makes, for `0 <= x < len(board)` and
      `0 <= y < len(board[x])`, is in range: no inner list is longer than the
      outer one, so `board[y]` exists, and `board[y]` is longer than `x`.
      Square boards satisfy this, and so do some jagged ones; on any other
      board the scan raises IndexError. */
  predicate ScanStaysInRange(board: Board)
  {
    (forall x :: 0 <= x < |board| ==> |board[x]| <= |board|) &&
    (forall x, y :: 0 <= x < |board| && 0 <= y < |board[x]| ==> x < |board[y]|)
  }

  /** `(x, y)` is a location the scan visits and the cell it reads there,
      `board[y][x]`, holds food. */
  predicate ScannedAsFood(board: Board, p: Position)
    requires ScanStaysInRange(board)
  {
    0 <= p.x < |board| && 0 <= p.y < |board[p.x]| && board[p.y][p.x] == Food
  }

  /** `p` is visited strictly before `q`: ascending `x`, then ascending `y`. */
  predicate ScanBefore(p: Position, q: Position)
  {
    p.x < q.x || (p.x == q.x && p.y < q.y)
  }

  /** The food locations the scan appends from `(x, y)` onward, in the order it
      appends them. */
  function ScanFrom(board: Board, x: nat, y: nat): seq<Position>
    requires ScanStaysInRange(board)
    requires x <= |board| && (x < |board| ==> y <= |board[x]|)
    decreases |board| - x, if x < |board| then |board[x]| - y else 0
  {
    if x == |board| then []
    else if y == |board[x]| then ScanFrom(board, x + 1, 0)
    else (if board[y][x] == Food then [Position(x, y)] else []) + ScanFrom(board, x, y + 1)
  }

  /** Every food location of the board, in scan order. */
  function FoodLocations(board: Board): seq<Position>
    requires ScanStaysInRange(board)
  {
    ScanFrom(board, 0, 0)
  }

  /** The scan from `(x, y)` lists exactly the food cells at or after `(x, y)`. */
  lemma {:induction false} ScanFromMembership(board: Board, x: nat, y: nat, p: Position)
    requires ScanStaysInRange(board)
    requires x <= |board| && (x < |board| ==> y <= |board[x]|)
    ensures p in ScanFrom(board, x, y) <==>
              ScannedAsFood(board, p) && !ScanBefore(p, Position(x, y))
    decreases |board| - x, if x < |board| then |board[x]| - y else 0
  {
    if x == |board| {
    } else if y == |board[x]| {
      ScanFromMembership(board, x + 1, 0, p);
    } else {
      ScanFromMembership(board, x, y + 1, p);
    }
  }

  /** The scan from `(x, y)` lists its locations strictly in scan order. */
  lemma {:induction false} ScanFromOrdered(board: Board, x: nat, y: nat)
    requires ScanStaysInRange(board)
    requires x <= |board| && (x < |board| ==> y <= |board[x]|)
    ensures forall i, j :: 0 <= i < j < |ScanFrom(board, x, y)| ==>
              ScanBefore(ScanFrom(board, x, y)[i], ScanFrom(board, x, y)[j])
    decreases |board| - x, if x < |board| then |board[x]| - y else 0
  {
    if x == |board| {
    } else if y == |board[x]| {
      ScanFromOrdered(board, x + 1, 0);
    } else {
      var rest := ScanFrom(board, x, y + 1);
      ScanFromOrdered(board, x, y + 1);
      if board[y][x] == Food {
        forall k | 0 <= k < |rest|
          ensures ScanBefore(Position(x, y), rest[k])
        {
          ScanFromMembership(board, x, y + 1, rest[k]);
        }
        var s := [Position(x, y)] + rest;
        assert ScanFrom(board, x, y) == s;
        forall i, j | 0 <= i < j < |s|
          ensures ScanBefore(s[i], s[j])
        {
          if i > 0 {
            assert s[i] == rest[i - 1] && s[j] == rest[j - 1];
          } else {
            assert s[j] == rest[j - 1];
          }
        }
      }
    }
  }

  /** A location is listed if and only if the scan reads food there. */
  lemma FoodLocationsExact(board: Board)
    requires ScanStaysInRange(board)
    ensures forall p :: p in FoodLocations(board) <==> ScannedAsFood(board, p)
  {
    forall p
      ensures p in FoodLocations(board) <==> ScannedAsFood(board, p)
    {
      ScanFromMembership(board, 0, 0, p);
    }
  }

  /** Food locations are listed in scan order: ascending `x`, then ascending `y`. */
  lemma FoodLocationsInScanOrder(board: Board)
    requires ScanStaysInRange(board)
    ensures forall i, j :: 0 <= i < j < |FoodLocations(board)| ==>
              ScanBefore(FoodLocations(board)[i], FoodLocations(board)[j])
  {
    ScanFromOrdered(board, 0, 0);
  }

  /** No location is listed twice. */
  lemma FoodLocationsDistinct(board: Board)
    requires ScanStaysInRange(board)
    ensures forall i, j :: 0 <= i < j < |FoodLocations(board)| ==>
              FoodLocations(board)[i] != FoodLocations(board)[j]
  {
    FoodLocationsInScanOrder(board);
  }

  /** The list is empty exactly when no cell the scan reads holds food. */
  lemma NoFoodIffEmpty(board: Board)
    requires ScanStaysInRange(board)
    ensures FoodLocations(board) == [] <==>
              forall x, y :: 0 <= x < |board| && 0 <= y < |board[x]| ==> board[y][x] != Food
  {
    FoodLocationsExact(board);
    if FoodLocations(board) != [] {
      var p := FoodLocations(board)[0];
      assert ScannedAsFood(board, p);
    } else {
      forall x, y | 0 <= x < |board| && 0 <= y < |board[x]|
        ensures board[y][x] != Food
      {
        assert !ScannedAsFood(board, Position(x, y));
      }
    }
  }

  /** The scan reads `board[y][x]`: food stored at `board[0][1]` is reported
      as `(1, 0)`, not as `(0, 1)` as reading `board[x][y]` would give. The
      board need not be square for the scan to stay in range. */
  lemma ScanReadsRowFirst()
    ensures ScanStaysInRange([[Empty, Food], [Empty]])
    ensures FoodLocations([[Empty, Food], [Empty]]) == [Position(1, 0)]
  {
  }

  /** On a board whose inner lists all have the same positive length, the
      scan stays in range exactly when the board is square. */
  lemma RectangularInRangeIffSquare(board: Board, height: nat)
    requires |board| > 0 && height > 0
    requires forall x :: 0 <= x < |board| ==> |board[x]| == height
    ensures ScanStaysInRange(board) <==> height == |board|
  {
    if ScanStaysInRange(board) {
      assert height <= |board| by {
        assert |board[0]| <= |board|;
      }
      var last := |board| - 1;
      assert 0 < |board[last]|;
      assert last < |board[0]|;
    }
  }

  /** Builds the list of food locations by walking every column `x` and, within
      it, every row `y`, reading `board[y][x]`. */
  method GetFood(board: Board) returns (ret: seq<Position>)
    requires ScanStaysInRange(board)
    ensures ret == FoodLocations(board)
    ensures forall p :: p in ret <==> ScannedAsFood(board, p)
    ensures forall i, j :: 0 <= i < j < |ret| ==> ScanBefore(ret[i], ret[j])
  {
    ret := [];
    for x := 0 to |board|
      invariant ret + ScanFrom(board, x, 0) == FoodLocations(board)
    {
      for y := 0 to |board[x]|
        invariant ret + ScanFrom(board, x, y) == FoodLocations(board)
      {
        ghost var rest := ScanFrom(board, x, y + 1);
        if board[y][x] == Food {
          assert ScanFrom(board, x, y) == [Position(x, y)] + rest;
          assert (ret + [Position(x, y)]) + rest == ret + ([Position(x, y)] + rest);
          ret := ret + [Position(x, y)];
        } else {
          assert ScanFrom(board, x, y) == rest;
        }
      }
      assert ScanFrom(board, x, |board[x]|) == ScanFrom(board, x + 1, 0);
    }
    FoodLocationsExact(board);
    FoodLocationsInScanOrder(board);
  }

  function Abs(n: int): nat
  {
    if n < 0 then -n else n
  }

  /** The distance heuristic, kept as the square of the Euclidean distance:
      the source takes the square root of this value, and the square root is
      strictly increasing on non-negative numbers (see SqrtPreservesOrder), so
      every comparison the agent makes comes out the same. */
  function HeuristicToFood(position: Position, foodLocation: Position): (d: nat)
    ensures d == 0 <==> position == foodLocation
    ensures d >= Abs(foodLocation.x - position.x) && d >= Abs(foodLocation.y - position.y)
  {
    var dx := Abs(foodLocation.x - position.x);
    var dy := Abs(foodLocation.y - position.y);
    dx * dx + dy * dy
  }

  /** The heuristic does not depend on the order of its two arguments. */
  lemma HeuristicSymmetric(a: Position, b: Position)
    ensures HeuristicToFood(a, b) == HeuristicToFood(b, a)
  {
  }

  /** `r` is the exact, non-negative square root of `n`. */
  ghost predicate IsSqrt(r: real, n: nat)
  {
    r >= 0.0 && r * r == n as real
  }

  lemma SquareStrictlyIncreasing(a: real, b: real)
    requires 0.0 <= a < b
    ensures a * a < b * b
  {
    var aa, ab, bb := a * a, a * b, b * b;
    assert aa <= ab;
    assert ab < bb;
  }

  /** Comparing square roots is the same as comparing the squares, so the
      squared distance ranks food locations exactly as the Euclidean distance
      does, ties included. */
  lemma SqrtPreservesOrder(r1: real, n1: nat, r2: real, n2: nat)
    requires IsSqrt(r1, n1) && IsSqrt(r2, n2)
    ensures r1 < r2 <==> n1 < n2
    ensures r1 == r2 <==> n1 == n2
  {
    if r1 < r2 {
      SquareStrictlyIncreasing(r1, r2);
    } else if r2 < r1 {
      SquareStrictlyIncreasing(r2, r1);
    }
  }

  /** Index `i` of `food` holds a location with the least heuristic to `head`,
      and every earlier location is strictly farther. */
  ghost predicate IsFirstClosest(food: seq<Position>, head: Position, i: int)
  {
    0 <= i < |food| &&
    (forall j :: 0 <= j < |food| ==> HeuristicToFood(head, food[i]) <= HeuristicToFood(head, food[j])) &&
    (forall j :: 0 <= j < i ==> HeuristicToFood(head, food[i]) < HeuristicToFood(head, food[j]))
  }

  /** At most one index is the first closest, so it pins the selection down. */
  lemma FirstClosestUnique(food: seq<Position>, head: Position, i: int, k: int)
    requires IsFirstClosest(food, head, i) && IsFirstClosest(food, head, k)
    ensures i == k
  {
    assert HeuristicToFood(head, food[i]) == HeuristicToFood(head, food[k]);
  }

  /** The first closest entry of the food list is a food cell no farther from
      the head than any other food cell, and strictly closer than every food
      cell the scan visits before it. */
  lemma FirstClosestOnBoard(board: Board, head: Position, i: int)
    requires ScanStaysInRange(board)
    requires IsFirstClosest(FoodLocations(board), head, i)
    ensures ScannedAsFood(board, FoodLocations(board)[i])
    ensures forall q :: ScannedAsFood(board, q) ==>
              HeuristicToFood(head, FoodLocations(board)[i]) <= HeuristicToFood(head, q)
    ensures forall q :: ScannedAsFood(board, q) && ScanBefore(q, FoodLocations(board)[i]) ==>
              HeuristicToFood(head, FoodLocations(board)[i]) < HeuristicToFood(head, q)
  {
    var food := FoodLocations(board);
    FoodLocationsExact(board);
    FoodLocationsInScanOrder(board);
    forall q | ScannedAsFood(board, q) && ScanBefore(q, food[i])
      ensures HeuristicToFood(head, food[i]) < HeuristicToFood(head, q)
    {
      var j :| 0 <= j < |food| && food[j] == q;
      assert j < i;
    }
  }

  /** Returns the food location closest to the head, or `None` when the board
      holds no food. A running minimum over the scan keeps the first minimal
      location, because it replaces it only on a strictly smaller heuristic. */
  method GetClosestFood(board: Board, headPosition: Position) returns (ret: Option<Position>)
    requires ScanStaysInRange(board)
    ensures ret.None? <==> FoodLocations(board) == []
    ensures ret.Some? ==>
              exists i :: IsFirstClosest(FoodLocations(board), headPosition, i) &&
                          ret.value == FoodLocations(board)[i]
    ensures ret.Some? ==>
              ScannedAsFood(board, ret.value) &&
              (forall q :: ScannedAsFood(board, q) ==>
                 HeuristicToFood(headPosition, ret.value) <= HeuristicToFood(headPosition, q)) &&
              (forall q :: ScannedAsFood(board, q) && ScanBefore(q, ret.value) ==>
                 HeuristicToFood(headPosition, ret.value) < HeuristicToFood(headPosition, q))
  {
    var food := GetFood(board);
    var closest: Option<nat> := None;
    ret := None;
    ghost var best := 0;
    for i := 0 to |food|
      invariant ret.None? <==> i == 0
      invariant closest.None? <==> i == 0
      invariant i > 0 ==>
                  best < i && ret == Some(food[best]) &&
                  closest == Some(HeuristicToFood(headPosition, food[best]))
      invariant i > 0 ==>
                  forall j :: 0 <= j < i ==>
                    HeuristicToFood(headPosition, food[best]) <= HeuristicToFood(headPosition, food[j])
      invariant i > 0 ==>
                  forall j :: 0 <= j < best ==>
                    HeuristicToFood(headPosition, food[best]) < HeuristicToFood(headPosition, food[j])
    {
      var contender := HeuristicToFood(headPosition, food[i]);
      if closest.None? || contender < closest.value {
        closest := Some(contender);
        ret := Some(food[i]);
        best := i;
      }
    }
    if ret.Some? {
      assert IsFirstClosest(food, headPosition, best);
      FirstClosestOnBoard(board, headPosition, best);
    }
  }

  /** `get_move` as written: before returning STRAIGHT it evaluates the
      heuristic from the head to the closest food, which subscripts `None`
      and raises a TypeError when the board holds no food. */
  method GetMoveAsWritten(board: Board, score: int, turnsAlive: int, turnsToStarve: int,
                          direction: Direction, headPosition: Position, bodyParts: seq<Position>)
    returns (r: Outcome<Move>)
    requires ScanStaysInRange(board)
    ensures r.Raised? <==> forall x, y :: 0 <= x < |board| && 0 <= y < |board[x]| ==> board[y][x] != Food
    ensures r.Returned? ==> r.value == Straight
  {
    var shown := GetClosestFood(board, headPosition);
    var closest := GetClosestFood(board, headPosition);
    NoFoodIffEmpty(board);
    match closest
    case None =>
      r := Raised(TypeError);
    case Some(location) =>
      var distance := HeuristicToFood(headPosition, location);
      r := Returned(Straight);
  }

  /** A one-cell board holding nothing is in range and lists no food, so the
      as-written `get_move` raises on it. */
  lemma EmptyCellBoardHasNoFood()
    ensures ScanStaysInRange([[Empty]])
    ensures forall x, y :: 0 <= x < 1 && 0 <= y < 1 ==> [[Empty]][y][x] != Food
    ensures FoodLocations([[Empty]]) == []
  {
  }

  /** `get_move` as intended: the agent always goes straight. */
  function GetMove(board: Board, score: int, turnsAlive: int, turnsToStarve: int,
                   direction: Direction, headPosition: Position, bodyParts: seq<Position>): (m: Move)
    ensures m == Straight
  {
    Straight
  }

  /** The board is always redrawn. */
  function ShouldRedrawBoard(): (redraw: bool)
    ensures redraw
  {
    true
  }

  /** The snake always grows when it eats. */
  function ShouldGrowOnFoodCollision(): (grow: bool)
    ensures grow
  {
    true
  }
}
