/**
 * The Othello/Reversi rules of reversi.go, on values: positions, the 8x8 grid,
 * rays, the legality test of one direction and of a cell, the frontier of empty
 * cells next to a piece, piece counts, and the grid that a move produces.
 */
module ReversiRules {

  /** The board is always 8 by 8 (every Board in the source has length 8). */
  const Size := 8

  /** Cell values: 1 is a black piece, -1 a white piece, 0 an empty cell. */
  const Black := 1
  const White := -1
  const Empty := 0

  /** A (row, column) pair; also used for the eight unit directions. */
  datatype Position = Position(i: int, j: int)

  /** The eight directions, in the order in which every loop of the source visits them. */
  const Directions: seq<Position> := [
    Position(-1, 0), Position(-1, 1), Position(0, 1), Position(1, 1),
    Position(1, 0), Position(1, -1), Position(0, -1), Position(-1, -1)
  ]

  /** The grid: 8 rows of 8 cells. */
  type Grid = g: seq<seq<int>> | |g| == Size && forall r | 0 <= r < Size :: |g[r]| == Size
    witness seq(Size, _ => seq(Size, _ => Empty))

  /** A position lies on the board. */
  predicate InRange(p: Position)
  {
    p.i < Size && p.j < Size && p.i >= 0 && p.j >= 0
  }

  function Cell(g: Grid, q: Position): int
    requires InRange(q)
  {
    g[q.i][q.j]
  }

  /** The grid with cell q set to v, every other cell as before. */
  function SetCell(g: Grid, q: Position, v: int): (r: Grid)
    requires InRange(q)
    ensures Cell(r, q) == v
    ensures forall x | InRange(x) && x != q :: Cell(r, x) == Cell(g, x)
  {
    g[q.i := g[q.i][q.j := v]]
  }

  /** Every cell holds 0, 1 or -1. */
  ghost predicate ValuesOk(g: Grid)
  {
    forall x | InRange(x) :: Cell(g, x) in {Black, White, Empty}
  }

  /** Whose turn it can be. */
  predicate IsPlayer(turn: int)
  {
    turn == Black || turn == White
  }

  /** k times the sign of c: the same as k * c for the components -1, 0, 1 of a
      direction, written without a product so that the solver stays linear. */
  function Scale(k: int, c: int): int
  {
    if c > 0 then k else if c < 0 then -k else 0
  }

  /** The position k steps from p in direction d. */
  function Ray(p: Position, d: Position, k: int): Position
  {
    Position(p.i + Scale(k, d.i), p.j + Scale(k, d.j))
  }

  /** One more step along a direction of Directions adds the direction itself. */
  lemma {:induction false} RayStep(p: Position, d: Position, k: int)
    requires d in Directions
    ensures Ray(p, d, k + 1) == Position(Ray(p, d, k).i + d.i, Ray(p, d, k).j + d.j)
  {
  }

  /** A ray from a cell on the board leaves the board within 8 steps. */
  lemma {:induction false} RayBound(p: Position, d: Position, m: int)
    requires InRange(p) && d in Directions && m >= 0 && InRange(Ray(p, d, m))
    ensures m < Size
  {
  }

  /** Two rays from the same cell meet only if they are the same ray at the same distance. */
  lemma {:induction false} RaysDisjoint(p: Position, d1: Position, d2: Position, t1: int, t2: int)
    requires d1 in Directions && d2 in Directions && t1 >= 1 && t2 >= 1
    requires Ray(p, d1, t1) == Ray(p, d2, t2)
    ensures d1 == d2 && t1 == t2
  {
  }

  /** Different distances along one direction give different cells. */
  lemma {:induction false} RayInjective(p: Position, d: Position, t1: int, t2: int)
    requires d in Directions && t1 >= 1 && t2 >= 1 && t1 != t2
    ensures Ray(p, d, t1) != Ray(p, d, t2)
  {
    if Ray(p, d, t1) == Ray(p, d, t2) {
      RaysDisjoint(p, d, d, t1, t2);
    }
  }

  lemma {:induction false} DirectionsDistinct()
    ensures forall a, b | 0 <= a < b < |Directions| :: Directions[a] != Directions[b]
  {
  }

  // ---------------------------------------------------------------------------
  // One direction (checkValidDir) and one cell (checkValid)

  /** How many cells of `-turn` lie one after another on the ray from p in
      direction d, starting at distance m. */
  function RunLen(g: Grid, turn: int, p: Position, d: Position, m: nat): nat
    requires InRange(p) && d in Directions
    decreases Size - m
  {
    if InRange(Ray(p, d, m)) && Cell(g, Ray(p, d, m)) == -turn then
      RayBound(p, d, m);
      1 + RunLen(g, turn, p, d, m + 1)
    else
      0
  }

  /** Placing `turn` at p captures along d: p is empty and the run of opponent
      cells next to it is non-empty and ends on one of the mover's cells. */
  predicate ValidDir(g: Grid, turn: int, d: Position, p: Position)
    requires InRange(p) && d in Directions
  {
    var n := RunLen(g, turn, p, d, 1);
    Cell(g, p) == Empty && n >= 1 && InRange(Ray(p, d, n + 1)) && Cell(g, Ray(p, d, n + 1)) == turn
  }

  /** Placing `turn` at p captures in at least one direction. */
  predicate Legal(g: Grid, turn: int, p: Position)
    requires InRange(p)
  {
    exists k | 0 <= k < |Directions| :: ValidDir(g, turn, Directions[k], p)
  }

  /** One step of checkValidDir's walk, with the first m - 1 cells of the ray
      known to be opponent cells: when cell m is one too, the run goes on ... */
  lemma {:induction false} RunContinues(g: Grid, turn: int, p: Position, d: Position, m: nat)
    requires InRange(p) && d in Directions && m >= 1
    requires RunLen(g, turn, p, d, 1) == m - 1 + RunLen(g, turn, p, d, m)
    requires InRange(Ray(p, d, m)) && Cell(g, Ray(p, d, m)) == -turn
    ensures RunLen(g, turn, p, d, 1) == m + RunLen(g, turn, p, d, m + 1)
  {
    RayBound(p, d, m);
  }

  /** ... and otherwise the walk ends, and the direction is valid exactly when
      there was a run and cell m holds the mover's colour. */
  lemma {:induction false} RunStops(g: Grid, turn: int, p: Position, d: Position, m: nat)
    requires InRange(p) && d in Directions && IsPlayer(turn) && Cell(g, p) == Empty && m >= 1
    requires RunLen(g, turn, p, d, 1) == m - 1 + RunLen(g, turn, p, d, m)
    requires !(InRange(Ray(p, d, m)) && Cell(g, Ray(p, d, m)) == -turn)
    ensures ValidDir(g, turn, d, p) <==> m >= 2 && InRange(Ray(p, d, m)) && Cell(g, Ray(p, d, m)) == turn
  {
    assert RunLen(g, turn, p, d, m) == 0;
  }

  /** checkValidDir's walk as the source writes it, from distance m with the
      firstShift flag `first`: step to cell m + 1; stop there, valid or not,
      according to the switch; go on over an opponent cell, or over a cell that
      matches no case. */
  function Walk(g: Grid, turn: int, p: Position, d: Position, m: nat, first: bool): bool
    requires InRange(p) && d in Directions && m < Size
    decreases Size - m
  {
    var c := Ray(p, d, m + 1);
    if !InRange(c) then false
    else if Cell(g, c) == Empty then false
    else if Cell(g, c) == turn && first then false
    else if Cell(g, c) == turn && !first then true
    else
      RayBound(p, d, m + 1);
      Walk(g, turn, p, d, m + 1, if Cell(g, c) == -turn then false else first)
  }

  /** One step of the walk, case by case, as the loop body of checkValidDir
      reads it: the cell m + 1 is off the board, empty, the mover's, or another
      value, and only in the last case does the walk go on. */
  lemma {:induction false} WalkAt(g: Grid, turn: int, p: Position, d: Position, m: nat, first: bool)
    requires InRange(p) && d in Directions && m < Size
    ensures var c := Ray(p, d, m + 1);
      && (!InRange(c) ==> !Walk(g, turn, p, d, m, first))
      && (InRange(c) && Cell(g, c) == Empty ==> !Walk(g, turn, p, d, m, first))
      && (InRange(c) && Cell(g, c) != Empty && Cell(g, c) == turn ==> Walk(g, turn, p, d, m, first) == !first)
      && (InRange(c) && Cell(g, c) != Empty && Cell(g, c) != turn ==>
            m + 1 < Size && Walk(g, turn, p, d, m, first) == Walk(g, turn, p, d, m + 1, if Cell(g, c) == -turn then false else first))
  {
    var c := Ray(p, d, m + 1);
    if InRange(c) {
      RayBound(p, d, m + 1);
    }
  }

  /** For a player, the walk from distance m, after m opponent cells, gives the
      verdict of ValidDir ... */
  lemma {:induction false} WalkRun(g: Grid, turn: int, p: Position, d: Position, m: nat)
    requires InRange(p) && d in Directions && IsPlayer(turn) && ValuesOk(g) && Cell(g, p) == Empty && m < Size
    requires RunLen(g, turn, p, d, 1) == m + RunLen(g, turn, p, d, m + 1)
    ensures Walk(g, turn, p, d, m, m == 0) == ValidDir(g, turn, d, p)
    decreases Size - m
  {
    var c := Ray(p, d, m + 1);
    if InRange(c) && Cell(g, c) == -turn {
      RunContinues(g, turn, p, d, m + 1);
      RayBound(p, d, m + 1);
      WalkOver(g, turn, p, d, m);
      WalkRun(g, turn, p, d, m + 1);
    } else {
      WalkStops(g, turn, p, d, m);
    }
  }

  /** Stepping over an opponent cell clears the first-step flag and moves on one cell. */
  lemma {:induction false} WalkOver(g: Grid, turn: int, p: Position, d: Position, m: nat)
    requires InRange(p) && d in Directions && IsPlayer(turn) && m + 1 < Size
    requires InRange(Ray(p, d, m + 1)) && Cell(g, Ray(p, d, m + 1)) == -turn
    ensures Walk(g, turn, p, d, m, m == 0) == Walk(g, turn, p, d, m + 1, false)
  {
  }

  /** ... where it stops at the first cell that is not an opponent cell. */
  lemma {:induction false} WalkStops(g: Grid, turn: int, p: Position, d: Position, m: nat)
    requires InRange(p) && d in Directions && IsPlayer(turn) && ValuesOk(g) && Cell(g, p) == Empty && m < Size
    requires RunLen(g, turn, p, d, 1) == m + RunLen(g, turn, p, d, m + 1)
    requires !(InRange(Ray(p, d, m + 1)) && Cell(g, Ray(p, d, m + 1)) == -turn)
    ensures Walk(g, turn, p, d, m, m == 0) == ValidDir(g, turn, d, p)
  {
    RunStops(g, turn, p, d, m + 1);
    var c := Ray(p, d, m + 1);
    if InRange(c) {
      assert Cell(g, c) in {Black, White, Empty};
    }
  }

  /** For any other turn the walk never accepts on a grid of 0, 1 and -1. */
  lemma {:induction false} WalkNonPlayer(g: Grid, turn: int, p: Position, d: Position, m: nat, first: bool)
    requires InRange(p) && d in Directions && !IsPlayer(turn) && ValuesOk(g) && m < Size
    ensures !Walk(g, turn, p, d, m, first)
    decreases Size - m
  {
    var c := Ray(p, d, m + 1);
    if InRange(c) && Cell(g, c) != Empty {
      RayBound(p, d, m + 1);
      WalkNonPlayer(g, turn, p, d, m + 1, first);
    }
  }

  /** The walk from an empty cell decides exactly ValidDir. */
  lemma {:induction false} WalkValidDir(g: Grid, turn: int, p: Position, d: Position)
    requires InRange(p) && d in Directions && ValuesOk(g) && Cell(g, p) == Empty
    ensures Walk(g, turn, p, d, 0, true) == ValidDir(g, turn, d, p)
  {
    if IsPlayer(turn) {
      WalkRun(g, turn, p, d, 0);
    } else {
      WalkNonPlayer(g, turn, p, d, 0, true);
      NoValidDirNonPlayer(g, turn, d, p);
    }
  }

  /** The contrapositive of ValidDirNeedsPlayer. */
  lemma {:induction false} NoValidDirNonPlayer(g: Grid, turn: int, d: Position, p: Position)
    requires InRange(p) && d in Directions && ValuesOk(g) && !IsPlayer(turn)
    ensures !ValidDir(g, turn, d, p)
  {
    if ValidDir(g, turn, d, p) {
      ValidDirNeedsPlayer(g, turn, d, p);
    }
  }

  /** On a grid of 0, 1 and -1 only a player can capture: with any other turn
      checkValidDir never accepts a direction. */
  lemma {:induction false} ValidDirNeedsPlayer(g: Grid, turn: int, d: Position, p: Position)
    requires InRange(p) && d in Directions && ValuesOk(g) && ValidDir(g, turn, d, p)
    ensures IsPlayer(turn)
  {
    RunLenEnd(g, turn, p, d, 1);
  }

  lemma {:induction false} LegalNeedsPlayer(g: Grid, turn: int, p: Position)
    requires InRange(p) && ValuesOk(g) && Legal(g, turn, p)
    ensures IsPlayer(turn)
  {
    var k :| 0 <= k < |Directions| && ValidDir(g, turn, Directions[k], p);
    ValidDirNeedsPlayer(g, turn, Directions[k], p);
  }

  /** The reference reading of a capture along d: cells 1..n of the ray are on
      the board and hold `-turn`, and cell n+1 is on the board and holds `turn`. */
  ghost predicate Brackets(g: Grid, turn: int, p: Position, d: Position, n: int)
  {
    && n >= 1
    && (forall k | 1 <= k <= n :: InRange(Ray(p, d, k)) && Cell(g, Ray(p, d, k)) == -turn)
    && InRange(Ray(p, d, n + 1)) && Cell(g, Ray(p, d, n + 1)) == turn
  }

  /** The run counted from distance m is made of opponent cells ... */
  lemma {:induction false} RunLenCells(g: Grid, turn: int, p: Position, d: Position, m: nat)
    requires InRange(p) && d in Directions
    ensures forall k | m <= k < m + RunLen(g, turn, p, d, m) ::
      InRange(Ray(p, d, k)) && Cell(g, Ray(p, d, k)) == -turn
    decreases Size - m
  {
    if InRange(Ray(p, d, m)) && Cell(g, Ray(p, d, m)) == -turn {
      RayBound(p, d, m);
      RunLenCells(g, turn, p, d, m + 1);
    }
  }

  /** ... and it stops at the first cell that is off the board or not an opponent cell. */
  lemma {:induction false} RunLenEnd(g: Grid, turn: int, p: Position, d: Position, m: nat)
    requires InRange(p) && d in Directions
    ensures var e := Ray(p, d, m + RunLen(g, turn, p, d, m)); !(InRange(e) && Cell(g, e) == -turn)
    decreases Size - m
  {
    if InRange(Ray(p, d, m)) && Cell(g, Ray(p, d, m)) == -turn {
      RayBound(p, d, m);
      RunLenEnd(g, turn, p, d, m + 1);
      var k := m + RunLen(g, turn, p, d, m);
      assert k == m + 1 + RunLen(g, turn, p, d, m + 1);
      assert Ray(p, d, k) == Ray(p, d, m + 1 + RunLen(g, turn, p, d, m + 1));
    }
  }

  /** A run of opponent cells from m to n that is not continued at n+1 is exactly
      what RunLen counts. */
  lemma {:induction false} RunLenExact(g: Grid, turn: int, p: Position, d: Position, m: nat, n: int)
    requires InRange(p) && d in Directions && m <= n + 1
    requires forall k | m <= k <= n :: InRange(Ray(p, d, k)) && Cell(g, Ray(p, d, k)) == -turn
    requires !(InRange(Ray(p, d, n + 1)) && Cell(g, Ray(p, d, n + 1)) == -turn)
    ensures RunLen(g, turn, p, d, m) == n + 1 - m
    decreases n + 1 - m
  {
    if m <= n {
      RayBound(p, d, m);
      RunLenExact(g, turn, p, d, m + 1, n);
    }
  }

  /** checkValidDir's promise: a direction is valid exactly when p is empty and the
      ray crosses one or more opponent cells and then reaches a mover cell. A
      mover cell right next to p, an empty cell or the edge makes it invalid. */
  lemma {:induction false} ValidDirIff(g: Grid, turn: int, d: Position, p: Position)
    requires InRange(p) && d in Directions && IsPlayer(turn)
    ensures ValidDir(g, turn, d, p) <==> Cell(g, p) == Empty && exists n :: Brackets(g, turn, p, d, n)
  {
    if Cell(g, p) == Empty && exists n :: Brackets(g, turn, p, d, n) {
      var n :| Brackets(g, turn, p, d, n);
      BracketsValidDir(g, turn, d, p, n);
    }
    if ValidDir(g, turn, d, p) {
      ValidDirBrackets(g, turn, d, p);
    }
  }

  /** A valid direction brackets a run of exactly RunLen opponent cells. */
  lemma {:induction false} ValidDirBrackets(g: Grid, turn: int, d: Position, p: Position)
    requires InRange(p) && d in Directions && ValidDir(g, turn, d, p)
    ensures Brackets(g, turn, p, d, RunLen(g, turn, p, d, 1))
  {
    RunLenCells(g, turn, p, d, 1);
  }

  /** A bracketed run from an empty cell makes the direction valid. */
  lemma {:induction false} BracketsValidDir(g: Grid, turn: int, d: Position, p: Position, n: int)
    requires InRange(p) && d in Directions && IsPlayer(turn) && Cell(g, p) == Empty && Brackets(g, turn, p, d, n)
    ensures ValidDir(g, turn, d, p)
  {
    RunLenExact(g, turn, p, d, 1, n);
  }

  /** The run, and so the verdict, of direction d depends only on p and the cells of its ray. */
  lemma {:induction false} RunLenAgree(g: Grid, h: Grid, turn: int, p: Position, d: Position, m: nat)
    requires InRange(p) && d in Directions && m >= 1
    requires forall t | t >= 1 && InRange(Ray(p, d, t)) :: Cell(g, Ray(p, d, t)) == Cell(h, Ray(p, d, t))
    ensures RunLen(g, turn, p, d, m) == RunLen(h, turn, p, d, m)
    decreases Size - m
  {
    if InRange(Ray(p, d, m)) && Cell(g, Ray(p, d, m)) == -turn {
      RayBound(p, d, m);
      RunLenAgree(g, h, turn, p, d, m + 1);
    }
  }

  lemma {:induction false} ValidDirAgree(g: Grid, h: Grid, turn: int, p: Position, d: Position)
    requires InRange(p) && d in Directions && Cell(g, p) == Cell(h, p)
    requires forall t | t >= 1 && InRange(Ray(p, d, t)) :: Cell(g, Ray(p, d, t)) == Cell(h, Ray(p, d, t))
    ensures RunLen(g, turn, p, d, 1) == RunLen(h, turn, p, d, 1)
    ensures ValidDir(g, turn, d, p) == ValidDir(h, turn, d, p)
  {
    RunLenAgree(g, h, turn, p, d, 1);
  }

  // ---------------------------------------------------------------------------
  // Neighbours and the frontier (getNeighbour, initNeighbours, posInSlice)

  /** p and q are distinct cells one king step apart. */
  predicate Adjacent(p: Position, q: Position)
  {
    p != q && -1 <= q.i - p.i <= 1 && -1 <= q.j - p.j <= 1
  }

  /** No element occurs twice. */
  predicate NoDup<T(==)>(s: seq<T>)
  {
    forall a, b | 0 <= a < b < |s| :: s[a] != s[b]
  }

  /** posInSlice: whether a occurs in list. */
  function PosInSlice(a: Position, list: seq<Position>): (r: bool)
    ensures r <==> a in list
  {
    if list == [] then false
    else if list[0] == a then true
    else PosInSlice(a, list[1..])
  }

  /** The empty on-board cells among the neighbours of p in the first k directions, in direction order. */
  function NeighboursUpTo(g: Grid, p: Position, k: nat): seq<Position>
    requires k <= |Directions|
  {
    if k == 0 then []
    else
      var q := Ray(p, Directions[k - 1], 1);
      NeighboursUpTo(g, p, k - 1) + (if InRange(q) && Cell(g, q) == Empty then [q] else [])
  }

  /** getNeighbour: the empty on-board neighbours of p, in direction order. */
  function EmptyNeighbours(g: Grid, p: Position): seq<Position>
  {
    NeighboursUpTo(g, p, |Directions|)
  }

  lemma {:induction false} NeighboursUpToElems(g: Grid, p: Position, k: nat)
    requires k <= |Directions|
    ensures forall q :: q in NeighboursUpTo(g, p, k) <==>
      InRange(q) && Cell(g, q) == Empty && exists t | 0 <= t < k :: q == Ray(p, Directions[t], 1)
    ensures NoDup(NeighboursUpTo(g, p, k))
  {
    if k > 0 {
      NeighboursUpToElems(g, p, k - 1);
      var q := Ray(p, Directions[k - 1], 1);
      forall t | 0 <= t < k - 1 ensures Ray(p, Directions[t], 1) != q {
        if Ray(p, Directions[t], 1) == q {
          RaysDisjoint(p, Directions[t], Directions[k - 1], 1, 1);
          DirectionsDistinct();
        }
      }
    }
  }

  /** The eight neighbours of p are exactly the cells adjacent to p. */
  lemma {:induction false} AdjacentSteps(p: Position, q: Position)
    ensures Adjacent(p, q) <==> exists t | 0 <= t < |Directions| :: q == Ray(p, Directions[t], 1)
  {
    if Adjacent(p, q) {
      var d := Position(q.i - p.i, q.j - p.j);
      assert d in Directions;
      var t :| 0 <= t < |Directions| && Directions[t] == d;
      assert q == Ray(p, Directions[t], 1);
    }
  }

  /** getNeighbour returns, without repetition, exactly the empty on-board cells adjacent to p. */
  lemma {:induction false} EmptyNeighboursElems(g: Grid, p: Position)
    ensures forall q :: q in EmptyNeighbours(g, p) <==> InRange(q) && Cell(g, q) == Empty && Adjacent(p, q)
    ensures NoDup(EmptyNeighbours(g, p))
  {
    NeighboursUpToElems(g, p, |Directions|);
    forall q ensures Adjacent(p, q) <==> exists t | 0 <= t < |Directions| :: q == Ray(p, Directions[t], 1) {
      AdjacentSteps(p, q);
    }
  }

  /** q is an empty on-board cell with a piece on some adjacent cell. */
  ghost predicate IsFrontier(g: Grid, q: Position)
  {
    InRange(q) && Cell(g, q) == Empty && exists r | InRange(r) && Adjacent(q, r) :: Cell(g, r) != Empty
  }

  /** acc followed by the elements of s that are not already present, in order of first occurrence. */
  function AddNew<T(==)>(acc: seq<T>, s: seq<T>): seq<T>
  {
    if s == [] then acc
    else
      var a := AddNew(acc, s[..|s| - 1]);
      if s[|s| - 1] in a then a else a + [s[|s| - 1]]
  }

  lemma {:induction false} AddNewElems<T>(acc: seq<T>, s: seq<T>)
    ensures forall x :: x in AddNew(acc, s) <==> x in acc || x in s
    ensures NoDup(acc) ==> NoDup(AddNew(acc, s))
  {
    if s != [] {
      AddNewElems(acc, s[..|s| - 1]);
      assert s == s[..|s| - 1] + [s[|s| - 1]];
    }
  }

  /** initNeighbours: the new empty neighbours of each piece of fs in turn, merged without repetition. */
  function FrontierOf(g: Grid, fs: seq<Position>): seq<Position>
  {
    if fs == [] then []
    else AddNew(FrontierOf(g, fs[..|fs| - 1]), EmptyNeighbours(g, fs[|fs| - 1]))
  }

  lemma {:induction false} FrontierOfElems(g: Grid, fs: seq<Position>)
    ensures forall x :: x in FrontierOf(g, fs) <==> exists f | f in fs :: x in EmptyNeighbours(g, f)
    ensures NoDup(FrontierOf(g, fs))
  {
    if fs != [] {
      var init := fs[..|fs| - 1];
      FrontierOfElems(g, init);
      AddNewElems(FrontierOf(g, init), EmptyNeighbours(g, fs[|fs| - 1]));
      assert fs == init + [fs[|fs| - 1]];
    }
  }

  // ---------------------------------------------------------------------------
  // Row-major enumeration of the cells (Setup, getScores)

  /** The k-th cell in row-major order (the order of the nested loops over i and j). */
  function RowMajor(k: int): Position
  {
    Position(k / 8, k % 8)
  }

  /** The row-major index of a cell. */
  function Index(q: Position): int
  {
    8 * q.i + q.j
  }

  lemma {:induction false} RowMajorIndex(q: Position)
    requires InRange(q)
    ensures RowMajor(Index(q)) == q && 0 <= Index(q) < 64
  {
  }

  lemma {:induction false} IndexRowMajor(k: int)
    requires 0 <= k < 64
    ensures InRange(RowMajor(k)) && Index(RowMajor(k)) == k
  {
  }

  /** The occupied cells among the first k cells, in row-major order. */
  function FilledUpTo(g: Grid, k: nat): seq<Position>
    requires k <= 64
  {
    if k == 0 then []
    else
      IndexRowMajor(k - 1);
      var q := RowMajor(k - 1);
      FilledUpTo(g, k - 1) + (if Cell(g, q) != Empty then [q] else [])
  }

  /** The empty cells among the first k cells, in row-major order. */
  function EmptyUpTo(g: Grid, k: nat): seq<Position>
    requires k <= 64
  {
    if k == 0 then []
    else
      IndexRowMajor(k - 1);
      var q := RowMajor(k - 1);
      EmptyUpTo(g, k - 1) + (if Cell(g, q) == Empty then [q] else [])
  }

  /** The number of cells holding v among the first k cells in row-major order. */
  function CountUpTo(g: Grid, v: int, k: nat): nat
    requires k <= 64
  {
    if k == 0 then 0
    else
      IndexRowMajor(k - 1);
      CountUpTo(g, v, k - 1) + (if Cell(g, RowMajor(k - 1)) == v then 1 else 0)
  }

  /** The number of cells of the grid holding v. */
  function Count(g: Grid, v: int): nat
  {
    CountUpTo(g, v, 64)
  }

  lemma {:induction false} FilledUpToElems(g: Grid, k: nat)
    requires k <= 64
    ensures forall q :: q in FilledUpTo(g, k) <==> InRange(q) && Cell(g, q) != Empty && Index(q) < k
    ensures forall q :: q in EmptyUpTo(g, k) <==> InRange(q) && Cell(g, q) == Empty && Index(q) < k
    ensures NoDup(FilledUpTo(g, k)) && NoDup(EmptyUpTo(g, k))
    ensures |FilledUpTo(g, k)| + |EmptyUpTo(g, k)| == k
  {
    if k > 0 {
      FilledUpToElems(g, k - 1);
      IndexRowMajor(k - 1);
      forall q | InRange(q) ensures q == RowMajor(k - 1) <==> Index(q) == k - 1 {
        RowMajorIndex(q);
      }
    }
  }

  /** Black and white pieces together are the occupied cells, so there are at most k of them. */
  lemma {:induction false} CountUpToFilled(g: Grid, k: nat)
    requires k <= 64 && ValuesOk(g)
    ensures |FilledUpTo(g, k)| == CountUpTo(g, Black, k) + CountUpTo(g, White, k) <= k
  {
    if k > 0 {
      CountUpToFilled(g, k - 1);
      IndexRowMajor(k - 1);
    }
  }

  /** Setting one cell changes each count by at most the old and the new value of that cell. */
  lemma {:induction false} CountUpToSetCell(g: Grid, q: Position, v: int, c: int, k: nat)
    requires InRange(q) && k <= 64
    ensures CountUpTo(SetCell(g, q, v), c, k) ==
      CountUpTo(g, c, k) + (if Index(q) < k then (if v == c then 1 else 0) - (if Cell(g, q) == c then 1 else 0) else 0)
  {
    if k > 0 {
      CountUpToSetCell(g, q, v, c, k - 1);
      IndexRowMajor(k - 1);
      RowMajorIndex(q);
    }
  }

  lemma {:induction false} CountSetCell(g: Grid, q: Position, v: int, c: int)
    requires InRange(q)
    ensures Count(SetCell(g, q, v), c) == Count(g, c) + (if v == c then 1 else 0) - (if Cell(g, q) == c then 1 else 0)
  {
    CountUpToSetCell(g, q, v, c, 64);
    RowMajorIndex(q);
  }

  // ---------------------------------------------------------------------------
  // Legal moves (getAllValid)

  /** getAllValid: the cells of s where `turn` may move, in the order of s. */
  function ValidMoves(g: Grid, turn: int, s: seq<Position>): seq<Position>
    requires forall x | x in s :: InRange(x)
  {
    if s == [] then []
    else
      ValidMoves(g, turn, s[..|s| - 1]) + (if Legal(g, turn, s[|s| - 1]) then [s[|s| - 1]] else [])
  }

  lemma {:induction false} ValidMovesElems(g: Grid, turn: int, s: seq<Position>)
    requires forall x | x in s :: InRange(x)
    ensures forall x :: x in ValidMoves(g, turn, s) <==> x in s && Legal(g, turn, x)
    ensures NoDup(s) ==> NoDup(ValidMoves(g, turn, s))
  {
    if s != [] {
      ValidMovesElems(g, turn, s[..|s| - 1]);
      assert s == s[..|s| - 1] + [s[|s| - 1]];
    }
  }

  /** A legal move is on the frontier: the first cell of a capturing ray is an opponent piece next to it. */
  lemma {:induction false} LegalIsFrontier(g: Grid, turn: int, q: Position)
    requires InRange(q) && IsPlayer(turn) && Legal(g, turn, q)
    ensures IsFrontier(g, q)
  {
    var k :| 0 <= k < |Directions| && ValidDir(g, turn, Directions[k], q);
    RunLenCells(g, turn, q, Directions[k], 1);
    var r := Ray(q, Directions[k], 1);
    assert InRange(r) && Adjacent(q, r) && Cell(g, r) != Empty;
  }

  // ---------------------------------------------------------------------------
  // Flipping (the loops of Move)

  /** The grid with the first m cells of the ray from p in direction d set to `turn`. */
  function FlipRun(g: Grid, turn: int, p: Position, d: Position, m: nat): Grid
    requires InRange(p) && d in Directions && m <= RunLen(g, turn, p, d, 1)
  {
    if m == 0 then g
    else
      RunLenCells(g, turn, p, d, 1);
      SetCell(FlipRun(g, turn, p, d, m - 1), Ray(p, d, m), turn)
  }

  /** The grid after one pass of the direction loop: the run along d flipped
      when d brackets, the grid unchanged otherwise. */
  function DirStep(g: Grid, turn: int, p: Position, d: Position): Grid
    requires InRange(p) && d in Directions
  {
    if ValidDir(g, turn, d, p) then FlipRun(g, turn, p, d, RunLen(g, turn, p, d, 1)) else g
  }

  /** The pieces one pass of the direction loop flips. */
  function DirCount(g: Grid, turn: int, p: Position, d: Position): nat
    requires InRange(p) && d in Directions
  {
    if ValidDir(g, turn, d, p) then RunLen(g, turn, p, d, 1) else 0
  }

  /** The grid once the flip loop has handled the first k directions. As in the
      source, each direction is judged on the grid left by the earlier ones. */
  function FlipDirs(g: Grid, turn: int, p: Position, k: nat): Grid
    requires InRange(p) && k <= |Directions|
  {
    if k == 0 then g
    else DirStep(FlipDirs(g, turn, p, k - 1), turn, p, Directions[k - 1])
  }

  /** flippedCount once the flip loop has handled the first k directions. */
  function FlipTotal(g: Grid, turn: int, p: Position, k: nat): nat
    requires InRange(p) && k <= |Directions|
  {
    if k == 0 then 0
    else FlipTotal(g, turn, p, k - 1) + DirCount(FlipDirs(g, turn, p, k - 1), turn, p, Directions[k - 1])
  }

  /** The grid after a move at p: the flips, then the mover's piece on p. */
  function MoveGrid(g: Grid, turn: int, p: Position): Grid
    requires InRange(p)
  {
    SetCell(FlipDirs(g, turn, p, |Directions|), p, turn)
  }

  /** The total length of the capturing runs of the first k directions, all judged on g itself. */
  function RunsUpTo(g: Grid, turn: int, p: Position, k: nat): nat
    requires InRange(p) && k <= |Directions|
  {
    if k == 0 then 0
    else
      var d := Directions[k - 1];
      RunsUpTo(g, turn, p, k - 1) + (if ValidDir(g, turn, d, p) then RunLen(g, turn, p, d, 1) else 0)
  }

  /** q is one of the opponent cells captured along d when `turn` plays at p on g. */
  ghost predicate InRun(g: Grid, turn: int, p: Position, d: Position, q: Position)
    requires InRange(p) && d in Directions
  {
    ValidDir(g, turn, d, p) && exists t | 1 <= t <= RunLen(g, turn, p, d, 1) :: q == Ray(p, d, t)
  }

  /** q is captured along one of the first k directions. */
  ghost predicate CapturedUpTo(g: Grid, turn: int, p: Position, k: nat, q: Position)
    requires InRange(p) && k <= |Directions|
  {
    exists t | 0 <= t < k :: InRun(g, turn, p, Directions[t], q)
  }

  /** q is captured when `turn` plays at p on g. */
  ghost predicate Captured(g: Grid, turn: int, p: Position, q: Position)
    requires InRange(p)
  {
    CapturedUpTo(g, turn, p, |Directions|, q)
  }

  /** Captured cells are on the board, are not p, and hold opponent pieces. */
  lemma {:induction false} InRunCell(g: Grid, turn: int, p: Position, d: Position, q: Position)
    requires InRange(p) && d in Directions && InRun(g, turn, p, d, q)
    ensures InRange(q) && q != p && Cell(g, q) == -turn
  {
    RunLenCells(g, turn, p, d, 1);
  }

  lemma {:induction false} FlipRunCell(h: Grid, turn: int, p: Position, d: Position, m: nat, q: Position)
    requires InRange(p) && d in Directions && m <= RunLen(h, turn, p, d, 1) && InRange(q)
    ensures Cell(FlipRun(h, turn, p, d, m), q) ==
      (if exists t | 1 <= t <= m :: q == Ray(p, d, t) then turn else Cell(h, q))
  {
    if m > 0 {
      FlipRunCell(h, turn, p, d, m - 1, q);
      RunLenInRange(h, turn, p, d, m);
      var onRay := exists t | 1 <= t <= m - 1 :: q == Ray(p, d, t);
      if q == Ray(p, d, m) {
        assert exists t | 1 <= t <= m :: q == Ray(p, d, t);
      } else {
        assert (exists t | 1 <= t <= m :: q == Ray(p, d, t)) == onRay;
      }
    }
  }

  /** The flip loop of a valid direction: after m of the n captured cells are
      flipped, the next cell of the ray is on the board, and it holds the mover's
      colour exactly when m == n, which is when the loop stops. */
  lemma {:induction false} FlipRunNext(h: Grid, turn: int, p: Position, d: Position, m: nat)
    requires InRange(p) && d in Directions && IsPlayer(turn) && ValidDir(h, turn, d, p)
    requires m <= RunLen(h, turn, p, d, 1)
    ensures InRange(Ray(p, d, m + 1))
    ensures Cell(FlipRun(h, turn, p, d, m), Ray(p, d, m + 1)) == turn <==> m == RunLen(h, turn, p, d, 1)
  {
    var n := RunLen(h, turn, p, d, 1);
    RunLenCells(h, turn, p, d, 1);
    var q := Ray(p, d, m + 1);
    FlipRunCell(h, turn, p, d, m, q);
    forall t | 1 <= t <= m ensures q != Ray(p, d, t) {
      if q == Ray(p, d, t) {
        RaysDisjoint(p, d, d, m + 1, t);
      }
    }
  }

  /** The state of the flip loop of Move for direction d after `count` flips:
      cursor `next` is the next cell of the ray, which holds the mover's colour
      exactly when the whole run has been flipped. */
  ghost predicate FlipLoop(h: Grid, turn: int, p: Position, d: Position, count: int, next: Position, g: Grid)
    requires InRange(p) && d in Directions
  {
    && 0 <= count <= RunLen(h, turn, p, d, 1)
    && next == Ray(p, d, count + 1) && InRange(next)
    && g == FlipRun(h, turn, p, d, count)
    && (Cell(g, next) == turn <==> count == RunLen(h, turn, p, d, 1))
  }

  lemma {:induction false} FlipLoopStart(h: Grid, turn: int, p: Position, d: Position)
    requires InRange(p) && d in Directions && IsPlayer(turn) && ValidDir(h, turn, d, p)
    ensures FlipLoop(h, turn, p, d, 0, Position(p.i + d.i, p.j + d.j), h)
  {
    RayStep(p, d, 0);
    FlipRunNext(h, turn, p, d, 0);
  }

  lemma {:induction false} FlipLoopStep(h: Grid, turn: int, p: Position, d: Position, count: int, next: Position, g: Grid)
    requires InRange(p) && d in Directions && IsPlayer(turn) && ValidDir(h, turn, d, p)
    requires FlipLoop(h, turn, p, d, count, next, g) && Cell(g, next) != turn
    ensures count < RunLen(h, turn, p, d, 1)
    ensures FlipLoop(h, turn, p, d, count + 1, Position(next.i + d.i, next.j + d.j), SetCell(g, next, turn))
  {
    RayStep(p, d, count + 1);
    FlipRunNext(h, turn, p, d, count + 1);
  }

  /** The cells of a run are on the board. */
  lemma {:induction false} RunLenInRange(g: Grid, turn: int, p: Position, d: Position, m: nat)
    requires InRange(p) && d in Directions && 1 <= m <= RunLen(g, turn, p, d, 1)
    ensures InRange(Ray(p, d, m)) && Cell(g, Ray(p, d, m)) == -turn
  {
    RunLenCells(g, turn, p, d, 1);
  }

  /** The first j flips of a run leave its m-th cell alone when j < m: it still
      holds an opponent piece. */
  lemma {:induction false} FlipRunKeeps(h: Grid, turn: int, p: Position, d: Position, j: nat, m: nat)
    requires InRange(p) && d in Directions && j < m <= RunLen(h, turn, p, d, 1)
    ensures InRange(Ray(p, d, m)) && Cell(FlipRun(h, turn, p, d, j), Ray(p, d, m)) == Cell(h, Ray(p, d, m)) == -turn
  {
    RunLenInRange(h, turn, p, d, m);
    FlipRunCell(h, turn, p, d, j, Ray(p, d, m));
    forall t | 1 <= t <= j ensures Ray(p, d, m) != Ray(p, d, t) {
      RayInjective(p, d, m, t);
    }
  }

  /** Turning one opponent cell into a mover cell moves one piece between the counts. */
  lemma {:induction false} CountCapture(g: Grid, q: Position, turn: int)
    requires InRange(q) && IsPlayer(turn) && Cell(g, q) == -turn
    ensures Count(SetCell(g, q, turn), turn) == Count(g, turn) + 1
    ensures Count(SetCell(g, q, turn), -turn) == Count(g, -turn) - 1
  {
    CountSetCell(g, q, turn, turn);
    CountSetCell(g, q, turn, -turn);
  }

  /** After the first m flips of a run, m pieces have moved from the opponent's
      count to the mover's. */
  ghost predicate RunCounts(h: Grid, turn: int, p: Position, d: Position, m: nat)
    requires InRange(p) && d in Directions && m <= RunLen(h, turn, p, d, 1)
  {
    && Count(FlipRun(h, turn, p, d, m), turn) == Count(h, turn) + m
    && Count(FlipRun(h, turn, p, d, m), -turn) == Count(h, -turn) - m
  }

  lemma {:induction false} FlipRunCountStep(h: Grid, turn: int, p: Position, d: Position, k: nat)
    requires InRange(p) && d in Directions && k < RunLen(h, turn, p, d, 1) && IsPlayer(turn)
    requires RunCounts(h, turn, p, d, k)
    ensures RunCounts(h, turn, p, d, k + 1)
  {
    FlipRunKeeps(h, turn, p, d, k, k + 1);
    CountCapture(FlipRun(h, turn, p, d, k), Ray(p, d, k + 1), turn);
  }

  /** Each step of a run turns one opponent cell into a mover cell. */
  lemma {:induction false} FlipRunCount(h: Grid, turn: int, p: Position, d: Position, m: nat)
    requires InRange(p) && d in Directions && m <= RunLen(h, turn, p, d, 1) && IsPlayer(turn)
    ensures RunCounts(h, turn, p, d, m)
  {
    if m > 0 {
      var k: nat := m - 1;
      FlipRunCount(h, turn, p, d, k);
      FlipRunCountStep(h, turn, p, d, k);
    }
  }

  /** The earlier directions' runs do not touch p or the ray along the k-th
      direction, so that direction is judged alike on both grids. */
  lemma {:induction false} FlipDirsAgree(g: Grid, h: Grid, turn: int, p: Position, k: nat)
    requires InRange(p) && 0 < k <= |Directions|
    requires forall q | InRange(q) :: Cell(h, q) == if CapturedUpTo(g, turn, p, k - 1, q) then turn else Cell(g, q)
    ensures RunLen(h, turn, p, Directions[k - 1], 1) == RunLen(g, turn, p, Directions[k - 1], 1)
    ensures ValidDir(h, turn, Directions[k - 1], p) == ValidDir(g, turn, Directions[k - 1], p)
  {
    var d := Directions[k - 1];
    forall t | t >= 1 && InRange(Ray(p, d, t)) ensures Cell(h, Ray(p, d, t)) == Cell(g, Ray(p, d, t)) {
      if CapturedUpTo(g, turn, p, k - 1, Ray(p, d, t)) {
        var t' :| 0 <= t' < k - 1 && InRun(g, turn, p, Directions[t'], Ray(p, d, t));
        var s :| 1 <= s <= RunLen(g, turn, p, Directions[t'], 1) && Ray(p, d, t) == Ray(p, Directions[t'], s);
        RaysDisjoint(p, d, Directions[t'], t, s);
        DirectionsDistinct();
      }
    }
    if CapturedUpTo(g, turn, p, k - 1, p) {
      var t' :| 0 <= t' < k - 1 && InRun(g, turn, p, Directions[t'], p);
      InRunCell(g, turn, p, Directions[t'], p);
    }
    ValidDirAgree(h, g, turn, p, d);
  }

  /** Being captured along the first k directions: along the first k - 1, or along the k-th. */
  lemma {:induction false} CapturedUpToStep(g: Grid, turn: int, p: Position, k: nat, q: Position)
    requires InRange(p) && 0 < k <= |Directions|
    ensures CapturedUpTo(g, turn, p, k, q) <==>
              CapturedUpTo(g, turn, p, k - 1, q) || InRun(g, turn, p, Directions[k - 1], q)
  {
    if CapturedUpTo(g, turn, p, k, q) && !InRun(g, turn, p, Directions[k - 1], q) {
      var t :| 0 <= t < k && InRun(g, turn, p, Directions[t], q);
      assert t < k - 1;
    }
    if InRun(g, turn, p, Directions[k - 1], q) {
      assert 0 <= k - 1 < k;
    }
  }

  /** The flip loop, judged direction by direction on the partly flipped grid, has
      the same effect as judging every direction on the grid before the move. */
  lemma {:induction false} FlipDirsCell(g: Grid, turn: int, p: Position, k: nat)
    requires InRange(p) && k <= |Directions|
    ensures forall q | InRange(q) ::
              Cell(FlipDirs(g, turn, p, k), q) == if CapturedUpTo(g, turn, p, k, q) then turn else Cell(g, q)
  {
    if k > 0 {
      FlipDirsCell(g, turn, p, k - 1);
      var h := FlipDirs(g, turn, p, k - 1);
      var d := Directions[k - 1];
      FlipDirsAgree(g, h, turn, p, k);
      forall q | InRange(q) ensures Cell(FlipDirs(g, turn, p, k), q) ==
        (if CapturedUpTo(g, turn, p, k, q) then turn else Cell(g, q))
      {
        if ValidDir(h, turn, d, p) {
          FlipRunCell(h, turn, p, d, RunLen(h, turn, p, d, 1), q);
        }
        CapturedUpToStep(g, turn, p, k, q);
      }
    }
  }

  /** flippedCount, summed over directions judged on the partly flipped grid,
      is the total length of the runs judged on the original grid. */
  lemma {:induction false} FlipTotalRuns(g: Grid, turn: int, p: Position, k: nat)
    requires InRange(p) && k <= |Directions|
    ensures FlipTotal(g, turn, p, k) == RunsUpTo(g, turn, p, k)
  {
    if k > 0 {
      FlipTotalRuns(g, turn, p, k - 1);
      FlipDirsCell(g, turn, p, k - 1);
      FlipDirsAgree(g, FlipDirs(g, turn, p, k - 1), turn, p, k);
    }
  }

  /** Flipping keeps the grid to 0, 1 and -1. */
  lemma {:induction false} FlipDirsValues(g: Grid, turn: int, p: Position, k: nat)
    requires InRange(p) && k <= |Directions| && IsPlayer(turn) && ValuesOk(g)
    ensures ValuesOk(FlipDirs(g, turn, p, k))
  {
    FlipDirsCell(g, turn, p, k);
  }

  /** The state of the direction loop of Move after k directions. */
  ghost predicate FlipDirsLoop(g0: Grid, turn: int, p: Position, k: nat, g: Grid, fc: int)
    requires InRange(p)
  {
    k <= |Directions| && g == FlipDirs(g0, turn, p, k) && fc == FlipTotal(g0, turn, p, k) && ValuesOk(g)
  }

  lemma {:induction false} FlipDirsLoopStep(g0: Grid, turn: int, p: Position, k: nat, g: Grid, fc: int)
    requires InRange(p) && IsPlayer(turn) && ValuesOk(g0) && k < |Directions| && FlipDirsLoop(g0, turn, p, k, g, fc)
    ensures FlipDirsLoop(g0, turn, p, k + 1, DirStep(g, turn, p, Directions[k]), fc + DirCount(g, turn, p, Directions[k]))
  {
    FlipDirsValues(g0, turn, p, k + 1);
  }

  /** The flip loop changes the counts by flippedCount in each direction. */
  lemma {:induction false} FlipDirsCount(g: Grid, turn: int, p: Position, k: nat)
    requires InRange(p) && k <= |Directions| && IsPlayer(turn)
    ensures Count(FlipDirs(g, turn, p, k), turn) == Count(g, turn) + FlipTotal(g, turn, p, k)
    ensures Count(FlipDirs(g, turn, p, k), -turn) == Count(g, -turn) - FlipTotal(g, turn, p, k)
  {
    if k > 0 {
      FlipDirsCount(g, turn, p, k - 1);
      var h := FlipDirs(g, turn, p, k - 1);
      var d := Directions[k - 1];
      if ValidDir(h, turn, d, p) {
        FlipRunCount(h, turn, p, d, RunLen(h, turn, p, d, 1));
      }
    }
  }

  /** The exact effect of a move on the grid: p and the captured cells become
      `turn`, nothing else changes, and every captured cell was an opponent piece. */
  lemma {:induction false} MoveGridCells(g: Grid, turn: int, p: Position)
    requires InRange(p)
    ensures forall q | InRange(q) ::
              Cell(MoveGrid(g, turn, p), q) == if q == p || Captured(g, turn, p, q) then turn else Cell(g, q)
    ensures forall q | InRange(q) && Captured(g, turn, p, q) :: q != p && Cell(g, q) == -turn
  {
    FlipDirsCell(g, turn, p, |Directions|);
    forall q | InRange(q) && Captured(g, turn, p, q) ensures q != p && Cell(g, q) == -turn {
      var t :| 0 <= t < |Directions| && InRun(g, turn, p, Directions[t], q);
      InRunCell(g, turn, p, Directions[t], q);
    }
  }

  /** A move on an empty cell adds flippedCount + 1 mover pieces and removes
      flippedCount opponent pieces; flippedCount is the total length of the
      capturing runs judged on the grid before the move. */
  lemma {:induction false} MoveGridCounts(g: Grid, turn: int, p: Position)
    requires InRange(p) && IsPlayer(turn) && Cell(g, p) == Empty
    ensures Count(MoveGrid(g, turn, p), turn) == Count(g, turn) + FlipTotal(g, turn, p, |Directions|) + 1
    ensures Count(MoveGrid(g, turn, p), -turn) == Count(g, -turn) - FlipTotal(g, turn, p, |Directions|)
    ensures FlipTotal(g, turn, p, |Directions|) == RunsUpTo(g, turn, p, |Directions|)
  {
    var h := FlipDirs(g, turn, p, |Directions|);
    FlipDirsCount(g, turn, p, |Directions|);
    FlipDirsCell(g, turn, p, |Directions|);
    FlipTotalRuns(g, turn, p, |Directions|);
    MoveGridCells(g, turn, p);
    assert Cell(h, p) == Empty;
    CountSetCell(h, p, turn, turn);
    CountSetCell(h, p, turn, -turn);
  }
}
