/**
 * The Board of reversi.go as an object whose methods update its fields in
 * place, each method proved against the functions of ReversiRules and
 * ReversiState.
 */
module ReversiBoard {
  import opened ReversiRules
  import opened ReversiState

  /** The input of SetGame: the black and the white pieces, and whose turn it is. */
  datatype GameState = GameState(blackFilled: seq<Position>, whiteFilled: seq<Position>, turn: int)

  /** The grid with every cell empty. */
  function EmptyGrid(): Grid
  {
    seq(Size, _ => seq(Size, _ => Empty))
  }

  /** The grid with the cells of ps, one after another, set to v. */
  function Paint(g: Grid, ps: seq<Position>, v: int): Grid
    requires forall x | x in ps :: InRange(x)
  {
    if ps == [] then g else SetCell(Paint(g, ps[..|ps| - 1], v), ps[|ps| - 1], v)
  }

  lemma {:induction false} PaintCell(g: Grid, ps: seq<Position>, v: int, q: Position)
    requires (forall x | x in ps :: InRange(x)) && InRange(q)
    ensures Cell(Paint(g, ps, v), q) == if q in ps then v else Cell(g, q)
  {
    if ps != [] {
      PaintCell(g, ps[..|ps| - 1], v, q);
      assert ps == ps[..|ps| - 1] + [ps[|ps| - 1]];
    }
  }

  /** The grid SetGame builds: black pieces first, then white ones over them. */
  function GameGrid(s: GameState): Grid
    requires forall x | x in s.blackFilled :: InRange(x)
    requires forall x | x in s.whiteFilled :: InRange(x)
  {
    Paint(Paint(EmptyGrid(), s.blackFilled, Black), s.whiteFilled, White)
  }

  /** A cell of SetGame's grid is white if it is listed as white, else black if
      it is listed as black, else empty; so the grid holds only 0, 1 and -1. */
  lemma {:induction false} GameGridCells(s: GameState)
    requires forall x | x in s.blackFilled :: InRange(x)
    requires forall x | x in s.whiteFilled :: InRange(x)
    ensures forall q | InRange(q) ::
              Cell(GameGrid(s), q) == if q in s.whiteFilled then White else if q in s.blackFilled then Black else Empty
    ensures ValuesOk(GameGrid(s))
  {
    forall q | InRange(q)
      ensures Cell(GameGrid(s), q) == if q in s.whiteFilled then White else if q in s.blackFilled then Black else Empty
    {
      PaintCell(EmptyGrid(), s.blackFilled, Black, q);
      PaintCell(Paint(EmptyGrid(), s.blackFilled, Black), s.whiteFilled, White, q);
    }
  }

  /** The start position: white on (3,3) and (4,4), black on (3,4) and (4,3). */
  function StartGrid(): Grid
  {
    SetCell(SetCell(SetCell(SetCell(EmptyGrid(), Position(3, 3), White), Position(4, 4), White),
                    Position(3, 4), Black), Position(4, 3), Black)
  }

  class Board {
    var grid: Grid
    var filled: seq<Position>
    var empty: seq<Position>
    var neighbours: seq<Position>
    var validSpace: seq<Position>
    var blackScore: int
    var whiteScore: int
    var winner: int
    var turn: int

    /** The fields as one value. */
    function Value(): BoardState
      reads this
    {
      BoardState(grid, filled, empty, neighbours, validSpace, blackScore, whiteScore, winner, turn)
    }

    ghost predicate Valid()
      reads this
    {
      Inv(Value())
    }

    /** A copy of a Board value (the source copies Board structs by assignment). */
    constructor FromValue(s: BoardState)
      ensures Value() == s
    {
      grid, filled, empty, neighbours, validSpace := s.grid, s.filled, s.empty, s.neighbours, s.validSpace;
      blackScore, whiteScore, winner, turn := s.blackScore, s.whiteScore, s.winner, s.turn;
    }

    /** getNeighbour: the empty on-board cells next to piece, in direction order. */
    method GetNeighbour(piece: Position) returns (ns: seq<Position>)
      ensures ns == EmptyNeighbours(grid, piece)
    {
      ns := [];
      var k := 0;
      while k < |Directions|
        invariant 0 <= k <= |Directions|
        invariant ns == NeighboursUpTo(grid, piece, k)
      {
        var dir := Directions[k];
        var currPos := Position(piece.i + dir.i, piece.j + dir.j);
        assert currPos == Ray(piece, dir, 1);
        if InRange(currPos) && grid[currPos.i][currPos.j] == Empty {
          ns := ns + [currPos];
        }
        k := k + 1;
      }
    }

    /** initNeighbours: the empty neighbours of every filled cell, merged without repeats. */
    method InitNeighbours()
      modifies this`neighbours
      ensures neighbours == FrontierOf(grid, filled)
    {
      var fs := filled;
      var ns: seq<Position> := [];
      var k := 0;
      while k < |fs|
        invariant 0 <= k <= |fs|
        invariant ns == FrontierOf(grid, fs[..k])
      {
        var pieceNeighbour := GetNeighbour(fs[k]);
        var m := 0;
        while m < |pieceNeighbour|
          invariant 0 <= m <= |pieceNeighbour|
          invariant ns == AddNew(FrontierOf(grid, fs[..k]), pieceNeighbour[..m])
        {
          assert pieceNeighbour[..m + 1][..m] == pieceNeighbour[..m];
          if !PosInSlice(pieceNeighbour[m], ns) {
            ns := ns + [pieceNeighbour[m]];
          }
          m := m + 1;
        }
        assert pieceNeighbour[..m] == pieceNeighbour;
        assert fs[..k + 1][..k] == fs[..k];
        k := k + 1;
      }
      assert fs[..k] == fs;
      neighbours := ns;
    }

    /** getScores: the number of black and of white pieces on the grid. */
    method GetScores() returns (black: int, white: int)
      ensures black == Count(grid, Black) && white == Count(grid, White)
    {
      black, white := 0, 0;
      var i := 0;
      while i < Size
        invariant 0 <= i <= Size
        invariant black == CountUpTo(grid, Black, 8 * i) && white == CountUpTo(grid, White, 8 * i)
      {
        var j := 0;
        while j < Size
          invariant 0 <= j <= Size
          invariant black == CountUpTo(grid, Black, 8 * i + j) && white == CountUpTo(grid, White, 8 * i + j)
        {
          RowMajorIndex(Position(i, j));
          if grid[i][j] == Black {
            black := black + 1;
          }
          if grid[i][j] == White {
            white := white + 1;
          }
          j := j + 1;
        }
        i := i + 1;
      }
    }

    /** The cell loops of Setup: filled and empty in row-major order. */
    method FillLists()
      modifies this`filled, this`empty
      ensures filled == FilledUpTo(grid, 64) && empty == EmptyUpTo(grid, 64)
    {
      filled, empty := [], [];
      var i := 0;
      while i < Size
        invariant 0 <= i <= Size
        invariant filled == FilledUpTo(grid, 8 * i) && empty == EmptyUpTo(grid, 8 * i)
      {
        var j := 0;
        while j < Size
          invariant 0 <= j <= Size
          invariant filled == FilledUpTo(grid, 8 * i + j) && empty == EmptyUpTo(grid, 8 * i + j)
        {
          RowMajorIndex(Position(i, j));
          if grid[i][j] == Empty {
            empty := empty + [Position(i, j)];
          } else {
            filled := filled + [Position(i, j)];
          }
          j := j + 1;
        }
        i := i + 1;
      }
    }

    /** Setup: every field derived from the grid and the turn. */
    method Setup()
      requires ValuesOk(grid)
      modifies this
      ensures Value() == SetupState(old(grid), old(turn))
      ensures Valid()
    {
      blackScore, whiteScore := 0, 0;
      neighbours, validSpace := [], [];
      FillLists();
      InitNeighbours();
      FrontierOfInRange(grid, filled);
      validSpace := GetAllValid();
      blackScore, whiteScore := GetScores();
      winner := Undetermined;
      SetupInv(grid, turn);
    }

    /** checkValidDir: walk the ray from space in direction (iDir, jDir) and
        accept it when it crosses opponent pieces and then meets a mover piece. */
    method CheckValidDir(iDir: int, jDir: int, space: Position) returns (valid: bool)
      requires InRange(space) && Position(iDir, jDir) in Directions && ValuesOk(grid)
      ensures valid == ValidDir(grid, turn, Position(iDir, jDir), space)
    {
      var d := Position(iDir, jDir);
      valid := false;
      if grid[space.i][space.j] == Empty {
        var firstShift := true;
        var cur := space;
        ghost var m := 0;
        while true
          invariant 0 <= m < Size && cur == Ray(space, d, m) && !valid
          invariant Walk(grid, turn, space, d, m, firstShift) == Walk(grid, turn, space, d, 0, true)
          decreases Size - m
        {
          RayStep(space, d, m);
          WalkAt(grid, turn, space, d, m, firstShift);
          cur := Position(cur.i + iDir, cur.j + jDir);
          if !InRange(cur) {
            break;
          } else if grid[cur.i][cur.j] == Empty {
            break;
          } else if grid[cur.i][cur.j] == turn && firstShift {
            break;
          } else if grid[cur.i][cur.j] == turn && !firstShift {
            valid := true;
            break;
          } else if grid[cur.i][cur.j] == -turn {
            firstShift := false;
          }
          m := m + 1;
        }
        WalkValidDir(grid, turn, space, d);
      }
    }

    /** checkValid: whether some direction is valid for a move on space. */
    method CheckValid(space: Position) returns (valid: bool)
      requires InRange(space) && ValuesOk(grid)
      ensures valid == Legal(grid, turn, space)
    {
      valid := false;
      var k := 0;
      while k < |Directions|
        invariant 0 <= k <= |Directions|
        invariant forall t | 0 <= t < k :: !ValidDir(grid, turn, Directions[t], space)
      {
        var dir := Directions[k];
        var ok := CheckValidDir(dir.i, dir.j, space);
        if ok {
          valid := true;
          break;
        }
        k := k + 1;
      }
    }

    /** getAllValid: the cells of the neighbour list where the player to move may move. */
    method GetAllValid() returns (vs: seq<Position>)
      requires (forall x | x in neighbours :: InRange(x)) && ValuesOk(grid)
      ensures vs == ValidMoves(grid, turn, neighbours)
    {
      vs := [];
      var k := 0;
      while k < |neighbours|
        invariant 0 <= k <= |neighbours|
        invariant vs == ValidMoves(grid, turn, neighbours[..k])
      {
        assert neighbours[..k + 1][..k] == neighbours[..k];
        var n := neighbours[k];
        var ok := CheckValid(n);
        if ok {
          vs := vs + [Position(n.i, n.j)];
        }
        k := k + 1;
      }
      assert neighbours[..k] == neighbours;
    }

    /** The inner flip loop of Move for one valid direction: flip opponent pieces
        until a mover piece is met. */
    method FlipDirection(piece: Position, dir: Position) returns (count: int)
      requires InRange(piece) && dir in Directions && IsPlayer(turn) && ValidDir(grid, turn, dir, piece)
      modifies this`grid
      ensures count == RunLen(old(grid), turn, piece, dir, 1)
      ensures grid == FlipRun(old(grid), turn, piece, dir, count)
    {
      ghost var h := grid;
      count := 0;
      var nextPiece := Position(piece.i + dir.i, piece.j + dir.j);
      FlipLoopStart(h, turn, piece, dir);
      while grid[nextPiece.i][nextPiece.j] != turn
        invariant FlipLoop(h, turn, piece, dir, count, nextPiece, grid)
        decreases RunLen(h, turn, piece, dir, 1) - count
      {
        FlipLoopStep(h, turn, piece, dir, count, nextPiece, grid);
        grid := SetCell(grid, nextPiece, turn);
        count := count + 1;
        nextPiece := Position(nextPiece.i + dir.i, nextPiece.j + dir.j);
      }
      assert Cell(grid, nextPiece) == turn;
    }

    /** One pass of the direction loop of Move: flip along dir when checkValidDir accepts it. */
    method FlipIfValid(piece: Position, dir: Position) returns (count: int)
      requires InRange(piece) && dir in Directions && IsPlayer(turn) && ValuesOk(grid)
      modifies this`grid
      ensures count == DirCount(old(grid), turn, piece, dir)
      ensures grid == DirStep(old(grid), turn, piece, dir)
    {
      count := 0;
      var ok := CheckValidDir(dir.i, dir.j, piece);
      if ok {
        count := FlipDirection(piece, dir);
      }
    }

    /** The outer flip loop of Move: every direction, judged on the grid the
        earlier directions left, flipped when valid. */
    method FlipAll(piece: Position) returns (flippedCount: int)
      requires InRange(piece) && IsPlayer(turn) && ValuesOk(grid)
      modifies this`grid
      ensures flippedCount == FlipTotal(old(grid), turn, piece, |Directions|)
      ensures grid == FlipDirs(old(grid), turn, piece, |Directions|)
    {
      ghost var g0 := grid;
      flippedCount := 0;
      for k := 0 to |Directions|
        invariant FlipDirsLoop(g0, turn, piece, k, grid, flippedCount)
      {
        ghost var g1, f1 := grid, flippedCount;
        FlipDirsLoopStep(g0, turn, piece, k, g1, f1);
        var count := FlipIfValid(piece, Directions[k]);
        flippedCount := flippedCount + count;
        assert grid == DirStep(g1, turn, piece, Directions[k]) && flippedCount == f1 + DirCount(g1, turn, piece, Directions[k]);
      }
    }

    /** The neighbour loop of Move: the old list followed by the placed piece's
        empty neighbours, without the piece and without repeats; the field is
        stored right after each append only. */
    method UpdateNeighbours(piece: Position)
      modifies this
      ensures Value() == old(Value()).(neighbours := NewNeighbours(old(neighbours), EmptyNeighbours(grid, piece), piece))
    {
      var pn := GetNeighbour(piece);
      var temp := neighbours + pn;
      var newSet: seq<Position> := [];
      var k := 0;
      while k < |temp|
        invariant 0 <= k <= |temp|
        invariant newSet == DropAndDedup(temp[..k], piece)
        invariant Value() == old(Value()).(neighbours := if newSet == [] then old(neighbours) else newSet)
      {
        assert temp[..k + 1][..k] == temp[..k];
        var n := temp[k];
        if n == piece {
        } else if !PosInSlice(n, newSet) {
          newSet := newSet + [n];
          neighbours := newSet;
        }
        k := k + 1;
      }
      assert temp[..k] == temp;
    }

    /** The end of Move: pass the turn, or keep it when the opponent cannot
        move, or decide the winner when neither side can. */
    method ResolveTurn()
      requires (forall x | x in neighbours :: InRange(x)) && ValuesOk(grid)
      modifies this
      ensures Value() == PassTurn(old(Value()))
    {
      ghost var c := Value();
      turn := -turn;
      validSpace := GetAllValid();
      if |validSpace| == 0 {
        turn := -turn;
        validSpace := GetAllValid();
        if |validSpace| == 0 {
          if blackScore > whiteScore {
            winner := Black;
          } else if blackScore < whiteScore {
            winner := White;
          } else {
            winner := Draw;
          }
        }
        assert Value() == c.(validSpace := validSpace, winner := winner);
      } else {
        assert Value() == c.(validSpace := validSpace, turn := -c.turn);
      }
    }

    /** The first half of a legal Move: flip, place the piece, update the scores and the neighbour list. */
    method PlacePiece(piece: Position)
      requires InRange(piece) && IsPlayer(turn) && ValuesOk(grid)
      requires forall x | x in neighbours :: InRange(x)
      modifies this
      ensures Value() == Place(old(Value()), piece)
    {
      var flippedCount := FlipAll(piece);
      grid := SetCell(grid, piece, turn);
      if turn == Black {
        blackScore := blackScore + flippedCount + 1;
        whiteScore := whiteScore - flippedCount;
      } else {
        blackScore := blackScore - flippedCount;
        whiteScore := whiteScore + flippedCount + 1;
      }
      UpdateNeighbours(piece);
    }

    /** Move: play piece if it is in validSpace, and do nothing otherwise. */
    method Move(piece: Position)
      requires Valid()
      modifies this
      ensures Value() == MoveSpec(old(Value()), piece)
      ensures Valid()
      ensures piece !in old(validSpace) ==> Value() == old(Value())
    {
      ghost var b0 := Value();
      MovePreservesInv(b0, piece);
      if !PosInSlice(piece, validSpace) {
        return;
      }
      MoveLegal(b0, piece);
      MoveCells(b0, piece);
      PlacePiece(piece);
      MoveValues(b0, piece);
      ResolveTurn();
    }
  }

  /** SetGame: a Board rebuilt from lists of black and white pieces and a turn. */
  method SetGame(state: GameState) returns (b: Board)
    requires forall x | x in state.blackFilled :: InRange(x)
    requires forall x | x in state.whiteFilled :: InRange(x)
    ensures fresh(b)
    ensures b.Value() == SetupState(GameGrid(state), state.turn)
    ensures b.Valid()
  {
    var g := EmptyGrid();
    var k := 0;
    while k < |state.blackFilled|
      invariant 0 <= k <= |state.blackFilled|
      invariant g == Paint(EmptyGrid(), state.blackFilled[..k], Black)
    {
      assert state.blackFilled[..k + 1][..k] == state.blackFilled[..k];
      var x := state.blackFilled[k];
      assert x in state.blackFilled;
      g := SetCell(g, x, Black);
      k := k + 1;
    }
    assert state.blackFilled[..k] == state.blackFilled;
    k := 0;
    ghost var gb := g;
    while k < |state.whiteFilled|
      invariant 0 <= k <= |state.whiteFilled|
      invariant g == Paint(gb, state.whiteFilled[..k], White)
    {
      assert state.whiteFilled[..k + 1][..k] == state.whiteFilled[..k];
      var x := state.whiteFilled[k];
      assert x in state.whiteFilled;
      g := SetCell(g, x, White);
      k := k + 1;
    }
    assert state.whiteFilled[..k] == state.whiteFilled;
    GameGridCells(state);
    b := new Board.FromValue(BoardState(g, [], [], [], [], 0, 0, Undetermined, state.turn));
    b.Setup();
  }

  /** newGame: the start position with black to move, two pieces each, and
      black's four opening moves as validSpace; the game can go on. */
  method NewGame() returns (b: Board)
    ensures fresh(b)
    ensures b.Value() == SetupState(StartGrid(), Black)
    ensures b.Valid() && Live(b.Value())
    ensures b.turn == Black && b.winner == Undetermined && b.blackScore == 2 && b.whiteScore == 2
    ensures NoDup(b.validSpace) && forall q :: q in b.validSpace <==> q in StartMoves
  {
    StartFacts();
    var g := EmptyGrid();
    g := g[3 := g[3][3 := White]];
    g := g[4 := g[4][4 := White]];
    g := g[3 := g[3][4 := Black]];
    g := g[4 := g[4][3 := Black]];
    assert g == StartGrid();
    StartGridCells();
    b := new Board.FromValue(BoardState(g, [], [], [], [], 0, 0, Undetermined, Black));
    b.Setup();
  }

  /** The cell values of the start position. */
  function StartCell(x: Position): int
  {
    if x == Position(3, 3) || x == Position(4, 4) then White
    else if x == Position(3, 4) || x == Position(4, 3) then Black
    else Empty
  }

  /** The legal moves of black in the start position. */
  const StartMoves: seq<Position> := [Position(2, 3), Position(3, 2), Position(4, 5), Position(5, 4)]

  /** The start grid holds two white and two black pieces in the centre and
      nothing else, so only 0, 1 and -1. */
  lemma {:induction false} StartGridCells()
    ensures forall x | InRange(x) :: Cell(StartGrid(), x) == StartCell(x)
    ensures ValuesOk(StartGrid())
  {
  }

  /** An empty grid holds no piece of either colour. */
  lemma {:induction false} EmptyGridCount(v: int, k: nat)
    requires v != Empty && k <= 64
    ensures CountUpTo(EmptyGrid(), v, k) == 0
  {
    if k > 0 {
      EmptyGridCount(v, k - 1);
      IndexRowMajor(k - 1);
    }
  }

  /** Each side starts with two pieces. */
  lemma {:induction false} StartCounts()
    ensures Count(StartGrid(), Black) == 2 && Count(StartGrid(), White) == 2
  {
    var g0 := EmptyGrid();
    var g1 := SetCell(g0, Position(3, 3), White);
    var g2 := SetCell(g1, Position(4, 4), White);
    var g3 := SetCell(g2, Position(3, 4), Black);
    EmptyGridCount(Black, 64);
    EmptyGridCount(White, 64);
    CountSetCell(g0, Position(3, 3), White, Black);
    CountSetCell(g0, Position(3, 3), White, White);
    CountSetCell(g1, Position(4, 4), White, Black);
    CountSetCell(g1, Position(4, 4), White, White);
    CountSetCell(g2, Position(3, 4), Black, Black);
    CountSetCell(g2, Position(3, 4), Black, White);
    CountSetCell(g3, Position(4, 3), Black, Black);
    CountSetCell(g3, Position(4, 3), Black, White);
  }

  /** In the start position a run of white pieces that black brackets is a single
      piece: the two white pieces lie on the main diagonal, and no black piece does. */
  lemma {:induction false} StartRunSingle(g: Grid, q: Position, d: Position, n: int)
    requires forall x | InRange(x) :: Cell(g, x) == StartCell(x)
    requires d in Directions && Brackets(g, Black, q, d, n)
    ensures n == 1
  {
    RayStep(q, d, 1);
    assert n >= 2 ==> Ray(q, d, 2) in [Position(3, 3), Position(4, 4)];
  }

  /** ... and the cell before that white piece, with a black piece behind it, is
      one of the four opening moves. */
  lemma {:induction false} StartBracket(g: Grid, q: Position, d: Position)
    requires forall x | InRange(x) :: Cell(g, x) == StartCell(x)
    requires d in Directions && Brackets(g, Black, q, d, 1)
    ensures q in StartMoves
  {
    RayStep(q, d, 1);
  }

  /** In the start position black can play exactly (2,3), (3,2), (4,5) and (5,4),
      each capturing the single white piece next to it. */
  lemma {:induction false} StartLegal(g: Grid, q: Position)
    requires forall x | InRange(x) :: Cell(g, x) == StartCell(x)
    requires InRange(q)
    ensures Legal(g, Black, q) <==> q in StartMoves
  {
    if q in StartMoves {
      StartMoveLegal(g, q);
    }
    if Legal(g, Black, q) {
      StartLegalMove(g, q);
    }
  }

  /** Each opening move captures one piece: (2,3) downwards, (3,2) to the right,
      (4,5) to the left and (5,4) upwards. */
  lemma {:induction false} StartMoveLegal(g: Grid, q: Position)
    requires forall x | InRange(x) :: Cell(g, x) == StartCell(x)
    requires q in StartMoves
    ensures InRange(q) && Legal(g, Black, q)
  {
    var k := if q == Position(2, 3) then 4 else if q == Position(3, 2) then 2 else if q == Position(4, 5) then 6 else 0;
    var d := Directions[k];
    assert Brackets(g, Black, q, d, 1);
    BracketsValidDir(g, Black, d, q, 1);
  }

  /** No other cell is legal for black on the opening grid. */
  lemma {:induction false} StartLegalMove(g: Grid, q: Position)
    requires forall x | InRange(x) :: Cell(g, x) == StartCell(x)
    requires InRange(q) && Legal(g, Black, q)
    ensures q in StartMoves
  {
    var k :| 0 <= k < |Directions| && ValidDir(g, Black, Directions[k], q);
    var d := Directions[k];
    ValidDirBrackets(g, Black, d, q);
    StartRunSingle(g, q, d, RunLen(g, Black, q, d, 1));
    StartBracket(g, q, d);
  }

  /** A list holding exactly the legal cells of black on the opening grid holds
      exactly the four opening moves. */
  lemma {:induction false} StartMovesOf(g: Grid, vs: seq<Position>)
    requires forall x | InRange(x) :: Cell(g, x) == StartCell(x)
    requires forall q :: q in vs <==> InRange(q) && Legal(g, Black, q)
    ensures forall q :: q in vs <==> q in StartMoves
  {
    forall q ensures q in vs <==> q in StartMoves {
      if InRange(q) {
        StartLegal(g, q);
      }
    }
  }

  /** Setup of the start grid: validSpace is black's four opening moves, once each. */
  lemma {:induction false} StartSetup(g: Grid)
    requires forall x | InRange(x) :: Cell(g, x) == StartCell(x)
    ensures var b := SetupState(g, Black);
      && Inv(b) && Live(b)
      && NoDup(b.validSpace)
      && forall q :: q in b.validSpace <==> q in StartMoves
  {
    var b := SetupState(g, Black);
    SetupFacts(g, Black);
    ValidMovesComplete(g, Black, b.neighbours);
    StartMovesOf(g, b.validSpace);
    assert Position(2, 3) in b.validSpace;
  }

  /** The Board newGame builds: black to move, two pieces each, undecided, and
      validSpace holding exactly black's four opening moves, once each; so the
      game can go on. */
  lemma {:induction false} StartFacts()
    ensures var b := SetupState(StartGrid(), Black);
      && Inv(b) && Live(b)
      && b.turn == Black && b.winner == Undetermined
      && b.blackScore == 2 && b.whiteScore == 2
      && NoDup(b.validSpace)
      && forall q :: q in b.validSpace <==> q in StartMoves
  {
    StartGridCells();
    StartSetup(StartGrid());
    StartCounts();
  }
}
