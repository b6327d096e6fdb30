/**
 * The whole of a Board of reversi.go as a value, what Setup derives from a
 * grid, what Move does to a Board, and the invariant of the Board that both keep.
 */
module ReversiState {
  import opened ReversiRules

  /** The winner field: not decided yet, or a draw (black and white win with 1 and -1). */
  const Undetermined := 0
  const Draw := 99

  /** Every field of the source's Board; the length field is always 8 and is the constant Size. */
  datatype BoardState = BoardState(
    grid: Grid,
    filled: seq<Position>,
    empty: seq<Position>,
    neighbours: seq<Position>,
    validSpace: seq<Position>,
    blackScore: int,
    whiteScore: int,
    winner: int,
    turn: int)

  /** The neighbour list is on the board, has no repeats, and its empty cells are
      exactly the frontier. (A cell of the list may be occupied: see Move.) */
  ghost predicate FrontierWeak(g: Grid, nbrs: seq<Position>)
  {
    && (forall q | q in nbrs :: InRange(q))
    && NoDup(nbrs)
    && forall q | InRange(q) :: IsFrontier(g, q) <==> q in nbrs && Cell(g, q) == Empty
  }

  /** The neighbour list holds exactly the frontier. */
  ghost predicate FrontierExact(g: Grid, nbrs: seq<Position>)
  {
    FrontierWeak(g, nbrs) && forall q | q in nbrs :: Cell(g, q) == Empty
  }

  /** The invariant of every Board built by SetGame or newGame and of every Board
      a Move produces. The turn need not be 1 or -1 (SetGame copies it from its
      input), but then there are no legal moves. */
  ghost predicate Inv(b: BoardState)
  {
    && ValuesOk(b.grid)
    && FrontierWeak(b.grid, b.neighbours)
    && b.validSpace == ValidMoves(b.grid, b.turn, b.neighbours)
    && b.blackScore == Count(b.grid, Black)
    && b.whiteScore == Count(b.grid, White)
    && b.winner in {Undetermined, Black, White, Draw}
    && (b.winner != Undetermined ==> b.validSpace == [])
  }

  /** The value Move gives the winner field once neither side can move. */
  function Winner(blackScore: int, whiteScore: int): (w: int)
    ensures w == Black <==> blackScore > whiteScore
    ensures w == White <==> blackScore < whiteScore
    ensures w == Draw <==> blackScore == whiteScore
  {
    if blackScore > whiteScore then Black
    else if blackScore < whiteScore then White
    else Draw
  }

  /** The Board that Setup derives from a grid and a turn. */
  function SetupState(g: Grid, turn: int): BoardState
  {
    var filled := FilledUpTo(g, 64);
    var nbrs := FrontierOf(g, filled);
    FrontierOfInRange(g, filled);
    BoardState(g, filled, EmptyUpTo(g, 64), nbrs, ValidMoves(g, turn, nbrs),
               Count(g, Black), Count(g, White), Undetermined, turn)
  }

  lemma {:induction false} FrontierOfInRange(g: Grid, fs: seq<Position>)
    ensures forall x | x in FrontierOf(g, fs) :: InRange(x)
  {
    FrontierOfElems(g, fs);
    forall x | x in FrontierOf(g, fs) ensures InRange(x) {
      var f :| f in fs && x in EmptyNeighbours(g, f);
      EmptyNeighboursElems(g, f);
    }
  }

  /** Setup's filled and empty lists split the board, each cell once. */
  lemma {:induction false} SetupLists(g: Grid)
    ensures forall q :: q in FilledUpTo(g, 64) <==> InRange(q) && Cell(g, q) != Empty
    ensures forall q :: q in EmptyUpTo(g, 64) <==> InRange(q) && Cell(g, q) == Empty
    ensures NoDup(FilledUpTo(g, 64)) && NoDup(EmptyUpTo(g, 64))
    ensures |FilledUpTo(g, 64)| + |EmptyUpTo(g, 64)| == 64
  {
    FilledUpToElems(g, 64);
    forall q | InRange(q) ensures Index(q) < 64 {
      RowMajorIndex(q);
    }
  }

  /** The neighbour list Setup builds from the filled cells is exactly the frontier. */
  lemma {:induction false} SetupFrontier(g: Grid)
    ensures FrontierExact(g, FrontierOf(g, FilledUpTo(g, 64)))
  {
    var filled := FilledUpTo(g, 64);
    var nbrs := FrontierOf(g, filled);
    SetupLists(g);
    FrontierOfElems(g, filled);
    FrontierOfInRange(g, filled);
    forall x | InRange(x) ensures IsFrontier(g, x) <==> x in nbrs && Cell(g, x) == Empty {
      if IsFrontier(g, x) {
        var r :| InRange(r) && Adjacent(x, r) && Cell(g, r) != Empty;
        EmptyNeighboursElems(g, r);
        AdjacentSym(x, r);
        assert r in filled;
      }
      if x in nbrs {
        var f :| f in filled && x in EmptyNeighbours(g, f);
        EmptyNeighboursElems(g, f);
        AdjacentSym(x, f);
      }
    }
    forall x | x in nbrs ensures Cell(g, x) == Empty {
      var f :| f in filled && x in EmptyNeighbours(g, f);
      EmptyNeighboursElems(g, f);
    }
  }

  /** Setup's promise: filled and empty split the board in row-major order, the
      neighbour list is exactly the frontier, validSpace is exactly the set of
      legal moves, the scores count the pieces, and together they count the
      filled cells, at most 64. */
  lemma {:induction false} SetupFacts(g: Grid, turn: int)
    requires ValuesOk(g)
    ensures var b := SetupState(g, turn);
      && Inv(b)
      && FrontierExact(g, b.neighbours)
      && (forall q :: q in b.filled <==> InRange(q) && Cell(g, q) != Empty)
      && (forall q :: q in b.empty <==> InRange(q) && Cell(g, q) == Empty)
      && NoDup(b.filled) && NoDup(b.empty) && |b.filled| + |b.empty| == 64
      && (forall q :: q in b.validSpace <==> InRange(q) && Legal(g, turn, q))
      && b.blackScore + b.whiteScore == |b.filled| <= 64
      && (!IsPlayer(turn) ==> b.validSpace == [])
  {
    var b := SetupState(g, turn);
    SetupLists(g);
    SetupFrontier(g);
    ValidMovesComplete(g, turn, b.neighbours);
    CountUpToFilled(g, 64);
    if !IsPlayer(turn) && b.validSpace != [] {
      var q := b.validSpace[0];
      LegalNeedsPlayer(g, turn, q);
    }
  }

  lemma {:induction false} SetupInv(g: Grid, turn: int)
    requires ValuesOk(g)
    ensures Inv(SetupState(g, turn))
  {
    SetupFacts(g, turn);
  }

  /** getAllValid over a list satisfying the frontier invariant finds every legal
      move of the board, and only legal moves. */
  lemma {:induction false} ValidMovesComplete(g: Grid, turn: int, nbrs: seq<Position>)
    requires FrontierWeak(g, nbrs) && ValuesOk(g)
    ensures forall q :: q in ValidMoves(g, turn, nbrs) <==> InRange(q) && Legal(g, turn, q)
    ensures NoDup(ValidMoves(g, turn, nbrs))
  {
    ValidMovesElems(g, turn, nbrs);
    forall q | InRange(q) && Legal(g, turn, q) ensures q in nbrs {
      LegalNeedsPlayer(g, turn, q);
      LegalIsFrontier(g, turn, q);
    }
  }

  // ---------------------------------------------------------------------------
  // The neighbour update of Move

  /** The list Move's neighbour loop builds from s: s without p and without repeats. */
  function DropAndDedup(s: seq<Position>, p: Position): seq<Position>
  {
    if s == [] then []
    else
      var a := DropAndDedup(s[..|s| - 1], p);
      var e := s[|s| - 1];
      if e == p || e in a then a else a + [e]
  }

  lemma {:induction false} DropAndDedupElems(s: seq<Position>, p: Position)
    ensures forall x :: x in DropAndDedup(s, p) <==> x in s && x != p
    ensures NoDup(DropAndDedup(s, p))
  {
    if s != [] {
      DropAndDedupElems(s[..|s| - 1], p);
      assert s == s[..|s| - 1] + [s[|s| - 1]];
    }
  }

  /** The neighbours field after Move's loop. The loop stores its list only right
      after appending to it, so when nothing is appended (every candidate is p)
      the prev list stays. */
  function NewNeighbours(prev: seq<Position>, extra: seq<Position>, p: Position): seq<Position>
  {
    var r := DropAndDedup(prev + extra, p);
    if r == [] then prev else r
  }

  /** The frontier after a move at p, given only that p was empty and is now
      occupied and that no other cell changed between empty and occupied. */
  lemma {:induction false} FrontierStep(g: Grid, g2: Grid, p: Position, prev: seq<Position>)
    requires InRange(p) && Cell(g, p) == Empty && Cell(g2, p) != Empty
    requires forall q | InRange(q) && q != p :: (Cell(g2, q) == Empty) == (Cell(g, q) == Empty)
    requires FrontierWeak(g, prev)
    ensures var extra := EmptyNeighbours(g2, p);
      var r := DropAndDedup(prev + extra, p);
      && (forall x :: x in r <==> (x in prev || x in extra) && x != p)
      && NoDup(r)
      && FrontierWeak(g2, NewNeighbours(prev, extra, p))
      && (r == [] ==> forall q :: !IsFrontier(g2, q))
      && (r != [] && FrontierExact(g, prev) ==> FrontierExact(g2, r))
  {
    var extra := EmptyNeighbours(g2, p);
    var r := DropAndDedup(prev + extra, p);
    var nb := NewNeighbours(prev, extra, p);
    EmptyNeighboursElems(g2, p);
    DropAndDedupElems(prev + extra, p);
    forall q | InRange(q) && IsFrontier(g2, q) ensures q in r {
      var w :| InRange(w) && Adjacent(q, w) && Cell(g2, w) != Empty;
      if w == p {
        AdjacentSym(q, p);
      } else {
        assert IsFrontier(g, q);
      }
    }
    forall q | InRange(q) && q in r && Cell(g2, q) == Empty ensures IsFrontier(g2, q) {
      if q in extra {
        AdjacentSym(p, q);
        assert InRange(p) && Adjacent(q, p) && Cell(g2, p) != Empty;
      } else {
        assert IsFrontier(g, q);
        var w :| InRange(w) && Adjacent(q, w) && Cell(g, w) != Empty;
        assert Cell(g2, w) != Empty;
      }
    }
    if r == [] {
      forall q ensures !IsFrontier(g2, q) {
        if IsFrontier(g2, q) {
          assert false;
        }
      }
      assert nb == prev;
      forall q | q in prev ensures q == p {
        if q != p {
          assert false;
        }
      }
      forall q | InRange(q) ensures IsFrontier(g2, q) <==> q in nb && Cell(g2, q) == Empty {
      }
    }
  }

  lemma {:induction false} AdjacentSym(p: Position, q: Position)
    ensures Adjacent(p, q) <==> Adjacent(q, p)
  {
  }

  // ---------------------------------------------------------------------------
  // Move

  /** The game can go on: an undecided game has a legal move to play (simRand relies on it). */
  ghost predicate Live(b: BoardState)
  {
    b.winner == Undetermined ==> b.validSpace != []
  }

  lemma {:induction false} NewNeighboursInRange(prev: seq<Position>, extra: seq<Position>, p: Position)
    requires forall x | x in prev :: InRange(x)
    requires forall x | x in extra :: InRange(x)
    ensures forall x | x in NewNeighbours(prev, extra, p) :: InRange(x)
  {
    DropAndDedupElems(prev + extra, p);
  }

  /** Move on a Board: a position outside validSpace leaves the Board as it is;
      otherwise the piece is placed (Place) and the turn resolved (PassTurn). */
  function MoveSpec(b: BoardState, p: Position): BoardState
    requires Inv(b)
  {
    if p !in b.validSpace then b
    else
      ValidMovesElems(b.grid, b.turn, b.neighbours);
      PassTurn(Place(b, p))
  }

  /** The first half of a legal Move: the captures are flipped and the piece
      placed, the scores move by the source's formula and the neighbour list is
      updated; validSpace, winner and turn are not touched yet. */
  function Place(b: BoardState, p: Position): (r: BoardState)
    requires InRange(p) && forall x | x in b.neighbours :: InRange(x)
    ensures forall x | x in r.neighbours :: InRange(x)
  {
    var turn := b.turn;
    var g := MoveGrid(b.grid, turn, p);
    var fc := FlipTotal(b.grid, turn, p, |Directions|);
    var extra := EmptyNeighbours(g, p);
    EmptyNeighboursElems(g, p);
    NewNeighboursInRange(b.neighbours, extra, p);
    b.(grid := g,
       neighbours := NewNeighbours(b.neighbours, extra, p),
       blackScore := if turn == Black then b.blackScore + fc + 1 else b.blackScore - fc,
       whiteScore := if turn == Black then b.whiteScore - fc else b.whiteScore + fc + 1)
  }

  /** The second half of a legal Move: the opponent moves next if they can, else
      the mover if they can, else the winner is decided by the scores. */
  function PassTurn(c: BoardState): BoardState
    requires forall x | x in c.neighbours :: InRange(x)
  {
    var v1 := ValidMoves(c.grid, -c.turn, c.neighbours);
    if v1 != [] then c.(validSpace := v1, turn := -c.turn)
    else
      var v2 := ValidMoves(c.grid, c.turn, c.neighbours);
      c.(validSpace := v2, winner := if v2 == [] then Winner(c.blackScore, c.whiteScore) else c.winner)
  }

  /** The grid of a legal move: exactly the placed cell and the captured runs,
      judged on the grid before the move, become the mover's; each captured cell
      held an opponent piece; the placed cell was empty. */
  lemma {:induction false} MoveCells(b: BoardState, p: Position)
    requires Inv(b) && p in b.validSpace
    ensures InRange(p) && Cell(b.grid, p) == Empty && IsPlayer(b.turn)
    ensures forall q | InRange(q) ::
              Cell(MoveSpec(b, p).grid, q) == if q == p || Captured(b.grid, b.turn, p, q) then b.turn else Cell(b.grid, q)
    ensures forall q | InRange(q) && Captured(b.grid, b.turn, p, q) :: q != p && Cell(b.grid, q) == -b.turn
  {
    ValidMovesElems(b.grid, b.turn, b.neighbours);
    LegalNeedsPlayer(b.grid, b.turn, p);
    var k :| 0 <= k < |Directions| && ValidDir(b.grid, b.turn, Directions[k], p);
    MoveGridCells(b.grid, b.turn, p);
  }

  /** The scores of a legal move: the mover gains flippedCount + 1, the opponent
      loses flippedCount, flippedCount is the total length of the captured runs,
      so exactly one piece is added, and the board never holds more than 64. */
  lemma {:induction false} MoveScores(b: BoardState, p: Position)
    requires Inv(b) && p in b.validSpace
    ensures InRange(p)
    ensures var n := MoveSpec(b, p);
      var fc := RunsUpTo(b.grid, b.turn, p, |Directions|);
      && (b.turn == Black ==> n.blackScore == b.blackScore + fc + 1 && n.whiteScore == b.whiteScore - fc)
      && (b.turn == White ==> n.whiteScore == b.whiteScore + fc + 1 && n.blackScore == b.blackScore - fc)
      && n.blackScore == Count(n.grid, Black) && n.whiteScore == Count(n.grid, White)
      && n.blackScore + n.whiteScore == b.blackScore + b.whiteScore + 1 <= 64
  {
    MoveCells(b, p);
    MoveGridCounts(b.grid, b.turn, p);
    CountUpToFilled(MoveSpec(b, p).grid, 64);
    MoveValues(b, p);
  }

  lemma {:induction false} MoveValues(b: BoardState, p: Position)
    requires Inv(b) && p in b.validSpace
    ensures ValuesOk(MoveSpec(b, p).grid)
  {
    MoveCells(b, p);
  }

  /** The neighbour list after a legal move: the old list and the empty neighbours
      of the placed cell, without the placed cell and without repeats, or, when
      that leaves nothing, the old list; either way its empty cells are exactly
      the frontier, and when the old list was exactly the frontier so is the new one
      unless nothing was left. */
  lemma {:induction false} MoveFrontier(b: BoardState, p: Position)
    requires Inv(b) && p in b.validSpace
    ensures var n := MoveSpec(b, p);
      var r := DropAndDedup(b.neighbours + EmptyNeighbours(n.grid, p), p);
      && n.neighbours == (if r == [] then b.neighbours else r)
      && (forall x :: x in r <==> x != p && (x in b.neighbours || (InRange(x) && Cell(n.grid, x) == Empty && Adjacent(p, x))))
      && NoDup(n.neighbours)
      && FrontierWeak(n.grid, n.neighbours)
      && (r == [] ==> forall q :: !IsFrontier(n.grid, q))
      && (r != [] && FrontierExact(b.grid, b.neighbours) ==> FrontierExact(n.grid, n.neighbours))
  {
    var n := MoveSpec(b, p);
    MoveCells(b, p);
    EmptyNeighboursElems(n.grid, p);
    forall q | InRange(q) && q != p ensures (Cell(n.grid, q) == Empty) == (Cell(b.grid, q) == Empty) {
    }
    FrontierStep(b.grid, n.grid, p, b.neighbours);
  }

  /** A legal move is Place followed by PassTurn, on an undecided game. */
  lemma {:induction false} MoveLegal(b: BoardState, p: Position)
    requires Inv(b) && p in b.validSpace
    ensures InRange(p) && b.winner == Undetermined
    ensures MoveSpec(b, p) == PassTurn(Place(b, p))
  {
    ValidMovesElems(b.grid, b.turn, b.neighbours);
  }

  /** The turn resolution, one field at a time: only turn, validSpace and winner change. */
  lemma {:induction false} PassTurnShape(c: BoardState)
    requires forall x | x in c.neighbours :: InRange(x)
    ensures var n := PassTurn(c);
      var v1 := ValidMoves(c.grid, -c.turn, c.neighbours);
      var v2 := ValidMoves(c.grid, c.turn, c.neighbours);
      && n.grid == c.grid && n.neighbours == c.neighbours
      && n.blackScore == c.blackScore && n.whiteScore == c.whiteScore
      && (v1 != [] ==> n.turn == -c.turn && n.validSpace == v1 && n.winner == c.winner)
      && (v1 == [] ==> n.turn == c.turn && n.validSpace == v2)
      && (v1 == [] && v2 != [] ==> n.winner == c.winner)
      && (v1 == [] && v2 == [] ==> n.winner == Winner(c.blackScore, c.whiteScore))
  {
  }

  /** MoveSpec of a legal move, one field at a time. */
  lemma {:induction false} MoveShape(b: BoardState, p: Position)
    requires Inv(b) && p in b.validSpace
    ensures InRange(p) && b.winner == Undetermined
    ensures forall x | x in MoveSpec(b, p).neighbours :: InRange(x)
    ensures var n := MoveSpec(b, p);
      var g := MoveGrid(b.grid, b.turn, p);
      var v1 := ValidMoves(g, -b.turn, n.neighbours);
      var v2 := ValidMoves(g, b.turn, n.neighbours);
      && n.grid == g
      && (v1 != [] ==> n.turn == -b.turn && n.validSpace == v1 && n.winner == Undetermined)
      && (v1 == [] ==> n.turn == b.turn && n.validSpace == v2)
      && (v1 == [] && v2 != [] ==> n.winner == Undetermined)
      && (v1 == [] && v2 == [] ==> n.winner == Winner(n.blackScore, n.whiteScore))
  {
    MoveLegal(b, p);
    var c := Place(b, p);
    assert c.grid == MoveGrid(b.grid, b.turn, p) && c.turn == b.turn && c.winner == Undetermined;
    PassTurnShape(c);
  }

  /** `turn` has a legal move somewhere on the board. */
  ghost predicate HasMove(g: Grid, turn: int)
  {
    exists q | InRange(q) :: Legal(g, turn, q)
  }

  /** getAllValid over a list satisfying the frontier invariant is empty exactly
      when there is no legal move. */
  lemma {:induction false} HasMoveIff(g: Grid, turn: int, nbrs: seq<Position>)
    requires FrontierWeak(g, nbrs) && ValuesOk(g)
    ensures HasMove(g, turn) <==> ValidMoves(g, turn, nbrs) != []
  {
    ValidMovesComplete(g, turn, nbrs);
    if HasMove(g, turn) {
      var q :| InRange(q) && Legal(g, turn, q);
      assert q in ValidMoves(g, turn, nbrs);
    }
    if ValidMoves(g, turn, nbrs) != [] {
      var q := ValidMoves(g, turn, nbrs)[0];
      assert InRange(q) && Legal(g, turn, q);
    }
  }

  /** Who moves next after a legal move: the opponent if they have a legal move;
      otherwise the mover if they have one; otherwise nobody, validSpace is empty
      and the winner is decided by the scores. validSpace is then exactly the set
      of legal moves of whoever is to move, so an undecided game can go on. */
  lemma {:induction false} MoveTurn(b: BoardState, p: Position)
    requires Inv(b) && p in b.validSpace
    ensures var n := MoveSpec(b, p);
      && (HasMove(n.grid, -b.turn) ==> n.turn == -b.turn && n.winner == Undetermined)
      && (!HasMove(n.grid, -b.turn) && HasMove(n.grid, b.turn) ==> n.turn == b.turn && n.winner == Undetermined)
      && (!HasMove(n.grid, -b.turn) && !HasMove(n.grid, b.turn) ==>
            n.turn == b.turn && n.validSpace == [] && n.winner == Winner(n.blackScore, n.whiteScore))
  {
    var n := MoveSpec(b, p);
    MoveShape(b, p);
    assert FrontierWeak(n.grid, n.neighbours) && ValuesOk(n.grid) by {
      MoveValues(b, p);
      MoveFrontier(b, p);
    }
    HasMoveIff(n.grid, -b.turn, n.neighbours);
    HasMoveIff(n.grid, b.turn, n.neighbours);
  }

  /** After a legal move validSpace is exactly the set of legal moves of whoever
      is to move, that is a player, and an undecided game has a move to play. */
  lemma {:induction false} MoveNext(b: BoardState, p: Position)
    requires Inv(b) && p in b.validSpace
    ensures var n := MoveSpec(b, p);
      && (forall q :: q in n.validSpace <==> InRange(q) && Legal(n.grid, n.turn, q))
      && IsPlayer(n.turn)
      && Live(n)
  {
    var n := MoveSpec(b, p);
    MoveShape(b, p);
    MoveCells(b, p);
    MoveValues(b, p);
    MoveFrontier(b, p);
    ValidMovesComplete(n.grid, n.turn, n.neighbours);
  }

  /** A Move keeps the invariant; a legal one also leaves a game that is either
      decided or has a move to play. */
  lemma {:induction false} MovePreservesInv(b: BoardState, p: Position)
    requires Inv(b)
    ensures Inv(MoveSpec(b, p))
    ensures p in b.validSpace ==> Live(MoveSpec(b, p))
  {
    if p in b.validSpace {
      MoveValues(b, p);
      MoveFrontier(b, p);
      MoveScores(b, p);
      MoveShape(b, p);
      MoveNext(b, p);
    }
  }
}
