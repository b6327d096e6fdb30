/**
 * The tree bookkeeping of the Monte Carlo tree search agent of reversi.go:
 * nodes that own an independent copy of a board, their expansion into one child
 * per legal move, back-propagation of playout results along parent links, the
 * index choice of child selection over given scores, and the random playouts
 * and their tally with the random draws supplied as an oracle.
 */
module Mcts {
  import opened ReversiRules
  import opened ReversiState
  import opened ReversiBoard

  // ---------------------------------------------------------------------------
  // Playouts
  // ---------------------------------------------------------------------------

  /** The game simRand plays from s: while nobody has won, the move with index
      draw(step) mod |validSpace| (the value rand.Intn returns) is played.
      It ends because each legal move adds one piece to a board of 64 cells. */
  ghost function Playout(s: BoardState, draw: nat -> nat, step: nat): (r: BoardState)
    requires Inv(s) && Live(s)
    ensures r.winner in {Black, White, Draw} && r.validSpace == []
    decreases 64 - (s.blackScore + s.whiteScore)
  {
    if s.winner != Undetermined then s
    else
      var q := s.validSpace[draw(step) % |s.validSpace|];
      MoveScores(s, q);
      MovePreservesInv(s, q);
      Playout(MoveSpec(s, q), draw, step + 1)
  }

  /** The moves of a playout are the legal moves of the boards it passes through,
      each board following from the one before by Move. */
  lemma {:induction false} PlayoutMoves(s: BoardState, draw: nat -> nat, step: nat)
    requires Inv(s) && Live(s)
    ensures s.winner != Undetermined ==> Playout(s, draw, step) == s
    ensures s.winner == Undetermined ==>
              var q := s.validSpace[draw(step) % |s.validSpace|];
              && q in s.validSpace && Inv(MoveSpec(s, q)) && Live(MoveSpec(s, q))
              && Playout(s, draw, step) == Playout(MoveSpec(s, q), draw, step + 1)
  {
    if s.winner == Undetermined {
      MovePreservesInv(s, s.validSpace[draw(step) % |s.validSpace|]);
    }
  }

  /** A playout never takes pieces off the board: one piece more per move. */
  lemma {:induction false} PlayoutFills(s: BoardState, draw: nat -> nat, step: nat)
    requires Inv(s) && Live(s)
    ensures var r := Playout(s, draw, step);
      s.blackScore + s.whiteScore <= r.blackScore + r.whiteScore <= 64
    decreases 64 - (s.blackScore + s.whiteScore)
  {
    if s.winner != Undetermined {
      ScoreSumBound(s);
    } else {
      var q := s.validSpace[draw(step) % |s.validSpace|];
      MoveScores(s, q);
      MovePreservesInv(s, q);
      PlayoutFills(MoveSpec(s, q), draw, step + 1);
    }
  }

  /** The two scores of a consistent board add up to at most the 64 cells. */
  lemma {:induction false} ScoreSumBound(s: BoardState)
    requires Inv(s)
    ensures s.blackScore + s.whiteScore <= 64
  {
    CountUpToFilled(s.grid, 64);
  }

  /** A random game from the opening newGame builds always ends: with a winner or
      a draw, no move left, and between the 4 starting pieces and the 64 cells on
      the board, whatever the draws. */
  lemma {:induction false} OpeningPlayout(draw: nat -> nat)
    ensures Inv(SetupState(StartGrid(), Black)) && Live(SetupState(StartGrid(), Black))
    ensures var r := Playout(SetupState(StartGrid(), Black), draw, 0);
      && r.winner in {Black, White, Draw} && r.validSpace == []
      && 4 <= r.blackScore + r.whiteScore <= 64
  {
    StartFacts();
    PlayoutFills(SetupState(StartGrid(), Black), draw, 0);
  }

  /** simRand: Move with the drawn index until the game has a winner. */
  method SimRand(game: BoardState, draw: nat -> nat) returns (r: BoardState)
    requires Inv(game) && Live(game)
    ensures r == Playout(game, draw, 0)
  {
    var b := new Board.FromValue(game);
    var step: nat := 0;
    while b.winner == Undetermined
      invariant b.Valid() && Live(b.Value())
      invariant Playout(b.Value(), draw, step) == Playout(game, draw, 0)
      decreases 64 - (b.blackScore + b.whiteScore)
    {
      ghost var s := b.Value();
      var move := b.validSpace[draw(step) % |b.validSpace|];
      PlayoutMoves(s, draw, step);
      MoveScores(s, move);
      MovePreservesInv(s, move);
      b.Move(move);
      step := step + 1;
    }
    r := b.Value();
  }

  /** The number of entries of outcomes equal to v. */
  function CountOf(outcomes: seq<int>, v: int): (r: nat)
    ensures r <= |outcomes|
  {
    if outcomes == [] then 0
    else CountOf(outcomes[..|outcomes| - 1], v) + (if outcomes[|outcomes| - 1] == v then 1 else 0)
  }

  /** The winner of playout k of a rollout from game, which draws from choose(k). */
  ghost function WinnerOf(game: BoardState, choose: nat -> nat -> nat): (w: nat -> int)
    requires Inv(game) && Live(game)
  {
    (k: nat) => Playout(game, choose(k), 0).winner
  }

  /** The values f(0), ..., f(n - 1) in order. */
  function Prefix(f: nat -> int, n: nat): (r: seq<int>)
    ensures |r| == n
  {
    if n == 0 then [] else Prefix(f, n - 1) + [f(n - 1)]
  }

  /** The winners of the first n playouts of a rollout. */
  ghost function Outcomes(game: BoardState, choose: nat -> nat -> nat, n: nat): (r: seq<int>)
    requires Inv(game) && Live(game)
    ensures |r| == n
  {
    Prefix(WinnerOf(game, choose), n)
  }

  /** Rollout: nSim playouts from game, counting the ones the player to move
      wins and the draws; every other game is a loss. */
  method Rollout(game: BoardState, nSim: int, choose: nat -> nat -> nat) returns (wins: int, loss: int, draws: int)
    requires nSim > 0 ==> Inv(game) && Live(game)
    ensures nSim <= 0 ==> wins == 0 && draws == 0 && loss == nSim
    ensures nSim > 0 ==>
              && wins == CountOf(Outcomes(game, choose, nSim), game.turn)
              && draws == CountOf(Outcomes(game, choose, nSim), Draw)
              && loss == nSim - wins - draws
  {
    var turn := game.turn;
    wins, draws := 0, 0;
    ghost var o: seq<int> := [];
    var i := 0;
    while i < nSim
      invariant 0 <= i && (nSim > 0 ==> i <= nSim) && (nSim <= 0 ==> i == 0 && o == [])
      invariant nSim > 0 ==> o == Outcomes(game, choose, i)
      invariant wins == CountOf(o, turn) && draws == CountOf(o, Draw)
    {
      var tempGame := SimRand(game, choose(i));
      OutcomesNext(game, choose, i);
      CountOfAppend(o, tempGame.winner, turn);
      CountOfAppend(o, tempGame.winner, Draw);
      o := o + [tempGame.winner];
      if tempGame.winner == turn {
        wins := wins + 1;
      }
      if tempGame.winner == Draw {
        draws := draws + 1;
      }
      i := i + 1;
    }
    loss := nSim - wins - draws;
  }

  /** Appending one outcome adds one to its own count and nothing to the others. */
  lemma {:induction false} CountOfAppend(outcomes: seq<int>, x: int, v: int)
    ensures CountOf(outcomes + [x], v) == CountOf(outcomes, v) + if x == v then 1 else 0
  {
    assert (outcomes + [x])[..|outcomes|] == outcomes;
  }

  /** One more playout appends its winner. */
  lemma {:induction false} OutcomesNext(game: BoardState, choose: nat -> nat -> nat, n: nat)
    requires Inv(game) && Live(game)
    ensures Outcomes(game, choose, n + 1) == Outcomes(game, choose, n) + [Playout(game, choose(n), 0).winner]
  {
  }

  /** Entry k of Prefix(f, n) is f(k). */
  lemma {:induction false} PrefixAt(f: nat -> int, n: nat, k: nat)
    requires k < n
    ensures Prefix(f, n)[k] == f(k)
  {
    if k < n - 1 {
      PrefixAt(f, n - 1, k);
    }
  }

  /** Entry k of the outcomes is the winner of playout k. */
  lemma {:induction false} OutcomesAt(game: BoardState, choose: nat -> nat -> nat, n: nat, k: nat)
    requires Inv(game) && Live(game) && k < n
    ensures Outcomes(game, choose, n)[k] == Playout(game, choose(k), 0).winner
  {
    PrefixAt(WinnerOf(game, choose), n, k);
  }

  /** Counting v among outcomes that all lie in {a, b, c} for distinct a, b, c. */
  lemma {:induction false} CountOfThree(outcomes: seq<int>, a: int, b: int, c: int)
    requires a != b && b != c && a != c
    requires forall k | 0 <= k < |outcomes| :: outcomes[k] in {a, b, c}
    ensures CountOf(outcomes, a) + CountOf(outcomes, b) + CountOf(outcomes, c) == |outcomes|
  {
    if outcomes != [] {
      CountOfThree(outcomes[..|outcomes| - 1], a, b, c);
    }
  }

  /** Every playout ends with a winner: black, white or a draw. */
  lemma {:induction false} OutcomesDecided(game: BoardState, choose: nat -> nat -> nat, n: nat)
    requires Inv(game) && Live(game)
    ensures forall k | 0 <= k < n :: Outcomes(game, choose, n)[k] in {Black, White, Draw}
  {
    forall k | 0 <= k < n ensures Outcomes(game, choose, n)[k] in {Black, White, Draw} {
      OutcomesAt(game, choose, n, k);
    }
  }

  /** When the player to move is black or white, the losses Rollout reports are
      exactly the playouts the opponent won, so they are never negative. */
  lemma {:induction false} RolloutLoss(game: BoardState, nSim: nat, choose: nat -> nat -> nat)
    requires Inv(game) && Live(game) && IsPlayer(game.turn)
    ensures var o := Outcomes(game, choose, nSim);
      nSim - CountOf(o, game.turn) - CountOf(o, Draw) == CountOf(o, -game.turn) >= 0
  {
    var o := Outcomes(game, choose, nSim);
    OutcomesDecided(game, choose, nSim);
    CountOfThree(o, game.turn, -game.turn, Draw);
  }

  // ---------------------------------------------------------------------------
  // The search tree
  // ---------------------------------------------------------------------------

  /** c is a node as expandNode builds it for the move q of a node p of depth
      d, apart from its board. */
  ghost predicate ChildShape(c: Node, p: Node, d: int, q: Position)
    reads c
  {
    && c.position == q
    && c.parent == p
    && c.depth == d + 1
    && c.children == []
    && c.played == 0 && c.wins == 0 && c.mobility == 0
  }

  /** No node occurs twice in nodes. */
  ghost predicate Distinct(nodes: seq<Node>)
  {
    forall k, l | 0 <= k < l < |nodes| :: nodes[k] != nodes[l]
  }

  /** Appending a node not yet in a list of distinct nodes keeps them distinct. */
  lemma {:induction false} DistinctSnoc(nodes: seq<Node>, x: Node)
    requires Distinct(nodes) && x !in nodes
    ensures Distinct(nodes + [x])
  {
  }

  /** A node of the search tree. Its board is its own copy (the Go struct holds
      the Board by value). The mobility is a sum of list lengths, so an int. */
  class Node {
    var position: Position
    var state: BoardState
    var parent: Node?
    var children: seq<Node>
    var played: int
    var wins: int
    var depth: int
    var mobility: int

    /** A fresh node as expandNode builds it: no children, nothing played or won. */
    constructor (position: Position, state: BoardState, parent: Node?, depth: int)
      ensures this.position == position && this.state == state && this.parent == parent && this.depth == depth
      ensures children == [] && played == 0 && wins == 0 && mobility == 0
    {
      this.position, this.state, this.parent, this.depth := position, state, parent, depth;
      children, played, wins, mobility := [], 0, 0, 0;
    }

    /** The body of expandNode's loop: copy the board s of this node, play q
        on the copy and wrap it in a new node of depth d + 1 whose parent is this one. */
    method NewChild(s: BoardState, d: int, q: Position) returns (child: Node)
      requires Inv(s)
      ensures fresh(child) && ChildShape(child, this, d, q) && child.state == MoveSpec(s, q)
    {
      var gameState := new Board.FromValue(s);
      gameState.Move(q);
      child := new Node(q, gameState.Value(), this, d + 1);
    }

    /** expandNode: one child per legal move, in validSpace order, each holding
        a copy of this node's board with its move played. */
    method ExpandNode()
      requires Inv(state)
      modifies this`children
      ensures |children| == |state.validSpace|
      ensures forall k | 0 <= k < |children| ::
                && fresh(children[k]) && ChildShape(children[k], this, depth, state.validSpace[k])
                && children[k].state == MoveSpec(state, state.validSpace[k])
      ensures Distinct(children)
    {
      children := NewChildren();
    }

    /** The loop of expandNode: NewChild for each legal move in turn. */
    method NewChildren() returns (cs: seq<Node>)
      requires Inv(state)
      ensures |cs| == |state.validSpace|
      ensures forall k | 0 <= k < |cs| ::
                && fresh(cs[k]) && ChildShape(cs[k], this, depth, state.validSpace[k])
                && cs[k].state == MoveSpec(state, state.validSpace[k])
      ensures Distinct(cs)
    {
      var s, d := state, depth;
      cs := [];
      var i := 0;
      while i < |s.validSpace|
        invariant 0 <= i <= |s.validSpace| && |cs| == i
        invariant forall k | 0 <= k < i :: fresh(cs[k]) && ChildShape(cs[k], this, d, s.validSpace[k])
        invariant forall k | 0 <= k < i :: cs[k].state == MoveSpec(s, s.validSpace[k])
        invariant Distinct(cs)
      {
        var child := NewChild(s, d, s.validSpace[i]);
        assert child !in cs;
        DistinctSnoc(cs, child);
        ghost var prev := cs;
        cs := cs + [child];
        assert forall k | 0 <= k < i :: cs[k] == prev[k];
        assert cs[i] == child;
        i := i + 1;
      }
    }

    /** One step of backProp: a node whose player to move is turn gets wins and
        mobility, any other gets loss; both get played. */
    method Credit(turn: int, wins: int, loss: int, mobility: int, played: int)
      modifies this`played, this`wins, this`mobility
      ensures this.played == old(this.played) + played
      ensures this.wins == old(this.wins) + (if state.turn == turn then wins else loss)
      ensures this.mobility == old(this.mobility) + (if state.turn == turn then mobility else 0)
    {
      if state.turn == turn {
        this.wins := this.wins + wins;
        this.mobility := this.mobility + mobility;
      } else {
        this.wins := this.wins + loss;
      }
      this.played := this.played + played;
    }

    /** The played counters of the children, in order. */
    ghost function ChildrenPlayed(): (r: seq<int>)
      reads this, children
      ensures |r| == |children|
      ensures forall k | 0 <= k < |children| :: r[k] == children[k].played
    {
      seq(|children|, k reads this, children requires 0 <= k < |children| => children[k].played)
    }

    /** selectChild over given scores (scores[k] stands for the UCT score of
        children[k]; the composite terms are overwritten in the source, so they
        play no part). */
    method SelectChild(scores: seq<real>, best: string) returns (child: Node)
      requires |children| > 0 && |scores| == |children|
      ensures child == children[SelectIndex(scores, ChildrenPlayed(), best)]
    {
      var index := 0;
      var bestScore: real := 0.0;
      if best == "max" {
        bestScore := -9999.0;
      }
      if best == "min" {
        bestScore := 9999.0;
      }
      var i := 0;
      while i < |children|
        invariant 0 <= i <= |children| && 0 <= index < |children|
        invariant best == "max" ==> (index, bestScore) == MaxScan(scores, i)
        invariant best == "min" ==> (index, bestScore) == MinScan(scores, ChildrenPlayed(), i)
        invariant best != "max" && best != "min" ==> index == 0
      {
        var score := scores[i];
        if best == "max" {
          if score > bestScore {
            bestScore := score;
            index := i;
          }
        }
        if best == "min" {
          if score < bestScore && children[i].played > 0 {
            bestScore := score;
            index := i;
          }
        }
        i := i + 1;
      }
      child := children[index];
    }
  }

  // ---------------------------------------------------------------------------
  // Child selection over scores
  // ---------------------------------------------------------------------------

  /** The "max" scan after k children: the index and score of the best one so
      far, starting from index 0 and the score -9999. */
  function MaxScan(scores: seq<real>, k: nat): (nat, real)
    requires k <= |scores|
  {
    if k == 0 then (0, -9999.0)
    else
      var (i, b) := MaxScan(scores, k - 1);
      if scores[k - 1] > b then (k - 1, scores[k - 1]) else (i, b)
  }

  /** The "min" scan after k children: only children played at least once count. */
  function MinScan(scores: seq<real>, played: seq<int>, k: nat): (nat, real)
    requires k <= |scores| && |played| == |scores|
  {
    if k == 0 then (0, 9999.0)
    else
      var (i, b) := MinScan(scores, played, k - 1);
      if scores[k - 1] < b && played[k - 1] > 0 then (k - 1, scores[k - 1]) else (i, b)
  }

  /** The index selectChild picks. */
  function SelectIndex(scores: seq<real>, played: seq<int>, best: string): (r: nat)
    requires |played| == |scores| && |scores| > 0
    ensures r < |scores|
  {
    if best == "max" then MaxScanBound(scores, |scores|); MaxScan(scores, |scores|).0
    else if best == "min" then MinScanBound(scores, played, |scores|); MinScan(scores, played, |scores|).0
    else 0
  }

  lemma {:induction false} MaxScanBound(scores: seq<real>, k: nat)
    requires 0 < k <= |scores|
    ensures MaxScan(scores, k).0 < k
  {
    if k > 1 {
      MaxScanBound(scores, k - 1);
    }
  }

  lemma {:induction false} MinScanBound(scores: seq<real>, played: seq<int>, k: nat)
    requires 0 < k <= |scores| && |played| == |scores|
    ensures MinScan(scores, played, k).0 < k
  {
    if k > 1 {
      MinScanBound(scores, played, k - 1);
    }
  }

  /** The "max" scan keeps the first index of the largest score above -9999, and
      stays at index 0 with -9999 when no score exceeds it. */
  lemma {:induction false} MaxScanFirstMax(scores: seq<real>, k: nat)
    requires k <= |scores|
    ensures var (i, b) := MaxScan(scores, k);
      if forall j | 0 <= j < k :: scores[j] <= -9999.0 then i == 0 && b == -9999.0
      else
        && i < k && b == scores[i] > -9999.0
        && (forall j | 0 <= j < k :: scores[j] <= scores[i])
        && (forall j | 0 <= j < i :: scores[j] < scores[i])
  {
    if k > 0 {
      MaxScanFirstMax(scores, k - 1);
    }
  }

  /** selectChild with "max" picks the first child of highest score, and child 0
      when no score is above -9999. */
  lemma {:induction false} SelectMax(scores: seq<real>, played: seq<int>)
    requires |played| == |scores| && |scores| > 0
    ensures var r := SelectIndex(scores, played, "max");
      if forall j | 0 <= j < |scores| :: scores[j] <= -9999.0 then r == 0
      else
        && (forall j | 0 <= j < |scores| :: scores[j] <= scores[r])
        && (forall j | 0 <= j < r :: scores[j] < scores[r])
  {
    MaxScanFirstMax(scores, |scores|);
  }

  /** A child the "min" scan may pick: played at least once, below the 9999 sentinel. */
  predicate Eligible(scores: seq<real>, played: seq<int>, j: int)
    requires |played| == |scores| && 0 <= j < |scores|
  {
    played[j] > 0 && scores[j] < 9999.0
  }

  /** The "min" scan keeps the first eligible index of least score, and stays at
      index 0 with 9999 when no child is eligible. */
  lemma {:induction false} MinScanFirstMin(scores: seq<real>, played: seq<int>, k: nat)
    requires k <= |scores| && |played| == |scores|
    ensures var (i, b) := MinScan(scores, played, k);
      if forall j | 0 <= j < k :: !Eligible(scores, played, j) then i == 0 && b == 9999.0
      else
        && i < k && b == scores[i] && Eligible(scores, played, i)
        && (forall j | 0 <= j < k && Eligible(scores, played, j) :: scores[i] <= scores[j])
        && (forall j | 0 <= j < i && Eligible(scores, played, j) :: scores[i] < scores[j])
  {
    if k > 0 {
      MinScanFirstMin(scores, played, k - 1);
      if forall j | 0 <= j < k :: !Eligible(scores, played, j) {
        assert forall j | 0 <= j < k - 1 :: !Eligible(scores, played, j);
        assert !Eligible(scores, played, k - 1);
      }
    }
  }

  /** selectChild with "min" picks the first played child of least score, and
      child 0 when no child has been played (or all scores are 9999 or more). */
  lemma {:induction false} SelectMin(scores: seq<real>, played: seq<int>)
    requires |played| == |scores| && |scores| > 0
    ensures var r := SelectIndex(scores, played, "min");
      if forall j | 0 <= j < |scores| :: !Eligible(scores, played, j) then r == 0
      else
        && Eligible(scores, played, r)
        && (forall j | 0 <= j < |scores| && Eligible(scores, played, j) :: scores[r] <= scores[j])
        && (forall j | 0 <= j < r && Eligible(scores, played, j) :: scores[r] < scores[j])
  {
    MinScanFirstMin(scores, played, |scores|);
  }

  /** Any other value of best leaves the index at 0. */
  lemma {:induction false} SelectOther(scores: seq<real>, played: seq<int>, best: string)
    requires |played| == |scores| && |scores| > 0 && best != "max" && best != "min"
    ensures SelectIndex(scores, played, best) == 0
  {
  }

  // ---------------------------------------------------------------------------
  // Back-propagation
  // ---------------------------------------------------------------------------

  /** path lists n and then its ancestors up to the root, following parent links. */
  ghost predicate AncestorPath(n: Node, path: seq<Node>)
    reads (set k | 0 <= k < |path| :: path[k])`parent
  {
    && |path| > 0 && path[0] == n
    && (forall k | 0 <= k < |path| - 1 :: path[k].parent == path[k + 1])
    && path[|path| - 1].parent == null
  }

  /** A chain of parent links that ends at the root visits no node twice. */
  lemma {:induction false} AncestorPathDistinct(n: Node, path: seq<Node>)
    requires AncestorPath(n, path)
    ensures Distinct(path)
  {
    forall a, b | 0 <= a < b < |path| ensures path[a] != path[b] {
      if path[a] == path[b] {
        var t := |path| - 1 - b;
        ChainShift(path, a, b, t);
        ParentLink(path, a + t);
        assert false;
      }
    }
  }

  /** One link of a parent chain. */
  lemma {:induction false} ParentLink(path: seq<Node>, k: nat)
    requires k < |path| - 1
    requires forall k | 0 <= k < |path| - 1 :: path[k].parent == path[k + 1]
    ensures path[k].parent == path[k + 1]
  {
  }

  /** The node at position i of an ancestor path occurs nowhere else on it. */
  lemma {:induction false} AncestorPathOthers(n: Node, path: seq<Node>, i: nat)
    requires AncestorPath(n, path) && i < |path|
    ensures forall k | 0 <= k < |path| && k != i :: path[k] != path[i]
  {
    AncestorPathDistinct(n, path);
  }

  /** Equal nodes have equal parents, so equal positions of a chain stay equal
      further along it. */
  lemma {:induction false} ChainShift(path: seq<Node>, a: nat, b: nat, t: nat)
    requires a < b && b + t < |path| && path[a] == path[b]
    requires forall k | 0 <= k < |path| - 1 :: path[k].parent == path[k + 1]
    ensures path[a + t] == path[b + t]
  {
    if t > 0 {
      ChainShift(path, a, b, t - 1);
      assert path[a + t] == path[a + t - 1].parent;
    }
  }

  /** backProp: from n up to the root, add played to every node; nodes whose
      player to move is the one of n get wins and n's number of legal moves,
      the others get loss. */
  method BackProp(n: Node, wins: int, loss: int, played: int, ghost path: seq<Node>)
    requires AncestorPath(n, path)
    modifies (set k | 0 <= k < |path| :: path[k])`played
    modifies (set k | 0 <= k < |path| :: path[k])`wins
    modifies (set k | 0 <= k < |path| :: path[k])`mobility
    ensures forall k | 0 <= k < |path| ::
              && path[k].played == old(path[k].played) + played
              && path[k].wins == old(path[k].wins) + (if path[k].state.turn == n.state.turn then wins else loss)
              && path[k].mobility == old(path[k].mobility) +
                   (if path[k].state.turn == n.state.turn then |n.state.validSpace| else 0)
  {
    var turn := n.state.turn;
    var mobility := |n.state.validSpace|;
    var cur: Node? := n;
    ghost var i := 0;
    while cur != null
      invariant 0 <= i <= |path| && AncestorPath(n, path)
      invariant if i < |path| then cur == path[i] else cur == null
      invariant forall k | 0 <= k < |path| ::
                  && path[k].played == old(path[k].played) + (if k < i then played else 0)
                  && path[k].wins == old(path[k].wins) + (if k >= i then 0 else if path[k].state.turn == turn then wins else loss)
                  && path[k].mobility == old(path[k].mobility) + (if k < i && path[k].state.turn == turn then mobility else 0)
      decreases |path| - i
    {
      AncestorPathOthers(n, path, i);
      cur.Credit(turn, wins, loss, mobility, played);
      cur := cur.parent;
      i := i + 1;
    }
  }
}
