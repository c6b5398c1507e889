/**
 * The English draughts game object: the board, the player to move, the turn
 * counter and the count of consecutive king moves without capture, with
 * `play`, `possibleMoves` and `winner`.  The class mutates its fields in
 * place as the Java object does; `Played` states the whole effect of one
 * `play` on a `Position` value, and the lemmas below say what that effect
 * means for a legal move.
 */
module Draughts {
  import opened Game
  import opened Board
  import opened DraughtsMoves

  /** A move handed to `play`: a draughts move (the squares visited) or a move of some other game. */
  datatype Move = DraughtsMove(squares: seq<int>) | OtherMove

  /** The state of a game as a value: the fields of `EnglishDraughts`. */
  datatype Position = Position(board: seq<Cell>, player: PlayerId, nbTurn: int, kingMoves: int)

  // ---------------------------------------------------------------------------
  // The effect of play, as functions of the board
  // ---------------------------------------------------------------------------

  /** What `play` writes on the landing square before promotion: the mover's king for a king, else the moving cell. */
  function Landed(b: seq<Cell>, p: PlayerId, from: int): Cell
  {
    if IsKing(b, from) && p == One then WhiteKing
    else if IsKing(b, from) && p == Two then BlackKing
    else At(b, from)
  }

  /** The cell on the landing square `fin` after the promotion step, `c` being the cell there before it. */
  function Crowned(g: Geometry, p: PlayerId, fin: int, c: Cell): Cell
  {
    if g.inBottomRow(fin) && p == Two then BlackKing
    else if g.inTopRow(fin) && p == One then WhiteKing
    else c
  }

  /** The promotion step: white crowned on the top row, black on the bottom row. */
  function Promoted(g: Geometry, b: seq<Cell>, p: PlayerId, fin: int): (r: seq<Cell>)
    ensures |r| == |b|
    ensures forall t {:trigger At(r, t)} ::
      At(r, t) == if t == fin && 1 <= fin <= |b| then Crowned(g, p, fin, At(b, fin)) else At(b, t)
  {
    var b1 := if g.inTopRow(fin) && p == One then Put(b, fin, WhiteKing) else b;
    if g.inBottomRow(fin) && p == Two then Put(b1, fin, BlackKing) else b1
  }

  /** Some direction leads from `x` over one square onto `y`. */
  ghost predicate JumpsOver(g: Geometry, x: int, y: int)
  {
    exists d :: Step(g, d, Step(g, d, x)) == y
  }

  /** `s` is the square jumped over on the way from `x` to `y`. */
  ghost predicate JumpsOverAt(g: Geometry, x: int, y: int, s: int)
  {
    exists d :: Step(g, d, x) == s && Step(g, d, s) == y
  }

  /**
   * One round of the capture loop, for the step from `x` to `y`: the four
   * direction checks in the order of the source, each emptying the square
   * in between when two steps in its direction lead to `y`.
   */
  function ClearStep(g: Geometry, b: seq<Cell>, x: int, y: int): (r: seq<Cell>)
    ensures |r| == |b|
    ensures forall s {:trigger At(r, s)} :: At(r, s) == if JumpsOverAt(g, x, y, s) then Empty else At(b, s)
  {
    var b1 := if Step(g, DownRight, Step(g, DownRight, x)) == y then Put(b, Step(g, DownRight, x), Empty) else b;
    var b2 := if Step(g, DownLeft, Step(g, DownLeft, x)) == y then Put(b1, Step(g, DownLeft, x), Empty) else b1;
    var b3 := if Step(g, UpRight, Step(g, UpRight, x)) == y then Put(b2, Step(g, UpRight, x), Empty) else b2;
    if Step(g, UpLeft, Step(g, UpLeft, x)) == y then Put(b3, Step(g, UpLeft, x), Empty) else b3
  }

  /** Some square is jumped over in one of the first `k - 1` steps of `m`. */
  ghost predicate JumpedBefore(g: Geometry, m: seq<int>, k: int, s: int)
    requires k <= |m|
    decreases k
  {
    k > 1 && (JumpedBefore(g, m, k - 1, s) || JumpsOverAt(g, m[k - 2], m[k - 1], s))
  }

  /** One of the first `k - 1` steps of `m` is a jump: the `captured` flag after that many rounds. */
  ghost predicate CapturedBefore(g: Geometry, m: seq<int>, k: int)
    requires k <= |m|
    decreases k
  {
    k > 1 && (CapturedBefore(g, m, k - 1) || JumpsOver(g, m[k - 2], m[k - 1]))
  }

  /** The board after the first `k - 1` rounds of the capture loop: exactly the jumped squares are emptied. */
  function Cleared(g: Geometry, b: seq<Cell>, m: seq<int>, k: int): (r: seq<Cell>)
    requires 1 <= k <= |m|
    ensures |r| == |b|
    ensures forall s {:trigger At(r, s)} :: At(r, s) == if JumpedBefore(g, m, k, s) then Empty else At(b, s)
    decreases k
  {
    if k == 1 then b else ClearStep(g, Cleared(g, b, m, k - 1), m[k - 2], m[k - 1])
  }

  /**
   * The whole effect of `play(m)` on a position.  A position without a
   * valid player, a move of another game and an empty move (on which the
   * source fails before changing anything) leave it as it is.  Otherwise a
   * legal move empties its origin, puts the piece on the landing square and
   * empties the jumped squares; then, legal or not, the king-move counter
   * is updated, the landing square is promoted, the turn passes and the turn
   * counter goes up by one.
   */
  ghost function Played(g: Geometry, pos: Position, m: Move): Position
  {
    if pos.player == Nobody || m.OtherMove? || m.squares == [] then pos
    else PlayedSquares(g, pos, m.squares)
  }

  /** `Played` for a non-empty draughts move of a valid player. */
  ghost function PlayedSquares(g: Geometry, pos: Position, sq: seq<int>): Position
    requires sq != []
  {
    var legal := sq in DraughtsMoves.PossibleMoves(g, pos.board, pos.player);
    Position(Promoted(g, Moved(g, pos.board, pos.player, sq, legal), pos.player, sq[|sq| - 1]),
             Opponent(pos.player), pos.nbTurn + 1,
             if !(legal && CapturedBefore(g, sq, |sq|)) && IsKing(pos.board, sq[0]) then pos.kingMoves + 1 else 0)
  }

  /** The board after the move itself, before promotion: unchanged unless the move is `legal`. */
  function Moved(g: Geometry, b: seq<Cell>, p: PlayerId, sq: seq<int>, legal: bool): seq<Cell>
    requires |sq| >= 1
  {
    if legal then Cleared(g, Put(Put(b, sq[0], Empty), sq[|sq| - 1], Landed(b, p, sq[0])), sq, |sq|) else b
  }

  /**
   * `winner`: the opponent of a player without a legal move wins; after 25
   * consecutive king moves without capture the game is drawn; otherwise it
   * goes on.
   */
  ghost function Outcome(g: Geometry, pos: Position): Verdict
  {
    if DraughtsMoves.PossibleMoves(g, pos.board, pos.player) == [] then Over(Opponent(pos.player))
    else if pos.kingMoves >= 25 then Over(Nobody)
    else Ongoing
  }

  // ---------------------------------------------------------------------------
  // The game object
  // ---------------------------------------------------------------------------

  class EnglishDraughts {
    const geometry: Geometry
    var board: seq<Cell>
    var playerId: PlayerId
    var nbTurn: int
    var nbKingMovesWithoutCapture: int

    /** The fields as a value. */
    function State(): Position
      reads this
    {
      Position(board, playerId, nbTurn, nbKingMovesWithoutCapture)
    }

    /** A new game on `board`, white to move, turn 1, no king moves counted. */
    constructor (geometry: Geometry, board: seq<Cell>)
      ensures this.geometry == geometry
      ensures State() == Position(board, One, 1, 0)
    {
      this.geometry := geometry;
      this.board := board;
      playerId := One;
      nbTurn := 1;
      nbKingMovesWithoutCapture := 0;
    }

    /** The copy constructor behind `clone`: an independent game in the same state. */
    constructor Copy(d: EnglishDraughts)
      ensures geometry == d.geometry
      ensures State() == d.State()
    {
      geometry := d.geometry;
      board := d.board;
      playerId := d.playerId;
      nbTurn := d.nbTurn;
      nbKingMovesWithoutCapture := d.nbKingMovesWithoutCapture;
    }

    /** `possibleMovesWithoutCapture`: the slides of each of the player's pieces in turn. */
    method PossibleMovesWithoutCapture() returns (moves: seq<seq<int>>)
      ensures moves == Slides(geometry, board, playerId, MyPawns(board, playerId))
      ensures forall m :: m in moves <==> IsSlide(geometry, board, playerId, m) && IsMine(board, playerId, m[0]) && 1 <= m[0] <= |board|
    {
      moves := SlideMoves(geometry, board, playerId);
    }

    /** `possibleMoves`: the captures of each of the player's pieces in turn, or the slides when there is none. */
    method PossibleMoves() returns (moves: seq<seq<int>>)
      ensures moves == DraughtsMoves.PossibleMoves(geometry, board, playerId)
    {
      moves := LegalMoves(geometry, board, playerId);
    }

    /**
     * `play`.  `failed` reports the case where the source throws (an empty
     * move); the state is then unchanged, as the exception comes before any
     * update.
     */
    method Play(m: Move) returns (failed: bool)
      modifies this
      ensures failed <==> old(playerId) != Nobody && m.DraughtsMove? && m.squares == []
      ensures State() == Played(geometry, old(State()), m)
    {
      var after;
      failed, after := PlayPosition(geometry, State(), m);
      board, playerId, nbTurn, nbKingMovesWithoutCapture := after.board, after.player, after.nbTurn, after.kingMoves;
    }

    /**
     * `winner`: `Ongoing` stands for the source's `null`.  The game goes on
     * exactly while the player to move has a move and fewer than 25 king moves
     * without capture were played; a decided game is never won by the player
     * to move.
     */
    ghost function Winner(): (r: Verdict)
      reads this
      ensures r == Ongoing <==>
                DraughtsMoves.PossibleMoves(geometry, board, playerId) != [] && nbKingMovesWithoutCapture < 25
      ensures playerId != Nobody && r.Over? ==> r.winner != playerId
    {
      Outcome(geometry, State())
    }
  }

  /** The loop of `possibleMovesWithoutCapture`, on the board `b` with `p` to move. */
  method SlideMoves(g: Geometry, b: seq<Cell>, p: PlayerId) returns (moves: seq<seq<int>>)
    ensures moves == Slides(g, b, p, MyPawns(b, p))
    ensures forall m :: m in moves <==> IsSlide(g, b, p, m) && IsMine(b, p, m[0]) && 1 <= m[0] <= |b|
  {
    var pawns := MyPawns(b, p);
    moves := [];
    var i := 0;
    while i < |pawns|
      invariant 0 <= i <= |pawns|
      invariant moves == Slides(g, b, p, pawns[..i])
    {
      SlidesStep(g, b, p, pawns, i);
      moves := moves + SlidesFrom(g, b, p, pawns[i]);
      i := i + 1;
    }
    assert pawns[..i] == pawns;
    SlidesOfPlayer(g, b, p);
  }

  /** One more round of the slide-collecting loop. */
  lemma SlidesStep(g: Geometry, b: seq<Cell>, p: PlayerId, pawns: seq<int>, i: int)
    requires 0 <= i < |pawns|
    ensures Slides(g, b, p, pawns[..i + 1]) == Slides(g, b, p, pawns[..i]) + SlidesFrom(g, b, p, pawns[i])
  {
    assert pawns[..i + 1][..i] == pawns[..i];
  }

  /** The slides of the player to move are exactly the slides that start on one of its pieces. */
  lemma SlidesOfPlayer(g: Geometry, b: seq<Cell>, p: PlayerId)
    ensures forall m :: m in Slides(g, b, p, MyPawns(b, p)) <==> IsSlide(g, b, p, m) && IsMine(b, p, m[0]) && 1 <= m[0] <= |b|
  {
    forall m | IsSlide(g, b, p, m) && IsMine(b, p, m[0]) && 1 <= m[0] <= |b|
      ensures m in Slides(g, b, p, MyPawns(b, p))
    {
      SlidesComplete(g, b, p, MyPawns(b, p), m);
    }
  }

  /** The loop of `possibleMoves`: the captures of each piece in turn, or the slides when there is none. */
  method LegalMoves(g: Geometry, b: seq<Cell>, p: PlayerId) returns (moves: seq<seq<int>>)
    ensures moves == DraughtsMoves.PossibleMoves(g, b, p)
  {
    var pawns := MyPawns(b, p);
    var captures := [];
    var i := 0;
    while i < |pawns|
      invariant 0 <= i <= |pawns|
      invariant captures == PawnCaptures(g, b, p, pawns[..i])
    {
      var current := pawns[i];
      PawnCapturesStep(g, b, p, pawns, i);
      captures := captures + CapturesFrom(g, b, p, current, IsKing(b, current), -1, 0);
      i := i + 1;
    }
    assert pawns[..i] == pawns;
    moves := captures;
    assert moves == PawnCaptures(g, b, p, MyPawns(b, p));
    if moves == [] {
      moves := SlideMoves(g, b, p);
    }
  }

  /**
   * The steps of `play` on the state `pos`: nothing happens for a player
   * that is not `One` or `Two` or a move that is not a draughts move; an
   * empty move fails (the source throws) after the legal moves are listed.
   */
  method PlayPosition(g: Geometry, pos: Position, m: Move) returns (failed: bool, after: Position)
    ensures failed <==> pos.player != Nobody && m.DraughtsMove? && m.squares == []
    ensures after == Played(g, pos, m)
  {
    failed, after := false, pos;
    if pos.player == Nobody || m.OtherMove? {
      return;
    }
    var move := m.squares;
    var legal := LegalMoves(g, pos.board, pos.player);
    if move == [] {
      failed := true;
      return;
    }
    after := PlaySquares(g, pos, move, legal);
  }

  /**
   * The body of `play` for a non-empty move of a valid player, on the state
   * `pos` whose legal moves are `legal`: move the piece and clear the jumped
   * squares when the move is legal, then update the king-move counter,
   * promote, pass the turn and count it.
   */
  method PlaySquares(g: Geometry, pos: Position, move: seq<int>, legal: seq<seq<int>>) returns (after: Position)
    requires pos.player != Nobody && move != []
    requires legal == DraughtsMoves.PossibleMoves(g, pos.board, pos.player)
    ensures after == PlayedSquares(g, pos, move)
  {
    var cells, captured := pos.board, false;
    var current := At(cells, move[0]);
    var isKing := IsKing(cells, move[0]);
    var fin := move[|move| - 1];
    if move in legal {
      cells := Put(cells, move[0], Empty);
      if isKing && pos.player == One {
        cells := Put(cells, fin, WhiteKing);
      } else if isKing && pos.player == Two {
        cells := Put(cells, fin, BlackKing);
      } else {
        cells := Put(cells, fin, current);
      }
      assert cells == Put(Put(pos.board, move[0], Empty), fin, Landed(pos.board, pos.player, move[0]));
      cells, captured := ClearJumps(g, cells, move);
    }
    assert cells == Moved(g, pos.board, pos.player, move, move in legal);
    var kingMoves := if !captured && isKing then pos.kingMoves + 1 else 0;
    var moved := cells;
    if g.inTopRow(fin) && pos.player == One {
      cells := Put(cells, fin, WhiteKing);
    }
    if g.inBottomRow(fin) && pos.player == Two {
      cells := Put(cells, fin, BlackKing);
    }
    assert cells == Promoted(g, moved, pos.player, fin);
    var next := if pos.player == One then Two else One;
    after := Position(cells, next, pos.nbTurn + 1, kingMoves);
  }

  /** One more round of the capture-collecting loop. */
  lemma PawnCapturesStep(g: Geometry, b: seq<Cell>, p: PlayerId, pawns: seq<int>, i: int)
    requires 0 <= i < |pawns|
    ensures PawnCaptures(g, b, p, pawns[..i + 1])
         == PawnCaptures(g, b, p, pawns[..i]) + CapturesFrom(g, b, p, pawns[i], IsKing(b, pawns[i]), -1, 0)
  {
    assert pawns[..i + 1][..i] == pawns[..i];
  }

  /**
   * The capture loop of `play`: for each step of `m`, the four direction
   * checks of `ClearStep`; returns the board with the jumped squares emptied
   * and whether any step was a jump.
   */
  method ClearJumps(g: Geometry, b: seq<Cell>, m: seq<int>) returns (r: seq<Cell>, captured: bool)
    requires |m| >= 1
    ensures r == Cleared(g, b, m, |m|)
    ensures captured == CapturedBefore(g, m, |m|)
  {
    r, captured := b, false;
    var i := 1;
    while i < |m|
      invariant 1 <= i <= |m|
      invariant r == Cleared(g, b, m, i)
      invariant captured == CapturedBefore(g, m, i)
    {
      var x, y := m[i - 1], m[i];
      var cells, jumped := r, false;
      if Step(g, DownRight, Step(g, DownRight, x)) == y {
        cells := Put(cells, Step(g, DownRight, x), Empty);
        jumped := true;
      }
      if Step(g, DownLeft, Step(g, DownLeft, x)) == y {
        cells := Put(cells, Step(g, DownLeft, x), Empty);
        jumped := true;
      }
      if Step(g, UpRight, Step(g, UpRight, x)) == y {
        cells := Put(cells, Step(g, UpRight, x), Empty);
        jumped := true;
      }
      if Step(g, UpLeft, Step(g, UpLeft, x)) == y {
        cells := Put(cells, Step(g, UpLeft, x), Empty);
        jumped := true;
      }
      JumpsOverCases(g, x, y);
      CaptureRound(g, b, m, i);
      r, captured := cells, captured || jumped;
      i := i + 1;
    }
  }

  /** Round `i` of the capture loop takes the board and the flag from `i` rounds to `i + 1`. */
  lemma CaptureRound(g: Geometry, b: seq<Cell>, m: seq<int>, i: int)
    requires 1 <= i < |m|
    ensures Cleared(g, b, m, i + 1) == ClearStep(g, Cleared(g, b, m, i), m[i - 1], m[i])
    ensures CapturedBefore(g, m, i + 1) == (CapturedBefore(g, m, i) || JumpsOver(g, m[i - 1], m[i]))
  {
  }

  lemma JumpsOverCases(g: Geometry, x: int, y: int)
    ensures JumpsOver(g, x, y) <==>
      Step(g, DownRight, Step(g, DownRight, x)) == y || Step(g, DownLeft, Step(g, DownLeft, x)) == y
      || Step(g, UpRight, Step(g, UpRight, x)) == y || Step(g, UpLeft, Step(g, UpLeft, x)) == y
  {
    if Step(g, DownRight, Step(g, DownRight, x)) == y { assert Step(g, DownRight, Step(g, DownRight, x)) == y; }
    if Step(g, DownLeft, Step(g, DownLeft, x)) == y { assert Step(g, DownLeft, Step(g, DownLeft, x)) == y; }
    if Step(g, UpRight, Step(g, UpRight, x)) == y { assert Step(g, UpRight, Step(g, UpRight, x)) == y; }
    if Step(g, UpLeft, Step(g, UpLeft, x)) == y { assert Step(g, UpLeft, Step(g, UpLeft, x)) == y; }
  }

  // ---------------------------------------------------------------------------
  // What a legal move does
  // ---------------------------------------------------------------------------

  /** The square excluded at step `i` of a chain that starts with `last` excluded. */
  function Excluded(last: int, m: seq<int>, i: int): int
    requires 1 <= i <= |m|
  {
    if i == 1 then last else m[i - 2]
  }

  /** Step `i` of a capture chain is a jump, the square before it being the excluded one. */
  lemma {:induction false} ChainStep(g: Geometry, b: seq<Cell>, p: PlayerId, isKing: bool, last: int, m: seq<int>, i: int)
    requires IsChain(g, b, p, isKing, last, m) && 1 <= i < |m|
    ensures exists d {:trigger IsJump(g, b, p, m[i - 1], isKing, Excluded(last, m, i), d, m[i])} ::
      IsJump(g, b, p, m[i - 1], isKing, Excluded(last, m, i), d, m[i])
    decreases |m|
  {
    if i == 1 {
      JumpDestinationsExactly(g, b, p, m[0], isKing, last, m[1]);
      var d :| IsJump(g, b, p, m[0], isKing, last, d, m[1]);
      assert IsJump(g, b, p, m[i - 1], isKing, Excluded(last, m, i), d, m[i]);
    } else {
      var tail := m[1..];
      ChainStep(g, b, p, isKing, m[0], tail, i - 1);
      var d :| IsJump(g, b, p, tail[i - 2], isKing, Excluded(m[0], tail, i - 1), d, tail[i - 1]);
      assert tail[i - 2] == m[i - 1] && tail[i - 1] == m[i];
      assert Excluded(m[0], tail, i - 1) == Excluded(last, m, i);
      assert IsJump(g, b, p, m[i - 1], isKing, Excluded(last, m, i), d, m[i]);
    }
  }

  /** Every square a capture chain jumps over holds an adversary piece. */
  lemma {:induction false} ChainJumpsAdversaries(g: Geometry, b: seq<Cell>, p: PlayerId, isKing: bool, last: int,
                                                 m: seq<int>, k: int, s: int)
    requires WellFormed(g, |b|) && IsChain(g, b, p, isKing, last, m)
    requires 1 <= k <= |m| && JumpedBefore(g, m, k, s)
    ensures IsAdversary(b, p, s)
    decreases k
  {
    if JumpedBefore(g, m, k - 1, s) {
      ChainJumpsAdversaries(g, b, p, isKing, last, m, k - 1, s);
    } else {
      var d :| Step(g, d, m[k - 2]) == s && Step(g, d, s) == m[k - 1];
      ChainStep(g, b, p, isKing, last, m, k - 1);
      var d0 :| IsJump(g, b, p, m[k - 2], isKing, Excluded(last, m, k - 1), d0, m[k - 1]);
      assert Step(g, d0, Step(g, d0, m[k - 2])) == Step(g, d, Step(g, d, m[k - 2]));
    }
  }

  /** A chain whose first step is a jump sets the `captured` flag. */
  lemma {:induction false} FirstJumpCaptures(g: Geometry, m: seq<int>, k: int)
    requires 2 <= k <= |m| && JumpsOver(g, m[0], m[1])
    ensures CapturedBefore(g, m, k)
    decreases k
  {
    if k > 2 {
      FirstJumpCaptures(g, m, k - 1);
    }
  }

  /** A slide jumps over nothing and captures nothing. */
  lemma SlideJumpsNothing(g: Geometry, b: seq<Cell>, p: PlayerId, m: seq<int>)
    requires WellFormed(g, |b|) && IsSlide(g, b, p, m)
    ensures !CapturedBefore(g, m, |m|)
    ensures forall s :: !JumpedBefore(g, m, |m|, s)
  {
    var d1 :| SlideDir(p, IsKing(b, m[0]), d1) && Step(g, d1, m[0]) == m[1];
    forall d2 ensures Step(g, d2, Step(g, d2, m[0])) != m[1]
    {
      assert Step(g, d1, m[0]) != Step(g, d2, Step(g, d2, m[0]));
    }
  }

  /** A complete capture ends on an empty square, jumps only over adversaries and sets the `captured` flag. */
  lemma CaptureShapeOnBoard(g: Geometry, b: seq<Cell>, p: PlayerId, isKing: bool, m: seq<int>)
    requires WellFormed(g, |b|) && IsChain(g, b, p, isKing, -1, m)
    ensures 1 <= m[|m| - 1] <= |b| && IsEmpty(b, m[|m| - 1])
    ensures forall s :: JumpedBefore(g, m, |m|, s) ==> IsAdversary(b, p, s)
    ensures CapturedBefore(g, m, |m|)
  {
    ChainStep(g, b, p, isKing, -1, m, |m| - 1);
    var d :| IsJump(g, b, p, m[|m| - 2], isKing, Excluded(-1, m, |m| - 1), d, m[|m| - 1]);
    assert Step(g, d, Step(g, d, m[|m| - 2])) == m[|m| - 1];
    ChainStep(g, b, p, isKing, -1, m, 1);
    var d1 :| IsJump(g, b, p, m[0], isKing, Excluded(-1, m, 1), d1, m[1]);
    assert Step(g, d1, Step(g, d1, m[0])) == m[1];
    FirstJumpCaptures(g, m, |m|);
    forall s | JumpedBefore(g, m, |m|, s)
      ensures IsAdversary(b, p, s)
    {
      ChainJumpsAdversaries(g, b, p, isKing, -1, m, |m|, s);
    }
  }

  /** A slide ends on an empty square of the board. */
  lemma SlideShapeOnBoard(g: Geometry, b: seq<Cell>, p: PlayerId, m: seq<int>)
    requires WellFormed(g, |b|) && IsSlide(g, b, p, m)
    ensures 1 <= m[1] <= |b| && IsEmpty(b, m[1])
  {
    var d :| SlideDir(p, IsKing(b, m[0]), d) && Step(g, d, m[0]) == m[1];
  }

  /**
   * A legal move starts on one of the mover's pieces and ends on an empty
   * square of the board; it jumps only over adversary pieces; and it
   * captures exactly when some capture was available.
   */
  lemma LegalMoveShape(g: Geometry, b: seq<Cell>, p: PlayerId, m: seq<int>)
    requires WellFormed(g, |b|) && m in DraughtsMoves.PossibleMoves(g, b, p)
    ensures |m| >= 2 && 1 <= m[0] <= |b| && IsMine(b, p, m[0])
    ensures 1 <= m[|m| - 1] <= |b| && IsEmpty(b, m[|m| - 1])
    ensures forall s :: JumpedBefore(g, m, |m|, s) ==> IsAdversary(b, p, s)
    ensures CapturedBefore(g, m, |m|) <==> CanCapture(g, b, p)
  {
    ForcedCapture(g, b, p);
    if CanCapture(g, b, p) {
      assert IsCapture(g, b, p, m[0], IsKing(b, m[0]), -1, 0, m);
      CaptureShapeOnBoard(g, b, p, IsKing(b, m[0]), m);
    } else {
      assert IsSlide(g, b, p, m);
      SlideShapeOnBoard(g, b, p, m);
      SlideJumpsNothing(g, b, p, m);
    }
  }

  /** The board after a legal move: origin emptied, piece landed, jumped squares cleared, promotion. */
  lemma PlayedLegal(g: Geometry, pos: Position, sq: seq<int>)
    requires pos.player != Nobody && |sq| >= 2
    requires sq in DraughtsMoves.PossibleMoves(g, pos.board, pos.player)
    ensures var b, p, fin := pos.board, pos.player, sq[|sq| - 1];
      Played(g, pos, DraughtsMove(sq)).board
        == Promoted(g, Cleared(g, Put(Put(b, sq[0], Empty), fin, Landed(b, p, sq[0])), sq, |sq|), p, fin)
  {
  }

  /**
   * Playing a legal move: its origin is emptied; its landing square holds
   * the moving piece (a king stays a king; promotion on the far row), still
   * the mover's; exactly the squares it jumps over are emptied, and they held
   * adversary pieces; every other square is unchanged.
   */
  lemma LegalPlayBoard(g: Geometry, pos: Position, sq: seq<int>)
    requires WellFormed(g, |pos.board|) && pos.player != Nobody
    requires sq in DraughtsMoves.PossibleMoves(g, pos.board, pos.player)
    ensures |sq| >= 2
    ensures var b, p, fin, after := pos.board, pos.player, sq[|sq| - 1], Played(g, pos, DraughtsMove(sq)).board;
      && |after| == |b|
      && At(after, sq[0]) == Empty
      && At(after, fin) == Crowned(g, p, fin, Landed(b, p, sq[0]))
      && HasColour(At(after, fin), p == One)
      && (forall s :: JumpedBefore(g, sq, |sq|, s) ==> IsAdversary(b, p, s) && At(after, s) == Empty)
      && (forall s {:trigger At(after, s)} :: s != sq[0] && s != fin && !JumpedBefore(g, sq, |sq|, s) ==> At(after, s) == At(b, s))
  {
    LegalMoveShape(g, pos.board, pos.player, sq);
    PlayedBoard(g, pos, sq);
  }

  /**
   * The board after a legal move, given the shape of the move: the facts
   * `LegalMoveShape` establishes are taken as preconditions here, which keeps
   * the board geometry out of this proof.
   */
  lemma PlayedBoard(g: Geometry, pos: Position, sq: seq<int>)
    requires pos.player != Nobody && |sq| >= 2
    requires sq in DraughtsMoves.PossibleMoves(g, pos.board, pos.player)
    requires 1 <= sq[0] <= |pos.board| && IsMine(pos.board, pos.player, sq[0])
    requires 1 <= sq[|sq| - 1] <= |pos.board| && IsEmpty(pos.board, sq[|sq| - 1])
    requires forall s :: JumpedBefore(g, sq, |sq|, s) ==> IsAdversary(pos.board, pos.player, s)
    ensures var b, p, fin, after := pos.board, pos.player, sq[|sq| - 1], Played(g, pos, DraughtsMove(sq)).board;
      && |after| == |b|
      && At(after, sq[0]) == Empty
      && At(after, fin) == Crowned(g, p, fin, Landed(b, p, sq[0]))
      && HasColour(At(after, fin), p == One)
      && (forall s :: JumpedBefore(g, sq, |sq|, s) ==> IsAdversary(b, p, s) && At(after, s) == Empty)
      && (forall s {:trigger At(after, s)} :: s != sq[0] && s != fin && !JumpedBefore(g, sq, |sq|, s) ==> At(after, s) == At(b, s))
  {
    var b, p := pos.board, pos.player;
    var fin := sq[|sq| - 1];
    assert sq[0] != fin;
    var placed := Put(Put(b, sq[0], Empty), fin, Landed(b, p, sq[0]));
    var cleared := Cleared(g, placed, sq, |sq|);
    var after := Promoted(g, cleared, p, fin);
    PlayedLegal(g, pos, sq);
    assert !JumpedBefore(g, sq, |sq|, fin) by {
      MineAndAdversaryDisjoint(b, p, fin);
    }
    assert At(placed, sq[0]) == Empty;
    assert At(after, sq[0]) == Empty;
    assert At(cleared, fin) == Landed(b, p, sq[0]);
    assert At(after, fin) == Crowned(g, p, fin, Landed(b, p, sq[0]));
  }

  /**
   * Playing a legal move passes the turn, counts it, and counts a king move
   * without capture: the counter goes up by one exactly when a king moves
   * while no capture was available, and is reset otherwise.
   */
  lemma LegalPlayCounters(g: Geometry, pos: Position, sq: seq<int>)
    requires WellFormed(g, |pos.board|) && pos.player != Nobody
    requires sq in DraughtsMoves.PossibleMoves(g, pos.board, pos.player)
    ensures sq != []
    ensures var after := Played(g, pos, DraughtsMove(sq));
      && after.player == Opponent(pos.player) && after.player != pos.player
      && after.nbTurn == pos.nbTurn + 1
      && after.kingMoves == if IsKing(pos.board, sq[0]) && !CanCapture(g, pos.board, pos.player) then pos.kingMoves + 1 else 0
  {
    LegalMoveShape(g, pos.board, pos.player, sq);
  }

  /**
   * A move that is not legal moves no piece, yet the turn still passes, the
   * landing square may still be promoted and the king-move counter is still
   * updated as if nothing was captured.
   */
  lemma IllegalPlay(g: Geometry, pos: Position, sq: seq<int>)
    requires pos.player != Nobody && sq != []
    requires sq !in DraughtsMoves.PossibleMoves(g, pos.board, pos.player)
    ensures var after := Played(g, pos, DraughtsMove(sq));
      && (forall s {:trigger At(after.board, s)} :: s != sq[|sq| - 1] ==> At(after.board, s) == At(pos.board, s))
      && (1 <= sq[|sq| - 1] <= |pos.board| ==>
            At(after.board, sq[|sq| - 1]) == Crowned(g, pos.player, sq[|sq| - 1], At(pos.board, sq[|sq| - 1])))
      && after.player == Opponent(pos.player)
      && after.nbTurn == pos.nbTurn + 1
      && after.kingMoves == if IsKing(pos.board, sq[0]) then pos.kingMoves + 1 else 0
  {
  }

  // ---------------------------------------------------------------------------
  // The verdict, and draughts as an instance of the game contract
  // ---------------------------------------------------------------------------

  /** A player left without pieces has lost. */
  lemma NoPiecesLoses(g: Geometry, pos: Position)
    requires forall s :: 1 <= s <= |pos.board| ==> !IsMine(pos.board, pos.player, s)
    ensures Outcome(g, pos) == Over(Opponent(pos.player))
  {
    NoPiecesNoMoves(g, pos.board, pos.player);
  }

  /**
   * A decided game is won by the player not to move, or drawn after at least
   * 25 king moves without capture while moves were still available.
   */
  lemma VerdictShape(g: Geometry, pos: Position)
    requires pos.player != Nobody && Outcome(g, pos).Over?
    ensures Outcome(g, pos).winner != pos.player
    ensures Outcome(g, pos).winner == Nobody <==>
              pos.kingMoves >= 25 && DraughtsMoves.PossibleMoves(g, pos.board, pos.player) != []
  {
  }

  /**
   * The game goes on exactly when the player to move has a legal move and
   * fewer than 25 king moves without capture have been played.
   */
  lemma OngoingExactly(g: Geometry, pos: Position)
    ensures Outcome(g, pos) == Ongoing <==>
              DraughtsMoves.PossibleMoves(g, pos.board, pos.player) != [] && pos.kingMoves < 25
  {
  }

  /** The legal moves as moves of the game contract. */
  function AsMoves(ms: seq<seq<int>>): (r: seq<Move>)
    ensures |r| == |ms|
    ensures forall i :: 0 <= i < |ms| ==> r[i] == DraughtsMove(ms[i])
  {
    seq(|ms|, i requires 0 <= i < |ms| => DraughtsMove(ms[i]))
  }

  /** English draughts on geometry `g` as a game for the search engines. */
  ghost function DraughtsRules(g: Geometry): Rules<Position, Move>
  {
    Rules((pos: Position) => AsMoves(DraughtsMoves.PossibleMoves(g, pos.board, pos.player)),
          (pos: Position, m: Move) => Played(g, pos, m),
          (pos: Position) => pos.player,
          (pos: Position) => Outcome(g, pos))
  }

  /** Draughts meets the contract that a position without a legal move is decided. */
  lemma DraughtsDecisive(g: Geometry)
    ensures Decisive(DraughtsRules(g))
  {
    forall pos: Position | DraughtsRules(g).moves(pos) == []
      ensures DraughtsRules(g).winner(pos).Over?
    {
      assert |DraughtsMoves.PossibleMoves(g, pos.board, pos.player)| == 0;
    }
  }
}
