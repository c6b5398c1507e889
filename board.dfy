/**
 * The checker board as the draughts rules see it.  Squares are numbered from
 * 1; square `s` is entry `s - 1` of the cell sequence.  The diagonal geometry
 * (the four neighbour functions and the two promotion-row tests) is left
 * abstract: a `Geometry` value carries them, and a neighbour that is not a
 * square is reported as 0.
 */
module Board {

  datatype Dir = UpLeft | UpRight | DownLeft | DownRight

  /** Neighbour functions and promotion-row tests of a board. */
  datatype Geometry = Geometry(
    upLeft: int -> int,
    upRight: int -> int,
    downLeft: int -> int,
    downRight: int -> int,
    inTopRow: int -> bool,
    inBottomRow: int -> bool)

  /** The diagonal neighbour of `s` in direction `d` (0 when there is none). */
  function Step(g: Geometry, d: Dir, s: int): int
  {
    match d
    case UpLeft => g.upLeft(s)
    case UpRight => g.upRight(s)
    case DownLeft => g.downLeft(s)
    case DownRight => g.downRight(s)
  }

  /**
   * What any real diagonal geometry of a board of `size` squares satisfies,
   * and what the move-application lemmas need: a neighbour is 0 or a square;
   * from one square, the squares two steps away in two different directions
   * are different (when they exist); and a neighbour is never also two steps
   * away.
   */
  ghost predicate WellFormed(g: Geometry, size: nat)
  {
    && (forall d, s {:trigger Step(g, d, s)} :: Step(g, d, s) == 0 || 1 <= Step(g, d, s) <= size)
    && (forall s, d1, d2 {:trigger Step(g, d1, Step(g, d1, s)), Step(g, d2, Step(g, d2, s))} ::
          d1 != d2 && Step(g, d1, Step(g, d1, s)) != 0 ==>
            Step(g, d1, Step(g, d1, s)) != Step(g, d2, Step(g, d2, s)))
    && (forall s, d1, d2 {:trigger Step(g, d1, s), Step(g, d2, Step(g, d2, s))} ::
          Step(g, d1, s) != 0 ==> Step(g, d1, s) != Step(g, d2, Step(g, d2, s)))
  }

  datatype Cell = Empty | WhitePawn | WhiteKing | BlackPawn | BlackKing

  /** The content of square `s`; a number that is not a square reads as empty. */
  function At(b: seq<Cell>, s: int): Cell
  {
    if 1 <= s <= |b| then b[s - 1] else Empty
  }

  /** The board with square `s` set to `c`; a number that is not a square changes nothing. */
  function Put(b: seq<Cell>, s: int, c: Cell): (r: seq<Cell>)
    ensures |r| == |b|
    ensures forall t {:trigger At(r, t)} :: At(r, t) == if t == s && 1 <= s <= |b| then c else At(b, t)
  {
    if 1 <= s <= |b| then b[s - 1 := c] else b
  }

  predicate IsEmpty(b: seq<Cell>, s: int) { At(b, s) == Empty }
  predicate IsWhite(b: seq<Cell>, s: int) { At(b, s) == WhitePawn || At(b, s) == WhiteKing }
  predicate IsBlack(b: seq<Cell>, s: int) { At(b, s) == BlackPawn || At(b, s) == BlackKing }
  predicate IsKing(b: seq<Cell>, s: int) { At(b, s) == WhiteKing || At(b, s) == BlackKing }

  predicate HasColour(c: Cell, white: bool)
  {
    if white then c == WhitePawn || c == WhiteKing else c == BlackPawn || c == BlackKing
  }

  /**
   * The squares holding a piece of one colour, in increasing order: the
   * lists `getWhitePawns` / `getBlackPawns` of the board.
   */
  function Pawns(b: seq<Cell>, white: bool): (r: seq<int>)
    ensures forall k :: 0 <= k < |r| ==> 1 <= r[k] <= |b| && HasColour(At(b, r[k]), white)
    ensures forall j, k :: 0 <= j < k < |r| ==> r[j] < r[k]
    ensures r != [] ==> 1 <= r[0] <= |b| && HasColour(At(b, r[0]), white)
    decreases |b|
  {
    if b == [] then []
    else
      var front := Pawns(b[..|b| - 1], white);
      assert forall s :: 1 <= s < |b| ==> At(b[..|b| - 1], s) == At(b, s);
      assert At(b, |b|) == b[|b| - 1];
      front + (if HasColour(b[|b| - 1], white) then [|b|] else [])
  }

  /** No piece of the colour is missed: every square holding one is listed. */
  lemma {:induction false} PawnsComplete(b: seq<Cell>, white: bool)
    ensures forall s {:trigger s in Pawns(b, white)} :: 1 <= s <= |b| && HasColour(At(b, s), white) ==> s in Pawns(b, white)
    decreases |b|
  {
    if b != [] {
      var front := b[..|b| - 1];
      PawnsComplete(front, white);
      forall s | 1 <= s <= |b| && HasColour(At(b, s), white)
        ensures s in Pawns(b, white)
      {
        if s < |b| {
          assert At(front, s) == At(b, s);
          assert s in Pawns(front, white);
        } else {
          assert At(b, |b|) == b[|b| - 1];
        }
      }
    }
  }
}
