/**
 * Move generation for English draughts: the jump lister for one square, the
 * recursive multi-capture search with its depth cap, the non-capturing
 * slides, and the forced-capture rule that chooses between them.  A move is
 * the sequence of squares the piece visits.  Everything here only reads the
 * board, so it is written as functions over the board value.
 */
module DraughtsMoves {
  import opened Game
  import opened Board

  /** `isMine`: the square holds a piece of the player to move (black for anyone but `One`). */
  predicate IsMine(b: seq<Cell>, p: PlayerId, s: int)
  {
    if p == One then IsWhite(b, s) else IsBlack(b, s)
  }

  /** `isAdversary`: the square holds a piece of the other colour (white for anyone but `One`). */
  predicate IsAdversary(b: seq<Cell>, p: PlayerId, s: int)
  {
    if p == One then IsBlack(b, s) else IsWhite(b, s)
  }

  lemma MineAndAdversaryDisjoint(b: seq<Cell>, p: PlayerId, s: int)
    ensures !(IsMine(b, p, s) && IsAdversary(b, p, s))
    ensures IsMine(b, p, s) || IsAdversary(b, p, s) <==> !IsEmpty(b, s)
  {
  }

  /** `myPawns`: the squares of the player to move, in increasing order. */
  function MyPawns(b: seq<Cell>, p: PlayerId): (r: seq<int>)
    ensures forall s {:trigger s in r} :: s in r <==> 1 <= s <= |b| && IsMine(b, p, s)
    ensures r != [] ==> 1 <= r[0] <= |b| && IsMine(b, p, r[0])
  {
    PawnsComplete(b, p == One);
    Pawns(b, p == One)
  }

  /** The directions a piece that is not a king moves in: up for `One`, down for anyone else. */
  predicate Forward(p: PlayerId, d: Dir)
  {
    if p == One then d == UpLeft || d == UpRight else d == DownLeft || d == DownRight
  }

  // ---------------------------------------------------------------------------
  // Jumps from one square
  // ---------------------------------------------------------------------------

  /** A jump of `p`'s piece on `pawn` may go in direction `dir`. */
  predicate JumpDir(p: PlayerId, pawn: int, isKing: bool, dir: Dir)
  {
    p != Nobody && (Forward(p, dir) || (pawn > 0 && isKing))
  }

  /**
   * Independent statement of one jump: in an allowed direction, over an
   * adversary piece on a square, onto an empty square that is not `last`.
   */
  predicate IsJump(g: Geometry, b: seq<Cell>, p: PlayerId, pawn: int, isKing: bool, last: int, dir: Dir, land: int)
  {
    && JumpDir(p, pawn, isKing, dir)
    && Step(g, dir, pawn) > 0
    && land == Step(g, dir, Step(g, dir, pawn))
    && land > 0
    && IsAdversary(b, p, Step(g, dir, pawn))
    && IsEmpty(b, land)
    && land != last
  }

  /** The landing square of a jump from `from` in direction `d`, if that jump is open. */
  function JumpIn(g: Geometry, b: seq<Cell>, p: PlayerId, d: Dir, from: int, last: int): seq<int>
  {
    var over := Step(g, d, from);
    var land := Step(g, d, over);
    if over > 0 && land > 0 && IsAdversary(b, p, over) && IsEmpty(b, land) && land != last
    then [land] else []
  }

  /**
   * `listeDestinationsSautsPossiblesDepuisCase`: the landing squares of the
   * jumps open to the piece on `pawn`: forward directions first, then, for a
   * king, the two backward ones.
   */
  function JumpDestinations(g: Geometry, b: seq<Cell>, p: PlayerId, pawn: int, isKing: bool, last: int): (r: seq<int>)
    ensures |r| <= 4
    ensures forall d :: d in r ==> d > 0 && IsEmpty(b, d) && d != last
    ensures WellFormed(g, |b|) ==> forall d :: d in r ==> d <= |b|
  {
    if p == One then
      JumpIn(g, b, p, UpLeft, pawn, last) + JumpIn(g, b, p, UpRight, pawn, last)
      + (if pawn > 0 && isKing then JumpIn(g, b, p, DownLeft, pawn, last) + JumpIn(g, b, p, DownRight, pawn, last) else [])
    else if p == Two then
      JumpIn(g, b, p, DownLeft, pawn, last) + JumpIn(g, b, p, DownRight, pawn, last)
      + (if pawn > 0 && isKing then JumpIn(g, b, p, UpLeft, pawn, last) + JumpIn(g, b, p, UpRight, pawn, last) else [])
    else []
  }

  /** The jump lister returns exactly the landing squares of the open jumps. */
  lemma JumpDestinationsExactly(g: Geometry, b: seq<Cell>, p: PlayerId, pawn: int, isKing: bool, last: int, land: int)
    ensures land in JumpDestinations(g, b, p, pawn, isKing, last)
        <==> exists dir :: IsJump(g, b, p, pawn, isKing, last, dir, land)
  {
    var r := JumpDestinations(g, b, p, pawn, isKing, last);
    forall dir | IsJump(g, b, p, pawn, isKing, last, dir, land)
      ensures land in r
    {
      assert land in JumpIn(g, b, p, dir, pawn, last);
    }
    if land in r {
      var back := pawn > 0 && isKing;
      var dir: Dir;
      if land in JumpIn(g, b, p, UpLeft, pawn, last) && (p == One || back) { dir := UpLeft; }
      else if land in JumpIn(g, b, p, UpRight, pawn, last) && (p == One || back) { dir := UpRight; }
      else if land in JumpIn(g, b, p, DownLeft, pawn, last) && (p == Two || back) { dir := DownLeft; }
      else { dir := DownRight; }
      assert IsJump(g, b, p, pawn, isKing, last, dir, land);
    }
  }

  // ---------------------------------------------------------------------------
  // Multi-captures (prisesPossiblesDepuisCase)
  // ---------------------------------------------------------------------------

  /** How many more levels a search at depth `iteration` may descend: the cap at depth 10. */
  function Budget(iteration: int): nat
  {
    if iteration < 10 then 10 - iteration else 0
  }

  /** The longest move a search at depth `iteration` can produce (12 squares from depth 0). */
  function MaxLength(iteration: int): int
  {
    2 + Budget(iteration)
  }

  /**
   * Each square of `m` after the first is a jump destination of the one
   * before it, the square before that one being the excluded `last`.
   */
  predicate IsChain(g: Geometry, b: seq<Cell>, p: PlayerId, isKing: bool, last: int, m: seq<int>)
    decreases |m|
  {
    && |m| >= 2
    && m[1] in JumpDestinations(g, b, p, m[0], isKing, last)
    && (|m| > 2 ==> IsChain(g, b, p, isKing, m[0], m[1..]))
  }

  /** The search stops extending `m`: no further jump, or the depth cap was reached. */
  predicate Stopped(g: Geometry, b: seq<Cell>, p: PlayerId, isKing: bool, iteration: int, m: seq<int>)
    requires |m| >= 2
  {
    iteration + |m| - 2 >= 10 || JumpDestinations(g, b, p, m[|m| - 1], isKing, m[|m| - 2]) == []
  }

  /** A complete capture from `square` as the search at depth `iteration` defines it. */
  predicate IsCapture(g: Geometry, b: seq<Cell>, p: PlayerId, square: int, isKing: bool, last: int, iteration: int, m: seq<int>)
    ensures IsCapture(g, b, p, square, isKing, last, iteration, m) ==> |m| >= 2 && m[0] == square
  {
    && |m| >= 2
    && m[0] == square
    && IsChain(g, b, p, isKing, last, m)
    && |m| <= MaxLength(iteration)
    && Stopped(g, b, p, isKing, iteration, m)
  }

  /** The moves a jump to `dest` contributes: `[square, dest]` alone, or `[square, dest]` before each continuation's tail. */
  function Continued(square: int, dest: int, further: seq<seq<int>>): (r: seq<seq<int>>)
    requires forall f :: f in further ==> |f| >= 1
    ensures further == [] ==> r == [[square, dest]]
    ensures further != [] ==> |r| == |further|
    ensures further != [] ==> forall k :: 0 <= k < |r| ==> r[k] == [square, dest] + further[k][1..]
  {
    if further == [] then [[square, dest]]
    else seq(|further|, k requires 0 <= k < |further| => [square, dest] + further[k][1..])
  }

  /** One jump followed by a complete capture from its landing square is a complete capture. */
  lemma ExtendCapture(g: Geometry, b: seq<Cell>, p: PlayerId, square: int, isKing: bool,
                      last: int, iteration: int, dest: int, f: seq<int>)
    requires iteration < 10
    requires dest in JumpDestinations(g, b, p, square, isKing, last)
    requires IsCapture(g, b, p, dest, isKing, square, iteration + 1, f)
    ensures IsCapture(g, b, p, square, isKing, last, iteration, [square, dest] + f[1..])
  {
    var m := [square, dest] + f[1..];
    assert m[1..] == f;
    assert m[|m| - 1] == f[|f| - 1] && m[|m| - 2] == f[|f| - 2];
  }

  /** What the search collects for one destination consists of complete captures through it. */
  lemma {:induction false} ContinuedIsCapture(g: Geometry, b: seq<Cell>, p: PlayerId, square: int, isKing: bool,
                                              last: int, iteration: int, dest: int, further: seq<seq<int>>)
    requires dest in JumpDestinations(g, b, p, square, isKing, last)
    requires further == [] ==> iteration >= 10 || JumpDestinations(g, b, p, dest, isKing, square) == []
    requires further != [] ==> iteration < 10
    requires forall f :: f in further ==> |f| >= 2 && IsCapture(g, b, p, dest, isKing, square, iteration + 1, f)
    ensures forall m :: m in Continued(square, dest, further) ==>
              IsCapture(g, b, p, square, isKing, last, iteration, m) && m[1] == dest
  {
    var r := Continued(square, dest, further);
    forall m | m in r
      ensures IsCapture(g, b, p, square, isKing, last, iteration, m) && m[1] == dest
    {
      if further != [] {
        var k :| 0 <= k < |r| && r[k] == m;
        assert further[k] in further;
        ExtendCapture(g, b, p, square, isKing, last, iteration, dest, further[k]);
      }
    }
  }

  /**
   * `prisesPossiblesDepuisCase(square, isKing, last, iteration)`: every
   * complete capture from `square`, one or more per open jump.
   */
  function CapturesFrom(g: Geometry, b: seq<Cell>, p: PlayerId, square: int, isKing: bool, last: int, iteration: int): (r: seq<seq<int>>)
    ensures forall m :: m in r ==> IsCapture(g, b, p, square, isKing, last, iteration, m)
    ensures |r| >= |JumpDestinations(g, b, p, square, isKing, last)|
    decreases Budget(iteration), 1, 0
  {
    CapturesVia(g, b, p, square, isKing, last, iteration, JumpDestinations(g, b, p, square, isKing, last))
  }

  /** The loop of `prisesPossiblesDepuisCase` over the jump destinations `dests`. */
  function CapturesVia(g: Geometry, b: seq<Cell>, p: PlayerId, square: int, isKing: bool, last: int, iteration: int,
                       dests: seq<int>): (r: seq<seq<int>>)
    requires forall d :: d in dests ==> d in JumpDestinations(g, b, p, square, isKing, last)
    ensures forall m :: m in r ==> IsCapture(g, b, p, square, isKing, last, iteration, m) && m[1] in dests
    ensures |r| >= |dests|
    decreases Budget(iteration), 0, |dests|
  {
    if dests == [] then []
    else
      var dest := dests[0];
      var further := if iteration < 10 then CapturesFrom(g, b, p, dest, isKing, square, iteration + 1) else [];
      ContinuedIsCapture(g, b, p, square, isKing, last, iteration, dest, further);
      Continued(square, dest, further) + CapturesVia(g, b, p, square, isKing, last, iteration, dests[1..])
  }

  /** Every contribution of a destination in `dests` is part of the loop's result. */
  lemma {:induction false} CapturesViaContains(g: Geometry, b: seq<Cell>, p: PlayerId, square: int, isKing: bool,
                                               last: int, iteration: int, dests: seq<int>, dest: int, m: seq<int>)
    requires forall d :: d in dests ==> d in JumpDestinations(g, b, p, square, isKing, last)
    requires dest in dests
    requires m in Continued(square, dest,
                            if iteration < 10 then CapturesFrom(g, b, p, dest, isKing, square, iteration + 1) else [])
    ensures m in CapturesVia(g, b, p, square, isKing, last, iteration, dests)
    decreases |dests|
  {
    if dests[0] != dest {
      CapturesViaContains(g, b, p, square, isKing, last, iteration, dests[1..], dest, m);
    }
  }

  /**
   * Capture enumeration is exhaustive and sound: a sequence is returned by
   * the search exactly when it is a complete capture.
   */
  lemma {:induction false} CapturesExactly(g: Geometry, b: seq<Cell>, p: PlayerId, square: int, isKing: bool,
                                           last: int, iteration: int, m: seq<int>)
    ensures m in CapturesFrom(g, b, p, square, isKing, last, iteration)
        <==> IsCapture(g, b, p, square, isKing, last, iteration, m)
    decreases |m|
  {
    if IsCapture(g, b, p, square, isKing, last, iteration, m) {
      if |m| == 2 {
        SingleJumpContributed(g, b, p, square, isKing, last, iteration, m);
      } else {
        CaptureTail(g, b, p, square, isKing, last, iteration, m);
        CapturesExactly(g, b, p, m[1], isKing, square, iteration + 1, m[1..]);
        LongCaptureContributed(g, b, p, square, isKing, last, iteration, m);
      }
      CapturesViaContains(g, b, p, square, isKing, last, iteration,
                          JumpDestinations(g, b, p, square, isKing, last), m[1], m);
    }
  }

  /** A one-jump capture is what its destination contributes. */
  lemma SingleJumpContributed(g: Geometry, b: seq<Cell>, p: PlayerId, square: int, isKing: bool,
                              last: int, iteration: int, m: seq<int>)
    requires IsCapture(g, b, p, square, isKing, last, iteration, m) && |m| == 2
    ensures m in Continued(square, m[1],
                           if iteration < 10 then CapturesFrom(g, b, p, m[1], isKing, square, iteration + 1) else [])
  {
    if iteration < 10 {
      SingleJumpHasNoContinuation(g, b, p, square, isKing, last, iteration, m);
    }
    assert m == [square, m[1]];
  }

  /** A capture of two or more jumps is among what its first destination contributes. */
  lemma LongCaptureContributed(g: Geometry, b: seq<Cell>, p: PlayerId, square: int, isKing: bool,
                               last: int, iteration: int, m: seq<int>)
    requires |m| > 2 && m[0] == square && iteration < 10
    requires m[1..] in CapturesFrom(g, b, p, m[1], isKing, square, iteration + 1)
    ensures m in Continued(square, m[1], CapturesFrom(g, b, p, m[1], isKing, square, iteration + 1))
  {
    var further := CapturesFrom(g, b, p, m[1], isKing, square, iteration + 1);
    var k :| 0 <= k < |further| && further[k] == m[1..];
    assert m == [square, m[1]] + m[1..][1..];
    assert Continued(square, m[1], further)[k] == m;
  }

  /** A one-jump capture below the cap has no continuation. */
  lemma SingleJumpHasNoContinuation(g: Geometry, b: seq<Cell>, p: PlayerId, square: int, isKing: bool,
                                    last: int, iteration: int, m: seq<int>)
    requires IsCapture(g, b, p, square, isKing, last, iteration, m) && |m| == 2 && iteration < 10
    ensures CapturesFrom(g, b, p, m[1], isKing, square, iteration + 1) == []
  {
    assert JumpDestinations(g, b, p, m[1], isKing, square) == [];
    assert CapturesFrom(g, b, p, m[1], isKing, square, iteration + 1)
        == CapturesVia(g, b, p, m[1], isKing, square, iteration + 1, []);
  }

  /** Dropping the first square of a capture of two or more jumps leaves a capture one level deeper. */
  lemma CaptureTail(g: Geometry, b: seq<Cell>, p: PlayerId, square: int, isKing: bool,
                    last: int, iteration: int, m: seq<int>)
    requires IsCapture(g, b, p, square, isKing, last, iteration, m) && |m| > 2
    ensures iteration < 10
    ensures IsCapture(g, b, p, m[1], isKing, square, iteration + 1, m[1..])
  {
    var tail := m[1..];
    assert tail[|tail| - 1] == m[|m| - 1] && tail[|tail| - 2] == m[|m| - 2];
  }

  /**
   * From depth 0 a capture visits at most 12 squares (11 jumps), starts on
   * its square and lands first on one of the square's jump destinations;
   * there are at least as many captures as destinations.
   */
  lemma CaptureShape(g: Geometry, b: seq<Cell>, p: PlayerId, square: int, isKing: bool, last: int, m: seq<int>)
    requires m in CapturesFrom(g, b, p, square, isKing, last, 0)
    ensures 2 <= |m| <= 12 && m[0] == square
    ensures m[1] in JumpDestinations(g, b, p, square, isKing, last)
  {
  }

  // ---------------------------------------------------------------------------
  // Slides (possibleMovesWithoutCapture)
  // ---------------------------------------------------------------------------

  /** The directions a slide may take: forward, or any direction for a king. */
  predicate SlideDir(p: PlayerId, king: bool, d: Dir)
  {
    Forward(p, d) || king
  }

  /** Independent statement of a slide: one allowed step onto an empty neighbour. */
  predicate IsSlide(g: Geometry, b: seq<Cell>, p: PlayerId, m: seq<int>)
  {
    && |m| == 2
    && m[1] != 0
    && IsEmpty(b, m[1])
    && exists d :: SlideDir(p, IsKing(b, m[0]), d) && Step(g, d, m[0]) == m[1]
  }

  function SlideTo(g: Geometry, b: seq<Cell>, d: Dir, from: int): (r: seq<seq<int>>)
    ensures forall m :: m in r ==> |m| == 2 && m[0] == from && m[1] == Step(g, d, m[0]) && m[1] != 0 && IsEmpty(b, m[1])
  {
    var to := Step(g, d, from);
    if to != 0 && IsEmpty(b, to) then [[from, to]] else []
  }

  /** The slides of the piece on `from`: forward directions first, then, for a king, the backward ones. */
  function SlidesFrom(g: Geometry, b: seq<Cell>, p: PlayerId, from: int): (r: seq<seq<int>>)
    ensures forall m :: m in r ==> |m| == 2 && m[0] == from && IsSlide(g, b, p, m)
  {
    if p == One then
      SlideTo(g, b, UpLeft, from) + SlideTo(g, b, UpRight, from)
      + (if IsKing(b, from) then SlideTo(g, b, DownLeft, from) + SlideTo(g, b, DownRight, from) else [])
    else
      SlideTo(g, b, DownLeft, from) + SlideTo(g, b, DownRight, from)
      + (if IsKing(b, from) then SlideTo(g, b, UpLeft, from) + SlideTo(g, b, UpRight, from) else [])
  }

  lemma SlidesFromComplete(g: Geometry, b: seq<Cell>, p: PlayerId, m: seq<int>)
    requires IsSlide(g, b, p, m)
    ensures m in SlidesFrom(g, b, p, m[0])
  {
    var d :| SlideDir(p, IsKing(b, m[0]), d) && Step(g, d, m[0]) == m[1];
    assert m == [m[0], m[1]];
    assert m in SlideTo(g, b, d, m[0]);
  }

  /** The slides of all the pieces on `pawns`, in that order. */
  function Slides(g: Geometry, b: seq<Cell>, p: PlayerId, pawns: seq<int>): (r: seq<seq<int>>)
    ensures forall m :: m in r ==> IsSlide(g, b, p, m) && m[0] in pawns
    decreases |pawns|
  {
    if pawns == [] then []
    else Slides(g, b, p, pawns[..|pawns| - 1]) + SlidesFrom(g, b, p, pawns[|pawns| - 1])
  }

  /** Every slide of a piece on `pawns` is listed. */
  lemma {:induction false} SlidesComplete(g: Geometry, b: seq<Cell>, p: PlayerId, pawns: seq<int>, m: seq<int>)
    requires IsSlide(g, b, p, m) && m[0] in pawns
    ensures m in Slides(g, b, p, pawns)
    decreases |pawns|
  {
    if pawns[|pawns| - 1] == m[0] {
      SlidesFromComplete(g, b, p, m);
    } else {
      var front := pawns[..|pawns| - 1];
      assert m[0] in front by {
        var k :| 0 <= k < |pawns| && pawns[k] == m[0];
        assert front[k] == m[0];
      }
      SlidesComplete(g, b, p, front, m);
    }
  }

  // ---------------------------------------------------------------------------
  // possibleMoves and the forced-capture rule
  // ---------------------------------------------------------------------------

  /** The captures of all the pieces on `pawns` (from depth 0, no excluded square), in that order. */
  function PawnCaptures(g: Geometry, b: seq<Cell>, p: PlayerId, pawns: seq<int>): (r: seq<seq<int>>)
    ensures forall m :: m in r ==> |m| >= 2 && m[0] in pawns && IsCapture(g, b, p, m[0], IsKing(b, m[0]), -1, 0, m)
    ensures r == [] <==> forall s :: s in pawns ==> JumpDestinations(g, b, p, s, IsKing(b, s), -1) == []
    decreases |pawns|
  {
    if pawns == [] then []
    else
      var s := pawns[|pawns| - 1];
      PawnCaptures(g, b, p, pawns[..|pawns| - 1]) + CapturesFrom(g, b, p, s, IsKing(b, s), -1, 0)
  }

  /** Every complete capture of a piece on `pawns` is listed. */
  lemma {:induction false} PawnCapturesComplete(g: Geometry, b: seq<Cell>, p: PlayerId, pawns: seq<int>, m: seq<int>)
    requires m != [] && m[0] in pawns && IsCapture(g, b, p, m[0], IsKing(b, m[0]), -1, 0, m)
    ensures m in PawnCaptures(g, b, p, pawns)
    decreases |pawns|
  {
    var s := pawns[|pawns| - 1];
    if s == m[0] {
      CapturesExactly(g, b, p, s, IsKing(b, s), -1, 0, m);
    } else {
      var front := pawns[..|pawns| - 1];
      assert m[0] in front by {
        var k :| 0 <= k < |pawns| && pawns[k] == m[0];
        assert front[k] == m[0];
      }
      PawnCapturesComplete(g, b, p, front, m);
    }
  }

  /** `possibleMoves`: the captures of the player's pieces if there is any, otherwise their slides. */
  function PossibleMoves(g: Geometry, b: seq<Cell>, p: PlayerId): seq<seq<int>>
  {
    var captures := PawnCaptures(g, b, p, MyPawns(b, p));
    if captures != [] then captures else Slides(g, b, p, MyPawns(b, p))
  }

  /** Some piece of the player to move has an open jump. */
  ghost predicate CanCapture(g: Geometry, b: seq<Cell>, p: PlayerId)
  {
    exists s :: s in MyPawns(b, p) && JumpDestinations(g, b, p, s, IsKing(b, s), -1) != []
  }

  /**
   * The forced-capture rule.  When some piece can jump, the legal moves are
   * exactly the complete captures of the player's pieces (and there is at
   * least one); otherwise they are exactly the slides of the player's pieces.
   */
  lemma ForcedCapture(g: Geometry, b: seq<Cell>, p: PlayerId)
    ensures CanCapture(g, b, p) ==> PossibleMoves(g, b, p) != []
    ensures forall m :: m in PossibleMoves(g, b, p) <==>
      (if CanCapture(g, b, p)
       then m != [] && IsMine(b, p, m[0]) && 1 <= m[0] <= |b| && IsCapture(g, b, p, m[0], IsKing(b, m[0]), -1, 0, m)
       else IsSlide(g, b, p, m) && IsMine(b, p, m[0]) && 1 <= m[0] <= |b|)
  {
    var pawns := MyPawns(b, p);
    forall m ensures m in PossibleMoves(g, b, p) <==>
      (if CanCapture(g, b, p)
       then m != [] && IsMine(b, p, m[0]) && 1 <= m[0] <= |b| && IsCapture(g, b, p, m[0], IsKing(b, m[0]), -1, 0, m)
       else IsSlide(g, b, p, m) && IsMine(b, p, m[0]) && 1 <= m[0] <= |b|)
    {
      if CanCapture(g, b, p) {
        if m != [] && m[0] in pawns && IsCapture(g, b, p, m[0], IsKing(b, m[0]), -1, 0, m) {
          PawnCapturesComplete(g, b, p, pawns, m);
        }
      } else {
        if IsSlide(g, b, p, m) && m[0] in pawns {
          SlidesComplete(g, b, p, pawns, m);
        }
      }
    }
  }

  /** A player without pieces has no legal move. */
  lemma NoPiecesNoMoves(g: Geometry, b: seq<Cell>, p: PlayerId)
    requires forall s :: 1 <= s <= |b| ==> !IsMine(b, p, s)
    ensures PossibleMoves(g, b, p) == []
  {
    assert MyPawns(b, p) == [];  // its first square would be the player's
  }
}
