/**
 * Playouts and their statistics, shared by both search engines: the
 * `RolloutResults` accumulator, a random playout to the end of a game, and
 * `rollOut`, which runs several playouts from one state.  Randomness is an
 * input: a playout is driven by the sequence of indices the random player
 * draws.
 */
module Rollout {
  import opened Game

  /** Wins of each player and number of playouts; a draw counts half a win for each player. */
  class RolloutResults {
    var win1: real
    var win2: real
    var n: int

    /** Every playout handed out exactly one win between the two players. */
    ghost predicate Balanced()
      reads this
    {
      0.0 <= win1 && 0.0 <= win2 && win1 + win2 == n as real
    }

    constructor ()
      ensures win1 == 0.0 && win2 == 0.0 && n == 0
      ensures Balanced()
    {
      win1, win2, n := 0.0, 0.0, 0;
    }

    method Reset()
      modifies this
      ensures win1 == 0.0 && win2 == 0.0 && n == 0
      ensures Balanced()
    {
      n := 0;
      win1 := 0.0;
      win2 := 0.0;
    }

    /** `add`: adds the counts of `res` (which may be this very object). */
    method Add(res: RolloutResults)
      modifies this
      ensures win1 == old(win1) + old(res.win1)
      ensures win2 == old(win2) + old(res.win2)
      ensures n == old(n) + old(res.n)
      ensures old(Balanced()) && old(res.Balanced()) ==> Balanced()
    {
      var w1, w2, k := res.win1, res.win2, res.n;
      win1 := win1 + w1;
      win2 := win2 + w2;
      n := n + k;
    }

    /** `update`: one more playout won by `winner`; `Nobody` is a draw. */
    method Update(winner: PlayerId)
      modifies this
      ensures win1 == old(win1) + Share(winner, One)
      ensures win2 == old(win2) + Share(winner, Two)
      ensures n == old(n) + 1
      ensures old(Balanced()) ==> Balanced()
    {
      if winner == One {
        win1 := win1 + 1.0;
      }
      if winner == Two {
        win2 := win2 + 1.0;
      }
      if winner == Nobody {
        win1 := win1 + 0.5;
        win2 := win2 + 0.5;
      }
      n := n + 1;
    }

    /** `nbWins`: the wins of a player; `Nobody` has none. */
    function NbWins(p: PlayerId): (r: real)
      reads this
      ensures p == One ==> r == win1
      ensures p == Two ==> r == win2
      ensures p == Nobody ==> r == 0.0
      ensures Balanced() ==> 0.0 <= r <= n as real
    {
      match p
      case One => win1
      case Two => win2
      case Nobody => 0.0
    }

    function NbSimulations(): int
      reads this
    {
      n
    }
  }

  /** What one playout won by `winner` adds to the wins of `p` (one of the two players). */
  function Share(winner: PlayerId, p: PlayerId): (r: real)
    ensures 0.0 <= r <= 1.0
    ensures r == 1.0 <==> winner == p && winner != Nobody
    ensures r == 0.5 <==> winner == Nobody
  {
    if winner == Nobody then 0.5 else if winner == p then 1.0 else 0.0
  }

  /** A playout hands out exactly one win between the two players. */
  lemma ShareSplit(winner: PlayerId)
    ensures Share(winner, One) + Share(winner, Two) == 1.0
  {
  }

  /**
   * `rollOut`.  The source plays every run on the same game object, so the
   * first playout leaves it finished and every later run reports that same
   * winner: `outcome`, the winner of the first playout, counts `nbRuns` times.
   */
  method RollOut(outcome: PlayerId, nbRuns: int) returns (roll: RolloutResults)
    ensures fresh(roll)
    ensures roll.n == if nbRuns > 0 then nbRuns else 0
    ensures roll.win1 == roll.n as real * Share(outcome, One)
    ensures roll.win2 == roll.n as real * Share(outcome, Two)
    ensures roll.Balanced()
  {
    roll := new RolloutResults();
    var i := 0;
    while i < nbRuns
      invariant 0 <= i <= (if nbRuns > 0 then nbRuns else 0)
      invariant roll.n == i
      invariant roll.win1 == i as real * Share(outcome, One)
      invariant roll.win2 == i as real * Share(outcome, Two)
      invariant roll.Balanced()
    {
      ShareSplit(outcome);
      roll.Update(outcome);
      i := i + 1;
    }
  }

  /**
   * The random playout as a function of the random draws: while the game has
   * no verdict, the random player plays the move at the drawn index.  `None`
   * when the draws run out first (the source would keep drawing).
   */
  function Playout<G, M>(rules: Rules<G, M>, game: G, draws: seq<nat>): (r: Option<PlayerId>)
    ensures r.Some? ==> exists k :: 0 <= k <= |draws| && FirstVerdictAt(rules, game, draws, k, r.value)
    decreases |draws|
  {
    if rules.winner(game).Over? then
      assert Replay(rules, game, draws[..0]) == game;
      assert FirstVerdictAt(rules, game, draws, 0, rules.winner(game).winner);
      Some(rules.winner(game).winner)
    else if draws == [] || rules.moves(game) == [] then None
    else
      var moves := rules.moves(game);
      var next := rules.play(game, moves[draws[0] % |moves|]);
      var r := Playout(rules, next, draws[1..]);
      if r.Some? then
        var k :| 0 <= k <= |draws[1..]| && FirstVerdictAt(rules, next, draws[1..], k, r.value);
        FirstVerdictStep(rules, game, draws, k, r.value);
        r
      else r
  }

  /**
   * After `k` of the draws the game has the verdict `winner`, and after every
   * shorter prefix it had none yet: the random player stops at the first verdict.
   */
  predicate FirstVerdictAt<G, M>(rules: Rules<G, M>, game: G, draws: seq<nat>, k: nat, winner: PlayerId)
    requires k <= |draws|
  {
    && rules.winner(Replay(rules, game, draws[..k])) == Over(winner)
    && forall j :: 0 <= j < k ==> rules.winner(Replay(rules, game, draws[..j])).Ongoing?
  }

  /** A first verdict after one undecided move is a first verdict one draw later. */
  lemma FirstVerdictStep<G, M>(rules: Rules<G, M>, game: G, draws: seq<nat>, k: nat, winner: PlayerId)
    requires rules.winner(game).Ongoing? && draws != [] && rules.moves(game) != []
    requires k < |draws|
    requires FirstVerdictAt(rules, rules.play(game, rules.moves(game)[draws[0] % |rules.moves(game)|]), draws[1..], k, winner)
    ensures FirstVerdictAt(rules, game, draws, k + 1, winner)
  {
    var next := rules.play(game, rules.moves(game)[draws[0] % |rules.moves(game)|]);
    assert draws[..k + 1][1..] == draws[1..][..k];
    forall j | 0 <= j < k + 1
      ensures rules.winner(Replay(rules, game, draws[..j])).Ongoing?
    {
      if j == 0 {
        assert draws[..j] == [];
      } else {
        assert draws[..j][1..] == draws[1..][..j - 1];
      }
    }
  }

  /** The state reached by the random player on the draws `draws`, ignoring verdicts. */
  function Replay<G, M>(rules: Rules<G, M>, game: G, draws: seq<nat>): G
    decreases |draws|
  {
    if draws == [] || rules.moves(game) == [] then game
    else
      var moves := rules.moves(game);
      Replay(rules, rules.play(game, moves[draws[0] % |moves|]), draws[1..])
  }

  datatype Option<T> = None | Some(value: T)

  /** `playRandomlyToEnd`, on a game value and the random player's draws. */
  method PlayRandomlyToEnd<G, M>(rules: Rules<G, M>, game: G, draws: seq<nat>) returns (r: Option<PlayerId>)
    ensures r == Playout(rules, game, draws)
  {
    var g, i := game, 0;
    while rules.winner(g).Ongoing? && i < |draws| && rules.moves(g) != []
      invariant 0 <= i <= |draws|
      invariant Playout(rules, g, draws[i..]) == Playout(rules, game, draws)
      decreases |draws| - i
    {
      var moves := rules.moves(g);
      assert draws[i..][1..] == draws[i + 1..];
      g := rules.play(g, moves[draws[i] % |moves|]);
      i := i + 1;
    }
    if rules.winner(g).Over? {
      r := Some(rules.winner(g).winner);
    } else {
      r := None;
    }
  }
}
