/**
 * The two-player game contract the search engines rely on: who is to move,
 * the ordered list of legal moves, applying a move to a copy of a state, and
 * the verdict.  Game states are values here: the Java engines always clone a
 * state before playing on it, so `play` returns the new state.
 */
module Game {

  /** A player; `Nobody` is the Java `PlayerId.NONE` (a draw when it wins). */
  datatype PlayerId = One | Two | Nobody

  /** What `winner()` answers: `Ongoing` stands for the Java `null`. */
  datatype Verdict = Ongoing | Over(winner: PlayerId)

  /**
   * The player who moves after `p`, as both the turn switch and the loser
   * rule compute it: `One` gives `Two`, anything else gives `One`.
   */
  function Opponent(p: PlayerId): (q: PlayerId)
    ensures q != Nobody
    ensures p != Nobody ==> q != p
  {
    if p == One then Two else One
  }

  /** The abstract game: legal moves in a fixed order, move application, player to move, verdict. */
  datatype Rules<!G, !M> = Rules(
    moves: G -> seq<M>,
    play: (G, M) -> G,
    player: G -> PlayerId,
    winner: G -> Verdict)

  /** Part of the contract: a state without a legal move has a decided verdict. */
  ghost predicate Decisive<G(!new), M>(rules: Rules<G, M>)
  {
    forall g: G {:trigger rules.moves(g)} :: rules.moves(g) == [] ==> rules.winner(g).Over?
  }
}
