/**
 * `MonteCarloTreeSearch2`: the second search engine.  Selection descends by
 * UCT only through nodes that have a child for every legal move; a node
 * with fewer children gets one more child on the way down, and a leaf gets
 * one child, simulated ten times, unless the game there is over.  Node `0`
 * of the arena is the root and is never credited.
 */
module Mcts2 {
  import opened Game
  import opened Rollout
  import opened SearchTree

  /** The number of playouts run from a new leaf child (`iterations`). */
  const Iterations: nat := 10

  // ---------------------------------------------------------------------------
  // Trees
  // ---------------------------------------------------------------------------

  /** Wins between 0 and the number of simulations. */
  ghost predicate Bounded<G>(node: EvalNode<G>)
  {
    0.0 <= node.w <= node.n as real
  }

  /**
   * Node `i` has at most one child per legal move, and every child holds the
   * game after move 0: the duplicate check before adding a child never
   * matches, so every child is built from the first move.
   */
  ghost predicate Partial<G, M>(rules: Rules<G, M>, nodes: seq<EvalNode<G>>, i: nat)
    requires i < |nodes|
  {
    var kids := nodes[i].children;
    var moves := rules.moves(nodes[i].game);
    && |kids| <= |moves|
    && forall k :: 0 <= k < |kids| ==>
         kids[k] < |nodes| && nodes[kids[k]].game == rules.play(nodes[i].game, moves[0])
  }

  /** The shape of the search tree between two steps; the root has never been credited. */
  ghost predicate Tree<G, M>(rules: Rules<G, M>, nodes: seq<EvalNode<G>>)
  {
    && Arena(nodes)
    && nodes[0].n == 0 && nodes[0].w == 0.0
    && (forall i :: 0 <= i < |nodes| ==> Bounded(nodes[i]))
    && (forall i :: 0 <= i < |nodes| ==> Partial(rules, nodes, i))
  }

  /** Node `i` gets a new last child holding `game`, appended to the arena. */
  function AddChild<G>(nodes: seq<EvalNode<G>>, i: nat, game: G): (r: seq<EvalNode<G>>)
    requires i < |nodes|
    ensures |r| == |nodes| + 1
  {
    nodes[i := nodes[i].(children := nodes[i].children + [|nodes|])] + [NewNode(game)]
  }

  /** `AddChild` changes only the children of node `i`, and the new node is unvisited. */
  lemma AddChildShape<G>(nodes: seq<EvalNode<G>>, i: nat, game: G)
    requires i < |nodes|
    ensures var r := AddChild(nodes, i, game);
            && r[i] == nodes[i].(children := nodes[i].children + [|nodes|])
            && r[|nodes|] == NewNode(game)
            && forall j :: 0 <= j < |nodes| && j != i ==> r[j] == nodes[j]
  {
  }

  // ---------------------------------------------------------------------------
  // Selection
  // ---------------------------------------------------------------------------

  /** Selection stops at a node without children or with fewer children than legal moves. */
  predicate Open<G, M>(rules: Rules<G, M>, node: EvalNode<G>)
  {
    node.children == [] || |node.children| < |rules.moves(node.game)|
  }

  /** The UCT scan at node `i`: starting from child 0, move to a child only when its UCT value is strictly larger. */
  function UctPick<G>(nodes: seq<EvalNode<G>>, i: nat, nTotal: int, explore: (int, int) -> real): (k: nat)
    requires Ordered(nodes) && i < |nodes| && nodes[i].children != []
    ensures k < |nodes[i].children|
  {
    var s := ChildUcts(nodes, i, nTotal, explore);
    ScanMax(s, |s|, 0, s[0]).0
  }

  /** The nodes selection visits from node `i`, down to a node where it stops. */
  function Walk<G, M>(rules: Rules<G, M>, nodes: seq<EvalNode<G>>, nTotal: int, explore: (int, int) -> real, i: nat): (path: seq<nat>)
    requires Ordered(nodes) && i < |nodes|
    ensures |path| >= 1 && path[0] == i
    ensures forall l :: 0 <= l < |path| ==> i <= path[l] < |nodes|
    ensures forall l, m :: 0 <= l < m < |path| ==> path[l] < path[m]
    ensures forall l :: 0 <= l < |path| - 1 ==> !Open(rules, nodes[path[l]])
    ensures Open(rules, nodes[path[|path| - 1]])
    decreases |nodes| - i
  {
    if Open(rules, nodes[i]) then [i]
    else [i] + Walk(rules, nodes, nTotal, explore, nodes[i].children[UctPick(nodes, i, nTotal, explore)])
  }

  /** A path selection can stop on: from the root, strictly forward, through full nodes to an open one. */
  ghost predicate WalkPath<G, M>(rules: Rules<G, M>, nodes: seq<EvalNode<G>>, path: seq<nat>)
  {
    && |path| >= 1 && path[0] == 0
    && (forall l :: 0 <= l < |path| ==> path[l] < |nodes|)
    && (forall l, m :: 0 <= l < m < |path| ==> path[l] < path[m])
    && (forall l :: 0 <= l < |path| - 1 ==> !Open(rules, nodes[path[l]]))
    && Open(rules, nodes[path[|path| - 1]])
  }

  /** Every node of `path` after the first is the child the UCT scan picks below the full node before it. */
  ghost predicate Chain<G, M>(rules: Rules<G, M>, nodes: seq<EvalNode<G>>, nTotal: int, explore: (int, int) -> real, path: seq<nat>)
    requires Ordered(nodes)
  {
    && (forall l :: 0 <= l < |path| ==> path[l] < |nodes|)
    && (forall l :: 0 <= l < |path| - 1 ==>
          !Open(rules, nodes[path[l]])
          && path[l + 1] == nodes[path[l]].children[UctPick(nodes, path[l], nTotal, explore)])
  }

  /** A chain of selection steps that ends at an open node is the walk from its first node. */
  lemma {:induction false} ChainWalk<G, M>(rules: Rules<G, M>, nodes: seq<EvalNode<G>>, nTotal: int, explore: (int, int) -> real, path: seq<nat>)
    requires Ordered(nodes) && |path| >= 1 && Chain(rules, nodes, nTotal, explore, path)
    requires Open(rules, nodes[path[|path| - 1]])
    ensures path == Walk(rules, nodes, nTotal, explore, path[0])
    decreases |path|
  {
    if |path| > 1 {
      ChainTail(rules, nodes, nTotal, explore, path);
      ChainWalk(rules, nodes, nTotal, explore, path[1..]);
      assert path == [path[0]] + path[1..];
    }
  }

  /** The rest of a chain is a chain, and it starts at the child picked below the chain's first node. */
  lemma ChainTail<G, M>(rules: Rules<G, M>, nodes: seq<EvalNode<G>>, nTotal: int, explore: (int, int) -> real, path: seq<nat>)
    requires Ordered(nodes) && |path| > 1 && Chain(rules, nodes, nTotal, explore, path)
    ensures Chain(rules, nodes, nTotal, explore, path[1..])
    ensures !Open(rules, nodes[path[0]]) && path[1] == nodes[path[0]].children[UctPick(nodes, path[0], nTotal, explore)]
  {
  }

  /**
   * The end of the descent: at an open node that already has children, one
   * more child, the game after move 0, is added and visited.  The returned
   * pair is the arena and the visited nodes.
   */
  ghost function Visit<G, M>(rules: Rules<G, M>, nodes: seq<EvalNode<G>>, path: seq<nat>): (v: (seq<EvalNode<G>>, seq<nat>))
    requires WalkPath(rules, nodes, path)
    ensures |v.1| >= 1 && forall l :: 0 <= l < |v.1| ==> v.1[l] < |v.0|
  {
    var leaf := path[|path| - 1];
    if nodes[leaf].children == [] then (nodes, path)
    else (AddChild(nodes, leaf, rules.play(nodes[leaf].game, rules.moves(nodes[leaf].game)[0])), path + [|nodes|])
  }

  // ---------------------------------------------------------------------------
  // Simulation and backpropagation
  // ---------------------------------------------------------------------------

  /** What a visited node gains: a finished game's winner, or the tally of the playouts from the new child. */
  datatype Gain = Terminal(winner: PlayerId) | Simulated(player: PlayerId, wins: real, losses: real)

  /** A tally hands out exactly one result per playout. */
  ghost predicate Fair(gain: Gain)
  {
    gain.Simulated? ==> 0.0 <= gain.wins && 0.0 <= gain.losses && gain.wins + gain.losses == Iterations as real
  }

  /** What a finished game won by `winner` adds to the wins of a node whose player is `p`. */
  function Reward(winner: PlayerId, p: PlayerId): (r: real)
    ensures r == 1.0 <==> winner == p
    ensures r == 0.5 <==> winner != p && winner == Nobody
    ensures r == 0.0 <==> winner != p && winner != Nobody
  {
    if winner == p then 1.0 else if winner == Nobody then 0.5 else 0.0
  }

  /**
   * A visited node after backpropagation: one more simulation and the
   * reward of the finished game, or ten more simulations and the wins of
   * the new child's player when it is the node's player, its losses
   * otherwise.
   */
  function Gained<G, M>(rules: Rules<G, M>, node: EvalNode<G>, gain: Gain): (r: EvalNode<G>)
    ensures r.game == node.game && r.children == node.children
  {
    match gain
    case Terminal(winner) => node.(n := node.n + 1, w := node.w + Reward(winner, rules.player(node.game)))
    case Simulated(p, wins, losses) =>
      node.(n := node.n + Iterations, w := node.w + if p == rules.player(node.game) then wins else losses)
  }

  /** A fair gain keeps a node's wins between 0 and its simulations. */
  lemma GainedBounded<G, M>(rules: Rules<G, M>, node: EvalNode<G>, gain: Gain)
    requires Bounded(node) && Fair(gain)
    ensures Bounded(Gained(rules, node, gain))
    ensures Gained(rules, node, gain).n > node.n
  {
  }

  /**
   * The playouts from the new child, counted for the child's player `p`:
   * `(wins, losses)`, a win of `p` adding to the first, a draw half to each,
   * any other result to the second.
   */
  function Tally(outcomes: seq<PlayerId>, p: PlayerId): (r: (real, real))
    decreases |outcomes|
  {
    if outcomes == [] then (0.0, 0.0)
    else
      var prev := Tally(outcomes[..|outcomes| - 1], p);
      var winner := outcomes[|outcomes| - 1];
      if winner == p then (prev.0 + 1.0, prev.1)
      else if winner == Nobody then (prev.0 + 0.5, prev.1 + 0.5)
      else (prev.0, prev.1 + 1.0)
  }

  /** Every playout adds exactly 1 between wins and losses. */
  lemma {:induction false} TallySplit(outcomes: seq<PlayerId>, p: PlayerId)
    ensures var r := Tally(outcomes, p);
            0.0 <= r.0 && 0.0 <= r.1 && r.0 + r.1 == |outcomes| as real
    decreases |outcomes|
  {
    if outcomes != [] {
      TallySplit(outcomes[..|outcomes| - 1], p);
    }
  }

  /** The visited nodes at positions `i` and beyond each gain `gain`. */
  function Credited<G, M>(rules: Rules<G, M>, nodes: seq<EvalNode<G>>, visited: seq<nat>, gain: Gain, i: nat): (r: seq<EvalNode<G>>)
    requires i <= |visited| && forall l :: 0 <= l < |visited| ==> visited[l] < |nodes|
    ensures |r| == |nodes|
    decreases |visited| - i
  {
    if i == |visited| then nodes
    else
      var prev := Credited(rules, nodes, visited, gain, i + 1);
      prev[visited[i] := Gained(rules, prev[visited[i]], gain)]
  }

  /** Along a path without repetition, `Credited` updates each visited node from position `i` once and nothing else. */
  lemma {:induction false} CreditedShape<G, M>(rules: Rules<G, M>, nodes: seq<EvalNode<G>>, visited: seq<nat>, gain: Gain, i: nat)
    requires i <= |visited| && forall l :: 0 <= l < |visited| ==> visited[l] < |nodes|
    requires forall l, m :: 0 <= l < m < |visited| ==> visited[l] < visited[m]
    ensures var r := Credited(rules, nodes, visited, gain, i);
            && (forall l :: i <= l < |visited| ==> r[visited[l]] == Gained(rules, nodes[visited[l]], gain))
            && (forall j :: 0 <= j < |nodes| && (forall l :: i <= l < |visited| ==> visited[l] != j) ==> r[j] == nodes[j])
    decreases |visited| - i
  {
    if i < |visited| {
      CreditedShape(rules, nodes, visited, gain, i + 1);
    }
  }

  /** A visited node past the root gains `gain`. */
  lemma CreditedOn<G, M>(rules: Rules<G, M>, nodes: seq<EvalNode<G>>, visited: seq<nat>, gain: Gain, l: nat)
    requires forall m :: 0 <= m < |visited| ==> visited[m] < |nodes|
    requires forall m, o :: 0 <= m < o < |visited| ==> visited[m] < visited[o]
    requires 1 <= l < |visited|
    ensures Credited(rules, nodes, visited, gain, 1)[visited[l]] == Gained(rules, nodes[visited[l]], gain)
  {
    CreditedShape(rules, nodes, visited, gain, 1);
  }

  /** A node visited at most as the root is left as it was. */
  lemma CreditedOff<G, M>(rules: Rules<G, M>, nodes: seq<EvalNode<G>>, visited: seq<nat>, gain: Gain, j: nat)
    requires |visited| >= 1 && forall m :: 0 <= m < |visited| ==> visited[m] < |nodes|
    requires forall m, o :: 0 <= m < o < |visited| ==> visited[m] < visited[o]
    requires j < |nodes| && forall m :: 1 <= m < |visited| ==> visited[m] != j
    ensures Credited(rules, nodes, visited, gain, 1)[j] == nodes[j]
  {
    CreditedShape(rules, nodes, visited, gain, 1);
  }

  /**
   * After the descent: the last visited node, if its game is over, credits
   * the winner to the visited nodes; otherwise it gets a child for move 0,
   * and the tally of `outcomes` from that child is credited.
   */
  ghost function Finished<G(!new), M>(rules: Rules<G, M>, tree: seq<EvalNode<G>>, visited: seq<nat>, outcomes: seq<PlayerId>): seq<EvalNode<G>>
    requires Decisive(rules)
    requires |visited| >= 1 && forall l :: 0 <= l < |visited| ==> visited[l] < |tree|
  {
    var current := visited[|visited| - 1];
    var game := tree[current].game;
    var moves := rules.moves(game);
    if moves == [] then Credited(rules, tree, visited, Terminal(rules.winner(game).winner), 1)
    else
      var child := rules.play(game, moves[0]);
      var p := rules.player(child);
      var t := Tally(outcomes, p);
      Credited(rules, AddChild(tree, current, child), visited, Simulated(p, t.0, t.1), 1)
  }

  /** No visited node has a legal move. */
  ghost predicate NoMoreMoves<G, M>(rules: Rules<G, M>, tree: seq<EvalNode<G>>, visited: seq<nat>)
    requires forall l :: 0 <= l < |visited| ==> visited[l] < |tree|
  {
    forall l :: 0 <= l < |visited| ==> rules.moves(tree[visited[l]].game) == []
  }

  /** The arena after a step whose selection walked `path`. */
  ghost function Stepped<G(!new), M>(rules: Rules<G, M>, nodes: seq<EvalNode<G>>, path: seq<nat>, outcomes: seq<PlayerId>): seq<EvalNode<G>>
    requires Decisive(rules) && WalkPath(rules, nodes, path)
  {
    var v := Visit(rules, nodes, path);
    Finished(rules, v.0, v.1, outcomes)
  }

  /** `evaluateTreeOnce` on the arena `nodes`, with `outcomes` the winners of the playouts. */
  ghost function EvaluatedOnce<G(!new), M>(rules: Rules<G, M>, explore: (int, int) -> real, nodes: seq<EvalNode<G>>,
                                           nTotal: int, outcomes: seq<PlayerId>): Evaluation<G>
    requires Decisive(rules) && Arena(nodes)
  {
    var path := Walk(rules, nodes, nTotal, explore, 0);
    var v := Visit(rules, nodes, path);
    Evaluation(NoMoreMoves(rules, v.0, v.1), Stepped(rules, nodes, path, outcomes), nTotal + 1)
  }

  // ---------------------------------------------------------------------------
  // The step, imperatively
  // ---------------------------------------------------------------------------

  /** The UCT scan over the children of node `i`, from child 0 with strict improvement. */
  method UctChild<G>(nodes: seq<EvalNode<G>>, i: nat, nTotal: int, explore: (int, int) -> real) returns (k: nat)
    requires Ordered(nodes) && i < |nodes| && nodes[i].children != []
    ensures k == UctPick(nodes, i, nTotal, explore)
  {
    var kids := nodes[i].children;
    ghost var s := ChildUcts(nodes, i, nTotal, explore);
    k := 0;
    var best := Uct(nodes[kids[0]], nTotal, explore);
    var j := 1;
    while j < |kids|
      invariant 1 <= j <= |kids|
      invariant (k as int, best) == ScanMax(s, j, 0, s[0])
    {
      var u := Uct(nodes[kids[j]], nTotal, explore);
      if u > best {
        best := u;
        k := j;
      }
      j := j + 1;
    }
  }

  /**
   * The descent loop: from the root, select by UCT while the node is full.
   * The source's loop also performs the partial expansion of an open node
   * with children; that iteration always ends the loop (the new child has
   * no child), so it is done after the loop, in `Descend`.
   */
  method WalkDown<G, M>(rules: Rules<G, M>, nodes: seq<EvalNode<G>>, nTotal: int, explore: (int, int) -> real)
    returns (path: seq<nat>)
    requires Arena(nodes)
    ensures path == Walk(rules, nodes, nTotal, explore, 0)
  {
    path := [0];
    var node: nat := 0;
    while !Open(rules, nodes[node])
      invariant node < |nodes| && |path| >= 1 && path[0] == 0 && path[|path| - 1] == node
      invariant Chain(rules, nodes, nTotal, explore, path)
      decreases |nodes| - node
    {
      var k := UctChild(nodes, node, nTotal, explore);
      var next := nodes[node].children[k];
      path := path + [next];
      node := next;
    }
    ChainWalk(rules, nodes, nTotal, explore, path);
  }

  /** The descent: the walk, then at an open node with children one more child, for move 0, added and visited. */
  method Descend<G, M>(rules: Rules<G, M>, nodes: seq<EvalNode<G>>, nTotal: int, explore: (int, int) -> real)
    returns (tree: seq<EvalNode<G>>, visited: seq<nat>)
    requires Arena(nodes)
    ensures (tree, visited) == Visit(rules, nodes, Walk(rules, nodes, nTotal, explore, 0))
  {
    var path := WalkDown(rules, nodes, nTotal, explore);
    var node := path[|path| - 1];
    if nodes[node].children != [] {
      var moves := rules.moves(nodes[node].game);
      tree := AddChild(nodes, node, rules.play(nodes[node].game, moves[0]));
      visited := path + [|nodes|];
    } else {
      tree, visited := nodes, path;
    }
  }

  /** The ten playouts from the new child, counted for its player `p`. */
  method Simulate(outcomes: seq<PlayerId>, p: PlayerId) returns (wins: real, losses: real)
    ensures (wins, losses) == Tally(outcomes, p)
  {
    wins, losses := 0.0, 0.0;
    var i := 0;
    while i < |outcomes|
      invariant 0 <= i <= |outcomes|
      invariant (wins, losses) == Tally(outcomes[..i], p)
    {
      var winner := outcomes[i];
      assert outcomes[..i + 1][..i] == outcomes[..i];
      if winner == p {
        wins := wins + 1.0;
      } else if winner == Nobody {
        wins := wins + 0.5;
        losses := losses + 0.5;
      } else {
        losses := losses + 1.0;
      }
      i := i + 1;
    }
    assert outcomes[..|outcomes|] == outcomes;
  }

  /** A backpropagation loop: from the last visited node up to, not including, the root. */
  method CreditVisited<G, M>(rules: Rules<G, M>, tree: seq<EvalNode<G>>, visited: seq<nat>, gain: Gain)
    returns (r: seq<EvalNode<G>>)
    requires |visited| >= 1 && forall l :: 0 <= l < |visited| ==> visited[l] < |tree|
    ensures r == Credited(rules, tree, visited, gain, 1)
  {
    r := tree;
    var i := |visited| - 1;
    while i > 0
      invariant 0 <= i < |visited|
      invariant r == Credited(rules, tree, visited, gain, i + 1)
    {
      var node := r[visited[i]];
      match gain {
        case Terminal(winner) =>
          node := node.(n := node.n + 1);
          if winner == rules.player(node.game) {
            node := node.(w := node.w + 1.0);
          } else if winner == Nobody {
            node := node.(w := node.w + 0.5);
          }
        case Simulated(p, wins, losses) =>
          node := node.(n := node.n + Iterations);
          if p == rules.player(node.game) {
            node := node.(w := node.w + wins);
          } else {
            node := node.(w := node.w + losses);
          }
      }
      r := r[visited[i] := node];
      i := i - 1;
    }
  }

  /** Expansion, simulation and backpropagation after the descent. */
  method Finish<G(!new), M>(rules: Rules<G, M>, tree: seq<EvalNode<G>>, visited: seq<nat>, outcomes: seq<PlayerId>)
    returns (r: seq<EvalNode<G>>)
    requires Decisive(rules)
    requires |visited| >= 1 && forall l :: 0 <= l < |visited| ==> visited[l] < |tree|
    ensures r == Finished(rules, tree, visited, outcomes)
  {
    var current := visited[|visited| - 1];
    var game := tree[current].game;
    var moves := rules.moves(game);
    if |moves| == 0 {
      var winner := rules.winner(game).winner;
      r := CreditVisited(rules, tree, visited, Terminal(winner));
    } else {
      var child := rules.play(game, moves[0]);
      var p := rules.player(child);
      var wins, losses := Simulate(outcomes, p);
      r := CreditVisited(rules, AddChild(tree, current, child), visited, Simulated(p, wins, losses));
    }
  }

  /** The stop flag: scanning the visited nodes from the last, it is false as soon as one has a legal move. */
  method NoMoreMovesScan<G, M>(rules: Rules<G, M>, tree: seq<EvalNode<G>>, visited: seq<nat>) returns (stop: bool)
    requires forall l :: 0 <= l < |visited| ==> visited[l] < |tree|
    ensures stop == NoMoreMoves(rules, tree, visited)
  {
    stop := true;
    var i := |visited| - 1;
    while i >= 0
      invariant -1 <= i < |visited|
      invariant forall l :: i < l < |visited| ==> rules.moves(tree[visited[l]].game) == []
    {
      if |rules.moves(tree[visited[i]].game)| > 0 {
        stop := false;
        break;
      }
      i := i - 1;
    }
  }

  /** The body of `evaluateTreeOnce` on the arena `nodes` with `nTotal` simulations. */
  method Step<G(!new), M>(rules: Rules<G, M>, explore: (int, int) -> real, nodes: seq<EvalNode<G>>, nTotal: int,
                          outcomes: seq<PlayerId>) returns (stop: bool, arena: seq<EvalNode<G>>, count: int)
    requires Decisive(rules) && Arena(nodes)
    ensures Evaluation(stop, arena, count) == EvaluatedOnce(rules, explore, nodes, nTotal, outcomes)
  {
    var tree, visited := Descend(rules, nodes, nTotal, explore);
    arena := Finish(rules, tree, visited, outcomes);
    stop := NoMoreMovesScan(rules, tree, visited);
    count := nTotal + 1;
  }

  // ---------------------------------------------------------------------------
  // The engine
  // ---------------------------------------------------------------------------

  class MonteCarloTreeSearch2<G(!new), M> {
    const rules: Rules<G, M>
    /** The exploration term of UCT as a function of `n` and `nTotal`. */
    const explore: (int, int) -> real
    /** The arena; `nodes[0]` is `root`. */
    var nodes: seq<EvalNode<G>>
    var nTotal: int

    ghost predicate Valid()
      reads this
    {
      Decisive(rules) && Tree(rules, nodes)
    }

    constructor (rules: Rules<G, M>, explore: (int, int) -> real, game: G)
      requires Decisive(rules)
      ensures this.rules == rules && this.explore == explore
      ensures nodes == [NewNode(game)] && nTotal == 0
      ensures Valid()
    {
      this.rules := rules;
      this.explore := explore;
      nodes := [NewNode(game)];
      nTotal := 0;
    }

    /** `evaluateTreeOnce`, the winners of its ten playouts given as `outcomes`: see `Step`. */
    method EvaluateTreeOnce(outcomes: seq<PlayerId>) returns (stop: bool)
      requires Valid() && |outcomes| == Iterations
      modifies this
      ensures Valid()
      ensures Evaluation(stop, nodes, nTotal) == EvaluatedOnce(rules, explore, old(nodes), old(nTotal), outcomes)
    {
      StepKeepsValid(rules, explore, nodes, nTotal, outcomes);
      stop, nodes, nTotal := Step(rules, explore, nodes, nTotal, outcomes);
    }

    /** `getBestMove`: see `PickMove`. */
    method GetBestMove() returns (move: Option<M>)
      requires Valid()
      ensures move == BestMove(rules, nodes)
    {
      move := PickMove(rules, nodes);
    }
  }

  // ---------------------------------------------------------------------------
  // The best move
  // ---------------------------------------------------------------------------

  /** The wins of the nodes `kids`, in order. */
  function Wins<G>(nodes: seq<EvalNode<G>>, kids: seq<nat>): (r: seq<real>)
    requires forall k :: 0 <= k < |kids| ==> kids[k] < |nodes|
    ensures |r| == |kids|
    ensures forall k :: 0 <= k < |kids| ==> r[k] == nodes[kids[k]].w
  {
    seq(|kids|, k requires 0 <= k < |kids| => nodes[kids[k]].w)
  }

  /**
   * The move `getBestMove` returns: the move at the position of the last root
   * child of least wins (at most `IntMax`); `None` where the source indexes
   * the move list out of range.
   */
  ghost function BestMove<G, M>(rules: Rules<G, M>, nodes: seq<EvalNode<G>>): Option<M>
    requires Arena(nodes)
  {
    var kids := nodes[0].children;
    var moves := rules.moves(nodes[0].game);
    var idx := ScanMinLast(Wins(nodes, kids), |kids|, -1, IntMax).0;
    if 0 <= idx < |moves| then Some(moves[idx]) else None
  }

  /** The body of `getBestMove`. */
  method PickMove<G, M>(rules: Rules<G, M>, nodes: seq<EvalNode<G>>) returns (move: Option<M>)
    requires Arena(nodes)
    ensures move == BestMove(rules, nodes)
  {
    var kids := nodes[0].children;
    var moves := rules.moves(nodes[0].game);
    ghost var s := Wins(nodes, kids);
    var idx := -1;
    var best := IntMax;
    var i := 0;
    while i < |kids|
      invariant 0 <= i <= |kids|
      invariant (idx, best) == ScanMinLast(s, i, -1, IntMax)
    {
      if nodes[kids[i]].w <= best {
        best := nodes[kids[i]].w;
        idx := i;
      }
      i := i + 1;
    }
    if 0 <= idx < |moves| {
      move := Some(moves[idx]);
    } else {
      move := None;
    }
  }

  // ---------------------------------------------------------------------------
  // Properties
  // ---------------------------------------------------------------------------

  /** A step keeps the shape of the tree: children for move 0 only, bounded wins, an uncredited root. */
  lemma StepKeepsValid<G(!new), M>(rules: Rules<G, M>, explore: (int, int) -> real, nodes: seq<EvalNode<G>>,
                                   nTotal: int, outcomes: seq<PlayerId>)
    requires Decisive(rules) && Tree(rules, nodes) && |outcomes| == Iterations
    ensures Tree(rules, EvaluatedOnce(rules, explore, nodes, nTotal, outcomes).nodes)
  {
    StepKeepsTree(rules, nodes, Walk(rules, nodes, nTotal, explore, 0), outcomes);
  }

  /** A step that selected `path` keeps the shape of the tree. */
  lemma StepKeepsTree<G(!new), M>(rules: Rules<G, M>, nodes: seq<EvalNode<G>>, path: seq<nat>, outcomes: seq<PlayerId>)
    requires Decisive(rules) && Tree(rules, nodes) && WalkPath(rules, nodes, path) && |outcomes| == Iterations
    ensures Tree(rules, Stepped(rules, nodes, path, outcomes))
  {
    var v := Visit(rules, nodes, path);
    VisitShape(rules, nodes, path);
    VisitKeepsTree(rules, nodes, path);
    var tree, visited := v.0, v.1;
    var current := visited[|visited| - 1];
    var game := tree[current].game;
    var moves := rules.moves(game);
    if moves == [] {
      CreditKeepsTree(rules, tree, visited, Terminal(rules.winner(game).winner));
    } else {
      var child := rules.play(game, moves[0]);
      var p := rules.player(child);
      var t := Tally(outcomes, p);
      TallySplit(outcomes, p);
      AddChildKeepsTree(rules, tree, current);
      CreditKeepsTree(rules, AddChild(tree, current, child), visited, Simulated(p, t.0, t.1));
    }
  }

  /**
   * The end of the descent visits, from the root, strictly forward, nodes of
   * which the last has no child; it changes no game and no count.
   */
  lemma VisitShape<G, M>(rules: Rules<G, M>, nodes: seq<EvalNode<G>>, path: seq<nat>)
    requires WalkPath(rules, nodes, path)
    ensures var v := Visit(rules, nodes, path);
            && |v.0| >= |nodes|
            && v.1[0] == 0
            && (forall l, m :: 0 <= l < m < |v.1| ==> v.1[l] < v.1[m])
            && v.0[v.1[|v.1| - 1]].children == []
            && (forall j :: 0 <= j < |nodes| ==> v.0[j].game == nodes[j].game && v.0[j].n == nodes[j].n && v.0[j].w == nodes[j].w)
  {
    var leaf := path[|path| - 1];
    if nodes[leaf].children != [] {
      AddChildShape(nodes, leaf, rules.play(nodes[leaf].game, rules.moves(nodes[leaf].game)[0]));
    }
  }

  /** The end of the descent keeps the shape of the tree. */
  lemma VisitKeepsTree<G, M>(rules: Rules<G, M>, nodes: seq<EvalNode<G>>, path: seq<nat>)
    requires Tree(rules, nodes) && WalkPath(rules, nodes, path)
    ensures Tree(rules, Visit(rules, nodes, path).0)
  {
    var leaf := path[|path| - 1];
    if nodes[leaf].children != [] {
      AddChildKeepsTree(rules, nodes, leaf);
    }
  }

  /** Adding to a node with fewer children than moves a child for move 0 keeps the shape of the tree. */
  lemma AddChildKeepsTree<G, M>(rules: Rules<G, M>, nodes: seq<EvalNode<G>>, i: nat)
    requires Tree(rules, nodes) && i < |nodes|
    requires |nodes[i].children| < |rules.moves(nodes[i].game)|
    ensures Tree(rules, AddChild(nodes, i, rules.play(nodes[i].game, rules.moves(nodes[i].game)[0])))
  {
    var game := rules.play(nodes[i].game, rules.moves(nodes[i].game)[0]);
    var r := AddChild(nodes, i, game);
    AddChildShape(nodes, i, game);
    forall j | 0 <= j < |r|
      ensures Bounded(r[j]) && Partial(rules, r, j)
      ensures forall k :: 0 <= k < |r[j].children| ==> j < r[j].children[k] < |r|
    {
      if j == |nodes| {
        assert r[j] == NewNode(game);
      } else if j == i {
        assert Partial(rules, nodes, i);
      } else {
        assert r[j] == nodes[j];
        assert Partial(rules, nodes, j);
        forall k | 0 <= k < |r[j].children|
          ensures r[r[j].children[k]].game == nodes[nodes[j].children[k]].game
        {
        }
      }
    }
  }

  /** Crediting a fair gain past the root keeps the shape of the tree. */
  lemma CreditKeepsTree<G, M>(rules: Rules<G, M>, nodes: seq<EvalNode<G>>, visited: seq<nat>, gain: Gain)
    requires Tree(rules, nodes) && Fair(gain)
    requires |visited| >= 1 && visited[0] == 0 && forall l :: 0 <= l < |visited| ==> visited[l] < |nodes|
    requires forall l, m :: 0 <= l < m < |visited| ==> visited[l] < visited[m]
    ensures Tree(rules, Credited(rules, nodes, visited, gain, 1))
  {
    var r := Credited(rules, nodes, visited, gain, 1);
    CreditedShape(rules, nodes, visited, gain, 1);
    forall j | 0 <= j < |r|
      ensures Bounded(r[j]) && r[j].game == nodes[j].game && r[j].children == nodes[j].children
    {
      if l :| 1 <= l < |visited| && visited[l] == j {
        GainedBounded(rules, nodes[j], gain);
      }
    }
    forall j | 0 <= j < |r|
      ensures Partial(rules, r, j)
    {
      assert Partial(rules, nodes, j);
    }
  }

  /**
   * The stop flag is raised exactly when the root's game has no legal move:
   * the root is always visited, and every node with a child has a legal move.
   */
  lemma StopsAtRoot<G, M>(rules: Rules<G, M>, nodes: seq<EvalNode<G>>, path: seq<nat>)
    requires Tree(rules, nodes) && WalkPath(rules, nodes, path)
    ensures var v := Visit(rules, nodes, path);
            NoMoreMoves(rules, v.0, v.1) <==> rules.moves(nodes[0].game) == []
  {
    var v := Visit(rules, nodes, path);
    VisitShape(rules, nodes, path);
    assert Partial(rules, nodes, 0);
    if rules.moves(nodes[0].game) == [] {
      assert Open(rules, nodes[0]);
      assert |path| == 1;
    } else {
      assert v.1[0] == 0 && rules.moves(v.0[v.1[0]].game) != [];
    }
  }

  /** A step stops exactly when the root's game has no legal move, and it always counts one more evaluation. */
  lemma StepStops<G(!new), M>(rules: Rules<G, M>, explore: (int, int) -> real, nodes: seq<EvalNode<G>>,
                              nTotal: int, outcomes: seq<PlayerId>)
    requires Decisive(rules) && Tree(rules, nodes)
    ensures var e := EvaluatedOnce(rules, explore, nodes, nTotal, outcomes);
            (e.stop <==> rules.moves(nodes[0].game) == []) && e.nTotal == nTotal + 1
  {
    StopsAtRoot(rules, nodes, Walk(rules, nodes, nTotal, explore, 0));
  }

  /** The root is never credited: a step leaves its counts as they were. */
  lemma StepRoot<G(!new), M>(rules: Rules<G, M>, nodes: seq<EvalNode<G>>, path: seq<nat>, outcomes: seq<PlayerId>)
    requires Decisive(rules) && WalkPath(rules, nodes, path)
    ensures Stepped(rules, nodes, path, outcomes)[0].n == nodes[0].n
    ensures Stepped(rules, nodes, path, outcomes)[0].w == nodes[0].w
  {
    var v := Visit(rules, nodes, path);
    VisitShape(rules, nodes, path);
    var tree, visited := v.0, v.1;
    var current := visited[|visited| - 1];
    var game := tree[current].game;
    var moves := rules.moves(game);
    if moves == [] {
      CreditedOff(rules, tree, visited, Terminal(rules.winner(game).winner), 0);
    } else {
      var child := rules.play(game, moves[0]);
      var p := rules.player(child);
      var t := Tally(outcomes, p);
      var grown := AddChild(tree, current, child);
      AddChildShape(tree, current, child);
      CreditedOff(rules, grown, visited, Simulated(p, t.0, t.1), 0);
    }
  }

  /**
   * When the last visited node's game is over, every visited node but the
   * root gains one simulation and 1 win if the winner is its player, 0.5 on
   * a draw; no node is added and every other node keeps its state.
   */
  lemma StepTerminal<G(!new), M>(rules: Rules<G, M>, nodes: seq<EvalNode<G>>, path: seq<nat>, outcomes: seq<PlayerId>)
    requires Decisive(rules) && WalkPath(rules, nodes, path)
    requires var v := Visit(rules, nodes, path);
             rules.moves(v.0[v.1[|v.1| - 1]].game) == []
    ensures var v := Visit(rules, nodes, path);
            var tree, visited := v.0, v.1;
            var winner := rules.winner(tree[visited[|visited| - 1]].game).winner;
            var r := Stepped(rules, nodes, path, outcomes);
            && |r| == |tree|
            && (forall l :: 1 <= l < |visited| ==>
                  r[visited[l]].n == tree[visited[l]].n + 1
                  && r[visited[l]].w == tree[visited[l]].w + Reward(winner, rules.player(tree[visited[l]].game)))
            && (forall j :: 0 <= j < |tree| && (forall l :: 1 <= l < |visited| ==> visited[l] != j) ==> r[j] == tree[j])
  {
    var v := Visit(rules, nodes, path);
    VisitShape(rules, nodes, path);
    var tree, visited := v.0, v.1;
    var winner := rules.winner(tree[visited[|visited| - 1]].game).winner;
    CreditedShape(rules, tree, visited, Terminal(winner), 1);
  }

  /**
   * When the last visited node's game goes on, it gets one new, unvisited
   * child, the game after move 0, and every node neither visited past the
   * root nor that one keeps its state.
   */
  lemma StepGrows<G(!new), M>(rules: Rules<G, M>, nodes: seq<EvalNode<G>>, path: seq<nat>, outcomes: seq<PlayerId>)
    requires Decisive(rules) && WalkPath(rules, nodes, path)
    requires var v := Visit(rules, nodes, path);
             rules.moves(v.0[v.1[|v.1| - 1]].game) != []
    ensures var v := Visit(rules, nodes, path);
            var tree, visited := v.0, v.1;
            var current := visited[|visited| - 1];
            var r := Stepped(rules, nodes, path, outcomes);
            && |r| == |tree| + 1
            && r[|tree|] == NewNode(rules.play(tree[current].game, rules.moves(tree[current].game)[0]))
            && r[current].children == tree[current].children + [|tree|]
            && (forall j :: 0 <= j < |tree| && j != current && (forall l :: 1 <= l < |visited| ==> visited[l] != j) ==>
                  r[j] == tree[j])
  {
    var v := Visit(rules, nodes, path);
    VisitShape(rules, nodes, path);
    var tree, visited := v.0, v.1;
    var current := visited[|visited| - 1];
    var child := rules.play(tree[current].game, rules.moves(tree[current].game)[0]);
    var p := rules.player(child);
    var t := Tally(outcomes, p);
    var grown := AddChild(tree, current, child);
    AddChildShape(tree, current, child);
    CreditedShape(rules, grown, visited, Simulated(p, t.0, t.1), 1);
    assert forall l :: 1 <= l < |visited| ==> visited[l] != |tree|;
  }

  /**
   * When the last visited node's game goes on, the ten playouts from its new
   * child split into wins and losses of the child's player that add up to
   * 10, and every visited node but the root gains ten simulations and the
   * wins when its player is the child's player, the losses otherwise.
   */
  lemma StepSimulates<G(!new), M>(rules: Rules<G, M>, nodes: seq<EvalNode<G>>, path: seq<nat>, outcomes: seq<PlayerId>)
    requires Decisive(rules) && WalkPath(rules, nodes, path) && |outcomes| == Iterations
    requires var v := Visit(rules, nodes, path);
             rules.moves(v.0[v.1[|v.1| - 1]].game) != []
    ensures var v := Visit(rules, nodes, path);
            var tree, visited := v.0, v.1;
            var current := visited[|visited| - 1];
            var p := rules.player(rules.play(tree[current].game, rules.moves(tree[current].game)[0]));
            var t := Tally(outcomes, p);
            var r := Stepped(rules, nodes, path, outcomes);
            && 0.0 <= t.0 && 0.0 <= t.1 && t.0 + t.1 == Iterations as real
            && |r| == |tree| + 1
            && (forall l :: 1 <= l < |visited| ==>
                  r[visited[l]].n == tree[visited[l]].n + Iterations
                  && r[visited[l]].w == tree[visited[l]].w + (if p == rules.player(tree[visited[l]].game) then t.0 else t.1))
  {
    var v := Visit(rules, nodes, path);
    VisitShape(rules, nodes, path);
    var tree, visited := v.0, v.1;
    var current := visited[|visited| - 1];
    var child := rules.play(tree[current].game, rules.moves(tree[current].game)[0]);
    var p := rules.player(child);
    var t := Tally(outcomes, p);
    TallySplit(outcomes, p);
    var grown := AddChild(tree, current, child);
    AddChildShape(tree, current, child);
    var r := Credited(rules, grown, visited, Simulated(p, t.0, t.1), 1);
    forall l | 1 <= l < |visited|
      ensures r[visited[l]].n == tree[visited[l]].n + Iterations
      ensures r[visited[l]].w == tree[visited[l]].w + (if p == rules.player(tree[visited[l]].game) then t.0 else t.1)
    {
      CreditedOn(rules, grown, visited, Simulated(p, t.0, t.1), l);
    }
  }

  /**
   * `getBestMove` finds a move exactly when some root child has at most
   * `IntMax` wins; the move is the one at the position of the last root child
   * of least wins, even though, like every root child, that child holds the
   * game after move 0.
   */
  lemma BestMoveLast<G, M>(rules: Rules<G, M>, nodes: seq<EvalNode<G>>)
    requires Tree(rules, nodes)
    ensures |nodes[0].children| <= |rules.moves(nodes[0].game)|
    ensures var kids := nodes[0].children;
            BestMove(rules, nodes).Some? <==> exists k :: 0 <= k < |kids| && nodes[kids[k]].w <= IntMax
    ensures var kids := nodes[0].children;
            var moves := rules.moves(nodes[0].game);
            BestMove(rules, nodes).Some? ==>
              exists k :: 0 <= k < |kids| && BestMove(rules, nodes) == Some(moves[k])
                && (forall j :: 0 <= j < |kids| ==> nodes[kids[k]].w <= nodes[kids[j]].w)
                && (forall j :: k < j < |kids| ==> nodes[kids[k]].w < nodes[kids[j]].w)
                && nodes[kids[k]].game == rules.play(nodes[0].game, moves[0])
  {
    var kids := nodes[0].children;
    var s := Wins(nodes, kids);
    ScanMinLastSpec(s, |kids|, -1, IntMax);
    assert Partial(rules, nodes, 0);
  }
}
