/**
 * `MonteCarloTreeSearch`, the first search engine: every step descends by
 * UCT to a leaf, expands all of the leaf's moves at once, plays one random
 * playout from one of the new children and adds its result to every node
 * of the path, each from the point of view fixed by its depth.
 *
 * The tree is an arena (see `SearchTree`).  The random child index and the
 * winner of the playout are inputs of a step.
 */
module Mcts {
  import opened Game
  import opened Rollout
  import opened SearchTree

  // ---------------------------------------------------------------------------
  // Trees
  // ---------------------------------------------------------------------------

  /** Whole counts: `w` is a whole number of wins between 0 and `n`. */
  ghost predicate Whole<G>(node: EvalNode<G>)
  {
    0.0 <= node.w <= node.n as real && node.w == node.w.Floor as real
  }

  /**
   * Node `i` is a leaf, or it has one child per legal move of its game, child
   * `k` holding the game after move `k`.
   */
  ghost predicate Expanded<G, M>(rules: Rules<G, M>, nodes: seq<EvalNode<G>>, i: int)
    requires 0 <= i < |nodes|
  {
    var kids := nodes[i].children;
    var moves := rules.moves(nodes[i].game);
    kids == [] ||
    (|kids| == |moves| &&
     forall k :: 0 <= k < |kids| ==>
       kids[k] < |nodes| && nodes[kids[k]].game == rules.play(nodes[i].game, moves[k]))
  }

  /** The shape of the search tree between two steps. */
  ghost predicate Tree<G, M>(rules: Rules<G, M>, nodes: seq<EvalNode<G>>)
  {
    && |nodes| >= 1
    && Ordered(nodes)
    && (forall i :: 0 <= i < |nodes| ==> Whole(nodes[i]))
    && (forall i :: 0 <= i < |nodes| ==> Expanded(rules, nodes, i))
  }

  /** The arena indices `from`, `from + 1`, ..., `from + count - 1`. */
  function Indices(from: nat, count: nat): (r: seq<nat>)
    ensures |r| == count
    ensures forall k :: 0 <= k < count ==> r[k] == from + k
  {
    seq(count, k => from + k)
  }

  // ---------------------------------------------------------------------------
  // The three phases of a step
  // ---------------------------------------------------------------------------

  /**
   * Selection: the nodes visited from node `i` down to a leaf, each time
   * moving to the child the UCT scan picks (the first largest value, child 0
   * when no value is above 0).
   */
  function Descent<G>(nodes: seq<EvalNode<G>>, nTotal: int, explore: (int, int) -> real, i: nat): (path: seq<nat>)
    requires Ordered(nodes) && i < |nodes|
    ensures |path| >= 1 && path[0] == i
    ensures forall l :: 0 <= l < |path| ==> i <= path[l] < |nodes|
    ensures forall l, m :: 0 <= l < m < |path| ==> path[l] < path[m]
    ensures nodes[path[|path| - 1]].children == []
    decreases |nodes| - i
  {
    var kids := nodes[i].children;
    if kids == [] then [i]
    else
      var k := ScanMax(ChildUcts(nodes, i, nTotal, explore), |kids|, 0, 0.0).0;
      [i] + Descent(nodes, nTotal, explore, kids[k])
  }

  /**
   * Expansion of the leaf `leaf` by the first `i` of its moves: one new
   * node per move, appended to the arena and to the leaf's children in move
   * order.
   */
  function Grown<G, M>(rules: Rules<G, M>, nodes: seq<EvalNode<G>>, leaf: nat, moves: seq<M>, i: nat): (r: seq<EvalNode<G>>)
    requires leaf < |nodes| && i <= |moves|
    ensures |r| == |nodes| + i
    decreases i
  {
    if i == 0 then nodes
    else
      var prev := Grown(rules, nodes, leaf, moves, i - 1);
      var parent := prev[leaf];
      prev[leaf := parent.(children := parent.children + [|prev|])] + [NewNode(rules.play(parent.game, moves[i - 1]))]
  }

  /**
   * After expansion by `i` moves the leaf lists the `i` new nodes as its
   * children, the other nodes are unchanged, and new node `k` is an
   * unvisited node holding the game after move `k`.
   */
  lemma {:induction false} GrownShape<G, M>(rules: Rules<G, M>, nodes: seq<EvalNode<G>>, leaf: nat, moves: seq<M>, i: nat)
    requires leaf < |nodes| && i <= |moves|
    ensures var r := Grown(rules, nodes, leaf, moves, i);
            && r[leaf] == nodes[leaf].(children := nodes[leaf].children + Indices(|nodes|, i))
            && (forall j :: 0 <= j < |nodes| && j != leaf ==> r[j] == nodes[j])
            && (forall k :: 0 <= k < i ==> r[|nodes| + k] == NewNode(rules.play(nodes[leaf].game, moves[k])))
    decreases i
  {
    if i == 0 {
      assert nodes[leaf].children + Indices(|nodes|, 0) == nodes[leaf].children;
    } else {
      GrownShape(rules, nodes, leaf, moves, i - 1);
      var prev := Grown(rules, nodes, leaf, moves, i - 1);
      assert Indices(|nodes|, i) == Indices(|nodes|, i - 1) + [|prev|];
    }
  }

  /** After expansion, child `q` of the leaf is the appended node `q`, and the root still holds its game. */
  lemma GrownChild<G, M>(rules: Rules<G, M>, nodes: seq<EvalNode<G>>, leaf: nat, moves: seq<M>, q: nat)
    requires leaf < |nodes| && nodes[leaf].children == [] && q < |moves|
    ensures var r := Grown(rules, nodes, leaf, moves, |moves|);
            && |r[leaf].children| == |moves| && r[leaf].children[q] == |nodes| + q
            && r[0].game == nodes[0].game
  {
    GrownShape(rules, nodes, leaf, moves, |moves|);
    if leaf != 0 {
      assert Grown(rules, nodes, leaf, moves, |moves|)[0] == nodes[0];
    }
  }

  /**
   * The player whose wins a node at depth `depth` of the visited path counts:
   * the root's player at even depths, the other one at odd depths.
   */
  function Counted(rootPlayer: PlayerId, depth: nat): (p: PlayerId)
    ensures p != Nobody
    ensures rootPlayer != Nobody ==> (p == rootPlayer <==> depth % 2 == 0)
    ensures rootPlayer != Nobody ==> (p == Opponent(rootPlayer) <==> depth % 2 == 1)
  {
    match rootPlayer
    case One => if depth % 2 == 0 then One else Two
    case _ => if depth % 2 == 0 then Two else One
  }

  /**
   * The backpropagation update of a node at depth `depth` after a playout of
   * one run won by `outcome`: one more simulation, and the wins of the counted
   * player added and cut to an integer.
   */
  function Bump<G>(node: EvalNode<G>, rootPlayer: PlayerId, depth: nat, outcome: PlayerId): EvalNode<G>
  {
    node.(w := Trunc(node.w + Share(outcome, Counted(rootPlayer, depth))) as real, n := node.n + 1)
  }

  /** A win of the counted player adds 1; a draw's half win is cut off, so a draw adds nothing. */
  function Won(outcome: PlayerId, p: PlayerId): real
  {
    if outcome == p then 1.0 else 0.0
  }

  lemma BumpWhole<G>(node: EvalNode<G>, rootPlayer: PlayerId, depth: nat, outcome: PlayerId)
    requires Whole(node)
    ensures Bump(node, rootPlayer, depth, outcome) ==
      node.(n := node.n + 1, w := node.w + Won(outcome, Counted(rootPlayer, depth)))
    ensures Whole(Bump(node, rootPlayer, depth, outcome))
  {
    var s := Share(outcome, Counted(rootPlayer, depth));
    var f := node.w.Floor;
    assert node.w == f as real;
    if outcome == Nobody {
      assert (f as real + 0.5).Floor == f;
    } else if outcome == Counted(rootPlayer, depth) {
      assert (f as real + 1.0).Floor == f + 1;
    } else {
      assert s == 0.0;
    }
  }

  /**
   * Backpropagation over the first `j` nodes of the visited path: node
   * `path[l]` is updated as a node of depth `l`.
   */
  function Backprop<G>(nodes: seq<EvalNode<G>>, path: seq<nat>, rootPlayer: PlayerId, outcome: PlayerId, j: nat): (r: seq<EvalNode<G>>)
    requires j <= |path|
    requires forall l :: 0 <= l < |path| ==> path[l] < |nodes|
    ensures |r| == |nodes|
    decreases j
  {
    if j == 0 then nodes
    else
      var prev := Backprop(nodes, path, rootPlayer, outcome, j - 1);
      prev[path[j - 1] := Bump(prev[path[j - 1]], rootPlayer, j - 1, outcome)]
  }

  /**
   * On a path without repetition, backpropagation over its first `j` nodes
   * updates node `path[l]` exactly once, as a node of depth `l`, and leaves
   * every other node alone.
   */
  lemma BackpropShape<G>(nodes: seq<EvalNode<G>>, path: seq<nat>, rootPlayer: PlayerId, outcome: PlayerId, j: nat)
    requires j <= |path|
    requires forall l :: 0 <= l < |path| ==> path[l] < |nodes|
    requires forall l, m :: 0 <= l < m < |path| ==> path[l] < path[m]
    ensures var r := Backprop(nodes, path, rootPlayer, outcome, j);
            && (forall l :: 0 <= l < j ==> r[path[l]] == Bump(nodes[path[l]], rootPlayer, l, outcome))
            && (forall i :: 0 <= i < |nodes| && (forall l :: 0 <= l < j ==> path[l] != i) ==> r[i] == nodes[i])
  {
    forall l | 0 <= l < j
      ensures Backprop(nodes, path, rootPlayer, outcome, j)[path[l]] == Bump(nodes[path[l]], rootPlayer, l, outcome)
    {
      BackpropHit(nodes, path, rootPlayer, outcome, j, l);
    }
    forall i | 0 <= i < |nodes| && (forall l :: 0 <= l < j ==> path[l] != i)
      ensures Backprop(nodes, path, rootPlayer, outcome, j)[i] == nodes[i]
    {
      BackpropMiss(nodes, path, rootPlayer, outcome, j, i);
    }
  }

  /** Backpropagation over the first `j` nodes of the path bumps the node at depth `l < j` once. */
  lemma {:induction false} BackpropHit<G>(nodes: seq<EvalNode<G>>, path: seq<nat>, rootPlayer: PlayerId, outcome: PlayerId, j: nat, l: nat)
    requires l < j <= |path|
    requires forall m :: 0 <= m < |path| ==> path[m] < |nodes|
    requires forall m, o :: 0 <= m < o < |path| ==> path[m] < path[o]
    ensures Backprop(nodes, path, rootPlayer, outcome, j)[path[l]] == Bump(nodes[path[l]], rootPlayer, l, outcome)
    decreases j
  {
    var c := path[j - 1];
    if l == j - 1 {
      BackpropMiss(nodes, path, rootPlayer, outcome, j - 1, c);
    } else {
      assert path[l] < c;
      BackpropHit(nodes, path, rootPlayer, outcome, j - 1, l);
    }
  }

  /** Backpropagation over the first `j` nodes of the path leaves a node that is not among them alone. */
  lemma {:induction false} BackpropMiss<G>(nodes: seq<EvalNode<G>>, path: seq<nat>, rootPlayer: PlayerId, outcome: PlayerId, j: nat, i: nat)
    requires j <= |path| && i < |nodes|
    requires forall m :: 0 <= m < |path| ==> path[m] < |nodes|
    requires forall m :: 0 <= m < j ==> path[m] != i
    ensures Backprop(nodes, path, rootPlayer, outcome, j)[i] == nodes[i]
    decreases j
  {
    if j > 0 {
      BackpropMiss(nodes, path, rootPlayer, outcome, j - 1, i);
    }
  }

  /**
   * A path selection can end on: it starts at the root, goes strictly
   * forward in the arena and ends at a node without children.
   */
  ghost predicate SelectionPath<G>(nodes: seq<EvalNode<G>>, path: seq<nat>)
  {
    && |path| >= 1 && path[0] == 0
    && (forall l :: 0 <= l < |path| ==> path[l] < |nodes|)
    && (forall l, m :: 0 <= l < m < |path| ==> path[l] < path[m])
    && nodes[path[|path| - 1]].children == []
  }

  /**
   * The arena after expansion, one playout and backpropagation, once
   * selection has visited `path` and its leaf has legal moves: `pick` chooses
   * the child to simulate from (modulo the number of children) and
   * `outcome` is the playout's winner.
   */
  ghost function Stepped<G, M>(rules: Rules<G, M>, nodes: seq<EvalNode<G>>, path: seq<nat>, pick: nat, outcome: PlayerId): seq<EvalNode<G>>
    requires SelectionPath(nodes, path) && rules.moves(nodes[path[|path| - 1]].game) != []
  {
    var leaf := path[|path| - 1];
    var moves := rules.moves(nodes[leaf].game);
    Backprop(Grown(rules, nodes, leaf, moves, |moves|), path + [|nodes| + pick % |moves|],
             rules.player(nodes[0].game), outcome, |path| + 1)
  }

  /** `evaluateTreeOnce` on the arena `nodes`: selection by `Descent`, then `Stepped` unless the leaf has no move. */
  ghost function EvaluatedOnce<G, M>(rules: Rules<G, M>, explore: (int, int) -> real, nodes: seq<EvalNode<G>>,
                                     nTotal: int, pick: nat, outcome: PlayerId): Evaluation<G>
    requires Arena(nodes)
  {
    var path := Descent(nodes, nTotal, explore, 0);
    if rules.moves(nodes[path[|path| - 1]].game) == [] then Evaluation(true, nodes, nTotal)
    else Evaluation(false, Stepped(rules, nodes, path, pick, outcome), nTotal + 1)
  }

  /** The selection scan at node `i`: the first child with the largest UCT value above 0, else child 0. */
  method SelectChild<G>(nodes: seq<EvalNode<G>>, i: nat, nTotal: int, explore: (int, int) -> real) returns (k: nat)
    requires Ordered(nodes) && i < |nodes| && nodes[i].children != []
    ensures k == ScanMax(ChildUcts(nodes, i, nTotal, explore), |nodes[i].children|, 0, 0.0).0
    ensures k < |nodes[i].children|
  {
    var kids := nodes[i].children;
    ghost var s := ChildUcts(nodes, i, nTotal, explore);
    k := 0;
    var best := 0.0;
    var j := 0;
    while j < |kids|
      invariant 0 <= j <= |kids|
      invariant (k as int, best) == ScanMax(s, j, 0, 0.0)
    {
      var u := Uct(nodes[kids[j]], nTotal, explore);
      if best < u {
        k, best := j, u;
      }
      j := j + 1;
    }
  }

  /** One selection step: below a node with children, selection continues at the child `SelectChild` picks. */
  lemma DescentStep<G>(nodes: seq<EvalNode<G>>, nTotal: int, explore: (int, int) -> real, i: nat, k: nat)
    requires Ordered(nodes) && i < |nodes| && nodes[i].children != []
    requires k == ScanMax(ChildUcts(nodes, i, nTotal, explore), |nodes[i].children|, 0, 0.0).0
    ensures k < |nodes[i].children|
    ensures Descent(nodes, nTotal, explore, i) == [i] + Descent(nodes, nTotal, explore, nodes[i].children[k])
  {
  }

  /** Every node of `path` after the first is the child selection picks below the node before it. */
  ghost predicate Steps<G>(nodes: seq<EvalNode<G>>, nTotal: int, explore: (int, int) -> real, path: seq<nat>)
    requires Ordered(nodes)
  {
    && (forall l :: 0 <= l < |path| ==> path[l] < |nodes|)
    && (forall l :: 0 <= l < |path| - 1 ==>
          nodes[path[l]].children != []
          && path[l + 1] == nodes[path[l]].children[ScanMax(ChildUcts(nodes, path[l], nTotal, explore), |nodes[path[l]].children|, 0, 0.0).0])
  }

  /** A chain of selection steps that ends at a node without children is the descent from its first node. */
  lemma {:induction false} StepsDescent<G>(nodes: seq<EvalNode<G>>, nTotal: int, explore: (int, int) -> real, path: seq<nat>)
    requires Ordered(nodes) && |path| >= 1 && Steps(nodes, nTotal, explore, path)
    requires nodes[path[|path| - 1]].children == []
    ensures path == Descent(nodes, nTotal, explore, path[0])
    decreases |path|
  {
    if |path| > 1 {
      var tail := path[1..];
      assert Steps(nodes, nTotal, explore, tail);
      StepsDescent(nodes, nTotal, explore, tail);
      var i := path[0];
      DescentStep(nodes, nTotal, explore, i, ScanMax(ChildUcts(nodes, i, nTotal, explore), |nodes[i].children|, 0, 0.0).0);
      assert path == [i] + tail;
    }
  }

  /** The selection loop: from the root, follow `SelectChild` until a node without children. */
  method Select<G>(tree: seq<EvalNode<G>>, total: int, explore: (int, int) -> real) returns (path: seq<nat>)
    requires Arena(tree)
    ensures path == Descent(tree, total, explore, 0)
  {
    path := [0];
    var node := 0;
    while tree[node].children != []
      invariant node < |tree| && |path| >= 1 && path[0] == 0 && path[|path| - 1] == node
      invariant Steps(tree, total, explore, path)
      decreases |tree| - node
    {
      var k := SelectChild(tree, node, total, explore);
      var next := tree[node].children[k];
      assert Ordered(tree);
      path := path + [next];
      node := next;
    }
    StepsDescent(tree, total, explore, path);
  }

  /** The expansion loop: one new child of `leaf` per legal move, in move order. */
  method Expand<G, M>(rules: Rules<G, M>, tree: seq<EvalNode<G>>, leaf: nat, moves: seq<M>) returns (arena: seq<EvalNode<G>>)
    requires leaf < |tree|
    ensures arena == Grown(rules, tree, leaf, moves, |moves|)
  {
    var game := tree[leaf].game;
    arena := tree;
    var i := 0;
    while i < |moves|
      invariant 0 <= i <= |moves|
      invariant leaf < |arena| && arena[leaf].game == game
      invariant arena == Grown(rules, tree, leaf, moves, i)
    {
      var parent := arena[leaf];
      arena := arena[leaf := parent.(children := parent.children + [|arena|])] + [NewNode(rules.play(game, moves[i]))];
      i := i + 1;
    }
  }

  /**
   * The backpropagation loop: every node on `path` gains `runs` simulations
   * and the wins of the player counted at its depth, as the rollout reported
   * them in `win1` and `win2`.
   */
  method Backpropagate<G>(arena: seq<EvalNode<G>>, path: seq<nat>, rootPlayer: PlayerId, outcome: PlayerId,
                          win1: real, win2: real, runs: int) returns (r: seq<EvalNode<G>>)
    requires forall l :: 0 <= l < |path| ==> path[l] < |arena|
    requires win1 == Share(outcome, One) && win2 == Share(outcome, Two) && runs == 1
    ensures r == Backprop(arena, path, rootPlayer, outcome, |path|)
  {
    r := arena;
    var j := 0;
    while j < |path|
      invariant 0 <= j <= |path|
      invariant r == Backprop(arena, path, rootPlayer, outcome, j)
    {
      var t := r[path[j]];
      var gain;
      if rootPlayer == One {
        gain := if j % 2 == 0 then win1 else win2;
      } else {
        gain := if j % 2 == 0 then win2 else win1;
      }
      assert gain == Share(outcome, Counted(rootPlayer, j));
      r := r[path[j] := t.(w := Trunc(t.w + gain) as real, n := t.n + runs)];
      j := j + 1;
    }
  }

  /**
   * The body of `evaluateTreeOnce` on the arena `tree` with `total`
   * simulations: selection, then expansion, playout and backpropagation
   * unless the selected leaf has no legal move.
   */
  method Step<G, M>(rules: Rules<G, M>, explore: (int, int) -> real, tree: seq<EvalNode<G>>, total: int,
                    pick: nat, outcome: PlayerId) returns (stop: bool, arena: seq<EvalNode<G>>, count: int)
    requires Arena(tree)
    ensures Evaluation(stop, arena, count) == EvaluatedOnce(rules, explore, tree, total, pick, outcome)
  {
    var path := Select(tree, total, explore);
    if rules.moves(tree[path[|path| - 1]].game) == [] {
      return true, tree, total;
    }
    arena := ExpandAndSimulate(rules, tree, path, pick, outcome);
    return false, arena, total + 1;
  }

  /** Expansion of the selected leaf, one playout from the child `pick` chooses, and backpropagation. */
  method ExpandAndSimulate<G, M>(rules: Rules<G, M>, tree: seq<EvalNode<G>>, path: seq<nat>, pick: nat, outcome: PlayerId)
    returns (arena: seq<EvalNode<G>>)
    requires SelectionPath(tree, path) && rules.moves(tree[path[|path| - 1]].game) != []
    ensures arena == Stepped(rules, tree, path, pick, outcome)
  {
    var leaf := path[|path| - 1];
    var moves := rules.moves(tree[leaf].game);
    var q: nat := pick % |moves|;
    arena := Expand(rules, tree, leaf, moves);
    GrownChild(rules, tree, leaf, moves, q);
    var chosen: nat := arena[leaf].children[q];
    var rootPlayer := rules.player(arena[0].game);
    var visited: seq<nat> := path + [chosen];
    arena := Simulate(arena, visited, rootPlayer, outcome);
  }

  /** One playout of one run from the last node of `visited`, won by `outcome`, and its backpropagation. */
  method Simulate<G>(arena: seq<EvalNode<G>>, visited: seq<nat>, rootPlayer: PlayerId, outcome: PlayerId)
    returns (r: seq<EvalNode<G>>)
    requires forall l :: 0 <= l < |visited| ==> visited[l] < |arena|
    ensures r == Backprop(arena, visited, rootPlayer, outcome, |visited|)
  {
    var roll := RollOut(outcome, 1);
    r := Backpropagate(arena, visited, rootPlayer, outcome, roll.win1, roll.win2, roll.n);
  }

  // ---------------------------------------------------------------------------
  // The engine
  // ---------------------------------------------------------------------------

  class MonteCarloTreeSearch<G, M> {
    const rules: Rules<G, M>
    /** The exploration term of UCT as a function of `n` and `nTotal`. */
    const explore: (int, int) -> real
    /** The arena; `nodes[0]` is `root`. */
    var nodes: seq<EvalNode<G>>
    var nTotal: int

    /** The root has been simulated once per step, and `nTotal` counts the steps. */
    ghost predicate Valid()
      reads this
    {
      Tree(rules, nodes) && nodes[0].n == nTotal
    }

    constructor (rules: Rules<G, M>, explore: (int, int) -> real, game: G)
      ensures this.rules == rules && this.explore == explore
      ensures nodes == [NewNode(game)] && nTotal == 0
      ensures Valid()
    {
      this.rules := rules;
      this.explore := explore;
      nodes := [NewNode(game)];
      nTotal := 0;
    }

    /** `evaluateTreeOnce` on this search's tree: see `Step`. */
    method EvaluateTreeOnce(pick: nat, outcome: PlayerId) returns (stop: bool)
      requires Valid()
      modifies this
      ensures Valid()
      ensures Evaluation(stop, nodes, nTotal) == EvaluatedOnce(rules, explore, old(nodes), old(nTotal), pick, outcome)
    {
      StepKeepsValid(rules, explore, nodes, nTotal, pick, outcome);
      stop, nodes, nTotal := Step(rules, explore, nodes, nTotal, pick, outcome);
    }

    /** `getBestMove` on this search's tree: see `PickMove`. */
    method GetBestMove() returns (move: Option<M>)
      requires Valid()
      ensures move == BestMove(rules, nodes)
    {
      move := PickMove(rules, nodes);
    }
  }

  // ---------------------------------------------------------------------------
  // The best move
  // ---------------------------------------------------------------------------

  /** `w / n`, or `None` for an unvisited node (the source divides 0 by 0: NaN, below nothing). */
  function Ratio<G>(node: EvalNode<G>): (r: Option<real>)
    ensures r.Some? <==> node.n != 0
    ensures Whole(node) && r.Some? ==> 0.0 <= r.value <= 1.0
  {
    if node.n == 0 then None else Some(node.w / node.n as real)
  }

  function Ratios<G>(nodes: seq<EvalNode<G>>, kids: seq<nat>): (r: seq<Option<real>>)
    requires forall k :: 0 <= k < |kids| ==> kids[k] < |nodes|
    ensures |r| == |kids|
    ensures forall k :: 0 <= k < |kids| ==> r[k] == Ratio(nodes[kids[k]])
  {
    seq(|kids|, k requires 0 <= k < |kids| => Ratio(nodes[kids[k]]))
  }

  /**
   * The move `getBestMove` returns: the root child whose ratio is the first
   * strictly below 1 and below every earlier one, or child 0 when it is the
   * only child; `None` where the source indexes the move list with -1.
   */
  ghost function BestMove<G, M>(rules: Rules<G, M>, nodes: seq<EvalNode<G>>): Option<M>
    requires Arena(nodes)
  {
    var kids := nodes[0].children;
    var moves := rules.moves(nodes[0].game);
    var idx := if |kids| == 1 then 0 else ScanMin(Ratios(nodes, kids), |kids|, -1, 1.0).0;
    if 0 <= idx < |moves| then Some(moves[idx]) else None
  }

  /**
   * The body of `getBestMove`: scan the root's children for the first one
   * whose ratio `w / n` is below 1 and below every earlier one; with a
   * single child take it; `None` where the source indexes the move list
   * with -1.
   */
  method PickMove<G, M>(rules: Rules<G, M>, nodes: seq<EvalNode<G>>) returns (move: Option<M>)
    requires Arena(nodes)
    ensures move == BestMove(rules, nodes)
  {
    var kids := nodes[0].children;
    var moves := rules.moves(nodes[0].game);
    ghost var s := Ratios(nodes, kids);
    var idx := -1;
    var best := 1.0;
    var i := 0;
    while i < |kids|
      invariant 0 <= i <= |kids|
      invariant (idx, best) == ScanMin(s, i, -1, 1.0)
    {
      var child := nodes[kids[i]];
      if child.n != 0 && child.w / child.n as real < best {
        best := child.w / child.n as real;
        idx := i;
      }
      i := i + 1;
    }
    if |kids| == 1 {
      idx := 0;
    }
    if 0 <= idx < |moves| {
      move := Some(moves[idx]);
    } else {
      move := None;
    }
  }

  // ---------------------------------------------------------------------------
  // Properties
  // ---------------------------------------------------------------------------

  /** A step keeps the shape of the tree and keeps the root's simulation count equal to `nTotal`. */
  lemma StepKeepsValid<G, M>(rules: Rules<G, M>, explore: (int, int) -> real, nodes: seq<EvalNode<G>>,
                             nTotal: int, pick: nat, outcome: PlayerId)
    requires Tree(rules, nodes) && nodes[0].n == nTotal
    ensures var e := EvaluatedOnce(rules, explore, nodes, nTotal, pick, outcome);
            Tree(rules, e.nodes) && e.nodes[0].n == e.nTotal
  {
    var path := Descent(nodes, nTotal, explore, 0);
    if rules.moves(nodes[path[|path| - 1]].game) != [] {
      StepKeepsTree(rules, nodes, path, pick, outcome);
    }
  }

  /**
   * A step that expands keeps the shape of the tree and adds one simulation
   * to the root, so the root keeps counting the steps.
   */
  lemma StepKeepsTree<G, M>(rules: Rules<G, M>, nodes: seq<EvalNode<G>>, path: seq<nat>, pick: nat, outcome: PlayerId)
    requires Tree(rules, nodes) && SelectionPath(nodes, path)
    requires rules.moves(nodes[path[|path| - 1]].game) != []
    ensures Tree(rules, Stepped(rules, nodes, path, pick, outcome))
    ensures Stepped(rules, nodes, path, pick, outcome)[0].n == nodes[0].n + 1
  {
    var leaf := path[|path| - 1];
    var moves := rules.moves(nodes[leaf].game);
    var grown := Grown(rules, nodes, leaf, moves, |moves|);
    var visited: seq<nat> := path + [|nodes| + pick % |moves|];
    var rp := rules.player(nodes[0].game);
    GrownKeepsTree(rules, nodes, leaf, moves);
    VisitedPath(path, |nodes|, pick % |moves|);
    BackpropKeepsTree(rules, grown, visited, rp, outcome);
    BackpropOn(grown, visited, rp, outcome, 0);
    BumpWhole(grown[0], rp, 0, outcome);
  }

  /** Expanding a leaf by all of its moves keeps the shape of the tree. */
  lemma GrownKeepsTree<G, M>(rules: Rules<G, M>, nodes: seq<EvalNode<G>>, leaf: nat, moves: seq<M>)
    requires Tree(rules, nodes) && leaf < |nodes| && nodes[leaf].children == []
    requires moves == rules.moves(nodes[leaf].game)
    ensures Tree(rules, Grown(rules, nodes, leaf, moves, |moves|))
    ensures Grown(rules, nodes, leaf, moves, |moves|)[0].n == nodes[0].n
  {
    var r := Grown(rules, nodes, leaf, moves, |moves|);
    GrownShape(rules, nodes, leaf, moves, |moves|);
    forall i | 0 <= i < |r|
      ensures Whole(r[i]) && Expanded(rules, r, i)
    {
      GrownAt(rules, nodes, leaf, moves, i);
    }
    forall i, k | 0 <= i < |r| && 0 <= k < |r[i].children|
      ensures i < r[i].children[k] < |r|
    {
      GrownAt(rules, nodes, leaf, moves, i);
    }
    assert Ordered(r);
    if leaf != 0 {
      assert r[0] == nodes[0];
    }
  }

  /** One node of an expanded tree: whole counts, children after it and aligned with its moves. */
  lemma GrownAt<G, M>(rules: Rules<G, M>, nodes: seq<EvalNode<G>>, leaf: nat, moves: seq<M>, i: nat)
    requires Tree(rules, nodes) && leaf < |nodes| && nodes[leaf].children == []
    requires moves == rules.moves(nodes[leaf].game)
    requires i < |nodes| + |moves|
    ensures var r := Grown(rules, nodes, leaf, moves, |moves|);
            Whole(r[i]) && Expanded(rules, r, i)
            && forall k :: 0 <= k < |r[i].children| ==> i < r[i].children[k] < |r|
  {
    var r := Grown(rules, nodes, leaf, moves, |moves|);
    GrownShape(rules, nodes, leaf, moves, |moves|);
    if i == leaf {
      GrownLeaf(rules, nodes, leaf, moves);
    } else if i < |nodes| {
      GrownOld(rules, nodes, leaf, moves, i);
    } else {
      assert r[i] == r[|nodes| + (i - |nodes|)];
      assert r[i] == NewNode(rules.play(nodes[leaf].game, moves[i - |nodes|]));
      assert r[i].w.Floor == 0;
    }
  }

  lemma GrownLeaf<G, M>(rules: Rules<G, M>, nodes: seq<EvalNode<G>>, leaf: nat, moves: seq<M>)
    requires leaf < |nodes| && nodes[leaf].children == [] && Whole(nodes[leaf])
    requires moves == rules.moves(nodes[leaf].game)
    ensures var r := Grown(rules, nodes, leaf, moves, |moves|);
            Whole(r[leaf]) && Expanded(rules, r, leaf)
            && forall k :: 0 <= k < |r[leaf].children| ==> leaf < r[leaf].children[k] < |r|
  {
    var r := Grown(rules, nodes, leaf, moves, |moves|);
    GrownShape(rules, nodes, leaf, moves, |moves|);
    var kids := r[leaf].children;
    assert kids == Indices(|nodes|, |moves|);
    assert r[leaf].game == nodes[leaf].game;
    assert rules.moves(r[leaf].game) == moves;
    forall k | 0 <= k < |kids|
      ensures leaf < kids[k] < |r| && r[kids[k]].game == rules.play(r[leaf].game, moves[k])
    {
      assert kids[k] == |nodes| + k;
    }
    assert |kids| == |rules.moves(r[leaf].game)|;
    assert Expanded(rules, r, leaf);
  }

  lemma GrownOld<G, M>(rules: Rules<G, M>, nodes: seq<EvalNode<G>>, leaf: nat, moves: seq<M>, i: nat)
    requires Tree(rules, nodes) && leaf < |nodes|
    requires moves == rules.moves(nodes[leaf].game)
    requires i < |nodes| && i != leaf
    ensures var r := Grown(rules, nodes, leaf, moves, |moves|);
            Whole(r[i]) && Expanded(rules, r, i)
            && forall k :: 0 <= k < |r[i].children| ==> i < r[i].children[k] < |r|
  {
    var r := Grown(rules, nodes, leaf, moves, |moves|);
    GrownShape(rules, nodes, leaf, moves, |moves|);
    assert r[i] == nodes[i];
    assert Expanded(rules, nodes, i);
    var kids := nodes[i].children;
    forall k | 0 <= k < |kids|
      ensures i < kids[k] < |nodes| && r[kids[k]].game == nodes[kids[k]].game
    {
      if kids[k] == leaf {
        assert r[leaf].game == nodes[leaf].game;
      } else {
        assert r[kids[k]] == nodes[kids[k]];
      }
    }
    if kids != [] {
      assert rules.moves(r[i].game) == rules.moves(nodes[i].game);
      forall k | 0 <= k < |kids|
        ensures kids[k] < |r| && r[kids[k]].game == rules.play(r[i].game, rules.moves(r[i].game)[k])
      {
      }
    }
  }

  /** Backpropagation changes only counts, and keeps them whole. */
  lemma BackpropKeepsTree<G, M>(rules: Rules<G, M>, nodes: seq<EvalNode<G>>, path: seq<nat>, rootPlayer: PlayerId, outcome: PlayerId)
    requires Tree(rules, nodes)
    requires forall l :: 0 <= l < |path| ==> path[l] < |nodes|
    requires forall l, m :: 0 <= l < m < |path| ==> path[l] < path[m]
    ensures Tree(rules, Backprop(nodes, path, rootPlayer, outcome, |path|))
  {
    var r := Backprop(nodes, path, rootPlayer, outcome, |path|);
    BackpropShape(nodes, path, rootPlayer, outcome, |path|);
    assert forall i :: 0 <= i < |r| ==> r[i].game == nodes[i].game && r[i].children == nodes[i].children && Whole(r[i]) by {
      forall i | 0 <= i < |r|
        ensures r[i].game == nodes[i].game && r[i].children == nodes[i].children && Whole(r[i])
      {
        if l :| 0 <= l < |path| && path[l] == i {
          BumpWhole(nodes[i], rootPlayer, l, outcome);
        }
      }
    }
    forall i | 0 <= i < |r|
      ensures Expanded(rules, r, i)
    {
      assert Expanded(rules, nodes, i);
    }
  }

  /**
   * A step stops exactly when the leaf reached by selection has no legal
   * move, and then it changes nothing.
   */
  lemma StepStops<G, M>(rules: Rules<G, M>, explore: (int, int) -> real, nodes: seq<EvalNode<G>>,
                        nTotal: int, pick: nat, outcome: PlayerId)
    requires Arena(nodes)
    ensures var path := Descent(nodes, nTotal, explore, 0);
            var e := EvaluatedOnce(rules, explore, nodes, nTotal, pick, outcome);
            (e.stop <==> rules.moves(nodes[path[|path| - 1]].game) == [])
            && (e.stop ==> e.nodes == nodes && e.nTotal == nTotal)
            && (!e.stop ==> e.nTotal == nTotal + 1)
  {
  }

  /**
   * A step that expands gives the leaf one child per legal move, child `k`
   * holding the game after move `k`, and appends those children, still
   * unvisited except the one simulated from, to the arena.
   */
  lemma StepExpands<G, M>(rules: Rules<G, M>, nodes: seq<EvalNode<G>>, path: seq<nat>, pick: nat, outcome: PlayerId)
    requires SelectionPath(nodes, path)
    requires rules.moves(nodes[path[|path| - 1]].game) != []
    ensures var leaf := path[|path| - 1];
            var moves := rules.moves(nodes[leaf].game);
            var r := Stepped(rules, nodes, path, pick, outcome);
            && |r| == |nodes| + |moves|
            && r[leaf].children == Indices(|nodes|, |moves|)
            && (forall k :: 0 <= k < |moves| ==>
                  r[|nodes| + k].game == rules.play(nodes[leaf].game, moves[k])
                  && r[|nodes| + k].children == []
                  && (k != pick % |moves| ==> r[|nodes| + k].n == 0 && r[|nodes| + k].w == 0.0))
  {
    var leaf := path[|path| - 1];
    var moves := rules.moves(nodes[leaf].game);
    StepLeaf(rules, nodes, path, pick, outcome);
    forall k | 0 <= k < |moves|
      ensures var r := Stepped(rules, nodes, path, pick, outcome);
              r[|nodes| + k].game == rules.play(nodes[leaf].game, moves[k])
              && r[|nodes| + k].children == []
              && (k != pick % |moves| ==> r[|nodes| + k].n == 0 && r[|nodes| + k].w == 0.0)
    {
      StepNewChild(rules, nodes, path, pick, outcome, k);
    }
  }

  /** After a step the selected leaf lists the appended nodes as its children. */
  lemma StepLeaf<G, M>(rules: Rules<G, M>, nodes: seq<EvalNode<G>>, path: seq<nat>, pick: nat, outcome: PlayerId)
    requires SelectionPath(nodes, path)
    requires rules.moves(nodes[path[|path| - 1]].game) != []
    ensures var leaf := path[|path| - 1];
            var r := Stepped(rules, nodes, path, pick, outcome);
            |r| == |nodes| + |rules.moves(nodes[leaf].game)|
            && r[leaf].children == Indices(|nodes|, |rules.moves(nodes[leaf].game)|)
  {
    var leaf := path[|path| - 1];
    var moves := rules.moves(nodes[leaf].game);
    var grown := Grown(rules, nodes, leaf, moves, |moves|);
    var visited: seq<nat> := path + [|nodes| + pick % |moves|];
    var rp := rules.player(nodes[0].game);
    GrownKids(rules, nodes, leaf, moves);
    VisitedPath(path, |nodes|, pick % |moves|);
    BackpropOn(grown, visited, rp, outcome, |path| - 1);
    assert visited[|path| - 1] == leaf;
    assert nodes[leaf].children + Indices(|nodes|, |moves|) == Indices(|nodes|, |moves|);
  }

  /** After a step the appended node `k` holds the game after move `k`, has no child, and is unvisited unless simulated from. */
  lemma StepNewChild<G, M>(rules: Rules<G, M>, nodes: seq<EvalNode<G>>, path: seq<nat>, pick: nat, outcome: PlayerId, k: nat)
    requires SelectionPath(nodes, path)
    requires rules.moves(nodes[path[|path| - 1]].game) != []
    requires k < |rules.moves(nodes[path[|path| - 1]].game)|
    ensures var leaf := path[|path| - 1];
            var moves := rules.moves(nodes[leaf].game);
            var r := Stepped(rules, nodes, path, pick, outcome);
            r[|nodes| + k].game == rules.play(nodes[leaf].game, moves[k])
            && r[|nodes| + k].children == []
            && (k != pick % |moves| ==> r[|nodes| + k].n == 0 && r[|nodes| + k].w == 0.0)
  {
    var leaf := path[|path| - 1];
    var moves := rules.moves(nodes[leaf].game);
    var q: nat := pick % |moves|;
    var grown := Grown(rules, nodes, leaf, moves, |moves|);
    var visited: seq<nat> := path + [|nodes| + q];
    var rp := rules.player(nodes[0].game);
    var c := |nodes| + k;
    GrownNew(rules, nodes, leaf, moves, k);
    VisitedPath(path, |nodes|, q);
    if k == q {
      BackpropOn(grown, visited, rp, outcome, |path|);
    } else {
      BackpropOff(grown, visited, rp, outcome, c);
    }
  }

  /** Expansion appends, as node `k`, an unvisited node holding the game after move `k`. */
  lemma GrownNew<G, M>(rules: Rules<G, M>, nodes: seq<EvalNode<G>>, leaf: nat, moves: seq<M>, k: nat)
    requires leaf < |nodes| && k < |moves|
    ensures Grown(rules, nodes, leaf, moves, |moves|)[|nodes| + k] == NewNode(rules.play(nodes[leaf].game, moves[k]))
  {
    GrownShape(rules, nodes, leaf, moves, |moves|);
  }

  /** Expansion gives the leaf the appended nodes as children. */
  lemma GrownKids<G, M>(rules: Rules<G, M>, nodes: seq<EvalNode<G>>, leaf: nat, moves: seq<M>)
    requires leaf < |nodes|
    ensures Grown(rules, nodes, leaf, moves, |moves|)[leaf].children == nodes[leaf].children + Indices(|nodes|, |moves|)
  {
    GrownShape(rules, nodes, leaf, moves, |moves|);
  }

  /** Expansion keeps the counts of an old node. */
  lemma GrownKeeps<G, M>(rules: Rules<G, M>, nodes: seq<EvalNode<G>>, leaf: nat, moves: seq<M>, i: nat)
    requires leaf < |nodes| && i < |nodes| && Whole(nodes[i])
    ensures var r := Grown(rules, nodes, leaf, moves, |moves|);
            r[i].n == nodes[i].n && r[i].w == nodes[i].w && Whole(r[i])
  {
    GrownShape(rules, nodes, leaf, moves, |moves|);
  }

  /** Backpropagation bumps the node at depth `l` of the path by the player counted at that depth. */
  lemma BackpropOn<G>(nodes: seq<EvalNode<G>>, path: seq<nat>, rootPlayer: PlayerId, outcome: PlayerId, l: nat)
    requires forall m :: 0 <= m < |path| ==> path[m] < |nodes|
    requires forall m, o :: 0 <= m < o < |path| ==> path[m] < path[o]
    requires l < |path|
    ensures Backprop(nodes, path, rootPlayer, outcome, |path|)[path[l]] == Bump(nodes[path[l]], rootPlayer, l, outcome)
  {
    BackpropHit(nodes, path, rootPlayer, outcome, |path|, l);
  }

  /** Backpropagation leaves a node off the path as it was. */
  lemma BackpropOff<G>(nodes: seq<EvalNode<G>>, path: seq<nat>, rootPlayer: PlayerId, outcome: PlayerId, i: nat)
    requires forall m :: 0 <= m < |path| ==> path[m] < |nodes|
    requires forall m, o :: 0 <= m < o < |path| ==> path[m] < path[o]
    requires i < |nodes| && forall m :: 0 <= m < |path| ==> path[m] != i
    ensures Backprop(nodes, path, rootPlayer, outcome, |path|)[i] == nodes[i]
  {
    BackpropMiss(nodes, path, rootPlayer, outcome, |path|, i);
  }

  /**
   * A step that expands adds one simulation to every visited node, the root,
   * the path below it and the simulated child, and adds 1 to its wins
   * exactly when the playout's winner is the player it counts: the root's
   * player at even depths, the opponent at odd depths.  A draw adds nothing.
   * Every node off the path keeps its counts.
   */
  lemma StepCounts<G, M>(rules: Rules<G, M>, nodes: seq<EvalNode<G>>, path: seq<nat>, pick: nat, outcome: PlayerId)
    requires SelectionPath(nodes, path) && forall i :: 0 <= i < |nodes| ==> Whole(nodes[i])
    requires rules.moves(nodes[path[|path| - 1]].game) != []
    ensures var moves := rules.moves(nodes[path[|path| - 1]].game);
            var r := Stepped(rules, nodes, path, pick, outcome);
            var rp := rules.player(nodes[0].game);
            && (forall l :: 0 <= l < |path| ==>
                  r[path[l]].n == nodes[path[l]].n + 1
                  && r[path[l]].w == nodes[path[l]].w + Won(outcome, Counted(rp, l)))
            && r[|nodes| + pick % |moves|].n == 1
            && r[|nodes| + pick % |moves|].w == Won(outcome, Counted(rp, |path|))
            && (forall i :: 0 <= i < |nodes| && (forall l :: 0 <= l < |path| ==> path[l] != i) ==>
                  r[i].n == nodes[i].n && r[i].w == nodes[i].w)
  {
    StepCountsPath(rules, nodes, path, pick, outcome);
    StepCountsChild(rules, nodes, path, pick, outcome);
    StepCountsOff(rules, nodes, path, pick, outcome);
  }

  /** `StepCounts` on the selection path. */
  lemma StepCountsPath<G, M>(rules: Rules<G, M>, nodes: seq<EvalNode<G>>, path: seq<nat>, pick: nat, outcome: PlayerId)
    requires SelectionPath(nodes, path) && forall i :: 0 <= i < |nodes| ==> Whole(nodes[i])
    requires rules.moves(nodes[path[|path| - 1]].game) != []
    ensures var r := Stepped(rules, nodes, path, pick, outcome);
            var rp := rules.player(nodes[0].game);
            forall l :: 0 <= l < |path| ==>
              r[path[l]].n == nodes[path[l]].n + 1
              && r[path[l]].w == nodes[path[l]].w + Won(outcome, Counted(rp, l))
  {
    var leaf := path[|path| - 1];
    var moves := rules.moves(nodes[leaf].game);
    var q: nat := pick % |moves|;
    var grown := Grown(rules, nodes, leaf, moves, |moves|);
    var visited: seq<nat> := path + [|nodes| + q];
    var rp := rules.player(nodes[0].game);
    VisitedPath(path, |nodes|, q);
    var r := Backprop(grown, visited, rp, outcome, |visited|);
    forall l | 0 <= l < |path|
      ensures r[path[l]].n == nodes[path[l]].n + 1 && r[path[l]].w == nodes[path[l]].w + Won(outcome, Counted(rp, l))
    {
      GrownKeeps(rules, nodes, leaf, moves, path[l]);
      BackpropOn(grown, visited, rp, outcome, l);
      BumpWhole(grown[path[l]], rp, l, outcome);
    }
  }

  /** `StepCounts` on the simulated child. */
  lemma StepCountsChild<G, M>(rules: Rules<G, M>, nodes: seq<EvalNode<G>>, path: seq<nat>, pick: nat, outcome: PlayerId)
    requires SelectionPath(nodes, path)
    requires rules.moves(nodes[path[|path| - 1]].game) != []
    ensures var moves := rules.moves(nodes[path[|path| - 1]].game);
            var r := Stepped(rules, nodes, path, pick, outcome);
            var rp := rules.player(nodes[0].game);
            && r[|nodes| + pick % |moves|].n == 1
            && r[|nodes| + pick % |moves|].w == Won(outcome, Counted(rp, |path|))
  {
    var leaf := path[|path| - 1];
    var moves := rules.moves(nodes[leaf].game);
    var q: nat := pick % |moves|;
    var grown := Grown(rules, nodes, leaf, moves, |moves|);
    var visited: seq<nat> := path + [|nodes| + q];
    var rp := rules.player(nodes[0].game);
    GrownNew(rules, nodes, leaf, moves, q);
    VisitedPath(path, |nodes|, q);
    BackpropOn(grown, visited, rp, outcome, |path|);
    BumpWhole(grown[|nodes| + q], rp, |path|, outcome);
  }

  /** `StepCounts` off the path. */
  lemma StepCountsOff<G, M>(rules: Rules<G, M>, nodes: seq<EvalNode<G>>, path: seq<nat>, pick: nat, outcome: PlayerId)
    requires SelectionPath(nodes, path) && forall i :: 0 <= i < |nodes| ==> Whole(nodes[i])
    requires rules.moves(nodes[path[|path| - 1]].game) != []
    ensures var r := Stepped(rules, nodes, path, pick, outcome);
            forall i :: 0 <= i < |nodes| && (forall l :: 0 <= l < |path| ==> path[l] != i) ==>
              r[i].n == nodes[i].n && r[i].w == nodes[i].w
  {
    var leaf := path[|path| - 1];
    var moves := rules.moves(nodes[leaf].game);
    var q: nat := pick % |moves|;
    var grown := Grown(rules, nodes, leaf, moves, |moves|);
    var visited: seq<nat> := path + [|nodes| + q];
    var rp := rules.player(nodes[0].game);
    VisitedPath(path, |nodes|, q);
    var r := Backprop(grown, visited, rp, outcome, |visited|);
    forall i | 0 <= i < |nodes| && (forall l :: 0 <= l < |path| ==> path[l] != i)
      ensures r[i].n == nodes[i].n && r[i].w == nodes[i].w
    {
      assert forall l :: 0 <= l < |visited| ==> visited[l] != i;
      GrownKeeps(rules, nodes, leaf, moves, i);
      BackpropOff(grown, visited, rp, outcome, i);
    }
  }

  /** The visited path followed by the simulated child, a node appended after the old arena. */
  lemma VisitedPath(path: seq<nat>, size: nat, q: nat)
    requires forall l :: 0 <= l < |path| ==> path[l] < size
    requires forall l, m :: 0 <= l < m < |path| ==> path[l] < path[m]
    ensures var visited := path + [size + q];
            && |visited| == |path| + 1 && visited[|path|] == size + q
            && (forall l :: 0 <= l < |path| ==> visited[l] == path[l])
            && (forall l, m :: 0 <= l < m < |visited| ==> visited[l] < visited[m])
  {
  }

  /**
   * Backpropagation along a path without repetition: each visited node
   * gains one simulation and 1 win exactly when the playout's winner is the
   * player counted at its depth; other nodes keep their counts.
   */
  lemma BackpropCounts<G>(nodes: seq<EvalNode<G>>, path: seq<nat>, rootPlayer: PlayerId, outcome: PlayerId)
    requires forall l :: 0 <= l < |path| ==> path[l] < |nodes|
    requires forall l, m :: 0 <= l < m < |path| ==> path[l] < path[m]
    requires forall i :: 0 <= i < |nodes| ==> Whole(nodes[i])
    ensures var r := Backprop(nodes, path, rootPlayer, outcome, |path|);
            && (forall l :: 0 <= l < |path| ==>
                  r[path[l]].n == nodes[path[l]].n + 1
                  && r[path[l]].w == nodes[path[l]].w + Won(outcome, Counted(rootPlayer, l)))
            && (forall i :: 0 <= i < |nodes| && (forall l :: 0 <= l < |path| ==> path[l] != i) ==>
                  r[i] == nodes[i])
  {
    BackpropShape(nodes, path, rootPlayer, outcome, |path|);
    forall l | 0 <= l < |path|
      ensures Backprop(nodes, path, rootPlayer, outcome, |path|)[path[l]].n == nodes[path[l]].n + 1
      ensures Backprop(nodes, path, rootPlayer, outcome, |path|)[path[l]].w == nodes[path[l]].w + Won(outcome, Counted(rootPlayer, l))
    {
      BumpWhole(nodes[path[l]], rootPlayer, l, outcome);
    }
  }

  /** A visited node's ratio is below 1 exactly when it has lost some simulation. */
  lemma RatioBelowOne<G>(node: EvalNode<G>)
    requires Whole(node)
    ensures (Ratio(node).Some? && Ratio(node).value < 1.0) <==> (node.n != 0 && node.w < node.n as real)
  {
    if node.n != 0 {
      var q := node.w / node.n as real;
      assert q * node.n as real == node.w;
    }
  }

  /** With one root child, `getBestMove` plays the root's only move. */
  lemma BestMoveSingle<G, M>(rules: Rules<G, M>, nodes: seq<EvalNode<G>>)
    requires Arena(nodes) && Expanded(rules, nodes, 0)
    requires |nodes[0].children| == 1
    ensures |rules.moves(nodes[0].game)| == 1
    ensures BestMove(rules, nodes) == Some(rules.moves(nodes[0].game)[0])
  {
  }

  /**
   * With any other number of root children, `getBestMove` finds a move
   * exactly when some visited child has lost some simulation, and that move
   * is the one of the first child of smallest ratio: no visited child has a
   * smaller ratio, every earlier visited child a larger one.
   */
  lemma BestMoveLeast<G, M>(rules: Rules<G, M>, nodes: seq<EvalNode<G>>)
    requires Arena(nodes) && Expanded(rules, nodes, 0)
    requires forall i :: 0 <= i < |nodes| ==> Whole(nodes[i])
    requires |nodes[0].children| != 1
    ensures var kids := nodes[0].children;
            BestMove(rules, nodes).Some? <==>
              exists k :: 0 <= k < |kids| && nodes[kids[k]].n != 0 && nodes[kids[k]].w < nodes[kids[k]].n as real
    ensures var kids := nodes[0].children;
            var moves := rules.moves(nodes[0].game);
            BestMove(rules, nodes).Some? ==>
              exists k :: 0 <= k < |kids| && BestMove(rules, nodes) == Some(moves[k])
                && Ratio(nodes[kids[k]]).Some? && Ratio(nodes[kids[k]]).value < 1.0
                && (forall j :: 0 <= j < |kids| && Ratio(nodes[kids[j]]).Some? ==>
                      Ratio(nodes[kids[k]]).value <= Ratio(nodes[kids[j]]).value)
                && (forall j :: 0 <= j < k && Ratio(nodes[kids[j]]).Some? ==>
                      Ratio(nodes[kids[k]]).value < Ratio(nodes[kids[j]]).value)
  {
    var kids := nodes[0].children;
    var s := Ratios(nodes, kids);
    var r := ScanMin(s, |kids|, -1, 1.0);
    ScanMinSpec(s, |kids|, -1, 1.0);
    forall k | 0 <= k < |kids|
      ensures (s[k].Some? && s[k].value < 1.0) <==> (nodes[kids[k]].n != 0 && nodes[kids[k]].w < nodes[kids[k]].n as real)
    {
      RatioBelowOne(nodes[kids[k]]);
    }
    if r.0 >= 0 {
      assert s[r.0].Some? && s[r.0].value < 1.0;
    }
  }
}
