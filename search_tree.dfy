/**
 * What the two search engines share: the evaluation node, its `score` and
 * `uct` values, `updateStats`, and the running-best scans their selection
 * loops perform.  A tree is held in an arena: node `i` of a sequence, its
 * children listed as indices into the same sequence, the root at index 0.
 */
module SearchTree {
  import opened Game
  import opened Rollout

  /** An evaluation node: simulations `n`, wins `w`, its game state and its children (arena indices). */
  datatype EvalNode<G> = EvalNode(n: int, w: real, game: G, children: seq<nat>)

  /** The `EvalNode` constructor: no simulation, no win, no child. */
  function NewNode<G>(game: G): (node: EvalNode<G>)
    ensures node.n == 0 && node.w == 0.0 && node.game == game && node.children == []
  {
    EvalNode(0, 0.0, game, [])
  }

  /** What one `evaluateTreeOnce` step did: whether the search can stop, and the new arena and simulation count. */
  datatype Evaluation<G> = Evaluation(stop: bool, nodes: seq<EvalNode<G>>, nTotal: int)

  /** `Integer.MAX_VALUE`, the value of an unvisited node. */
  const IntMax: real := 2147483647.0

  /** `score`: the estimated probability of a win, or `IntMax` for an unvisited node. */
  function Score<G>(node: EvalNode<G>): (r: real)
    ensures node.n == 0 ==> r == IntMax
    ensures node.n > 0 && 0.0 <= node.w <= node.n as real ==> 0.0 <= r <= 1.0
  {
    if node.n == 0 then IntMax else node.w / node.n as real
  }

  /**
   * `uct`: `IntMax` for an unvisited node, otherwise the win rate plus the
   * exploration term `explore(n, nTotal)` (`1.4142 * sqrt(log(nTotal) / n)`
   * in the source).
   */
  function Uct<G>(node: EvalNode<G>, nTotal: int, explore: (int, int) -> real): (r: real)
    ensures node.n == 0 ==> r == IntMax
    ensures node.n != 0 ==> r == Score(node) + explore(node.n, nTotal)
  {
    if node.n == 0 then IntMax else node.w / node.n as real + explore(node.n, nTotal)
  }

  /** `updateStats`: the node takes the simulation count and its player's wins from `res`. */
  function UpdatedStats<G, M>(rules: Rules<G, M>, node: EvalNode<G>, res: RolloutResults): (r: EvalNode<G>)
    reads res
    ensures r.game == node.game && r.children == node.children
    ensures r.n == res.n
    ensures r.w == res.NbWins(rules.player(node.game))
    ensures res.Balanced() ==> 0.0 <= r.w <= r.n as real
    ensures rules.player(node.game) == Nobody ==> r.w == 0.0
  {
    node.(n := res.NbSimulations(), w := res.NbWins(rules.player(node.game)))
  }

  /** Java's `(int)` cast of a double: truncation toward zero. */
  function Trunc(x: real): (r: int)
    ensures x >= 0.0 ==> r as real <= x < r as real + 1.0
    ensures x < 0.0 ==> r as real - 1.0 < x <= r as real
  {
    if x >= 0.0 then x.Floor else -((-x).Floor)
  }

  // ---------------------------------------------------------------------------
  // Running-best scans
  // ---------------------------------------------------------------------------

  /**
   * A scan for the largest value over the first `k` entries of `s`, starting
   * from index `idx0` and value `best0` and moving to an entry only when it is
   * strictly greater (see `ScanMaxSpec`).
   */
  function ScanMax(s: seq<real>, k: nat, idx0: int, best0: real): (r: (int, real))
    requires k <= |s|
    ensures r.0 == idx0 || 0 <= r.0 < k
    decreases k
  {
    if k == 0 then (idx0, best0)
    else
      var prev := ScanMax(s, k - 1, idx0, best0);
      if prev.1 < s[k - 1] then (k - 1, s[k - 1]) else prev
  }

  /**
   * The result of `ScanMax` is `(idx0, best0)` when no entry beats `best0`,
   * otherwise the first index of the maximum with that maximum.
   */
  lemma {:induction false} ScanMaxSpec(s: seq<real>, k: nat, idx0: int, best0: real)
    requires k <= |s|
    ensures var r := ScanMax(s, k, idx0, best0);
            && best0 <= r.1
            && (forall j :: 0 <= j < k ==> s[j] <= r.1)
            && ((forall j :: 0 <= j < k ==> s[j] <= best0) ==> r == (idx0, best0))
            && ((exists j :: 0 <= j < k && s[j] > best0) ==>
                  0 <= r.0 < k && s[r.0] == r.1 && best0 < r.1 && forall j :: 0 <= j < r.0 ==> s[j] < r.1)
    decreases k
  {
    if k > 0 {
      ScanMaxSpec(s, k - 1, idx0, best0);
    }
  }

  /**
   * A scan for the smallest value below `best0`, moving only on a strictly
   * smaller entry and skipping the entries that are `None` (a comparison
   * with NaN is false): `(idx0, best0)` when no entry is below `best0`,
   * otherwise the first index of the minimum.
   */
  function ScanMin(s: seq<Option<real>>, k: nat, idx0: int, best0: real): (r: (int, real))
    requires k <= |s|
    ensures r.0 == idx0 || 0 <= r.0 < k
    decreases k
  {
    if k == 0 then (idx0, best0)
    else
      var prev := ScanMin(s, k - 1, idx0, best0);
      if s[k - 1].Some? && s[k - 1].value < prev.1 then (k - 1, s[k - 1].value) else prev
  }

  /**
   * `ScanMin` finds the minimum of the present entries when one is below
   * `best0`, at its first index; otherwise it keeps `(idx0, best0)`.
   */
  lemma {:induction false} ScanMinSpec(s: seq<Option<real>>, k: nat, idx0: int, best0: real)
    requires k <= |s|
    ensures var r := ScanMin(s, k, idx0, best0);
            && r.1 <= best0
            && (forall j :: 0 <= j < k && s[j].Some? ==> r.1 <= s[j].value)
            && ((forall j :: 0 <= j < k && s[j].Some? ==> best0 <= s[j].value) ==> r == (idx0, best0))
            && ((exists j :: 0 <= j < k && s[j].Some? && s[j].value < best0) ==>
                  0 <= r.0 < k && s[r.0] == Some(r.1) && r.1 < best0
                  && forall j :: 0 <= j < r.0 && s[j].Some? ==> r.1 < s[j].value)
    decreases k
  {
    if k > 0 {
      ScanMinSpec(s, k - 1, idx0, best0);
    }
  }

  /**
   * A scan for the smallest value that moves on every entry at most the
   * current best (`<=`): `(idx0, best0)` when every entry is above `best0`,
   * otherwise the last index of the minimum.
   */
  function ScanMinLast(s: seq<real>, k: nat, idx0: int, best0: real): (r: (int, real))
    requires k <= |s|
    ensures r.0 == idx0 || 0 <= r.0 < k
    decreases k
  {
    if k == 0 then (idx0, best0)
    else
      var prev := ScanMinLast(s, k - 1, idx0, best0);
      if s[k - 1] <= prev.1 then (k - 1, s[k - 1]) else prev
  }

  /**
   * `ScanMinLast` finds the minimum when one entry is at most `best0`, at its
   * last index; otherwise it keeps `(idx0, best0)`.
   */
  lemma {:induction false} ScanMinLastSpec(s: seq<real>, k: nat, idx0: int, best0: real)
    requires k <= |s|
    ensures var r := ScanMinLast(s, k, idx0, best0);
            && r.1 <= best0
            && (forall j :: 0 <= j < k ==> r.1 <= s[j])
            && ((forall j :: 0 <= j < k ==> best0 < s[j]) ==> r == (idx0, best0))
            && ((exists j :: 0 <= j < k && s[j] <= best0) ==>
                  0 <= r.0 < k && s[r.0] == r.1 && forall j :: r.0 < j < k ==> r.1 < s[j])
    decreases k
  {
    if k > 0 {
      ScanMinLastSpec(s, k - 1, idx0, best0);
    }
  }

  // ---------------------------------------------------------------------------
  // Arenas
  // ---------------------------------------------------------------------------

  /** Every child comes after its parent in the arena, so a path down the tree never revisits a node. */
  ghost predicate Ordered<G>(nodes: seq<EvalNode<G>>)
  {
    forall i, k :: 0 <= i < |nodes| && 0 <= k < |nodes[i].children| ==> i < nodes[i].children[k] < |nodes|
  }

  /** A non-empty arena whose children come after their parents. */
  ghost predicate Arena<G>(nodes: seq<EvalNode<G>>)
  {
    |nodes| >= 1 && Ordered(nodes)
  }

  /** The UCT values of the children of node `i`, in order. */
  function ChildUcts<G>(nodes: seq<EvalNode<G>>, i: nat, nTotal: int, explore: (int, int) -> real): (r: seq<real>)
    requires i < |nodes| && forall k :: 0 <= k < |nodes[i].children| ==> nodes[i].children[k] < |nodes|
    ensures |r| == |nodes[i].children|
    ensures forall k :: 0 <= k < |r| ==> r[k] == Uct(nodes[nodes[i].children[k]], nTotal, explore)
  {
    seq(|nodes[i].children|, k requires 0 <= k < |nodes[i].children| => Uct(nodes[nodes[i].children[k]], nTotal, explore))
  }

  /**
   * An unvisited child is worth `IntMax`, so when every visited child's UCT
   * value is below it, the UCT scan from 0 picks the first unvisited child.
   */
  lemma UnvisitedFirst(s: seq<real>, u: nat)
    requires u < |s| && s[u] == IntMax
    requires forall j :: 0 <= j < |s| ==> s[j] <= IntMax
    requires forall j :: 0 <= j < u ==> s[j] < IntMax
    ensures ScanMax(s, |s|, 0, 0.0).0 == u
  {
    var r := ScanMax(s, |s|, 0, 0.0);
    ScanMaxSpec(s, |s|, 0, 0.0);
    assert s[u] > 0.0;
    assert r.1 == IntMax;
  }
}
