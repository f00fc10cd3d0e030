/** The statistics side of the Monte-Carlo tree search: per-move visit and
    reward counters, the virtual loss taken on the way down and paid back on
    the way up, the selection loop of one playout, and the principal
    variation read off the finished tree.

    The engine updates the counters with relaxed atomics from many threads;
    here every operation is one sequential step on immutable values. */
module SearchTree {
  import opened Chess
  import opened Wrappers
  import opened Evaluations

  /** No playout pushes more moves than this. */
  const MAX_PLAYOUT_LENGTH: nat := 256

  /** `usize` arithmetic wraps modulo this in an optimised build. */
  const USIZE_MODULUS: nat := 0x1_0000_0000_0000_0000

  /** The reward a thread provisionally charges to a move it is exploring,
      so that other threads prefer other moves meanwhile. */
  function VirtualLoss(scale: Scale): (r: int)
    ensures r > 0 && r == FlagValue(TerminalWin, 0, scale)
  {
    scale
  }

  /** Stand-in for a move of the chess library. */
  type MoveId = nat
  /** Stand-in for the address of a search node. */
  type NodeId = nat

  /** The counters of one move at one node: summed rewards, visits, prior
      policy, the move itself and the link to the child node (None is the
      null pointer). */
  datatype HotMoveInfo = HotMoveInfo(
    sumEvaluations: int,
    visits: nat,
    policy: real,
    mov: MoveId,
    child: Option<NodeId>)
  {
    /** Entering the move: one more visit, charged a virtual loss. */
    function Down(scale: Scale): (r: HotMoveInfo)
      ensures r.visits == visits + 1
      ensures r.sumEvaluations == sumEvaluations - VirtualLoss(scale)
      ensures r.policy == policy && r.mov == mov && r.child == child
    {
      this.(sumEvaluations := sumEvaluations - VirtualLoss(scale), visits := visits + 1)
    }

    /** Backing up a reward: the reward, plus the virtual loss refunded. */
    function Up(evaln: int, scale: Scale): (r: HotMoveInfo)
      ensures r.visits == visits
      ensures r.sumEvaluations == sumEvaluations + evaln + VirtualLoss(scale)
      ensures r.policy == policy && r.mov == mov && r.child == child
    {
      this.(sumEvaluations := sumEvaluations + (evaln + VirtualLoss(scale)))
    }

    /** Takes over the counters of `other` (a transposition's statistics);
        the move, its policy and the child link stay. */
    function Replace(other: HotMoveInfo): (r: HotMoveInfo)
      ensures r.visits == other.visits && r.sumEvaluations == other.sumEvaluations
      ensures r.policy == policy && r.mov == mov && r.child == child
    {
      this.(visits := other.visits, sumEvaluations := other.sumEvaluations)
    }
  }

  /** The virtual loss cancels exactly: down then up is one visit and the
      reward, nothing else. */
  lemma DownThenUp(h: HotMoveInfo, evaln: int, scale: Scale)
    ensures h.Down(scale).Up(evaln, scale)
         == h.(visits := h.visits + 1, sumEvaluations := h.sumEvaluations + evaln)
  {
  }

  /** Replacing keeps the identity of the move and makes its statistics
      indistinguishable from the source's; doing it twice changes nothing
      more. */
  lemma ReplaceIdempotent(h: HotMoveInfo, other: HotMoveInfo)
    ensures h.Replace(other).Replace(other) == h.Replace(other)
    ensures h.Replace(h) == h
  {
  }

  /** A node: the moves from it and its classification. */
  datatype SearchNode = SearchNode(hots: seq<HotMoveInfo>, flag: Flag)

  /** Overwrites the policy of the first `min(|hots|, |evals|)` moves. */
  method UpdatePolicy(node: SearchNode, evals: seq<real>) returns (r: SearchNode)
    ensures r.flag == node.flag && |r.hots| == |node.hots|
    ensures forall i :: 0 <= i < |node.hots| && i < |evals| ==> r.hots[i] == node.hots[i].(policy := evals[i])
    ensures forall i :: |evals| <= i < |node.hots| ==> r.hots[i] == node.hots[i]
  {
    var hots := node.hots;
    var n := if |hots| < |evals| then |hots| else |evals|;
    var i := 0;
    while i < n
      invariant 0 <= i <= n
      invariant |hots| == |node.hots|
      invariant forall j :: 0 <= j < i ==> hots[j] == node.hots[j].(policy := evals[j])
      invariant forall j :: i <= j < |hots| ==> hots[j] == node.hots[j]
    {
      hots := hots[i := hots[i].(policy := evals[i])];
      i := i + 1;
    }
    r := node.(hots := hots);
  }

  /** Unlinks every child, leaving the counters alone. */
  method ClearChildrenLinks(node: SearchNode) returns (r: SearchNode)
    ensures r.flag == node.flag && |r.hots| == |node.hots|
    ensures forall i :: 0 <= i < |node.hots| ==> r.hots[i] == node.hots[i].(child := None)
  {
    var hots := node.hots;
    var i := 0;
    while i < |hots|
      invariant 0 <= i <= |hots|
      invariant |hots| == |node.hots|
      invariant forall j :: 0 <= j < i ==> hots[j] == node.hots[j].(child := None)
      invariant forall j :: i <= j < |hots| ==> hots[j] == node.hots[j]
    {
      hots := hots[i := hots[i].(child := None)];
      i := i + 1;
    }
    r := node.(hots := hots);
  }

  // ---------------------------------------------------------------------
  // Backpropagation

  /** `(-1)^k * e`. */
  function Alternating(k: nat, e: int): (r: int)
    ensures r == e || r == -e
  {
    if k % 2 == 0 then e else -e
  }

  /** `finish_playout`: walks the path from its end, backing up `evaln`
      into the last move, `-evaln` into the one before, and so on. */
  function FinishPlayout(path: seq<HotMoveInfo>, evaln: int, scale: Scale): (r: seq<HotMoveInfo>)
    ensures |r| == |path|
    decreases |path|
  {
    if |path| == 0 then []
    else FinishPlayout(path[..|path| - 1], -evaln, scale) + [path[|path| - 1].Up(evaln, scale)]
  }

  /** The entry `k` places from the end of the path is backed up with
      `(-1)^k * evaln`. */
  lemma {:induction false} FinishPlayoutAt(path: seq<HotMoveInfo>, evaln: int, scale: Scale, i: nat)
    requires i < |path|
    ensures FinishPlayout(path, evaln, scale)[i] == path[i].Up(Alternating(|path| - 1 - i, evaln), scale)
    decreases |path|
  {
    var init := path[..|path| - 1];
    if i < |init| {
      FinishPlayoutAt(init, -evaln, scale, i);
      assert Alternating(|init| - 1 - i, -evaln) == Alternating(|path| - 1 - i, evaln);
    }
  }

  /** Every move on a path taken down. */
  function DownAll(path: seq<HotMoveInfo>, scale: Scale): (r: seq<HotMoveInfo>)
    ensures |r| == |path|
    ensures forall i :: 0 <= i < |path| ==> r[i] == path[i].Down(scale)
  {
    seq(|path|, i requires 0 <= i < |path| => path[i].Down(scale))
  }

  /** After a completed playout each move on the path has one more visit
      and the reward with the sign of its mover; no virtual loss remains. */
  lemma PlayoutNetEffect(path: seq<HotMoveInfo>, evaln: int, scale: Scale, i: nat)
    requires i < |path|
    ensures FinishPlayout(DownAll(path, scale), evaln, scale)[i]
         == path[i].(visits := path[i].visits + 1,
                     sumEvaluations := path[i].sumEvaluations + Alternating(|path| - 1 - i, evaln))
  {
    FinishPlayoutAt(DownAll(path, scale), evaln, scale, i);
    DownThenUp(path[i], Alternating(|path| - 1 - i, evaln), scale);
  }

  /** Consecutive moves on the path receive opposite rewards. */
  lemma FinishPlayoutAlternates(path: seq<HotMoveInfo>, evaln: int, scale: Scale, i: nat)
    requires i + 1 < |path|
    ensures FinishPlayout(path, evaln, scale)[i].sumEvaluations - path[i].sumEvaluations
         == 2 * VirtualLoss(scale)
            - (FinishPlayout(path, evaln, scale)[i + 1].sumEvaluations - path[i + 1].sumEvaluations)
  {
    FinishPlayoutAt(path, evaln, scale, i);
    FinishPlayoutAt(path, evaln, scale, i + 1);
  }

  // ---------------------------------------------------------------------
  // The value at the end of a playout

  /** The reward a node's flag fixes, from White's point of view;
      `Standard` keeps the network's value. */
  function FlagValue(flag: Flag, evaln: int, scale: Scale): (r: int)
    ensures flag != Standard ==> -(scale as int) <= r <= scale
    ensures flag == Standard ==> r == evaln
  {
    match flag
    case TerminalWin => scale
    case TablebaseWin => scale
    case TerminalLoss => -(scale as int)
    case TablebaseLoss => -(scale as int)
    case TerminalDraw => 0
    case TablebaseDraw => 0
    case Standard => evaln
  }

  /** A decided result scores the same whether the rules or the tablebase
      decided it, and a win and a loss score opposite. */
  lemma FlagValueSymmetric(evaln: int, scale: Scale)
    ensures FlagValue(TerminalWin, evaln, scale) == FlagValue(TablebaseWin, evaln, scale) == scale
    ensures FlagValue(TerminalLoss, evaln, scale) == FlagValue(TablebaseLoss, evaln, scale)
         == -FlagValue(TerminalWin, evaln, scale)
    ensures FlagValue(TerminalDraw, evaln, scale) == FlagValue(TablebaseDraw, evaln, scale) == 0
  {
  }

  /** The side to move after `plies` moves from the root. */
  function SideAfter(root: Color, plies: nat): (c: Color)
    ensures c == root <==> plies % 2 == 0
  {
    if plies % 2 == 0 then root else root.Other()
  }

  /** The value backed up into the last move of the path: the flag's
      value, negated when White is to move after the path (the last move
      was Black's). */
  function LeafValue(flag: Flag, evaln: int, stmAfter: Color, scale: Scale): (r: int)
    ensures r == FlagValue(flag, evaln, scale) || r == -FlagValue(flag, evaln, scale)
    ensures stmAfter == Black ==> r == FlagValue(flag, evaln, scale)
    ensures stmAfter == White ==> r == -FlagValue(flag, evaln, scale)
  {
    var v := FlagValue(flag, evaln, scale);
    if stmAfter == White then -v else v
  }

  /** The two sides see opposite leaf values. */
  lemma LeafValueSides(flag: Flag, evaln: int, scale: Scale)
    ensures LeafValue(flag, evaln, White, scale) == -LeafValue(flag, evaln, Black, scale)
  {
  }

  // ---------------------------------------------------------------------
  // One playout

  /** What the selection loop sees at the node it stands on, and what it
      learns from the move the tree policy picks there. The tree policy,
      the board and the transposition table are outside the model; a
      playout is driven by a trace of these. */
  datatype Step = Step(
    flag: Flag,            // the node's classification
    hasMoves: bool,        // the node has at least one move
    atReset: bool,         // the position's halfmove clock is zero
    choice: HotMoveInfo,   // the counters of the chosen move, before `down`
    leafValue: int,        // evaluation of the position after the move, used on a first visit
    arenaFull: bool)       // creating the child ran out of arena memory

  /** The four ways the loop stops at a node before choosing a move. */
  predicate StopsAt(s: Step, depth: nat)
    // the length bound always stops the loop; an undecided node with moves
    // below the bound never does
    ensures depth >= MAX_PLAYOUT_LENGTH ==> StopsAt(s, depth)
    ensures s.flag == Standard && s.hasMoves && depth < MAX_PLAYOUT_LENGTH ==> !StopsAt(s, depth)
  {
    || s.flag.IsTerminal()
    || !s.hasMoves
    || (s.flag.IsTablebase() && s.atReset)
    || depth >= MAX_PLAYOUT_LENGTH
  }

  /** The loop goes on past a node: it chose a move that had been visited
      before and could descend into it. */
  predicate PassesThrough(s: Step, depth: nat)
  {
    !StopsAt(s, depth) && s.choice.visits > 0 && !s.arenaFull
  }

  datatype Stop =
    | AtNode       // one of the four tests at a node
    | FirstVisit   // the chosen move had never been visited: evaluate and stop
    | OutOfMemory  // descending failed with a full arena

  /** The selection loop from `depth` on: how many moves end up on the
      path, and why the loop stopped. */
  function Select(steps: seq<Step>, depth: nat): (r: (nat, Stop))
    requires depth <= MAX_PLAYOUT_LENGTH < |steps|
    ensures depth <= r.0 <= MAX_PLAYOUT_LENGTH
    ensures r.1 == AtNode ==> StopsAt(steps[r.0], r.0)
    ensures r.1 != AtNode ==> depth < r.0 && !StopsAt(steps[r.0 - 1], r.0 - 1)
    ensures r.1 == FirstVisit ==> steps[r.0 - 1].choice.visits == 0
    ensures r.1 == OutOfMemory ==> steps[r.0 - 1].choice.visits > 0 && steps[r.0 - 1].arenaFull
    ensures forall k {:trigger PassesThrough(steps[k], k)} :: depth <= k < r.0 && (r.1 == AtNode || k < r.0 - 1) ==> PassesThrough(steps[k], k)
    decreases MAX_PLAYOUT_LENGTH - depth
  {
    if StopsAt(steps[depth], depth) then (depth, AtNode)
    else if steps[depth].choice.visits == 0 then (depth + 1, FirstVisit)
    else if steps[depth].arenaFull then (depth + 1, OutOfMemory)
    else Select(steps, depth + 1)
  }

  /** The counters of the moves the loop chose, in path order. */
  function Choices(steps: seq<Step>, n: nat): (r: seq<HotMoveInfo>)
    requires n <= |steps|
    ensures |r| == n
    ensures forall i :: 0 <= i < n ==> r[i] == steps[i].choice
  {
    seq(n, i requires 0 <= i < n => steps[i].choice)
  }

  /** What a playout leaves behind: the updated counters of the path's
      moves, why selection stopped, and the value backed up. */
  datatype PlayoutResult = PlayoutResult(path: seq<HotMoveInfo>, stop: Stop, value: int)

  /** `playout`: select, fix the leaf value from the flag of the node the
      loop stopped at (a first visit stops at an unexpanded `Standard`
      node and uses the fresh evaluation), orient it for the player who
      made the last move, and back it up. When the arena is full the
      playout returns before backing up, so the virtual losses stay. */
  function Playout(steps: seq<Step>, rootStm: Color, scale: Scale): (r: PlayoutResult)
    requires MAX_PLAYOUT_LENGTH < |steps|
    ensures (|r.path|, r.stop) == Select(steps, 0)
    ensures |r.path| <= MAX_PLAYOUT_LENGTH
    ensures r.stop == AtNode ==> StopsAt(steps[|r.path|], |r.path|)
    ensures forall k {:trigger PassesThrough(steps[k], k)} :: 0 <= k < |r.path| - 1 ==> PassesThrough(steps[k], k)
  {
    var selected := Select(steps, 0);
    Backup(steps, selected.0, selected.1, rootStm, scale)
  }

  /** What follows selection once it stopped with `n` moves pushed: the
      moves are taken down, and unless the arena ran out the leaf value is
      backed up along them. */
  function Backup(steps: seq<Step>, n: nat, stop: Stop, rootStm: Color, scale: Scale): (r: PlayoutResult)
    requires n < |steps| && (stop == FirstVisit ==> n > 0)
    ensures |r.path| == n && r.stop == stop
  {
    var pushed := DownAll(Choices(steps, n), scale);
    if stop == OutOfMemory then
      PlayoutResult(pushed, stop, 0)
    else
      var value := LeafOf(steps, n, stop, rootStm, scale);
      PlayoutResult(FinishPlayout(pushed, value, scale), stop, value)
  }

  /** The value backed up after selection stopped with `n` moves pushed: a
      first visit stops at an unexpanded `Standard` node and uses the fresh
      evaluation; otherwise the flag of the node the loop stands on decides
      (and a `Standard` node there leaves the initial 0). */
  function LeafOf(steps: seq<Step>, n: nat, stop: Stop, rootStm: Color, scale: Scale): (v: int)
    requires n < |steps| && (stop == FirstVisit ==> n > 0)
    ensures stop == FirstVisit ==>
      v == LeafValue(Standard, steps[n - 1].leafValue, SideAfter(rootStm, n), scale)
    ensures stop != FirstVisit && steps[n].flag != Standard ==> -(scale as int) <= v <= scale
    ensures stop != FirstVisit && steps[n].flag == Standard ==> v == 0
  {
    var flag := if stop == FirstVisit then Standard else steps[n].flag;
    var evaln := if stop == FirstVisit then steps[n - 1].leafValue else 0;
    LeafValue(flag, evaln, SideAfter(rootStm, n), scale)
  }

  /** Whatever selection chose, a backup that is not cut short leaves every
      chosen move with one more visit and the backed-up value with its
      mover's sign: the virtual losses are all refunded. */
  lemma BackupCompleted(steps: seq<Step>, n: nat, stop: Stop, rootStm: Color, scale: Scale, i: nat)
    requires n < |steps| && (stop == FirstVisit ==> n > 0)
    requires stop != OutOfMemory && i < n
    ensures Backup(steps, n, stop, rootStm, scale).path[i]
         == steps[i].choice.(visits := steps[i].choice.visits + 1,
                             sumEvaluations := steps[i].choice.sumEvaluations
                               + Alternating(n - 1 - i, Backup(steps, n, stop, rootStm, scale).value))
  {
    ChosenNetEffect(steps, n, LeafOf(steps, n, stop, rootStm, scale), scale, i);
  }

  /** `PlayoutNetEffect` for the first `n` moves chosen along a trace. */
  lemma ChosenNetEffect(steps: seq<Step>, n: nat, evaln: int, scale: Scale, i: nat)
    requires n <= |steps| && i < n
    ensures FinishPlayout(DownAll(Choices(steps, n), scale), evaln, scale)[i]
         == steps[i].choice.(visits := steps[i].choice.visits + 1,
                             sumEvaluations := steps[i].choice.sumEvaluations + Alternating(n - 1 - i, evaln))
  {
    PlayoutNetEffect(Choices(steps, n), evaln, scale, i);
  }

  /** A playout cut short by a full arena backs nothing up: every move on
      its path keeps the extra visit and the virtual loss. */
  lemma PlayoutAbandoned(steps: seq<Step>, rootStm: Color, scale: Scale, i: nat)
    requires MAX_PLAYOUT_LENGTH < |steps| && Select(steps, 0).1 == OutOfMemory
    ensures |Playout(steps, rootStm, scale).path| > 0
    ensures i < |Playout(steps, rootStm, scale).path| ==>
      Playout(steps, rootStm, scale).path[i]
        == steps[i].choice.(visits := steps[i].choice.visits + 1,
                            sumEvaluations := steps[i].choice.sumEvaluations - VirtualLoss(scale))
  {
  }

  /** The leaf value of a playout that stopped at a decided node is the
      decided result, with the sign of the player who made the last move. */
  lemma PlayoutDecidedValue(steps: seq<Step>, rootStm: Color, scale: Scale)
    requires MAX_PLAYOUT_LENGTH < |steps|
    ensures var r := Playout(steps, rootStm, scale);
            r.stop == AtNode && steps[|r.path|].flag != Standard ==>
              r.value == LeafValue(steps[|r.path|].flag, 0, SideAfter(rootStm, |r.path|), scale)
              && -(scale as int) <= r.value <= scale
  {
  }

  /** The statistics depth as the engine computes it, `path.len() - 1` on
      `usize`, wrapping in an optimised build. */
  function DepthAsWritten(pathLen: nat): (d: nat)
    requires pathLen < USIZE_MODULUS
    ensures pathLen > 0 ==> d == pathLen - 1
    ensures pathLen == 0 ==> d == USIZE_MODULUS - 1
  {
    (pathLen - 1) % USIZE_MODULUS
  }

  /** When the root itself stops the loop (a finished game, say) the path
      is empty and the depth wraps to `usize::MAX`. */
  lemma DepthAsWrittenWraps(steps: seq<Step>, rootStm: Color, scale: Scale)
    requires MAX_PLAYOUT_LENGTH < |steps| && steps[0].flag.IsTerminal()
    ensures |Playout(steps, rootStm, scale).path| == 0
    ensures DepthAsWritten(|Playout(steps, rootStm, scale).path|) == USIZE_MODULUS - 1
    ensures DepthAsWritten(|Playout(steps, rootStm, scale).path|) > MAX_PLAYOUT_LENGTH
  {
  }

  /** The depth the statistics mean: moves below the root's first move,
      never negative. */
  function Depth(pathLen: nat): (d: nat)
    ensures pathLen > 0 ==> d + 1 == pathLen
    ensures pathLen == 0 ==> d == 0
  {
    if pathLen == 0 then 0 else pathLen - 1
  }

  /** Every playout reports a depth below the playout length bound. */
  lemma DepthBounded(steps: seq<Step>, rootStm: Color, scale: Scale)
    requires MAX_PLAYOUT_LENGTH < |steps|
    ensures Depth(|Playout(steps, rootStm, scale).path|) < MAX_PLAYOUT_LENGTH
  {
  }

  // ---------------------------------------------------------------------
  // Choosing the best move after the search

  /** `k` is the first child of maximal reward. */
  predicate IsFirstBest(children: seq<HotMoveInfo>, k: nat, reward: HotMoveInfo -> int)
  {
    && k < |children|
    && (forall j :: 0 <= j < |children| ==> reward(children[j]) <= reward(children[k]))
    && (forall j :: 0 <= j < k ==> reward(children[j]) < reward(children[k]))
  }

  /** `select_child_after_search` with the reward abstracted: a strict
      comparison, so ties go to the earlier child. Indexing the first child
      of an empty slice panics in the engine, hence the precondition. */
  method SelectChildAfterSearch(children: seq<HotMoveInfo>, reward: HotMoveInfo -> int) returns (best: nat)
    requires |children| > 0
    ensures IsFirstBest(children, best, reward)
  {
    best := 0;
    var bestReward := reward(children[0]);
    var i := 1;
    while i < |children|
      invariant 1 <= i <= |children|
      invariant best < i && bestReward == reward(children[best])
      invariant forall j :: 0 <= j < i ==> reward(children[j]) <= bestReward
      invariant forall j :: 0 <= j < best ==> reward(children[j]) < bestReward
    {
      var r := reward(children[i]);
      if r > bestReward {
        best := i;
        bestReward := r;
      }
      i := i + 1;
    }
  }

  /** The first best move is unique. */
  lemma FirstBestUnique(children: seq<HotMoveInfo>, k1: nat, k2: nat, reward: HotMoveInfo -> int)
    requires IsFirstBest(children, k1, reward) && IsFirstBest(children, k2, reward)
    ensures k1 == k2
  {
    var r1, r2 := reward(children[k1]), reward(children[k2]);
    assert r1 <= r2 && r2 <= r1;
  }

  /** The nodes reachable by address. */
  type Tree = map<NodeId, SearchNode>

  /** Every non-null child link points at a node of the tree. */
  predicate LinksClosed(tree: Tree)
  {
    forall id, i :: id in tree && 0 <= i < |tree[id].hots| && tree[id].hots[i].child.Some? ==>
      tree[id].hots[i].child.value in tree
  }

  /** A move of the principal variation: the node and the index of the
      move in it. */
  datatype Location = Location(node: NodeId, index: nat)

  /** Every move of `pv` is the first best of its node, and each move's
      child link leads to the node of the next move. */
  predicate Walk(tree: Tree, pv: seq<Location>, reward: HotMoveInfo -> int)
  {
    && (forall i :: 0 <= i < |pv| ==>
          pv[i].node in tree && IsFirstBest(tree[pv[i].node].hots, pv[i].index, reward))
    && (forall i :: 0 <= i < |pv| - 1 ==>
          && pv[i].node in tree && pv[i].index < |tree[pv[i].node].hots|
          && tree[pv[i].node].hots[pv[i].index].child == Some(pv[i + 1].node))
  }

  /** The child the last move of a non-empty walk links to. */
  function LastLink(tree: Tree, pv: seq<Location>, reward: HotMoveInfo -> int): (link: Option<NodeId>)
    requires |pv| > 0 && Walk(tree, pv, reward)
  {
    var l := pv[|pv| - 1];
    tree[l.node].hots[l.index].child
  }

  /** A walk extended by the first best move of the node its last move
      links to is still a walk. */
  lemma WalkExtend(tree: Tree, pv: seq<Location>, reward: HotMoveInfo -> int, next: Location)
    requires Walk(tree, pv, reward)
    requires next.node in tree && IsFirstBest(tree[next.node].hots, next.index, reward)
    requires |pv| > 0 ==> LastLink(tree, pv, reward) == Some(next.node)
    ensures Walk(tree, pv + [next], reward)
  {
    var ext := pv + [next];
    forall i | 0 <= i < |ext| - 1
      ensures && ext[i].node in tree && ext[i].index < |tree[ext[i].node].hots|
              && tree[ext[i].node].hots[ext[i].index].child == Some(ext[i + 1].node)
    {
      if i == |pv| - 1 {
        assert ext[i] == pv[|pv| - 1];
      }
    }
  }

  /** `principal_variation`: from the root, repeatedly take the first best
      move and follow its child link, for at most `numMoves` moves. */
  method PrincipalVariation(tree: Tree, root: NodeId, numMoves: nat, reward: HotMoveInfo -> int)
    returns (pv: seq<Location>)
    requires root in tree && LinksClosed(tree)
    ensures |pv| <= numMoves
    ensures |pv| == 0 <==> numMoves == 0 || |tree[root].hots| == 0
    ensures |pv| > 0 ==> pv[0].node == root
    ensures forall i :: 0 <= i < |pv| ==>
      pv[i].node in tree && IsFirstBest(tree[pv[i].node].hots, pv[i].index, reward)
    ensures forall i :: 0 <= i < |pv| - 1 ==>
      && pv[i].node in tree && pv[i].index < |tree[pv[i].node].hots|
      && tree[pv[i].node].hots[pv[i].index].child == Some(pv[i + 1].node)
    // short of `numMoves`, the walk stops only at a null child link or at
    // a child with no moves
    ensures 0 < |pv| < numMoves ==>
      var l := pv[|pv| - 1];
      && l.node in tree && l.index < |tree[l.node].hots|
      && (tree[l.node].hots[l.index].child.None? || |tree[tree[l.node].hots[l.index].child.value].hots| == 0)
  {
    pv := [];
    var current := root;
    while |tree[current].hots| > 0 && |pv| < numMoves
      invariant current in tree
      invariant |pv| <= numMoves
      invariant |pv| == 0 ==> current == root
      invariant |pv| > 0 ==> pv[0].node == root
      invariant Walk(tree, pv, reward)
      invariant |pv| > 0 ==> LastLink(tree, pv, reward) == Some(current)
      decreases numMoves - |pv|
    {
      var choice := SelectChildAfterSearch(tree[current].hots, reward);
      WalkExtend(tree, pv, reward, Location(current, choice));
      pv := pv + [Location(current, choice)];
      var link := tree[current].hots[choice].child;
      if link.None? {
        break;
      }
      current := link.value;
    }
  }
}
