# princhess engine core, modelled in Dafny

This project models three integer-valued parts of the princhess chess engine:

- **The NNUE value network.** Each piece maps to one input index per perspective. The white and black accumulators are updated incrementally by adding or subtracting a weight row. The output layer applies the clipped-squared activation (`screlu`), sums the weighted activations, and rescales by `400 / (255 * 64)` with truncating division.
- **The `Evaluation` value.** It is one of three variants: a network score, a tablebase verdict or a game-over verdict. It has a sign flip. A decision table picks the value of a freshly reached position: checkmate, stalemate, a tablebase answer, or the network's score. The result is turned to White's point of view.
- **Monte-Carlo search statistics.** A move's (visits, summed reward) counters take a virtual loss on the way down and get it back on the way up. One playout runs the selection loop with its 256-move bound, then turns the leaf's flag into a value and backs it up with alternating signs. The principal variation follows first-best children.

Everything is on mathematical integers, as immutable values and pure functions. The source's loops over arrays are methods with loop invariants: the output-layer sum, the policy update, the unlinking of children, the best-child choice and the principal-variation walk. The playout's selection loop is the recursive function `Select`, and the accumulator updates are recursive functions over the neurons.

Modules:

- `Wrappers` (`wrappers.dfy`): `Option`.
- `Chess` (`chess.dfy`): colours, roles and squares, numbered as the chess library numbers them, and the vertical flip.
- `NnueEval` (`nnue_eval.dfy`): the network.
- `Evaluations` (`evaluation.dfy`): `Evaluation`, `Wdl`, `Flag` and the decision table.
- `SearchTree` (`search_tree.dfy`): the search statistics.

The search's `SCALE` is defined in `src/search.rs`, which is not part of this model. It appears here as a parameter `scale` of type `Scale` (any positive integer). The network file has its own `SCALE = 400`, which is used as is. The trained weights are parameters (`NnueParams`) of the stated lengths.

`Flag` is imported into `src/search_tree.rs` but defined elsewhere. It is declared with the seven constructors used at `src/search_tree.rs:300-305`. Its `is_terminal` / `is_tablebase` are taken to select the `Terminal*` and the `Tablebase*` constructors respectively.

A playout is driven by a trace of `Step`s. Each `Step` is what the loop sees at a node (flag, whether it has moves, whether the halfmove clock is zero). It also holds what the loop learns from the move the tree policy picks there (its counters, the fresh evaluation, whether descending ran out of arena memory). The trace replaces the board, the tree policy and the transposition table. A trace of 257 steps always suffices: the loop never looks at more nodes than that.

## Model

| member | source | states |
|---|---|---|
| `Chess.FlipVertical` | src/nnue_eval.rs:103 | the flipped square keeps the file and mirrors the rank (`r / 8 == 7 - sq / 8`) |
| `Chess.FlipVerticalInvolution` | src/nnue_eval.rs:103 | flipping twice gives the original square back |
| `Chess.ColorNumber` | src/nnue_eval.rs:99 | the library numbers colours Black = 0, White = 1 |
| `Chess.RoleNumber` | src/nnue_eval.rs:98 | roles are numbered 1..6 (pawn = 1), so `piece_type - 1` is in 0..5 |
| `NnueEval.FeatureIndices` | src/nnue_eval.rs:94-106 | both indices are below 768 and lie in opposite 384-halves; White's perspective puts White pieces in the lower half; both encode the role as `(idx % 384) / 64 == role - 1`; White's index carries the square and Black's the flipped square in `idx % 64` |
| `NnueEval.FeatureIndicesDecode` | src/nnue_eval.rs:98-103 | reading White's index back gives the piece itself; reading Black's index gives the same role with the other colour on the flipped square |
| `NnueEval.FeatureIndicesInjective` | src/nnue_eval.rs:94-106 | two pieces sharing an index in either perspective are the same piece |
| `NnueEval.FeatureIndicesMirror` | src/nnue_eval.rs:99-103 | the colour-swapped, flipped piece gets the two indices exchanged |
| `NnueEval.AddToAll` | src/nnue_eval.rs:159-168 | needs `offset + SIZE <= WEIGHTS` (the slice panics otherwise); every neuron `i` becomes `input[i] + delta[offset + i]` |
| `NnueEval.SubFromAll` | src/nnue_eval.rs:171-180 | same precondition; every neuron `i` becomes `input[i] - delta[offset + i]` |
| `NnueEval.SubUndoesAdd` | src/nnue_eval.rs:159-180 | subtracting the block that was added restores the input, and so does the reverse order |
| `NnueEval.AddToAllCommutes` | src/nnue_eval.rs:159-168 | two weight blocks can be added in either order |
| `NnueEval.RowOffset` | src/nnue_eval.rs:149-153 | the row `idx * LAYER_1_SIZE` of any index below 768 lies inside the feature-weight matrix, so the slices in `update_feature` never panic |
| `NnueEval.UpdateFeature` | src/nnue_eval.rs:139-155 | activating or deactivating a piece keeps both perspectives at 768 neurons |
| `NnueEval.UpdateFeatureUndo` | src/nnue_eval.rs:139-155 | `Deactivate` undoes `Activate` for the same piece, and the other way round |
| `NnueEval.UpdateFeatureEffect` | src/nnue_eval.rs:145-150 | activation moves neuron `i` of each perspective by exactly that perspective's weight row entry |
| `NnueEval.UpdateFeatureMirror` | src/nnue_eval.rs:145-154 | activating the mirrored piece on the swapped accumulator gives the swap of activating the piece |
| `NnueEval.NewState` | src/nnue_eval.rs:110-117 | a fresh state has both perspectives equal to the feature bias |
| `NnueEval.ActivateAll` | src/nnue_eval.rs:121-133 | activating the board's pieces keeps the accumulator well formed |
| `NnueEval.ActivateAllSum` | src/nnue_eval.rs:121-133 | after activating a list of pieces, each neuron is its start value plus the sum of the pieces' weight rows for that perspective; the incremental accumulator agrees with a from-scratch sum |
| `NnueEval.ActivateAllMirror` | src/nnue_eval.rs:121-133 | activating the mirrored pieces from the swapped accumulator gives the swapped result |
| `NnueEval.ActivateAllFromScratch` | src/nnue_eval.rs:110-133 | a fresh state with every piece activated in turn equals the from-scratch accumulator: each neuron is its bias plus the sum of the pieces' weight rows for that perspective |
| `NnueEval.Screlu` | src/nnue_eval.rs:182-186 | the result is in `[0, 255*255]`; it is 0 for `x <= 0`, `x*x` on `[0, 255]` and 65025 for `x >= 255` |
| `NnueEval.ScreluMonotonic` | src/nnue_eval.rs:182-186 | the activation never decreases |
| `NnueEval.TruncDiv` | src/nnue_eval.rs:202 | Rust's signed `/`: the quotient is rounded toward zero for either sign of the dividend |
| `NnueEval.TruncDivOdd` | src/nnue_eval.rs:35 | truncating division commutes with negation (Euclidean division would not) |
| `NnueEval.ScreluFlatten` | src/nnue_eval.rs:190-203 | the two loops compute `(Σ screlu(us[i])·w[i] + Σ screlu(them[i])·w[768+i]) / 255`, truncating |
| `NnueEval.Evaluate` | src/nnue_eval.rs:29-36 | `us` is the side to move's half and `them` the other; the result is `(screlu_flatten(us, them) + output_bias) * 400` divided by `QAB = 255 * 64` and rounded toward zero: `0 <= r·QAB <= n < (r+1)·QAB` for a non-negative numerator `n`, and the mirror image for a negative one |
| `NnueEval.EvaluateZeroOutput` | src/nnue_eval.rs:29-36 | with every output weight zero the evaluation is the rescaled output bias alone, whatever the accumulator holds |
| `NnueEval.EvaluatePerspective` | src/nnue_eval.rs:29-36 | Black to move is evaluated as White to move on the accumulator with its halves exchanged: `(us, them)` is `(white, black)` for White and `(black, white)` for Black |
| `NnueEval.ScreluDotNegated` | src/nnue_eval.rs:190-203 | negating the weights negates a perspective's weighted activation sum |
| `NnueEval.FlattenNegated` | src/nnue_eval.rs:190-203 | negating the output weights negates `screlu_flatten`: the truncating `/ QA` commutes with the sign change |
| `NnueEval.EvaluateNegatedOutput` | src/nnue_eval.rs:29-36 | negating the output weights and the output bias negates the evaluation exactly, because `* SCALE / QAB` truncates toward zero |
| `NnueEval.Forward` | src/nnue_eval.rs:110-136 | `new` followed by `forward` scores exactly what evaluating the from-scratch accumulator for the side to move scores |
| `NnueEval.ForwardMirror` | src/nnue_eval.rs:120-136 | a fresh state fed the pieces and evaluated for the side to move scores the colour-mirrored position with the other side to move identically |
| `Evaluations.Evaluation.Flip` | src/evaluation.rs:28-34 | keeps the variant and negates the integer value, so `i64::from(e.flip()) == -i64::from(e)` |
| `Evaluations.Evaluation.Value` | src/evaluation.rs:51-57 | the conversion to `i64` returns the integer carried by whichever variant `e` is |
| `Evaluations.Evaluation.IsTerminal` | src/evaluation.rs:36-38 | holds exactly for the `Terminal` variant, never for a network score or a tablebase verdict |
| `Evaluations.Evaluation.IsTablebase` | src/evaluation.rs:40-42 | holds exactly for the `Tablebase` variant, never for a network score or a game-over verdict |
| `Evaluations.FlipInvolution` | src/evaluation.rs:28-34 | flipping twice is the identity |
| `Evaluations.FlipKeepsKind` | src/evaluation.rs:28-42 | `is_terminal` and `is_tablebase` are the same before and after a flip |
| `Evaluations.Evaluation.Draw` | src/evaluation.rs:24-26 | the draw is a terminal value of 0 and a fixed point of `flip` |
| `Evaluations.Mate` | src/evaluation.rs:9 | a game-over verdict worth `SCALE` |
| `Evaluations.TbWin` | src/evaluation.rs:12 | a tablebase verdict worth `SCALE` |
| `Evaluations.TbLoss` | src/evaluation.rs:13 | a tablebase verdict worth `-SCALE`, the flip of `TB_WIN` |
| `Evaluations.TbDraw` | src/evaluation.rs:14 | a tablebase verdict worth 0, unchanged by a flip |
| `Evaluations.StateValue` | src/evaluation.rs:62-76 | terminal exactly when there are no moves, tablebase exactly when there are moves and a probe hit, network otherwise; no moves scores `-SCALE` in check and 0 out of check; `Win` scores `SCALE`, `Loss` scores `-SCALE`, every other WDL scores 0; otherwise the net's value; so every non-network verdict lies in `[-SCALE, SCALE]` |
| `Evaluations.EvaluateNewState` | src/evaluation.rs:78-83 | the move evaluations are returned unchanged; the state value is returned as is for White to move and flipped for Black |
| `Evaluations.EvaluateNewStateWhiteRelative` | src/evaluation.rs:78-83 | the returned value keeps the kind of verdict and carries White's sign; a mated side to move gives `Terminal(-SCALE)` for White and `Terminal(SCALE)` for Black |
| `Evaluations.EvaluateNewStateSides` | src/evaluation.rs:78-83 | the same position with the other side to move reports the flipped value |
| `SearchTree.HotMoveInfo.Down` | src/search_tree.rs:134-138 | one more visit and `VIRTUAL_LOSS` subtracted from the sum; policy, move and child unchanged |
| `SearchTree.VirtualLoss` | src/search_tree.rs:19 | the virtual loss is positive and worth exactly a decided win, `SCALE` |
| `SearchTree.HotMoveInfo.Up` | src/search_tree.rs:140-143 | the sum gains the reward plus the refunded `VIRTUAL_LOSS`; visits unchanged |
| `SearchTree.DownThenUp` | src/search_tree.rs:134-143 | `down` then `up(e)` nets one visit and `+e`: the virtual loss cancels exactly |
| `SearchTree.HotMoveInfo.Replace` | src/search_tree.rs:145-152 | visits and sum are copied from `other`; policy, move and child link stay |
| `SearchTree.ReplaceIdempotent` | src/search_tree.rs:145-152 | replacing twice from the same source changes nothing more, and replacing from itself is the identity |
| `SearchTree.UpdatePolicy` | src/search_tree.rs:83-89 | `policy[i]` becomes `evals[i]` for `i < min(len(hots), len(evals))`; all other moves are unchanged |
| `SearchTree.ClearChildrenLinks` | src/search_tree.rs:91-97 | every child link becomes null and nothing else changes |
| `SearchTree.FinishPlayout` | src/search_tree.rs:397-403 | the backed-up path has the length of the path; its per-entry effect is stated by `FinishPlayoutAt` |
| `SearchTree.FinishPlayoutAt` | src/search_tree.rs:397-403 | the entry `k` places from the end of the path receives `(-1)^k · e` through `up` (so plus the refund); visits untouched |
| `SearchTree.FinishPlayoutAlternates` | src/search_tree.rs:397-403 | neighbouring entries of the path are credited opposite rewards |
| `SearchTree.PlayoutNetEffect` | src/search_tree.rs:397-403 | taking every move of a path down and then finishing the playout leaves each move with one more visit and its signed reward |
| `SearchTree.FlagValue` | src/search_tree.rs:300-305 | every decided flag scores within `[-SCALE, SCALE]`; `Standard` keeps the network's value |
| `SearchTree.FlagValueSymmetric` | src/search_tree.rs:300-305 | terminal and tablebase flags of the same outcome agree: win `SCALE`, loss `-SCALE`, draw 0 |
| `SearchTree.SideAfter` | src/search_tree.rs:277 | each move of the path hands the move to the other side |
| `SearchTree.LeafValue` | src/search_tree.rs:307-311 | the flag's value with Black to move after the path, otherwise its negation |
| `SearchTree.LeafValueSides` | src/search_tree.rs:307-311 | the two sides to move give opposite leaf values |
| `SearchTree.StopsAt` | src/search_tree.rs:262-273 | the 256-move bound always stops the loop, and an undecided node with moves below the bound never does |
| `SearchTree.Select` | src/search_tree.rs:258-298 | the loop pushes at most 256 moves; it stops at a node for one of the four tests, or after pushing a first-visited move or a move whose descent hit a full arena; every earlier node was passed through |
| `SearchTree.Playout` | src/search_tree.rs:249-313 | a playout's path length and stop reason are the selection loop's; the path never exceeds `MAX_PLAYOUT_LENGTH = 256`; a stop at a node is justified by that node's tests; every earlier node was passed through |
| `SearchTree.LeafOf` | src/search_tree.rs:257-311 | a first visit backs up the fresh evaluation, oriented for the player who made the last move; a stop at a decided node backs up a value in `[-SCALE, SCALE]`; a stop at a `Standard` node (the length bound, or no moves) backs up the initial 0 |
| `SearchTree.Backup` | src/search_tree.rs:284-313 | what follows selection keeps the number of moves pushed and the stop reason; its effect on the counters is stated by `BackupCompleted` |
| `SearchTree.BackupCompleted` | src/search_tree.rs:300-313 | for every selection outcome other than a full arena, each move on the path ends with one more visit and the signed leaf value; no virtual loss remains |
| `SearchTree.PlayoutAbandoned` | src/search_tree.rs:285-294 | a full arena ends the playout before backpropagation; the path is non-empty and every move on it keeps the extra visit and the virtual loss |
| `SearchTree.PlayoutDecidedValue` | src/search_tree.rs:300-311 | when the loop stops at a decided node, the value backed up is that node's flag value for the player who made the last move, within `[-SCALE, SCALE]` |
| `SearchTree.DepthAsWritten` | src/search_tree.rs:316 | `path.len() - 1` on `usize`, which wraps when the path is empty |
| `SearchTree.DepthAsWrittenWraps` | src/search_tree.rs:262-316 | a root node that is terminal ends the loop with an empty path, and the depth wraps to `usize::MAX` |
| `SearchTree.Depth` | src/search_tree.rs:315-316 | the depth below the root's first move, 0 for an empty path |
| `SearchTree.DepthBounded` | src/search_tree.rs:315-318 | every playout reports a depth below 256 |
| `SearchTree.SelectChildAfterSearch` | src/search_tree.rs:488-499 | on a non-empty slice, returns a child of maximal reward that no earlier child equals (strict `>`, so ties keep the earlier child) |
| `SearchTree.FirstBestUnique` | src/search_tree.rs:488-499 | the first best child is unique |
| `SearchTree.PrincipalVariation` | src/search_tree.rs:413-428 | returns at most `num_moves` moves; empty exactly when `num_moves` is 0 or the root has no moves; starts at the root; each move is the first best of its node; each move's child link leads to the next move's node; a variation shorter than `num_moves` ends at a null child link or at a child with no moves |

## Left out

- Concurrency is left out: atomics, memory orderings, the compare-and-swap child linking in `descend`, and `flip_lock`. Each counter update is one sequential step.
- The transposition table, the arena, `create_node`, `descend` and `SearchTree::new` are left out. The model takes only a full arena's effect on a playout, as the `arenaFull` bit of a `Step`.
- Floating point is left out:
  - `softmax` and the policy network in `run_nets`;
  - the sigmoid turning the network score into the search's value, and `From<f32> for Evaluation` (the model takes the already-scaled integer);
  - `average_reward`, `cpuct` and `tree_policy::choose_child`;
  - the `sqrt`-based reward of `select_child_after_search`, which is an abstract integer function `reward` here. Its zero-visit special case is part of that function.
- Output is left out: `print_info`, `print_size_list` and `eval_in_cp`. So are the playout counters (`num_nodes`, `max_depth`, `playouts`, `tb_hits`) and `TimeManagement`. The depth value fed to the counters is modelled.
- Board queries are left out: move generation, `is_check`, repetition, the fifty-move rule, insufficient material and the halfmove clock. They become boolean inputs. The tablebase probe becomes an `Option<Wdl>` input. The bitboards walked by `NNUEState::forward` become a list of pieces.
- `evaluate_state`, `evaluate_state_flag` and `evaluate_policy` are not in the modelled files. Their results are inputs.
- The network weights loaded from binary files become parameters of the stated lengths.
- `Chess.FlipVertical`: computes the mirror by rank arithmetic. The chess library computes `sq ^ 56`; the two agree on every square, but the model does not prove it.
- `NnueEval.AddToAll`: does not model `i16` overflow of the accumulator. The engine relies on trained weights keeping neurons in range.
- `NnueEval.SubFromAll`: does not model `i16` overflow, for the same reason.
- `NnueEval.ScreluFlatten`: does not model `i32` overflow of the running sum.
- `NnueEval.Evaluate`: does not model `i32` overflow of `(output + bias) * SCALE`. Trained weights keep the output small enough.
- `SearchTree.HotMoveInfo.Down`: does not model wrap-around of the `u32` visit counter or the `i64` sum.
- `SearchTree.HotMoveInfo.Up`: does not model wrap-around of the `i64` sum.

## Findings

| source | as written | input that shows it | evidently intended | confidence | as-written member | corrected member |
|---|---|---|---|---|---|---|
| src/search_tree.rs:316 | `let depth = path.len() - 1;` on `usize` | a playout whose root node is terminal, has no moves, or is a tablebase node with the halfmove clock at 0: the loop breaks before pushing, so `path.len() == 0` and the subtraction wraps to `usize::MAX` (a debug build panics instead); `max_depth` then holds `usize::MAX` | the depth saturates at 0, so it stays below the 256-move bound | low: not executed, and the callers that start a search are not part of this model, so they may never search such a root | `SearchTree.DepthAsWrittenWraps` | `SearchTree.DepthBounded` |
