/** The efficiently updatable value network: one hidden layer of
    `LAYER_1_SIZE` neurons per perspective, fed by 768 one-hot piece
    features, and a single output neuron over the clipped-squared
    activations of both perspectives.

    All arithmetic is on mathematical integers. The engine keeps the
    accumulator in `i16` and the output sum in `i32` and relies on trained
    weights keeping them in range; that overflow is not modelled. */
module NnueEval {
  import opened Chess

  /** Number of input features: 2 colours x 6 roles x 64 squares. */
  const INPUT: nat := 768
  /** Neurons in one perspective's half of the hidden layer. */
  const LAYER_1_SIZE: nat := 768
  /** Clamp bounds of the activation. */
  const CR_MIN: int := 0
  const CR_MAX: int := 255
  /** Output scale of the network (centipawn-like units). */
  const SCALE: int := 400
  /** Quantisation factors of the hidden and output layers. */
  const QA: int := 255
  const QB: int := 64
  const QAB: int := QA * QB

  const COLOUR_STRIDE: nat := 64 * 6
  const PIECE_STRIDE: nat := 64

  /** The trained parameters, as flat sequences of the stated lengths. */
  datatype NnueParams = NnueParams(
    featureWeights: seq<int>,
    featureBias: seq<int>,
    outputWeights: seq<int>,
    outputBias: int)
  {
    predicate Valid()
    {
      && |featureWeights| == INPUT * LAYER_1_SIZE
      && |featureBias| == LAYER_1_SIZE
      && |outputWeights| == 2 * LAYER_1_SIZE
    }
  }

  /** The hidden-layer pre-activations seen from White's and from Black's
      side of the board. */
  datatype Accumulator = Accumulator(white: seq<int>, black: seq<int>)
  {
    predicate Valid()
    {
      |white| == LAYER_1_SIZE && |black| == LAYER_1_SIZE
    }

    /** The accumulator of the colour-mirrored position. */
    function Swap(): Accumulator
    {
      Accumulator(black, white)
    }
  }

  /** One piece on the board: the unit of input. */
  datatype Piece = Piece(role: Role, colour: Color, square: Square)

  /** The same piece in the position mirrored vertically with colours
      swapped. */
  function Mirror(p: Piece): (m: Piece)
    ensures m.role == p.role && m.colour != p.colour
  {
    Piece(p.role, p.colour.Other(), FlipVertical(p.square))
  }

  function MirrorAll(ps: seq<Piece>): (ms: seq<Piece>)
    ensures |ms| == |ps|
    ensures forall i :: 0 <= i < |ps| ==> ms[i] == Mirror(ps[i])
  {
    seq(|ps|, i requires 0 <= i < |ps| => Mirror(ps[i]))
  }

  // ---------------------------------------------------------------------
  // Feature indices

  /** Quotient and remainder are unique: `x == q * d + r` with
      `0 <= r < d` pins down `x / d` and `x % d`. */
  lemma DivModUnique(x: int, d: int, q: int, r: int)
    requires d > 0 && 0 <= r < d && x == q * d + r
    ensures x / d == q && x % d == r
  {
    var q', r' := x / d, x % d;
    assert x == q' * d + r';
    assert (q - q') * d == r' - r;
    if q > q' {
      MulAtLeast(q - q', d);
    } else if q < q' {
      MulAtLeast(q' - q, d);
    }
  }

  lemma MulAtLeast(k: int, d: int)
    requires k >= 1 && d > 0
    ensures k * d >= d
  {
    assert k * d == (k - 1) * d + d;
    assert (k - 1) * d >= 0;
  }

  /** How an input index splits into colour half, role block and square. */
  lemma IndexParts(c: nat, t: nat, s: nat)
    requires c < 2 && t < 6 && s < 64
    ensures (c * COLOUR_STRIDE + t * PIECE_STRIDE + s) / COLOUR_STRIDE == c
    ensures (c * COLOUR_STRIDE + t * PIECE_STRIDE + s) % COLOUR_STRIDE == t * PIECE_STRIDE + s
    ensures ((c * COLOUR_STRIDE + t * PIECE_STRIDE + s) % COLOUR_STRIDE) / PIECE_STRIDE == t
    ensures (c * COLOUR_STRIDE + t * PIECE_STRIDE + s) % PIECE_STRIDE == s
    ensures c * COLOUR_STRIDE + t * PIECE_STRIDE + s < INPUT
  {
    var x := c * COLOUR_STRIDE + t * PIECE_STRIDE + s;
    DivModUnique(x, COLOUR_STRIDE, c, t * PIECE_STRIDE + s);
    DivModUnique(t * PIECE_STRIDE + s, PIECE_STRIDE, t, s);
    DivModUnique(x, PIECE_STRIDE, c * 6 + t, s);
  }

  /** The input index of a piece from White's perspective (first) and from
      Black's (second). White's perspective puts White pieces in the lower
      half; Black's puts Black pieces there and looks at the board upside
      down. */
  function FeatureIndices(sq: Square, role: Role, colour: Color): (r: (nat, nat))
    ensures r.0 < INPUT && r.1 < INPUT
    ensures r.0 / COLOUR_STRIDE + r.1 / COLOUR_STRIDE == 1
    ensures r.0 / COLOUR_STRIDE == 0 <==> colour == White
    ensures (r.0 % COLOUR_STRIDE) / PIECE_STRIDE == RoleNumber(role) - 1
    ensures (r.1 % COLOUR_STRIDE) / PIECE_STRIDE == RoleNumber(role) - 1
    ensures r.0 % PIECE_STRIDE == sq
    ensures r.1 % PIECE_STRIDE == FlipVertical(sq)
  {
    var pieceType: nat := RoleNumber(role) - 1;
    // `1 ^ colour` on the library's 0/1 colour number
    var c: nat := 1 - ColorNumber(colour);
    var flipped: nat := 1 - c;
    var mirrored := FlipVertical(sq);
    IndexParts(c, pieceType, sq);
    IndexParts(flipped, pieceType, mirrored);
    (c * COLOUR_STRIDE + pieceType * PIECE_STRIDE + sq, flipped * COLOUR_STRIDE + pieceType * PIECE_STRIDE + mirrored)
  }

  function RoleOfNumber(n: nat): (r: Role)
    requires 1 <= n <= 6
    ensures RoleNumber(r) == n
  {
    if n == 1 then Pawn
    else if n == 2 then Knight
    else if n == 3 then Bishop
    else if n == 4 then Rook
    else if n == 5 then Queen
    else King
  }

  /** The piece an input index stands for, read from White's perspective. */
  function FeatureOf(idx: nat): (p: Piece)
    requires idx < INPUT
  {
    var colour := if idx / COLOUR_STRIDE == 0 then White else Black;
    var role := RoleOfNumber((idx % COLOUR_STRIDE) / PIECE_STRIDE + 1);
    Piece(role, colour, idx % PIECE_STRIDE)
  }

  /** White's index determines the piece, and Black's index names the
      mirrored piece: the two perspectives see colour-swapped, vertically
      flipped boards. */
  lemma FeatureIndicesDecode(sq: Square, role: Role, colour: Color)
    ensures FeatureOf(FeatureIndices(sq, role, colour).0) == Piece(role, colour, sq)
    ensures FeatureOf(FeatureIndices(sq, role, colour).1)
         == Piece(role, colour.Other(), FlipVertical(sq))
  {
    var r := FeatureIndices(sq, role, colour);
    var n := RoleNumber(role);
    assert (r.0 % COLOUR_STRIDE) / PIECE_STRIDE + 1 == n;
    assert (r.1 % COLOUR_STRIDE) / PIECE_STRIDE + 1 == n;
    RoleNumberInjective(RoleOfNumber(n), role);
  }

  /** Distinct pieces light distinct inputs in each perspective. */
  lemma FeatureIndicesInjective(p: Piece, q: Piece)
    requires FeatureIndices(p.square, p.role, p.colour).0 == FeatureIndices(q.square, q.role, q.colour).0
          || FeatureIndices(p.square, p.role, p.colour).1 == FeatureIndices(q.square, q.role, q.colour).1
    ensures p == q
  {
    FeatureIndicesDecode(p.square, p.role, p.colour);
    FeatureIndicesDecode(q.square, q.role, q.colour);
    FlipVerticalInvolution(p.square);
    FlipVerticalInvolution(q.square);
  }

  /** Mirroring a piece exchanges its two indices. */
  lemma FeatureIndicesMirror(p: Piece)
    ensures FeatureIndices(Mirror(p).square, p.role, Mirror(p).colour)
         == (FeatureIndices(p.square, p.role, p.colour).1, FeatureIndices(p.square, p.role, p.colour).0)
  {
    FlipVerticalInvolution(p.square);
  }

  // ---------------------------------------------------------------------
  // Accumulator updates

  /** Adds the block `delta[offset .. offset + |input|]` to `input`, one
      neuron at a time. Slicing past the end of the weights panics in the
      engine, hence the precondition. */
  function AddToAll(input: seq<int>, delta: seq<int>, offset: nat): (r: seq<int>)
    requires offset + |input| <= |delta|
    ensures |r| == |input|
    ensures forall i :: 0 <= i < |input| ==> r[i] == input[i] + delta[offset + i]
    decreases |input|
  {
    if |input| == 0 then []
    else [input[0] + delta[offset]] + AddToAll(input[1..], delta, offset + 1)
  }

  /** Subtracts the block `delta[offset .. offset + |input|]` from `input`. */
  function SubFromAll(input: seq<int>, delta: seq<int>, offset: nat): (r: seq<int>)
    requires offset + |input| <= |delta|
    ensures |r| == |input|
    ensures forall i :: 0 <= i < |input| ==> r[i] == input[i] - delta[offset + i]
    decreases |input|
  {
    if |input| == 0 then []
    else [input[0] - delta[offset]] + SubFromAll(input[1..], delta, offset + 1)
  }

  lemma SubUndoesAdd(input: seq<int>, delta: seq<int>, offset: nat)
    requires offset + |input| <= |delta|
    ensures SubFromAll(AddToAll(input, delta, offset), delta, offset) == input
    ensures AddToAll(SubFromAll(input, delta, offset), delta, offset) == input
  {
    var up := AddToAll(input, delta, offset);
    var down := SubFromAll(input, delta, offset);
    assert forall i | 0 <= i < |input| :: SubFromAll(up, delta, offset)[i] == input[i];
    assert forall i | 0 <= i < |input| :: AddToAll(down, delta, offset)[i] == input[i];
  }

  /** Two blocks can be added in either order. */
  lemma AddToAllCommutes(input: seq<int>, delta: seq<int>, o1: nat, o2: nat)
    requires o1 + |input| <= |delta| && o2 + |input| <= |delta|
    ensures AddToAll(AddToAll(input, delta, o1), delta, o2)
         == AddToAll(AddToAll(input, delta, o2), delta, o1)
  {
  }

  /** The first weight of row `idx` of the feature-weight matrix. */
  function RowOffset(idx: nat): (o: nat)
    requires idx < INPUT
    ensures o + LAYER_1_SIZE <= INPUT * LAYER_1_SIZE
  {
    idx * LAYER_1_SIZE
  }

  /** Activates (adds the piece's weight rows to both perspectives) or
      deactivates (subtracts them) one piece. */
  function UpdateFeature(acc: Accumulator, params: NnueParams, activate: bool, p: Piece): (r: Accumulator)
    requires acc.Valid() && params.Valid()
    ensures r.Valid()
  {
    var (whiteIdx, blackIdx) := FeatureIndices(p.square, p.role, p.colour);
    var w := params.featureWeights;
    if activate then
      Accumulator(AddToAll(acc.white, w, RowOffset(whiteIdx)), AddToAll(acc.black, w, RowOffset(blackIdx)))
    else
      Accumulator(SubFromAll(acc.white, w, RowOffset(whiteIdx)), SubFromAll(acc.black, w, RowOffset(blackIdx)))
  }

  /** Deactivating a piece undoes activating it, and the other way round. */
  lemma UpdateFeatureUndo(acc: Accumulator, params: NnueParams, p: Piece)
    requires acc.Valid() && params.Valid()
    ensures UpdateFeature(UpdateFeature(acc, params, true, p), params, false, p) == acc
    ensures UpdateFeature(UpdateFeature(acc, params, false, p), params, true, p) == acc
  {
    var (wi, bi) := FeatureIndices(p.square, p.role, p.colour);
    SubUndoesAdd(acc.white, params.featureWeights, RowOffset(wi));
    SubUndoesAdd(acc.black, params.featureWeights, RowOffset(bi));
  }

  /** Entry `i` of the weight row a piece lights in one perspective (the
      first index for White, the second for Black). */
  function PieceRow(params: NnueParams, p: Piece, perspective: Color, i: nat): int
    requires params.Valid() && i < LAYER_1_SIZE
  {
    var idx := FeatureIndices(p.square, p.role, p.colour);
    params.featureWeights[RowOffset(if perspective == White then idx.0 else idx.1) + i]
  }

  /** Activating a piece touches the neurons of each perspective by exactly
      that perspective's weight row. */
  lemma UpdateFeatureEffect(acc: Accumulator, params: NnueParams, p: Piece, i: nat)
    requires acc.Valid() && params.Valid() && i < LAYER_1_SIZE
    ensures UpdateFeature(acc, params, true, p).white[i] == acc.white[i] + PieceRow(params, p, White, i)
    ensures UpdateFeature(acc, params, true, p).black[i] == acc.black[i] + PieceRow(params, p, Black, i)
  {
  }

  /** Activating a colour-mirrored piece on the swapped accumulator is the
      swap of activating the piece itself. */
  lemma UpdateFeatureMirror(acc: Accumulator, params: NnueParams, p: Piece)
    requires acc.Valid() && params.Valid()
    ensures UpdateFeature(acc.Swap(), params, true, Mirror(p))
         == UpdateFeature(acc, params, true, p).Swap()
  {
    FeatureIndicesMirror(p);
  }

  /** A fresh state: both perspectives start at the feature bias. */
  function NewState(params: NnueParams): (acc: Accumulator)
    requires params.Valid()
    ensures acc.Valid()
    ensures acc.white == acc.black == params.featureBias
  {
    Accumulator(params.featureBias, params.featureBias)
  }

  /** Activates every piece, in order. */
  function ActivateAll(acc: Accumulator, params: NnueParams, pieces: seq<Piece>): (r: Accumulator)
    requires acc.Valid() && params.Valid()
    ensures r.Valid()
    decreases |pieces|
  {
    if |pieces| == 0 then acc
    else ActivateAll(UpdateFeature(acc, params, true, pieces[0]), params, pieces[1..])
  }

  /** Sum of column `i` over the weight rows the pieces light in one
      perspective (first component of the indices for White, second for
      Black). */
  function RowSum(params: NnueParams, pieces: seq<Piece>, perspective: Color, i: nat): int
    requires params.Valid() && i < LAYER_1_SIZE
    decreases |pieces|
  {
    if |pieces| == 0 then 0
    else PieceRow(params, pieces[0], perspective, i) + RowSum(params, pieces[1..], perspective, i)
  }

  /** After activating a list of pieces each neuron holds its starting
      value plus the sum of the weight rows of the pieces: the incremental
      accumulator agrees with a from-scratch sum. */
  lemma {:induction false} ActivateAllSum(acc: Accumulator, params: NnueParams, pieces: seq<Piece>, i: nat)
    requires acc.Valid() && params.Valid() && i < LAYER_1_SIZE
    ensures ActivateAll(acc, params, pieces).white[i] == acc.white[i] + RowSum(params, pieces, White, i)
    ensures ActivateAll(acc, params, pieces).black[i] == acc.black[i] + RowSum(params, pieces, Black, i)
    decreases |pieces|
  {
    if |pieces| > 0 {
      var p := pieces[0];
      var next := UpdateFeature(acc, params, true, p);
      UpdateFeatureEffect(acc, params, p, i);
      ActivateAllSum(next, params, pieces[1..], i);
    }
  }

  /** Mirroring every piece swaps the two perspectives of the result. */
  lemma {:induction false} ActivateAllMirror(acc: Accumulator, params: NnueParams, pieces: seq<Piece>)
    requires acc.Valid() && params.Valid()
    ensures ActivateAll(acc.Swap(), params, MirrorAll(pieces)) == ActivateAll(acc, params, pieces).Swap()
    decreases |pieces|
  {
    if |pieces| > 0 {
      var ms := MirrorAll(pieces);
      UpdateFeatureMirror(acc, params, pieces[0]);
      assert ms[1..] == MirrorAll(pieces[1..]);
      ActivateAllMirror(UpdateFeature(acc, params, true, pieces[0]), params, pieces[1..]);
    }
  }

  // ---------------------------------------------------------------------
  // Output layer

  /** Rust's `/` on signed integers: the quotient truncated toward zero. */
  function TruncDiv(a: int, b: int): (q: int)
    requires b > 0
    ensures 0 <= a ==> 0 <= q * b <= a < q * b + b
    ensures a < 0 ==> q * b - b < a <= q * b <= 0
  {
    DivBounds(a, b);
    DivBounds(-a, b);
    if a >= 0 then a / b else -((-a) / b)
  }

  lemma DivBounds(a: int, b: int)
    requires b > 0
    ensures 0 <= a ==> 0 <= (a / b) * b <= a < (a / b) * b + b
  {
    if 0 <= a {
      assert a == (a / b) * b + a % b;
      assert 0 <= a / b;
      assert 0 <= (a / b) * b;
    }
  }

  /** Unlike Dafny's Euclidean division, truncation is odd. */
  lemma TruncDivOdd(a: int, b: int)
    requires b > 0
    ensures TruncDiv(-a, b) == -TruncDiv(a, b)
  {
  }

  lemma SquareMonotonic(x: int, y: int)
    requires 0 <= x <= y
    ensures 0 <= x * x <= y * y
  {
    assert x * x <= x * y;
    assert x * y <= y * y;
  }

  /** The activation: clamp to [CR_MIN, CR_MAX], then square. */
  function Screlu(x: int): (r: int)
    ensures 0 <= r <= CR_MAX * CR_MAX
    ensures x <= CR_MIN ==> r == 0
    ensures CR_MIN <= x <= CR_MAX ==> r == x * x
    ensures CR_MAX <= x ==> r == CR_MAX * CR_MAX
  {
    var c := if x < CR_MIN then CR_MIN else if x > CR_MAX then CR_MAX else x;
    SquareMonotonic(c, CR_MAX);
    c * c
  }

  lemma ScreluMonotonic(x: int, y: int)
    requires x <= y
    ensures Screlu(x) <= Screlu(y)
  {
    if CR_MIN <= x <= y <= CR_MAX {
      SquareMonotonic(x, y);
    } else if CR_MIN <= x <= CR_MAX < y {
      SquareMonotonic(x, CR_MAX);
    }
  }

  /** The weighted sum of activations over the first `|xs|` weights. */
  function ScreluDot(xs: seq<int>, ws: seq<int>): int
    requires |xs| <= |ws|
    decreases |xs|
  {
    if |xs| == 0 then 0
    else ScreluDot(xs[..|xs| - 1], ws) + Screlu(xs[|xs| - 1]) * ws[|xs| - 1]
  }

  /** What `screlu_flatten` returns: the side to move's activations against
      the first half of the output weights, the opponent's against the
      second half, the total divided (truncating) by QA. */
  function Flatten(us: seq<int>, them: seq<int>, weights: seq<int>): int
    requires |us| == |them| == LAYER_1_SIZE && |weights| == 2 * LAYER_1_SIZE
  {
    TruncDiv(ScreluDot(us, weights[..LAYER_1_SIZE]) + ScreluDot(them, weights[LAYER_1_SIZE..]), QA)
  }

  /** The two accumulation loops of `screlu_flatten`. */
  method ScreluFlatten(us: seq<int>, them: seq<int>, weights: seq<int>) returns (r: int)
    requires |us| == |them| == LAYER_1_SIZE && |weights| == 2 * LAYER_1_SIZE
    ensures r == Flatten(us, them, weights)
  {
    var sum := 0;
    var i := 0;
    while i < |us|
      invariant 0 <= i <= |us|
      invariant sum == ScreluDot(us[..i], weights[..LAYER_1_SIZE])
    {
      assert us[..i + 1][..i] == us[..i];
      sum := sum + Screlu(us[i]) * weights[i];
      i := i + 1;
    }
    assert us[..i] == us;
    var firstHalf := sum;
    var rest := weights[LAYER_1_SIZE..];
    var theirs := 0;
    var j := 0;
    while j < |them|
      invariant 0 <= j <= |them|
      invariant sum == firstHalf + theirs
      invariant theirs == ScreluDot(them[..j], rest)
    {
      assert them[..j + 1][..j] == them[..j];
      sum := sum + Screlu(them[j]) * weights[LAYER_1_SIZE + j];
      theirs := theirs + Screlu(them[j]) * weights[LAYER_1_SIZE + j];
      j := j + 1;
    }
    assert them[..j] == them;
    r := TruncDiv(sum, QA);
  }

  /** `Accumulator::evaluate`: the side to move's half is `us`, the other
      half `them`; the output plus bias is rescaled by SCALE / QAB,
      truncating. */
  function Evaluate(acc: Accumulator, params: NnueParams, stm: Color): (r: int)
    requires acc.Valid() && params.Valid()
    // the quotient by QAB = 255 * 64 of the scaled output, rounded toward zero
    ensures var us := if stm == White then acc.white else acc.black;
            var them := if stm == White then acc.black else acc.white;
            var n := (Flatten(us, them, params.outputWeights) + params.outputBias) * SCALE;
            && (0 <= n ==> 0 <= r * QAB <= n < r * QAB + QAB)
            && (n < 0 ==> r * QAB - QAB < n <= r * QAB <= 0)
  {
    var us := if stm == White then acc.white else acc.black;
    var them := if stm == White then acc.black else acc.white;
    TruncDiv((Flatten(us, them, params.outputWeights) + params.outputBias) * SCALE, QAB)
  }

  /** Black to move is evaluated exactly as White to move on the swapped
      accumulator. */
  lemma EvaluatePerspective(acc: Accumulator, params: NnueParams)
    requires acc.Valid() && params.Valid()
    ensures Evaluate(acc, params, Black) == Evaluate(acc.Swap(), params, White)
    ensures Evaluate(acc.Swap(), params, Black) == Evaluate(acc, params, White)
  {
  }

  /** Zero weights ignore the activations. */
  lemma {:induction false} ScreluDotZero(xs: seq<int>, ws: seq<int>)
    requires |xs| <= |ws|
    requires forall i :: 0 <= i < |ws| ==> ws[i] == 0
    ensures ScreluDot(xs, ws) == 0
    decreases |xs|
  {
    if |xs| > 0 {
      ScreluDotZero(xs[..|xs| - 1], ws);
    }
  }

  /** A zero output layer leaves only the rescaled output bias, whatever
      the accumulator holds. */
  lemma EvaluateZeroOutput(acc: Accumulator, params: NnueParams, stm: Color)
    requires acc.Valid() && params.Valid()
    requires forall i :: 0 <= i < |params.outputWeights| ==> params.outputWeights[i] == 0
    ensures Evaluate(acc, params, stm) == TruncDiv(params.outputBias * SCALE, QAB)
  {
    var ws := params.outputWeights;
    var us := if stm == White then acc.white else acc.black;
    var them := if stm == White then acc.black else acc.white;
    ScreluDotZero(us, ws[..LAYER_1_SIZE]);
    ScreluDotZero(them, ws[LAYER_1_SIZE..]);
    assert Flatten(us, them, ws) == 0;
  }

  function Negated(ws: seq<int>): (r: seq<int>)
    ensures |r| == |ws|
    ensures forall i :: 0 <= i < |ws| ==> r[i] == -ws[i]
  {
    seq(|ws|, i requires 0 <= i < |ws| => -ws[i])
  }

  lemma {:induction false} ScreluDotNegated(xs: seq<int>, ws: seq<int>)
    requires |xs| <= |ws|
    ensures ScreluDot(xs, Negated(ws)) == -ScreluDot(xs, ws)
    decreases |xs|
  {
    if |xs| > 0 {
      ScreluDotNegated(xs[..|xs| - 1], ws);
    }
  }

  /** Negating the output layer negates the evaluation exactly. This holds
      because both divisions truncate toward zero; with flooring division
      the two results could differ by one. */
  lemma EvaluateNegatedOutput(acc: Accumulator, params: NnueParams, stm: Color)
    requires acc.Valid() && params.Valid()
    ensures var negated := params.(outputWeights := Negated(params.outputWeights),
                                   outputBias := -params.outputBias);
            Evaluate(acc, negated, stm) == -Evaluate(acc, params, stm)
  {
    var us := if stm == White then acc.white else acc.black;
    var them := if stm == White then acc.black else acc.white;
    var flat := Flatten(us, them, params.outputWeights);
    FlattenNegated(us, them, params.outputWeights);
    assert (-flat + -params.outputBias) * SCALE == -((flat + params.outputBias) * SCALE);
    TruncDivOdd((flat + params.outputBias) * SCALE, QAB);
  }

  /** The output sum of both perspectives changes sign with the weights. */
  lemma FlattenNegated(us: seq<int>, them: seq<int>, ws: seq<int>)
    requires |us| == |them| == LAYER_1_SIZE && |ws| == 2 * LAYER_1_SIZE
    ensures Flatten(us, them, Negated(ws)) == -Flatten(us, them, ws)
  {
    assert Negated(ws)[..LAYER_1_SIZE] == Negated(ws[..LAYER_1_SIZE]);
    assert Negated(ws)[LAYER_1_SIZE..] == Negated(ws[LAYER_1_SIZE..]);
    ScreluDotNegated(us, ws[..LAYER_1_SIZE]);
    ScreluDotNegated(them, ws[LAYER_1_SIZE..]);
    TruncDivOdd(ScreluDot(us, ws[..LAYER_1_SIZE]) + ScreluDot(them, ws[LAYER_1_SIZE..]), QA);
  }

  /** The accumulator computed from scratch: each neuron is its bias plus
      the weight rows of all the pieces for that perspective. */
  function FromScratch(params: NnueParams, pieces: seq<Piece>): (acc: Accumulator)
    requires params.Valid()
    ensures acc.Valid()
  {
    Accumulator(
      seq(LAYER_1_SIZE, i requires 0 <= i < LAYER_1_SIZE => params.featureBias[i] + RowSum(params, pieces, White, i)),
      seq(LAYER_1_SIZE, i requires 0 <= i < LAYER_1_SIZE => params.featureBias[i] + RowSum(params, pieces, Black, i)))
  }

  /** Activating the pieces one by one on a fresh state builds the
      from-scratch accumulator. */
  lemma ActivateAllFromScratch(params: NnueParams, pieces: seq<Piece>)
    requires params.Valid()
    ensures ActivateAll(NewState(params), params, pieces) == FromScratch(params, pieces)
  {
    var start := NewState(params);
    var acc := ActivateAll(start, params, pieces);
    var reference := FromScratch(params, pieces);
    forall i | 0 <= i < LAYER_1_SIZE
      ensures acc.white[i] == reference.white[i] && acc.black[i] == reference.black[i]
    {
      ActivateAllSum(start, params, pieces, i);
    }
    assert acc.white == reference.white;
    assert acc.black == reference.black;
  }

  /** `NNUEState::new` followed by `forward`: every piece activated, then
      the output evaluated for the side to move. */
  function Forward(params: NnueParams, pieces: seq<Piece>, stm: Color): (r: int)
    requires params.Valid()
    ensures r == Evaluate(FromScratch(params, pieces), params, stm)
  {
    ActivateAllFromScratch(params, pieces);
    Evaluate(ActivateAll(NewState(params), params, pieces), params, stm)
  }

  /** The network is colour-symmetric: the mirrored position with the other
      side to move gets the same score. */
  lemma ForwardMirror(params: NnueParams, pieces: seq<Piece>, stm: Color)
    requires params.Valid()
    ensures Forward(params, MirrorAll(pieces), stm.Other()) == Forward(params, pieces, stm)
  {
    var start := NewState(params);
    assert start.Swap() == start;
    ActivateAllMirror(start, params, pieces);
    EvaluatePerspective(ActivateAll(start, params, pieces), params);
  }
}
