/** Position values as the search sees them: a network score, a tablebase
    verdict or a game-over verdict, and the table that decides which one a
    freshly reached position gets. */
module Evaluations {
  import opened Chess
  import opened Wrappers

  /** The search's unit of value (a win is worth `scale`). Its numeric value
      is defined outside the modelled files, so it is a parameter here. */
  type Scale = s: int | 0 < s witness 1

  /** A value together with where it came from. */
  datatype Evaluation = Scaled(s: int) | Tablebase(s: int) | Terminal(s: int)
  {
    /** The same verdict seen by the other side. */
    function Flip(): (r: Evaluation)
      ensures r.Scaled? == Scaled? && r.Tablebase? == Tablebase? && r.Terminal? == Terminal?
      ensures r.Value() == -Value()
    {
      match this
      case Scaled(v) => Scaled(-v)
      case Tablebase(v) => Tablebase(-v)
      case Terminal(v) => Terminal(-v)
    }

    /** A game-over verdict: neither a network score nor a tablebase
        verdict. */
    predicate IsTerminal()
      ensures IsTerminal() <==> !Scaled? && !Tablebase?
    {
      Terminal?
    }

    /** A tablebase verdict: neither a network score nor a game-over
        verdict. */
    predicate IsTablebase()
      ensures IsTablebase() <==> !Scaled? && !Terminal?
    {
      Tablebase?
    }

    /** The conversion to a plain integer: the value, whatever its origin. */
    function Value(): (v: int)
      ensures this == Scaled(v) || this == Tablebase(v) || this == Terminal(v)
    {
      match this
      case Scaled(v) => v
      case Tablebase(v) => v
      case Terminal(v) => v
    }

    /** The value of a drawn game. */
    static function Draw(): (r: Evaluation)
      ensures r.IsTerminal() && r.Value() == 0
      ensures r.Flip() == r
    {
      Terminal(0)
    }
  }

  lemma FlipInvolution(e: Evaluation)
    ensures e.Flip().Flip() == e
  {
  }

  /** Flipping keeps the kind of verdict, so both classifiers agree on
      `e` and `e.Flip()`. */
  lemma FlipKeepsKind(e: Evaluation)
    ensures e.Flip().IsTerminal() == e.IsTerminal()
    ensures e.Flip().IsTablebase() == e.IsTablebase()
  {
  }

  /** Win/draw/loss answer of an endgame tablebase, with the 50-move-rule
      refinements. */
  datatype Wdl = Loss | BlessedLoss | Draw | CursedWin | Win

  /** The seven node classifications the search stores. */
  datatype Flag =
    | TerminalWin | TerminalLoss | TerminalDraw
    | TablebaseWin | TablebaseLoss | TablebaseDraw
    | Standard
  {
    predicate IsTerminal()
    {
      TerminalWin? || TerminalLoss? || TerminalDraw?
    }

    predicate IsTablebase()
    {
      TablebaseWin? || TablebaseLoss? || TablebaseDraw?
    }
  }

  /** A won game: the rules decided it, worth a whole win. */
  function Mate(scale: Scale): (e: Evaluation)
    ensures e.IsTerminal() && e.Value() == scale
  {
    Evaluation.Terminal(scale)
  }

  /** The tablebase verdicts: a win, a loss and everything in between. */
  function TbWin(scale: Scale): (e: Evaluation)
    ensures e.IsTablebase() && e.Value() == scale
  {
    Evaluation.Tablebase(scale)
  }

  function TbLoss(scale: Scale): (e: Evaluation)
    ensures e.IsTablebase() && e.Value() == -(scale as int)
    ensures e == TbWin(scale).Flip()
  {
    Evaluation.Tablebase(-(scale as int))
  }

  function TbDraw(): (e: Evaluation)
    ensures e.IsTablebase() && e.Value() == 0
    ensures e.Flip() == e
  {
    Evaluation.Tablebase(0)
  }

  /** The value of a position for the side to move, before it is turned
      into White's point of view. `netValue` is the network's score already
      multiplied by the scale; `inCheck` and `tablebase` stand for the board
      query and the tablebase probe. */
  function StateValue(hasMoves: bool, inCheck: bool, tablebase: Option<Wdl>, netValue: int, scale: Scale): (e: Evaluation)
    // the kind of verdict, in both directions
    ensures e.IsTerminal() <==> !hasMoves
    ensures e.IsTablebase() <==> hasMoves && tablebase.Some?
    ensures e.Scaled? <==> hasMoves && tablebase.None?
    // no legal moves: mated when in check, stalemate otherwise
    ensures !hasMoves ==> e.Value() == if inCheck then -(scale as int) else 0
    // a tablebase hit: only the two decisive answers score
    ensures hasMoves && tablebase == Some(Win) ==> e.Value() == scale
    ensures hasMoves && tablebase == Some(Loss) ==> e.Value() == -(scale as int)
    ensures hasMoves && tablebase.Some? && tablebase.value != Win && tablebase.value != Loss ==> e.Value() == 0
    // otherwise the network decides
    ensures hasMoves && tablebase.None? ==> e.Value() == netValue
    // so a verdict from a rule or a table never exceeds a win
    ensures !e.Scaled? ==> -(scale as int) <= e.Value() <= scale
  {
    if !hasMoves then
      if inCheck then Mate(scale).Flip() else Evaluation.Draw()
    else if tablebase.Some? then
      match tablebase.value
      case Win => TbWin(scale)
      case Loss => TbLoss(scale)
      case _ => TbDraw()
    else
      Evaluation.Scaled(netValue)
  }

  /** `evaluate_new_state`: the move evaluations pass through untouched and
      the state value is reported from White's point of view. */
  function EvaluateNewState<P>(
    moveEvaluations: seq<P>, hasMoves: bool, inCheck: bool, tablebase: Option<Wdl>,
    netValue: int, stm: Color, scale: Scale): (r: (seq<P>, Evaluation))
    ensures r.0 == moveEvaluations
    ensures r.1 == stm.FoldWb(StateValue(hasMoves, inCheck, tablebase, netValue, scale),
                              StateValue(hasMoves, inCheck, tablebase, netValue, scale).Flip())
  {
    var e := StateValue(hasMoves, inCheck, tablebase, netValue, scale);
    (moveEvaluations, stm.FoldWb(e, e.Flip()))
  }

  /** The White-relative result keeps the kind of verdict and carries the
      side to move's value with White's sign: a mated Black is a win for
      White. */
  lemma EvaluateNewStateWhiteRelative<P>(
    moveEvaluations: seq<P>, hasMoves: bool, inCheck: bool, tablebase: Option<Wdl>,
    netValue: int, stm: Color, scale: Scale)
    ensures var e := StateValue(hasMoves, inCheck, tablebase, netValue, scale);
            var r := EvaluateNewState(moveEvaluations, hasMoves, inCheck, tablebase, netValue, stm, scale).1;
            && r.IsTerminal() == e.IsTerminal()
            && r.IsTablebase() == e.IsTablebase()
            && r.Value() == (if stm == White then e.Value() else -e.Value())
    ensures !hasMoves && inCheck ==>
      EvaluateNewState(moveEvaluations, hasMoves, inCheck, tablebase, netValue, stm, scale).1
        == (if stm == White then Evaluation.Terminal(-(scale as int)) else Evaluation.Terminal(scale))
  {
  }

  /** The same position with the other side to move reports the opposite
      White-relative value. */
  lemma EvaluateNewStateSides<P>(
    moveEvaluations: seq<P>, hasMoves: bool, inCheck: bool, tablebase: Option<Wdl>,
    netValue: int, scale: Scale)
    ensures EvaluateNewState(moveEvaluations, hasMoves, inCheck, tablebase, netValue, Black, scale).1
         == EvaluateNewState(moveEvaluations, hasMoves, inCheck, tablebase, netValue, White, scale).1.Flip()
  {
  }
}
