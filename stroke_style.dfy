/** The cap and join switches of BSVGView::_SetupStrokeStyle. */
module StrokeStyle {
  import opened NanoSvg
  import opened Surface

  /** The nanosvg code of a cap mode. */
  function CapCode(m: CapMode): int
  {
    match m
    case ButtCap => CapButt
    case RoundCap => CapRound
    case SquareCap => CapSquare
  }

  function JoinCode(m: JoinMode): int
  {
    match m
    case MiterJoin => JoinMiter
    case RoundJoin => JoinRound
    case BevelJoin => JoinBevel
  }

  /** BSVGView.cpp:446-459: each nanosvg cap code selects the cap of the
      same name; any other code leaves the butt cap. */
  function CapFor(code: int): (m: CapMode)
    ensures code in {CapButt, CapRound, CapSquare} ==> CapCode(m) == code
    ensures code !in {CapButt, CapRound, CapSquare} ==> m == ButtCap
  {
    if code == CapButt then ButtCap
    else if code == CapRound then RoundCap
    else if code == CapSquare then SquareCap
    else ButtCap
  }

  /** BSVGView.cpp:447-471: each nanosvg join code selects the join of the
      same name; any other code leaves the miter join. */
  function JoinFor(code: int): (m: JoinMode)
    ensures code in {JoinMiter, JoinRound, JoinBevel} ==> JoinCode(m) == code
    ensures code !in {JoinMiter, JoinRound, JoinBevel} ==> m == MiterJoin
  {
    if code == JoinMiter then MiterJoin
    else if code == JoinRound then RoundJoin
    else if code == JoinBevel then BevelJoin
    else MiterJoin
  }

  /** Every cap and join mode is selected by its own code. */
  lemma StyleCodesRoundTrip(c: CapMode, j: JoinMode)
    ensures CapFor(CapCode(c)) == c
    ensures JoinFor(JoinCode(j)) == j
  {
  }
}
