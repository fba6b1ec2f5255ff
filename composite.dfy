/**
 * Translation of the Guacamole protocol's compositing modes (channel masks)
 * into the drawing library's composition operators
 * (src/guacenc/display.c, guacenc_display_cairo_operator). Operators are
 * tags here: the blending they stand for is the drawing library's.
 */
module Composite {
  import opened Wrappers

  /** The channel masks a protocol instruction can carry; `Other` is any value outside the eleven named ones. */
  datatype CompositeMode =
    | Src | Over | In | Out | Atop
    | ROver | RIn | ROut | RAtop
    | Xor | Plus
    | Other

  /** The Porter-Duff composition operators of the drawing library, plus its additive operator. */
  datatype CairoOperator =
    | Clear | Source | Dest
    | OpOver | OpIn | OpOut | OpAtop
    | DestOver | DestIn | DestOut | DestAtop
    | OpXor | Add

  /** One of the eleven masks the translation names. */
  predicate Recognised(m: CompositeMode) {
    !m.Other?
  }

  /** A mask whose source and destination are the reverse of the usual ones. */
  predicate IsReversed(m: CompositeMode) {
    m.ROver? || m.RIn? || m.ROut? || m.RAtop?
  }

  /** An operator that draws the destination over (in, out, atop) the source. */
  predicate IsDestOperator(op: CairoOperator) {
    op.DestOver? || op.DestIn? || op.DestOut? || op.DestAtop?
  }

  /**
   * The operator for mask `m`. Exactly the reversed masks get a destination
   * operator, and a mask the translation does not name gets OVER.
   */
  function ToCairoOperator(m: CompositeMode): (op: CairoOperator)
    ensures IsDestOperator(op) <==> IsReversed(m)
    ensures !Recognised(m) ==> op == OpOver
    ensures op != Clear && op != Dest
  {
    match m
    case Src => Source
    case Over => OpOver
    case In => OpIn
    case Out => OpOut
    case Atop => OpAtop
    case ROver => DestOver
    case RIn => DestIn
    case ROut => DestOut
    case RAtop => DestAtop
    case Xor => OpXor
    case Plus => Add
    case Other => OpOver
  }

  /** The recognised mask that translates to `op`, if there is one. */
  function ModeOf(op: CairoOperator): (m: Option<CompositeMode>)
    ensures m.Some? ==> Recognised(m.value)
  {
    match op
    case Clear => None
    case Source => Some(Src)
    case Dest => None
    case OpOver => Some(Over)
    case OpIn => Some(In)
    case OpOut => Some(Out)
    case OpAtop => Some(Atop)
    case DestOver => Some(ROver)
    case DestIn => Some(RIn)
    case DestOut => Some(ROut)
    case DestAtop => Some(RAtop)
    case OpXor => Some(Xor)
    case Add => Some(Plus)
  }

  /** The mask with source and destination exchanged; masks without a reversed form map to themselves. */
  function Reverse(m: CompositeMode): CompositeMode {
    match m
    case Over => ROver
    case In => RIn
    case Out => ROut
    case Atop => RAtop
    case ROver => Over
    case RIn => In
    case ROut => Out
    case RAtop => Atop
    case _ => m
  }

  /** The operator with source and destination exchanged. */
  function SwapOperands(op: CairoOperator): CairoOperator {
    match op
    case Source => Dest
    case Dest => Source
    case OpOver => DestOver
    case OpIn => DestIn
    case OpOut => DestOut
    case OpAtop => DestAtop
    case DestOver => OpOver
    case DestIn => OpIn
    case DestOut => OpOut
    case DestAtop => OpAtop
    case _ => op
  }

  /** Every recognised mask is recovered from its operator, and the operators of ModeOf come back unchanged. */
  lemma ModeOfInvertsTranslation(m: CompositeMode, op: CairoOperator)
    ensures Recognised(m) ==> ModeOf(ToCairoOperator(m)) == Some(m)
    ensures ModeOf(op).Some? ==> ToCairoOperator(ModeOf(op).value) == op
  {
  }

  /** The eleven recognised masks translate to eleven different operators. */
  lemma TranslationInjective(m1: CompositeMode, m2: CompositeMode)
    requires Recognised(m1) && Recognised(m2)
    requires ToCairoOperator(m1) == ToCairoOperator(m2)
    ensures m1 == m2
  {
  }

  /**
   * Reversing a mask exchanges the roles of source and destination in its
   * operator: ROVER/RIN/ROUT/RATOP are DEST_OVER/DEST_IN/DEST_OUT/DEST_ATOP.
   * The source mask is left out: the protocol has no reversed source mask.
   */
  lemma ReverseSwapsOperands(m: CompositeMode)
    requires Recognised(m) && !m.Src?
    ensures ToCairoOperator(Reverse(m)) == SwapOperands(ToCairoOperator(m))
  {
  }
}
