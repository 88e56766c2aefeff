/** Evaluating a tree at a width, and the two promises of the width test: a lossless width
    loses nothing, and pruning down to the minimum width changes no bit that is kept. */
module Evaluation {
  import opened Powers
  import opened Widths
  import opened WrapArithmetic

  /** The operands: the bits of every net, the truth of every condition, and the values of
      the self-determined expressions (reductions, shift counts and exponents). */
  datatype Values = Values(net: nat -> nat, truth: Expr -> bool, self: Expr -> nat)

  /** The number that w bits stand for. */
  function Read(bits: nat, w: nat, signed: bool): int {
    if signed && w > 0 then SignedLow(bits, w) else Low(bits, w)
  }

  /** A leaf is extended by the sign of the whole expression; a number without a length
      keeps its own, and a single-bit fill is always replicated. */
  function LeafValue(e: Expr, vals: Values, signed: bool): int
    requires e.Number? || e.Net?
  {
    match e
    case Number(bits, len, hasLen, hasSign, single) => Read(bits, len, single || (if hasLen then signed else hasSign))
    case Net(name, width, _) => Read(vals.net(name), width, signed)
  }

  function Power(x: int, n: nat): int {
    if n == 0 then 1 else x * Power(x, n - 1)
  }

  /** Division that truncates towards zero; a zero divisor, which gives x, is read as 0. */
  function Truncated(x: int, y: int): int {
    if y == 0 then 0
    else if (x < 0) == (y < 0) then Abs(x) / Abs(y)
    else 0 - Abs(x) / Abs(y)
  }

  function BinaryValue(op: BinaryOp, x: int, y: int): int {
    match op
    case Add => x + y
    case Sub => x - y
    case Mul => x * y
    case Div => Truncated(x, y)
    case Mod => if y == 0 then 0 else x - Truncated(x, y) * y
    case Min => if x <= y then x else y
    case Max => if x <= y then y else x
    case _ => Bitwise(op, x, y)
  }

  function ShiftValue(op: ShiftOp, x: int, count: nat): int {
    Pow2Positive(count);
    match op
    case ShiftLeft => x * Pow2(count)
    case ShiftRight => x / Pow2(count)
    case ShiftSigned => x / Pow2(count)
    case Power => Power(x, count)
  }

  /** Wrap-around evaluation: every node computes on vectors of width w, read as signed or
      unsigned numbers where the operation can tell the difference. */
  function Eval(e: Expr, vals: Values, w: nat, signed: bool): nat {
    match e
    case Number(_, _, _, _, _) => Low(LeafValue(e, vals, signed), w)
    case Net(_, _, _) => Low(LeafValue(e, vals, signed), w)
    case Unary(op, operand) => (match op
      case BitNot => Low(-1 - Eval(operand, vals, w, signed), w)
      case Negate => Low(0 - Eval(operand, vals, w, signed), w)
      case Plus => Eval(operand, vals, w, signed)
      case Magnitude => Low(Abs(Read(Eval(operand, vals, w, signed), w, signed)), w)
      case Reduce => Low(vals.self(e), w))
    case Binary(op, left, right) =>
      var numeric := signed && !IsRing(op);
      Low(BinaryValue(op, Read(Eval(left, vals, w, signed), w, numeric), Read(Eval(right, vals, w, signed), w, numeric)), w)
    case Shift(op, base, count, _, _) =>
      Low(ShiftValue(op, Read(Eval(base, vals, w, signed), w, signed && op.ShiftSigned?), vals.self(count)), w)
    case Ternary(cond, tru, fal) => if vals.truth(cond) then Eval(tru, vals, w, signed) else Eval(fal, vals, w, signed)
  }

  /** The operations whose low bits need only the low bits of the operands. */
  predicate IsRing(op: BinaryOp) {
    op.Add? || op.Sub? || op.Mul? || IsBitwise(op)
  }

  predicate IsChoice(op: BinaryOp) {
    op.Min? || op.Max?
  }

  /** All context-determined operations of the tree are of that kind, or choose one of their
      operands, or its negation. */
  predicate Prunable(e: Expr) {
    match e
    case Number(_, _, _, _, _) => true
    case Net(_, _, _) => true
    case Unary(op, operand) => op.Reduce? || Prunable(operand)
    case Binary(op, left, right) => (IsRing(op) || IsChoice(op)) && Prunable(left) && Prunable(right)
    case Shift(op, base, _, _, _) => op.ShiftLeft? && Prunable(base)
    case Ternary(_, tru, fal) => Prunable(tru) && Prunable(fal)
  }

  /** No minimum, maximum or absolute value is in a context-determined position. */
  predicate NoChoices(e: Expr) {
    match e
    case Number(_, _, _, _, _) => true
    case Net(_, _, _) => true
    case Unary(op, operand) => op.Reduce? || (!op.Magnitude? && NoChoices(operand))
    case Binary(op, left, right) => !IsChoice(op) && NoChoices(left) && NoChoices(right)
    case Shift(_, base, _, _, _) => NoChoices(base)
    case Ternary(_, tru, fal) => NoChoices(tru) && NoChoices(fal)
  }

  predicate Local(e: Expr) {
    Prunable(e) && NoChoices(e)
  }

  /** Evaluation on unbounded integers. */
  function Exact(e: Expr, vals: Values, signed: bool): int
    requires Prunable(e)
  {
    match e
    case Number(_, _, _, _, _) => LeafValue(e, vals, signed)
    case Net(_, _, _) => LeafValue(e, vals, signed)
    case Unary(op, operand) => (match op
      case BitNot => -1 - Exact(operand, vals, signed)
      case Negate => 0 - Exact(operand, vals, signed)
      case Plus => Exact(operand, vals, signed)
      case Magnitude => Abs(Exact(operand, vals, signed))
      case Reduce => vals.self(e))
    case Binary(op, left, right) => BinaryValue(op, Exact(left, vals, signed), Exact(right, vals, signed))
    case Shift(_, base, count, _, _) => Exact(base, vals, signed) * Pow2(vals.self(count))
    case Ternary(cond, tru, fal) => if vals.truth(cond) then Exact(tru, vals, signed) else Exact(fal, vals, signed)
  }

  lemma LowIdempotent(x: int, w: nat)
    ensures Low(Low(x, w), w) == Low(x, w)
  {
    LowLow(x, w, w);
  }

  lemma LowBinary(op: BinaryOp, x: int, y: int, w: nat)
    requires IsRing(op)
    ensures Low(BinaryValue(op, Low(x, w), Low(y, w)), w) == Low(BinaryValue(op, x, y), w)
  {
    match op
    case Add => LowAdd(x, y, w);
    case Sub => LowSub(x, y, w);
    case Mul => LowMul(x, y, w);
    case _ => LowBitwise(op, x, y, w);
  }

  lemma LowSubLeft(c: int, x: int, w: nat)
    ensures Low(c - Low(x, w), w) == Low(c - x, w)
  {
    LowSub(c, Low(x, w), w);
    LowIdempotent(x, w);
    LowSub(c, x, w);
  }

  lemma LowMulLeft(x: int, c: int, w: nat)
    ensures Low(Low(x, w) * c, w) == Low(x * c, w)
  {
    LowMul(Low(x, w), c, w);
    LowIdempotent(x, w);
    LowMul(x, c, w);
  }

  /** x is a number of w bits, signed or unsigned. */
  predicate FitsIn(x: int, w: nat, signed: bool) {
    if signed && w > 0 then FitsSigned(x, w) else 0 <= x < Pow2(w)
  }

  /** The unbounded operands of every minimum, maximum and absolute value are numbers of w
      bits. */
  predicate ChoicesFit(e: Expr, vals: Values, w: nat, signed: bool)
    requires Prunable(e)
  {
    match e
    case Number(_, _, _, _, _) => true
    case Net(_, _, _) => true
    case Unary(op, operand) =>
      || op.Reduce?
      || (ChoicesFit(operand, vals, w, signed) && (op.Magnitude? ==> FitsIn(Exact(operand, vals, signed), w, signed)))
    case Binary(op, left, right) =>
      && ChoicesFit(left, vals, w, signed) && ChoicesFit(right, vals, w, signed)
      && (IsChoice(op) ==> FitsIn(Exact(left, vals, signed), w, signed) && FitsIn(Exact(right, vals, signed), w, signed))
    case Shift(_, base, _, _, _) => ChoicesFit(base, vals, w, signed)
    case Ternary(_, tru, fal) => ChoicesFit(tru, vals, w, signed) && ChoicesFit(fal, vals, w, signed)
  }

  lemma {:induction false} NoChoicesFit(e: Expr, vals: Values, w: nat, signed: bool)
    requires Local(e)
    ensures ChoicesFit(e, vals, w, signed)
  {
    match e
    case Number(_, _, _, _, _) =>
    case Net(_, _, _) =>
    case Unary(op, operand) =>
      if !op.Reduce? {
        NoChoicesFit(operand, vals, w, signed);
      }
    case Binary(_, left, right) =>
      NoChoicesFit(left, vals, w, signed);
      NoChoicesFit(right, vals, w, signed);
    case Shift(_, base, _, _, _) =>
      NoChoicesFit(base, vals, w, signed);
    case Ternary(_, tru, fal) =>
      NoChoicesFit(tru, vals, w, signed);
      NoChoicesFit(fal, vals, w, signed);
  }

  /** A number that fits is read back from its low bits. */
  lemma ReadBack(x: int, w: nat, signed: bool)
    requires FitsIn(x, w, signed)
    ensures Read(Low(x, w), w, signed) == x
  {
    LowIdempotent(x, w);
    if signed && w > 0 {
      FitsIsLow(x, w);
    } else {
      DivModUnique(x, Pow2(w), 0, x);
    }
  }

  /** Where the operands of all choices fit, wrap-around evaluation yields the low
      bits of the exact result. */
  lemma {:induction false} FittingEvalIsLow(e: Expr, vals: Values, w: nat, signed: bool)
    requires Prunable(e) && ChoicesFit(e, vals, w, signed)
    ensures Eval(e, vals, w, signed) == Low(Exact(e, vals, signed), w)
  {
    match e
    case Number(_, _, _, _, _) =>
    case Net(_, _, _) =>
    case Unary(op, operand) =>
      if !op.Reduce? {
        FittingEvalIsLow(operand, vals, w, signed);
        if op.Magnitude? {
          ReadBack(Exact(operand, vals, signed), w, signed);
        } else {
          LowSubLeft(if op.BitNot? then -1 else 0, Exact(operand, vals, signed), w);
        }
      }
    case Binary(op, left, right) =>
      FittingEvalIsLow(left, vals, w, signed);
      FittingEvalIsLow(right, vals, w, signed);
      if IsRing(op) {
        LowIdempotent(Exact(left, vals, signed), w);
        LowIdempotent(Exact(right, vals, signed), w);
        LowBinary(op, Exact(left, vals, signed), Exact(right, vals, signed), w);
      } else {
        ReadBack(Exact(left, vals, signed), w, signed);
        ReadBack(Exact(right, vals, signed), w, signed);
      }
    case Shift(_, base, count, _, _) =>
      FittingEvalIsLow(base, vals, w, signed);
      LowIdempotent(Exact(base, vals, signed), w);
      LowMulLeft(Exact(base, vals, signed), Pow2(vals.self(count)), w);
    case Ternary(_, tru, fal) =>
      FittingEvalIsLow(tru, vals, w, signed);
      FittingEvalIsLow(fal, vals, w, signed);
  }

  /** Wrap-around evaluation of a local tree yields the low bits of the exact result. */
  lemma EvalIsLow(e: Expr, vals: Values, w: nat, signed: bool)
    requires Local(e)
    ensures Eval(e, vals, w, signed) == Low(Exact(e, vals, signed), w)
  {
    NoChoicesFit(e, vals, w, signed);
    FittingEvalIsLow(e, vals, w, signed);
  }

  // ---- Pruning ----

  /** Widths as the compiler can hold them. */
  predicate WidthsOk(e: Expr) {
    match e
    case Number(_, len, _, _, _) => len < UINT_MAX
    case Net(_, width, _) => width < UINT_MAX
    case Unary(_, operand) => WidthsOk(operand)
    case Binary(_, left, right) => WidthsOk(left) && WidthsOk(right)
    case Shift(_, base, count, _, _) => WidthsOk(base) && WidthsOk(count)
    case Ternary(_, tru, fal) => WidthsOk(tru) && WidthsOk(fal)
  }

  /** The minimum width is UINT_MAX, which disables pruning, exactly for the trees with an
      operation that looks at more than the low bits, minimum, maximum and absolute value not
      counted. */
  lemma {:induction false} MinWidthSpotsNonLocal(cfg: Config, e: Expr, mode: Mode)
    requires WidthsOk(e)
    ensures TestWidth(cfg, e, mode).minWidth <= UINT_MAX
    ensures TestWidth(cfg, e, mode).minWidth == UINT_MAX <==> !Prunable(e)
    decreases Size(e)
  {
    match e
    case Number(_, _, _, _, _) =>
    case Net(_, _, _) =>
    case Unary(op, operand) =>
      if !op.Reduce? {
        MinWidthSpotsNonLocal(cfg, operand, mode);
      }
    case Binary(op, left, right) =>
      var a := TestWidth(cfg, right, mode);
      var b := TestWidth(cfg, left, a.mode);
      MinWidthSpotsNonLocal(cfg, right, mode);
      MinWidthSpotsNonLocal(cfg, left, a.mode);
      MinWidthSpotsNonLocal(cfg, right, b.mode);
    case Shift(_, base, _, _, _) =>
      MinWidthSpotsNonLocal(cfg, base, SIZED);
    case Ternary(_, tru, fal) =>
      var a := TestWidth(cfg, tru, mode);
      var b := TestWidth(cfg, fal, a.mode);
      MinWidthSpotsNonLocal(cfg, tru, mode);
      MinWidthSpotsNonLocal(cfg, fal, a.mode);
      MinWidthSpotsNonLocal(cfg, tru, b.mode);
  }

  /** At its minimum width, or any larger one, a tree has the same low bits as at any
      larger width still. */
  lemma PruneKeepsLowBits(cfg: Config, e: Expr, mode: Mode, vals: Values, w: nat, full: nat, signed: bool)
    requires WidthsOk(e) && NoChoices(e)
    requires TestWidth(cfg, e, mode).minWidth <= w <= full && w < UINT_MAX
    ensures Low(Eval(e, vals, full, signed), w) == Eval(e, vals, w, signed)
  {
    MinWidthSpotsNonLocal(cfg, e, mode);
    EvalIsLow(e, vals, w, signed);
    EvalIsLow(e, vals, full, signed);
    LowLow(Exact(e, vals, signed), w, full);
  }

  /** The width chosen for an expression on the right of an assignment to `context` bits. */
  function FullWidth(t: Tested, context: nat): nat {
    if t.exprWidth < context then context else t.exprWidth
  }

  function PrunedWidth(t: Tested, context: nat): nat {
    if t.minWidth != UINT_MAX && context > 0 && FullWidth(t, context) > context then Larger(t.minWidth, context)
    else FullWidth(t, context)
  }

  /** Which operand a minimum or maximum of two expressions hands on at width w. */
  predicate Precedes(left: Expr, right: Expr, vals: Values, w: nat, signed: bool) {
    Read(Eval(left, vals, w, signed), w, signed) <= Read(Eval(right, vals, w, signed), w, signed)
  }

  /** Whether an absolute value negates its operand at width w. */
  predicate Below(operand: Expr, vals: Values, w: nat, signed: bool) {
    Read(Eval(operand, vals, w, signed), w, signed) < 0
  }

  /** Every minimum and maximum hands on the same operand at both widths, and every absolute
      value negates its operand at both or at neither. */
  predicate SameChoices(e: Expr, vals: Values, w: nat, w': nat, signed: bool) {
    match e
    case Number(_, _, _, _, _) => true
    case Net(_, _, _) => true
    case Unary(op, operand) =>
      || op.Reduce?
      || (SameChoices(operand, vals, w, w', signed)
          && (op.Magnitude? ==> Below(operand, vals, w, signed) == Below(operand, vals, w', signed)))
    case Binary(op, left, right) =>
      && SameChoices(left, vals, w, w', signed) && SameChoices(right, vals, w, w', signed)
      && (IsChoice(op) ==> Precedes(left, right, vals, w, signed) == Precedes(left, right, vals, w', signed))
    case Shift(_, base, _, _, _) => SameChoices(base, vals, w, w', signed)
    case Ternary(_, tru, fal) => SameChoices(tru, vals, w, w', signed) && SameChoices(fal, vals, w, w', signed)
  }

  lemma {:induction false} NoChoicesAreSame(e: Expr, vals: Values, w: nat, w': nat, signed: bool)
    requires NoChoices(e)
    ensures SameChoices(e, vals, w, w', signed)
  {
    match e
    case Number(_, _, _, _, _) =>
    case Net(_, _, _) =>
    case Unary(op, operand) =>
      if !op.Reduce? {
        NoChoicesAreSame(operand, vals, w, w', signed);
      }
    case Binary(_, left, right) =>
      NoChoicesAreSame(left, vals, w, w', signed);
      NoChoicesAreSame(right, vals, w, w', signed);
    case Shift(_, base, _, _, _) =>
      NoChoicesAreSame(base, vals, w, w', signed);
    case Ternary(_, tru, fal) =>
      NoChoicesAreSame(tru, vals, w, w', signed);
      NoChoicesAreSame(fal, vals, w, w', signed);
  }

  /** Operands that fit both widths are compared as the unbounded ones are. */
  lemma {:induction false} FittingChoicesAreSame(e: Expr, vals: Values, w: nat, w': nat, signed: bool)
    requires Prunable(e) && ChoicesFit(e, vals, w, signed) && ChoicesFit(e, vals, w', signed)
    ensures SameChoices(e, vals, w, w', signed)
  {
    match e
    case Number(_, _, _, _, _) =>
    case Net(_, _, _) =>
    case Unary(op, operand) =>
      if !op.Reduce? {
        FittingChoicesAreSame(operand, vals, w, w', signed);
        if op.Magnitude? {
          FittingBelow(operand, vals, w, signed);
          FittingBelow(operand, vals, w', signed);
        }
      }
    case Binary(op, left, right) =>
      FittingChoicesAreSame(left, vals, w, w', signed);
      FittingChoicesAreSame(right, vals, w, w', signed);
      if IsChoice(op) {
        FittingPrecedes(left, right, vals, w, signed);
        FittingPrecedes(left, right, vals, w', signed);
      }
    case Shift(_, base, _, _, _) =>
      FittingChoicesAreSame(base, vals, w, w', signed);
    case Ternary(_, tru, fal) =>
      FittingChoicesAreSame(tru, vals, w, w', signed);
      FittingChoicesAreSame(fal, vals, w, w', signed);
  }

  lemma FittingPrecedes(left: Expr, right: Expr, vals: Values, w: nat, signed: bool)
    requires Prunable(left) && ChoicesFit(left, vals, w, signed) && FitsIn(Exact(left, vals, signed), w, signed)
    requires Prunable(right) && ChoicesFit(right, vals, w, signed) && FitsIn(Exact(right, vals, signed), w, signed)
    ensures Precedes(left, right, vals, w, signed) <==> Exact(left, vals, signed) <= Exact(right, vals, signed)
  {
    FittingEvalIsLow(left, vals, w, signed);
    FittingEvalIsLow(right, vals, w, signed);
    ReadBack(Exact(left, vals, signed), w, signed);
    ReadBack(Exact(right, vals, signed), w, signed);
  }

  lemma FittingBelow(operand: Expr, vals: Values, w: nat, signed: bool)
    requires Prunable(operand) && ChoicesFit(operand, vals, w, signed) && FitsIn(Exact(operand, vals, signed), w, signed)
    ensures Below(operand, vals, w, signed) <==> Exact(operand, vals, signed) < 0
  {
    FittingEvalIsLow(operand, vals, w, signed);
    ReadBack(Exact(operand, vals, signed), w, signed);
  }

  /** Reading bits as a signed number does not change them. */
  lemma LowRead(bits: nat, w: nat, signed: bool, m: nat)
    requires m <= w
    ensures Low(Read(bits, w, signed), m) == Low(bits, m)
  {
    LowLow(bits, m, w);
    if signed && w > 0 && Low(bits, w) >= Pow2(w - 1) {
      LowShift(Low(bits, w), -1, w);
      LowLow(Low(bits, w) - Pow2(w), m, w);
      LowLow(Low(bits, w), m, w);
    }
  }

  /** What the low m bits of an operation on w bits depend on. */
  lemma LowOfBinary(op: BinaryOp, x: nat, y: nat, w: nat, m: nat)
    requires IsRing(op) && m <= w
    ensures Low(Low(BinaryValue(op, Low(x, w), Low(y, w)), w), m) == Low(BinaryValue(op, Low(x, m), Low(y, m)), m)
  {
    LowLow(BinaryValue(op, Low(x, w), Low(y, w)), m, w);
    LowBinary(op, Low(x, w), Low(y, w), m);
    LowLow(x, m, w);
    LowLow(y, m, w);
  }

  /** What a minimum or maximum on w bits leaves on the low m. */
  lemma LowOfChoice(op: BinaryOp, x: nat, y: nat, w: nat, signed: bool, m: nat)
    requires IsChoice(op) && m <= w
    ensures var first := (Read(x, w, signed) <= Read(y, w, signed)) == op.Min?;
            Low(Low(BinaryValue(op, Read(x, w, signed), Read(y, w, signed)), w), m) == Low(if first then x else y, m)
  {
    LowLow(BinaryValue(op, Read(x, w, signed), Read(y, w, signed)), m, w);
    LowRead(x, w, signed, m);
    LowRead(y, w, signed, m);
  }

  /** Two widths at which all choices are alike agree on the bits they share. */
  lemma {:induction false} SameChoicesSameBits(e: Expr, vals: Values, w: nat, w': nat, signed: bool, m: nat)
    requires Prunable(e) && SameChoices(e, vals, w, w', signed) && m <= w && m <= w'
    ensures Low(Eval(e, vals, w, signed), m) == Low(Eval(e, vals, w', signed), m)
  {
    match e
    case Number(_, _, _, _, _) => LeafBits(LeafValue(e, vals, signed), w, w', m);
    case Net(_, _, _) => LeafBits(LeafValue(e, vals, signed), w, w', m);
    case Unary(op, operand) =>
      if op.Reduce? {
        LeafBits(vals.self(e), w, w', m);
      } else if op.Magnitude? {
        SameChoicesSameBits(operand, vals, w, w', signed, m);
        MagnitudeBits(operand, vals, w, signed, m);
        MagnitudeBits(operand, vals, w', signed, m);
      } else {
        SameChoicesSameBits(operand, vals, w, w', signed, m);
        var c := if op.BitNot? then -1 else 0;
        ComplementBits(c, Eval(operand, vals, w, signed), w, m);
        ComplementBits(c, Eval(operand, vals, w', signed), w', m);
      }
    case Binary(op, left, right) =>
      SameChoicesSameBits(left, vals, w, w', signed, m);
      SameChoicesSameBits(right, vals, w, w', signed, m);
      BinaryBits(op, left, right, vals, w, signed, m);
      BinaryBits(op, left, right, vals, w', signed, m);
    case Shift(_, base, count, _, _) =>
      SameChoicesSameBits(base, vals, w, w', signed, m);
      ShiftBits(Eval(base, vals, w, signed), Pow2(vals.self(count)), w, m);
      ShiftBits(Eval(base, vals, w', signed), Pow2(vals.self(count)), w', m);
    case Ternary(_, tru, fal) =>
      SameChoicesSameBits(tru, vals, w, w', signed, m);
      SameChoicesSameBits(fal, vals, w, w', signed, m);
  }

  lemma LeafBits(x: int, w: nat, w': nat, m: nat)
    requires m <= w && m <= w'
    ensures Low(Low(x, w), m) == Low(Low(x, w'), m)
  {
    LowLow(x, m, w);
    LowLow(x, m, w');
  }

  lemma ComplementBits(c: int, x: nat, w: nat, m: nat)
    requires m <= w
    ensures Low(Low(c - x, w), m) == Low(c - Low(x, m), m)
  {
    LowLow(c - x, m, w);
    LowSubLeft(c, x, m);
  }

  /** What an absolute value on w bits leaves on the low m. */
  lemma MagnitudeBits(operand: Expr, vals: Values, w: nat, signed: bool, m: nat)
    requires m <= w
    ensures var x := Low(Eval(operand, vals, w, signed), m);
            Low(Eval(Unary(Magnitude, operand), vals, w, signed), m) ==
            if Below(operand, vals, w, signed) then Low(0 - x, m) else x
  {
    var x := Eval(operand, vals, w, signed);
    var y := Read(x, w, signed);
    LowLow(Abs(y), m, w);
    LowRead(x, w, signed, m);
    LowSubLeft(0, y, m);
  }

  lemma ShiftBits(x: nat, c: nat, w: nat, m: nat)
    requires m <= w
    ensures Low(Low(Low(x, w) * c, w), m) == Low(Low(x, m) * c, m)
  {
    LowLow(Low(x, w) * c, m, w);
    LowMulLeft(Low(x, w), c, m);
    LowLow(x, m, w);
  }

  /** The low m bits of an operation from those of its operands at width w. */
  lemma BinaryBits(op: BinaryOp, left: Expr, right: Expr, vals: Values, w: nat, signed: bool, m: nat)
    requires (IsRing(op) || IsChoice(op)) && m <= w
    ensures var x, y := Low(Eval(left, vals, w, signed), m), Low(Eval(right, vals, w, signed), m);
            Low(Eval(Binary(op, left, right), vals, w, signed), m) ==
            if IsRing(op) then Low(BinaryValue(op, x, y), m)
            else if Precedes(left, right, vals, w, signed) == op.Min? then x
            else y
  {
    var x, y := Eval(left, vals, w, signed), Eval(right, vals, w, signed);
    if IsRing(op) {
      LowOfBinary(op, x, y, w, m);
    } else {
      LowOfChoice(op, x, y, w, signed, m);
    }
  }

  /** Pruning changes no bit that the assignment keeps, be the pruned width smaller or larger
      than the full one, if it changes no choice of a minimum, maximum or absolute value. */
  lemma PruningKeepsContext(cfg: Config, e: Expr, mode: Mode, vals: Values, context: nat, signed: bool)
    requires WidthsOk(e)
    requires var t := TestWidth(cfg, e, mode);
             SameChoices(e, vals, PrunedWidth(t, context), FullWidth(t, context), signed)
    ensures var t := TestWidth(cfg, e, mode);
            Low(Eval(e, vals, PrunedWidth(t, context), signed), context) ==
            Low(Eval(e, vals, FullWidth(t, context), signed), context)
  {
    var t := TestWidth(cfg, e, mode);
    MinWidthSpotsNonLocal(cfg, e, mode);
    if PrunedWidth(t, context) != FullWidth(t, context) {
      SameChoicesSameBits(e, vals, PrunedWidth(t, context), FullWidth(t, context), signed, context);
    }
  }

  /** It changes none where there is nothing to choose, or where the operands fit. */
  lemma ChoicesKept(cfg: Config, e: Expr, mode: Mode, vals: Values, context: nat, signed: bool)
    requires WidthsOk(e)
    ensures var t := TestWidth(cfg, e, mode);
            NoChoices(e) || (Prunable(e) && ChoicesFit(e, vals, PrunedWidth(t, context), signed)
                                        && ChoicesFit(e, vals, FullWidth(t, context), signed)) ==>
            && SameChoices(e, vals, PrunedWidth(t, context), FullWidth(t, context), signed)
            && Low(Eval(e, vals, PrunedWidth(t, context), signed), context) ==
               Low(Eval(e, vals, FullWidth(t, context), signed), context)
  {
    var t := TestWidth(cfg, e, mode);
    var w, full := PrunedWidth(t, context), FullWidth(t, context);
    if NoChoices(e) {
      NoChoicesAreSame(e, vals, w, full, signed);
      PruningKeepsContext(cfg, e, mode, vals, context, signed);
    } else if Prunable(e) && ChoicesFit(e, vals, w, signed) && ChoicesFit(e, vals, full, signed) {
      FittingChoicesAreSame(e, vals, w, full, signed);
      PruningKeepsContext(cfg, e, mode, vals, context, signed);
    }
  }

  /** For the outermost minimum or maximum the condition is exact: pruning keeps the assigned
      bits if and only if it keeps the choice, or both operands have the same bits there. */
  lemma ChoicePrunedExactly(cfg: Config, op: BinaryOp, left: Expr, right: Expr, mode: Mode, vals: Values,
                            context: nat, signed: bool)
    requires IsChoice(op) && WidthsOk(left) && WidthsOk(right)
    requires var t := TestWidth(cfg, Binary(op, left, right), mode);
             && SameChoices(left, vals, PrunedWidth(t, context), FullWidth(t, context), signed)
             && SameChoices(right, vals, PrunedWidth(t, context), FullWidth(t, context), signed)
    ensures var t := TestWidth(cfg, Binary(op, left, right), mode);
            ChoiceKept(op, left, right, vals, PrunedWidth(t, context), FullWidth(t, context), signed, context)
  {
    var e := Binary(op, left, right);
    var t := TestWidth(cfg, e, mode);
    var w, full := PrunedWidth(t, context), FullWidth(t, context);
    MinWidthSpotsNonLocal(cfg, e, mode);
    if w != full {
      SameChoicesSameBits(left, vals, w, full, signed, context);
      SameChoicesSameBits(right, vals, w, full, signed, context);
      BinaryBits(op, left, right, vals, w, signed, context);
      BinaryBits(op, left, right, vals, full, signed, context);
    }
  }

  /** The low m bits are the same at both widths exactly if the choice is, or the low m bits
      of both operands are. */
  predicate ChoiceKept(op: BinaryOp, left: Expr, right: Expr, vals: Values, w: nat, w': nat, signed: bool, m: nat) {
    Low(Eval(Binary(op, left, right), vals, w, signed), m) == Low(Eval(Binary(op, left, right), vals, w', signed), m)
    <==>
    Precedes(left, right, vals, w, signed) == Precedes(left, right, vals, w', signed)
    || Low(Eval(left, vals, w, signed), m) == Low(Eval(right, vals, w, signed), m)
  }

  /** Likewise for the outermost absolute value: it keeps whether the operand is negated, or
      the operand and its negation have the same bits there. */
  lemma MagnitudePrunedExactly(cfg: Config, operand: Expr, mode: Mode, vals: Values, context: nat, signed: bool)
    requires WidthsOk(operand)
    requires var t := TestWidth(cfg, Unary(Magnitude, operand), mode);
             SameChoices(operand, vals, PrunedWidth(t, context), FullWidth(t, context), signed)
    ensures var t := TestWidth(cfg, Unary(Magnitude, operand), mode);
            MagnitudeKept(operand, vals, PrunedWidth(t, context), FullWidth(t, context), signed, context)
  {
    var t := TestWidth(cfg, Unary(Magnitude, operand), mode);
    var w, full := PrunedWidth(t, context), FullWidth(t, context);
    MinWidthSpotsNonLocal(cfg, Unary(Magnitude, operand), mode);
    if w != full {
      SameChoicesSameBits(operand, vals, w, full, signed, context);
      MagnitudeBits(operand, vals, w, signed, context);
      MagnitudeBits(operand, vals, full, signed, context);
    }
  }

  predicate MagnitudeKept(operand: Expr, vals: Values, w: nat, w': nat, signed: bool, m: nat) {
    var x := Low(Eval(operand, vals, w, signed), m);
    Low(Eval(Unary(Magnitude, operand), vals, w, signed), m) == Low(Eval(Unary(Magnitude, operand), vals, w', signed), m)
    <==>
    Below(operand, vals, w, signed) == Below(operand, vals, w', signed) || x == Low(0 - x, m)
  }

  lemma SmallPowers()
    ensures Pow2(0) == 1 && Pow2(1) == 2 && Pow2(2) == 4 && Pow2(3) == 8 && Pow2(4) == 16
  {
  }

  /** A division does look at the higher bits, so its pruning must be disabled: 4 / 4 on two
      bits is 0 / 0. */
  lemma DivisionIsNotLocal()
    ensures var e := Binary(Div, Net(0, 3, false), Net(1, 3, false));
            var vals := Values(_ => 4, _ => true, _ => 0);
            Low(Eval(e, vals, 3, false), 2) != Eval(e, vals, 2, false)
  {
    SmallPowers();
    var e := Binary(Div, Net(0, 3, false), Net(1, 3, false));
    var vals := Values(_ => 4, _ => true, _ => 0);
    assert Eval(Net(0, 3, false), vals, 3, false) == 4 && Eval(Net(1, 3, false), vals, 3, false) == 4;
    assert Eval(Net(0, 3, false), vals, 2, false) == 0 && Eval(Net(1, 3, false), vals, 2, false) == 0;
  }

  /** The minimum of a + 1 and b, for a two-bit a, a one-bit b and an unsized 1. */
  function MinimumOfSum(): Expr {
    Binary(Min, Binary(Add, Net(0, 2, false), Number(1, 2, false, true, false)), Net(1, 1, false))
  }

  /** a is 3 and b is 1. */
  function ThreeAndOne(): Values {
    Values(n => if n == 0 then 3 else 1, _ => true, _ => 0)
  }

  lemma SmallLow(x: nat, w: nat)
    requires w >= 2 && x < 8 && (w == 2 ==> x < 4)
    ensures Low(x, w) == x
  {
    SmallPowers();
    if w > 2 {
      Pow2Monotone(3, w);
    }
    DivModUnique(x, Pow2(w), 0, x);
  }

  /** Is a + 1 at most b? On two bits it wraps around. */
  lemma MinimumChoices(w: nat)
    requires w >= 2
    ensures Eval(Net(1, 1, false), ThreeAndOne(), w, false) == 1
    ensures Eval(MinimumOfSum().left, ThreeAndOne(), w, false) == if w == 2 then 0 else 4
    ensures Precedes(MinimumOfSum().left, Net(1, 1, false), ThreeAndOne(), w, false) == (w == 2)
  {
    SmallPowers();
    var a, one, b, vals := Net(0, 2, false), Number(1, 2, false, true, false), Net(1, 1, false), ThreeAndOne();
    SmallLow(3, w);
    SmallLow(1, w);
    assert Low(1, 1) == 1 && SignedLow(1, 2) == 1 && Low(3, 2) == 3;
    assert Eval(a, vals, w, false) == 3 && Eval(one, vals, w, false) == 1 && Eval(b, vals, w, false) == 1;
    assert Eval(MinimumOfSum().left, vals, w, false) == Low(4, w);
    if w > 2 {
      SmallLow(4, w);
      SmallLow(1, w);
    }
  }

  lemma MinimumBit(w: nat)
    requires w >= 2
    ensures Low(Eval(MinimumOfSum(), ThreeAndOne(), w, false), 1) == if w == 2 then 0 else 1
  {
    SmallPowers();
    MinimumChoices(w);
    BinaryBits(Min, MinimumOfSum().left, Net(1, 1, false), ThreeAndOne(), w, false, 1);
  }

  lemma MinimumTested(cfg: Config)
    requires !cfg.strict && cfg.integerWidth == 32
    ensures TestWidth(cfg, MinimumOfSum(), SIZED) == Tested(32, UNSIZED, 32, 2, false)
  {
    var a, one, b := Net(0, 2, false), Number(1, 2, false, true, false), Net(1, 1, false);
    var sum := Binary(Add, a, one);
    assert TestPair(cfg, one, a, SIZED) ==
      Pair(Tested(32, UNSIZED, 32, 2, true), Tested(2, UNSIZED, 2, 2, false), UNSIZED);
    assert TestWidth(cfg, sum, SIZED) == Tested(32, UNSIZED, 32, 2, false);
    assert TestPair(cfg, b, sum, SIZED) ==
      Pair(Tested(1, SIZED, 1, 1, false), Tested(32, UNSIZED, 32, 2, false), UNSIZED);
  }

  /** A minimum looks at the higher bits as well, but does not disable pruning. Assigned to
      one bit, the minimum of 3 + 1 and 1 is pruned from 32 bits to two and becomes 0. */
  lemma MinimumIsPrunedWrongly(cfg: Config)
    requires !cfg.strict && cfg.integerWidth == 32
    ensures var t := TestWidth(cfg, MinimumOfSum(), SIZED);
            && WidthsOk(MinimumOfSum()) && FullWidth(t, 1) == 32 && PrunedWidth(t, 1) == 2
            && Low(Eval(MinimumOfSum(), ThreeAndOne(), FullWidth(t, 1), false), 1) == 1
            && Low(Eval(MinimumOfSum(), ThreeAndOne(), PrunedWidth(t, 1), false), 1) == 0
  {
    MinimumTested(cfg);
    MinimumBit(2);
    MinimumBit(32);
  }

  /** The sum of a signed four-bit a and an unsized 2. */
  function SignedSum(): Expr {
    Binary(Add, Net(0, 4, true), Number(2, 3, false, true, false))
  }

  /** a is 7. */
  function Seven(): Values {
    Values(_ => 7, _ => true, _ => 0)
  }

  /** The sum is 9, which is negative on four bits only. */
  lemma SumOnBits(w: nat)
    requires w == 4 || w > 4
    ensures Eval(SignedSum(), Seven(), w, true) == 9 && Below(SignedSum(), Seven(), w, true) == (w == 4)
  {
    SmallPowers();
    var a, two, vals := Net(0, 4, true), Number(2, 3, false, true, false), Seven();
    Pow2Monotone(4, w);
    assert SignedLow(7, 4) == 7 && SignedLow(2, 3) == 2;
    DivModUnique(7, Pow2(w), 0, 7);
    DivModUnique(2, Pow2(w), 0, 2);
    DivModUnique(9, Pow2(w), 0, 9);
    assert Eval(a, vals, w, true) == 7 && Eval(two, vals, w, true) == 2;
    if w > 4 {
      Pow2Monotone(4, w - 1);
    }
  }

  lemma SignedSumTested(cfg: Config)
    requires !cfg.strict && cfg.integerWidth == 32
    ensures TestWidth(cfg, Unary(Magnitude, SignedSum()), SIZED) == Tested(32, UNSIZED, 32, 4, true)
  {
    var a, two := Net(0, 4, true), Number(2, 3, false, true, false);
    assert TestPair(cfg, two, a, SIZED) == Pair(Tested(32, UNSIZED, 32, 3, true), Tested(4, UNSIZED, 4, 4, true), UNSIZED);
    assert TestWidth(cfg, SignedSum(), SIZED) == Tested(32, UNSIZED, 32, 4, true);
  }

  /** So does an absolute value. Assigned to three bits, the magnitude of 7 + 2 is pruned from
      32 bits to four, and its low bits change from 001 to 111. */
  lemma MagnitudeIsPrunedWrongly(cfg: Config)
    requires !cfg.strict && cfg.integerWidth == 32
    ensures var e := Unary(Magnitude, SignedSum());
            var t := TestWidth(cfg, e, SIZED);
            && WidthsOk(e) && FullWidth(t, 3) == 32 && PrunedWidth(t, 3) == 4
            && Low(Eval(e, Seven(), FullWidth(t, 3), true), 3) == 1
            && Low(Eval(e, Seven(), PrunedWidth(t, 3), true), 3) == 7
  {
    SmallPowers();
    SignedSumTested(cfg);
    SumOnBits(4);
    SumOnBits(32);
    MagnitudeBits(SignedSum(), Seven(), 4, true, 3);
    MagnitudeBits(SignedSum(), Seven(), 32, true, 3);
    assert Low(9, 3) == 1 && Low(-1, 3) == 7;
  }

  // ---- Lossless widths ----

  /** Signed operands under sums, products, bitwise operations and conditionals. */
  predicate LosslessTree(e: Expr) {
    match e
    case Number(_, len, _, hasSign, single) => len > 0 && hasSign && !single
    case Net(_, width, signed) => width > 0 && signed
    case Unary(op, operand) => (op.BitNot? || op.Plus?) && LosslessTree(operand)
    case Binary(op, left, right) => IsRing(op) && LosslessTree(left) && LosslessTree(right)
    case Shift(_, _, _, _, _) => false
    case Ternary(_, tru, fal) => LosslessTree(tru) && LosslessTree(fal)
  }

  lemma {:induction false} LosslessIsLocal(e: Expr)
    requires LosslessTree(e)
    ensures Local(e)
  {
    match e
    case Number(_, _, _, _, _) =>
    case Net(_, _, _) =>
    case Unary(_, operand) => LosslessIsLocal(operand);
    case Binary(_, left, right) =>
      LosslessIsLocal(left);
      LosslessIsLocal(right);
    case Ternary(_, tru, fal) =>
      LosslessIsLocal(tru);
      LosslessIsLocal(fal);
  }

  lemma ReadFits(bits: nat, w: nat)
    requires w > 0
    ensures FitsSigned(Read(bits, w, true), w)
  {
    Pow2Positive(w - 1);
    Pow2Positive(w);
  }

  lemma {:induction false} SignedStays(cfg: Config, e: Expr, mode: Mode)
    requires LosslessTree(e)
    ensures TestWidth(cfg, e, mode).signed
    decreases Size(e)
  {
    match e
    case Number(_, _, _, _, _) =>
    case Net(_, _, _) =>
    case Unary(_, operand) => SignedStays(cfg, operand, mode);
    case Binary(_, left, right) =>
      var a := TestWidth(cfg, right, mode);
      var b := TestWidth(cfg, left, a.mode);
      SignedStays(cfg, right, mode);
      SignedStays(cfg, left, a.mode);
      SignedStays(cfg, right, b.mode);
    case Ternary(_, tru, fal) =>
      var a := TestWidth(cfg, tru, mode);
      var b := TestWidth(cfg, fal, a.mode);
      SignedStays(cfg, tru, mode);
      SignedStays(cfg, fal, a.mode);
      SignedStays(cfg, tru, b.mode);
  }

  /** What both operands of a pair fit. */
  lemma {:induction false} PairFits(cfg: Config, first: Expr, second: Expr, mode: Mode, vals: Values)
    requires !cfg.strict && LosslessTree(first) && LosslessTree(second) && AtLeast(mode, EXPAND)
    requires Local(first) && Local(second)
    ensures var p := TestPair(cfg, first, second, mode);
            && FitsSigned(Exact(first, vals, true), p.first.width) && FitsSigned(Exact(second, vals, true), p.second.width)
            && AtLeast(p.mode, EXPAND) && p.first.signed && p.second.signed
    decreases Size(first) + Size(second), 1
  {
    var a := TestWidth(cfg, first, mode);
    var b := TestWidth(cfg, second, a.mode);
    PairNeverFalls(cfg, first, second, mode);
    ExactFits(cfg, first, mode, vals);
    ExactFits(cfg, first, b.mode, vals);
    ExactFits(cfg, second, a.mode, vals);
    SignedStays(cfg, first, mode);
    SignedStays(cfg, first, b.mode);
    SignedStays(cfg, second, a.mode);
  }

  lemma BinaryFits(op: BinaryOp, x: int, y: int, m: nat, n: nat)
    requires IsRing(op) && FitsSigned(x, m) && FitsSigned(y, n)
    ensures var w := if op.Mul? then m + n else if op.Add? || op.Sub? then Larger(m, n) + 1 else Larger(m, n);
            FitsSigned(BinaryValue(op, x, y), w)
  {
    FitsWider(x, m, Larger(m, n));
    FitsWider(y, n, Larger(m, n));
    match op
    case Add => SumFits(x, y, Larger(m, n));
    case Sub => SumFits(x, y, Larger(m, n));
    case Mul => ProductFits(x, y, m, n);
    case _ => BitwiseFits(op, x, y, Larger(m, n));
  }

  /** In expanding modes the calculated width holds the exact result. */
  lemma {:induction false} ExactFits(cfg: Config, e: Expr, mode: Mode, vals: Values)
    requires !cfg.strict && LosslessTree(e) && Local(e) && AtLeast(mode, EXPAND)
    ensures FitsSigned(Exact(e, vals, true), TestWidth(cfg, e, mode).width)
    decreases Size(e), 0
  {
    match e
    case Number(bits, len, _, _, _) =>
      ReadFits(bits, len);
      FitsWider(Read(bits, len, true), len, TestWidth(cfg, e, mode).width);
    case Net(name, width, _) =>
      ReadFits(vals.net(name), width);
    case Unary(op, operand) =>
      ExactFits(cfg, operand, mode, vals);
    case Binary(op, left, right) =>
      PairFits(cfg, right, left, mode, vals);
      var p := TestPair(cfg, right, left, mode);
      BinaryFits(op, Exact(left, vals, true), Exact(right, vals, true), p.second.width, p.first.width);
    case Ternary(_, tru, fal) =>
      PairFits(cfg, tru, fal, mode, vals);
      var p := TestPair(cfg, tru, fal, mode);
      var w := Larger(p.first.width, p.second.width);
      FitsWider(Exact(tru, vals, true), p.first.width, w);
      FitsWider(Exact(fal, vals, true), p.second.width, w);
  }

  /** A test that starts in EXPAND mode, or that ends lossless from whatever mode, finds a
      width at which, as at any larger one, wrap-around evaluation is exact. */
  lemma LosslessWidthIsExact(cfg: Config, e: Expr, mode: Mode, vals: Values, w: nat)
    requires !cfg.strict && LosslessTree(e)
    requires AtLeast(mode, EXPAND) || AtLeast(TestWidth(cfg, e, mode).mode, LOSSLESS)
    requires w >= TestWidth(cfg, e, mode).width
    ensures Local(e) && w > 0
    ensures SignedLow(Eval(e, vals, w, true), w) == Exact(e, vals, true)
  {
    LosslessIsLocal(e);
    if AtLeast(mode, EXPAND) {
      ExactFits(cfg, e, mode, vals);
    } else {
      EndsLossless(cfg, e, mode);
      ExactFits(cfg, e, LOSSLESS, vals);
    }
    var x := Exact(e, vals, true);
    FitsWider(x, TestWidth(cfg, e, mode).width, w);
    EvalIsLow(e, vals, w, true);
    LowIdempotent(x, w);
    FitsIsLow(x, w);
  }

  /** Negation keeps the width of its operand. Its wrap-around value is exact unless the
      operand is the most negative number of that width. */
  lemma NegationIsExactIff(e: Expr, vals: Values, w: nat)
    requires Local(e) && FitsSigned(Exact(e, vals, true), w)
    ensures SignedLow(Eval(Unary(Negate, e), vals, w, true), w) == 0 - Exact(e, vals, true)
       <==> Exact(e, vals, true) != 0 - Pow2(w - 1)
  {
    var x := Exact(e, vals, true);
    EvalIsLow(Unary(Negate, e), vals, w, true);
    LowIdempotent(-x, w);
    if x != 0 - Pow2(w - 1) {
      FitsIsLow(-x, w);
    } else {
      Pow2Positive(w - 1);
      LowShift(-x, -1, w);
      FitsIsLow(x, w);
    }
  }

  /** An absolute value keeps the width of its operand too, and is exact save for that number. */
  lemma MagnitudeIsExactIff(e: Expr, vals: Values, w: nat)
    requires Prunable(e) && ChoicesFit(e, vals, w, true) && FitsSigned(Exact(e, vals, true), w)
    ensures SignedLow(Eval(Unary(Magnitude, e), vals, w, true), w) == Abs(Exact(e, vals, true))
       <==> Exact(e, vals, true) != 0 - Pow2(w - 1)
  {
    var x := Exact(e, vals, true);
    FittingEvalIsLow(Unary(Magnitude, e), vals, w, true);
    LowIdempotent(Abs(x), w);
    if x != 0 - Pow2(w - 1) {
      FitsIsLow(Abs(x), w);
    } else {
      Pow2Positive(w - 1);
      LowShift(-x, -1, w);
      FitsIsLow(x, w);
    }
  }
}
