/** What the width test finds, in terms of the operands that share the context of an
    expression: its sign, its width, its minimum width and whether it must be upsized. */
module ContextSizes {
  import opened Widths
  import E = Evaluation

  /** An operand in a context-determined position: its own width and sign, and whether it is a
      number without a length. */
  datatype Leaf = Leaf(width: nat, unsized: bool, signed: bool)

  /** Both branches of a conditional, the left operand of a shift or power and the operands of
      everything else share the context; a reduction is one unsigned bit (sections 5.4.1 and
      5.5.1 of IEEE 1364-2005). */
  function Leaves(e: Expr): seq<Leaf> {
    match e
    case Number(_, len, hasLen, hasSign, single) => [Leaf(len, !hasLen && !single, hasSign)]
    case Net(_, width, signed) => [Leaf(width, false, signed)]
    case Unary(op, operand) => if op.Reduce? then [Leaf(1, false, false)] else Leaves(operand)
    case Binary(_, left, right) => Leaves(left) + Leaves(right)
    case Shift(_, base, _, _, _) => Leaves(base)
    case Ternary(_, tru, fal) => Leaves(tru) + Leaves(fal)
  }

  predicate AllSigned(e: Expr) {
    match e
    case Number(_, _, _, hasSign, _) => hasSign
    case Net(_, _, signed) => signed
    case Unary(op, operand) => !op.Reduce? && AllSigned(operand)
    case Binary(_, left, right) => AllSigned(left) && AllSigned(right)
    case Shift(_, base, _, _, _) => AllSigned(base)
    case Ternary(_, tru, fal) => AllSigned(tru) && AllSigned(fal)
  }

  lemma {:induction false} AllSignedExactly(e: Expr)
    ensures AllSigned(e) <==> forall l | l in Leaves(e) :: l.signed
  {
    match e
    case Number(_, _, _, _, _) =>
      assert Leaves(e)[0].signed == AllSigned(e);
    case Net(_, _, _) =>
      assert Leaves(e)[0].signed == AllSigned(e);
    case Unary(op, operand) =>
      if op.Reduce? {
        assert !Leaves(e)[0].signed;
      } else {
        AllSignedExactly(operand);
      }
    case Binary(_, left, right) =>
      AllSignedExactly(left);
      AllSignedExactly(right);
    case Shift(_, base, _, _, _) =>
      AllSignedExactly(base);
    case Ternary(_, tru, fal) =>
      AllSignedExactly(tru);
      AllSignedExactly(fal);
  }

  /** No context-determined operand is a number without a length. */
  predicate AllSized(e: Expr) {
    match e
    case Number(_, _, hasLen, _, single) => hasLen || single
    case Net(_, _, _) => true
    case Unary(op, operand) => op.Reduce? || AllSized(operand)
    case Binary(_, left, right) => AllSized(left) && AllSized(right)
    case Shift(_, base, _, _, _) => AllSized(base)
    case Ternary(_, tru, fal) => AllSized(tru) && AllSized(fal)
  }

  lemma {:induction false} AllSizedExactly(e: Expr)
    ensures AllSized(e) <==> forall l | l in Leaves(e) :: !l.unsized
  {
    match e
    case Number(_, _, _, _, _) =>
      assert Leaves(e)[0].unsized != AllSized(e);
    case Net(_, _, _) =>
    case Unary(op, operand) =>
      if !op.Reduce? {
        AllSizedExactly(operand);
      }
    case Binary(_, left, right) =>
      AllSizedExactly(left);
      AllSizedExactly(right);
    case Shift(_, base, _, _, _) =>
      AllSizedExactly(base);
    case Ternary(_, tru, fal) =>
      AllSizedExactly(tru);
      AllSizedExactly(fal);
  }

  // ---- Sign ----

  /** An expression is signed if and only if all its context-determined operands are. */
  lemma SignExactly(cfg: Config, e: Expr, mode: Mode)
    ensures TestWidth(cfg, e, mode).signed <==> forall l | l in Leaves(e) :: l.signed
  {
    SignFound(cfg, e, mode);
    AllSignedExactly(e);
  }

  lemma {:induction false} SignFound(cfg: Config, e: Expr, mode: Mode)
    ensures TestWidth(cfg, e, mode).signed <==> AllSigned(e)
    decreases Size(e), 0
  {
    match e
    case Number(_, _, _, _, _) =>
    case Net(_, _, _) =>
    case Unary(op, operand) =>
      if !op.Reduce? {
        SignFound(cfg, operand, mode);
      }
    case Binary(_, left, right) =>
      PairSigns(cfg, right, left, mode);
    case Shift(_, base, _, _, _) =>
      SignFound(cfg, base, SIZED);
    case Ternary(_, tru, fal) =>
      PairSigns(cfg, tru, fal, mode);
  }

  lemma {:induction false} PairSigns(cfg: Config, first: Expr, second: Expr, mode: Mode)
    ensures var p := TestPair(cfg, first, second, mode);
            (p.first.signed <==> AllSigned(first)) && (p.second.signed <==> AllSigned(second))
    decreases Size(first) + Size(second), 1
  {
    var m := TestWidth(cfg, first, mode).mode;
    var m' := TestWidth(cfg, second, m).mode;
    SignFound(cfg, first, mode);
    SignFound(cfg, second, m);
    SignFound(cfg, first, m');
  }

  // ---- Width and mode ----

  /** A number without a length counts as an integer. */
  function Counted(cfg: Config, l: Leaf): nat {
    if l.unsized then cfg.integerWidth else l.width
  }

  /** The largest width counted among the context-determined operands. */
  function Widest(cfg: Config, e: Expr): nat {
    match e
    case Number(_, len, hasLen, _, single) => if hasLen || single then len else cfg.integerWidth
    case Net(_, width, _) => width
    case Unary(op, operand) => if op.Reduce? then 1 else Widest(cfg, operand)
    case Binary(_, left, right) => Larger(Widest(cfg, left), Widest(cfg, right))
    case Shift(_, base, _, _, _) => Widest(cfg, base)
    case Ternary(_, tru, fal) => Larger(Widest(cfg, tru), Widest(cfg, fal))
  }

  predicate IsWidest(cfg: Config, leaves: seq<Leaf>, w: nat) {
    && (forall i | 0 <= i < |leaves| :: Counted(cfg, leaves[i]) <= w)
    && exists i :: 0 <= i < |leaves| && Counted(cfg, leaves[i]) == w
  }

  lemma WidestOfTwo(cfg: Config, a: seq<Leaf>, b: seq<Leaf>, m: nat, n: nat)
    requires IsWidest(cfg, a, m) && IsWidest(cfg, b, n)
    ensures IsWidest(cfg, a + b, Larger(m, n))
  {
    var i :| 0 <= i < |a| && Counted(cfg, a[i]) == m;
    var j :| 0 <= j < |b| && Counted(cfg, b[j]) == n;
    assert (a + b)[i] == a[i] && (a + b)[|a| + j] == b[j];
  }

  lemma {:induction false} WidestExactly(cfg: Config, e: Expr)
    ensures IsWidest(cfg, Leaves(e), Widest(cfg, e))
  {
    match e
    case Number(_, _, _, _, _) =>
      assert Counted(cfg, Leaves(e)[0]) == Widest(cfg, e);
    case Net(_, _, _) =>
      assert Counted(cfg, Leaves(e)[0]) == Widest(cfg, e);
    case Unary(op, operand) =>
      if op.Reduce? {
        assert Counted(cfg, Leaves(e)[0]) == Widest(cfg, e);
      } else {
        WidestExactly(cfg, operand);
      }
    case Binary(_, left, right) =>
      WidestExactly(cfg, left);
      WidestExactly(cfg, right);
      WidestOfTwo(cfg, Leaves(left), Leaves(right), Widest(cfg, left), Widest(cfg, right));
    case Shift(_, base, _, _, _) =>
      WidestExactly(cfg, base);
    case Ternary(_, tru, fal) =>
      WidestExactly(cfg, tru);
      WidestExactly(cfg, fal);
      WidestOfTwo(cfg, Leaves(tru), Leaves(fal), Widest(cfg, tru), Widest(cfg, fal));
  }

  predicate Plain(mode: Mode) {
    mode.SIZED? || mode.UNSIZED?
  }

  /** No context-determined operand is a number without a length that an integer does not
      hold. */
  predicate NoneBig(cfg: Config, e: Expr) {
    match e
    case Number(_, len, hasLen, _, single) => cfg.strict || hasLen || single || len < cfg.integerWidth
    case Net(_, _, _) => true
    case Unary(op, operand) => op.Reduce? || NoneBig(cfg, operand)
    case Binary(_, left, right) => NoneBig(cfg, left) && NoneBig(cfg, right)
    case Shift(_, base, _, _, _) => NoneBig(cfg, base)
    case Ternary(_, tru, fal) => NoneBig(cfg, tru) && NoneBig(cfg, fal)
  }

  /** Unless a number is too big for an integer, the width is that of the widest
      context-determined operand, and the mode stays SIZED if and only if all have lengths. */
  lemma PlainExactly(cfg: Config, e: Expr, mode: Mode)
    requires Plain(mode) && NoneBig(cfg, e)
    ensures var t := TestWidth(cfg, e, mode);
            && IsWidest(cfg, Leaves(e), t.width) && t.exprWidth == t.width
            && t.mode == if forall l | l in Leaves(e) :: !l.unsized then mode else UNSIZED
  {
    PlainFound(cfg, e, mode);
    WidestExactly(cfg, e);
    AllSizedExactly(e);
  }

  lemma {:induction false} PlainFound(cfg: Config, e: Expr, mode: Mode)
    requires Plain(mode) && NoneBig(cfg, e)
    ensures var t := TestWidth(cfg, e, mode);
            t.width == t.exprWidth == Widest(cfg, e) && t.mode == if AllSized(e) then mode else UNSIZED
    decreases Size(e), 0
  {
    match e
    case Number(_, _, _, _, _) =>
    case Net(_, _, _) =>
    case Unary(op, operand) =>
      if !op.Reduce? {
        PlainFound(cfg, operand, mode);
      }
    case Binary(_, left, right) =>
      PlainPair(cfg, right, left, mode);
    case Shift(_, base, _, _, _) =>
      PlainFound(cfg, base, SIZED);
    case Ternary(_, tru, fal) =>
      PlainPair(cfg, tru, fal, mode);
  }

  lemma {:induction false} PlainPair(cfg: Config, first: Expr, second: Expr, mode: Mode)
    requires Plain(mode) && NoneBig(cfg, first) && NoneBig(cfg, second)
    ensures var p := TestPair(cfg, first, second, mode);
            && p.first.width == Widest(cfg, first) && p.second.width == Widest(cfg, second)
            && p.mode == if AllSized(first) && AllSized(second) then mode else UNSIZED
    decreases Size(first) + Size(second), 1
  {
    PlainFound(cfg, first, mode);
    PlainFound(cfg, second, TestWidth(cfg, first, mode).mode);
  }

  /** Such a number, not under a shift. */
  predicate BigOutside(cfg: Config, e: Expr) {
    match e
    case Number(_, _, _, _, _) => !NoneBig(cfg, e)
    case Net(_, _, _) => false
    case Unary(op, operand) => !op.Reduce? && BigOutside(cfg, operand)
    case Binary(_, left, right) => BigOutside(cfg, left) || BigOutside(cfg, right)
    case Shift(_, _, _, _, _) => false
    case Ternary(_, tru, fal) => BigOutside(cfg, tru) || BigOutside(cfg, fal)
  }

  /** It makes the whole context lossless. */
  lemma {:induction false} BigMakesLossless(cfg: Config, e: Expr, mode: Mode)
    requires !cfg.strict && BigOutside(cfg, e)
    ensures AtLeast(TestWidth(cfg, e, mode).mode, LOSSLESS)
    decreases Size(e), 0
  {
    match e
    case Number(_, _, _, _, _) =>
    case Unary(_, operand) =>
      BigMakesLossless(cfg, operand, mode);
    case Binary(_, left, right) =>
      BigInPair(cfg, right, left, mode);
    case Ternary(_, tru, fal) =>
      BigInPair(cfg, tru, fal, mode);
  }

  lemma {:induction false} BigInPair(cfg: Config, first: Expr, second: Expr, mode: Mode)
    requires !cfg.strict && (BigOutside(cfg, first) || BigOutside(cfg, second))
    ensures AtLeast(TestPair(cfg, first, second, mode).mode, LOSSLESS)
    decreases Size(first) + Size(second), 1
  {
    PairNeverFalls(cfg, first, second, mode);
    if BigOutside(cfg, first) {
      BigMakesLossless(cfg, first, mode);
    } else {
      BigMakesLossless(cfg, second, TestWidth(cfg, first, mode).mode);
    }
  }

  // ---- Minimum width ----

  predicate IsWidestOwn(leaves: seq<Leaf>, w: nat) {
    (forall i | 0 <= i < |leaves| :: leaves[i].width <= w) && exists i :: 0 <= i < |leaves| && leaves[i].width == w
  }

  lemma WidestOwnOfTwo(a: seq<Leaf>, b: seq<Leaf>, m: nat, n: nat)
    requires IsWidestOwn(a, m) && IsWidestOwn(b, n)
    ensures IsWidestOwn(a + b, Larger(m, n))
  {
    var i :| 0 <= i < |a| && a[i].width == m;
    var j :| 0 <= j < |b| && b[j].width == n;
    assert (a + b)[i] == a[i] && (a + b)[|a| + j] == b[j];
  }

  /** In every mode, the minimum width of an expression that can be pruned is the largest own
      width of its context-determined operands. */
  lemma {:induction false} MinWidthExactly(cfg: Config, e: Expr, mode: Mode)
    requires E.Prunable(e)
    ensures IsWidestOwn(Leaves(e), TestWidth(cfg, e, mode).minWidth)
    decreases Size(e), 0
  {
    match e
    case Number(_, len, _, _, _) =>
      assert Leaves(e)[0].width == len;
    case Net(_, width, _) =>
      assert Leaves(e)[0].width == width;
    case Unary(op, operand) =>
      if op.Reduce? {
        assert Leaves(e)[0].width == 1;
      } else {
        MinWidthExactly(cfg, operand, mode);
      }
    case Binary(_, left, right) =>
      MinWidthPair(cfg, right, left, mode);
      var p := TestPair(cfg, right, left, mode);
      WidestOwnOfTwo(Leaves(left), Leaves(right), p.second.minWidth, p.first.minWidth);
    case Shift(_, base, _, _, _) =>
      MinWidthExactly(cfg, base, SIZED);
    case Ternary(_, tru, fal) =>
      MinWidthPair(cfg, tru, fal, mode);
      var p := TestPair(cfg, tru, fal, mode);
      WidestOwnOfTwo(Leaves(tru), Leaves(fal), p.first.minWidth, p.second.minWidth);
  }

  lemma {:induction false} MinWidthPair(cfg: Config, first: Expr, second: Expr, mode: Mode)
    requires E.Prunable(first) && E.Prunable(second)
    ensures var p := TestPair(cfg, first, second, mode);
            IsWidestOwn(Leaves(first), p.first.minWidth) && IsWidestOwn(Leaves(second), p.second.minWidth)
    decreases Size(first) + Size(second), 1
  {
    var a := TestWidth(cfg, first, mode);
    var b := TestWidth(cfg, second, a.mode);
    MinWidthExactly(cfg, first, mode);
    MinWidthExactly(cfg, second, a.mode);
    MinWidthExactly(cfg, first, b.mode);
  }

  /** No operation that grows in an expanding mode, and no shift, which tests its left operand
      by itself. */
  predicate Steady(e: Expr) {
    match e
    case Number(_, _, _, _, _) => true
    case Net(_, _, _) => true
    case Unary(op, operand) => op.Reduce? || Steady(operand)
    case Binary(op, left, right) => !op.Add? && !op.Sub? && !op.Mul? && Steady(left) && Steady(right)
    case Shift(_, _, _, _, _) => false
    case Ternary(_, tru, fal) => Steady(tru) && Steady(fal)
  }

  /** In lossless modes such an expression has the largest own width of its operands. */
  lemma {:induction false} SteadyExactly(cfg: Config, e: Expr, mode: Mode)
    requires !cfg.strict && Steady(e) && AtLeast(mode, LOSSLESS)
    ensures IsWidestOwn(Leaves(e), TestWidth(cfg, e, mode).width)
    decreases Size(e), 0
  {
    match e
    case Number(_, len, _, _, _) =>
      assert Leaves(e)[0].width == len;
    case Net(_, width, _) =>
      assert Leaves(e)[0].width == width;
    case Unary(op, operand) =>
      if op.Reduce? {
        assert Leaves(e)[0].width == 1;
      } else {
        SteadyExactly(cfg, operand, mode);
      }
    case Binary(_, left, right) =>
      SteadyPair(cfg, right, left, mode);
      var p := TestPair(cfg, right, left, mode);
      WidestOwnOfTwo(Leaves(left), Leaves(right), p.second.width, p.first.width);
    case Ternary(_, tru, fal) =>
      SteadyPair(cfg, tru, fal, mode);
      var p := TestPair(cfg, tru, fal, mode);
      WidestOwnOfTwo(Leaves(tru), Leaves(fal), p.first.width, p.second.width);
  }

  lemma {:induction false} SteadyPair(cfg: Config, first: Expr, second: Expr, mode: Mode)
    requires !cfg.strict && Steady(first) && Steady(second) && AtLeast(mode, LOSSLESS)
    ensures var p := TestPair(cfg, first, second, mode);
            IsWidestOwn(Leaves(first), p.first.width) && IsWidestOwn(Leaves(second), p.second.width)
    decreases Size(first) + Size(second), 1
  {
    PairNeverFalls(cfg, first, second, mode);
    SteadyExactly(cfg, first, mode);
    SteadyExactly(cfg, second, TestWidth(cfg, first, mode).mode);
  }

  // ---- Coercion ----

  /** Somewhere in the context a signed operand is taken for unsigned: beside an unsigned one,
      or by a right shift. */
  predicate Coerced(e: Expr) {
    match e
    case Number(_, _, _, _, _) => false
    case Net(_, _, _) => false
    case Unary(op, operand) => !op.Reduce? && Coerced(operand)
    case Binary(_, left, right) => Coerced(left) || Coerced(right) || AllSigned(left) != AllSigned(right)
    case Shift(op, base, _, _, _) => (op.ShiftRight? || op.ShiftSigned?) && AllSigned(base)
    case Ternary(_, tru, fal) => Coerced(tru) || Coerced(fal) || AllSigned(tru) != AllSigned(fal)
  }

  /** A lossless test ends in UPSIZE if and only if it meets a coercion. */
  lemma {:induction false} UpsizedExactly(cfg: Config, e: Expr)
    requires !cfg.strict
    ensures TestWidth(cfg, e, LOSSLESS).mode == if Coerced(e) then UPSIZE else LOSSLESS
    decreases Size(e), 0
  {
    match e
    case Number(_, _, _, _, _) =>
    case Net(_, _, _) =>
    case Unary(op, operand) =>
      if !op.Reduce? {
        UpsizedExactly(cfg, operand);
      }
    case Binary(_, left, right) =>
      PairUpsized(cfg, right, left);
    case Shift(_, base, _, _, _) =>
      SignFound(cfg, base, SIZED);
    case Ternary(_, tru, fal) =>
      PairUpsized(cfg, tru, fal);
  }

  lemma {:induction false} PairUpsized(cfg: Config, first: Expr, second: Expr)
    requires !cfg.strict
    ensures var p := TestPair(cfg, first, second, LOSSLESS);
            && (p.mode == if Coerced(first) || Coerced(second) then UPSIZE else LOSSLESS)
            && (p.first.signed <==> AllSigned(first)) && (p.second.signed <==> AllSigned(second))
    decreases Size(first) + Size(second), 1
  {
    PairNeverFalls(cfg, first, second, LOSSLESS);
    UpsizedExactly(cfg, first);
    UpsizedExactly(cfg, second);
    UpsizeStays(cfg, second);
    PairSigns(cfg, first, second, LOSSLESS);
  }
}
