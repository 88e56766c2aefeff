/** The width test of expressions: what every node of a tree is found to need. */
module Widths {
  import opened Powers
  import opened Wrappers

  /** How widths are being calculated, in rising order. */
  datatype Mode = SIZED | UNSIZED | EXPAND | LOSSLESS | UPSIZE

  function Rank(m: Mode): nat {
    match m
    case SIZED => 0
    case UNSIZED => 1
    case EXPAND => 2
    case LOSSLESS => 3
    case UPSIZE => 4
  }

  predicate AtLeast(m: Mode, limit: Mode) {
    Rank(m) >= Rank(limit)
  }

  const UINT_MAX: nat := 0xFFFF_FFFF
  const LONG_BITS: nat := 64

  /** The global settings: the width of an integer, the width limit of unsized expressions,
      and whether widths follow the standard strictly. */
  datatype Config = Config(integerWidth: nat, widthCap: nat, strict: bool)

  datatype UnaryOp = BitNot | Negate | Plus | Magnitude | Reduce

  datatype BinaryOp = Add | Sub | Mul | Div | Mod | And | Or | Xor | Nor | Nand | Xnor | Min | Max

  datatype ShiftOp = ShiftLeft | ShiftRight | ShiftSigned | Power

  /** Expressions over vectors. A number carries its bits as the value they have when read
      unsigned; a net is a named vector. A shift or power carries the value that its right
      operand evaluates to, if that is constant, and the length of the constant result of a
      power. */
  datatype Expr =
    | Number(bits: nat, len: nat, hasLen: bool, hasSign: bool, single: bool)
    | Net(name: nat, width: nat, signed: bool)
    | Unary(uop: UnaryOp, operand: Expr)
    | Binary(bop: BinaryOp, left: Expr, right: Expr)
    | Shift(sop: ShiftOp, base: Expr, count: Expr, constant: Option<int>, powerLen: nat)
    | Ternary(cond: Expr, tru: Expr, fal: Expr)

  /** The outcome of one test of a node: the width returned and the mode left behind, and
      the width, minimum width and sign recorded in the node. */
  datatype Tested = Tested(width: nat, mode: Mode, exprWidth: nat, minWidth: nat, signed: bool)

  function Larger(a: nat, b: nat): nat {
    if a > b then a else b
  }

  /** In UPSIZE mode the recorded width is at least that of an integer. */
  function Fixed(cfg: Config, width: nat, mode: Mode, minWidth: nat, signed: bool): Tested {
    Tested(width, mode, if mode.UPSIZE? && width < cfg.integerWidth then cfg.integerWidth else width, minWidth, signed)
  }

  function TestNumber(cfg: Config, e: Expr, mode: Mode): Tested
    requires e.Number?
  {
    if e.hasLen || e.single then Tested(e.len, mode, e.len, e.len, e.hasSign)
    else if cfg.strict then Tested(cfg.integerWidth, UNSIZED, cfg.integerWidth, e.len, e.hasSign)
    else if AtLeast(mode, LOSSLESS) then Tested(e.len, mode, e.len, e.len, e.hasSign)
    else if e.len < cfg.integerWidth then
      Tested(cfg.integerWidth, if mode.SIZED? then UNSIZED else mode, cfg.integerWidth, e.len, e.hasSign)
    else Tested(e.len, LOSSLESS, e.len, e.len, e.hasSign)
  }

  /** An operand is tested again when its sibling has made the context lossless. */
  predicate Retests(before: Mode, after: Mode) {
    AtLeast(after, LOSSLESS) && !AtLeast(before, LOSSLESS)
  }

  function MixedMode(mode: Mode, mixed: bool): Mode {
    if mode.LOSSLESS? && mixed then UPSIZE else mode
  }

  /** The width, and the minimum width, of a binary operation on tested operands. */
  function CombineBinary(cfg: Config, op: BinaryOp, p: Pair): Tested {
    var l, r := p.second, p.first;
    var mode := MixedMode(p.mode, l.signed != r.signed);
    var plain := Larger(l.width, r.width);
    var width := match op
      case Add | Sub => if AtLeast(mode, EXPAND) then plain + 1 else plain
      case Mul => if AtLeast(mode, EXPAND) then l.width + r.width else plain
      case _ => plain;
    var minWidth := if op.Div? || op.Mod? then UINT_MAX else Larger(l.minWidth, r.minWidth);
    Fixed(cfg, width, mode, minWidth, l.signed && r.signed)
  }

  /** The value assumed for the right operand of a shift or power: the constant if there is
      one that fits, else the largest of its width, clipped to the cap. */
  function AssumedCount(cfg: Config, op: ShiftOp, r: Tested, constant: Option<int>): nat {
    var most := if r.width < LONG_BITS then
                  if op.Power? && r.signed then (Pow2(r.width) - 1) / 2 else Pow2(r.width) - 1
                else Pow2(LONG_BITS - 1) - 1;
    var limit := if r.signed then LONG_BITS else LONG_BITS - 1;
    var count := if constant.Some? && r.width <= limit then constant.value else most;
    if count < 0 then 0 else if count > cfg.widthCap then cfg.widthCap else count
  }

  /** The lossless width of a shift or power of a left operand with the given test. */
  function ShiftWidth(cfg: Config, e: Expr, l: Tested, r: Tested): nat
    requires e.Shift?
  {
    var count := AssumedCount(cfg, e.sop, r, e.constant);
    var width := match e.sop
      case ShiftLeft => if l.mode.SIZED? then l.width else l.width + count
      case ShiftRight | ShiftSigned => l.width
      case Power =>
        if e.base.Number? && e.constant.Some? then Larger(l.width, e.powerLen)
        else if l.signed then (if l.width == 0 then 0 else l.width - 1) * count + 2
        else l.width * count;
    if e.constant.None? && width > l.width && width > cfg.integerWidth then cfg.integerWidth else width
  }

  function CombineShift(cfg: Config, e: Expr, l: Tested, r: Tested, before: Mode): Tested
    requires e.Shift?
  {
    var mode := if before.SIZED? then l.mode else before;
    var minWidth := if e.sop.ShiftLeft? then l.minWidth else UINT_MAX;
    if !AtLeast(mode, EXPAND) then
      Fixed(cfg, l.width, mode, minWidth, l.signed)
    else
      var logical := e.sop.ShiftRight? || e.sop.ShiftSigned?;
      var mode' := if logical && mode.LOSSLESS? && l.signed then UPSIZE else mode;
      Fixed(cfg, ShiftWidth(cfg, e, l, r), mode', minWidth, l.signed)
  }

  function CombineTernary(cfg: Config, p: Pair): Tested {
    var t, f := p.first, p.second;
    Fixed(cfg, Larger(t.width, f.width), MixedMode(p.mode, t.signed != f.signed),
          Larger(t.minWidth, f.minWidth), t.signed && f.signed)
  }

  function Size(e: Expr): nat {
    match e
    case Number(_, _, _, _, _) => 1
    case Net(_, _, _) => 1
    case Unary(_, operand) => 1 + Size(operand)
    case Binary(_, left, right) => 1 + Size(left) + Size(right)
    case Shift(_, base, count, _, _) => 1 + Size(base) + Size(count)
    case Ternary(cond, tru, fal) => 1 + Size(cond) + Size(tru) + Size(fal)
  }

  /** The tests of two operands that share a context, and the mode they leave. */
  datatype Pair = Pair(first: Tested, second: Tested, mode: Mode)

  /** The first operand is tested again if the second one made the context lossless. */
  function TestPair(cfg: Config, first: Expr, second: Expr, mode: Mode): Pair
    decreases Size(first) + Size(second), 1
  {
    var a := TestWidth(cfg, first, mode);
    var b := TestWidth(cfg, second, a.mode);
    if Retests(a.mode, b.mode) then
      var a' := TestWidth(cfg, first, b.mode);
      Pair(a', b, a'.mode)
    else
      Pair(a, b, b.mode)
  }

  /** The test of a whole tree from a mode. */
  function TestWidth(cfg: Config, e: Expr, mode: Mode): Tested
    decreases Size(e), 0
  {
    match e
    case Number(_, _, _, _, _) => TestNumber(cfg, e, mode)
    case Net(_, width, signed) => Tested(width, mode, width, width, signed)
    case Unary(op, operand) =>
      if op.Reduce? then Tested(1, mode, 1, 1, false)
      else
        var t := TestWidth(cfg, operand, mode);
        Fixed(cfg, t.width, t.mode, t.minWidth, t.signed)
    case Binary(op, left, right) => CombineBinary(cfg, op, TestPair(cfg, right, left, mode))
    case Shift(_, base, count, _, _) =>
      CombineShift(cfg, e, TestWidth(cfg, base, SIZED), TestWidth(cfg, count, SIZED), mode)
    case Ternary(_, tru, fal) => CombineTernary(cfg, TestPair(cfg, tru, fal, mode))
  }

  // ---- Modes only rise ----

  lemma {:induction false} ModeNeverFalls(cfg: Config, e: Expr, mode: Mode)
    requires !cfg.strict
    ensures AtLeast(TestWidth(cfg, e, mode).mode, mode)
    decreases Size(e), 0
  {
    match e
    case Number(_, _, _, _, _) =>
    case Net(_, _, _) =>
    case Unary(op, operand) =>
      if !op.Reduce? {
        ModeNeverFalls(cfg, operand, mode);
      }
    case Binary(_, left, right) =>
      PairNeverFalls(cfg, right, left, mode);
    case Shift(_, base, _, _, _) =>
    case Ternary(_, tru, fal) =>
      PairNeverFalls(cfg, tru, fal, mode);
  }

  lemma {:induction false} PairNeverFalls(cfg: Config, first: Expr, second: Expr, mode: Mode)
    requires !cfg.strict
    ensures var a := TestWidth(cfg, first, mode);
            var b := TestWidth(cfg, second, a.mode);
            AtLeast(a.mode, mode) && AtLeast(b.mode, a.mode) && AtLeast(TestPair(cfg, first, second, mode).mode, b.mode)
    decreases Size(first) + Size(second), 1
  {
    var a := TestWidth(cfg, first, mode);
    var b := TestWidth(cfg, second, a.mode);
    ModeNeverFalls(cfg, first, mode);
    ModeNeverFalls(cfg, second, a.mode);
    ModeNeverFalls(cfg, first, b.mode);
  }

  // ---- A second test changes nothing ----

  /** The sizes that a parent reads: all but the mode and the recorded width. */
  predicate SameSizes(a: Tested, b: Tested) {
    a.width == b.width && a.minWidth == b.minWidth && a.signed == b.signed
  }

  predicate SamePairs(p: Pair, q: Pair) {
    SameSizes(p.first, q.first) && SameSizes(p.second, q.second)
  }

  lemma {:induction false} UpsizeStays(cfg: Config, e: Expr)
    requires !cfg.strict
    ensures TestWidth(cfg, e, UPSIZE).mode == UPSIZE
  {
    ModeNeverFalls(cfg, e, UPSIZE);
  }

  /** LOSSLESS and UPSIZE find the same sizes. */
  lemma {:induction false} UpsizeSameSizes(cfg: Config, e: Expr)
    requires !cfg.strict
    ensures SameSizes(TestWidth(cfg, e, LOSSLESS), TestWidth(cfg, e, UPSIZE))
    decreases Size(e), 0
  {
    match e
    case Number(_, _, _, _, _) =>
    case Net(_, _, _) =>
    case Unary(op, operand) =>
      if !op.Reduce? {
        UpsizeSameSizes(cfg, operand);
      }
    case Binary(op, left, right) =>
      UpsizeSamePairs(cfg, right, left);
      BinarySizes(cfg, op, TestPair(cfg, right, left, LOSSLESS), TestPair(cfg, right, left, UPSIZE));
    case Shift(_, base, _, _, _) =>
    case Ternary(_, tru, fal) =>
      UpsizeSamePairs(cfg, tru, fal);
  }

  lemma {:induction false} UpsizeSamePairs(cfg: Config, first: Expr, second: Expr)
    requires !cfg.strict
    ensures SamePairs(TestPair(cfg, first, second, LOSSLESS), TestPair(cfg, first, second, UPSIZE))
    ensures AtLeast(TestPair(cfg, first, second, LOSSLESS).mode, LOSSLESS)
    ensures TestPair(cfg, first, second, UPSIZE).mode == UPSIZE
    decreases Size(first) + Size(second), 1
  {
    PairNeverFalls(cfg, first, second, LOSSLESS);
    PairNeverFalls(cfg, first, second, UPSIZE);
    UpsizeSameSizes(cfg, first);
    UpsizeSameSizes(cfg, second);
  }

  /** In lossless modes the sizes of an operation follow from those of its operands. */
  lemma BinarySizes(cfg: Config, op: BinaryOp, p: Pair, q: Pair)
    requires SamePairs(p, q) && AtLeast(p.mode, LOSSLESS) && AtLeast(q.mode, LOSSLESS)
    ensures SameSizes(CombineBinary(cfg, op, p), CombineBinary(cfg, op, q))
    ensures p.mode == q.mode ==> CombineBinary(cfg, op, p).mode == CombineBinary(cfg, op, q).mode
  {
  }

  /** A test that has ended lossless found what a lossless test from the start finds. */
  predicate Agrees(t: Tested, lossless: Tested) {
    AtLeast(t.mode, LOSSLESS) ==> SameSizes(t, lossless) && (t.mode.LOSSLESS? ==> lossless.mode.LOSSLESS?)
  }

  predicate PairAgrees(p: Pair, lossless: Pair) {
    AtLeast(p.mode, LOSSLESS) ==>
      SamePairs(p, lossless) && AtLeast(lossless.mode, LOSSLESS) && (p.mode.LOSSLESS? ==> lossless.mode.LOSSLESS?)
  }

  lemma {:induction false} EndsLossless(cfg: Config, e: Expr, mode: Mode)
    requires !cfg.strict
    ensures Agrees(TestWidth(cfg, e, mode), TestWidth(cfg, e, LOSSLESS))
    decreases Size(e), 0
  {
    match e
    case Number(_, _, _, _, _) =>
    case Net(_, _, _) =>
    case Unary(op, operand) =>
      if !op.Reduce? {
        EndsLossless(cfg, operand, mode);
      }
    case Binary(op, left, right) =>
      PairEndsLossless(cfg, right, left, mode);
      var p, q := TestPair(cfg, right, left, mode), TestPair(cfg, right, left, LOSSLESS);
      if AtLeast(p.mode, LOSSLESS) {
        BinarySizes(cfg, op, p, q);
      }
    case Shift(_, base, _, _, _) =>
    case Ternary(_, tru, fal) =>
      PairEndsLossless(cfg, tru, fal, mode);
  }

  lemma {:induction false} PairEndsLossless(cfg: Config, first: Expr, second: Expr, mode: Mode)
    requires !cfg.strict
    ensures PairAgrees(TestPair(cfg, first, second, mode), TestPair(cfg, first, second, LOSSLESS))
    decreases Size(first) + Size(second), 1
  {
    var a := TestWidth(cfg, first, mode);
    var b := TestWidth(cfg, second, a.mode);
    var a1 := TestWidth(cfg, first, LOSSLESS);
    PairNeverFalls(cfg, first, second, mode);
    PairNeverFalls(cfg, first, second, LOSSLESS);
    EndsLossless(cfg, first, mode);
    EndsLossless(cfg, second, a.mode);
    EndsLossless(cfg, second, a1.mode);
    EndsLossless(cfg, first, b.mode);
    UpsizeSameSizes(cfg, first);
    UpsizeSameSizes(cfg, second);
  }

  /** Once lossless, testing again from the final mode finds exactly the same. */
  lemma RetestIsStable(cfg: Config, e: Expr, mode: Mode)
    requires !cfg.strict && AtLeast(TestWidth(cfg, e, mode).mode, LOSSLESS)
    ensures TestWidth(cfg, e, TestWidth(cfg, e, mode).mode) == TestWidth(cfg, e, mode)
  {
    EndsLossless(cfg, e, mode);
    UpsizeSameSizes(cfg, e);
    UpsizeStays(cfg, e);
  }

  // ---- No operand is left with an outdated test ----

  lemma {:induction false} ExpandOnlyFromExpand(cfg: Config, e: Expr, mode: Mode)
    requires !cfg.strict && TestWidth(cfg, e, mode).mode == EXPAND
    ensures mode == EXPAND
    decreases Size(e)
  {
    match e
    case Number(_, _, _, _, _) =>
    case Net(_, _, _) =>
    case Unary(op, operand) =>
      if !op.Reduce? {
        ExpandOnlyFromExpand(cfg, operand, mode);
      }
    case Binary(op, left, right) =>
      PairNeverFalls(cfg, right, left, mode);
      ExpandOnlyFromExpand(cfg, left, TestWidth(cfg, right, mode).mode);
      ExpandOnlyFromExpand(cfg, right, mode);
    case Shift(_, base, _, _, _) =>
      if mode.SIZED? {
        ExpandOnlyFromExpand(cfg, base, SIZED);
      }
    case Ternary(_, tru, fal) =>
      PairNeverFalls(cfg, tru, fal, mode);
      ExpandOnlyFromExpand(cfg, fal, TestWidth(cfg, tru, mode).mode);
      ExpandOnlyFromExpand(cfg, tru, mode);
  }

  /** SIZED and UNSIZED find the same sizes, unless the tree turns out lossless. */
  lemma {:induction false} UnsizedSameSizes(cfg: Config, e: Expr)
    requires !cfg.strict && !AtLeast(TestWidth(cfg, e, SIZED).mode, LOSSLESS)
    ensures SameSizes(TestWidth(cfg, e, SIZED), TestWidth(cfg, e, UNSIZED))
    ensures TestWidth(cfg, e, UNSIZED).mode == UNSIZED
    decreases Size(e), 0
  {
    match e
    case Number(_, _, _, _, _) =>
    case Net(_, _, _) =>
    case Unary(op, operand) =>
      if !op.Reduce? {
        UnsizedSameSizes(cfg, operand);
      }
    case Binary(op, left, right) =>
      UnsizedSamePairs(cfg, right, left);
    case Shift(_, base, _, _, _) =>
      if TestWidth(cfg, base, SIZED).mode == EXPAND {
        ExpandOnlyFromExpand(cfg, base, SIZED);
      }
    case Ternary(_, tru, fal) =>
      UnsizedSamePairs(cfg, tru, fal);
  }

  lemma {:induction false} UnsizedSamePairs(cfg: Config, first: Expr, second: Expr)
    requires !cfg.strict && !AtLeast(TestPair(cfg, first, second, SIZED).mode, LOSSLESS)
    ensures SamePairs(TestPair(cfg, first, second, SIZED), TestPair(cfg, first, second, UNSIZED))
    ensures TestPair(cfg, first, second, UNSIZED).mode == UNSIZED
    ensures !AtLeast(TestPair(cfg, first, second, SIZED).mode, EXPAND)
    decreases Size(first) + Size(second), 1
  {
    var a := TestWidth(cfg, first, SIZED);
    var b := TestWidth(cfg, second, a.mode);
    PairNeverFalls(cfg, first, second, SIZED);
    UnsizedSameSizes(cfg, first);
    if a.mode == EXPAND {
      ExpandOnlyFromExpand(cfg, first, SIZED);
    }
    if b.mode == EXPAND {
      ExpandOnlyFromExpand(cfg, second, a.mode);
    }
    if a.mode == SIZED {
      UnsizedSameSizes(cfg, second);
    }
  }

  /** Each operand of a pair was last tested with the sizes that a test in the final mode
      would find: no operand needs more than the one retest. */
  lemma NoStaleOperand(cfg: Config, first: Expr, second: Expr, mode: Mode)
    requires !cfg.strict
    ensures var p := TestPair(cfg, first, second, mode);
            && SameSizes(p.first, TestWidth(cfg, first, p.mode))
            && SameSizes(p.second, TestWidth(cfg, second, p.mode))
  {
    var a := TestWidth(cfg, first, mode);
    var b := TestWidth(cfg, second, a.mode);
    var p := TestPair(cfg, first, second, mode);
    PairNeverFalls(cfg, first, second, mode);
    ModeNeverFalls(cfg, first, b.mode);
    if AtLeast(p.mode, LOSSLESS) {
      LosslessSameSizes(cfg, first, if Retests(a.mode, b.mode) then b.mode else mode, p.mode);
      LosslessSameSizes(cfg, second, a.mode, p.mode);
    } else {
      StaleBelow(cfg, first, second, mode);
    }
  }

  lemma LosslessSameSizes(cfg: Config, e: Expr, mode: Mode, mode': Mode)
    requires !cfg.strict && AtLeast(TestWidth(cfg, e, mode).mode, LOSSLESS) && AtLeast(mode', LOSSLESS)
    ensures SameSizes(TestWidth(cfg, e, mode), TestWidth(cfg, e, mode'))
  {
    EndsLossless(cfg, e, mode);
    UpsizeSameSizes(cfg, e);
  }

  lemma StaleBelow(cfg: Config, first: Expr, second: Expr, mode: Mode)
    requires !cfg.strict && !AtLeast(TestPair(cfg, first, second, mode).mode, LOSSLESS)
    ensures var p := TestPair(cfg, first, second, mode);
            && SameSizes(p.first, TestWidth(cfg, first, p.mode))
            && SameSizes(p.second, TestWidth(cfg, second, p.mode))
  {
    var a := TestWidth(cfg, first, mode);
    var b := TestWidth(cfg, second, a.mode);
    PairNeverFalls(cfg, first, second, mode);
    if b.mode == EXPAND {
      ExpandOnlyFromExpand(cfg, second, a.mode);
      ExpandOnlyFromExpand(cfg, first, mode);
    } else if mode.SIZED? {
      UnsizedSameSizes(cfg, first);
      if a.mode.SIZED? {
        UnsizedSameSizes(cfg, second);
      }
    }
  }

  // ---- How often a node is tested ----

  datatype Branch = ToOperand | ToLeft | ToRight | ToBase | ToCount | ToCond | ToTrue | ToFalse

  /** How many times the node at the end of the path is tested in a test of the tree. */
  function Visits(cfg: Config, e: Expr, mode: Mode, path: seq<Branch>): nat
    decreases Size(e), 0
  {
    if path == [] then 1
    else
      var rest := path[1..];
      match e
      case Number(_, _, _, _, _) => 0
      case Net(_, _, _) => 0
      case Unary(op, operand) =>
        if !path[0].ToOperand? then 0 else Visits(cfg, operand, if op.Reduce? then SIZED else mode, rest)
      case Binary(_, left, right) =>
        if path[0].ToRight? then FirstVisits(cfg, right, left, mode, rest)
        else if path[0].ToLeft? then Visits(cfg, left, TestWidth(cfg, right, mode).mode, rest)
        else 0
      case Shift(_, base, count, _, _) =>
        if path[0].ToBase? then Visits(cfg, base, SIZED, rest)
        else if path[0].ToCount? then Visits(cfg, count, SIZED, rest)
        else 0
      case Ternary(_, tru, fal) =>
        if path[0].ToTrue? then FirstVisits(cfg, tru, fal, mode, rest)
        else if path[0].ToFalse? then Visits(cfg, fal, TestWidth(cfg, tru, mode).mode, rest)
        else 0
  }

  function FirstVisits(cfg: Config, first: Expr, second: Expr, mode: Mode, path: seq<Branch>): nat
    decreases Size(first) + Size(second), 1
  {
    var a := TestWidth(cfg, first, mode);
    var b := TestWidth(cfg, second, a.mode);
    Visits(cfg, first, mode, path) + if Retests(a.mode, b.mode) then Visits(cfg, first, b.mode, path) else 0
  }

  /** How often the path enters a self-determined operand: of a reduction, a shift or a
      power. Such an operand is tested anew from SIZED whenever its parent is. */
  function SelfDetermined(e: Expr, path: seq<Branch>): nat
    decreases Size(e)
  {
    if path == [] then 0
    else
      var rest := path[1..];
      match e
      case Number(_, _, _, _, _) => 0
      case Net(_, _, _) => 0
      case Unary(op, operand) => (if op.Reduce? then 1 else 0) + SelfDetermined(operand, rest)
      case Binary(_, left, right) => SelfDetermined(if path[0].ToRight? then right else left, rest)
      case Shift(_, base, count, _, _) => 1 + SelfDetermined(if path[0].ToBase? then base else count, rest)
      case Ternary(_, tru, fal) => SelfDetermined(if path[0].ToTrue? then tru else fal, rest)
  }

  /** Not lossless before and lossless after: the only case in which operands are retested. */
  predicate Crosses(cfg: Config, e: Expr, mode: Mode) {
    Retests(mode, TestWidth(cfg, e, mode).mode)
  }

  /** The path leads to a node, and through operands that the width test looks at. */
  predicate Reaches(e: Expr, path: seq<Branch>) {
    path == [] ||
    match e
    case Number(_, _, _, _, _) => false
    case Net(_, _, _) => false
    case Unary(_, operand) => path[0].ToOperand? && Reaches(operand, path[1..])
    case Binary(_, left, right) =>
      if path[0].ToRight? then Reaches(right, path[1..]) else path[0].ToLeft? && Reaches(left, path[1..])
    case Shift(_, base, count, _, _) =>
      if path[0].ToBase? then Reaches(base, path[1..]) else path[0].ToCount? && Reaches(count, path[1..])
    case Ternary(_, tru, fal) =>
      if path[0].ToTrue? then Reaches(tru, path[1..]) else path[0].ToFalse? && Reaches(fal, path[1..])
  }

  /** The second operand makes the context lossless, so that the first is tested again. */
  predicate PairRetests(cfg: Config, first: Expr, second: Expr, mode: Mode) {
    var a := TestWidth(cfg, first, mode);
    Retests(a.mode, TestWidth(cfg, second, a.mode).mode)
  }

  /** Self-determined operands cut the path into stretches. The number of stretches in which
      the path leads to the first operand of a pair that retests, each counted once. */
  function RetestedStretches(cfg: Config, e: Expr, mode: Mode, path: seq<Branch>): nat
    decreases Size(e)
  {
    if path == [] then 0
    else
      var rest := path[1..];
      match e
      case Number(_, _, _, _, _) => 0
      case Net(_, _, _) => 0
      case Unary(op, operand) => RetestedStretches(cfg, operand, if op.Reduce? then SIZED else mode, rest)
      case Binary(_, left, right) =>
        if !path[0].ToRight? then RetestedStretches(cfg, left, TestWidth(cfg, right, mode).mode, rest)
        else if PairRetests(cfg, right, left, mode) then 1 + LaterStretches(cfg, right, rest)
        else RetestedStretches(cfg, right, mode, rest)
      case Shift(_, base, count, _, _) =>
        RetestedStretches(cfg, if path[0].ToBase? then base else count, SIZED, rest)
      case Ternary(_, tru, fal) =>
        if !path[0].ToTrue? then RetestedStretches(cfg, fal, TestWidth(cfg, tru, mode).mode, rest)
        else if PairRetests(cfg, tru, fal, mode) then 1 + LaterStretches(cfg, tru, rest)
        else RetestedStretches(cfg, tru, mode, rest)
  }

  /** Those after the stretch that the path begins with: each begins from SIZED. */
  function LaterStretches(cfg: Config, e: Expr, path: seq<Branch>): nat
    decreases Size(e)
  {
    if path == [] then 0
    else
      var rest := path[1..];
      match e
      case Number(_, _, _, _, _) => 0
      case Net(_, _, _) => 0
      case Unary(op, operand) =>
        if op.Reduce? then RetestedStretches(cfg, operand, SIZED, rest) else LaterStretches(cfg, operand, rest)
      case Binary(_, left, right) => LaterStretches(cfg, if path[0].ToRight? then right else left, rest)
      case Shift(_, base, count, _, _) =>
        RetestedStretches(cfg, if path[0].ToBase? then base else count, SIZED, rest)
      case Ternary(_, tru, fal) => LaterStretches(cfg, if path[0].ToTrue? then tru else fal, rest)
  }

  /** In a test that starts lossless, or does not end so, the first stretch has no retest. */
  lemma {:induction false} OnlyCrossingsRetest(cfg: Config, e: Expr, mode: Mode, path: seq<Branch>)
    requires !cfg.strict && !Crosses(cfg, e, mode)
    ensures RetestedStretches(cfg, e, mode, path) == LaterStretches(cfg, e, path)
    decreases Size(e)
  {
    if path != [] {
      var rest := path[1..];
      match e
      case Number(_, _, _, _, _) =>
      case Net(_, _, _) =>
      case Unary(op, operand) =>
        if !op.Reduce? {
          OnlyCrossingsRetest(cfg, operand, mode, rest);
        }
      case Binary(_, left, right) =>
        PairNeverFalls(cfg, right, left, mode);
        if path[0].ToRight? {
          OnlyCrossingsRetest(cfg, right, mode, rest);
        } else {
          OnlyCrossingsRetest(cfg, left, TestWidth(cfg, right, mode).mode, rest);
        }
      case Shift(_, _, _, _, _) =>
      case Ternary(_, tru, fal) =>
        PairNeverFalls(cfg, tru, fal, mode);
        if path[0].ToTrue? {
          OnlyCrossingsRetest(cfg, tru, mode, rest);
        } else {
          OnlyCrossingsRetest(cfg, fal, TestWidth(cfg, tru, mode).mode, rest);
        }
    }
  }

  /** A node is tested once, and twice as often for every stretch that retests on the way. */
  lemma {:induction false} VisitsExactly(cfg: Config, e: Expr, mode: Mode, path: seq<Branch>)
    requires !cfg.strict
    ensures Visits(cfg, e, mode, path) == if Reaches(e, path) then Pow2(RetestedStretches(cfg, e, mode, path)) else 0
    decreases Size(e), 0
  {
    if path != [] {
      var rest := path[1..];
      match e
      case Number(_, _, _, _, _) =>
      case Net(_, _, _) =>
      case Unary(op, operand) =>
        VisitsExactly(cfg, operand, if op.Reduce? then SIZED else mode, rest);
      case Binary(_, left, right) =>
        if path[0].ToRight? {
          FirstVisitsExactly(cfg, right, left, mode, rest);
        } else {
          VisitsExactly(cfg, left, TestWidth(cfg, right, mode).mode, rest);
        }
      case Shift(_, base, count, _, _) =>
        VisitsExactly(cfg, if path[0].ToBase? then base else count, SIZED, rest);
      case Ternary(_, tru, fal) =>
        if path[0].ToTrue? {
          FirstVisitsExactly(cfg, tru, fal, mode, rest);
        } else {
          VisitsExactly(cfg, fal, TestWidth(cfg, tru, mode).mode, rest);
        }
    }
  }

  lemma {:induction false} FirstVisitsExactly(cfg: Config, first: Expr, second: Expr, mode: Mode, path: seq<Branch>)
    requires !cfg.strict
    ensures FirstVisits(cfg, first, second, mode, path) ==
      if !Reaches(first, path) then 0
      else if PairRetests(cfg, first, second, mode) then Pow2(1 + LaterStretches(cfg, first, path))
      else Pow2(RetestedStretches(cfg, first, mode, path))
    decreases Size(first) + Size(second), 1
  {
    VisitsExactly(cfg, first, mode, path);
    if PairRetests(cfg, first, second, mode) {
      RetestedExactly(cfg, first, second, mode, path);
      SumOfTests(cfg, first, second, mode, path);
      assert Pow2(1 + LaterStretches(cfg, first, path)) == 2 * Pow2(LaterStretches(cfg, first, path));
    } else {
      SumOfTests(cfg, first, second, mode, path);
    }
  }

  lemma SumOfTests(cfg: Config, first: Expr, second: Expr, mode: Mode, path: seq<Branch>)
    ensures var again := TestWidth(cfg, second, TestWidth(cfg, first, mode).mode).mode;
            FirstVisits(cfg, first, second, mode, path) ==
            Visits(cfg, first, mode, path) + if PairRetests(cfg, first, second, mode) then Visits(cfg, first, again, path) else 0
  {
  }

  /** Neither of the two tests of a retested operand retests anything in this stretch. */
  lemma {:induction false} RetestedExactly(cfg: Config, first: Expr, second: Expr, mode: Mode, path: seq<Branch>)
    requires !cfg.strict && PairRetests(cfg, first, second, mode)
    ensures RetestedStretches(cfg, first, mode, path) == LaterStretches(cfg, first, path)
    ensures var again := TestWidth(cfg, second, TestWidth(cfg, first, mode).mode).mode;
            Visits(cfg, first, again, path) == if Reaches(first, path) then Pow2(LaterStretches(cfg, first, path)) else 0
    decreases Size(first) + Size(second), 0
  {
    var again := TestWidth(cfg, second, TestWidth(cfg, first, mode).mode).mode;
    PairNeverFalls(cfg, first, second, mode);
    OnlyCrossingsRetest(cfg, first, mode, path);
    OnlyCrossingsRetest(cfg, first, again, path);
    VisitsExactly(cfg, first, again, path);
  }

  /** There is at most one stretch more than there are self-determined operands. */
  lemma {:induction false} FewStretches(cfg: Config, e: Expr, mode: Mode, path: seq<Branch>)
    ensures LaterStretches(cfg, e, path) <= SelfDetermined(e, path)
    ensures RetestedStretches(cfg, e, mode, path) <= 1 + SelfDetermined(e, path)
    decreases Size(e)
  {
    if path != [] {
      var rest := path[1..];
      match e
      case Number(_, _, _, _, _) =>
      case Net(_, _, _) =>
      case Unary(op, operand) =>
        FewStretches(cfg, operand, if op.Reduce? then SIZED else mode, rest);
      case Binary(_, left, right) =>
        FewStretches(cfg, if path[0].ToRight? then right else left,
                     if path[0].ToRight? then mode else TestWidth(cfg, right, mode).mode, rest);
      case Shift(_, base, count, _, _) =>
        FewStretches(cfg, if path[0].ToBase? then base else count, SIZED, rest);
      case Ternary(_, tru, fal) =>
        FewStretches(cfg, if path[0].ToTrue? then tru else fal,
                     if path[0].ToTrue? then mode else TestWidth(cfg, tru, mode).mode, rest);
    }
  }

  /** So a node is tested at most twice, and twice as often again for every self-determined
      operand on the way to it. */
  lemma VisitsBound(cfg: Config, e: Expr, mode: Mode, path: seq<Branch>)
    requires !cfg.strict
    ensures Visits(cfg, e, mode, path) <= (if Crosses(cfg, e, mode) then 2 else 1) * Pow2(SelfDetermined(e, path))
  {
    var n, k := RetestedStretches(cfg, e, mode, path), SelfDetermined(e, path);
    VisitsExactly(cfg, e, mode, path);
    FewStretches(cfg, e, mode, path);
    Pow2Positive(k);
    if Crosses(cfg, e, mode) {
      Pow2Monotone(n, 1 + k);
    } else {
      OnlyCrossingsRetest(cfg, e, mode, path);
      Pow2Monotone(n, k);
    }
  }

  /** No more than two tests are made of a node exactly if at most one stretch on the way
      retests. On a path through context-determined operands only, that is always so. */
  lemma TestedAtMostTwice(cfg: Config, e: Expr, mode: Mode, path: seq<Branch>)
    requires !cfg.strict
    ensures Reaches(e, path) ==> (Visits(cfg, e, mode, path) <= 2 <==> RetestedStretches(cfg, e, mode, path) <= 1)
    ensures SelfDetermined(e, path) == 0 ==> Visits(cfg, e, mode, path) <= 2
  {
    var n := RetestedStretches(cfg, e, mode, path);
    VisitsExactly(cfg, e, mode, path);
    FewStretches(cfg, e, mode, path);
    assert Pow2(0) == 1 && Pow2(1) == 2 && Pow2(2) == 4;
    if n >= 2 {
      Pow2Monotone(2, n);
    }
  }

  /** Under a reduction the bound of two fails: here a small number is tested four times. */
  lemma ReductionDoublesTests(cfg: Config)
    requires !cfg.strict && cfg.integerWidth == 32
    ensures var big := Number(0, 40, false, true, false);
            var small := Number(1, 2, false, true, false);
            var e := Binary(Add, big, Unary(Reduce, Binary(Add, big, small)));
            Visits(cfg, e, SIZED, [ToRight, ToOperand, ToRight]) == 4
  {
    var big := Number(0, 40, false, true, false);
    var small := Number(1, 2, false, true, false);
    var sum := Binary(Add, big, small);
    var path := [ToRight];
    assert path[1..] == [];
    assert FirstVisits(cfg, small, big, SIZED, []) == 2;
    assert Visits(cfg, sum, SIZED, path) == 2;
    assert [ToOperand, ToRight][1..] == path;
    var red := Unary(Reduce, sum);
    assert Visits(cfg, red, SIZED, [ToOperand, ToRight]) == 2;
    assert Visits(cfg, red, LOSSLESS, [ToOperand, ToRight]) == 2;
    assert [ToRight, ToOperand, ToRight][1..] == [ToOperand, ToRight];
  }
}
