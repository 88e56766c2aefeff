/** The width test as the expression nodes perform it: each test overwrites what the node
    and its operands recorded in the one before. */
module WidthTest {
  import opened Powers
  import opened Widths
  import opened Wrappers
  import W = Widths

  /** What a node is, apart from its operands. */
  datatype Form =
    | NumberForm(bits: nat, len: nat, hasLen: bool, hasSign: bool, single: bool)
    | NetForm(name: nat, width: nat, signed: bool)
    | UnaryForm(uop: UnaryOp)
    | BinaryForm(bop: BinaryOp)
    | ShiftForm(sop: ShiftOp, constant: Option<int>, powerLen: nat)
    | TernaryForm

  // ---- How often the nodes of a tree have been tested ----

  /** A number for every node of a tree, in the order of a node's operands. */
  datatype Tally =
    | Leaf(n: nat)
    | One(n: nat, first: Tally)
    | Two(n: nat, first: Tally, second: Tally)
    | Three(n: nat, first: Tally, second: Tally, cond: Tally)

  predicate Counts(t: Tally, e: Expr) {
    match e
    case Number(_, _, _, _, _) => t.Leaf?
    case Net(_, _, _) => t.Leaf?
    case Unary(_, operand) => t.One? && Counts(t.first, operand)
    case Binary(_, left, right) => t.Two? && Counts(t.first, left) && Counts(t.second, right)
    case Shift(_, base, count, _, _) => t.Two? && Counts(t.first, base) && Counts(t.second, count)
    case Ternary(cond, tru, fal) => t.Three? && Counts(t.first, tru) && Counts(t.second, fal) && Counts(t.cond, cond)
  }

  function Zero(e: Expr): (t: Tally)
    ensures Counts(t, e)
  {
    match e
    case Number(_, _, _, _, _) => Leaf(0)
    case Net(_, _, _) => Leaf(0)
    case Unary(_, operand) => One(0, Zero(operand))
    case Binary(_, left, right) => Two(0, Zero(left), Zero(right))
    case Shift(_, base, count, _, _) => Two(0, Zero(base), Zero(count))
    case Ternary(cond, tru, fal) => Three(0, Zero(tru), Zero(fal), Zero(cond))
  }

  function Sum(t: Tally, u: Tally, e: Expr): (r: Tally)
    requires Counts(t, e) && Counts(u, e)
    ensures Counts(r, e)
  {
    match e
    case Number(_, _, _, _, _) => Leaf(t.n + u.n)
    case Net(_, _, _) => Leaf(t.n + u.n)
    case Unary(_, operand) => One(t.n + u.n, Sum(t.first, u.first, operand))
    case Binary(_, left, right) => Two(t.n + u.n, Sum(t.first, u.first, left), Sum(t.second, u.second, right))
    case Shift(_, base, count, _, _) => Two(t.n + u.n, Sum(t.first, u.first, base), Sum(t.second, u.second, count))
    case Ternary(cond, tru, fal) =>
      Three(t.n + u.n, Sum(t.first, u.first, tru), Sum(t.second, u.second, fal), Sum(t.cond, u.cond, cond))
  }

  lemma {:induction false} SumAssociates(t: Tally, u: Tally, v: Tally, e: Expr)
    requires Counts(t, e) && Counts(u, e) && Counts(v, e)
    ensures Sum(Sum(t, u, e), v, e) == Sum(t, Sum(u, v, e), e)
  {
    match e
    case Number(_, _, _, _, _) =>
    case Net(_, _, _) =>
    case Unary(_, operand) => SumAssociates(t.first, u.first, v.first, operand);
    case Binary(_, left, right) =>
      SumAssociates(t.first, u.first, v.first, left);
      SumAssociates(t.second, u.second, v.second, right);
    case Shift(_, base, count, _, _) =>
      SumAssociates(t.first, u.first, v.first, base);
      SumAssociates(t.second, u.second, v.second, count);
    case Ternary(cond, tru, fal) =>
      SumAssociates(t.first, u.first, v.first, tru);
      SumAssociates(t.second, u.second, v.second, fal);
      SumAssociates(t.cond, u.cond, v.cond, cond);
  }

  lemma {:induction false} SumWithZero(t: Tally, e: Expr)
    requires Counts(t, e)
    ensures Sum(t, Zero(e), e) == t
  {
    match e
    case Number(_, _, _, _, _) =>
    case Net(_, _, _) =>
    case Unary(_, operand) => SumWithZero(t.first, operand);
    case Binary(_, left, right) =>
      SumWithZero(t.first, left);
      SumWithZero(t.second, right);
    case Shift(_, base, count, _, _) =>
      SumWithZero(t.first, base);
      SumWithZero(t.second, count);
    case Ternary(cond, tru, fal) =>
      SumWithZero(t.first, tru);
      SumWithZero(t.second, fal);
      SumWithZero(t.cond, cond);
  }

  /** The number at the end of a path. */
  function At(t: Tally, e: Expr, path: seq<Branch>): nat
    requires Counts(t, e)
  {
    if path == [] then t.n
    else
      var rest := path[1..];
      match e
      case Number(_, _, _, _, _) => 0
      case Net(_, _, _) => 0
      case Unary(_, operand) => if path[0].ToOperand? then At(t.first, operand, rest) else 0
      case Binary(_, left, right) =>
        if path[0].ToRight? then At(t.second, right, rest)
        else if path[0].ToLeft? then At(t.first, left, rest)
        else 0
      case Shift(_, base, count, _, _) =>
        if path[0].ToBase? then At(t.first, base, rest)
        else if path[0].ToCount? then At(t.second, count, rest)
        else 0
      case Ternary(cond, tru, fal) =>
        if path[0].ToTrue? then At(t.first, tru, rest)
        else if path[0].ToFalse? then At(t.second, fal, rest)
        else if path[0].ToCond? then At(t.cond, cond, rest)
        else 0
  }

  /** What one test of a tree adds for each of its nodes. */
  function TestedOnce(cfg: Config, e: Expr, mode: Mode): (t: Tally)
    ensures Counts(t, e)
    decreases Size(e), 0
  {
    match e
    case Number(_, _, _, _, _) => Leaf(1)
    case Net(_, _, _) => Leaf(1)
    case Unary(op, operand) => One(1, TestedOnce(cfg, operand, if op.Reduce? then SIZED else mode))
    case Binary(_, left, right) =>
      Two(1, TestedOnce(cfg, left, W.TestWidth(cfg, right, mode).mode), FirstTested(cfg, right, left, mode))
    case Shift(_, base, count, _, _) => Two(1, TestedOnce(cfg, base, SIZED), TestedOnce(cfg, count, SIZED))
    case Ternary(cond, tru, fal) =>
      Three(1, FirstTested(cfg, tru, fal, mode), TestedOnce(cfg, fal, W.TestWidth(cfg, tru, mode).mode), Zero(cond))
  }

  function FirstTested(cfg: Config, first: Expr, second: Expr, mode: Mode): (t: Tally)
    ensures Counts(t, first)
    decreases Size(first) + Size(second), 1
  {
    var a := W.TestWidth(cfg, first, mode);
    var b := W.TestWidth(cfg, second, a.mode);
    if Retests(a.mode, b.mode) then Sum(TestedOnce(cfg, first, mode), TestedOnce(cfg, first, b.mode), first)
    else TestedOnce(cfg, first, mode)
  }

  /** The first operand of a pair is tested once, and then perhaps once more. */
  lemma FirstTestedInTurn(cfg: Config, first: Expr, second: Expr, mode: Mode, t: Tally)
    requires Counts(t, first)
    ensures var again := W.TestWidth(cfg, second, W.TestWidth(cfg, first, mode).mode).mode;
            var once := Sum(t, TestedOnce(cfg, first, mode), first);
            Sum(t, FirstTested(cfg, first, second, mode), first) ==
            if PairRetests(cfg, first, second, mode) then Sum(once, TestedOnce(cfg, first, again), first) else once
  {
    var again := W.TestWidth(cfg, second, W.TestWidth(cfg, first, mode).mode).mode;
    SumAssociates(t, TestedOnce(cfg, first, mode), TestedOnce(cfg, first, again), first);
  }

  lemma {:induction false} AtSum(t: Tally, u: Tally, e: Expr, path: seq<Branch>)
    requires Counts(t, e) && Counts(u, e)
    ensures At(Sum(t, u, e), e, path) == At(t, e, path) + At(u, e, path)
  {
    if path != [] {
      var rest := path[1..];
      match e
      case Number(_, _, _, _, _) =>
      case Net(_, _, _) =>
      case Unary(_, operand) => AtSum(t.first, u.first, operand, rest);
      case Binary(_, left, right) =>
        AtSum(t.first, u.first, left, rest);
        AtSum(t.second, u.second, right, rest);
      case Shift(_, base, count, _, _) =>
        AtSum(t.first, u.first, base, rest);
        AtSum(t.second, u.second, count, rest);
      case Ternary(cond, tru, fal) =>
        AtSum(t.first, u.first, tru, rest);
        AtSum(t.second, u.second, fal, rest);
        AtSum(t.cond, u.cond, cond, rest);
    }
  }

  lemma {:induction false} AtZero(e: Expr, path: seq<Branch>)
    ensures At(Zero(e), e, path) == 0
  {
    if path != [] {
      match e
      case Number(_, _, _, _, _) =>
      case Net(_, _, _) =>
      case Unary(_, operand) => AtZero(operand, path[1..]);
      case Binary(_, left, right) =>
        AtZero(left, path[1..]);
        AtZero(right, path[1..]);
      case Shift(_, base, count, _, _) =>
        AtZero(base, path[1..]);
        AtZero(count, path[1..]);
      case Ternary(cond, tru, fal) =>
        AtZero(cond, path[1..]);
        AtZero(tru, path[1..]);
        AtZero(fal, path[1..]);
    }
  }

  /** One test visits every node as often as is counted. */
  lemma {:induction false} TestedIsVisited(cfg: Config, e: Expr, mode: Mode, path: seq<Branch>)
    ensures At(TestedOnce(cfg, e, mode), e, path) == Visits(cfg, e, mode, path)
    decreases Size(e), 0
  {
    if path != [] {
      var rest := path[1..];
      match e
      case Number(_, _, _, _, _) =>
      case Net(_, _, _) =>
      case Unary(op, operand) => TestedIsVisited(cfg, operand, if op.Reduce? then SIZED else mode, rest);
      case Binary(_, left, right) =>
        TestedIsVisited(cfg, left, W.TestWidth(cfg, right, mode).mode, rest);
        FirstTestedIsVisited(cfg, right, left, mode, rest);
      case Shift(_, base, count, _, _) =>
        TestedIsVisited(cfg, base, SIZED, rest);
        TestedIsVisited(cfg, count, SIZED, rest);
      case Ternary(cond, tru, fal) =>
        FirstTestedIsVisited(cfg, tru, fal, mode, rest);
        TestedIsVisited(cfg, fal, W.TestWidth(cfg, tru, mode).mode, rest);
        AtZero(cond, rest);
    }
  }

  lemma {:induction false} FirstTestedIsVisited(cfg: Config, first: Expr, second: Expr, mode: Mode, path: seq<Branch>)
    ensures At(FirstTested(cfg, first, second, mode), first, path) == FirstVisits(cfg, first, second, mode, path)
    decreases Size(first) + Size(second), 1
  {
    var again := W.TestWidth(cfg, second, W.TestWidth(cfg, first, mode).mode).mode;
    TestedIsVisited(cfg, first, mode, path);
    TestedIsVisited(cfg, first, again, path);
    AtSum(TestedOnce(cfg, first, mode), TestedOnce(cfg, first, again), first, path);
  }

  /** A test adds to the count at the end of a path two to the power of the number of stretches
      that retest. */
  lemma TestsGrow(cfg: Config, e: Expr, mode: Mode, path: seq<Branch>, t: Tally)
    requires !cfg.strict && Reaches(e, path) && Counts(t, e)
    ensures At(Sum(t, TestedOnce(cfg, e, mode), e), e, path) == At(t, e, path) + Pow2(RetestedStretches(cfg, e, mode, path))
  {
    AtSum(t, TestedOnce(cfg, e, mode), e, path);
    TestedIsVisited(cfg, e, mode, path);
    VisitsExactly(cfg, e, mode, path);
  }

  class PExpr {
    const form: Form
    /** The operands: of a unary operation the first one; left and right; the shifted operand
        and the count; the true and the false clause. */
    const first: PExpr?
    const second: PExpr?
    const cond: PExpr?

    var exprWidth: nat
    var minWidth: nat
    var signedFlag: bool

    /** How often the node has been tested. */
    ghost var tests: nat

    ghost const tree: Expr
    ghost const repr: set<object>

    static ghost predicate Fits(f: Form, a: PExpr?, b: PExpr?, c: PExpr?) {
      match f
      case NumberForm(_, _, _, _, _) => true
      case NetForm(_, _, _) => true
      case UnaryForm(_) => a != null && a.Valid()
      case BinaryForm(_) => a != null && b != null && a.Valid() && b.Valid() && a.repr !! b.repr
      case ShiftForm(_, _, _) => a != null && b != null && a.Valid() && b.Valid() && a.repr !! b.repr
      case TernaryForm =>
        && a != null && b != null && c != null && a.Valid() && b.Valid() && c.Valid()
        && a.repr !! b.repr && a.repr !! c.repr && b.repr !! c.repr
    }

    static ghost function TreeOf(f: Form, a: PExpr?, b: PExpr?, c: PExpr?): Expr
      requires Fits(f, a, b, c)
    {
      match f
      case NumberForm(bits, len, hasLen, hasSign, single) => Number(bits, len, hasLen, hasSign, single)
      case NetForm(name, width, signed) => Net(name, width, signed)
      case UnaryForm(op) => Unary(op, a.tree)
      case BinaryForm(op) => Binary(op, a.tree, b.tree)
      case ShiftForm(op, constant, powerLen) => Shift(op, a.tree, b.tree, constant, powerLen)
      case TernaryForm => Ternary(c.tree, a.tree, b.tree)
    }

    constructor (f: Form, a: PExpr?, b: PExpr?, c: PExpr?)
      requires Fits(f, a, b, c)
      ensures Valid() && tree == TreeOf(f, a, b, c) && form == f
      ensures fresh(repr - (if a == null then {} else a.repr) - (if b == null then {} else b.repr)
                    - (if c == null then {} else c.repr))
    {
      form, first, second, cond := f, a, b, c;
      tests := 0;
      tree := TreeOf(f, a, b, c);
      repr := {this} + (if a == null then {} else a.repr) + (if b == null then {} else b.repr)
              + (if c == null then {} else c.repr);
    }

    ghost predicate HasChild(c: PExpr?)
      decreases repr, 0
    {
      c != null && c in repr && c.repr < repr && this !in c.repr && c.Valid()
    }

    /** The nodes form a tree. */
    ghost predicate Valid()
      decreases repr, 1
    {
      && this in repr
      && match form
         case NumberForm(bits, len, hasLen, hasSign, single) => tree == Number(bits, len, hasLen, hasSign, single)
         case NetForm(name, width, signed) => tree == Net(name, width, signed)
         case UnaryForm(op) => HasChild(first) && tree == Unary(op, first.tree)
         case BinaryForm(op) =>
           HasChild(first) && HasChild(second) && first.repr !! second.repr
           && tree == Binary(op, first.tree, second.tree)
         case ShiftForm(op, constant, powerLen) =>
           HasChild(first) && HasChild(second) && first.repr !! second.repr
           && tree == Shift(op, first.tree, second.tree, constant, powerLen)
         case TernaryForm =>
           HasChild(first) && HasChild(second) && HasChild(cond) && first.repr !! second.repr
           && first.repr !! cond.repr && second.repr !! cond.repr
           && tree == Ternary(cond.tree, first.tree, second.tree)
    }

    ghost predicate Records(t: Tested)
      reads this
    {
      exprWidth == t.exprWidth && minWidth == t.minWidth && signedFlag == t.signed
    }

    /** How often every node of the tree has been tested. */
    ghost function Tests(): (t: Tally)
      requires Valid()
      reads repr
      ensures Counts(t, tree)
      decreases repr
    {
      match form
      case NumberForm(_, _, _, _, _) => Leaf(tests)
      case NetForm(_, _, _) => Leaf(tests)
      case UnaryForm(_) => assert HasChild(first); One(tests, first.Tests())
      case BinaryForm(_) => assert HasChild(first) && HasChild(second); Two(tests, first.Tests(), second.Tests())
      case ShiftForm(_, _, _) => assert HasChild(first) && HasChild(second); Two(tests, first.Tests(), second.Tests())
      case TernaryForm =>
        assert HasChild(first) && HasChild(second) && HasChild(cond);
        Three(tests, first.Tests(), second.Tests(), cond.Tests())
    }

    /** The mode in which the operand of a pair that is tested first was tested last. */
    ghost function LastMode(cfg: Config, one: Expr, other: Expr, mode: Mode): Mode {
      var a := W.TestWidth(cfg, one, mode);
      var b := W.TestWidth(cfg, other, a.mode);
      if Retests(a.mode, b.mode) then b.mode else mode
    }

    /** The node and all operands tested with it hold the outcome of the test from `mode`. */
    ghost predicate Marked(cfg: Config, mode: Mode)
      requires Valid()
      reads repr
      decreases repr
    {
      && Records(W.TestWidth(cfg, tree, mode))
      && match form
         case NumberForm(_, _, _, _, _) => true
         case NetForm(_, _, _) => true
         case UnaryForm(op) => HasChild(first) && first.Marked(cfg, if op.Reduce? then SIZED else mode)
         case BinaryForm(_) =>
           && HasChild(first) && HasChild(second)
           && second.Marked(cfg, LastMode(cfg, second.tree, first.tree, mode))
           && first.Marked(cfg, W.TestWidth(cfg, second.tree, mode).mode)
         case ShiftForm(_, _, _) =>
           HasChild(first) && HasChild(second) && first.Marked(cfg, SIZED) && second.Marked(cfg, SIZED)
         case TernaryForm =>
           && HasChild(first) && HasChild(second)
           && first.Marked(cfg, LastMode(cfg, first.tree, second.tree, mode))
           && second.Marked(cfg, W.TestWidth(cfg, first.tree, mode).mode)
    }

    /** Test the tree: returns its width and the mode it leaves. */
    method TestWidth(cfg: Config, mode: Mode) returns (width: nat, mode': Mode)
      requires Valid()
      modifies repr
      ensures width == W.TestWidth(cfg, tree, mode).width && mode' == W.TestWidth(cfg, tree, mode).mode
      ensures Marked(cfg, mode)
      ensures Tests() == Sum(old(Tests()), TestedOnce(cfg, tree, mode), tree)
      decreases repr, 1
    {
      tests := tests + 1;
      match form
      case NumberForm(_, _, _, _, _) => width, mode' := TestNumber(cfg, mode);
      case NetForm(_, w, signed) =>
        exprWidth, minWidth, signedFlag := w, w, signed;
        width, mode' := w, mode;
      case UnaryForm(_) => width, mode' := TestUnary(cfg, mode);
      case BinaryForm(_) => width, mode' := TestBinary(cfg, mode);
      case ShiftForm(_, _, _) => width, mode' := TestShift(cfg, mode);
      case TernaryForm =>
        width, mode' := TestTernary(cfg, mode);
        SumWithZero(cond.Tests(), cond.tree);
    }

    method TestNumber(cfg: Config, mode: Mode) returns (width: nat, mode': Mode)
      requires Valid() && form.NumberForm?
      modifies this`exprWidth, this`minWidth, this`signedFlag
      ensures width == W.TestWidth(cfg, tree, mode).width && mode' == W.TestWidth(cfg, tree, mode).mode
      ensures Records(W.TestWidth(cfg, tree, mode))
    {
      mode' := mode;
      exprWidth := form.len;
      minWidth := exprWidth;
      signedFlag := form.hasSign;
      if !form.hasLen && !form.single {
        if cfg.strict {
          exprWidth := cfg.integerWidth;
          mode' := UNSIZED;
        } else if !AtLeast(mode', LOSSLESS) {
          if exprWidth < cfg.integerWidth {
            exprWidth := cfg.integerWidth;
            if !AtLeast(mode', UNSIZED) {
              mode' := UNSIZED;
            }
          } else {
            mode' := LOSSLESS;
          }
        }
      }
      width := exprWidth;
    }

    /** In UPSIZE mode the recorded width is raised to that of an integer; the calculated
        one is returned. */
    method FixWidth(cfg: Config, mode: Mode) returns (width: nat)
      modifies this`exprWidth
      ensures width == old(exprWidth)
      ensures exprWidth == if mode.UPSIZE? && width < cfg.integerWidth then cfg.integerWidth else width
    {
      width := exprWidth;
      if mode.UPSIZE? && width < cfg.integerWidth {
        exprWidth := cfg.integerWidth;
      }
    }

    method TestUnary(cfg: Config, mode: Mode) returns (width: nat, mode': Mode)
      requires Valid() && form.UnaryForm? && HasChild(first)
      modifies repr
      ensures width == W.TestWidth(cfg, tree, mode).width && mode' == W.TestWidth(cfg, tree, mode).mode
      ensures Marked(cfg, mode)
      ensures tests == old(tests)
      ensures first.Tests() == Sum(old(first.Tests()), TestedOnce(cfg, first.tree, if form.uop.Reduce? then SIZED else mode), first.tree)
      decreases repr, 0, 2
    {
      if form.uop.Reduce? {
        width := TestReduction(cfg, mode);
        mode' := mode;
      } else {
        width, mode' := TestPlain(cfg, mode);
      }
    }

    /** Every other unary operation hands the mode to its operand and back. */
    method TestPlain(cfg: Config, mode: Mode) returns (width: nat, mode': Mode)
      requires Valid() && form.UnaryForm? && HasChild(first) && !form.uop.Reduce?
      modifies repr
      ensures width == W.TestWidth(cfg, tree, mode).width && mode' == W.TestWidth(cfg, tree, mode).mode
      ensures Marked(cfg, mode)
      ensures tests == old(tests)
      ensures first.Tests() == Sum(old(first.Tests()), TestedOnce(cfg, first.tree, mode), first.tree)
      decreases repr, 0, 0
    {
      mode' := mode;
      var w;
      w, mode' := first.TestWidth(cfg, mode');
      exprWidth := w;
      minWidth := first.minWidth;
      signedFlag := first.signedFlag;
      width := FixWidth(cfg, mode');
    }

    /** The operand of a reduction is tested on its own, from SIZED. */
    method TestReduction(cfg: Config, ghost mode: Mode) returns (width: nat)
      requires Valid() && form.UnaryForm? && HasChild(first) && form.uop.Reduce?
      modifies repr
      ensures width == W.TestWidth(cfg, tree, mode).width && Marked(cfg, mode)
      ensures tests == old(tests)
      ensures first.Tests() == Sum(old(first.Tests()), TestedOnce(cfg, first.tree, SIZED), first.tree)
      decreases repr, 0, 0
    {
      var subWidth, subMode := first.TestWidth(cfg, SIZED);
      exprWidth, minWidth, signedFlag := 1, 1, false;
      width := exprWidth;
    }

    /** Test two operands in one context: the first one again if the second one made the
        context lossless. */
    method TestOperands(cfg: Config, one: PExpr, other: PExpr, mode: Mode)
      returns (oneWidth: nat, otherWidth: nat, mode': Mode)
      requires HasChild(one) && HasChild(other) && one.repr !! other.repr
      modifies one.repr, other.repr
      ensures var p := TestPair(cfg, one.tree, other.tree, mode);
              && oneWidth == p.first.width && otherWidth == p.second.width && mode' == p.mode
              && one.Records(p.first) && other.Records(p.second)
      ensures one.Marked(cfg, LastMode(cfg, one.tree, other.tree, mode))
      ensures other.Marked(cfg, W.TestWidth(cfg, one.tree, mode).mode)
      ensures one.Tests() == Sum(old(one.Tests()), FirstTested(cfg, one.tree, other.tree, mode), one.tree)
      ensures other.Tests() == Sum(old(other.Tests()), TestedOnce(cfg, other.tree, W.TestWidth(cfg, one.tree, mode).mode), other.tree)
      decreases repr, 0, 1
    {
      ghost var before := one.Tests();
      var savedMode;
      oneWidth, savedMode, otherWidth, mode' := TestInTurn(cfg, one, other, mode);
      if AtLeast(mode', LOSSLESS) && !AtLeast(savedMode, LOSSLESS) {
        oneWidth, mode' := one.TestWidth(cfg, mode');
      }
      FirstTestedInTurn(cfg, one.tree, other.tree, mode, before);
    }

    /** The first test of each: the second operand in the mode that the first one leaves. */
    method TestInTurn(cfg: Config, one: PExpr, other: PExpr, mode: Mode)
      returns (oneWidth: nat, savedMode: Mode, otherWidth: nat, mode': Mode)
      requires HasChild(one) && HasChild(other) && one.repr !! other.repr
      modifies one.repr, other.repr
      ensures var a := W.TestWidth(cfg, one.tree, mode);
              var b := W.TestWidth(cfg, other.tree, a.mode);
              && oneWidth == a.width && savedMode == a.mode && otherWidth == b.width && mode' == b.mode
              && one.Marked(cfg, mode) && other.Marked(cfg, a.mode)
      ensures one.Tests() == Sum(old(one.Tests()), TestedOnce(cfg, one.tree, mode), one.tree)
      ensures other.Tests() == Sum(old(other.Tests()), TestedOnce(cfg, other.tree, W.TestWidth(cfg, one.tree, mode).mode), other.tree)
      decreases repr, 0, 0
    {
      mode' := mode;
      oneWidth, mode' := one.TestWidth(cfg, mode');
      savedMode := mode';
      otherWidth, mode' := other.TestWidth(cfg, mode');
    }

    method TestBinary(cfg: Config, mode: Mode) returns (width: nat, mode': Mode)
      requires Valid() && form.BinaryForm? && HasChild(first) && HasChild(second)
      modifies repr
      ensures width == W.TestWidth(cfg, tree, mode).width && mode' == W.TestWidth(cfg, tree, mode).mode
      ensures Marked(cfg, mode)
      ensures tests == old(tests)
      ensures second.Tests() == Sum(old(second.Tests()), FirstTested(cfg, second.tree, first.tree, mode), second.tree)
      ensures first.Tests() == Sum(old(first.Tests()), TestedOnce(cfg, first.tree, W.TestWidth(cfg, second.tree, mode).mode), first.tree)
      decreases repr, 0, 2
    {
      var rWidth, lWidth;
      rWidth, lWidth, mode' := TestOperands(cfg, second, first, mode);
      ghost var p := TestPair(cfg, second.tree, first.tree, mode);
      width, mode' := FinishBinary(cfg, p, lWidth, rWidth, first.minWidth, second.minWidth,
                                   first.signedFlag, second.signedFlag, mode');
    }

    method FinishBinary(cfg: Config, ghost p: Pair, lWidth: nat, rWidth: nat, lMin: nat, rMin: nat,
                        lSigned: bool, rSigned: bool, after: Mode)
      returns (width: nat, mode': Mode)
      requires form.BinaryForm?
      requires lWidth == p.second.width && lMin == p.second.minWidth && lSigned == p.second.signed
      requires rWidth == p.first.width && rMin == p.first.minWidth && rSigned == p.first.signed
      requires after == p.mode
      modifies this`exprWidth, this`minWidth, this`signedFlag
      ensures var t := CombineBinary(cfg, form.bop, p);
              width == t.width && mode' == t.mode && Records(t)
    {
      mode' := after;
      exprWidth := Larger(lWidth, rWidth);
      minWidth := Larger(lMin, rMin);
      signedFlag := lSigned && rSigned;
      if mode'.LOSSLESS? && lSigned != rSigned {
        mode' := UPSIZE;
      }
      match form.bop {
        case Add | Sub =>
          if AtLeast(mode', EXPAND) {
            exprWidth := exprWidth + 1;
          }
        case Mul =>
          if AtLeast(mode', EXPAND) {
            exprWidth := lWidth + rWidth;
          }
        case Mod | Div => minWidth := UINT_MAX;
        case _ =>
      }
      width := FixWidth(cfg, mode');
    }

    method TestTernary(cfg: Config, mode: Mode) returns (width: nat, mode': Mode)
      requires Valid() && form.TernaryForm? && HasChild(first) && HasChild(second) && HasChild(cond)
      modifies repr
      ensures width == W.TestWidth(cfg, tree, mode).width && mode' == W.TestWidth(cfg, tree, mode).mode
      ensures Marked(cfg, mode)
      ensures tests == old(tests) && cond.Tests() == old(cond.Tests())
      ensures first.Tests() == Sum(old(first.Tests()), FirstTested(cfg, first.tree, second.tree, mode), first.tree)
      ensures second.Tests() == Sum(old(second.Tests()), TestedOnce(cfg, second.tree, W.TestWidth(cfg, first.tree, mode).mode), second.tree)
      decreases repr, 0, 2
    {
      var truWidth, falWidth;
      truWidth, falWidth, mode' := TestOperands(cfg, first, second, mode);
      ghost var p := TestPair(cfg, first.tree, second.tree, mode);
      width, mode' := FinishTernary(cfg, p, truWidth, falWidth, first.minWidth, second.minWidth,
                                    first.signedFlag, second.signedFlag, mode');
    }

    method FinishTernary(cfg: Config, ghost p: Pair, truWidth: nat, falWidth: nat, truMin: nat, falMin: nat,
                         truSigned: bool, falSigned: bool, after: Mode)
      returns (width: nat, mode': Mode)
      requires truWidth == p.first.width && truMin == p.first.minWidth && truSigned == p.first.signed
      requires falWidth == p.second.width && falMin == p.second.minWidth && falSigned == p.second.signed
      requires after == p.mode
      modifies this`exprWidth, this`minWidth, this`signedFlag
      ensures var t := CombineTernary(cfg, p);
              width == t.width && mode' == t.mode && Records(t)
    {
      mode' := after;
      exprWidth := Larger(truWidth, falWidth);
      minWidth := Larger(truMin, falMin);
      signedFlag := truSigned && falSigned;
      if mode'.LOSSLESS? && truSigned != falSigned {
        mode' := UPSIZE;
      }
      width := FixWidth(cfg, mode');
    }

    method TestShift(cfg: Config, mode: Mode) returns (width: nat, mode': Mode)
      requires Valid() && form.ShiftForm? && HasChild(first) && HasChild(second)
      modifies repr
      ensures width == W.TestWidth(cfg, tree, mode).width && mode' == W.TestWidth(cfg, tree, mode).mode
      ensures Marked(cfg, mode)
      ensures tests == old(tests)
      ensures first.Tests() == Sum(old(first.Tests()), TestedOnce(cfg, first.tree, SIZED), first.tree)
      ensures second.Tests() == Sum(old(second.Tests()), TestedOnce(cfg, second.tree, SIZED), second.tree)
      decreases repr, 0, 2
    {
      var rWidth, rMode := second.TestWidth(cfg, SIZED);
      var lWidth, lMode := first.TestWidth(cfg, SIZED);
      ghost var r, l := W.TestWidth(cfg, second.tree, SIZED), W.TestWidth(cfg, first.tree, SIZED);
      var tested := Tested(rWidth, rMode, second.exprWidth, second.minWidth, second.signedFlag);
      assert tested == r;
      width, mode' := FinishShift(cfg, l, lWidth, lMode, first.minWidth, first.signedFlag,
                                  first.form.NumberForm?, tested, mode);
    }

    /** The width at which the shift or power loses nothing, or an integer's if the count is
        not constant. */
    method UseWidth(cfg: Config, ghost l: Tested, lWidth: nat, lMode: Mode, lSigned: bool, isNumber: bool, r: Tested)
      returns (useWidth: nat)
      requires form.ShiftForm? && tree.Shift? && tree.sop == form.sop && tree.constant == form.constant
      requires tree.powerLen == form.powerLen && isNumber == tree.base.Number?
      requires lWidth == l.width && lMode == l.mode && lSigned == l.signed
      ensures useWidth == ShiftWidth(cfg, tree, l, r)
    {
      var count := AssumedCount(cfg, form.sop, r, form.constant);
      useWidth := lWidth;
      match form.sop {
        case ShiftLeft =>
          if !lMode.SIZED? {
            useWidth := useWidth + count;
          }
        case ShiftRight | ShiftSigned =>
        case Power =>
          if isNumber && form.constant.Some? {
            useWidth := Larger(useWidth, form.powerLen);
          } else {
            if lSigned && useWidth > 0 {
              useWidth := useWidth - 1;
            }
            useWidth := useWidth * count;
            if lSigned {
              useWidth := useWidth + 2;
            }
          }
      }
      if form.constant.None? && useWidth > lWidth && useWidth > cfg.integerWidth {
        useWidth := cfg.integerWidth;
      }
    }

    method FinishShift(cfg: Config, ghost l: Tested, lWidth: nat, lMode: Mode, lMin: nat, lSigned: bool,
                       isNumber: bool, r: Tested, before: Mode)
      returns (width: nat, mode': Mode)
      requires form.ShiftForm? && tree.Shift? && tree.sop == form.sop && tree.constant == form.constant
      requires tree.powerLen == form.powerLen && isNumber == tree.base.Number?
      requires lWidth == l.width && lMode == l.mode && lMin == l.minWidth && lSigned == l.signed
      modifies this`exprWidth, this`minWidth, this`signedFlag
      ensures var t := CombineShift(cfg, tree, l, r, before);
              width == t.width && mode' == t.mode && Records(t)
    {
      mode' := before;
      exprWidth := lWidth;
      signedFlag := lSigned;
      if mode'.SIZED? {
        mode' := lMode;
      }
      if AtLeast(mode', EXPAND) {
        var logical := form.sop.ShiftRight? || form.sop.ShiftSigned?;
        if logical && mode'.LOSSLESS? && signedFlag {
          mode' := UPSIZE;
        }
        exprWidth := UseWidth(cfg, l, lWidth, lMode, lSigned, isNumber, r);
      }
      minWidth := if form.sop.ShiftLeft? then lMin else UINT_MAX;
      width := FixWidth(cfg, mode');
    }
  }
}
