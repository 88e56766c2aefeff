/** The widths calculated for operations in expanding modes: what they hold, and that most of
    them are the least that do. */
module LeastWidths {
  import opened Powers
  import opened Widths
  import opened WrapArithmetic
  import opened Wrappers
  import opened E = Evaluation

  lemma Pow2Below(a: nat, b: nat)
    requires Pow2(a) <= Pow2(b)
    ensures a <= b
  {
    if a > b {
      Pow2Monotone(b + 1, a);
      Pow2Positive(b);
    }
  }

  // ---- Left shifts ----

  predicate ShiftHeld(x: int, n: nat, m: nat, signed: bool, w: nat) {
    FitsIn(x, m, signed) ==> FitsIn(x * Pow2(n), w, signed)
  }

  /** Numbers of m bits, shifted left by no more than `count`, are numbers of w bits. */
  ghost predicate HoldsShifts(m: nat, signed: bool, count: nat, w: nat) {
    forall x, n: nat | n <= count :: ShiftHeld(x, n, m, signed, w)
  }

  lemma TimesPowerBound(x: int, p: nat, q: nat)
    requires 0 - p <= x < p && q > 0
    ensures 0 - p * q <= x * q < p * q
  {
    assert (p + x) * q >= 0 && (p - x) * q >= q by {
      MultipleIsLarge(p - x, q);
      if p + x > 0 {
        MultipleIsLarge(p + x, q);
      }
    }
    assert (p + x) * q == p * q + x * q && (p - x) * q == p * q - x * q;
  }

  lemma ShiftFits(x: int, n: nat, m: nat, signed: bool, w: nat)
    requires m > 0 && FitsIn(x, m, signed) && m + n <= w
    ensures FitsIn(x * Pow2(n), w, signed)
  {
    Pow2Positive(n);
    if signed {
      TimesPowerBound(x, Pow2(m - 1), Pow2(n));
      Pow2Add(m - 1, n);
      Pow2Monotone(m - 1 + n, w - 1);
    } else {
      TimesPowerBound(x, Pow2(m), Pow2(n));
      Pow2Add(m, n);
      Pow2Monotone(m + n, w);
      if x > 0 {
        MultipleIsLarge(x, Pow2(n));
      }
    }
  }

  /** The number of m bits that needs most bits when shifted. */
  function Extreme(m: nat, signed: bool): int
    requires m > 0
  {
    if signed then 0 - Pow2(m - 1) else Pow2(m) - 1
  }

  lemma ExtremeShift(n: nat, m: nat, signed: bool, w: nat)
    requires m > 0 && FitsIn(Extreme(m, signed) * Pow2(n), w, signed)
    ensures w >= m + n
  {
    var p, q, s := Pow2(m - 1), Pow2(n), Pow2(m - 1 + n);
    Pow2Positive(m - 1 + n);
    Pow2Add(m - 1, n);
    Pow2Positive(m - 1);
    Pow2Positive(n);
    ExtremeProduct(m, signed, p, q, s);
    if signed {
      Pow2Below(m - 1 + n, w - 1);
    } else if w < m + n {
      Pow2Monotone(w, m - 1 + n);
    }
  }

  lemma ExtremeProduct(m: nat, signed: bool, p: nat, q: nat, s: nat)
    requires m > 0 && p == Pow2(m - 1) && p > 0 && q > 0 && s == p * q
    ensures if signed then Extreme(m, signed) * q == 0 - s else Extreme(m, signed) * q >= s
  {
    if !signed {
      var d := p - 1;
      assert Extreme(m, signed) == p + d;
      assert (p + d) * q == p * q + d * q && d * q >= 0;
    }
  }

  lemma HoldsShiftsExactly(m: nat, signed: bool, count: nat, w: nat)
    requires m > 0
    ensures HoldsShifts(m, signed, count, w) <==> w >= m + count
  {
    if HoldsShifts(m, signed, count, w) {
      var x := Extreme(m, signed);
      assert FitsIn(x, m, signed) by {
        Pow2Positive(m - 1);
      }
      assert ShiftHeld(x, count, m, signed, w);
      ExtremeShift(count, m, signed, w);
    }
    if w >= m + count {
      forall x, n: nat | n <= count ensures ShiftHeld(x, n, m, signed, w) {
        if FitsIn(x, m, signed) {
          ShiftFits(x, n, m, signed, w);
        }
      }
    }
  }

  /** The width of a left shift holds every count assumed possible if and only if the left
      operand has no length of its own and an unknown count does not lead beyond the width of
      an integer, or the count is 0. It is never larger than needed. */
  lemma LeftShiftExactly(cfg: Config, e: Expr, l: Tested, r: Tested)
    requires e.Shift? && e.sop.ShiftLeft? && l.width > 0
    ensures var count := AssumedCount(cfg, e.sop, r, e.constant);
            var w := ShiftWidth(cfg, e, l, r);
            && (HoldsShifts(l.width, l.signed, count, w) <==>
                  count == 0 || (!l.mode.SIZED? && (e.constant.Some? || l.width + count <= cfg.integerWidth)))
            && forall w': nat | HoldsShifts(l.width, l.signed, count, w') :: w <= w'
  {
    var count := AssumedCount(cfg, e.sop, r, e.constant);
    HoldsShiftsExactly(l.width, l.signed, count, ShiftWidth(cfg, e, l, r));
    forall w': nat | HoldsShifts(l.width, l.signed, count, w') ensures ShiftWidth(cfg, e, l, r) <= w' {
      HoldsShiftsExactly(l.width, l.signed, count, w');
    }
  }

  /** The limit for unknown counts applies even to an operand that is wider than an integer:
      the shift is then narrower than what it shifts. */
  lemma NarrowedExactly(cfg: Config, e: Expr, l: Tested, r: Tested)
    requires e.Shift? && e.sop.ShiftLeft?
    ensures ShiftWidth(cfg, e, l, r) < l.width <==>
            && e.constant.None? && !l.mode.SIZED? && AssumedCount(cfg, e.sop, r, e.constant) > 0
            && l.width > cfg.integerWidth
  {
  }

  /** A 40-bit number without a length, shifted by a net, has 32 bits. */
  lemma WideNumberIsNarrowed(cfg: Config)
    requires !cfg.strict && cfg.integerWidth == 32 && cfg.widthCap > 0
    ensures var e := Shift(ShiftLeft, Number(Pow2(38), 40, false, true, false), Net(0, 8, false), None, 0);
            TestWidth(cfg, e, SIZED) == Tested(32, LOSSLESS, 32, 40, true)
  {
    assert Pow2(8) > 1 by {
      Pow2Monotone(1, 8);
    }
  }

  // ---- Right shifts ----

  predicate RightHeld(x: int, n: nat, m: nat, signed: bool, w: nat) {
    Pow2Positive(n);
    FitsIn(x, m, signed) ==> FitsIn(x / Pow2(n), w, signed)
  }

  ghost predicate HoldsRight(m: nat, signed: bool, w: nat) {
    forall x, n: nat :: RightHeld(x, n, m, signed, w)
  }

  lemma AtLeastItself(d: nat, q: nat)
    requires q > 0
    ensures d * q >= d
  {
    if d > 0 {
      assert d * q == d * (q - 1) + d && d * (q - 1) >= 0;
    }
  }

  lemma QuotientBound(x: int, p: nat, q: nat)
    requires 0 - p <= x < p && q > 0
    ensures 0 - p <= x / q < p
  {
    var d, r := x / q, x % q;
    assert x == d * q + r && 0 <= r < q;
    if d >= 0 {
      AtLeastItself(d, q);
    } else {
      AtLeastItself(-d - 1, q);
      assert (-d - 1) * q == 0 - d * q - q;
    }
  }

  lemma QuotientNatural(x: nat, q: nat)
    requires q > 0
    ensures 0 <= x / q <= x
  {
    QuotientBound(x, x + 1, q);
  }

  /** The width of a right shift is the least that holds all its values. */
  lemma RightShiftExactly(cfg: Config, e: Expr, l: Tested, r: Tested, w: nat)
    requires e.Shift? && (e.sop.ShiftRight? || e.sop.ShiftSigned?) && l.width > 0
    ensures HoldsRight(l.width, l.signed, w) <==> w >= ShiftWidth(cfg, e, l, r)
  {
    var m, signed := l.width, l.signed;
    if HoldsRight(m, signed, w) {
      assert Pow2(0) == 1 && Pow2(m - 1) >= 1 by {
        Pow2Positive(m - 1);
      }
      var x := Extreme(m, signed);
      assert RightHeld(x, 0, m, signed, w) && x / Pow2(0) == x && x == x * Pow2(0);
      ExtremeShift(0, m, signed, w);
    }
    if w >= m {
      forall x, n: nat ensures RightHeld(x, n, m, signed, w) {
        Pow2Positive(n);
        if FitsIn(x, m, signed) {
          RightFits(x, n, m, signed, w);
        }
      }
    }
  }

  lemma RightFits(x: int, n: nat, m: nat, signed: bool, w: nat)
    requires 0 < m <= w && FitsIn(x, m, signed) && Pow2(n) > 0
    ensures FitsIn(x / Pow2(n), w, signed)
  {
    if signed {
      QuotientBound(x, Pow2(m - 1), Pow2(n));
      Pow2Monotone(m - 1, w - 1);
    } else {
      QuotientNatural(x, Pow2(n));
      Pow2Monotone(m, w);
    }
  }

  // ---- The count assumed ----

  /** The values that the right operand may have: the constant if it is known and not too
      wide, a negative one being taken for 0; else a number of its width, which is unsigned
      unless it is a signed exponent. */
  predicate Possible(op: ShiftOp, r: Tested, constant: Option<int>, n: nat) {
    if constant.Some? && r.width <= (if r.signed then LONG_BITS else LONG_BITS - 1)
    then n == if constant.value < 0 then 0 else constant.value
    else FitsIn(n, r.width, op.Power? && r.signed)
  }

  function Clipped(cfg: Config, n: nat): nat {
    if n > cfg.widthCap then cfg.widthCap else n
  }

  function MostPossible(op: ShiftOp, r: Tested, constant: Option<int>): nat {
    if constant.Some? && r.width <= (if r.signed then LONG_BITS else LONG_BITS - 1)
    then if constant.value < 0 then 0 else constant.value
    else
      Pow2Positive(r.width);
      if op.Power? && r.signed && r.width > 0 then
        Pow2Positive(r.width - 1);
        Pow2(r.width - 1) - 1
      else Pow2(r.width) - 1
  }

  /** The count assumed is the largest possible one, clipped. */
  lemma AssumedExactly(cfg: Config, op: ShiftOp, r: Tested, constant: Option<int>)
    requires cfg.widthCap < Pow2(LONG_BITS - 1)
    ensures var count := AssumedCount(cfg, op, r, constant);
            && (forall n | Possible(op, r, constant, n) :: Clipped(cfg, n) <= count)
            && exists n :: Possible(op, r, constant, n) && Clipped(cfg, n) == count
  {
    var most := MostPossible(op, r, constant);
    assert Possible(op, r, constant, most) by {
      Pow2Positive(r.width);
    }
    assert forall n | Possible(op, r, constant, n) :: n <= most;
    AssumedIsMost(cfg, op, r, constant);
    assert Clipped(cfg, most) == AssumedCount(cfg, op, r, constant);
  }

  lemma AssumedIsMost(cfg: Config, op: ShiftOp, r: Tested, constant: Option<int>)
    requires cfg.widthCap < Pow2(LONG_BITS - 1)
    ensures AssumedCount(cfg, op, r, constant) == Clipped(cfg, MostPossible(op, r, constant))
  {
    Pow2Positive(r.width);
    if r.width < LONG_BITS {
      if r.width > 0 {
        assert Pow2(r.width) == 2 * Pow2(r.width - 1);
      } else {
        assert Pow2(0) == 1;
      }
    } else {
      Pow2Monotone(LONG_BITS - 1, r.width - 1);
      Pow2Monotone(LONG_BITS - 1, r.width);
    }
  }

  // ---- Powers ----

  /** The width that a power of an m-bit number needs, with the largest exponent `count`. */
  function PowerWidth(m: nat, signed: bool, count: nat): nat {
    if signed then (if m == 0 then 0 else m - 1) * count + 2 else m * count
  }

  predicate PowerHeld(x: int, n: nat, m: nat, signed: bool, w: nat) {
    FitsIn(x, m, signed) ==> FitsIn(E.Power(x, n), w, signed)
  }

  ghost predicate HoldsPowers(m: nat, signed: bool, count: nat, w: nat) {
    forall x, n: nat | n <= count :: PowerHeld(x, n, m, signed, w)
  }

  lemma {:induction false} PowerBound(x: int, k: nat, n: nat)
    requires 0 - Pow2(k) <= x <= Pow2(k)
    ensures 0 - Pow2(k * n) <= E.Power(x, n) <= Pow2(k * n)
  {
    if n == 0 {
      assert k * n == 0;
    } else {
      PowerBound(x, k, n - 1);
      ProductBound(x, E.Power(x, n - 1), Pow2(k), Pow2(k * (n - 1)));
      Pow2Add(k, k * (n - 1));
      assert k + k * (n - 1) == k * n;
    }
  }

  lemma {:induction false} NaturalPower(x: nat, m: nat, n: nat)
    requires x < Pow2(m)
    ensures 0 <= E.Power(x, n) && (n > 0 ==> E.Power(x, n) < Pow2(m * n))
  {
    if n > 0 {
      var y := E.Power(x, n - 1);
      NaturalPower(x, m, n - 1);
      PowerBound(x, m, n - 1);
      Pow2Positive(m * (n - 1));
      NaturalProduct(x, y, Pow2(m), Pow2(m * (n - 1)));
      Pow2Add(m, m * (n - 1));
      assert m + m * (n - 1) == m * n;
    }
  }

  lemma NaturalProduct(x: nat, y: nat, p: nat, q: nat)
    requires x < p && y <= q && q > 0
    ensures 0 <= x * y < p * q
  {
    assert x * (q - y) >= 0 && (p - x) * q >= q by {
      MultipleIsLarge(p - x, q);
    }
    assert x * (q - y) == x * q - x * y && (p - x) * q == p * q - x * q;
  }

  lemma ScaledMonotone(k: nat, n: nat, count: nat)
    requires n <= count
    ensures k * n <= k * count
  {
    assert k * count == k * n + k * (count - n);
  }

  lemma PowerFits(x: int, n: nat, m: nat, signed: bool, count: nat)
    requires m > 0 && n <= count && FitsIn(x, m, signed) && (signed || count > 0)
    ensures FitsIn(E.Power(x, n), PowerWidth(m, signed, count), signed)
  {
    if signed {
      PowerBound(x, m - 1, n);
      ScaledMonotone(m - 1, n, count);
      Pow2Monotone((m - 1) * n, (m - 1) * count);
      Pow2Positive((m - 1) * count);
      assert Pow2((m - 1) * count + 1) == 2 * Pow2((m - 1) * count);
    } else {
      NaturalPower(x, m, n);
      ScaledMonotone(m, n, count);
      Pow2Monotone(m * n, m * count);
      if n == 0 {
        ScaledMonotone(m, 1, count);
        Pow2Monotone(1, m * count);
      }
    }
  }

  /** The width of a power holds every exponent assumed possible, unless the left operand is
      unsigned and the only exponent is 0, where the 1 does not fit in no bits. Excluded are
      numbers to a known exponent, which get the width of the result, and unknown exponents
      that lead beyond the width of an integer. */
  lemma PowerExactly(cfg: Config, e: Expr, l: Tested, r: Tested)
    requires e.Shift? && e.sop.Power? && l.width > 0 && !(e.base.Number? && e.constant.Some?)
    requires e.constant.Some? || PowerWidth(l.width, l.signed, AssumedCount(cfg, e.sop, r, e.constant)) <= cfg.integerWidth
    ensures var count := AssumedCount(cfg, e.sop, r, e.constant);
            HoldsPowers(l.width, l.signed, count, ShiftWidth(cfg, e, l, r)) <==> l.signed || count > 0
  {
    var count, w := AssumedCount(cfg, e.sop, r, e.constant), ShiftWidth(cfg, e, l, r);
    assert w == PowerWidth(l.width, l.signed, count);
    if l.signed || count > 0 {
      forall x, n: nat | n <= count ensures PowerHeld(x, n, l.width, l.signed, w) {
        if FitsIn(x, l.width, l.signed) {
          PowerFits(x, n, l.width, l.signed, count);
        }
      }
    } else {
      assert l.width * count == 0 && Pow2(0) == 1;
      assert FitsIn(0, l.width, false) by {
        Pow2Positive(l.width);
      }
      assert !PowerHeld(0, 0, l.width, false, w);
    }
  }

  // ---- Sums, products and bitwise operations ----

  predicate BinaryHeld(op: BinaryOp, x: int, y: int, m: nat, n: nat, w: nat, signed: bool) {
    FitsIn(x, m, signed) && FitsIn(y, n, signed) ==> FitsIn(BinaryValue(op, x, y), w, signed)
  }

  ghost predicate HoldsBinary(op: BinaryOp, m: nat, n: nat, w: nat, signed: bool) {
    forall x, y :: BinaryHeld(op, x, y, m, n, w, signed)
  }

  function NeededWidth(op: BinaryOp, m: nat, n: nat): nat {
    if op.Mul? then m + n else if op.Add? || op.Sub? then Larger(m, n) + 1 else Larger(m, n)
  }

  /** An operand that leaves the other one as it is, or inverts it. */
  function Neutral(op: BinaryOp): int {
    if op.And? || op.Nand? || op.Xnor? then -1 else 0
  }

  lemma {:induction false} NeutralKeeps(op: BinaryOp, x: int)
    requires IsBitwise(op)
    ensures Bitwise(op, x, Neutral(op)) == if op.Nor? || op.Nand? then -1 - x else x
    ensures Bitwise(op, Neutral(op), x) == Bitwise(op, x, Neutral(op))
    decreases Abs(x)
  {
    if !IsSignOnly(x) {
      NeutralKeeps(op, x / 2);
      BitwiseUnfold(op, x, Neutral(op));
      BitwiseUnfold(op, Neutral(op), x);
    }
  }

  /** Operands whose result needs all the bits. */
  function Witness(op: BinaryOp, m: nat, n: nat): (int, int)
    requires m > 0 && n > 0
  {
    var x, y := 0 - Pow2(m - 1), 0 - Pow2(n - 1);
    match op
    case Add => (x, y)
    case Sub => if m >= n then (Pow2(m - 1) - 1, -1) else (0, y)
    case Mul => (x, y)
    case _ => if m >= n then (x, Neutral(op)) else (Neutral(op), y)
  }

  lemma WitnessFits(op: BinaryOp, m: nat, n: nat)
    requires m > 0 && n > 0
    ensures FitsIn(Witness(op, m, n).0, m, true) && FitsIn(Witness(op, m, n).1, n, true)
  {
    Pow2Positive(m - 1);
    Pow2Positive(n - 1);
  }

  lemma WitnessNeeds(op: BinaryOp, m: nat, n: nat, w: nat)
    requires m > 0 && n > 0 && w > 0 && IsRing(op)
    requires FitsIn(BinaryValue(op, Witness(op, m, n).0, Witness(op, m, n).1), w, true)
    ensures w >= NeededWidth(op, m, n)
  {
    match op
    case Add => SumNeeds(m, n, w);
    case Sub => DifferenceNeeds(m, n, w);
    case Mul => ProductNeeds(m, n, w);
    case _ => BitwiseNeeds(op, m, n, w);
  }

  lemma SumNeeds(m: nat, n: nat, w: nat)
    requires m > 0 && n > 0 && FitsIn(0 - Pow2(m - 1) - Pow2(n - 1), w, true)
    ensures w >= Larger(m, n) + 1
  {
    Pow2Positive(m - 1);
    Pow2Positive(n - 1);
    NeedsBelow(Larger(m, n) - 1, w, 0 - Pow2(m - 1) - Pow2(n - 1));
  }

  lemma DifferenceNeeds(m: nat, n: nat, w: nat)
    requires m > 0 && n > 0
    requires FitsIn(Witness(Sub, m, n).0 - Witness(Sub, m, n).1, w, true)
    ensures w >= Larger(m, n) + 1
  {
    NeedsBits(Larger(m, n) - 1, w, Pow2(Larger(m, n) - 1));
  }

  lemma ProductNeeds(m: nat, n: nat, w: nat)
    requires m > 0 && n > 0 && FitsIn((0 - Pow2(m - 1)) * (0 - Pow2(n - 1)), w, true)
    ensures w >= m + n
  {
    var p: int, q: int := Pow2(m - 1), Pow2(n - 1);
    Pow2Add(m - 1, n - 1);
    assert (0 - p) * (0 - q) == p * q;
    NeedsBits(m - 1 + (n - 1), w, p * q);
  }

  lemma BitwiseNeeds(op: BinaryOp, m: nat, n: nat, w: nat)
    requires m > 0 && n > 0 && w > 0 && IsBitwise(op)
    requires FitsIn(Bitwise(op, Witness(op, m, n).0, Witness(op, m, n).1), w, true)
    ensures w >= Larger(m, n)
  {
    var k := Larger(m, n) - 1;
    NeutralKeeps(op, 0 - Pow2(k));
    NeedsSame(k, w, Bitwise(op, 0 - Pow2(k), Neutral(op)));
  }

  /** A number of at least 2 to the k takes k + 2 bits. */
  lemma NeedsBits(k: nat, w: nat, x: int)
    requires x >= Pow2(k) && FitsIn(x, w, true)
    ensures w >= k + 2
  {
    Pow2Positive(k);
    assert w > 0 by {
      assert Pow2(0) == 1;
    }
    if w < k + 2 {
      Pow2Monotone(w - 1, k);
    }
  }

  lemma NeedsBelow(k: nat, w: nat, x: int)
    requires x < 0 - Pow2(k) && FitsIn(x, w, true)
    ensures w >= k + 2
  {
    if 0 < w < k + 2 {
      Pow2Monotone(w - 1, k);
    }
  }

  lemma NeedsSame(k: nat, w: nat, x: int)
    requires (x == 0 - Pow2(k) || x == Pow2(k) - 1) && FitsIn(x, w, true) && w > 0
    ensures w >= k + 1
  {
    if w < k + 1 {
      Pow2Positive(k - 1);
      Pow2Monotone(w - 1, k - 1);
    }
  }

  lemma HoldsBinaryExactly(op: BinaryOp, m: nat, n: nat, w: nat)
    requires m > 0 && n > 0 && w > 0 && IsRing(op)
    ensures HoldsBinary(op, m, n, w, true) <==> w >= NeededWidth(op, m, n)
  {
    if HoldsBinary(op, m, n, w, true) {
      var (x, y) := Witness(op, m, n);
      WitnessFits(op, m, n);
      assert BinaryHeld(op, x, y, m, n, w, true);
      WitnessNeeds(op, m, n, w);
    }
    if w >= NeededWidth(op, m, n) {
      forall x, y ensures BinaryHeld(op, x, y, m, n, w, true) {
        if FitsIn(x, m, true) && FitsIn(y, n, true) {
          BinaryFits(op, x, y, m, n);
          FitsWider(BinaryValue(op, x, y), NeededWidth(op, m, n), w);
        }
      }
    }
  }

  /** In expanding modes the width of a sum, difference, product or bitwise operation is the
      least that holds all results of signed operands of the widths found. */
  lemma BinaryLeast(cfg: Config, op: BinaryOp, p: Pair, w: nat)
    requires IsRing(op) && AtLeast(p.mode, EXPAND) && p.first.width > 0 && p.second.width > 0 && w > 0
    ensures HoldsBinary(op, p.second.width, p.first.width, w, true) <==> w >= CombineBinary(cfg, op, p).width
  {
    HoldsBinaryExactly(op, p.second.width, p.first.width, w);
  }

  /** It also holds all sums and products of unsigned operands. */
  lemma UnsignedHeld(cfg: Config, op: BinaryOp, p: Pair)
    requires (op.Add? || op.Mul?) && AtLeast(p.mode, EXPAND)
    ensures HoldsBinary(op, p.second.width, p.first.width, CombineBinary(cfg, op, p).width, false)
  {
    var m, n := p.second.width, p.first.width;
    forall x, y ensures BinaryHeld(op, x, y, m, n, CombineBinary(cfg, op, p).width, false) {
      if FitsIn(x, m, false) && FitsIn(y, n, false) {
        NaturalFits(op, x, y, m, n);
      }
    }
  }

  lemma NaturalFits(op: BinaryOp, x: int, y: int, m: nat, n: nat)
    requires (op.Add? || op.Mul?) && FitsIn(x, m, false) && FitsIn(y, n, false)
    ensures FitsIn(BinaryValue(op, x, y), NeededWidth(op, m, n), false)
  {
    Pow2Positive(m);
    Pow2Positive(n);
    if op.Mul? {
      NaturalProduct(x, y, Pow2(m), Pow2(n));
      Pow2Add(m, n);
    } else {
      Pow2Monotone(m, Larger(m, n));
      Pow2Monotone(n, Larger(m, n));
    }
  }

  // ---- Shifts in the tree ----

  /** In a lossless context, the wrap-around value of a left shift is exact if the left operand
      is a number of the width found for it, the count is one of those assumed possible, and
      the width holds them. */
  lemma LeftShiftIsExact(cfg: Config, e: Expr, mode: Mode, vals: Values, w: nat)
    requires e.Shift? && e.sop.ShiftLeft? && Local(e) && AtLeast(TestWidth(cfg, e, mode).mode, EXPAND)
    requires var l, r := TestWidth(cfg, e.base, SIZED), TestWidth(cfg, e.count, SIZED);
             var count := AssumedCount(cfg, e.sop, r, e.constant);
             && l.width > 0 && FitsSigned(Exact(e.base, vals, true), l.width) && vals.self(e.count) <= count
             && HoldsShifts(l.width, true, count, TestWidth(cfg, e, mode).width)
    requires w >= TestWidth(cfg, e, mode).width
    ensures w > 0 && SignedLow(Eval(e, vals, w, true), w) == Exact(e, vals, true)
  {
    var l, r := TestWidth(cfg, e.base, SIZED), TestWidth(cfg, e.count, SIZED);
    var count := AssumedCount(cfg, e.sop, r, e.constant);
    var t, x, n := TestWidth(cfg, e, mode), Exact(e.base, vals, true), vals.self(e.count);
    HoldsShiftsExactly(l.width, true, count, t.width);
    ShiftFits(x, n, l.width, true, t.width);
    FitsWider(x * Pow2(n), t.width, w);
    EvalIsLow(e, vals, w, true);
    LowIdempotent(x * Pow2(n), w);
    FitsIsLow(x * Pow2(n), w);
  }
}
