/** Integers as infinite two's complement bit strings, and their low W bits. */
module WrapArithmetic {
  import opened Powers
  import opened Widths

  /** The low w bits of x, read unsigned. */
  function Low(x: int, w: nat): nat {
    Pow2Positive(w);
    x % Pow2(w)
  }

  /** The low w bits of x, read signed. */
  function SignedLow(x: int, w: nat): int
    requires w > 0
  {
    var u := Low(x, w);
    if u >= Pow2(w - 1) then u - Pow2(w) else u
  }

  /** x is a signed number of w bits. */
  predicate FitsSigned(x: int, w: nat) {
    w > 0 && 0 - Pow2(w - 1) <= x < Pow2(w - 1)
  }

  lemma FitsWider(x: int, w: nat, w': nat)
    requires FitsSigned(x, w) && w <= w'
    ensures FitsSigned(x, w')
  {
    Pow2Monotone(w - 1, w' - 1);
  }

  /** A number that fits is what its low bits say. */
  lemma FitsIsLow(x: int, w: nat)
    requires FitsSigned(x, w)
    ensures SignedLow(x, w) == x
  {
    var p := Pow2(w - 1);
    assert Pow2(w) == 2 * p;
    if x >= 0 {
      DivModUnique(x, 2 * p, 0, x);
    } else {
      DivModUnique(x, 2 * p, -1, x + 2 * p);
    }
  }

  lemma ModShift(x: int, k: int, m: int)
    requires m > 0
    ensures (x + k * m) % m == x % m
  {
    var q, r := x / m, x % m;
    assert x == q * m + r;
    assert x + k * m == (q + k) * m + r by {
      assert (q + k) * m == q * m + k * m;
    }
    DivModUnique(x + k * m, m, q + k, r);
  }

  /** Numbers that differ by a multiple of 2^w have the same low bits. */
  lemma LowShift(x: int, k: int, w: nat)
    ensures Low(x + k * Pow2(w), w) == Low(x, w)
  {
    Pow2Positive(w);
    ModShift(x, k, Pow2(w));
  }

  lemma SameLow(x: int, y: int, k: int, w: nat)
    requires x == y + k * Pow2(w)
    ensures Low(x, w) == Low(y, w)
  {
    LowShift(y, k, w);
  }

  /** x is its low bits plus a multiple of 2^w. */
  function High(x: int, w: nat): int {
    Pow2Positive(w);
    x / Pow2(w)
  }

  lemma LowHigh(x: int, w: nat)
    ensures x == High(x, w) * Pow2(w) + Low(x, w)
  {
    Pow2Positive(w);
  }

  lemma LowAdd(x: int, y: int, w: nat)
    ensures Low(Low(x, w) + Low(y, w), w) == Low(x + y, w)
  {
    LowHigh(x, w);
    LowHigh(y, w);
    var k := High(x, w) + High(y, w);
    assert k * Pow2(w) == High(x, w) * Pow2(w) + High(y, w) * Pow2(w);
    assert x + y == Low(x, w) + Low(y, w) + k * Pow2(w);
    LowShift(Low(x, w) + Low(y, w), k, w);
  }

  lemma LowSub(x: int, y: int, w: nat)
    ensures Low(Low(x, w) - Low(y, w), w) == Low(x - y, w)
  {
    LowHigh(x, w);
    LowHigh(y, w);
    var k := High(x, w) - High(y, w);
    assert k * Pow2(w) == High(x, w) * Pow2(w) - High(y, w) * Pow2(w);
    assert x - y == Low(x, w) - Low(y, w) + k * Pow2(w);
    LowShift(Low(x, w) - Low(y, w), k, w);
  }

  lemma LowMul(x: int, y: int, w: nat)
    ensures Low(Low(x, w) * Low(y, w), w) == Low(x * y, w)
  {
    LowHigh(x, w);
    LowHigh(y, w);
    ProductSplit(x, y, High(x, w), Low(x, w), High(y, w), Low(y, w), Pow2(w));
    SameLow(x * y, Low(x, w) * Low(y, w), High(x, w) * y + Low(x, w) * High(y, w), w);
  }

  lemma ProductSplit(x: int, y: int, a: int, c: int, b: int, d: int, p: int)
    requires x == a * p + c && y == b * p + d
    ensures x * y == c * d + (a * y + c * b) * p
  {
    assert a * p * y + c * y == (a * p + c) * y;
    assert c * y == c * (b * p) + c * d;
    assert (a * y + c * b) * p == a * p * y + c * (b * p);
  }

  /** Fewer low bits of the low bits. */
  lemma LowLow(x: int, w: nat, w': nat)
    requires w <= w'
    ensures Low(Low(x, w'), w) == Low(x, w)
  {
    LowHigh(x, w');
    Pow2Add(w' - w, w);
    var k := High(x, w') * Pow2(w' - w);
    assert k * Pow2(w) == High(x, w') * Pow2(w');
    LowShift(Low(x, w'), k, w);
  }

  // ---- Bitwise operations ----

  predicate IsBitwise(op: BinaryOp) {
    op.And? || op.Or? || op.Xor? || op.Nor? || op.Nand? || op.Xnor?
  }

  function BitOf(op: BinaryOp, a: nat, b: nat): (r: nat)
    requires IsBitwise(op) && a <= 1 && b <= 1
    ensures r <= 1
  {
    match op
    case And => a * b
    case Or => a + b - a * b
    case Xor => (a + b) % 2
    case Nor => 1 - (a + b - a * b)
    case Nand => 1 - a * b
    case Xnor => 1 - (a + b) % 2
  }

  predicate IsSignOnly(x: int) {
    x == 0 || x == -1
  }

  function Abs(x: int): nat {
    if x < 0 then -x else x
  }

  /** The operation on every bit of two infinite two's complement strings. */
  function Bitwise(op: BinaryOp, x: int, y: int): int
    requires IsBitwise(op)
    decreases Abs(x) + Abs(y)
  {
    if IsSignOnly(x) && IsSignOnly(y) then 0 - BitOf(op, x % 2, y % 2)
    else 2 * Bitwise(op, x / 2, y / 2) + BitOf(op, x % 2, y % 2)
  }

  lemma BitwiseUnfold(op: BinaryOp, x: int, y: int)
    requires IsBitwise(op)
    ensures Bitwise(op, x, y) == 2 * Bitwise(op, x / 2, y / 2) + BitOf(op, x % 2, y % 2)
  {
  }

  lemma LowHalf(x: int, w: nat)
    requires w > 0
    ensures Low(x, w) == 2 * Low(x / 2, w - 1) + x % 2
  {
    LowHigh(x / 2, w - 1);
    var p, k := Pow2(w - 1), High(x / 2, w - 1);
    var r := 2 * Low(x / 2, w - 1) + x % 2;
    assert x == 2 * (k * p + Low(x / 2, w - 1)) + x % 2;
    assert k * Pow2(w) == 2 * (k * p) by {
      assert Pow2(w) == 2 * p;
      assert k * (2 * p) == 2 * (k * p);
    }
    Pow2Positive(w - 1);
    assert Low(x / 2, w - 1) < p;
    DivModUnique(x, Pow2(w), k, r);
  }

  /** The low bits of a bitwise operation come from the low bits of its operands. */
  lemma {:induction false} LowBitwise(op: BinaryOp, x: int, y: int, w: nat)
    requires IsBitwise(op)
    ensures Low(Bitwise(op, Low(x, w), Low(y, w)), w) == Low(Bitwise(op, x, y), w)
    decreases w
  {
    if w > 0 {
      var x', y' := Low(x, w), Low(y, w);
      LowHalf(x, w);
      LowHalf(y, w);
      assert x' / 2 == Low(x / 2, w - 1) && x' % 2 == x % 2;
      assert y' / 2 == Low(y / 2, w - 1) && y' % 2 == y % 2;
      LowBitwise(op, x / 2, y / 2, w - 1);
      LowBitStep(op, x, y, w);
      LowBitStep(op, x', y', w);
    } else {
      assert Pow2(0) == 1;
    }
  }

  lemma LowBitStep(op: BinaryOp, x: int, y: int, w: nat)
    requires IsBitwise(op) && w > 0
    ensures Low(Bitwise(op, x, y), w) == 2 * Low(Bitwise(op, x / 2, y / 2), w - 1) + BitOf(op, x % 2, y % 2)
  {
    BitwiseUnfold(op, x, y);
    LowOfDouble(Bitwise(op, x, y), Bitwise(op, x / 2, y / 2), BitOf(op, x % 2, y % 2), w);
  }

  lemma LowOfDouble(x: int, z: int, bit: int, w: nat)
    requires 0 <= bit <= 1 && w > 0 && x == 2 * z + bit
    ensures Low(x, w) == 2 * Low(z, w - 1) + bit
  {
    assert x / 2 == z && x % 2 == bit;
    LowHalf(x, w);
  }

  /** Bitwise operations stay within the width of their operands. */
  lemma {:induction false} BitwiseFits(op: BinaryOp, x: int, y: int, w: nat)
    requires IsBitwise(op) && FitsSigned(x, w) && FitsSigned(y, w)
    ensures FitsSigned(Bitwise(op, x, y), w)
    decreases w
  {
    assert Pow2(0) == 1;
    if w > 1 {
      assert Pow2(w - 1) == 2 * Pow2(w - 2);
      BitwiseFits(op, x / 2, y / 2, w - 1);
      BitwiseUnfold(op, x, y);
    }
  }

  // ---- Sizes of sums and products ----

  lemma SumFits(x: int, y: int, w: nat)
    requires FitsSigned(x, w) && FitsSigned(y, w)
    ensures FitsSigned(x + y, w + 1) && FitsSigned(x - y, w + 1)
  {
    assert Pow2(w) == 2 * Pow2(w - 1);
  }

  lemma ProductFits(x: int, y: int, m: nat, n: nat)
    requires FitsSigned(x, m) && FitsSigned(y, n)
    ensures FitsSigned(x * y, m + n)
  {
    var p, q := Pow2(m - 1), Pow2(n - 1);
    Pow2Add(m - 1, n - 1);
    assert Pow2(m + n - 1) == 2 * Pow2(m - 1 + (n - 1));
    assert 0 - p * q <= x * y <= p * q by {
      ProductBound(x, y, p, q);
    }
    Pow2Positive(m - 1);
    Pow2Positive(n - 1);
    assert p * q > 0;
  }

  lemma ProductBound(x: int, y: int, p: nat, q: nat)
    requires 0 - p <= x <= p && 0 - q <= y <= q
    ensures 0 - p * q <= x * y <= p * q
  {
    assert (p - x) * (q + y) >= 0 && (p + x) * (q - y) >= 0;
    assert (p - x) * (q - y) >= 0 && (p + x) * (q + y) >= 0;
    assert (p - x) * (q + y) == p * q + p * y - x * q - x * y;
    assert (p + x) * (q - y) == p * q - p * y + x * q - x * y;
    assert (p - x) * (q - y) == p * q - p * y - x * q + x * y;
    assert (p + x) * (q + y) == p * q + p * y + x * q + x * y;
  }
}
