/** Elaboration of shifts: the special cases and the general one. */
module Shifts {
  import opened FourState
  import opened Numbers
  import opened Powers

  datatype Op = Left | Right | SignedRight

  /** An operand of a shift: a constant, or an expression, of a two-state or four-state type. */
  datatype Operand = Const(bits: Vec, twoState: bool) | Variable(twoState: bool)

  /** The value may be that of the operand. */
  predicate Evaluates(x: Operand, v: Vec) {
    && (x.twoState ==> IsDefined(v))
    && (x.Const? ==> v == x.bits)
  }

  /** What a shift is elaborated into. */
  datatype Elaborated =
    | Zero
    | AllX
    | LeftOperand
    | TopBit
    | General

  // ---- The general shift ----

  /** Shift by a number of places. What moves in is the top bit if the shift is a right one
      that is signed, and otherwise 0. */
  function Moved(op: Op, signed: bool, l: Vec, n: nat): (r: Vec)
    requires l != []
    ensures |r| == |l|
  {
    var fill := if op.SignedRight? && signed then Last(l) else V0;
    seq(|l|, i requires 0 <= i < |l| =>
      if op.Left? then (if i < n then V0 else l[i - n])
      else if i + n < |l| then l[i + n] else fill)
  }

  /** A four-state shift: x throughout if the count is not defined. */
  function Shifted(op: Op, signed: bool, l: Vec, r: Vec): Vec
    requires l != []
  {
    if IsDefined(r) then Moved(op, signed, l, Unsigned(r)) else Fill(Vx, |l|)
  }

  lemma LeftIsMultiplication(signed: bool, l: Vec, n: nat)
    requires l != [] && IsDefined(l)
    ensures Weight(|l|) > 0
    ensures Unsigned(Moved(Left, signed, l, n)) == (Weight(n) * Unsigned(l)) % Weight(|l|)
  {
    UnsignedBound(Moved(Left, signed, l, n));
    var k := LeftQuotient(signed, l, n);
    DivModUnique(Weight(n) * Unsigned(l), Weight(|l|), k, Unsigned(Moved(Left, signed, l, n)));
  }

  /** The bits shifted out at the top. */
  lemma LeftQuotient(signed: bool, l: Vec, n: nat) returns (k: int)
    requires l != [] && IsDefined(l)
    ensures Weight(n) * Unsigned(l) == k * Weight(|l|) + Unsigned(Moved(Left, signed, l, n))
  {
    var w := |l|;
    if n >= w {
      LeftOut(signed, l, n);
      k := Weight(n - w) * Unsigned(l);
    } else {
      k := Unsigned(l[w - n..]);
      assert Moved(Left, signed, l, n) == Fill(V0, n) + l[..w - n];
      assert l[..w - n] + l[w - n..] == l;
      LeftWithin(l[..w - n], l[w - n..]);
    }
  }

  lemma LeftOut(signed: bool, l: Vec, n: nat)
    requires l != [] && n >= |l|
    ensures Weight(n) * Unsigned(l) == (Weight(n - |l|) * Unsigned(l)) * Weight(|l|) + Unsigned(Moved(Left, signed, l, n))
  {
    var w := |l|;
    assert Moved(Left, signed, l, n) == Fill(V0, w);
    UnsignedOfFill(V0, w);
    Pow2Split(n, w);
    Regroup(Unsigned(l), Weight(w), Weight(n - w), Weight(n));
  }

  lemma Regroup(u: int, p: int, q: int, pq: int)
    requires pq == p * q
    ensures pq * u == (q * u) * p
  {
  }

  lemma LeftWithin(low: Vec, high: Vec)
    ensures Weight(|high|) * Unsigned(low + high) ==
            Weight(|low + high|) * Unsigned(high) + Unsigned(Fill(V0, |high|) + low)
  {
    var zeros := Fill(V0, |high|);
    FilledBelow(low + high, |high|);
    UnsignedOfAppend(zeros + low, high);
    assert zeros + (low + high) == (zeros + low) + high;
  }

  lemma FilledBelow(l: Vec, n: nat)
    ensures Unsigned(Fill(V0, n) + l) == Weight(n) * Unsigned(l)
  {
    UnsignedOfAppend(Fill(V0, n), l);
    UnsignedOfFill(V0, n);
  }

  /** A right shift, signed or not, is division rounding down. */
  lemma RightIsDivision(op: Op, signed: bool, l: Vec, n: nat)
    requires l != [] && IsDefined(l) && !op.Left?
    ensures Weight(n) > 0
    ensures var asSigned := op.SignedRight? && signed;
            IntOf(Moved(op, signed, l, n), asSigned) == IntOf(l, asSigned) / Weight(n)
  {
    var asSigned, w := op.SignedRight? && signed, |l|;
    var fill := if asSigned then Last(l) else V0;
    var m := Moved(op, signed, l, n);
    Pow2Positive(n);
    if n >= w {
      assert m == Fill(fill, w);
      UnsignedOfFill(fill, w);
      UnsignedBound(l);
      TopSetMeans(l);
      Pow2Monotone(w, n);
      var top := asSigned && TopSet(l);
      DivModUnique(IntOf(l, asSigned), Weight(n), if top then -1 else 0, IntOf(l, asSigned) + if top then Pow2(n) else 0);
    } else if n == 0 {
      assert m == l;
    } else {
      IntOfSplit(l, n, asSigned);
      UnsignedBound(l[..n]);
      var high := l[n..];
      DivModUnique(IntOf(l, asSigned), Weight(n), IntOf(high, asSigned), Unsigned(l[..n]));
      assert m == high + Fill(fill, n);
      assert Last(high) == Last(l);
      Extended(high, n, asSigned);
    }
  }

  lemma Extended(v: Vec, n: nat, signed: bool)
    requires v != [] && IsDefined(v)
    ensures IntOf(v + Fill(if signed then Last(v) else V0, n), signed) == IntOf(v, signed)
  {
    var fill := Fill(if signed then Last(v) else V0, n);
    UnsignedOfAppend(v, fill);
    UnsignedOfFill(if signed then Last(v) else V0, n);
    Pow2Add(|v|, n);
    Distribute(Pow2(|v|), Pow2(n), 1);
    if n > 0 {
      assert Last(v + fill) == fill[n - 1];
    } else {
      assert v + fill == v;
    }
  }

  // ---- The special cases ----

  /** The count as an unsigned long, of which `most` is the largest; a larger count gives that. */
  function AsUlong(bits: Vec, most: nat): nat {
    if !IsDefined(bits) then 0
    else if Unsigned(bits) <= most then Unsigned(bits)
    else most
  }

  function Elaborate(op: Op, signed: bool, l: Operand, r: Operand, width: nat, most: nat): Elaborated {
    if l.Const? then
      if IsDefined(l.bits) && (forall i | 0 <= i < |l.bits| :: l.bits[i] == V0) && r.twoState then Zero
      else General
    else if r.Const? then
      if !IsDefined(r.bits) then AllX
      else
        var shift := AsUlong(r.bits, most);
        if shift == 0 then LeftOperand
        else if op.SignedRight? && signed && shift >= width then TopBit
        else if shift >= width then Zero
        else General
    else General
  }

  function Meaning(e: Elaborated, op: Op, signed: bool, l: Vec, r: Vec): Vec
    requires l != []
  {
    match e
    case Zero => Fill(V0, |l|)
    case AllX => Fill(Vx, |l|)
    case LeftOperand => l
    case TopBit => Fill(Last(l), |l|)
    case General => Shifted(op, signed, l, r)
  }

  /** Every special case is the general shift, for all values the operands may have. */
  lemma SpecialCasesAreShifts(op: Op, signed: bool, l: Operand, r: Operand, lv: Vec, rv: Vec, most: nat)
    requires Evaluates(l, lv) && Evaluates(r, rv) && 0 < |lv| <= most
    ensures Meaning(Elaborate(op, signed, l, r, |lv|, most), op, signed, lv, rv) == Shifted(op, signed, lv, rv)
  {
    if l.Const? {
      if (forall i | 0 <= i < |l.bits| :: l.bits[i] == V0) && r.twoState {
        ZeroStays(op, signed, lv, rv);
      }
    } else if r.Const? && IsDefined(r.bits) {
      ConstantCount(op, signed, lv, rv, most);
    }
  }

  lemma ZeroStays(op: Op, signed: bool, l: Vec, r: Vec)
    requires l != [] && IsDefined(r) && forall i | 0 <= i < |l| :: l[i] == V0
    ensures Shifted(op, signed, l, r) == Fill(V0, |l|)
  {
    assert Moved(op, signed, l, Unsigned(r)) == Fill(V0, |l|);
  }

  lemma ConstantCount(op: Op, signed: bool, l: Vec, r: Vec, most: nat)
    requires 0 < |l| <= most && IsDefined(r)
    ensures AsUlong(r, most) == 0 ==> Shifted(op, signed, l, r) == l
    ensures AsUlong(r, most) >= |l| && op.SignedRight? && signed ==> Shifted(op, signed, l, r) == Fill(Last(l), |l|)
    ensures AsUlong(r, most) >= |l| && !(op.SignedRight? && signed) ==> Shifted(op, signed, l, r) == Fill(V0, |l|)
  {
    var n := Unsigned(r);
    if n == 0 {
      assert Moved(op, signed, l, n) == l;
    } else if n >= |l| {
      assert Moved(op, signed, l, n) == Fill(if op.SignedRight? && signed then Last(l) else V0, |l|);
    }
  }

  /** The x that a count with an undefined bit gives does not depend on the left operand: a
      constant zero is only special for counts of a two-state type. */
  lemma ZeroByUndefinedIsX(op: Op, signed: bool, width: nat, most: nat)
    requires width > 0
    ensures Elaborate(op, signed, Const(Fill(V0, width), false), Variable(false), width, most) == General
    ensures Shifted(op, signed, Fill(V0, width), [Vx]) != Fill(V0, width)
  {
    assert !IsDefined([Vx]) by {
      assert [Vx][0] == Vx;
    }
    assert Fill(Vx, width)[0] != Fill(V0, width)[0];
  }
}
