/** The integers that vectors stand for. */
module Numbers {
  import opened FourState
  import opened Powers

  function Last(v: Vec): V
    requires v != []
  {
    v[|v| - 1]
  }

  function Unsigned(bits: Vec): nat {
    if bits == [] then 0 else (if bits[0] == V1 then 1 else 0) + 2 * Unsigned(bits[1..])
  }

  predicate TopSet(bits: Vec) {
    bits != [] && bits[|bits| - 1] == V1
  }

  function IntOf(bits: Vec, signed: bool): int {
    Unsigned(bits) - if signed && TopSet(bits) then Pow2(|bits|) else 0
  }

  lemma {:induction false} UnsignedBound(bits: Vec)
    ensures Unsigned(bits) < Pow2(|bits|)
  {
    if bits != [] {
      UnsignedBound(bits[1..]);
    }
  }

  lemma {:induction false} UnsignedOfAppend(a: Vec, b: Vec)
    ensures Unsigned(a + b) == Unsigned(a) + Pow2(|a|) * Unsigned(b)
  {
    if a == [] {
      assert a + b == b;
    } else {
      assert (a + b)[1..] == a[1..] + b;
      UnsignedOfAppend(a[1..], b);
      Pow2Times(|a| - 1, Unsigned(b));
    }
  }

  lemma {:induction false} UnsignedOfFill(v: V, n: nat)
    requires v == V0 || v == V1
    ensures Unsigned(Fill(v, n)) == if v == V1 then Pow2(n) - 1 else 0
  {
    if n > 0 {
      assert Fill(v, n)[1..] == Fill(v, n - 1);
      UnsignedOfFill(v, n - 1);
    }
  }

  lemma PaddedWithZeros(bits: Vec, n: nat)
    requires n > 0
    ensures forall signed :: IntOf(bits + Fill(V0, n), signed) == Unsigned(bits)
  {
    UnsignedOfAppend(bits, Fill(V0, n));
    UnsignedOfFill(V0, n);
  }

  lemma Negated(bits: Vec)
    requires bits != [] && bits[|bits| - 1] == V1
    ensures IntOf(bits, true) == Unsigned(bits) - Pow2(|bits|)
  {
  }

  lemma {:induction false} OnesOnTop(bits: Vec, n: nat)
    ensures Unsigned(bits + Fill(V1, n)) == Unsigned(bits) + Pow2(|bits| + n) - Pow2(|bits|)
  {
    if bits == [] {
      assert bits + Fill(V1, n) == Fill(V1, n);
      UnsignedOfFill(V1, n);
    } else {
      assert (bits + Fill(V1, n))[1..] == bits[1..] + Fill(V1, n);
      OnesOnTop(bits[1..], n);
    }
  }

  lemma Parity(a: nat, x: nat, b: nat, y: nat)
    requires a <= 1 && b <= 1 && a + 2 * x == b + 2 * y
    ensures a == b && x == y
  {
  }

  /** Equal-length defined vectors that stand for the same number are the same. */
  lemma {:induction false} UnsignedInjective(a: Vec, b: Vec)
    requires |a| == |b| && IsDefined(a) && IsDefined(b) && Unsigned(a) == Unsigned(b)
    ensures a == b
  {
    if a != [] {
      Parity(if a[0] == V1 then 1 else 0, Unsigned(a[1..]), if b[0] == V1 then 1 else 0, Unsigned(b[1..]));
      UnsignedInjective(a[1..], b[1..]);
      assert a == [a[0]] + a[1..] && b == [b[0]] + b[1..];
    }
  }

  lemma Distribute(p: int, u: int, q: int)
    ensures p * (u - q) == p * u - p * q && p * (u - 0) == p * u
  {
  }

  /** The bits of a vector split at a place below its top. */
  lemma IntOfSplit(bits: Vec, k: nat, signed: bool)
    requires k < |bits|
    ensures IntOf(bits, signed) == Unsigned(bits[..k]) + Pow2(k) * IntOf(bits[k..], signed)
  {
    UnsignedSplit(bits, k);
    Pow2Split(|bits|, k);
    IntOfParts(bits, Unsigned(bits[..k]), bits[k..], Pow2(k), signed);
  }

  lemma IntOfParts(bits: Vec, low: int, upper: Vec, p: int, signed: bool)
    requires bits != [] && upper != [] && Last(upper) == Last(bits)
    requires Unsigned(bits) == low + p * Unsigned(upper) && Pow2(|bits|) == p * Pow2(|upper|)
    ensures IntOf(bits, signed) == low + p * IntOf(upper, signed)
  {
    SplitArithmetic(Unsigned(bits), low, p, Unsigned(upper), Pow2(|upper|), signed && TopSet(bits));
  }

  lemma UnsignedSplit(bits: Vec, k: nat)
    requires k <= |bits|
    ensures Unsigned(bits) == Unsigned(bits[..k]) + Pow2(k) * Unsigned(bits[k..])
  {
    assert bits == bits[..k] + bits[k..];
    UnsignedOfAppend(bits[..k], bits[k..]);
  }

  lemma SplitArithmetic(whole: int, low: int, p: int, high: int, q: int, top: bool)
    requires whole == low + p * high
    ensures whole - (if top then p * q else 0) == low + p * (high - if top then q else 0)
  {
    Distribute(p, high, q);
  }

  function Weight(n: nat): int {
    Pow2(n)
  }

  lemma TopSetMeans(bits: Vec)
    requires IsDefined(bits) && bits != []
    ensures TopSet(bits) <==> Unsigned(bits) >= Pow2(|bits| - 1)
  {
    var n := |bits| - 1;
    assert bits == bits[..n] + [bits[n]];
    UnsignedOfAppend(bits[..n], [bits[n]]);
    UnsignedBound(bits[..n]);
    assert Unsigned([bits[n]]) == if bits[n] == V1 then 1 else 0;
  }

  lemma UpperZeros(bits: Vec, w: nat)
    requires w < |bits| && forall i | w <= i < |bits| :: bits[i] == V0
    ensures Unsigned(bits) == Unsigned(bits[..w])
  {
    assert bits == bits[..w] + Fill(V0, |bits| - w);
    UnsignedOfAppend(bits[..w], Fill(V0, |bits| - w));
    UnsignedOfFill(V0, |bits| - w);
  }

  lemma UpperNotZero(bits: Vec, w: nat, i: nat)
    requires w <= i < |bits| && IsDefined(bits) && bits[i] == V1
    ensures Unsigned(bits) >= Pow2(w)
  {
    assert bits == bits[..i] + bits[i..];
    UnsignedOfAppend(bits[..i], bits[i..]);
    Pow2Add(w, i - w);
    Pow2Positive(i - w);
    AtLeastFactor(Pow2(w), Pow2(i - w));
    AtLeastFactor(Pow2(i), Unsigned(bits[i..]));
  }

  lemma AtLeastFactor(p: nat, q: nat)
    requires q >= 1
    ensures p * q >= p
  {
  }

  /** In two's complement, the upper bits repeat the sign exactly if the value fits. */
  lemma UpperRepeatSign(bits: Vec, w: nat)
    requires 0 < w < |bits| && IsDefined(bits)
    ensures (forall i | w <= i < |bits| :: bits[i] == bits[w - 1])
            <==> -Weight(w - 1) <= IntOf(bits, true) < Pow2(w - 1)
    ensures (forall i | w <= i < |bits| :: bits[i] == bits[w - 1]) ==> IntOf(bits[..w], true) == IntOf(bits, true)
  {
    var k := w - 1;
    var upper := bits[k..];
    IntOfSplit(bits, k, true);
    UnsignedBound(bits[..k]);
    SignOnly(upper);
    ScaledFits(Pow2(k), IntOf(upper, true), Unsigned(bits[..k]));
    assert (forall i | w <= i < |bits| :: bits[i] == bits[k]) <==> upper == Fill(bits[k], |upper|) by {
      assert forall j | 0 <= j < |upper| :: upper[j] == bits[k + j];
      assert forall i | w <= i < |bits| :: bits[i] == upper[i - k];
    }
    if upper == Fill(bits[k], |upper|) {
      var short := bits[..w];
      IntOfSplit(short, k, true);
      assert short[..k] == bits[..k] && short[k..] == [bits[k]] == Fill(bits[k], 1);
      SignOnly(short[k..]);
    }
  }

  /** A number with lower part below p is within one p of zero exactly if its upper part is
      0 or -1. */
  lemma ScaledFits(p: int, x: int, low: int)
    requires 0 <= low < p
    ensures -p <= low + p * x < p <==> -1 <= x <= 0
  {
    if x >= 1 {
      assert p * (x - 1) >= 0;
    } else if x <= -2 {
      assert p * (-2 - x) >= 0;
    } else {
      assert x == 0 || x == -1;
    }
  }

  /** Only a vector of equal bits stands for 0 or -1. */
  lemma SignOnly(bits: Vec)
    requires bits != [] && IsDefined(bits)
    ensures IntOf(bits, true) == 0 <==> bits == Fill(V0, |bits|)
    ensures IntOf(bits, true) == -1 <==> bits == Fill(V1, |bits|)
    ensures bits == Fill(bits[0], |bits|) <==> -1 <= IntOf(bits, true) <= 0
  {
    var n := |bits|;
    UnsignedOfFill(V0, n);
    UnsignedOfFill(V1, n);
    UnsignedBound(bits);
    TopSetMeans(bits);
    if IntOf(bits, true) == 0 {
      UnsignedInjective(bits, Fill(V0, n));
    }
    if IntOf(bits, true) == -1 {
      UnsignedInjective(bits, Fill(V1, n));
    }
  }
}
