/** Constant selects of parameters. */
module Parameters {
  import opened FourState
  import opened Numbers
  import opened Strings
  import S = Selects

  /** A parameter's value, and whether it was written as a string. */
  datatype Param = Param(value: Verinum, isString: bool)

  /** The bit beyond the top of a value without a definite length. */
  function SignBit(v: Verinum): V
    requires v.bits != []
  {
    if v.hasSign then v.bits[|v.bits| - 1] else V0
  }

  /** The bit of a parameter at a canonical address: strings are padded with nulls. */
  function BitOf(par: Param, off: int): V
    requires par.value.bits != []
  {
    if off < 0 then Vx
    else if off < |par.value.bits| then par.value.bits[off]
    else if par.isString then V0
    else if par.value.hasLen then Vx
    else SignBit(par.value)
  }

  /** Whether a selection of a string is again made into a string. */
  predicate IsText(par: Param, wid: int, lsv: int) {
    par.isString && lsv % 8 == 0 && wid % 8 == 0
  }

  /** The bits from address lsv on; as a text, with nothing but ones and zeros. */
  predicate BitsFrom(par: Param, lsv: int, bits: Vec)
    requires par.value.bits != []
  {
    forall j | 0 <= j < |bits| ::
      bits[j] == if IsText(par, |bits|, lsv) && BitOf(par, lsv + j) != V1 then V0 else BitOf(par, lsv + j)
  }

  /** A constant select: the value, or an error for a part select against the range. */
  datatype Selected = Selected(bits: Vec) | OutOfOrder

  /** A constant bit select [i] of a parameter with the given range. */
  function ElaborateBit(par: Param, r: S.Range, i: int): V
    requires par.value.bits != []
  {
    var sel := if r.msb >= r.lsb then i - r.lsb else r.lsb - i;
    var v := par.value;
    if sel >= 0 && sel < |v.bits| then v.bits[sel]
    else if sel >= 0 && !v.hasLen then
      if v.hasSign then v.bits[|v.bits| - 1] else V0
    else Vx
  }

  /** Fetch bits one by one, starting from all x. A selection of whole bytes of a string goes
      through its spelling, whatever characters are printable. */
  method PartSelectBits(par: Param, wid: nat, lsv: int, printable: nat -> bool) returns (result: Vec)
    requires par.value.bits != [] && wid > 0
    ensures |result| == wid && BitsFrom(par, lsv, result)
  {
    result := Fill(Vx, wid);
    var val := par.value;
    var idx := 0;
    while idx < wid
      invariant 0 <= idx <= wid == |result|
      invariant forall j | 0 <= j < idx :: result[j] == BitOf(par, lsv + j)
      invariant forall j | idx <= j < wid :: result[j] == Vx
    {
      var off := idx + lsv;
      if off < 0 {
      } else if off < |val.bits| {
        result := result[idx := val.bits[off]];
      } else if par.isString {
        result := result[idx := V0];
      } else if val.hasLen {
      } else {
        result := result[idx := SignBit(val)];
      }
      idx := idx + 1;
    }
    if par.isString && (if lsv < 0 then -lsv else lsv) % 8 == 0 && wid % 8 == 0 {
      result := Restrung(result, printable);
    }
  }

  /** Spell a vector and make a constant of the text. */
  method Restrung(bits: Vec, printable: nat -> bool) returns (result: Vec)
    requires bits != [] && |bits| % 8 == 0
    ensures result == Cleared(bits)
  {
    var text := AsString(bits, printable);
    SpellingReadsBack(bits, printable);
    StringRoundTrip(bits);
    var read := FromString(text);
    result := read.value;
  }

  /** The select gives the bits from the address of the least significant index on. */
  predicate IsSelected(par: Param, r: S.Range, s: S.Select, bits: Vec)
    requires par.value.bits != []
  {
    |bits| == S.SelectWidth(r, s) && BitsFrom(par, S.Offset(r, S.LowIndex(r, s)), bits)
  }

  /** The select is the concatenation of the single bit selects of its declared indices. */
  predicate IsConcatenation(par: Param, r: S.Range, s: S.Select, bits: Vec)
    requires par.value.bits != []
  {
    |bits| == S.SelectWidth(r, s) && forall j | 0 <= j < |bits| :: bits[j] == ElaborateBit(par, r, S.IndexOf(r, s, j))
  }

  method ElaboratePart(par: Param, r: S.Range, msb: int, lsb: int, printable: nat -> bool) returns (result: Selected)
    requires par.value.bits != []
    ensures result.OutOfOrder? <==> S.SelectWidth(r, S.Part(msb, lsb)) <= 0
    ensures result.Selected? ==> IsSelected(par, r, S.Part(msb, lsb), result.bits)
  {
    if (msb > lsb && r.msb < r.lsb) || (msb < lsb && r.msb >= r.lsb) {
      return OutOfOrder;
    }
    var wid := 1 + if msb >= lsb then msb - lsb else lsb - msb;
    var base := if r.msb < r.lsb then r.lsb - lsb else lsb - r.lsb;
    var bits := PartSelectBits(par, wid, base, printable);
    result := Selected(bits);
  }

  /** Indexed selects have a positive width: for any other an error is reported and 1 taken. */
  method ElaborateUp(par: Param, r: S.Range, base: int, wid: nat, printable: nat -> bool) returns (bits: Vec)
    requires par.value.bits != [] && wid > 0
    ensures IsSelected(par, r, S.Up(base, wid), bits)
  {
    var lsv, parBase := base, r.lsb;
    if r.msb < r.lsb {
      parBase := lsv;
      lsv := r.lsb - wid + 1;
    }
    bits := PartSelectBits(par, wid, lsv - parBase, printable);
  }

  method ElaborateDown(par: Param, r: S.Range, base: int, wid: nat, printable: nat -> bool) returns (bits: Vec)
    requires par.value.bits != [] && wid > 0
    ensures IsSelected(par, r, S.Down(base, wid), bits)
  {
    var lsv, parBase := base, r.lsb + wid - 1;
    if r.msb < r.lsb {
      parBase := lsv;
      lsv := r.lsb;
    }
    bits := PartSelectBits(par, wid, lsv - parBase, printable);
  }

  /** A select of a number is the concatenation of its bit selects. */
  lemma NumbersConcatenate(par: Param, r: S.Range, s: S.Select, bits: Vec)
    requires par.value.bits != [] && !par.isString && IsSelected(par, r, s, bits)
    ensures IsConcatenation(par, r, s, bits)
  {
    forall j | 0 <= j < |bits| ensures bits[j] == ElaborateBit(par, r, S.IndexOf(r, s, j)) {
      S.OffsetOfIndex(r, s, j);
    }
  }

  /** A select of a string is so exactly if it ends within the string and, being a text,
      begins within it: a bit select gives x where the string is padded, and a text has no
      x below the string. */
  lemma StringsConcatenateIff(par: Param, r: S.Range, s: S.Select, bits: Vec)
    requires par.value.bits != [] && par.isString && par.value.hasLen && IsDefined(par.value.bits)
    requires IsSelected(par, r, s, bits) && bits != []
    ensures var low := S.Offset(r, S.LowIndex(r, s));
            IsConcatenation(par, r, s, bits) <==>
            low + |bits| <= |par.value.bits| && (IsText(par, |bits|, low) ==> low >= 0)
  {
    var low, n := S.Offset(r, S.LowIndex(r, s)), |bits|;
    forall j | 0 <= j < n
      ensures ElaborateBit(par, r, S.IndexOf(r, s, j)) ==
              if 0 <= low + j < |par.value.bits| then par.value.bits[low + j] else Vx
    {
      S.OffsetOfIndex(r, s, j);
    }
    if low + n > |par.value.bits| {
      assert bits[n - 1] != ElaborateBit(par, r, S.IndexOf(r, s, n - 1));
    } else if IsText(par, n, low) && low < 0 {
      assert bits[0] != ElaborateBit(par, r, S.IndexOf(r, s, 0));
    }
  }

  /** Selects of the same declared indices, however written, give the same bits. */
  lemma SameIndicesSameBits(par: Param, r: S.Range, s: S.Select, s': S.Select, bits: Vec, bits': Vec)
    requires par.value.bits != [] && IsSelected(par, r, s, bits) && IsSelected(par, r, s', bits')
    requires S.SelectWidth(r, s) == S.SelectWidth(r, s') && S.LowIndex(r, s) == S.LowIndex(r, s')
    ensures bits == bits'
  {
  }

  /** The three spellings of one range of indices, from the lower one to the higher one. */
  lemma SpellingsAgree(par: Param, r: S.Range, low: int, wid: nat, part: Vec, up: Vec, down: Vec)
    requires par.value.bits != [] && wid > 0
    requires var high := low + wid - 1;
             && IsSelected(par, r, if S.Descending(r) then S.Part(high, low) else S.Part(low, high), part)
             && IsSelected(par, r, S.Up(low, wid), up) && IsSelected(par, r, S.Down(high, wid), down)
    ensures part == up == down
  {
    var high := low + wid - 1;
    var p := if S.Descending(r) then S.Part(high, low) else S.Part(low, high);
    SameIndicesSameBits(par, r, p, S.Up(low, wid), part, up);
    SameIndicesSameBits(par, r, p, S.Down(high, wid), part, down);
  }

  /** Beyond the top of a value: 0 for strings, x for other sized values, and otherwise the
      extension, for all the bits that a select takes from there. */
  lemma BeyondTheTop(par: Param, r: S.Range, s: S.Select, bits: Vec, j: nat)
    requires par.value.bits != [] && IsSelected(par, r, s, bits) && j < |bits|
    requires S.Offset(r, S.IndexOf(r, s, j)) >= |par.value.bits|
    ensures forall i | j <= i < |bits| ::
              bits[i] == if par.isString then V0 else if par.value.hasLen then Vx else SignBit(par.value)
  {
    forall i | j <= i < |bits|
      ensures bits[i] == if par.isString then V0 else if par.value.hasLen then Vx else SignBit(par.value)
    {
      S.OffsetOfIndex(r, s, i);
      S.OffsetOfIndex(r, s, j);
    }
  }

  /** An unsized number keeps its integer however many bits are taken of it. */
  lemma ExtensionKeepsInteger(par: Param, bits: Vec)
    requires par.value.bits != [] && !par.isString && !par.value.hasLen && IsDefined(par.value.bits)
    requires |bits| > |par.value.bits| && BitsFrom(par, 0, bits)
    ensures IntOf(bits, par.value.hasSign) == IntOf(par.value.bits, par.value.hasSign)
  {
    var v, n := par.value, |bits| - |par.value.bits|;
    forall i | 0 <= i < |bits| ensures bits[i] == if i < |v.bits| then v.bits[i] else SignBit(v) {
      assert bits[i] == BitOf(par, 0 + i);
    }
    assert bits == v.bits + Fill(SignBit(v), n);
    if SignBit(v) == V0 {
      PaddedWithZeros(v.bits, n);
    } else {
      OnesOnTop(v.bits, n);
      Negated(bits);
      Negated(v.bits);
    }
  }

  /** "A" with a range [7:0]: [15:8] is all zeros, but its bits taken one by one are all x. */
  lemma StringsArePadded(bits: Vec)
    requires IsSelected(Param(Verinum(BitsOf(65, 8), true, false, false), true), S.Range(7, 0), S.Part(15, 8), bits)
    ensures bits == Fill(V0, 8)
    ensures ElaborateBit(Param(Verinum(BitsOf(65, 8), true, false, false), true), S.Range(7, 0), 8) == Vx
  {
  }
}
