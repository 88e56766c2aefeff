/** Select l-values of packed vectors: where the bits that are assigned end up. */
module Selects {
  import opened FourState

  /** A declared range; it may run either way. */
  datatype Range = Range(msb: int, lsb: int)

  predicate Descending(r: Range) {
    r.msb >= r.lsb
  }

  function Width(r: Range): (w: nat)
    ensures w > 0
  {
    if Descending(r) then r.msb - r.lsb + 1 else r.lsb - r.msb + 1
  }

  /** The place of a declared index within its dimension. */
  function Offset(r: Range, i: int): int {
    if Descending(r) then i - r.lsb else r.lsb - i
  }

  predicate Inside(r: Range, i: int) {
    0 <= Offset(r, i) < Width(r)
  }

  /** The number of bits of all dimensions together. */
  function Total(dims: seq<Range>): (t: nat)
    ensures t > 0
  {
    if dims == [] then 1
    else
      var rest := Total(dims[1..]);
      Grows(Width(dims[0]), rest);
      Width(dims[0]) * rest
  }

  lemma Grows(a: nat, b: nat)
    requires a > 0 && b > 0
    ensures a * b > 0
  {
  }

  /** The canonical address of the bit with one declared index for each dimension, outermost
      first. */
  function Address(dims: seq<Range>, indices: seq<int>): int
    requires |indices| == |dims|
  {
    if dims == [] then 0
    else Offset(dims[0], indices[0]) * Total(dims[1..]) + Address(dims[1..], indices[1..])
  }

  predicate Declared(dims: seq<Range>, indices: seq<int>) {
    |indices| == |dims| && forall k | 0 <= k < |dims| :: Inside(dims[k], indices[k])
  }

  /** Compute the address from the innermost dimension outwards. */
  method SbToIdx(dims: seq<Range>, prefix: seq<int>, sb: int) returns (accOff: int)
    requires |prefix| + 1 == |dims|
    ensures accOff == Address(dims, prefix + [sb])
  {
    ghost var all := prefix + [sb];
    var pcur := |dims| - 1;
    accOff := Offset(dims[pcur], sb);
    var accWid := Width(dims[pcur]);
    assert dims[pcur..] == [dims[pcur]] && all[pcur..] == [sb] && dims[pcur..][1..] == [];
    while pcur > 0
      invariant 0 <= pcur < |dims|
      invariant accWid == Total(dims[pcur..])
      invariant accOff == Address(dims[pcur..], all[pcur..])
    {
      pcur := pcur - 1;
      assert dims[pcur..][1..] == dims[pcur + 1..] && all[pcur..][1..] == all[pcur + 1..];
      accOff := accOff + Offset(dims[pcur], prefix[pcur]) * accWid;
      accWid := accWid * Width(dims[pcur]);
    }
    assert dims[0..] == dims && all[0..] == all;
  }

  // ---- Addresses number the declared bits ----

  lemma {:induction false} AddressInRange(dims: seq<Range>, indices: seq<int>)
    requires Declared(dims, indices)
    ensures 0 <= Address(dims, indices) < Total(dims)
  {
    if dims != [] {
      AddressInRange(dims[1..], indices[1..]);
      Digit(Offset(dims[0], indices[0]), Width(dims[0]), Address(dims[1..], indices[1..]), Total(dims[1..]));
    }
  }

  lemma Digit(q: int, w: int, r: int, t: int)
    requires 0 <= r < t
    ensures 0 <= q * t + r < w * t <==> 0 <= q < w
  {
    if q >= w {
      Monotone(w, q, t);
    } else if q < 0 {
      Monotone(q + 1, 0, t);
    } else {
      Monotone(q + 1, w, t);
      Monotone(0, q, t);
    }
  }

  lemma Monotone(a: int, b: int, t: int)
    requires a <= b && t >= 0
    ensures a * t <= b * t
  {
    assert (b - a) * t >= 0;
  }

  /** Different declared bits have different addresses. */
  lemma {:induction false} AddressInjective(dims: seq<Range>, a: seq<int>, b: seq<int>)
    requires Declared(dims, a) && Declared(dims, b) && Address(dims, a) == Address(dims, b)
    ensures a == b
  {
    if dims != [] {
      AddressInRange(dims[1..], a[1..]);
      AddressInRange(dims[1..], b[1..]);
      SameDigits(Offset(dims[0], a[0]), Address(dims[1..], a[1..]), Offset(dims[0], b[0]), Address(dims[1..], b[1..]),
                 Total(dims[1..]));
      AddressInjective(dims[1..], a[1..], b[1..]);
      assert a == [a[0]] + a[1..] && b == [b[0]] + b[1..];
    }
  }

  lemma Apart(q: int, q': int, t: int)
    requires q > q' && t >= 0
    ensures q * t >= q' * t + t
  {
    assert (q - q' - 1) * t >= 0;
  }

  lemma SameDigits(q: int, r: int, q': int, r': int, t: int)
    requires 0 <= r < t && 0 <= r' < t && q * t + r == q' * t + r'
    ensures q == q' && r == r'
  {
    if q > q' {
      Apart(q, q', t);
    } else if q' > q {
      Apart(q', q, t);
    }
  }

  /** Every address below the total belongs to a declared bit. */
  function IndicesAt(dims: seq<Range>, address: nat): (indices: seq<int>)
    requires address < Total(dims)
    ensures Declared(dims, indices) && Address(dims, indices) == address
  {
    if dims == [] then []
    else
      var t := Total(dims[1..]);
      var q, r := address / t, address % t;
      DivMod(address, t, Width(dims[0]));
      var first := if Descending(dims[0]) then q + dims[0].lsb else dims[0].lsb - q;
      var rest := IndicesAt(dims[1..], r);
      assert ([first] + rest)[1..] == rest;
      [first] + rest
  }

  lemma DivMod(a: nat, t: nat, w: nat)
    requires t > 0 && a < w * t
    ensures a == (a / t) * t + a % t && 0 <= a % t < t && 0 <= a / t < w
  {
    Digit(a / t, w, a % t, t);
  }

  function Inner(dims: seq<Range>): Range
    requires dims != []
  {
    dims[|dims| - 1]
  }

  lemma {:induction false} AddressInSlice(dims: seq<Range>, prefix: seq<int>, i: int, j: int)
    requires |prefix| + 1 == |dims|
    ensures Address(dims, prefix + [i]) - Offset(Inner(dims), i) == Address(dims, prefix + [j]) - Offset(Inner(dims), j)
  {
    var a, b := prefix + [i], prefix + [j];
    if |dims| == 1 {
      assert dims[1..] == [];
    } else {
      assert a[1..] == prefix[1..] + [i] && b[1..] == prefix[1..] + [j];
      AddressInSlice(dims[1..], prefix[1..], i, j);
    }
  }

  // ---- What a select stands for ----

  /** A part select [msb:lsb], and indexed selects [base +: wid] and [base -: wid]. */
  datatype Select =
    | Part(msb: int, lsb: int)
    | Up(base: int, wid: nat)
    | Down(base: int, wid: nat)

  /** The number of bits selected; not positive for a part select written the wrong way. */
  function SelectWidth(r: Range, s: Select): int {
    match s
    case Part(msb, lsb) => Offset(r, msb) - Offset(r, lsb) + 1
    case Up(_, wid) => wid
    case Down(_, wid) => wid
  }

  /** The declared index of the least significant bit selected: indices grow towards the most
      significant bit in a descending range, and fall in an ascending one. */
  function LowIndex(r: Range, s: Select): int {
    match s
    case Part(_, lsb) => lsb
    case Up(base, wid) => if Descending(r) then base else base + wid - 1
    case Down(base, wid) => if Descending(r) then base - wid + 1 else base
  }

  /** The declared index of the j-th bit selected. */
  function IndexOf(r: Range, s: Select, j: int): int {
    if Descending(r) then LowIndex(r, s) + j else LowIndex(r, s) - j
  }

  lemma OffsetOfIndex(r: Range, s: Select, j: int)
    ensures Offset(r, IndexOf(r, s, j)) == Offset(r, LowIndex(r, s)) + j
  {
  }

  // ---- The l-value ----

  /** What part of the signal an l-value assigns: all of it, the bits from a canonical
      address on, or an unknown part. */
  datatype Piece = Whole | Bits(base: int, wid: nat) | Unknown(wid: nat)

  /** The address that the source gives to bit 0 of a select: an indexed select is moved by its
      width if its direction is not the range's. */
  function BaseAddress(dims: seq<Range>, prefix: seq<int>, s: Select): int
    requires |prefix| + 1 == |dims|
  {
    var r := Inner(dims);
    match s
    case Part(_, lsb) => Address(dims, prefix + [lsb])
    case Up(base, wid) => Address(dims, prefix + [base]) + if r.msb < r.lsb then 1 - wid else 0
    case Down(base, wid) => Address(dims, prefix + [base]) + if r.msb > r.lsb then 1 - wid else 0
  }

  /** Assigning v to a piece of a vector; bits that fall outside are dropped. */
  function Assigned(before: Vec, piece: Piece, v: Vec): (r: Vec)
    requires piece.Whole? ==> |v| == |before|
    requires piece.Bits? ==> |v| == piece.wid
    ensures |r| == |before|
  {
    match piece
    case Whole => v
    case Bits(base, wid) =>
      seq(|before|, i requires 0 <= i < |before| => if base <= i < base + wid then v[i - base] else before[i])
    case Unknown(_) => before
  }

  /** A constant bit select as an operand: x outside the vector. */
  function ReadBit(dims: seq<Range>, vec: Vec, indices: seq<int>): V
    requires |indices| == |dims|
  {
    var idx := Address(dims, indices);
    if 0 <= idx < |vec| then vec[idx] else Vx
  }

  class NetAssign {
    const dims: seq<Range>
    var piece: Piece
    var errors: nat

    constructor (dims: seq<Range>)
      ensures this.dims == dims && piece == Whole && errors == 0
    {
      this.dims, piece, errors := dims, Whole, 0;
    }

    /** A constant part select of the innermost dimension. */
    method ElaboratePart(prefix: seq<int>, msb: int, lsb: int, defined: bool) returns (ok: bool)
      requires |prefix| + 1 == |dims| && piece == Whole
      modifies this
      ensures !defined ==> ok && piece == Unknown(2)
      ensures defined ==> (ok <==> SelectWidth(Inner(dims), Part(msb, lsb)) > 0)
      ensures defined && ok ==> Stands(dims, prefix, Part(msb, lsb), piece)
      ensures !ok ==> piece == Whole
      ensures errors == old(errors) + if ok then 0 else 1
    {
      if !defined {
        piece := Unknown(2);
        return true;
      }
      var loff := SbToIdx(dims, prefix, lsb);
      var moff := SbToIdx(dims, prefix, msb);
      AddressInSlice(dims, prefix, lsb, msb);
      var wid := moff - loff + 1;
      if moff < loff {
        errors := errors + 1;
        return false;
      }
      if loff == 0 && moff == Total(dims) - 1 {
        return true;
      }
      piece := Bits(loff, wid);
      return true;
    }

    /** A constant part select of an outer dimension: a range of slices. It fails an internal
        assertion exactly if one of its ends is not declared; reversed ends are no error. */
    method ElaborateSlices(prefix: seq<int>, msb: int, lsb: int) returns (asserted: bool)
      requires |prefix| + 1 < |dims| && piece == Whole
      modifies this`piece
      ensures asserted <==> Slices(dims, prefix, msb, lsb).Valid()
      ensures asserted ==> Slices(dims, prefix, msb, lsb).Stands(piece)
      ensures !asserted ==> piece == Whole
    {
      var lok, loff, lwid := PrefixToSlice(dims, prefix, lsb);
      if !lok {
        return false;
      }
      var mok, moff, mwid := PrefixToSlice(dims, prefix, msb);
      if !mok {
        return false;
      }
      SlicesBetween(Slices(dims, prefix, msb, lsb), loff, moff);
      if loff < moff {
        moff := moff + mwid - 1;
      } else {
        var ltmp := moff;
        moff := loff + lwid - 1;
        loff := ltmp;
      }
      var wid := moff - loff + 1;
      if loff == 0 && moff == Total(dims) - 1 {
        return true;
      }
      piece := Bits(loff, wid);
      return true;
    }

    /** An indexed part select of the innermost dimension with a constant base. */
    method ElaborateIndexed(prefix: seq<int>, base: int, wid: nat, up: bool, defined: bool)
      requires |prefix| + 1 == |dims| && piece == Whole
      modifies this`piece
      ensures !defined ==> piece == Unknown(wid)
      ensures defined ==> Stands(dims, prefix, if up then Up(base, wid) else Down(base, wid), piece)
    {
      if !defined {
        piece := Unknown(wid);
        return;
      }
      var offset := 0;
      var rng := Inner(dims);
      if (rng.msb < rng.lsb && up) || (rng.msb > rng.lsb && !up) {
        offset := 1 - wid;
      }
      var relBase := SbToIdx(dims, prefix, base);
      relBase := relBase + offset;
      if relBase == 0 && wid == Total(dims) {
        return;
      }
      piece := Bits(relBase, wid);
    }
  }

  /** The piece covers the select's width from its base address on. */
  predicate Stands(dims: seq<Range>, prefix: seq<int>, s: Select, piece: Piece)
    requires |prefix| + 1 == |dims|
  {
    && SelectWidth(Inner(dims), s) >= 0
    && if BaseAddress(dims, prefix, s) == 0 && SelectWidth(Inner(dims), s) == Total(dims) then piece == Whole
       else piece == Bits(BaseAddress(dims, prefix, s), SelectWidth(Inner(dims), s))
  }

  // ---- Writing through a select and reading bits ----

  /** The value that reading a declared bit gives after v has been written through the select
      into a vector: a bit of v where the bit is selected, and otherwise what it was. */
  function Expected(dims: seq<Range>, prefix: seq<int>, s: Select, vec: Vec, v: Vec, indices: seq<int>): V
    requires |prefix| + 1 == |dims| && |indices| == |dims|
    requires |v| == SelectWidth(Inner(dims), s)
  {
    var r := Inner(dims);
    var j := Offset(r, indices[|dims| - 1]) - Offset(r, LowIndex(r, s));
    if indices[..|dims| - 1] == prefix && 0 <= j < |v| then v[j] else ReadBit(dims, vec, indices)
  }

  /** Writing v and reading every declared bit gives what is expected. */
  ghost predicate Lawful(dims: seq<Range>, prefix: seq<int>, s: Select, piece: Piece)
    requires |prefix| + 1 == |dims| && Stands(dims, prefix, s, piece)
  {
    forall vec: Vec, v: Vec, indices ::
      |vec| == Total(dims) && |v| == SelectWidth(Inner(dims), s) && Declared(dims, indices) ==>
        ReadBit(dims, Assigned(vec, piece, v), indices) == Expected(dims, prefix, s, vec, v, indices)
  }

  /** Bit j of the select is assigned at its declared index. */
  predicate Placed(dims: seq<Range>, prefix: seq<int>, s: Select)
    requires |prefix| + 1 == |dims|
  {
    BaseAddress(dims, prefix, s) == Address(dims, prefix + [LowIndex(Inner(dims), s)])
  }

  /** Bit j is selected where no bit is declared, but its address is one of the vector's: it
      is that of a bit in a neighbouring slice. */
  predicate Spills(dims: seq<Range>, prefix: seq<int>, s: Select, j: int)
    requires |prefix| + 1 == |dims|
  {
    && !Declared(dims, prefix + [IndexOf(Inner(dims), s, j)])
    && 0 <= Address(dims, prefix + [IndexOf(Inner(dims), s, j)]) < Total(dims)
  }

  predicate Contained(dims: seq<Range>, prefix: seq<int>, s: Select)
    requires |prefix| + 1 == |dims|
  {
    forall j | 0 <= j < SelectWidth(Inner(dims), s) :: !Spills(dims, prefix, s, j)
  }

  /** Only an indexed select downwards in a range of one bit is not placed. */
  lemma PlacedExactly(dims: seq<Range>, prefix: seq<int>, s: Select)
    requires |prefix| + 1 == |dims|
    ensures Placed(dims, prefix, s) <==> !(s.Down? && s.wid != 1 && Inner(dims).msb == Inner(dims).lsb)
  {
    var r := Inner(dims);
    if !s.Part? {
      AddressInSlice(dims, prefix, s.base, LowIndex(r, s));
    }
  }

  /** Nothing spills from a vector of one dimension. */
  lemma OneDimensionContained(r: Range, s: Select)
    ensures Contained([r], [], s)
  {
    forall j | 0 <= j < SelectWidth(r, s) ensures !Spills([r], [], s, j) {
      var i := IndexOf(r, s, j);
      assert [] + [i] == [i] && [r][1..] == [] && [i][1..] == [];
      assert Total([r]) == Width(r) * Total([]);
      assert Address([r], [i]) == Offset(r, i) * Total([]) + Address([], []);
    }
  }

  /** The address of every bit of a placed select. */
  lemma PlacedBits(dims: seq<Range>, prefix: seq<int>, s: Select, j: int)
    requires |prefix| + 1 == |dims| && Placed(dims, prefix, s)
    ensures Address(dims, prefix + [IndexOf(Inner(dims), s, j)]) == BaseAddress(dims, prefix, s) + j
  {
    var r := Inner(dims);
    AddressInSlice(dims, prefix, IndexOf(r, s, j), LowIndex(r, s));
    OffsetOfIndex(r, s, j);
  }

  lemma ReadAfter(dims: seq<Range>, prefix: seq<int>, s: Select, piece: Piece, vec: Vec, v: Vec, a: int)
    requires |prefix| + 1 == |dims| && Stands(dims, prefix, s, piece)
    requires |vec| == Total(dims) && |v| == SelectWidth(Inner(dims), s) && 0 <= a < |vec|
    ensures Assigned(vec, piece, v)[a] ==
            if 0 <= a - BaseAddress(dims, prefix, s) < |v| then v[a - BaseAddress(dims, prefix, s)] else vec[a]
  {
    AssignedAt(vec, piece, v, BaseAddress(dims, prefix, s), a);
  }

  lemma AssignedAt(vec: Vec, piece: Piece, v: Vec, base: int, a: nat)
    requires if base == 0 && |v| == |vec| then piece == Whole else piece == Bits(base, |v|)
    requires a < |vec|
    ensures Assigned(vec, piece, v)[a] == if 0 <= a - base < |v| then v[a - base] else vec[a]
  {
  }

  /** The get-put law: through a select that is placed and contained, every selected bit gets
      its bit of v, all others keep their value, and bits outside the vector are dropped. */
  lemma WriteThenReadBit(dims: seq<Range>, prefix: seq<int>, s: Select, piece: Piece, vec: Vec, v: Vec, indices: seq<int>)
    requires |prefix| + 1 == |dims| && Stands(dims, prefix, s, piece)
    requires Placed(dims, prefix, s) && Contained(dims, prefix, s)
    requires |vec| == Total(dims) && |v| == SelectWidth(Inner(dims), s) && Declared(dims, indices)
    ensures ReadBit(dims, Assigned(vec, piece, v), indices) == Expected(dims, prefix, s, vec, v, indices)
  {
    AddressInRange(dims, indices);
    HitExactly(dims, prefix, s, indices);
    ReadExpected(dims, prefix, s, piece, vec, v, indices);
  }

  lemma ReadExpected(dims: seq<Range>, prefix: seq<int>, s: Select, piece: Piece, vec: Vec, v: Vec, indices: seq<int>)
    requires |prefix| + 1 == |dims| == |indices| && Stands(dims, prefix, s, piece)
    requires |vec| == Total(dims) && |v| == SelectWidth(Inner(dims), s) && 0 <= Address(dims, indices) < |vec|
    requires Hits(dims, prefix, s, indices)
    ensures ReadBit(dims, Assigned(vec, piece, v), indices) == Expected(dims, prefix, s, vec, v, indices)
  {
    ReadAfter(dims, prefix, s, piece, vec, v, Address(dims, indices));
  }

  /** A bit is at an address that the select covers exactly if it is selected. */
  predicate Hits(dims: seq<Range>, prefix: seq<int>, s: Select, indices: seq<int>)
    requires |prefix| + 1 == |dims| == |indices|
  {
    var r, i := Inner(dims), indices[|dims| - 1];
    var j := Address(dims, indices) - BaseAddress(dims, prefix, s);
    && (0 <= j < SelectWidth(r, s) ==> indices[..|dims| - 1] == prefix)
    && (indices[..|dims| - 1] == prefix ==> j == Offset(r, i) - Offset(r, LowIndex(r, s)))
  }

  lemma HitExactly(dims: seq<Range>, prefix: seq<int>, s: Select, indices: seq<int>)
    requires |prefix| + 1 == |dims| && Placed(dims, prefix, s) && Contained(dims, prefix, s) && Declared(dims, indices)
    ensures Hits(dims, prefix, s, indices)
  {
    var r, n := Inner(dims), |dims| - 1;
    var j := Address(dims, indices) - BaseAddress(dims, prefix, s);
    assert indices == indices[..n] + [indices[n]];
    if indices[..n] == prefix {
      AddressInSlice(dims, prefix, indices[n], LowIndex(r, s));
    }
    if 0 <= j < SelectWidth(r, s) {
      PlacedBits(dims, prefix, s, j);
      AddressInRange(dims, indices);
      assert !Spills(dims, prefix, s, j);
      AddressInjective(dims, indices, prefix + [IndexOf(r, s, j)]);
      assert (prefix + [IndexOf(r, s, j)])[..n] == prefix;
    }
  }

  /** The law holds for all values exactly if no selected bit spills into another slice. */
  lemma LawfulIffContained(dims: seq<Range>, prefix: seq<int>, s: Select, piece: Piece)
    requires |prefix| + 1 == |dims| && Stands(dims, prefix, s, piece) && Placed(dims, prefix, s)
    ensures Lawful(dims, prefix, s, piece) <==> Contained(dims, prefix, s)
  {
    if Contained(dims, prefix, s) {
      forall vec: Vec, v: Vec, indices
        | |vec| == Total(dims) && |v| == SelectWidth(Inner(dims), s) && Declared(dims, indices)
        ensures ReadBit(dims, Assigned(vec, piece, v), indices) == Expected(dims, prefix, s, vec, v, indices)
      {
        WriteThenReadBit(dims, prefix, s, piece, vec, v, indices);
      }
    } else {
      var j :| 0 <= j < SelectWidth(Inner(dims), s) && Spills(dims, prefix, s, j);
      SpillBreaksLaw(dims, prefix, s, piece, j);
    }
  }

  lemma SpillBreaksLaw(dims: seq<Range>, prefix: seq<int>, s: Select, piece: Piece, j: int)
    requires |prefix| + 1 == |dims| && Stands(dims, prefix, s, piece) && Placed(dims, prefix, s)
    requires 0 <= j < SelectWidth(Inner(dims), s) && Spills(dims, prefix, s, j)
    ensures !Lawful(dims, prefix, s, piece)
  {
    var r, n := Inner(dims), |dims| - 1;
    PlacedBits(dims, prefix, s, j);
    var a := BaseAddress(dims, prefix, s) + j;
    var indices := IndicesAt(dims, a);
    var vec, v := Fill(V0, Total(dims)), Fill(V1, SelectWidth(r, s));
    ReadAfter(dims, prefix, s, piece, vec, v, a);
    assert ReadBit(dims, Assigned(vec, piece, v), indices) == V1;
    assert indices == indices[..n] + [indices[n]];
    if indices[..n] == prefix {
      AddressInSlice(dims, prefix, indices[n], LowIndex(r, s));
      OffsetOfIndex(r, s, j);
      assert false;
    }
    assert Expected(dims, prefix, s, vec, v, indices) == V0;
  }

  /** A wide select downwards in a range of one bit is taken to lie above its base: what it
      is given to assign are the bits from there on, and what it selects is its own bit. */
  predicate MissesAll(dims: seq<Range>, prefix: seq<int>, s: Select)
    requires |prefix| + 1 == |dims| && s.Down?
  {
    var a := BaseAddress(dims, prefix, s);
    && (a + s.wid <= 0 || a >= Total(dims))
    && !(Declared(dims, prefix + [Inner(dims).msb]) && 0 <= s.base - Inner(dims).msb < s.wid)
  }

  /** For the selects that are not placed, the law holds exactly if they are empty or neither
      assign nor select any bit of the vector. */
  lemma LawfulIffMisses(dims: seq<Range>, prefix: seq<int>, s: Select, piece: Piece)
    requires |prefix| + 1 == |dims| && Stands(dims, prefix, s, piece) && !Placed(dims, prefix, s)
    ensures s.Down? && (Lawful(dims, prefix, s, piece) <==> s.wid == 0 || MissesAll(dims, prefix, s))
  {
    PlacedExactly(dims, prefix, s);
    var r, t, a := Inner(dims), Total(dims), BaseAddress(dims, prefix, s);
    if s.wid == 0 || MissesAll(dims, prefix, s) {
      forall vec: Vec, v: Vec, indices
        | |vec| == t && |v| == s.wid && Declared(dims, indices)
        ensures ReadBit(dims, Assigned(vec, piece, v), indices) == Expected(dims, prefix, s, vec, v, indices)
      {
        AddressInRange(dims, indices);
        ReadAfter(dims, prefix, s, piece, vec, v, Address(dims, indices));
        OnlyBit(dims, prefix, indices);
      }
    } else if a < t && a + s.wid > 0 {
      WideAssigns(dims, prefix, s, piece, if a > 0 then a else 0);
    } else {
      WideSelects(dims, prefix, s, piece);
    }
  }

  /** In a range of one bit, the prefix tells the bit. */
  lemma OnlyBit(dims: seq<Range>, prefix: seq<int>, indices: seq<int>)
    requires |prefix| + 1 == |dims| && Inner(dims).msb == Inner(dims).lsb && Declared(dims, indices)
    ensures indices[|dims| - 1] == Inner(dims).msb
    ensures indices[..|dims| - 1] == prefix ==> indices == prefix + [Inner(dims).msb]
  {
    assert Inside(dims[|dims| - 1], indices[|dims| - 1]);
    assert indices == indices[..|dims| - 1] + [indices[|dims| - 1]];
  }

  lemma WideAssigns(dims: seq<Range>, prefix: seq<int>, s: Select, piece: Piece, a: nat)
    requires |prefix| + 1 == |dims| && Stands(dims, prefix, s, piece)
    requires s.Down? && s.wid > 1 && Inner(dims).msb == Inner(dims).lsb
    requires a < Total(dims) && 0 <= a - BaseAddress(dims, prefix, s) < s.wid
    ensures !Lawful(dims, prefix, s, piece)
  {
    var r, n, w := Inner(dims), |dims| - 1, s.wid;
    var indices := IndicesAt(dims, a);
    OnlyBit(dims, prefix, indices);
    AddressInSlice(dims, prefix, s.base, r.msb);
    var vec := Fill(V0, Total(dims));
    // All bits assigned but the most significant one are 0 if that is the one selected.
    var v := if indices[..n] == prefix && s.base == r.msb then Fill(V0, w - 1) + [V1] else Fill(V1, w);
    ReadAfter(dims, prefix, s, piece, vec, v, a);
    assert ReadBit(dims, vec, indices) == V0;
    assert Expected(dims, prefix, s, vec, v, indices) != v[a - BaseAddress(dims, prefix, s)];
  }

  lemma WideSelects(dims: seq<Range>, prefix: seq<int>, s: Select, piece: Piece)
    requires |prefix| + 1 == |dims| && Stands(dims, prefix, s, piece)
    requires s.Down? && Inner(dims).msb == Inner(dims).lsb && Declared(dims, prefix + [Inner(dims).msb])
    requires 0 <= s.base - Inner(dims).msb < s.wid
    requires BaseAddress(dims, prefix, s) + s.wid <= 0 || BaseAddress(dims, prefix, s) >= Total(dims)
    ensures !Lawful(dims, prefix, s, piece)
  {
    var indices := prefix + [Inner(dims).msb];
    AddressInRange(dims, indices);
    var vec, v := Fill(V0, Total(dims)), Fill(V1, s.wid);
    ReadAfter(dims, prefix, s, piece, vec, v, Address(dims, indices));
    assert indices[..|dims| - 1] == prefix;
    assert Expected(dims, prefix, s, vec, v, indices) == V1;
  }

  /** A single vector: the law holds for every part select and every indexed select, save one
      downwards in a range of one bit that is wider than a bit and reaches the bit. */
  lemma VectorLaw(r: Range, s: Select, piece: Piece)
    requires Stands([r], [], s, piece)
    ensures Lawful([r], [], s, piece) <==>
            !(s.Down? && r.msb == r.lsb && s.wid > 1 && -(s.wid as int) < s.base - r.msb < s.wid)
  {
    PlacedExactly([r], [], s);
    if Placed([r], [], s) {
      OneDimensionContained(r, s);
      LawfulIffContained([r], [], s, piece);
    } else {
      LawfulIffMisses([r], [], s, piece);
      assert [] + [s.base] == [s.base] && [] + [r.msb] == [r.msb];
      OneDimension(r, s.base);
      assert Inside([r][0], [r.msb][0]);
    }
  }

  lemma OneDimension(r: Range, i: int)
    ensures Address([r], [i]) == Offset(r, i) && Total([r]) == Width(r)
  {
    assert [r][1..] == [] && [i][1..] == [];
    assert Offset(r, i) * Total([]) == Offset(r, i);
    assert Width(r) * Total([]) == Width(r);
  }

  // ---- Part selects with fewer indices than dimensions ----

  /** The address of the first bit of the slice with the given outer indices. */
  function SliceBase(dims: seq<Range>, p: seq<int>): int
    requires |p| <= |dims|
  {
    if p == [] then 0
    else Offset(dims[0], p[0]) * Total(dims[1..]) + SliceBase(dims[1..], p[1..])
  }

  predicate AllInside(dims: seq<Range>, p: seq<int>)
    requires |p| <= |dims|
  {
    forall k | 0 <= k < |p| :: Inside(dims[k], p[k])
  }

  /** Compute the first address and the width of a slice, unless its last index is outside. */
  method PrefixToSlice(dims: seq<Range>, prefix: seq<int>, sb: int) returns (ok: bool, loff: int, lwid: nat)
    requires |prefix| < |dims|
    ensures ok <==> Inside(dims[|prefix|], sb)
    ensures ok ==> loff == SliceBase(dims, prefix + [sb]) && lwid == Total(dims[|prefix| + 1..])
  {
    ghost var all := prefix + [sb];
    var pcur, accWid := SliceWidth(dims, |prefix| + 1);
    lwid := accWid;
    pcur := pcur - 1;
    if (sb < dims[pcur].msb && sb < dims[pcur].lsb) || (sb > dims[pcur].msb && sb > dims[pcur].lsb) {
      return false, 0, lwid;
    }
    var accOff := Offset(dims[pcur], sb) * accWid;
    BaseStep(dims, all, pcur);
    while pcur > 0
      invariant 0 <= pcur <= |prefix|
      invariant accWid == Total(dims[pcur + 1..])
      invariant accOff == SliceBase(dims[pcur..], all[pcur..])
    {
      TotalStep(dims, pcur);
      accWid := accWid * Width(dims[pcur]);
      pcur := pcur - 1;
      BaseStep(dims, all, pcur);
      accOff := accOff + Offset(dims[pcur], prefix[pcur]) * accWid;
    }
    assert dims[0..] == dims && all[0..] == all;
    return true, accOff, lwid;
  }

  /** The width of what the last dimensions make up, down to the given one. */
  method SliceWidth(dims: seq<Range>, first: nat) returns (pcur: nat, accWid: nat)
    requires first <= |dims|
    ensures pcur == first && accWid == Total(dims[first..])
  {
    pcur, accWid := |dims|, 1;
    while pcur > first
      invariant first <= pcur <= |dims|
      invariant accWid == Total(dims[pcur..])
    {
      pcur := pcur - 1;
      TotalStep(dims, pcur);
      accWid := accWid * Width(dims[pcur]);
    }
  }

  lemma TotalStep(dims: seq<Range>, k: nat)
    requires k < |dims|
    ensures Total(dims[k..]) == Width(dims[k]) * Total(dims[k + 1..])
    ensures Total(dims[k..]) == Total(dims[k + 1..]) * Width(dims[k])
  {
    assert dims[k..][1..] == dims[k + 1..];
  }

  lemma BaseStep(dims: seq<Range>, p: seq<int>, k: nat)
    requires k < |p| <= |dims|
    ensures SliceBase(dims[k..], p[k..]) ==
            Offset(dims[k], p[k]) * Total(dims[k + 1..]) + SliceBase(dims[k + 1..], p[k + 1..])
    ensures k + 1 == |p| ==> SliceBase(dims[k..], p[k..]) == Offset(dims[k], p[k]) * Total(dims[k + 1..])
  {
    assert dims[k..][1..] == dims[k + 1..] && p[k..][1..] == p[k + 1..];
  }

  /** A bit lies in the slice exactly if it has the slice's outer indices. */
  lemma {:induction false} SliceExactly(dims: seq<Range>, p: seq<int>, indices: seq<int>)
    requires |p| <= |dims| && AllInside(dims, p) && Declared(dims, indices)
    ensures 0 <= Address(dims, indices) - SliceBase(dims, p) < Total(dims[|p|..]) <==> indices[..|p|] == p
  {
    AddressInRange(dims, indices);
    if p == [] {
      assert dims[0..] == dims;
    } else {
      SliceExactly(dims[1..], p[1..], indices[1..]);
      AddressInRange(dims[1..], indices[1..]);
      SliceInside(dims[1..], p[1..]);
      assert dims[1..][|p| - 1..] == dims[|p|..];
      assert p == [p[0]] + p[1..] && indices[..|p|] == [indices[0]] + indices[1..][..|p| - 1];
      DigitDifference(Offset(dims[0], indices[0]), Offset(dims[0], p[0]), Total(dims[1..]),
                      Address(dims[1..], indices[1..]), SliceBase(dims[1..], p[1..]), Total(dims[|p|..]));
      assert Offset(dims[0], indices[0]) == Offset(dims[0], p[0]) <==> indices[0] == p[0];
    }
  }

  lemma DigitDifference(a: int, b: int, t: int, x: int, y: int, w: int)
    requires 0 <= x < t && 0 <= y && y + w <= t && w > 0
    ensures 0 <= (a * t + x) - (b * t + y) < w <==> a == b && 0 <= x - y < w
  {
    assert (a - b) * t == a * t - b * t;
    SameBlock(a - b, t, x, y, w);
  }

  lemma SameBlock(d: int, t: int, x: int, y: int, w: int)
    requires 0 <= x < t && 0 <= y && y + w <= t && w > 0
    ensures 0 <= d * t + (x - y) < w <==> d == 0 && 0 <= x - y < w
  {
    if d > 0 {
      Apart(d, 0, t);
    } else if d < 0 {
      Apart(0, d, t);
    }
  }

  /** A slice lies inside the vector. */
  lemma {:induction false} SliceInside(dims: seq<Range>, p: seq<int>)
    requires |p| <= |dims| && AllInside(dims, p)
    ensures 0 <= SliceBase(dims, p) && SliceBase(dims, p) + Total(dims[|p|..]) <= Total(dims)
  {
    if p == [] {
      assert dims[0..] == dims;
    } else {
      assert Inside(dims[0], p[0]);
      assert forall k | 0 <= k < |p| - 1 :: Inside(dims[k + 1], p[k + 1]) && dims[1..][k] == dims[k + 1] && p[1..][k] == p[k + 1];
      SliceInside(dims[1..], p[1..]);
      assert dims[1..][|p| - 1..] == dims[|p|..];
      BlockInside(Offset(dims[0], p[0]), Width(dims[0]), Total(dims[1..]));
    }
  }

  lemma BlockInside(q: int, w: int, t: int)
    requires 0 <= q < w && t > 0
    ensures 0 <= q * t && q * t + t <= w * t
  {
    Apart(w, q, t);
    assert q * t >= 0;
  }

  /** Neighbouring slices follow each other. */
  lemma {:induction false} SliceStep(dims: seq<Range>, prefix: seq<int>, i: int)
    requires |prefix| < |dims|
    ensures SliceBase(dims, prefix + [i]) ==
            SliceBase(dims, prefix) + Offset(dims[|prefix|], i) * Total(dims[|prefix| + 1..])
  {
    var p := prefix + [i];
    if prefix == [] {
      assert p[1..] == [];
    } else {
      assert p[1..] == prefix[1..] + [i] && dims[1..][|prefix|..] == dims[|prefix| + 1..];
      SliceStep(dims[1..], prefix[1..], i);
    }
  }

  /** An address within a slice. */
  lemma {:induction false} AddressSplit(dims: seq<Range>, p: seq<int>, indices: seq<int>)
    requires |p| <= |dims| == |indices| && indices[..|p|] == p
    ensures Address(dims, indices) == SliceBase(dims, p) + Address(dims[|p|..], indices[|p|..])
  {
    if p == [] {
      assert dims[0..] == dims && indices[0..] == indices;
    } else {
      assert indices[1..][..|p| - 1] == p[1..];
      assert dims[1..][|p| - 1..] == dims[|p|..] && indices[1..][|p| - 1..] == indices[|p|..];
      AddressSplit(dims[1..], p[1..], indices[1..]);
    }
  }

  /** The slices from one index to another, in whichever order the two are written. */
  datatype Slices = Slices(dims: seq<Range>, prefix: seq<int>, msb: int, lsb: int) {
    predicate Valid() {
      && |prefix| < |dims|
      && Inside(dims[|prefix|], msb) && Inside(dims[|prefix|], lsb)
    }

    function Least(): (first: int)
      requires Valid()
    {
      var r := dims[|prefix|];
      if Offset(r, msb) < Offset(r, lsb) then Offset(r, msb) else Offset(r, lsb)
    }

    function Count(): (n: int)
      requires Valid()
      ensures n > 0
    {
      var r := dims[|prefix|];
      var d := Offset(r, msb) - Offset(r, lsb);
      1 + if d < 0 then -d else d
    }

    function Each(): (w: nat)
      requires Valid()
      ensures w > 0
    {
      Total(dims[|prefix| + 1..])
    }

    function Base(): int
      requires Valid()
    {
      SliceBase(dims, prefix) + Least() * Each()
    }

    function Bits(): (n: nat)
      requires Valid()
      ensures n > 0
    {
      Grows(Count(), Each());
      Count() * Each()
    }

    /** The place, among the selected bits, of the bit with the given indices. */
    function Place(indices: seq<int>): int
      requires Valid() && |indices| == |dims|
    {
      var k := |prefix|;
      (Offset(dims[k], indices[k]) - Least()) * Each() + Address(dims[k + 1..], indices[k + 1..])
    }

    predicate Selects(indices: seq<int>)
      requires Valid() && |indices| == |dims|
    {
      var k := |prefix|;
      indices[..k] == prefix && Least() <= Offset(dims[k], indices[k]) < Least() + Count()
    }

    /** The piece covers all slices from the least one on. */
    predicate Stands(piece: Piece)
      requires Valid()
    {
      if Base() == 0 && Bits() == Total(dims) then piece == Piece.Whole else piece == Piece.Bits(Base(), Bits())
    }
  }

  /** Where the slices at both ends begin. */
  lemma SlicesBetween(s: Slices, loff: int, moff: int)
    requires s.Valid() && loff == SliceBase(s.dims, s.prefix + [s.lsb]) && moff == SliceBase(s.dims, s.prefix + [s.msb])
    ensures s.Base() == (if loff < moff then loff else moff)
    ensures s.Base() + s.Bits() == (if loff < moff then moff else loff) + s.Each()
  {
    var r := s.dims[|s.prefix|];
    SliceStep(s.dims, s.prefix, s.lsb);
    SliceStep(s.dims, s.prefix, s.msb);
    if Offset(r, s.lsb) < Offset(r, s.msb) {
      Ends(Offset(r, s.lsb), Offset(r, s.msb), s.Each());
    } else {
      Ends(Offset(r, s.msb), Offset(r, s.lsb), s.Each());
    }
  }

  lemma Ends(a: int, b: int, t: int)
    requires a <= b && t > 0
    ensures (1 + (b - a)) * t == b * t - a * t + t
    ensures a < b ==> a * t < b * t
  {
    if a < b {
      Apart(b, a, t);
    }
  }

  /** The addresses covered are those of the bits selected, if the prefix is declared. */
  lemma SelectedExactly(s: Slices, indices: seq<int>)
    requires s.Valid() && AllInside(s.dims, s.prefix) && Declared(s.dims, indices)
    ensures s.Selects(indices) <==> 0 <= Address(s.dims, indices) - s.Base() < s.Bits()
    ensures s.Selects(indices) ==> Address(s.dims, indices) - s.Base() == s.Place(indices)
  {
    var dims, k := s.dims, |s.prefix|;
    SliceExactly(dims, s.prefix, indices);
    assert dims[k..][1..] == dims[k + 1..];
    assert Total(dims[k..]) == Width(dims[k]) * s.Each();
    SlicesEnd(s.Least(), s.Count(), Width(dims[k]), s.Each());
    if indices[..k] == s.prefix {
      AddressSplit(dims, s.prefix, indices);
      assert indices[k..][1..] == indices[k + 1..];
      AddressInRange(dims[k + 1..], indices[k + 1..]);
      PlaceExactly(Offset(dims[k], indices[k]), s.Least(), s.Count(), Address(dims[k + 1..], indices[k + 1..]), s.Each());
    }
  }

  lemma PlaceExactly(q: int, first: int, n: int, r: int, t: int)
    requires 0 <= r < t && n > 0
    ensures (q * t + r) - first * t == (q - first) * t + r
    ensures 0 <= (q * t + r) - first * t < n * t <==> first <= q < first + n
  {
    assert (q - first) * t == q * t - first * t;
    Digit(q - first, n, r, t);
  }

  lemma SlicesEnd(first: int, n: int, w: int, t: int)
    requires 0 <= first && 0 < n && first + n <= w && t > 0
    ensures 0 <= first * t && first * t + n * t <= w * t
  {
    assert (w - first - n) * t >= 0 && first * t >= 0;
  }

  /** Writing v and reading every declared bit: a selected bit has its bit of v. */
  ghost predicate SlicesLawful(s: Slices, piece: Piece)
    requires s.Valid() && s.Stands(piece)
  {
    forall vec: Vec, v: Vec, indices ::
      |vec| == Total(s.dims) && |v| == s.Bits() && Declared(s.dims, indices) ==>
        ReadBit(s.dims, Assigned(vec, piece, v), indices) == SlicesExpected(s, vec, v, indices)
  }

  function SlicesExpected(s: Slices, vec: Vec, v: Vec, indices: seq<int>): V
    requires s.Valid() && |indices| == |s.dims| && |v| == s.Bits()
  {
    if s.Selects(indices) && 0 <= s.Place(indices) < |v| then v[s.Place(indices)]
    else ReadBit(s.dims, vec, indices)
  }

  /** The law holds exactly if the outer indices are declared, or the slices they lead to lie
      outside the vector: the assertions guard the last index only. */
  lemma SlicesLaw(s: Slices, piece: Piece)
    requires s.Valid() && s.Stands(piece)
    ensures SlicesLawful(s, piece) <==>
            AllInside(s.dims, s.prefix) || s.Base() + s.Bits() <= 0 || s.Base() >= Total(s.dims)
  {
    var outside := s.Base() + s.Bits() <= 0 || s.Base() >= Total(s.dims);
    if AllInside(s.dims, s.prefix) || outside {
      forall vec: Vec, v: Vec, indices
        | |vec| == Total(s.dims) && |v| == s.Bits() && Declared(s.dims, indices)
        ensures ReadBit(s.dims, Assigned(vec, piece, v), indices) == SlicesExpected(s, vec, v, indices)
      {
        AddressInRange(s.dims, indices);
        if AllInside(s.dims, s.prefix) {
          SelectedExactly(s, indices);
        } else {
          PrefixDeclared(s, indices);
        }
      }
    } else {
      StraySlices(s, piece, if s.Base() > 0 then s.Base() else 0);
    }
  }

  /** A declared bit is not in slices with undeclared outer indices. */
  lemma PrefixDeclared(s: Slices, indices: seq<int>)
    requires s.Valid() && Declared(s.dims, indices) && !AllInside(s.dims, s.prefix)
    ensures !s.Selects(indices)
  {
    DeclaredInside(s.dims, indices, |s.prefix|);
  }

  lemma DeclaredInside(dims: seq<Range>, indices: seq<int>, k: nat)
    requires Declared(dims, indices) && k <= |dims|
    ensures AllInside(dims, indices[..k])
  {
  }

  lemma StraySlices(s: Slices, piece: Piece, a: nat)
    requires s.Valid() && s.Stands(piece) && !AllInside(s.dims, s.prefix)
    requires a < Total(s.dims) && 0 <= a - s.Base() < s.Bits()
    ensures !SlicesLawful(s, piece)
  {
    var indices := IndicesAt(s.dims, a);
    PrefixDeclared(s, indices);
    var vec, v := Fill(V0, Total(s.dims)), Fill(V1, s.Bits());
    assert ReadBit(s.dims, Assigned(vec, piece, v), indices) == V1;
    assert SlicesExpected(s, vec, v, indices) == V0;
  }

  /** A part select that leaves its slice at the top is written into the next slice:
      bits 8 and 9 of word 0 of two words of eight bits. */
  lemma PartSpillsIntoNextSlice()
    ensures var dims, s := [Range(1, 0), Range(7, 0)], Part(9, 8);
            && Stands(dims, [0], s, Bits(8, 2)) && !Lawful(dims, [0], s, Bits(8, 2))
  {
    var dims, s := [Range(1, 0), Range(7, 0)], Part(9, 8);
    assert dims[1..] == [Range(7, 0)] && dims[1..][1..] == [];
    OneDimension(Range(7, 0), 8);
    assert ([0] + [8])[1..] == [8];
    assert Total(dims) == 16 && Address(dims, [0] + [8]) == 8;
    PlacedExactly(dims, [0], s);
    assert IndexOf(Inner(dims), s, 0) == 8;
    assert Spills(dims, [0], s, 0) by {
      assert !Inside(dims[1], ([0] + [8])[1]);
    }
    SpillBreaksLaw(dims, [0], s, Bits(8, 2), 0);
  }
}
