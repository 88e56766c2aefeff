/** Values of enumeration names: explicit ones fitted to the enumeration, the others inferred. */
module Enumeration {
  import opened FourState
  import opened Numbers
  import opened Powers
  import opened Wrappers

  datatype EnumType = EnumType(width: nat, signed: bool, twoState: bool)

  /** A name with the constant that its expression evaluates to, if it is one, and the
      length of the literal the expression consists of, if it is a sized one; or a name alone. */
  datatype Entry =
    | Explicit(name: string, value: Option<Verinum>, literal: Option<nat>)
    | Implicit(name: string)

  // ---- Counting up ----

  /** The next value at the same width: addition of one with the carry out dropped. */
  function AddOne(bits: Vec): (r: Vec)
    ensures |r| == |bits|
    ensures IsDefined(bits) ==> IsDefined(r)
  {
    if bits == [] then []
    else if bits[0] == V1 then
      var rest := AddOne(bits[1..]);
      assert IsDefined(bits) ==> IsDefined(bits[1..]);
      [V0] + rest
    else
      [V1] + bits[1..]
  }

  lemma {:induction false} AddOneWraps(bits: Vec)
    requires IsDefined(bits)
    ensures Unsigned(AddOne(bits)) == if Unsigned(bits) == Pow2(|bits|) - 1 then 0 else Unsigned(bits) + 1
  {
    UnsignedBound(bits);
    if bits != [] {
      assert ([V1] + bits[1..])[1..] == bits[1..];
      assert ([V0] + AddOne(bits[1..]))[1..] == AddOne(bits[1..]);
      if bits[0] == V1 {
        AddOneWraps(bits[1..]);
      } else {
        assert bits[0] == V0;
      }
    }
  }

  // ---- The range of an enumeration ----

  predicate InRange(t: EnumType, i: int)
    requires t.width > 0
  {
    if t.signed then -Weight(t.width - 1) <= i < Pow2(t.width - 1) else 0 <= i < Pow2(t.width)
  }

  /** The one that is added to a value. In a signed enumeration of width one its only bit is
      its sign. */
  function OneOf(t: EnumType): int {
    if t.signed && t.width == 1 then -1 else 1
  }

  /** The value after which an inferred one is taken to overflow. */
  function MaxOf(t: EnumType): int
    requires t.width > 0
  {
    if t.signed then Pow2(t.width - 1) - OneOf(t) else Pow2(t.width) - 1
  }

  predicate OneBitSigned(t: EnumType) {
    t.signed && t.width == 1
  }

  lemma IntOfInRange(t: EnumType, bits: Vec)
    requires |bits| == t.width > 0 && IsDefined(bits)
    ensures InRange(t, IntOf(bits, t.signed))
  {
    UnsignedBound(bits);
    TopSetMeans(bits);
  }

  /** Adding one to a value that is not the maximum adds one to the integer, except from 0 to
      -1 in a signed enumeration of width one. */
  lemma NextValue(t: EnumType, bits: Vec)
    requires |bits| == t.width > 0 && IsDefined(bits) && IntOf(bits, t.signed) != MaxOf(t)
    ensures IntOf(AddOne(bits), t.signed) == IntOf(bits, t.signed) + 1
            <==> !(OneBitSigned(t) && bits == [V0])
  {
    AddOneWraps(bits);
    UnsignedBound(bits);
    TopSetMeans(bits);
    TopSetMeans(AddOne(bits));
    if OneBitSigned(t) {
      assert bits == [bits[0]] && bits[1..] == [];
      assert Unsigned(bits) == if bits[0] == V1 then 1 else 0;
    }
  }

  /** A defined value can be followed by an inferred one if and only if the next integer is in
      range, or the enumeration has one signed bit. */
  lemma HasNextExactly(t: EnumType, bits: Vec)
    requires |bits| == t.width > 0 && IsDefined(bits)
    ensures HasNext(t, bits) <==> InRange(t, IntOf(bits, t.signed) + 1) || OneBitSigned(t)
  {
    IntOfInRange(t, bits);
    assert Pow2(0) == 1;
  }

  // ---- Fitting an explicit value ----

  predicate Negative(v: Verinum)
    requires v.bits != []
  {
    Last(v.bits) == V1 && v.hasSign
  }

  /** The bit a narrow constant is padded with. */
  function PadBit(v: Verinum): V
    requires v.bits != []
  {
    var top := Last(v.bits);
    if !v.hasSign && !v.single && (top == V1 || (v.hasLen && top != V0)) then V0 else top
  }

  function Padded(v: Verinum, width: nat): Vec
    requires v.bits != []
  {
    if |v.bits| >= width then v.bits else v.bits + Fill(PadBit(v), width - |v.bits|)
  }

  /** All bits above the enumeration's agree with its top bit, or an unsigned enumeration is
      only left by zeros. */
  predicate TrimsCleanly(t: EnumType, bits: Vec)
    requires 0 < t.width < |bits|
  {
    || (forall i | t.width <= i < |bits| :: bits[i] == bits[t.width - 1])
    || (!t.signed && forall i | t.width <= i < |bits| :: bits[i] == V0)
  }

  /** A constant that is taken as a value without an error. */
  predicate Accepted(t: EnumType, v: Verinum, literal: Option<nat>)
    requires t.width > 0 && v.bits != []
  {
    && (t.twoState ==> IsDefined(v.bits))
    && (literal.Some? ==> literal.value == t.width)
    && !((|v.bits| != t.width || !v.hasLen) && !t.signed && Negative(v))
    && (|v.bits| > t.width ==> TrimsCleanly(t, v.bits) && (v.hasSign || v.bits[t.width] != V1))
  }

  function Fitted(t: EnumType, v: Verinum): (r: Vec)
    requires t.width > 0 && v.bits != []
    ensures |r| == t.width
  {
    Padded(v, t.width)[..t.width]
  }

  predicate WellFormed(entries: seq<Entry>) {
    forall k | 0 <= k < |entries| && entries[k].Explicit? && entries[k].value.Some? ::
      entries[k].value.value.bits != []
  }

  /** A value of the enumeration's width keeps its bits. */
  lemma SameLengthKeepsBits(t: EnumType, v: Verinum)
    requires t.width > 0 && |v.bits| == t.width
    ensures Fitted(t, v) == v.bits
  {
  }

  lemma PaddingKeepsValue(t: EnumType, v: Verinum)
    requires 0 < |v.bits| < t.width && IsDefined(v.bits) && !v.single
    requires t.signed || !Negative(v)
    ensures IntOf(Fitted(t, v), t.signed) == IntOf(v.bits, v.hasSign)
    ensures InRange(t, IntOf(v.bits, v.hasSign))
  {
    var fill := Fill(PadBit(v), t.width - |v.bits|);
    assert Fitted(t, v) == v.bits + fill;
    if PadBit(v) == V0 {
      PaddedWithZeros(v.bits, |fill|);
    } else {
      OnesOnTop(v.bits, |fill|);
      Negated(v.bits + fill);
      Negated(v.bits);
    }
    IntOfInRange(t, v.bits + fill);
  }

  /** Bit by bit: above its own bits a constant is filled with its top bit if it has a sign or
      stands for every bit, and otherwise with zeros, save an x or z of one without a length. */
  lemma PaddingBits(t: EnumType, v: Verinum, i: nat)
    requires 0 < |v.bits| < t.width && i < t.width
    ensures Fitted(t, v)[i] ==
      if i < |v.bits| then v.bits[i]
      else if v.hasSign || v.single then Last(v.bits)
      else if v.hasLen || IsDefined([Last(v.bits)]) then V0
      else Last(v.bits)
  {
    assert Last(v.bits) == [Last(v.bits)][0];
  }

  /** Trimming gives up no information: the bits that are kept, extended by their top bit or,
      where the enumeration is unsigned, by zeros, are the constant. */
  lemma TrimmedExtendsBack(t: EnumType, bits: Vec)
    requires 0 < t.width < |bits|
    ensures TrimsCleanly(t, bits) <==>
      || bits == bits[..t.width] + Fill(bits[t.width - 1], |bits| - t.width)
      || (!t.signed && bits == bits[..t.width] + Fill(V0, |bits| - t.width))
  {
    ExtendsBack(bits, t.width, bits[t.width - 1]);
    ExtendsBack(bits, t.width, V0);
  }

  lemma ExtendsBack(bits: Vec, w: nat, fill: V)
    requires w <= |bits|
    ensures (forall i | w <= i < |bits| :: bits[i] == fill) <==> bits == bits[..w] + Fill(fill, |bits| - w)
  {
    if bits == bits[..w] + Fill(fill, |bits| - w) {
      forall i | w <= i < |bits| ensures bits[i] == fill {
        assert bits[i] == (bits[..w] + Fill(fill, |bits| - w))[i];
      }
    }
  }

  /** A wide defined constant is accepted exactly if its integer is one of the enumeration's,
      and trimming it then keeps the integer. */
  lemma TrimmingIsExact(t: EnumType, v: Verinum)
    requires 0 < t.width < |v.bits| && IsDefined(v.bits)
    ensures Accepted(t, v, None) <==> InRange(t, IntOf(v.bits, v.hasSign))
    ensures Accepted(t, v, None) ==> IntOf(Fitted(t, v), t.signed) == IntOf(v.bits, v.hasSign)
  {
    var bits, w := v.bits, t.width;
    assert Fitted(t, v) == bits[..w];
    if !t.signed {
      TrimZeros(t, v);
      return;
    }
    UpperRepeatSign(bits, w);
    UnsignedBound(bits);
    TopSetMeans(bits);
    if t.signed && !v.hasSign {
      if TrimsCleanly(t, bits) && bits[w] != V1 {
        assert bits[w] == bits[w - 1] == V0;
        assert Last(bits) == V0;
        assert !TopSet(bits[..w]);
      } else if InRange(t, IntOf(bits, false)) && TopSet(bits) {
        Pow2Monotone(w - 1, |bits| - 1);
      }
    }
  }

  /** For an unsigned enumeration, only zeros may be trimmed off. */
  lemma TrimZeros(t: EnumType, v: Verinum)
    requires 0 < t.width < |v.bits| && IsDefined(v.bits) && !t.signed
    ensures Accepted(t, v, None) <==> InRange(t, IntOf(v.bits, v.hasSign))
    ensures Accepted(t, v, None) ==> IntOf(Fitted(t, v), t.signed) == IntOf(v.bits, v.hasSign)
  {
    var bits, w := v.bits, t.width;
    assert Fitted(t, v) == bits[..w];
    UnsignedBound(bits);
    if forall i | w <= i < |bits| :: bits[i] == V0 {
      UpperZeros(bits, w);
      UnsignedBound(bits[..w]);
      assert Last(bits) == V0;
    } else {
      var i :| w <= i < |bits| && bits[i] != V0;
      UpperNotZero(bits, w, i);
      assert bits[i] == V1;
    }
  }

  // ---- What an enumeration without errors is ----

  /** The value after a given one, for a name without an expression. */
  function Next(bits: Vec): (r: Vec)
    ensures |r| == |bits|
  {
    if IsDefined(bits) then AddOne(bits) else bits
  }

  /** The value of the k-th name; 0 in place of one that has none. */
  function Value(t: EnumType, entries: seq<Entry>, k: nat): (r: Vec)
    requires t.width > 0 && k < |entries| && WellFormed(entries)
    ensures |r| == t.width
  {
    match entries[k]
    case Explicit(_, value, _) => if value.Some? then Fitted(t, value.value) else Fill(V0, t.width)
    case Implicit(_) => if k == 0 then Fill(V0, t.width) else Next(Value(t, entries, k - 1))
  }

  /** The last value that an inferred one can follow: defined, and not the maximum. */
  predicate HasNext(t: EnumType, bits: Vec)
    requires t.width > 0
  {
    IsDefined(bits) && IntOf(bits, t.signed) != MaxOf(t)
  }

  predicate ValueOk(t: EnumType, entries: seq<Entry>, k: nat)
    requires t.width > 0 && k < |entries| && WellFormed(entries)
  {
    match entries[k]
    case Explicit(_, value, literal) => value.Some? && Accepted(t, value.value, literal)
    case Implicit(_) => k == 0 || HasNext(t, Value(t, entries, k - 1))
  }

  predicate Unique(t: EnumType, entries: seq<Entry>, scope: set<string>, k: nat)
    requires t.width > 0 && k < |entries| && WellFormed(entries)
  {
    && entries[k].name !in scope
    && forall j | 0 <= j < k ::
         entries[j].name != entries[k].name && Value(t, entries, j) != Value(t, entries, k)
  }

  /** The first n names are declared without an error. */
  predicate Legal(t: EnumType, entries: seq<Entry>, scope: set<string>, n: nat)
    requires t.width > 0 && n <= |entries| && WellFormed(entries)
  {
    n == 0 || (Legal(t, entries, scope, n - 1) && ValueOk(t, entries, n - 1) && Unique(t, entries, scope, n - 1))
  }

  lemma {:induction false} LegalAt(t: EnumType, entries: seq<Entry>, scope: set<string>, n: nat, k: nat)
    requires t.width > 0 && k < n <= |entries| && WellFormed(entries) && Legal(t, entries, scope, n)
    ensures ValueOk(t, entries, k) && Unique(t, entries, scope, k)
  {
    if k < n - 1 {
      LegalAt(t, entries, scope, n - 1, k);
    }
  }

  /** Two names of a legal enumeration stand for different integers. */
  lemma LegalIsDistinct(t: EnumType, entries: seq<Entry>, scope: set<string>, j: nat, k: nat)
    requires t.width > 0 && WellFormed(entries) && Legal(t, entries, scope, |entries|)
    requires j < k < |entries|
    requires IsDefined(Value(t, entries, j)) && IsDefined(Value(t, entries, k))
    ensures IntOf(Value(t, entries, j), t.signed) != IntOf(Value(t, entries, k), t.signed)
  {
    var a, b := Value(t, entries, j), Value(t, entries, k);
    LegalAt(t, entries, scope, |entries|, k);
    UnsignedBound(a);
    UnsignedBound(b);
    if Unsigned(a) == Unsigned(b) {
      UnsignedInjective(a, b);
    } else {
      TopSetMeans(a);
      TopSetMeans(b);
    }
  }

  /** The inferred values of a legal enumeration: the first name is 0, every other one its
      predecessor plus one, save that 0 is followed by -1 at width one with a sign. */
  lemma LegalCountsUp(t: EnumType, entries: seq<Entry>, scope: set<string>, k: nat)
    requires t.width > 0 && WellFormed(entries) && Legal(t, entries, scope, |entries|)
    requires k < |entries| && entries[k].Implicit?
    ensures IsDefined(Value(t, entries, k))
    ensures k == 0 ==> IntOf(Value(t, entries, k), t.signed) == 0
    ensures k > 0 ==> (IntOf(Value(t, entries, k), t.signed) == IntOf(Value(t, entries, k - 1), t.signed) + 1
                       <==> !(OneBitSigned(t) && Value(t, entries, k - 1) == [V0]))
  {
    LegalAt(t, entries, scope, |entries|, k);
    if k == 0 {
      UnsignedOfFill(V0, t.width);
    } else {
      NextValue(t, Value(t, entries, k - 1));
    }
  }

  /** An explicit defined constant of another length than the enumeration's keeps its
      integer, which is one of the enumeration's. */
  lemma LegalKeepsIntegers(t: EnumType, entries: seq<Entry>, scope: set<string>, k: nat, v: Verinum)
    requires t.width > 0 && WellFormed(entries) && Legal(t, entries, scope, |entries|)
    requires k < |entries| && entries[k].Explicit? && entries[k].value == Some(v)
    requires IsDefined(v.bits) && !v.single && |v.bits| != t.width
    ensures IntOf(Value(t, entries, k), t.signed) == IntOf(v.bits, v.hasSign)
    ensures InRange(t, IntOf(v.bits, v.hasSign))
  {
    LegalAt(t, entries, scope, |entries|, k);
    if |v.bits| < t.width {
      PaddingKeepsValue(t, v);
    } else {
      TrimmingIsExact(t, v);
    }
  }

  /** A narrow or wide defined constant that is not a literal is rejected exactly if its
      integer is not one of the enumeration's. */
  lemma AcceptedIffInRange(t: EnumType, v: Verinum)
    requires t.width > 0 && v.bits != [] && IsDefined(v.bits) && |v.bits| != t.width
    ensures Accepted(t, v, None) <==> InRange(t, IntOf(v.bits, v.hasSign))
  {
    if |v.bits| > t.width {
      TrimmingIsExact(t, v);
    } else {
      UnsignedBound(v.bits);
      TopSetMeans(v.bits);
      Pow2Monotone(|v.bits|, t.width);
      Pow2Monotone(|v.bits|, t.width - 1);
    }
  }

  /** A defined constant of the enumeration's width that is not a literal is rejected exactly
      if it has no length, the enumeration is unsigned, and its integer is not in range. */
  lemma SameLengthAccepted(t: EnumType, v: Verinum)
    requires |v.bits| == t.width > 0 && IsDefined(v.bits)
    ensures Accepted(t, v, None) <==> v.hasLen || t.signed || InRange(t, IntOf(v.bits, v.hasSign))
  {
    UnsignedBound(v.bits);
    TopSetMeans(v.bits);
  }

  /** The enumeration where inference wraps without an error: two names, one signed bit. */
  lemma OneSignedBitWraps()
    ensures var t, entries := EnumType(1, true, true), [Implicit("A"), Implicit("B")];
            && Legal(t, entries, {}, 2)
            && IntOf(Value(t, entries, 0), true) == 0 && IntOf(Value(t, entries, 1), true) == -1
  {
    var t, entries := EnumType(1, true, true), [Implicit("A"), Implicit("B")];
    assert Value(t, entries, 0) == [V0] && Value(t, entries, 1) == [V1];
    assert Unsigned([V0]) == 0 && Unsigned([V1]) == 1 && Pow2(0) == 1 && Pow2(1) == 2;
    assert MaxOf(t) == 2;
    assert entries[0].name != entries[1].name;
  }

  // ---- The elaborator ----

  lemma {:induction false} LegalPrefix(t: EnumType, entries: seq<Entry>, scope: set<string>, k: nat, n: nat)
    requires t.width > 0 && k <= n <= |entries| && WellFormed(entries)
    requires !Legal(t, entries, scope, k)
    ensures !Legal(t, entries, scope, n)
  {
    if k < n {
      LegalPrefix(t, entries, scope, k, n - 1);
    }
  }

  /** The names and the scope hold the first k names with their values. */
  ghost predicate NamesHold(t: EnumType, entries: seq<Entry>, scope: set<string>, k: nat,
                            names: map<string, Vec>, scopeNames: set<string>)
    requires t.width > 0 && k <= |entries| && WellFormed(entries)
  {
    && HaveValues(t, entries, k, names)
    && Named(entries, k, names)
    && scopeNames == scope + names.Keys
  }

  ghost predicate HaveValues(t: EnumType, entries: seq<Entry>, k: nat, names: map<string, Vec>)
    requires t.width > 0 && k <= |entries| && WellFormed(entries)
  {
    forall j | 0 <= j < k :: entries[j].name in names && names[entries[j].name] == Value(t, entries, j)
  }

  ghost predicate Named(entries: seq<Entry>, k: nat, names: map<string, Vec>)
    requires k <= |entries|
  {
    forall n | n in names :: exists j :: 0 <= j < k && entries[j].name == n
  }

  /** The current value and the flag are what the k-th name gets if it has no expression. */
  predicate Ready(t: EnumType, entries: seq<Entry>, k: nat, value: Vec, wrapped: bool)
    requires t.width > 0 && k <= |entries| && WellFormed(entries)
  {
    if k == 0 then value == Fill(V0, t.width) && !wrapped
    else
      var before := Value(t, entries, k - 1);
      value == Next(before) && (wrapped <==> IsDefined(before) && IntOf(before, t.signed) == MaxOf(t))
  }

  /** Nothing about a name and its value is in the way of declaring it. */
  ghost predicate Declarable(names: map<string, Vec>, scopeNames: set<string>, name: string, value: Vec) {
    name !in names && name !in scopeNames && forall n | n in names :: names[n] != value
  }

  lemma DeclaringUnique(t: EnumType, entries: seq<Entry>, scope: set<string>, k: nat,
                        names: map<string, Vec>, scopeNames: set<string>)
    requires t.width > 0 && k < |entries| && WellFormed(entries)
    requires NamesHold(t, entries, scope, k, names, scopeNames)
    ensures var name, value := entries[k].name, Value(t, entries, k);
            && (Declarable(names, scopeNames, name, value) <==> Unique(t, entries, scope, k))
            && (Unique(t, entries, scope, k) ==>
                  NamesHold(t, entries, scope, k + 1, names[name := value], scopeNames + {name}))
  {
    DeclarableIfUnique(t, entries, scope, k, names, scopeNames);
    if Unique(t, entries, scope, k) {
      NamesHoldMore(t, entries, scope, k, names, scopeNames);
    }
  }

  lemma DeclarableIfUnique(t: EnumType, entries: seq<Entry>, scope: set<string>, k: nat,
                           names: map<string, Vec>, scopeNames: set<string>)
    requires t.width > 0 && k < |entries| && WellFormed(entries)
    requires NamesHold(t, entries, scope, k, names, scopeNames)
    ensures Declarable(names, scopeNames, entries[k].name, Value(t, entries, k)) <==> Unique(t, entries, scope, k)
  {
    var name, value := entries[k].name, Value(t, entries, k);
    if Declarable(names, scopeNames, name, value) {
      forall j | 0 <= j < k ensures entries[j].name != name && Value(t, entries, j) != value {
        assert entries[j].name in names;
      }
    }
    if Unique(t, entries, scope, k) {
      assert name !in names;
      forall n | n in names ensures names[n] != value {
        var j :| 0 <= j < k && entries[j].name == n;
      }
    }
  }

  lemma NamesHoldMore(t: EnumType, entries: seq<Entry>, scope: set<string>, k: nat,
                      names: map<string, Vec>, scopeNames: set<string>)
    requires t.width > 0 && k < |entries| && WellFormed(entries)
    requires NamesHold(t, entries, scope, k, names, scopeNames) && Unique(t, entries, scope, k)
    ensures NamesHold(t, entries, scope, k + 1, names[entries[k].name := Value(t, entries, k)], scopeNames + {entries[k].name})
  {
    var name, value := entries[k].name, Value(t, entries, k);
    NamedMore(entries, k, names, value);
    HaveValuesMore(t, entries, k, names);
    assert scope + names.Keys + {name} == scope + (names.Keys + {name});
  }

  lemma NamedMore(entries: seq<Entry>, k: nat, names: map<string, Vec>, value: Vec)
    requires k < |entries| && Named(entries, k, names)
    ensures names[entries[k].name := value].Keys == names.Keys + {entries[k].name}
    ensures Named(entries, k + 1, names[entries[k].name := value])
  {
    var names' := names[entries[k].name := value];
    forall n | n in names' ensures exists j :: 0 <= j < k + 1 && entries[j].name == n {
      if n in names {
        var j :| 0 <= j < k && entries[j].name == n;
      } else {
        assert entries[k].name == n;
      }
    }
  }

  lemma HaveValuesMore(t: EnumType, entries: seq<Entry>, k: nat, names: map<string, Vec>)
    requires t.width > 0 && k < |entries| && WellFormed(entries) && HaveValues(t, entries, k, names)
    requires forall j | 0 <= j < k :: entries[j].name != entries[k].name
    ensures HaveValues(t, entries, k + 1, names[entries[k].name := Value(t, entries, k)])
  {
  }

  class EnumElaborator {
    /** The names so far with their values, all of the enumeration's width. */
    var names: map<string, Vec>
    /** All names of the enclosing scope. */
    var scopeNames: set<string>
    var errors: nat
    var curValue: Vec
    var implicitWrapped: bool

    constructor (scope: set<string>)
      ensures names == map[] && scopeNames == scope && errors == 0
    {
      names, scopeNames, errors := map[], scope, 0;
      curValue, implicitWrapped := [], false;
    }

    ghost predicate Follows(t: EnumType, entries: seq<Entry>, scope: set<string>, k: nat)
      requires t.width > 0 && k <= |entries| && WellFormed(entries)
      reads this
    {
      NamesHold(t, entries, scope, k, names, scopeNames) && Ready(t, entries, k, curValue, implicitWrapped)
    }

    /** Find a name with the given value. */
    method FindValue(value: Vec) returns (found: bool)
      ensures found <==> exists n :: n in names && names[n] == value
    {
      found := false;
      var keys := names.Keys;
      while keys != {}
        invariant keys <= names.Keys
        invariant found <==> exists n :: n in names && n !in keys && names[n] == value
        decreases |keys|
      {
        var n :| n in keys;
        if names[n] == value {
          return true;
        }
        keys := keys - {n};
      }
    }

    /** Add a name to the enumeration and to the scope, unless it is there already. */
    method InsertName(name: string, value: Vec) returns (ok: bool)
      modifies this`names, this`scopeNames
      ensures ok <==> name !in old(names) && name !in old(scopeNames)
      ensures names == if name in old(names) then old(names) else old(names)[name := value]
      ensures scopeNames == old(scopeNames) + {name}
    {
      ok := name !in names;
      if ok {
        names := names[name := value];
      }
      if name in scopeNames {
        ok := false;
      }
      scopeNames := scopeNames + {name};
    }

    /** Compare the bits above the enumeration's with its top bit, or for an unsigned
        enumeration with the first of them if that is 0. */
    method UpperBitsMatch(t: EnumType, bits: Vec) returns (ok: bool)
      requires 0 < t.width < |bits|
      ensures ok <==> TrimsCleanly(t, bits)
    {
      var checkWidth := t.width - 1;
      var idx := t.width;
      while idx < |bits|
        invariant t.width <= idx <= |bits|
        invariant checkWidth == t.width - 1 || (checkWidth == t.width < idx && !t.signed && bits[t.width] == V0 != bits[t.width - 1])
        invariant forall i | t.width <= i < idx :: bits[i] == bits[checkWidth]
      {
        if bits[idx] != bits[checkWidth] {
          if !t.signed && idx == t.width && bits[idx] == V0 {
            checkWidth := checkWidth + 1;
          } else {
            assert !TrimsCleanly(t, bits) by {
              assert checkWidth == t.width || idx == t.width || bits[t.width] == bits[t.width - 1];
            }
            return false;
          }
        }
        idx := idx + 1;
      }
      return true;
    }

    /** Take an explicit constant as the current value; report what is wrong with it. */
    method TakeValue(t: EnumType, v: Verinum, literal: Option<nat>) returns (goOn: bool)
      requires t.width > 0 && v.bits != []
      modifies this`errors, this`curValue, this`implicitWrapped
      ensures errors >= old(errors) && !implicitWrapped
      ensures errors == old(errors) <==> Accepted(t, v, literal)
      ensures goOn ==> curValue == Fitted(t, v)
      ensures !goOn ==> errors > old(errors)
    {
      implicitWrapped := false;
      if t.twoState && !IsDefined(v.bits) {
        errors := errors + 1;
      }
      if literal.Some? && literal.value != t.width {
        errors := errors + 1;
      }
      if (|v.bits| != t.width || !v.hasLen) && !t.signed && Negative(v) {
        errors := errors + 1;
      }
      curValue := v.bits;
      if |v.bits| < t.width {
        curValue := Padded(v, t.width);
      }
      if |curValue| > t.width {
        var ok := UpperBitsMatch(t, curValue);
        if !ok {
          errors := errors + 1;
        }
        if !v.hasSign && curValue[t.width] == V1 {
          errors := errors + 1;
          return false;
        }
        curValue := curValue[..t.width];
      }
      goOn := true;
    }

    /** The value of one name: its constant, or the inferred one. */
    method TakeEntry(t: EnumType, entries: seq<Entry>, k: nat) returns (goOn: bool, declares: bool)
      requires t.width > 0 && k < |entries| && WellFormed(entries)
      modifies this`errors, this`curValue, this`implicitWrapped
      ensures errors >= old(errors)
      ensures old(Ready(t, entries, k, curValue, implicitWrapped)) ==>
                (errors == old(errors) <==> ValueOk(t, entries, k))
      ensures old(Ready(t, entries, k, curValue, implicitWrapped)) && errors == old(errors) ==>
                goOn && declares && curValue == Value(t, entries, k) && !implicitWrapped
      ensures !goOn ==> !declares
    {
      goOn, declares := true, true;
      match entries[k] {
        case Explicit(_, value, literal) =>
          if value.None? {
            errors := errors + 1;
            return true, false;
          }
          goOn := TakeValue(t, value.value, literal);
          if !goOn {
            return false, false;
          }
        case Implicit(_) =>
          if !IsDefined(curValue) {
            errors := errors + 1;
            return true, false;
          }
      }
      if implicitWrapped {
        errors := errors + 1;
      }
    }

    /** Step to the value that a next name without an expression gets. */
    method Advance(t: EnumType)
      requires t.width > 0
      modifies this`curValue, this`implicitWrapped
      ensures curValue == Next(old(curValue))
      ensures implicitWrapped <==> old(implicitWrapped)
                                   || (IsDefined(old(curValue)) && IntOf(old(curValue), t.signed) == MaxOf(t))
    {
      if IsDefined(curValue) {
        if IntOf(curValue, t.signed) == MaxOf(t) {
          implicitWrapped := true;
        }
        curValue := AddOne(curValue);
      }
    }

    method ElaborateName(t: EnumType, entries: seq<Entry>, ghost scope: set<string>, k: nat) returns (goOn: bool)
      requires t.width > 0 && k < |entries| && WellFormed(entries)
      modifies this
      ensures errors >= old(errors)
      ensures old(Follows(t, entries, scope, k)) ==>
                (errors == old(errors) <==> ValueOk(t, entries, k) && Unique(t, entries, scope, k))
      ensures old(Follows(t, entries, scope, k)) && errors == old(errors) ==>
                goOn && Follows(t, entries, scope, k + 1)
    {
      ghost var follows := Follows(t, entries, scope, k);
      if follows {
        DeclaringUnique(t, entries, scope, k, names, scopeNames);
      }
      var declares;
      goOn, declares := TakeEntry(t, entries, k);
      if !declares {
        return;
      }
      Declare(entries[k].name);
      Advance(t);
    }

    method Declare(name: string)
      modifies this`names, this`scopeNames, this`errors
      ensures errors >= old(errors)
      ensures errors == old(errors) <==> Declarable(old(names), old(scopeNames), name, curValue)
      ensures names == if name in old(names) then old(names) else old(names)[name := curValue]
      ensures scopeNames == old(scopeNames) + {name}
    {
      var found := FindValue(curValue);
      if found {
        errors := errors + 1;
      }
      var ok := InsertName(name, curValue);
      if !ok {
        errors := errors + 1;
      }
    }

    /** Elaborate an enumeration into an empty map of names. It is free of errors exactly if
        it is legal, and then every name has its value. */
    method Elaborate(t: EnumType, entries: seq<Entry>)
      requires t.width > 0 && WellFormed(entries) && names == map[]
      modifies this
      ensures errors >= old(errors)
      ensures errors == old(errors) <==> Legal(t, entries, old(scopeNames), |entries|)
      ensures errors == old(errors) ==>
                forall k | 0 <= k < |entries| ::
                  entries[k].name in names && names[entries[k].name] == Value(t, entries, k)
    {
      ghost var scope, before := scopeNames, errors;
      curValue := Fill(V0, t.width);
      implicitWrapped := false;
      ghost var k := ElaborateNames(t, entries, scope, before);
      if errors != before {
        LegalPrefix(t, entries, scope, k, |entries|);
      }
    }

    method ElaborateNames(t: EnumType, entries: seq<Entry>, ghost scope: set<string>, ghost before: nat)
      returns (ghost reached: nat)
      requires t.width > 0 && WellFormed(entries)
      requires errors == before && Tracks(t, entries, scope, 0, before)
      modifies this
      ensures reached <= |entries| && errors >= before && Tracks(t, entries, scope, reached, before)
      ensures reached < |entries| ==> errors != before
    {
      var k := 0;
      var goOn := true;
      while k < |entries| && goOn
        invariant 0 <= k <= |entries| && errors >= before
        invariant Tracks(t, entries, scope, k, before)
        invariant errors == before ==> goOn
      {
        goOn := Step(t, entries, scope, k, before);
        k := k + 1;
      }
      reached := k;
    }

    /** There has been no error exactly if the first k names are legal. */
    ghost predicate Tracks(t: EnumType, entries: seq<Entry>, scope: set<string>, k: nat, before: nat)
      requires t.width > 0 && k <= |entries| && WellFormed(entries)
      reads this
    {
      && (errors == before <==> Legal(t, entries, scope, k))
      && (errors == before ==> Follows(t, entries, scope, k))
    }

    method Step(t: EnumType, entries: seq<Entry>, ghost scope: set<string>, k: nat, ghost before: nat)
      returns (goOn: bool)
      requires t.width > 0 && k < |entries| && WellFormed(entries)
      requires errors >= before && Tracks(t, entries, scope, k, before)
      modifies this
      ensures errors >= before && Tracks(t, entries, scope, k + 1, before)
      ensures errors == before ==> goOn
    {
      goOn := ElaborateName(t, entries, scope, k);
    }
  }
}
