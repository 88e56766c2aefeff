/** Constants as strings: a vector is spelled out with escapes and read back. */
module Strings {
  import opened FourState
  import opened Numbers
  import opened Powers
  import opened Wrappers

  /** A character code. */
  type Text = seq<nat>

  const Backslash: nat := 92
  const Quote: nat := 34
  const DigitZero: nat := 48

  function BitsOf(c: nat, width: nat): (bits: Vec)
    ensures |bits| == width
  {
    if width == 0 then [] else [if c % 2 == 1 then V1 else V0] + BitsOf(c / 2, width - 1)
  }

  /** Only the ones are left. */
  function Cleared(bits: Vec): (r: Vec)
    ensures |r| == |bits|
  {
    seq(|bits|, i requires 0 <= i < |bits| => if bits[i] == V1 then V1 else V0)
  }

  lemma {:induction false} BitsOfUnsigned(bits: Vec)
    ensures BitsOf(Unsigned(bits), |bits|) == Cleared(bits)
  {
    if bits != [] {
      BitsOfUnsigned(bits[1..]);
    }
  }

  // ---- Spelling a vector ----

  function Escape(c: nat): Text {
    [Backslash, DigitZero + c / 8 / 8, DigitZero + c / 8 % 8, DigitZero + c % 8]
  }

  /** How one character is spelled; which characters are printable is for the locale to say. */
  function Spelled(c: nat, printable: nat -> bool): Text {
    if c == Quote || c == Backslash || !printable(c) then Escape(c) else [c]
  }

  /** The spelling of whole bytes, the most significant one first. */
  function Spelling(bits: Vec, printable: nat -> bool): Text
    requires |bits| % 8 == 0
  {
    if bits == [] then []
    else Spelled(Unsigned(bits[|bits| - 8..]), printable) + Spelling(bits[..|bits| - 8], printable)
  }

  method AsString(bits: Vec, printable: nat -> bool) returns (res: Text)
    requires |bits| % 8 == 0
    ensures res == Spelling(bits, printable)
  {
    res := [];
    var idx := |bits|;
    assert bits[..idx] == bits;
    while idx > 0
      invariant 0 <= idx <= |bits| && idx % 8 == 0
      invariant res + Spelling(bits[..idx], printable) == Spelling(bits, printable)
    {
      WholeByte(idx);
      var spelled := Spelled(Unsigned(bits[idx - 8..idx]), printable);
      SpellingStep(bits, idx, printable);
      Regrouped(res, spelled, Spelling(bits[..idx - 8], printable));
      res := res + spelled;
      idx := idx - 8;
    }
    assert res + [] == res;
  }

  lemma WholeByte(k: nat)
    requires k > 0 && k % 8 == 0
    ensures k >= 8 && (k - 8) % 8 == 0
  {
  }

  lemma SpellingStep(bits: Vec, k: nat, printable: nat -> bool)
    requires 0 < k <= |bits| && k % 8 == 0
    ensures k >= 8
    ensures Spelling(bits[..k], printable) ==
            Spelled(Unsigned(bits[k - 8..k]), printable) + Spelling(bits[..k - 8], printable)
  {
    assert bits[..k][k - 8..] == bits[k - 8..k] && bits[..k][..k - 8] == bits[..k - 8];
  }

  lemma Regrouped<T>(a: seq<T>, b: seq<T>, c: seq<T>)
    ensures (a + b) + c == a + (b + c)
  {
  }

  // ---- Reading a text ----

  predicate IsOctal(c: nat) {
    DigitZero <= c < DigitZero + 8
  }

  /** At most n octal digits at the start of the text: how many, and the byte they make with
      what has been read before. */
  function Octal(text: Text, n: nat, byte: nat): (r: (nat, nat))
    ensures r.0 <= n && r.0 <= |text|
    decreases n
  {
    if n > 0 && text != [] && IsOctal(text[0]) then
      var r := Octal(text[1..], n - 1, (8 * byte + text[0] - DigitZero) % 256);
      (r.0 + 1, r.1)
    else (0, byte)
  }

  /** The first character of a text and the length of its spelling: a backslash escapes a
      newline, a tab, an octal number or the next character, and must not be the last. */
  function First(text: Text): (r: Option<(nat, nat)>)
    requires text != []
    ensures r.Some? ==> 0 < r.value.1 <= |text|
  {
    if text[0] != Backslash then Some((text[0], 1))
    else if |text| == 1 then None
    else if text[1] == 110 then Some((10, 2))
    else if text[1] == 116 then Some((9, 2))
    else if IsOctal(text[1]) then
      var r := Octal(text[1..], 3, 0);
      Some((r.1, 1 + r.0))
    else Some((text[1], 2))
  }

  /** The characters of a text, if it does not end in a lone backslash. */
  function Unquoted(text: Text): Option<Text> {
    if text == [] then Some([])
    else
      var first := First(text);
      if first.None? then None
      else
        var rest := Unquoted(text[first.value.1..]);
        if rest.None? then None else Some([first.value.0] + rest.value)
  }

  method ProcessQuotes(text: Text) returns (res: Option<Text>)
    ensures res == Unquoted(text)
  {
    var read: Text, idx := [], 0;
    assert text[0..] == text;
    NothingRead(Unquoted(text));
    while idx < |text|
      invariant 0 <= idx <= |text|
      invariant Continues(read, Unquoted(text[idx..]), Unquoted(text))
    {
      ghost var before := idx;
      var code, length := text[idx], 1;
      if text[idx] == Backslash {
        idx := idx + 1;
        if idx == |text| {
          return None;
        }
        if text[idx] == 110 {
          code := 10;
          idx := idx + 1;
        } else if text[idx] == 116 {
          code := 9;
          idx := idx + 1;
        } else if IsOctal(text[idx]) {
          code, length := ReadOctal(text[idx..]);
          idx := idx + length;
        } else {
          code := text[idx];
          idx := idx + 1;
        }
      } else {
        idx := idx + 1;
      }
      ghost var used: nat := idx - before;
      assert First(text[before..]) == Some((code, used)) by {
        assert text[before..][1..] == text[before + 1..];
      }
      assert text[before..][idx - before..] == text[idx..];
      ReadOne(read, code, Unquoted(text[idx..]), Unquoted(text));
      read := read + [code];
    }
    assert text[idx..] == [] && read + [] == read;
    return Some(read);
  }

  /** What has been read and what the rest will give is the whole. */
  predicate Continues(read: Text, rest: Option<Text>, whole: Option<Text>) {
    whole == if rest.None? then None else Some(read + rest.value)
  }

  lemma NothingRead(rest: Option<Text>)
    ensures Continues([], rest, rest)
  {
    if rest.Some? {
      assert [] + rest.value == rest.value;
    }
  }

  lemma ReadOne(read: Text, code: nat, rest: Option<Text>, whole: Option<Text>)
    requires Continues(read, if rest.None? then None else Some([code] + rest.value), whole)
    ensures Continues(read + [code], rest, whole)
  {
    if rest.Some? {
      assert read + ([code] + rest.value) == read + [code] + rest.value;
    }
  }

  method ReadOctal(text: Text) returns (byte: nat, odx: nat)
    ensures (odx, byte) == Octal(text, 3, 0)
  {
    byte, odx := 0, 0;
    while odx < 3 && odx < |text| && IsOctal(text[odx])
      invariant odx <= 3 && odx <= |text|
      invariant var r := Octal(text[odx..], 3 - odx, byte); Octal(text, 3, 0) == (odx + r.0, r.1)
    {
      assert text[odx..][1..] == text[odx + 1..];
      byte := (8 * byte + text[odx] - DigitZero) % 256;
      odx := odx + 1;
    }
  }

  // ---- Reading back what was spelled ----

  lemma OctalStep(digit: nat, rest: Text, n: nat, byte: nat, next: nat, odx: nat, value: nat)
    requires digit < 8 && n > 0 && next == (8 * byte + digit) % 256
    requires Octal(rest, n - 1, next) == (odx, value)
    ensures Octal([DigitZero + digit] + rest, n, byte) == (odx + 1, value)
  {
    assert ([DigitZero + digit] + rest)[1..] == rest;
  }

  lemma LastDigit(c: nat)
    requires c < 256
    ensures (8 * (c / 8) + c % 8) % 256 == c && c / 8 < 32
  {
  }

  lemma ThreeDigits(c: nat)
    requires c < 256
    ensures c / 8 / 8 == (8 * 0 + c / 8 / 8) % 256 && c / 8 / 8 < 8
    ensures (8 * (c / 8 / 8) + c / 8 % 8) % 256 == c / 8 && (8 * (c / 8) + c % 8) % 256 == c
  {
    LastDigit(c);
    LastDigit(c / 8);
  }

  lemma DigitsReadBack(c: nat, rest: Text)
    requires c < 256
    ensures Octal([DigitZero + c / 8 / 8] + ([DigitZero + c / 8 % 8] + ([DigitZero + c % 8] + rest)), 3, 0) == (3, c)
  {
    var ones := [DigitZero + c % 8] + rest;
    var eights := [DigitZero + c / 8 % 8] + ones;
    ThreeDigits(c);
    OctalStep(c % 8, rest, 1, c / 8, c, 0, c);
    OctalStep(c / 8 % 8, ones, 2, c / 8 / 8, c / 8, 1, c);
    OctalStep(c / 8 / 8, eights, 3, 0, c / 8 / 8, 2, c);
  }

  lemma EscapeReadsBack(c: nat, rest: Text)
    requires c < 256
    ensures First(Escape(c) + rest) == Some((c, 4)) && (Escape(c) + rest)[4..] == rest
  {
    var digits := [DigitZero + c / 8 / 8] + ([DigitZero + c / 8 % 8] + ([DigitZero + c % 8] + rest));
    DigitsReadBack(c, rest);
    ThreeDigits(c);
    assert Escape(c) + rest == [Backslash] + digits;
    OctalIsFirst(digits);
  }

  lemma OctalIsFirst(digits: Text)
    requires digits != [] && IsOctal(digits[0])
    ensures var r := Octal(digits, 3, 0); First([Backslash] + digits) == Some((r.1, 1 + r.0))
  {
    assert ([Backslash] + digits)[1..] == digits;
  }

  lemma SpelledReadsBack(c: nat, printable: nat -> bool, rest: Text)
    requires c < 256
    ensures var text := Spelled(c, printable) + rest;
            First(text) == Some((c, |Spelled(c, printable)|)) && text[|Spelled(c, printable)|..] == rest
  {
    EscapeReadsBack(c, rest);
  }

  lemma SpelledIsFirst(byte: Vec, printable: nat -> bool, rest: Text)
    requires |byte| == 8 && Unquoted(rest).Some?
    ensures Unquoted(Spelled(Unsigned(byte), printable) + rest) == Some([Unsigned(byte)] + Unquoted(rest).value)
  {
    UnsignedBound(byte);
    assert Pow2(8) == 256;
    SpelledReadsBack(Unsigned(byte), printable, rest);
  }

  // ---- Every way to write a character ----

  /** A character as it stands, the escapes for a newline and a tab, one to three octal
      digits, and a quoted character. */
  datatype Unit = Plain(c: nat) | Newline | Tab | Digits(d: seq<nat>) | Quoted(c: nat)

  function Written(u: Unit): Text {
    match u
    case Plain(c) => [c]
    case Newline => [Backslash, 'n' as nat]
    case Tab => [Backslash, 't' as nat]
    case Digits(d) => [Backslash] + DigitsOf(d)
    case Quoted(c) => [Backslash, c]
  }

  function DigitsOf(d: seq<nat>): (r: Text)
    ensures |r| == |d|
  {
    seq(|d|, i requires 0 <= i < |d| => DigitZero + d[i])
  }

  /** Horizontal tab is character 9 and line feed character 10; an octal number is a byte. */
  function Meant(u: Unit): nat {
    match u
    case Plain(c) => c
    case Newline => 10
    case Tab => 9
    case Digits(d) =>
      if |d| == 1 then d[0] else if |d| == 2 then 8 * d[0] + d[1] else if |d| == 3 then (64 * d[0] + 8 * d[1] + d[2]) % 256 else 0
    case Quoted(c) => c
  }

  /** What is written stands for itself in front of the rest: fewer than three digits must not
      be followed by another one. */
  predicate Unambiguous(u: Unit, rest: Text) {
    match u
    case Plain(c) => c != Backslash
    case Newline => true
    case Tab => true
    case Digits(d) =>
      && 1 <= |d| <= 3 && (forall i | 0 <= i < |d| :: d[i] < 8)
      && (|d| < 3 && rest != [] ==> !IsOctal(rest[0]))
    case Quoted(c) => c != 'n' as nat && c != 't' as nat && !IsOctal(c)
  }

  lemma ThreeOctal(a: nat, b: nat, c: nat)
    requires a < 8 && b < 8 && c < 8
    ensures (8 * ((8 * a + b) % 256) + c) % 256 == (64 * a + 8 * b + c) % 256
    ensures (8 * 0 + a) % 256 == a && (8 * a + b) % 256 == 8 * a + b
  {
  }

  lemma NoMoreDigits(rest: Text, n: nat, byte: nat)
    requires n > 0 && rest != [] ==> !IsOctal(rest[0])
    ensures Octal(rest, n, byte) == (0, byte)
  {
  }

  lemma OneDigit(a: nat, rest: Text)
    requires a < 8 && (rest != [] ==> !IsOctal(rest[0]))
    ensures Octal([DigitZero + a] + rest, 3, 0) == (1, a)
  {
    NoMoreDigits(rest, 2, a);
    OctalStep(a, rest, 3, 0, a, 0, a);
  }

  lemma TwoDigits(a: nat, b: nat, rest: Text)
    requires a < 8 && b < 8 && (rest != [] ==> !IsOctal(rest[0]))
    ensures Octal([DigitZero + a] + ([DigitZero + b] + rest), 3, 0) == (2, 8 * a + b)
  {
    ThreeOctal(a, b, 0);
    NoMoreDigits(rest, 1, 8 * a + b);
    OctalStep(b, rest, 2, a, 8 * a + b, 0, 8 * a + b);
    OctalStep(a, [DigitZero + b] + rest, 3, 0, a, 1, 8 * a + b);
  }

  lemma AllThreeDigits(a: nat, b: nat, c: nat, rest: Text)
    requires a < 8 && b < 8 && c < 8
    ensures Octal([DigitZero + a] + ([DigitZero + b] + ([DigitZero + c] + rest)), 3, 0) == (3, (64 * a + 8 * b + c) % 256)
  {
    var byte := (64 * a + 8 * b + c) % 256;
    ThreeOctal(a, b, c);
    NoMoreDigits(rest, 0, byte);
    OctalStep(c, rest, 1, 8 * a + b, byte, 0, byte);
    OctalStep(b, [DigitZero + c] + rest, 2, a, 8 * a + b, 1, byte);
    OctalStep(a, [DigitZero + b] + ([DigitZero + c] + rest), 3, 0, a, 2, byte);
  }

  lemma DigitsRead(d: seq<nat>, rest: Text)
    requires Unambiguous(Digits(d), rest)
    ensures Octal(DigitsOf(d) + rest, 3, 0) == (|d|, Meant(Digits(d)))
  {
    DigitsSpelled(d, rest);
    if |d| == 1 {
      OneDigit(d[0], rest);
    } else if |d| == 2 {
      TwoDigits(d[0], d[1], rest);
    } else {
      AllThreeDigits(d[0], d[1], d[2], rest);
    }
  }

  lemma DigitsSpelled(d: seq<nat>, rest: Text)
    ensures |d| == 1 ==> DigitsOf(d) + rest == [DigitZero + d[0]] + rest
    ensures |d| == 2 ==> DigitsOf(d) + rest == [DigitZero + d[0]] + ([DigitZero + d[1]] + rest)
    ensures |d| == 3 ==> DigitsOf(d) + rest == [DigitZero + d[0]] + ([DigitZero + d[1]] + ([DigitZero + d[2]] + rest))
  {
  }

  lemma UnitReadsBack(u: Unit, rest: Text)
    requires Unambiguous(u, rest)
    ensures var text := Written(u) + rest;
            First(text) == Some((Meant(u), |Written(u)|)) && text[|Written(u)|..] == rest
  {
    if u.Digits? {
      DigitsRead(u.d, rest);
      assert Written(u) + rest == [Backslash] + (DigitsOf(u.d) + rest);
      OctalIsFirst(DigitsOf(u.d) + rest);
    }
  }

  function WrittenAll(units: seq<Unit>): Text {
    if units == [] then [] else Written(units[0]) + WrittenAll(units[1..])
  }

  function MeantAll(units: seq<Unit>): Text {
    if units == [] then [] else [Meant(units[0])] + MeantAll(units[1..])
  }

  predicate AllUnambiguous(units: seq<Unit>) {
    units == [] || (Unambiguous(units[0], WrittenAll(units[1..])) && AllUnambiguous(units[1..]))
  }

  /** However its characters are written, a text reads back as what is meant. */
  lemma {:induction false} WrittenReadsBack(units: seq<Unit>)
    requires AllUnambiguous(units)
    ensures Unquoted(WrittenAll(units)) == Some(MeantAll(units))
  {
    if units != [] {
      WrittenReadsBack(units[1..]);
      UnitReadsBack(units[0], WrittenAll(units[1..]));
    }
  }

  // ---- A vector and back ----

  /** The bytes of a vector, the most significant one first. */
  function Bytes(bits: Vec): (r: Text)
    requires |bits| % 8 == 0
    ensures |r| == |bits| / 8
  {
    if bits == [] then [] else [Unsigned(bits[|bits| - 8..])] + Bytes(bits[..|bits| - 8])
  }

  /** Whatever is taken to be printable, a spelling reads back as the bytes. */
  lemma {:induction false} SpellingReadsBack(bits: Vec, printable: nat -> bool)
    requires |bits| % 8 == 0
    ensures Unquoted(Spelling(bits, printable)) == Some(Bytes(bits))
  {
    if bits != [] {
      SpellingReadsBack(bits[..|bits| - 8], printable);
      SpelledIsFirst(bits[|bits| - 8..], printable, Spelling(bits[..|bits| - 8], printable));
    }
  }

  /** The vector of a text: eight bits for every character, and eight zeros for none. */
  function FromBytes(text: Text): Vec {
    if text == [] then [] else FromBytes(text[1..]) + BitsOf(text[0], 8)
  }

  /** Spelling a vector of whole bytes and reading the text back clears all bits but ones. */
  lemma {:induction false} StringRoundTrip(bits: Vec)
    requires |bits| % 8 == 0
    ensures FromBytes(Bytes(bits)) == Cleared(bits)
  {
    if bits != [] {
      var high, low := bits[|bits| - 8..], bits[..|bits| - 8];
      StringRoundTrip(low);
      BitsOfUnsigned(high);
      assert ([Unsigned(high)] + Bytes(low))[1..] == Bytes(low);
      ClearedParts(low, high);
      assert low + high == bits;
    }
  }

  lemma ClearedParts(low: Vec, high: Vec)
    ensures Cleared(low) + Cleared(high) == Cleared(low + high)
  {
  }

  /** A constant from a text. */
  method FromString(text: Text) returns (bits: Option<Vec>)
    ensures bits == match Unquoted(text) case None => None
                    case Some(s) => Some(if s == [] then Fill(V0, 8) else FromBytes(s))
  {
    var str := ProcessQuotes(text);
    if str.None? {
      return None;
    }
    if str.value == [] {
      return Some(Fill(V0, 8));
    }
    var res: Vec, cp := [], 0;
    assert str.value[0..] == str.value && FromBytes(str.value) + [] == FromBytes(str.value);
    while cp < |str.value|
      invariant 0 <= cp <= |str.value|
      invariant FromBytes(str.value) == FromBytes(str.value[cp..]) + res
    {
      assert str.value[cp..][1..] == str.value[cp + 1..];
      var byte := BitsOf(str.value[cp], 8);
      Regrouped(FromBytes(str.value[cp + 1..]), byte, res);
      res := byte + res;
      cp := cp + 1;
    }
    assert str.value[cp..] == [] && [] + res == res;
    return Some(res);
  }
}
