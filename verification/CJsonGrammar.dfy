/**
 Every text of RFC 8259's grammar, with any spacing and spelling, and what the parser makes of it.
 */
module CJsonGrammar {

  // The parser of CJson is compared with a syntax tree that records how a text is spelled: the blanks
  // between the tokens, the way each character of a string is written, the parts of a number. The tree
  // is written down in front of a following text, and its meaning is defined without the parser.
  import opened CJson

  // ----- UTF-8 and UTF-16 -----

  /** How many bytes a character has, by its first byte. */
  function LeadCount(b: int): nat {
    if b < 0x80 then 1 else if 0xC0 <= b < 0xE0 then 2 else if 0xE0 <= b < 0xF0 then 3 else if 0xF0 <= b < 0xF8 then 4 else 0
  }

  function LeadBits(b: int): int { if b < 0x80 then b else if b < 0xE0 then b - 0xC0 else if b < 0xF0 then b - 0xE0 else b - 0xF0 }

  /** The payload bits of the following bytes, joined to those read before. */
  function JoinBits(code: int, t: Text): int
    decreases |t|
  {
    if t == [] then code else JoinBits(code * 64 + (t[0] - 0x80), t[1..])
  }

  function ShortestForm(uc: int): nat { if uc < 0x80 then 1 else if uc < 0x800 then 2 else if uc < 0x10000 then 3 else 4 }

  /** t is the UTF-8 form of the code point uc, read byte by byte. */
  ghost predicate IsUtf8(t: Text, uc: int) {
    && t != [] && LeadCount(t[0]) == |t| == ShortestForm(uc)
    && (forall i :: 1 <= i < |t| ==> 0x80 <= t[i] < 0xC0)
    && JoinBits(LeadBits(t[0]), t[1..]) == uc
  }

  /** The fall-through switch writes the UTF-8 form of every code point. */
  lemma Utf8IsRight(uc: int)
    requires 0 <= uc <= 0x10FFFF
    ensures IsUtf8(Utf8(uc), uc)
  {
    var t := Utf8(uc);
    if uc >= 0x80 {
      var a, b, c := uc / 64, uc / 4096, uc / 262144;
      assert uc == a * 64 + uc % 64 && a == b * 64 + a % 64 && b == c * 64 + b % 64 by {
        assert a / 64 == b && b / 64 == c;
      }
      JoinThree(t);
    }
  }

  lemma JoinThree(t: Text)
    requires 2 <= |t| <= 4
    ensures var x := LeadBits(t[0]);
            JoinBits(x, t[1..])
            == if |t| == 2 then x * 64 + (t[1] - 0x80)
               else if |t| == 3 then (x * 64 + (t[1] - 0x80)) * 64 + (t[2] - 0x80)
               else ((x * 64 + (t[1] - 0x80)) * 64 + (t[2] - 0x80)) * 64 + (t[3] - 0x80)
  {
    var x := LeadBits(t[0]);
    assert t[1..][1..] == t[2..] && t[1..][0] == t[1];
    var y := x * 64 + (t[1] - 0x80);
    assert JoinBits(x, t[1..]) == JoinBits(y, t[2..]);
    if |t| == 2 {
      assert t[2..] == [];
    } else {
      assert t[2..][1..] == t[3..] && t[2..][0] == t[2];
      var z := y * 64 + (t[2] - 0x80);
      assert JoinBits(y, t[2..]) == JoinBits(z, t[3..]);
      if |t| == 3 {
        assert t[3..] == [];
      } else {
        assert t[3..][1..] == [] && t[3..][0] == t[3];
        assert JoinBits(z, t[3..]) == JoinBits(z * 64 + (t[3] - 0x80), []);
      }
    }
  }

  /** The UTF-16 form of a code point. */
  function Utf16(uc: int): seq<int> {
    if uc < 0x10000 then [uc] else [0xD800 + (uc - 0x10000) / 0x400, 0xDC00 + (uc - 0x10000) % 0x400]
  }

  predicate IsHigh(u: int) { 0xD800 <= u <= 0xDBFF }

  predicate IsLow(u: int) { 0xDC00 <= u <= 0xDFFF }

  /** The code point whose UTF-16 form is the pair. */
  function CodePoint(hi: int, lo: int): (uc: int)
    requires IsHigh(hi) && IsLow(lo)
    ensures 0x10000 <= uc <= 0x10FFFF && Utf16(uc) == [hi, lo]
  {
    0x10000 + (hi - 0xD800) * 0x400 + (lo - 0xDC00)
  }

  // ----- hexadecimal digits -----

  /** The digit d in lower or upper case. */
  function HexLetter(d: int, upper: bool): int { if d < 10 then ZERO + d else if upper then 65 + d - 10 else LOWER_A + d - 10 }

  /** Four digits of either case are read by their weights. */
  lemma HexIsRead(d: seq<int>, upper: seq<bool>, rest: Text)
    requires |d| == |upper| == 4 && forall i :: 0 <= i < 4 ==> 0 <= d[i] < 16
    ensures var t := [HexLetter(d[0], upper[0]), HexLetter(d[1], upper[1]), HexLetter(d[2], upper[2]), HexLetter(d[3], upper[3])] + rest;
            HasHex4(t) && ReadHex4(t) == d[0] * 4096 + d[1] * 256 + d[2] * 16 + d[3]
  {
    forall x, u: bool | 0 <= x < 16
      ensures HexValue(HexLetter(x, u)) == x
    {
    }
  }

  /** And sprintf's four digits are read back. */
  lemma Hex4IsRead(c: int, rest: Text)
    requires 0 <= c < 0x10000
    ensures HasHex4(Hex4(c) + rest) && ReadHex4(Hex4(c) + rest) == c
  {
    hide HexValue, HexDigit;
    HexDigitValue(c / 4096 % 16);
    HexDigitValue(c / 256 % 16);
    HexDigitValue(c / 16 % 16);
    HexDigitValue(c % 16);
    var t := Hex4(c) + rest;
    assert t[0] == Hex4(c)[0] && t[1] == Hex4(c)[1] && t[2] == Hex4(c)[2] && t[3] == Hex4(c)[3];
    var q, p := c / 16, c / 256;
    assert q / 16 == p && p / 16 == c / 4096 && c / 4096 % 16 == c / 4096;
    assert c == q * 16 + c % 16 && q == p * 16 + q % 16 && p == p / 16 * 16 + p % 16;
  }

  // ----- strings -----

  /** One way to write a character of a string. */
  datatype Letter = Plain(c: int) | Named(letter: int) | Code(h: Text) | Pair(hi: Text, lo: Text)

  const SLASH: int := 47

  predicate IsNamed(letter: int) {
    letter == QUOTE || letter == BACKSLASH || letter == SLASH
    || letter == 98 || letter == 102 || letter == 110 || letter == 114 || letter == 116
  }

  predicate GoodLetter(l: Letter) {
    match l
    case Plain(c) => IsByte(c) && c != QUOTE && c != BACKSLASH
    case Named(letter) => IsNamed(letter)
    case Code(h) => |h| == 4 && HasHex4(h) && ReadHex4(h) != 0 && !IsHigh(ReadHex4(h)) && !IsLow(ReadHex4(h))
    case Pair(hi, lo) => |hi| == |lo| == 4 && HasHex4(hi) && HasHex4(lo) && IsHigh(ReadHex4(hi)) && IsLow(ReadHex4(lo))
  }

  function Spell(l: Letter, rest: Text): Text {
    match l
    case Plain(c) => [c] + rest
    case Named(letter) => [BACKSLASH, letter] + rest
    case Code(h) => [BACKSLASH, LOWER_U] + (h + rest)
    case Pair(hi, lo) => [BACKSLASH, LOWER_U] + (hi + ([BACKSLASH, LOWER_U] + (lo + rest)))
  }

  /** What the named escapes stand for: backspace, form feed, line feed, carriage return, tab; the others themselves. */
  function NamedByte(letter: int): int {
    match letter
    case 98 => 8
    case 102 => 12
    case 110 => 10
    case 114 => 13
    case 116 => 9
    case _ => letter
  }

  /** The bytes a character stands for. */
  function Sense(l: Letter): Text
    requires GoodLetter(l)
  {
    match l
    case Plain(c) => [c]
    case Named(letter) => [NamedByte(letter)]
    case Code(h) => Utf8(ReadHex4(h))
    case Pair(hi, lo) => Utf8(CodePoint(ReadHex4(hi), ReadHex4(lo)))
  }

  ghost predicate GoodLetters(ls: seq<Letter>) { forall i :: 0 <= i < |ls| ==> GoodLetter(ls[i]) }

  function SpellAll(ls: seq<Letter>, rest: Text): Text {
    if ls == [] then [QUOTE] + rest else Spell(ls[0], SpellAll(ls[1..], rest))
  }

  function SenseAll(ls: seq<Letter>): Text
    requires GoodLetters(ls)
  {
    if ls == [] then [] else Sense(ls[0]) + SenseAll(ls[1..])
  }

  /** One character is read as what it stands for, however it is written. */
  lemma LetterIsRead(l: Letter, rest: Text)
    requires GoodLetter(l)
    ensures Unescape(Spell(l, rest)) == Prepend(Sense(l), Unescape(rest))
  {
    hide Utf8, ReadHex4, HasHex4, Unescape;
    match l {
      case Plain(c) => PlainIsRead(c, rest);
      case Named(letter) => NamedIsRead(letter, rest);
      case Code(h) => CodeIsRead(h, rest);
      case Pair(hi, lo) => PairIsRead(hi, lo, rest);
    }
  }

  lemma PlainIsRead(c: int, rest: Text)
    requires c != QUOTE && c != BACKSLASH
    ensures Unescape([c] + rest) == Prepend([c], Unescape(rest))
  {
    assert ([c] + rest)[1..] == rest;
  }

  lemma NamedIsRead(letter: int, rest: Text)
    requires letter != LOWER_U
    ensures Unescape([BACKSLASH, letter] + rest) == Prepend([EscapedByte(letter)], Unescape(rest))
  {
    hide EscapedByte, UnicodeEscape;
    assert ([BACKSLASH, letter] + rest)[2..] == rest;
  }

  /** An escape of four digits is read by UnicodeEscape. */
  lemma EscapeIsRead(u: Text, value: Text, rest: Text)
    requires UnicodeEscape(u) == Ok(value, rest)
    ensures Unescape([BACKSLASH, LOWER_U] + u) == Prepend(value, Unescape(rest))
  {
    hide UnicodeEscape, EscapedByte;
    assert ([BACKSLASH, LOWER_U] + u)[2..] == u;
  }

  lemma CodeIsRead(h: Text, rest: Text)
    requires |h| == 4 && HasHex4(h) && ReadHex4(h) != 0 && !IsHigh(ReadHex4(h)) && !IsLow(ReadHex4(h))
    ensures Unescape([BACKSLASH, LOWER_U] + (h + rest)) == Prepend(Utf8(ReadHex4(h)), Unescape(rest))
  {
    hide Utf8, ReadHex4, HexValue, Unescape;
    HexInFront(h, rest);
    assert (h + rest)[4..] == rest;
    EscapeIsRead(h + rest, Utf8(ReadHex4(h)), rest);
  }

  lemma PairIsRead(hi: Text, lo: Text, rest: Text)
    requires |hi| == |lo| == 4 && HasHex4(hi) && HasHex4(lo) && IsHigh(ReadHex4(hi)) && IsLow(ReadHex4(lo))
    ensures Unescape([BACKSLASH, LOWER_U] + (hi + ([BACKSLASH, LOWER_U] + (lo + rest))))
            == Prepend(Utf8(CodePoint(ReadHex4(hi), ReadHex4(lo))), Unescape(rest))
  {
    hide Utf8, ReadHex4, HexValue, Unescape, HasHex4;
    var second := [BACKSLASH, LOWER_U] + (lo + rest);
    HexInFront(hi, second);
    HexInFront(lo, rest);
    assert (hi + second)[4..] == second && second[2..] == lo + rest;
    assert second[6..] == second[2..][4..] == rest;
    EscapeIsRead(hi + second, Utf8(CodePoint(ReadHex4(hi), ReadHex4(lo))), rest);
  }

  lemma HexInFront(h: Text, rest: Text)
    requires |h| == 4 && HasHex4(h)
    ensures HasHex4(h + rest) && ReadHex4(h + rest) == ReadHex4(h)
  {
    hide HexValue;
    assert (h + rest)[0] == h[0] && (h + rest)[1] == h[1] && (h + rest)[2] == h[2] && (h + rest)[3] == h[3];
  }

  /** Unlike RFC 8259 says, an escaped zero stands for nothing, and so does a surrogate without its other half. */
  lemma LostEscapes(h: Text, rest: Text)
    requires |h| == 4 && HasHex4(h)
    requires ReadHex4(h) == 0 || IsLow(ReadHex4(h)) || (IsHigh(ReadHex4(h)) && !(|rest| >= 2 && rest[0] == BACKSLASH && rest[1] == LOWER_U))
    ensures Unescape([BACKSLASH, LOWER_U] + (h + rest)) == Prepend([], Unescape(rest))
  {
    hide Utf8, ReadHex4, HexValue;
    var t := [BACKSLASH, LOWER_U] + (h + rest);
    HexInFront(h, rest);
    assert t[2..] == h + rest && (h + rest)[4..] == rest;
  }

  /** A string of any spelling is read as what it stands for. */
  lemma {:induction false} StringIsRead(ls: seq<Letter>, rest: Text)
    requires GoodLetters(ls)
    ensures Unescape(SpellAll(ls, rest)) == Ok(SenseAll(ls), rest)
  {
    hide Spell, Sense, GoodLetter;
    if ls == [] {
      assert ([QUOTE] + rest)[1..] == rest;
      QuoteEnds(SpellAll(ls, rest));
    } else {
      LetterIsRead(ls[0], SpellAll(ls[1..], rest));
      StringIsRead(ls[1..], rest);
    }
  }

  lemma QuoteEnds(t: Text)
    requires StartsWith(t, QUOTE)
    ensures Unescape(t) == Ok([], t[1..])
  {
  }

  // ----- numbers -----

  ghost predicate AreDigits(d: Text) { forall i :: 0 <= i < |d| ==> IsDigit(d[i]) }

  function Pow10(n: nat): nat { if n == 0 then 1 else 10 * Pow10(n - 1) }

  /** Each digit by its place. */
  function PlaceValue(d: Text): int
    decreases |d|
  {
    if d == [] then 0 else (d[0] - ZERO) * Pow10(|d| - 1) + PlaceValue(d[1..])
  }

  /** The exponent: its letter, its sign if there is one, its digits; or nothing. */
  datatype Exponent = NoExponent | Exponent(letter: int, sign: Text, digits: Text)

  datatype Numeral = Numeral(negative: bool, whole: Text, fraction: Text, exponent: Exponent)

  ghost predicate GoodNumeral(n: Numeral) {
    && AreDigits(n.whole) && (n.whole == [ZERO] || (n.whole != [] && n.whole[0] != ZERO))
    && AreDigits(n.fraction)
    && (n.exponent.Exponent? ==>
          && (n.exponent.letter == LOWER_E || n.exponent.letter == UPPER_E)
          && (n.exponent.sign == [] || n.exponent.sign == [PLUS] || n.exponent.sign == [MINUS])
          && AreDigits(n.exponent.digits) && n.exponent.digits != [])
  }

  function WriteExponent(e: Exponent, rest: Text): Text {
    if e.NoExponent? then rest else [e.letter] + (e.sign + (e.digits + rest))
  }

  function WriteFraction(n: Numeral, rest: Text): Text {
    var r := WriteExponent(n.exponent, rest);
    if n.fraction == [] then r else [DOT] + (n.fraction + r)
  }

  function WriteNumeral(n: Numeral, rest: Text): Text {
    var t := n.whole + WriteFraction(n, rest);
    if n.negative then [MINUS] + t else t
  }

  function ExponentValue(e: Exponent): int {
    if e.NoExponent? then 0 else if e.sign == [MINUS] then -PlaceValue(e.digits) else PlaceValue(e.digits)
  }

  /** All digits as one number, and the power of ten it is to be multiplied by. */
  function NumeralMeaning(n: Numeral): Json {
    var m := PlaceValue(n.whole + n.fraction);
    Number(if n.negative then -m else m, ExponentValue(n.exponent) - |n.fraction|)
  }

  predicate NoDigit(t: Text) { t == [] || !IsDigit(t[0]) }

  /** The digits d written after the number n. */
  function Appended(n: int, d: Text): int { n * Pow10(|d|) + PlaceValue(d) }

  /** The digit loop reads digits by their places. */
  lemma {:induction false} DigitsAreRead(n: int, d: Text, rest: Text)
    requires AreDigits(d) && NoDigit(rest)
    ensures ReadDigits(n, d + rest) == (Appended(n, d), rest)
    decreases |d|
  {
    if d == [] {
      assert d + rest == rest;
    } else {
      assert (d + rest)[1..] == d[1..] + rest;
      DigitsAreRead(n * 10 + (d[0] - ZERO), d[1..], rest);
      Shift(n, d[0] - ZERO, Pow10(|d| - 1));
    }
  }

  lemma Shift(n: int, d: int, p: int)
    ensures (n * 10 + d) * p == n * (10 * p) + d * p
  {
  }

  lemma {:induction false} PlacesOfConcat(a: Text, b: Text)
    ensures PlaceValue(a + b) == Appended(PlaceValue(a), b)
    decreases |a|
  {
    if a == [] {
      assert a + b == b;
    } else {
      assert (a + b)[1..] == a[1..] + b;
      PlacesOfConcat(a[1..], b);
      PowersMultiply(|a| - 1, |b|);
      Spread(a[0] - ZERO, Pow10(|a| - 1), PlaceValue(a[1..]), Pow10(|b|));
    }
  }

  lemma Spread(d: int, p: int, v: int, q: int)
    ensures (d * p + v) * q == d * (p * q) + v * q
  {
  }

  lemma TenTimes(p: int, q: int)
    ensures (10 * p) * q == 10 * (p * q)
  {
  }

  lemma {:induction false} PowersMultiply(m: nat, n: nat)
    ensures Pow10(m) * Pow10(n) == Pow10(m + n)
  {
    if m > 0 {
      PowersMultiply(m - 1, n);
      TenTimes(Pow10(m - 1), Pow10(n));
    }
  }

  lemma WholeIsRead(d: Text, rest: Text)
    requires AreDigits(d) && (d == [ZERO] || (d != [] && d[0] != ZERO)) && NoDigit(rest)
    ensures ReadInteger(d + rest) == (PlaceValue(d), rest)
  {
    hide ReadDigits;
    var t := d + rest;
    assert t[0] == d[0];
    if d == [ZERO] {
      assert t[1..] == rest && d[1..] == [];
    } else {
      hide PlaceValue, Pow10;
      DigitsAreRead(0, d, rest);
    }
  }

  lemma FractionIsRead(n: int, d: Text, rest: Text)
    requires AreDigits(d) && d != [] && NoDigit(rest)
    ensures ReadFraction(n, [DOT] + (d + rest)) == (Appended(n, d), -|d|, rest)
  {
    hide ReadDigits, Appended, ReadFraction;
    DigitsAreRead(n, d, rest);
    assert (d + rest)[0] == d[0];
    FractionStep(n, d + rest, Appended(n, d), rest);
  }

  lemma FractionStep(n: int, u: Text, m: int, rest: Text)
    requires u != [] && IsDigit(u[0]) && ReadDigits(n, u) == (m, rest)
    ensures ReadFraction(n, [DOT] + u) == (m, |rest| - |u|, rest)
  {
    hide ReadDigits;
    assert ([DOT] + u)[1..] == u;
  }

  lemma ExponentIsRead(e: Exponent, rest: Text)
    requires GoodNumeral(Numeral(false, [ZERO], [], e)) && EndsNumber(rest)
    ensures ReadExponent(WriteExponent(e, rest)) == (ExponentValue(e), rest)
  {
    hide ReadDigits, PlaceValue, ReadExponent, Appended, Pow10;
    if e.Exponent? {
      DigitsAreRead(0, e.digits, rest);
      assert Appended(0, e.digits) == PlaceValue(e.digits) by { AppendedToNothing(e.digits); }
      assert (e.digits + rest)[0] == e.digits[0];
      if e.sign == [] {
        UnsignedExponent(e.letter, e.digits + rest);
        assert e.sign + (e.digits + rest) == e.digits + rest;
      } else {
        SignedExponent(e.letter, e.sign[0], e.digits + rest);
      }
    } else {
      NoExponentIsRead(rest);
    }
  }

  lemma AppendedToNothing(d: Text)
    ensures Appended(0, d) == PlaceValue(d)
  {
  }

  lemma NoExponentIsRead(rest: Text)
    requires EndsNumber(rest)
    ensures ReadExponent(rest) == (0, rest)
  {
  }

  lemma UnsignedExponent(letter: int, u: Text)
    requires (letter == LOWER_E || letter == UPPER_E) && u != [] && IsDigit(u[0])
    ensures ReadExponent([letter] + u) == ReadDigits(0, u)
  {
    hide ReadDigits;
    assert ([letter] + u)[1..] == u;
  }

  lemma SignedExponent(letter: int, sign: int, u: Text)
    requires (letter == LOWER_E || letter == UPPER_E) && (sign == PLUS || sign == MINUS)
    ensures var (v, rest) := ReadDigits(0, u);
            ReadExponent([letter] + ([sign] + u)) == (if sign == MINUS then -v else v, rest)
  {
    hide ReadDigits;
    assert ([letter] + ([sign] + u))[1..] == [sign] + u && ([sign] + u)[1..] == u;
  }

  /** A number of any form is read: all its digits, and the power of ten. */
  lemma NumeralIsRead(n: Numeral, rest: Text)
    requires GoodNumeral(n) && EndsNumber(rest)
    ensures var t := WriteNumeral(n, rest);
            t != [] && (t[0] == MINUS || IsDigit(t[0])) && ParseNumber(t) == Ok(NumeralMeaning(n), rest)
  {
    hide ReadInteger, ReadFraction, ReadExponent, PlaceValue, WriteExponent, Appended;
    var t := WriteNumeral(n, rest);
    var t2 := WriteFraction(n, rest);
    var t3 := WriteExponent(n.exponent, rest);
    ExponentStart(n.exponent, rest);
    ExponentIsRead(n.exponent, rest);
    assert (n.whole + t2)[0] == n.whole[0];
    WholeIsRead(n.whole, t2);
    PlacesOfConcat(n.whole, n.fraction);
    if n.fraction == [] {
      NoFraction(PlaceValue(n.whole), t3);
      assert n.whole + n.fraction == n.whole;
    } else {
      FractionIsRead(PlaceValue(n.whole), n.fraction, t3);
    }
    if n.negative {
      assert t[1..] == n.whole + t2;
    }
  }

  lemma ExponentStart(e: Exponent, rest: Text)
    requires GoodNumeral(Numeral(false, [ZERO], [], e)) && EndsNumber(rest)
    ensures var t := WriteExponent(e, rest); NoDigit(t) && (t == [] || t[0] != DOT)
  {
  }

  lemma NoFraction(n: int, t: Text)
    requires t == [] || t[0] != DOT
    ensures ReadFraction(n, t) == (n, 0, t)
  {
  }

  // ----- values -----

  /** A value as it is spelled. Blanks stand before and after each item and around each colon. */
  datatype Tree =
    | TNull
    | TFalse
    | TTrue
    | TNumber(numeral: Numeral)
    | TString(letters: seq<Letter>)
    | TArray(gap: Text, items: TItems)
    | TObject(gap: Text, members: TMembers)

  datatype TItems = TNil | TCons(before: Text, head: Tree, after: Text, tail: TItems)

  datatype TMembers =
    | TNone
    | TMember(before: Text, name: seq<Letter>, afterName: Text, beforeValue: Text, value: Tree, after: Text, rest: TMembers)

  ghost predicate IsBlank(w: Text) { forall i :: 0 <= i < |w| ==> w[i] <= SPACE }

  ghost predicate Good(c: Tree) {
    match c
    case TNull => true
    case TFalse => true
    case TTrue => true
    case TNumber(n) => GoodNumeral(n)
    case TString(ls) => GoodLetters(ls)
    case TArray(gap, items) => IsBlank(gap) && GoodItems(items)
    case TObject(gap, members) => IsBlank(gap) && GoodMembers(members)
  }

  ghost predicate GoodItems(items: TItems) {
    items.TNil? || (IsBlank(items.before) && Good(items.head) && IsBlank(items.after) && GoodItems(items.tail))
  }

  ghost predicate GoodMembers(ms: TMembers) {
    ms.TNone?
    || (IsBlank(ms.before) && GoodLetters(ms.name) && IsBlank(ms.afterName) && IsBlank(ms.beforeValue)
        && Good(ms.value) && IsBlank(ms.after) && GoodMembers(ms.rest))
  }

  /** The text of a value, in front of rest. */
  function Write(c: Tree, rest: Text): Text {
    match c
    case TNull => NULL_TEXT + rest
    case TFalse => FALSE_TEXT + rest
    case TTrue => TRUE_TEXT + rest
    case TNumber(n) => WriteNumeral(n, rest)
    case TString(ls) => [QUOTE] + SpellAll(ls, rest)
    case TArray(gap, items) =>
      [OPEN_BRACKET] + (if items.TNil? then gap + ([CLOSE_BRACKET] + rest) else WriteItems(items, rest))
    case TObject(gap, members) =>
      [OPEN_BRACE] + (if members.TNone? then gap + ([CLOSE_BRACE] + rest) else WriteMembers(members, rest))
  }

  function WriteItems(items: TItems, rest: Text): Text
    requires items.TCons?
  {
    items.before + Write(items.head, items.after +
      (if items.tail.TNil? then [CLOSE_BRACKET] + rest else [COMMA] + WriteItems(items.tail, rest)))
  }

  function WriteMembers(ms: TMembers, rest: Text): Text
    requires ms.TMember?
  {
    ms.before + ([QUOTE] + SpellAll(ms.name, ms.afterName + ([COLON] + (ms.beforeValue + Write(ms.value, ms.after +
      (if ms.rest.TNone? then [CLOSE_BRACE] + rest else [COMMA] + WriteMembers(ms.rest, rest)))))))
  }

  function Meaning(c: Tree): Json
    requires Good(c)
  {
    match c
    case TNull => Null
    case TFalse => False
    case TTrue => True
    case TNumber(n) => NumeralMeaning(n)
    case TString(ls) => Str(SenseAll(ls))
    case TArray(_, items) => Arr(ItemsMeaning(items))
    case TObject(_, members) => Obj(MembersMeaning(members))
  }

  function ItemsMeaning(items: TItems): Items
    requires GoodItems(items)
  {
    if items.TNil? then Nil else Cons(Meaning(items.head), ItemsMeaning(items.tail))
  }

  function MembersMeaning(ms: TMembers): Members
    requires GoodMembers(ms)
  {
    if ms.TNone? then MNil else MCons(SenseAll(ms.name), Meaning(ms.value), MembersMeaning(ms.rest))
  }

  lemma ValueStart(c: Tree, rest: Text)
    requires Good(c)
    ensures StartsValue(Write(c, rest))
  {
    hide WriteItems, WriteMembers, SpellAll;
    if c.TNumber? {
      assert (c.numeral.whole + WriteFraction(c.numeral, rest))[0] == c.numeral.whole[0];
    }
  }

  lemma BlankEndsNumber(w: Text, t: Text)
    requires IsBlank(w) && t != [] && (t[0] == COMMA || t[0] == CLOSE_BRACKET || t[0] == CLOSE_BRACE)
    ensures EndsNumber(w + t) && Skip(w + t) == t
  {
    SkipPrinted(w, t);
    assert w != [] ==> (w + t)[0] == w[0];
    assert w == [] ==> w + t == t;
  }

  /**
   Every value of the grammar, with any spacing and spelling, in front of any text that does not
   continue a number, is read as what it means, and the parser stops right after it.
   */
  lemma {:induction false} ValueIsRead(c: Tree, rest: Text)
    requires Good(c) && EndsNumber(rest)
    ensures ParseValue(Write(c, rest)) == Ok(Meaning(c), rest)
    decreases c, 0
  {
    match c
    case TNull => LiteralRoundTrip(Null, 0, false, rest);
    case TFalse => LiteralRoundTrip(False, 0, false, rest);
    case TTrue => LiteralRoundTrip(True, 0, false, rest);
    case TNumber(n) => NumberIsRead(n, rest);
    case TString(ls) => QuotedIsRead(ls, rest);
    case TArray(gap, items) => ArrayIsRead(gap, items, rest);
    case TObject(gap, members) => ObjectIsRead(gap, members, rest);
  }

  lemma NumberIsRead(n: Numeral, rest: Text)
    requires GoodNumeral(n) && EndsNumber(rest)
    ensures ParseValue(WriteNumeral(n, rest)) == Ok(NumeralMeaning(n), rest)
  {
    hide ParseNumber, WriteNumeral, NumeralMeaning, HasPrefix, ParseArray, ParseObject;
    NumeralIsRead(n, rest);
    NoLiteral(WriteNumeral(n, rest));
  }

  lemma QuotedIsRead(ls: seq<Letter>, rest: Text)
    requires GoodLetters(ls)
    ensures ParseString([QUOTE] + SpellAll(ls, rest)) == Ok(SenseAll(ls), rest)
    ensures ParseValue([QUOTE] + SpellAll(ls, rest)) == Ok(Str(SenseAll(ls)), rest)
  {
    hide Unescape, SpellAll, SenseAll, ParseNumber, HasPrefix, ParseArray, ParseObject;
    var t := [QUOTE] + SpellAll(ls, rest);
    StringIsRead(ls, rest);
    assert t[1..] == SpellAll(ls, rest);
    NoLiteral(t);
  }

  lemma {:induction false} ArrayIsRead(gap: Text, items: TItems, rest: Text)
    requires IsBlank(gap) && GoodItems(items)
    ensures ParseValue(Write(TArray(gap, items), rest)) == Ok(Arr(ItemsMeaning(items)), rest)
    decreases items, 2
  {
    hide ParseValue, ParseItems, WriteItems, Skip;
    var t := Write(TArray(gap, items), rest);
    ArrayValue(t);
    if items.TNil? {
      var after := [CLOSE_BRACKET] + rest;
      assert t[1..] == gap + after && after[1..] == rest;
      SkipPrinted(gap, after);
    } else {
      assert t[1..] == WriteItems(items, rest);
      ItemsAreRead(items, rest);
      ItemsBegin(items, rest);
    }
  }

  /** Blanks in front of the first item are skipped twice, and it is not a closing bracket. */
  lemma ItemsBegin(items: TItems, rest: Text)
    requires items.TCons? && GoodItems(items)
    ensures var t := WriteItems(items, rest);
            ParseItems(Skip(t)) == ParseItems(t) && !StartsWith(Skip(t), CLOSE_BRACKET)
  {
    hide ParseValue, Write;
    var k := items.after + (if items.tail.TNil? then [CLOSE_BRACKET] + rest else [COMMA] + WriteItems(items.tail, rest));
    ValueStart(items.head, k);
    SkipPrinted(items.before, Write(items.head, k));
  }

  lemma {:induction false} ItemsAreRead(items: TItems, rest: Text)
    requires items.TCons? && GoodItems(items)
    ensures ParseItems(WriteItems(items, rest)) == Ok(ItemsMeaning(items), rest)
    decreases items, 1
  {
    hide ParseValue, Write, Meaning, Skip;
    var next := if items.tail.TNil? then [CLOSE_BRACKET] + rest else [COMMA] + WriteItems(items.tail, rest);
    var k := items.after + next;
    BlankEndsNumber(items.after, next);
    ValueIsRead(items.head, k);
    ValueStart(items.head, k);
    SkipPrinted(items.before, Write(items.head, k));
    if items.tail.TNil? {
      assert next[1..] == rest;
    } else {
      assert next[1..] == WriteItems(items.tail, rest);
      ItemsAreRead(items.tail, rest);
    }
  }

  lemma {:induction false} ObjectIsRead(gap: Text, members: TMembers, rest: Text)
    requires IsBlank(gap) && GoodMembers(members)
    ensures ParseValue(Write(TObject(gap, members), rest)) == Ok(Obj(MembersMeaning(members)), rest)
    decreases members, 2
  {
    hide ParseValue, ParseMembers, WriteMembers, Skip;
    var t := Write(TObject(gap, members), rest);
    ObjectValue(t);
    if members.TNone? {
      var after := [CLOSE_BRACE] + rest;
      assert t[1..] == gap + after && after[1..] == rest;
      SkipPrinted(gap, after);
    } else {
      assert t[1..] == WriteMembers(members, rest);
      MembersAreRead(members, rest);
      assert [] + WriteMembers(members, rest) == WriteMembers(members, rest);
      MembersAfterBlanks([], WriteMembers(members, rest));
    }
  }

  lemma {:induction false} MembersAreRead(ms: TMembers, rest: Text)
    requires ms.TMember? && GoodMembers(ms)
    ensures ParseMembers(WriteMembers(ms, rest)) == Ok(MembersMeaning(ms), rest)
    decreases ms, 1
  {
    hide ParseMember, Write, Meaning, Skip, SpellAll, SenseAll;
    var next := if ms.rest.TNone? then [CLOSE_BRACE] + rest else [COMMA] + WriteMembers(ms.rest, rest);
    BlankEndsNumber(ms.after, next);
    MemberIsRead(ms, rest, next);
    if ms.rest.TNone? {
      assert next[1..] == rest;
    } else {
      assert next[1..] == WriteMembers(ms.rest, rest);
      MembersAreRead(ms.rest, rest);
    }
  }

  /** Name, colon and value of one member. */
  lemma {:induction false} MemberIsRead(ms: TMembers, rest: Text, next: Text)
    requires ms.TMember? && GoodMembers(ms) && EndsNumber(ms.after + next)
    requires next == if ms.rest.TNone? then [CLOSE_BRACE] + rest else [COMMA] + WriteMembers(ms.rest, rest)
    ensures ParseMember(WriteMembers(ms, rest)) == Ok((SenseAll(ms.name), Meaning(ms.value)), ms.after + next)
    decreases ms, 0
  {
    hide ParseValue, ParseString, Write, Meaning, Skip, SpellAll, SenseAll;
    var v := Write(ms.value, ms.after + next);
    var colon := [COLON] + (ms.beforeValue + v);
    var quoted := [QUOTE] + SpellAll(ms.name, ms.afterName + colon);
    SkipPrinted(ms.before, quoted);
    QuotedIsRead(ms.name, ms.afterName + colon);
    SkipPrinted(ms.afterName, colon);
    assert colon[1..] == ms.beforeValue + v;
    ValueStart(ms.value, ms.after + next);
    SkipPrinted(ms.beforeValue, v);
    ValueIsRead(ms.value, ms.after + next);
  }

  /** A whole text: a value with blanks around it, which the flag may require to be all there is. */
  lemma TextIsRead(c: Tree, before: Text, after: Text)
    requires Good(c) && IsBlank(before) && IsBlank(after)
    ensures ParseText(before + Write(c, after), true) == Ok(Meaning(c), [])
    ensures ParseText(before + Write(c, after), false) == Ok(Meaning(c), after)
  {
    hide ParseValue, Write, Meaning;
    ValueIsRead(c, after);
    ValueStart(c, after);
    SkipPrinted(before, Write(c, after));
    assert after + [] == after;
    SkipBlanks(after, []);
  }
}
