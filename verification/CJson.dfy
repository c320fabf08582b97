/**
 cJSON: the parser and the two printers, over texts of bytes without the terminating NUL.
 */
module CJson {

  // This module defines what each function reads and writes; the children of an array or object are
  // the linked list the source keeps.

  type Text = seq<int>

  const TAB: int := 9
  const NEWLINE: int := 10
  const SPACE: int := 32
  const QUOTE: int := 34
  const PLUS: int := 43
  const COMMA: int := 44
  const MINUS: int := 45
  const DOT: int := 46
  const ZERO: int := 48
  const NINE: int := 57
  const COLON: int := 58
  const UPPER_E: int := 69
  const OPEN_BRACKET: int := 91
  const BACKSLASH: int := 92
  const CLOSE_BRACKET: int := 93
  const LOWER_A: int := 97
  const LOWER_E: int := 101
  const LOWER_U: int := 117
  const OPEN_BRACE: int := 123
  const CLOSE_BRACE: int := 125

  const NULL_TEXT: Text := [110, 117, 108, 108]
  const FALSE_TEXT: Text := [102, 97, 108, 115, 101]
  const TRUE_TEXT: Text := [116, 114, 117, 101]

  /** A number is mantissa * 10^exponent, as the digits spell it. */
  datatype Json =
    | Null | False | True
    | Number(mantissa: int, exponent: int)
    | Str(s: Text)
    | Arr(items: Items)
    | Obj(members: Members)

  datatype Items = Nil | Cons(head: Json, tail: Items)

  datatype Members = MNil | MCons(name: Text, value: Json, rest: Members)

  /**
   What a parsing function returns: nothing, or a value and the text after it. Stray stands for
   a string with a malformed escape, of which the text alone does not say what the code makes.
   */
  datatype Parsed<T> = Fail | Stray | Ok(value: T, rest: Text)

  /** A result that is none, for another kind of value. */
  function NoneOf<T, U>(p: Parsed<T>): (r: Parsed<U>)
    requires !p.Ok?
    ensures !r.Ok? && (r.Stray? <==> p.Stray?)
  {
    if p.Stray? then Stray else Fail
  }

  // ----- characters -----

  predicate IsByte(c: int) { 1 <= c < 256 }

  ghost predicate IsText(t: Text) { forall i :: 0 <= i < |t| ==> IsByte(t[i]) }

  predicate StartsWith(t: Text, c: int) { t != [] && t[0] == c }

  predicate IsDigit(c: int) { ZERO <= c <= NINE }

  /** skip: whitespace is every byte up to and including the space. */
  function Skip(t: Text): (r: Text)
    ensures |r| <= |t|
    ensures r != [] ==> r[0] > SPACE
  {
    if t != [] && t[0] <= SPACE then Skip(t[1..]) else t
  }

  lemma {:induction false} SkipBlanks(w: Text, t: Text)
    requires forall i :: 0 <= i < |w| ==> w[i] <= SPACE
    requires t != [] ==> t[0] > SPACE
    ensures Skip(w + t) == t
  {
    if w == [] {
      assert w + t == t;
    } else {
      assert (w + t)[1..] == w[1..] + t;
      SkipBlanks(w[1..], t);
    }
  }

  // ----- strings -----

  function EscapeByte(c: int): Text {
    if c > 31 && c != QUOTE && c != BACKSLASH then [c]
    else if c == BACKSLASH then [BACKSLASH, BACKSLASH]
    else if c == QUOTE then [BACKSLASH, QUOTE]
    else if c == 8 then [BACKSLASH, 98]
    else if c == 12 then [BACKSLASH, 102]
    else if c == NEWLINE then [BACKSLASH, 110]
    else if c == 13 then [BACKSLASH, 114]
    else if c == TAB then [BACKSLASH, 116]
    else [BACKSLASH, LOWER_U] + Hex4(c)
  }

  /** The four lower-case hexadecimal digits of sprintf("%04x"). */
  function Hex4(c: int): Text {
    [HexDigit(c / 4096 % 16), HexDigit(c / 256 % 16), HexDigit(c / 16 % 16), HexDigit(c % 16)]
  }

  function HexDigit(d: int): int { if d < 10 then ZERO + d else LOWER_A + d - 10 }

  /** Value of a hexadecimal digit of either case, or -1. */
  function HexValue(c: int): int {
    if ZERO <= c <= NINE then c - ZERO
    else if LOWER_A <= c < LOWER_A + 6 then c - LOWER_A + 10
    else if 65 <= c < 71 then c - 65 + 10
    else -1
  }

  predicate HasHex4(t: Text) {
    |t| >= 4 && HexValue(t[0]) >= 0 && HexValue(t[1]) >= 0 && HexValue(t[2]) >= 0 && HexValue(t[3]) >= 0
  }

  function ReadHex4(t: Text): int
    requires HasHex4(t)
  {
    ((HexValue(t[0]) * 16 + HexValue(t[1])) * 16 + HexValue(t[2])) * 16 + HexValue(t[3])
  }

  function Escape(s: Text): Text {
    if s == [] then [] else EscapeByte(s[0]) + Escape(s[1..])
  }

  /** print_string_ptr. */
  function PrintString(s: Text): Text { [QUOTE] + Escape(s) + [QUOTE] }

  /** UTF-8 of a code point, by the code's fall-through switch. */
  function Utf8(uc: int): (r: Text)
    ensures 1 <= |r| <= 4
  {
    if uc < 0x80 then [uc]
    else if uc < 0x800 then [0xC0 + uc / 64, 0x80 + uc % 64]
    else if uc < 0x10000 then [0xE0 + uc / 4096, 0x80 + uc / 64 % 64, 0x80 + uc % 64]
    else [0xF0 + uc / 262144 % 16, 0x80 + uc / 4096 % 64, 0x80 + uc / 64 % 64, 0x80 + uc % 64]
  }

  /**
   A \\u escape, after the u: the bytes it stands for and how many characters it
   takes. Unpaired surrogates and zero stand for nothing. Without four hexadecimal
   digits the escape is malformed.
   */
  function UnicodeEscape(t: Text): (r: Parsed<Text>)
    ensures !r.Fail?
    ensures r.Ok? ==> |r.rest| < |t|
  {
    if !HasHex4(t) then Stray
    else
      var uc := ReadHex4(t);
      var after := t[4..];
      if 0xDC00 <= uc <= 0xDFFF || uc == 0 then Ok([], after)
      else if 0xD800 <= uc <= 0xDBFF then
        if !(|after| >= 2 && after[0] == BACKSLASH && after[1] == LOWER_U) then Ok([], after)
        else if !HasHex4(after[2..]) then Stray
        else
          var uc2 := ReadHex4(after[2..]);
          if uc2 < 0xDC00 || uc2 > 0xDFFF then Ok([], after[6..])
          else Ok(Utf8(0x10000 + (uc - 0xD800) * 1024 + (uc2 - 0xDC00)), after[6..])
      else Ok(Utf8(uc), after)
  }

  /** What the escape letter c stands for, when it is not u. */
  function EscapedByte(c: int): int {
    if c == 98 then 8
    else if c == 102 then 12
    else if c == 110 then NEWLINE
    else if c == 114 then 13
    else if c == 116 then TAB
    else c
  }

  /** parse_string after the opening quote; a missing closing quote is accepted at the end of the text. */
  function Unescape(t: Text): (r: Parsed<Text>)
    ensures !r.Fail? && (r.Ok? ==> |r.rest| <= |t|)
  {
    if t == [] then Ok([], [])
    else if t[0] == QUOTE then Ok([], t[1..])
    else if t[0] != BACKSLASH then Prepend([t[0]], Unescape(t[1..]))
    else if |t| < 2 then Stray
    else if t[1] != LOWER_U then Prepend([EscapedByte(t[1])], Unescape(t[2..]))
    else
      var u := UnicodeEscape(t[2..]);
      if !u.Ok? then Stray else Prepend(u.value, Unescape(u.rest))
  }

  function Prepend(a: Text, p: Parsed<Text>): Parsed<Text> {
    if !p.Ok? then p else Ok(a + p.value, p.rest)
  }

  /** parse_string. */
  function ParseString(t: Text): (r: Parsed<Text>)
    ensures r.Ok? ==> |r.rest| < |t|
  {
    if StartsWith(t, QUOTE) then Unescape(t[1..]) else Fail
  }

  lemma HexDigitValue(d: int)
    requires 0 <= d < 16
    ensures HexValue(HexDigit(d)) == d
  {
  }

  /** A control character written as \\u00xy is read back. */
  lemma ControlEscape(c: int, rest: Text)
    requires 1 <= c < 32
    ensures UnicodeEscape(Hex4(c) + rest) == Ok([c], rest)
  {
    HexDigitValue(0);
    HexDigitValue(c / 16);
    HexDigitValue(c % 16);
    var t := Hex4(c) + rest;
    assert t[0] == HexDigit(0) && t[1] == HexDigit(0) && t[2] == HexDigit(c / 16) && t[3] == HexDigit(c % 16);
    assert ReadHex4(t) == c;
    assert t[4..] == rest;
  }

  /** The escape of one byte, read back in front of anything. */
  lemma EscapeByteRoundTrip(c: int, tail: Text)
    requires IsByte(c)
    ensures Unescape(EscapeByte(c) + tail) == Prepend([c], Unescape(tail))
  {
    var t := EscapeByte(c) + tail;
    if c > 31 && c != QUOTE && c != BACKSLASH {
      assert t[1..] == tail;
    } else if c == BACKSLASH || c == QUOTE || c == 8 || c == 12 || c == NEWLINE || c == 13 || c == TAB {
      assert t[0] == BACKSLASH && t[2..] == tail;
    } else {
      ControlEscape(c, tail);
      assert t[0] == BACKSLASH && t[1] == LOWER_U && t[2..] == Hex4(c) + tail;
    }
  }

  lemma {:induction false} EscapeRoundTrip(s: Text, rest: Text)
    requires IsText(s)
    ensures Unescape(Escape(s) + [QUOTE] + rest) == Ok(s, rest)
  {
    hide EscapeByte;
    if s == [] {
      assert Escape(s) + [QUOTE] + rest == [QUOTE] + rest;
      assert ([QUOTE] + rest)[1..] == rest;
    } else {
      var tail := Escape(s[1..]) + [QUOTE] + rest;
      EscapeRoundTrip(s[1..], rest);
      assert IsByte(s[0]);
      EscapeByteRoundTrip(s[0], tail);
      assert Escape(s) + [QUOTE] + rest == EscapeByte(s[0]) + tail;
      assert [s[0]] + s[1..] == s;
    }
  }

  /** A printed string is read back, whatever follows it. */
  lemma StringRoundTrip(s: Text, rest: Text)
    requires IsText(s)
    ensures ParseString(PrintString(s) + rest) == Ok(s, rest)
  {
    hide Escape, Unescape;
    EscapeRoundTrip(s, rest);
    assert (PrintString(s) + rest)[1..] == Escape(s) + [QUOTE] + rest;
  }

  // ----- numbers -----

  /** The digit loops of parse_number: n = n * 10 + digit while there are digits. */
  function ReadDigits(n: int, t: Text): (r: (int, Text))
    ensures |r.1| <= |t|
    ensures t != [] && IsDigit(t[0]) ==> |r.1| < |t|
    decreases |t|
  {
    if t != [] && IsDigit(t[0]) then ReadDigits(n * 10 + (t[0] - ZERO), t[1..]) else (n, t)
  }

  /** The integer part: an optional single zero, then digits if the first is not zero. */
  function ReadInteger(t: Text): (r: (int, Text))
    ensures |r.1| <= |t|
    ensures t != [] && IsDigit(t[0]) ==> |r.1| < |t|
  {
    var t1 := if StartsWith(t, ZERO) then t[1..] else t;
    if t1 != [] && ZERO < t1[0] <= NINE then ReadDigits(0, t1) else (0, t1)
  }

  /** The fraction: the number with the digits appended, the scale and the rest. */
  function ReadFraction(n: int, t: Text): (r: (int, int, Text))
    ensures |r.2| <= |t|
  {
    if |t| >= 2 && t[0] == DOT && IsDigit(t[1]) then
      var (m, rest) := ReadDigits(n, t[1..]);
      (m, |rest| - (|t| - 1), rest)
    else (n, 0, t)
  }

  /** The exponent and the rest. */
  function ReadExponent(t: Text): (r: (int, Text))
    ensures |r.1| <= |t|
  {
    if t != [] && (t[0] == LOWER_E || t[0] == UPPER_E) then
      var t1 := t[1..];
      if StartsWith(t1, PLUS) then ReadDigits(0, t1[1..])
      else if StartsWith(t1, MINUS) then
        var (e, rest) := ReadDigits(0, t1[1..]);
        (-e, rest)
      else ReadDigits(0, t1)
    else (0, t)
  }

  /** parse_number, called at a digit or a minus sign. */
  function ParseNumber(t: Text): (r: Parsed<Json>)
    requires t != [] && (t[0] == MINUS || IsDigit(t[0]))
    ensures r.Ok? && |r.rest| < |t|
  {
    var negative := t[0] == MINUS;
    var t1 := if negative then t[1..] else t;
    var (n, t2) := ReadInteger(t1);
    var (m, scale, t3) := ReadFraction(n, t2);
    var (e, rest) := ReadExponent(t3);
    Ok(Number(if negative then -m else m, scale + e), rest)
  }

  /** Decimal digits of a natural number. */
  function Decimal(n: nat): (t: Text)
    ensures |t| >= 1
  {
    if n < 10 then [ZERO + n] else Decimal(n / 10) + [ZERO + n % 10]
  }

  /** sprintf("%d"). */
  function PrintInt(n: int): (t: Text)
    ensures |t| >= 1
  {
    if n < 0 then [MINUS] + Decimal(-n) else Decimal(n)
  }

  /** The text cannot be mistaken for more of a number in front of it. */
  predicate EndsNumber(t: Text) {
    t == [] || !(IsDigit(t[0]) || t[0] == DOT || t[0] == LOWER_E || t[0] == UPPER_E)
  }

  /** The digits of n are read as n, whatever was read before them. */
  lemma {:induction false} ReadPrefix(k: int, n: nat, rest: Text) returns (p: int)
    ensures p >= 1 && ReadDigits(k, Decimal(n) + rest) == ReadDigits(k * p + n, rest)
    decreases n
  {
    if n < 10 {
      p := 10;
      assert (Decimal(n) + rest)[1..] == rest;
    } else {
      var last := [ZERO + n % 10];
      var q := ReadPrefix(k, n / 10, last + rest);
      assert Decimal(n) + rest == Decimal(n / 10) + (last + rest);
      assert (last + rest)[1..] == rest;
      p := q * 10;
      FoldDigit(k * q, k, q, n);
    }
  }

  lemma FoldDigit(kq: int, k: int, q: int, n: nat)
    requires kq == k * q
    ensures (kq + n / 10) * 10 + n % 10 == k * (q * 10) + n
  {
    assert kq * 10 == k * (q * 10);
  }

  lemma {:induction false} DecimalStart(n: nat)
    ensures IsDigit(Decimal(n)[0]) && (Decimal(n)[0] == ZERO <==> n == 0)
    ensures n == 0 ==> Decimal(n) == [ZERO]
  {
    if n >= 10 {
      DecimalStart(n / 10);
    }
  }

  lemma IntegerRoundTrip(n: nat, rest: Text)
    requires EndsNumber(rest)
    ensures ReadInteger(Decimal(n) + rest) == (n, rest)
  {
    var t := Decimal(n) + rest;
    DecimalStart(n);
    assert t[0] == Decimal(n)[0];
    if n == 0 {
      assert t[1..] == rest;
    } else {
      var p := ReadPrefix(0, n, rest);
    }
  }

  /** A printed int is read back, if what follows does not continue it. */
  lemma NumberRoundTrip(n: int, rest: Text)
    requires EndsNumber(rest)
    ensures var t := PrintInt(n) + rest;
            (t[0] == MINUS || IsDigit(t[0])) && ParseNumber(t) == Ok(Number(n, 0), rest)
  {
    hide ReadInteger, Decimal;
    var t := PrintInt(n) + rest;
    var m := if n < 0 then -n else n;
    DecimalStart(m);
    IntegerRoundTrip(m, rest);
    if n < 0 {
      assert t[1..] == Decimal(m) + rest;
    }
  }

  // ----- values -----

  predicate HasPrefix(t: Text, p: Text) { |p| <= |t| && t[..|p|] == p }

  /** parse_value. */
  function ParseValue(t: Text): (r: Parsed<Json>)
    ensures r.Ok? ==> |r.rest| < |t|
    decreases |t|, 1
  {
    if HasPrefix(t, NULL_TEXT) then Ok(Null, t[4..])
    else if HasPrefix(t, FALSE_TEXT) then Ok(False, t[5..])
    else if HasPrefix(t, TRUE_TEXT) then Ok(True, t[4..])
    else if t == [] then Fail
    else if t[0] == QUOTE then
      var p := ParseString(t);
      if !p.Ok? then NoneOf(p) else Ok(Str(p.value), p.rest)
    else if t[0] == MINUS || IsDigit(t[0]) then ParseNumber(t)
    else if t[0] == OPEN_BRACKET then ParseArray(t)
    else if t[0] == OPEN_BRACE then ParseObject(t)
    else Fail
  }

  /** parse_array. */
  function ParseArray(t: Text): (r: Parsed<Json>)
    requires StartsWith(t, OPEN_BRACKET)
    ensures r.Ok? ==> |r.rest| < |t|
    decreases |t|, 0
  {
    var t1 := Skip(t[1..]);
    if StartsWith(t1, CLOSE_BRACKET) then Ok(Arr(Nil), t1[1..])
    else
      var p := ParseItems(t1);
      if !p.Ok? then NoneOf(p) else Ok(Arr(p.value), p.rest)
  }

  /** The items of an array from the next one on, up to and including the closing bracket. */
  function ParseItems(t: Text): (r: Parsed<Items>)
    ensures r.Ok? ==> |r.rest| < |t|
    decreases |t|, 2
  {
    var v := ParseValue(Skip(t));
    if !v.Ok? then NoneOf(v)
    else
      var t1 := Skip(v.rest);
      if StartsWith(t1, COMMA) then
        var p := ParseItems(t1[1..]);
        if !p.Ok? then NoneOf(p) else Ok(Cons(v.value, p.value), p.rest)
      else if StartsWith(t1, CLOSE_BRACKET) then Ok(Cons(v.value, Nil), t1[1..])
      else Fail
  }

  /** parse_object. */
  function ParseObject(t: Text): (r: Parsed<Json>)
    requires StartsWith(t, OPEN_BRACE)
    ensures r.Ok? ==> |r.rest| < |t|
    decreases |t|, 0
  {
    var t1 := Skip(t[1..]);
    if StartsWith(t1, CLOSE_BRACE) then Ok(Obj(MNil), t1[1..])
    else
      var p := ParseMembers(t1);
      if !p.Ok? then NoneOf(p) else Ok(Obj(p.value), p.rest)
  }

  /** One member: a string, a colon and a value. */
  function ParseMember(t: Text): (r: Parsed<(Text, Json)>)
    ensures r.Ok? ==> |r.rest| < |t|
    decreases |t|, 2
  {
    var name := ParseString(Skip(t));
    if !name.Ok? then NoneOf(name)
    else
      var t1 := Skip(name.rest);
      if !StartsWith(t1, COLON) then Fail
      else
        var v := ParseValue(Skip(t1[1..]));
        if !v.Ok? then NoneOf(v) else Ok((name.value, v.value), v.rest)
  }

  function ParseMembers(t: Text): (r: Parsed<Members>)
    ensures r.Ok? ==> |r.rest| < |t|
    decreases |t|, 3
  {
    var m := ParseMember(t);
    if !m.Ok? then NoneOf(m)
    else
      var t1 := Skip(m.rest);
      if StartsWith(t1, COMMA) then
        var p := ParseMembers(t1[1..]);
        if !p.Ok? then NoneOf(p) else Ok(MCons(m.value.0, m.value.1, p.value), p.rest)
      else if StartsWith(t1, CLOSE_BRACE) then Ok(MCons(m.value.0, m.value.1, MNil), t1[1..])
      else Fail
  }

  /** cJSON_ParseWithOpts; the last flag asks that only whitespace follows. */
  function ParseText(t: Text, wholeText: bool): (r: Parsed<Json>)
  {
    var p := ParseValue(Skip(t));
    if !p.Ok? then NoneOf(p)
    else if wholeText then (if Skip(p.rest) == [] then Ok(p.value, []) else Fail)
    else p
  }

  function Tabs(n: int): (t: Text)
    ensures |t| == (if n < 0 then 0 else n)
    ensures forall i :: 0 <= i < |t| ==> t[i] == TAB
    decreases if n < 0 then 0 else n
  {
    if n <= 0 then [] else [TAB] + Tabs(n - 1)
  }

  function If(b: bool, t: Text): Text { if b then t else [] }

  /** print_value, for trees whose numbers are ints. */
  function PrintValue(v: Json, depth: int, fmt: bool): Text {
    match v
    case Null => NULL_TEXT
    case False => FALSE_TEXT
    case True => TRUE_TEXT
    case Number(n, _) => PrintInt(n)
    case Str(s) => PrintString(s)
    case Arr(items) => if items.Nil? then [OPEN_BRACKET, CLOSE_BRACKET]
                       else [OPEN_BRACKET] + PrintItems(items, depth + 1, fmt) + [CLOSE_BRACKET]
    case Obj(members) => if members.MNil? then EmptyObject(depth, fmt)
                         else [OPEN_BRACE] + If(fmt, [NEWLINE]) + PrintMembers(members, depth + 1, fmt)
                              + If(fmt, Tabs(depth)) + [CLOSE_BRACE]
  }

  function EmptyObject(depth: int, fmt: bool): Text {
    [OPEN_BRACE] + If(fmt, [NEWLINE] + Tabs(depth - 1)) + [CLOSE_BRACE]
  }

  /** The entries of an array, separated. */
  function PrintItems(items: Items, depth: int, fmt: bool): Text
    requires items.Cons?
  {
    var first := PrintValue(items.head, depth, fmt);
    if items.tail.Nil? then first else first + Separator(fmt) + PrintItems(items.tail, depth, fmt)
  }

  function Separator(fmt: bool): Text { [COMMA] + If(fmt, [SPACE]) }

  /** The lines, or pieces, of an object. */
  function PrintMembers(members: Members, depth: int, fmt: bool): Text
    requires members.MCons?
  {
    var m := PrintMember(members.name, PrintValue(members.value, depth, fmt), depth, fmt);
    if members.rest.MNil? then m + If(fmt, [NEWLINE])
    else m + [COMMA] + If(fmt, [NEWLINE]) + PrintMembers(members.rest, depth, fmt)
  }

  function PrintMember(name: Text, entry: Text, depth: int, fmt: bool): Text {
    If(fmt, Tabs(depth)) + PrintString(name) + [COLON] + If(fmt, [TAB]) + entry
  }

  /** Trees the printers write and the parser can give back: int-range numbers, NUL-free strings. */
  ghost predicate Printable(v: Json) {
    match v
    case Null => true
    case False => true
    case True => true
    case Number(n, e) => e == 0 && -0x8000_0000 <= n < 0x8000_0000
    case Str(s) => IsText(s)
    case Arr(items) => PrintableItems(items)
    case Obj(members) => PrintableMembers(members)
  }

  ghost predicate PrintableItems(items: Items) {
    items.Nil? || (Printable(items.head) && PrintableItems(items.tail))
  }

  ghost predicate PrintableMembers(members: Members) {
    members.MNil? || (IsText(members.name) && Printable(members.value) && PrintableMembers(members.rest))
  }

  // ----- round trip -----

  /** First characters that start a value's text, and nothing else. */
  predicate StartsValue(t: Text) {
    t != [] && t[0] > SPACE && t[0] != CLOSE_BRACKET && t[0] != CLOSE_BRACE && t[0] != COMMA
  }

  lemma PrintedStart(v: Json, depth: int, fmt: bool, rest: Text)
    ensures StartsValue(PrintValue(v, depth, fmt) + rest)
  {
    if v.Number? {
      DecimalStart(if v.mantissa < 0 then -v.mantissa else v.mantissa);
    }
  }

  lemma SkipPrinted(w: Text, t: Text)
    requires forall i :: 0 <= i < |w| ==> w[i] <= SPACE
    requires t != [] && t[0] > SPACE
    ensures Skip(w + t) == t && Skip(t) == t
  {
    SkipBlanks(w, t);
    SkipBlanks([], t);
    assert [] + t == t;
  }

  /**
   Parsing what either printer wrote gives back the tree and stops right after
   it, for every tree, every depth and every following text that does not continue
   a number.
   */
  lemma {:induction false} ValueRoundTrip(v: Json, depth: int, fmt: bool, rest: Text)
    requires Printable(v) && EndsNumber(rest)
    ensures ParseValue(PrintValue(v, depth, fmt) + rest) == Ok(v, rest)
    decreases v, 0
  {
    match v
    case Null => LiteralRoundTrip(v, depth, fmt, rest);
    case False => LiteralRoundTrip(v, depth, fmt, rest);
    case True => LiteralRoundTrip(v, depth, fmt, rest);
    case Number(n, e) => NumberValue(n, rest);
    case Str(s) => StringValue(s, rest);
    case Arr(items) => ArrayRoundTrip(items, depth, fmt, rest);
    case Obj(members) => ObjectRoundTrip(members, depth, fmt, rest);
  }

  lemma LiteralRoundTrip(v: Json, depth: int, fmt: bool, rest: Text)
    requires v.Null? || v.False? || v.True?
    ensures ParseValue(PrintValue(v, depth, fmt) + rest) == Ok(v, rest)
  {
    var p := PrintValue(v, depth, fmt);
    assert (p + rest)[..|p|] == p && (p + rest)[|p|..] == rest;
    assert (p + rest)[0] == p[0];
  }

  lemma NoLiteral(t: Text)
    requires t != [] && t[0] != 110 && t[0] != 102 && t[0] != 116
    ensures !HasPrefix(t, NULL_TEXT) && !HasPrefix(t, FALSE_TEXT) && !HasPrefix(t, TRUE_TEXT)
  {
    assert |t| >= 4 ==> t[..4][0] == t[0];
    assert |t| >= 5 ==> t[..5][0] == t[0];
  }

  lemma NumberValue(n: int, rest: Text)
    requires EndsNumber(rest)
    ensures ParseValue(PrintInt(n) + rest) == Ok(Number(n, 0), rest)
  {
    hide ParseNumber, PrintInt, HasPrefix, ParseArray, ParseObject;
    NumberRoundTrip(n, rest);
    NoLiteral(PrintInt(n) + rest);
  }

  lemma StringValue(s: Text, rest: Text)
    requires IsText(s)
    ensures ParseValue(PrintString(s) + rest) == Ok(Str(s), rest)
  {
    hide ParseString, ParseNumber, HasPrefix, ParseArray, ParseObject, Escape;
    StringRoundTrip(s, rest);
    NoLiteral(PrintString(s) + rest);
  }

  lemma ArrayValue(t: Text)
    requires StartsWith(t, OPEN_BRACKET)
    ensures ParseValue(t) == ParseArray(t)
  {
    hide ParseArray, HasPrefix;
    NoLiteral(t);
  }

  lemma ObjectValue(t: Text)
    requires StartsWith(t, OPEN_BRACE)
    ensures ParseValue(t) == ParseObject(t)
  {
    hide ParseObject, HasPrefix;
    NoLiteral(t);
  }

  lemma {:induction false} ArrayRoundTrip(items: Items, depth: int, fmt: bool, rest: Text)
    requires PrintableItems(items)
    ensures ParseValue(PrintValue(Arr(items), depth, fmt) + rest) == Ok(Arr(items), rest)
    decreases items, 1
  {
    hide ParseValue, ParseItems, PrintItems;
    var t := PrintValue(Arr(items), depth, fmt) + rest;
    ArrayValue(t);
    if items.Nil? {
      assert t[1..] == [CLOSE_BRACKET] + rest;
      SkipPrinted([], t[1..]);
      assert t[1..][1..] == rest;
    } else {
      var body := PrintItems(items, depth + 1, fmt) + [CLOSE_BRACKET] + rest;
      assert t[1..] == body;
      ItemsStart(items, depth + 1, fmt, [CLOSE_BRACKET] + rest);
      assert PrintItems(items, depth + 1, fmt) + ([CLOSE_BRACKET] + rest) == body;
      SkipPrinted([], body);
      ItemsRoundTrip(items, depth + 1, fmt, rest);
    }
  }

  lemma ItemsStart(items: Items, depth: int, fmt: bool, rest: Text)
    requires items.Cons?
    ensures StartsValue(PrintItems(items, depth, fmt) + rest)
  {
    hide PrintValue;
    var first := PrintValue(items.head, depth, fmt);
    PrintedStart(items.head, depth, fmt, []);
    assert first + [] == first;
    assert (PrintItems(items, depth, fmt) + rest)[0] == first[0];
  }

  lemma {:induction false} ItemsRoundTrip(items: Items, depth: int, fmt: bool, rest: Text)
    requires items.Cons? && PrintableItems(items)
    ensures ParseItems(PrintItems(items, depth, fmt) + [CLOSE_BRACKET] + rest) == Ok(items, rest)
    decreases items, 0
  {
    hide ParseValue, PrintValue;
    var first := PrintValue(items.head, depth, fmt);
    var t := PrintItems(items, depth, fmt) + [CLOSE_BRACKET] + rest;
    if items.tail.Nil? {
      var after := [CLOSE_BRACKET] + rest;
      assert t == first + after;
      ItemStep(items.head, depth, fmt, after);
      assert after[1..] == rest;
    } else {
      var more := PrintItems(items.tail, depth, fmt) + [CLOSE_BRACKET] + rest;
      var after := Separator(fmt) + more;
      assert t == first + after;
      ItemStep(items.head, depth, fmt, after);
      ItemsRoundTrip(items.tail, depth, fmt, rest);
      assert after[1..] == If(fmt, [SPACE]) + more;
      ItemsAfterBlanks(If(fmt, [SPACE]), more);
    }
  }

  /** The value at the front of a list of items, up to the next separator or bracket. */
  lemma {:induction false} ItemStep(v: Json, depth: int, fmt: bool, after: Text)
    requires Printable(v) && after != [] && (after[0] == COMMA || after[0] == CLOSE_BRACKET || after[0] == CLOSE_BRACE)
    ensures var t := PrintValue(v, depth, fmt) + after;
            Skip(t) == t && ParseValue(t) == Ok(v, after) && Skip(after) == after
    decreases v, 1
  {
    hide ParseValue, PrintValue;
    var t := PrintValue(v, depth, fmt) + after;
    PrintedStart(v, depth, fmt, after);
    SkipPrinted([], t);
    SkipPrinted([], after);
    ValueRoundTrip(v, depth, fmt, after);
  }

  /** ParseItems skips blanks first. */
  lemma ItemsAfterBlanks(w: Text, t: Text)
    requires forall i :: 0 <= i < |w| ==> w[i] <= SPACE
    ensures ParseItems(w + t) == ParseItems(t)
  {
    SkipThrough(w, t);
  }

  lemma {:induction false} SkipThrough(w: Text, t: Text)
    requires forall i :: 0 <= i < |w| ==> w[i] <= SPACE
    ensures Skip(w + t) == Skip(t)
  {
    if w == [] {
      assert w + t == t;
    } else {
      assert (w + t)[1..] == w[1..] + t;
      SkipThrough(w[1..], t);
    }
  }

  lemma {:induction false} ObjectRoundTrip(members: Members, depth: int, fmt: bool, rest: Text)
    requires PrintableMembers(members)
    ensures ParseValue(PrintValue(Obj(members), depth, fmt) + rest) == Ok(Obj(members), rest)
    decreases members, 1
  {
    hide ParseValue, ParseMembers, PrintMembers, Skip, Tabs;
    var t := PrintValue(Obj(members), depth, fmt) + rest;
    ObjectValue(t);
    if members.MNil? {
      var w := If(fmt, [NEWLINE] + Tabs(depth - 1));
      var after := [CLOSE_BRACE] + rest;
      assert t[1..] == w + after;
      SkipPrinted(w, after);
      assert after[1..] == rest;
    } else {
      var close := If(fmt, Tabs(depth)) + [CLOSE_BRACE] + rest;
      var body := PrintMembers(members, depth + 1, fmt) + close;
      assert t[1..] == If(fmt, [NEWLINE]) + body;
      MembersRoundTrip(members, depth + 1, fmt, If(fmt, Tabs(depth)), rest);
      assert PrintMembers(members, depth + 1, fmt) + If(fmt, Tabs(depth)) + [CLOSE_BRACE] + rest == body;
      MembersAfterBlanks(If(fmt, [NEWLINE]), body);
    }
  }

  /** Leading blanks do not matter to ParseMembers, and the body it sees does not close the object. */
  lemma MembersAfterBlanks(w: Text, t: Text)
    requires forall i :: 0 <= i < |w| ==> w[i] <= SPACE
    requires ParseMembers(t).Ok?
    ensures ParseMembers(Skip(w + t)) == ParseMembers(t) && !StartsWith(Skip(w + t), CLOSE_BRACE)
  {
    SkipThrough(w, t);
    SkipTwice(t);
  }

  lemma SkipTwice(t: Text)
    ensures Skip(Skip(t)) == Skip(t)
  {
  }

  lemma {:induction false} MembersRoundTrip(members: Members, depth: int, fmt: bool, blanks: Text, rest: Text)
    requires members.MCons? && PrintableMembers(members) && forall i :: 0 <= i < |blanks| ==> blanks[i] <= SPACE
    ensures ParseMembers(PrintMembers(members, depth, fmt) + blanks + [CLOSE_BRACE] + rest) == Ok(members, rest)
    decreases members, 0
  {
    hide ParseValue, PrintValue, ParseMember, PrintMember, Skip;
    var m := PrintMember(members.name, PrintValue(members.value, depth, fmt), depth, fmt);
    var t := PrintMembers(members, depth, fmt) + blanks + [CLOSE_BRACE] + rest;
    var nl := If(fmt, [NEWLINE]);
    if members.rest.MNil? {
      var after := [CLOSE_BRACE] + rest;
      assert t == m + ((nl + blanks) + after);
      MemberRoundTrip(members.name, members.value, depth, fmt, nl + blanks, after);
      SkipPrinted(nl + blanks, after);
      assert after[1..] == rest;
    } else {
      var more := PrintMembers(members.rest, depth, fmt) + blanks + [CLOSE_BRACE] + rest;
      var after := [COMMA] + (nl + more);
      assert t == m + ([] + after);
      MemberRoundTrip(members.name, members.value, depth, fmt, [], after);
      SkipPrinted([], after);
      MembersRoundTrip(members.rest, depth, fmt, blanks, rest);
      assert after[1..] == nl + more;
      MembersThroughBlanks(nl, more);
    }
  }

  lemma MembersThroughBlanks(w: Text, t: Text)
    requires forall i :: 0 <= i < |w| ==> w[i] <= SPACE
    ensures ParseMembers(w + t) == ParseMembers(t)
  {
    SkipThrough(w, t);
  }

  /** One printed member is read back; blanks and a comma or brace follow it. */
  lemma {:induction false} MemberRoundTrip(name: Text, v: Json, depth: int, fmt: bool, blanks: Text, after: Text)
    requires IsText(name) && Printable(v) && forall i :: 0 <= i < |blanks| ==> blanks[i] <= SPACE && blanks[i] != DOT
    requires after != [] && (after[0] == COMMA || after[0] == CLOSE_BRACE)
    ensures ParseMember(PrintMember(name, PrintValue(v, depth, fmt), depth, fmt) + (blanks + after))
            == Ok((name, v), blanks + after)
    decreases v, 1
  {
    hide ParseValue, PrintValue, ParseString, PrintString, Skip, Tabs;
    var entry := PrintValue(v, depth, fmt) + (blanks + after);
    PrintedStart(v, depth, fmt, blanks + after);
    ValueRoundTrip(v, depth, fmt, blanks + after);
    MemberHead(name, PrintValue(v, depth, fmt), depth, fmt, blanks + after);
  }

  /** Name and colon are consumed; the value's text is next. */
  lemma MemberHead(name: Text, entry: Text, depth: int, fmt: bool, after: Text)
    requires IsText(name) && StartsValue(entry + after)
    ensures var t := PrintMember(name, entry, depth, fmt) + after;
            var p := ParseString(Skip(t));
            && p.Ok? && p.value == name
            && var t1 := Skip(p.rest); StartsWith(t1, COLON) && Skip(t1[1..]) == entry + after
  {
    hide ParseString, Escape;
    var colon := [COLON] + (If(fmt, [TAB]) + (entry + after));
    var quoted := PrintString(name) + colon;
    var t := PrintMember(name, entry, depth, fmt) + after;
    assert t == If(fmt, Tabs(depth)) + quoted by {
      MemberText(If(fmt, Tabs(depth)), PrintString(name), If(fmt, [TAB]), entry, after);
    }
    SkipPrinted(If(fmt, Tabs(depth)), quoted);
    StringRoundTrip(name, colon);
    SkipPrinted([], colon);
    assert colon[1..] == If(fmt, [TAB]) + (entry + after);
    SkipPrinted(If(fmt, [TAB]), entry + after);
  }

  lemma MemberText(tabs: Text, quoted: Text, tab: Text, entry: Text, after: Text)
    ensures tabs + quoted + [COLON] + tab + entry + after == tabs + (quoted + ([COLON] + (tab + (entry + after))))
  {
  }

  /** cJSON_Parse(cJSON_Print(v)) and cJSON_Parse(cJSON_PrintUnformatted(v)) give back v and use all of the text. */
  lemma PrintThenParse(v: Json, fmt: bool, wholeText: bool)
    requires Printable(v)
    ensures ParseText(PrintValue(v, 0, fmt), wholeText) == Ok(v, [])
  {
    hide ParseValue, PrintValue;
    var t := PrintValue(v, 0, fmt);
    PrintedStart(v, 0, fmt, []);
    assert t + [] == t;
    SkipPrinted([], t);
    ValueRoundTrip(v, 0, fmt, []);
  }
}
