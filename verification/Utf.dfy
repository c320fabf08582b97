/**
 Conversion between UTF-16 and modified UTF-8 (section 4.4.7 of the JVM Specification):
 strnlen16to8, strncpy16to8, strlen8to16 and strcpy8to16. A C string is the sequence of
 its bytes before the terminating zero.
 */
module Utf {
  import opened Octets

  type Unit = x: int | 0 <= x < 0x1_0000

  const REPLACEMENT: int := 0xfffd
  const UPPER_LIMIT: int := 0x10fffd
  const SIZE_MAX: nat := 0xffff_ffff

  // ----- UTF-16 to UTF-8 -----

  /** The bytes of one unit; zero takes two, so that the text holds no zero byte. */
  function EncodeUnit(u: Unit): (r: seq<Byte>)
    ensures 1 <= |r| <= 3
  {
    if u > 0x7ff then [u / 0x1000 + 0xe0, u / 0x40 % 0x40 + 0x80, u % 0x40 + 0x80]
    else if u > 0x7f || u == 0 then [u / 0x40 + 0xc0, u % 0x40 + 0x80]
    else [u]
  }

  function Encode(s: seq<Unit>): seq<Byte> {
    if s == [] then [] else EncodeUnit(s[0]) + Encode(s[1..])
  }

  ghost predicate IsText(b: seq<Byte>) { forall i :: 0 <= i < |b| ==> b[i] != 0 }

  // ----- UTF-8 to UTF-16 -----

  /** Bits 10 in front: an extension byte. */
  predicate IsExtension(c: Byte) { 0x80 <= c < 0xc0 }

  /** UTF8_SEQ_LENGTH: decided by the upper four bits. */
  function SequenceLength(c: Byte): (r: nat)
    ensures 1 <= r <= 4
  {
    if c < 0xc0 then 1 else if c < 0xe0 then 2 else if c < 0xf0 then 3 else 4
  }

  function LeaderBits(c: Byte): nat {
    if c < 0xc0 then c else if c < 0xe0 then c % 0x20 else if c < 0xf0 then c % 0x10 else c % 8
  }

  /** The six bits an extension byte carries. */
  function LowBits(c: Byte): (r: nat)
    ensures r < 0x40
  {
    c % 0x40
  }

  /** A code point and the number of bytes taken. */
  datatype Read = Read(code: nat, used: nat)

  /** The loop of getUtf32FromUtf8: n more extension bytes. */
  function Extend(code: nat, b: seq<Byte>, n: nat): (r: Read)
    ensures r.used <= n && r.used <= |b|
    decreases n
  {
    if n == 0 then Read(code, 0)
    else if b == [] || !IsExtension(b[0]) then Read(REPLACEMENT, 0)
    else
      var r := Extend(code * 0x40 + LowBits(b[0]), b[1..], n - 1);
      Read(r.code, r.used + 1)
  }

  /** getUtf32FromUtf8. */
  function Next(b: seq<Byte>): (r: Read)
    requires b != []
    ensures 1 <= r.used <= |b|
  {
    if IsExtension(b[0]) then Read(REPLACEMENT, 1)
    else
      var r := Extend(LeaderBits(b[0]), b[1..], SequenceLength(b[0]) - 1);
      Read(r.code, r.used + 1)
  }

  /** The units of one code point. */
  function Units(code: nat): (r: seq<Unit>)
    ensures 1 <= |r| <= 2
  {
    if code <= 0xffff then [code]
    else if code <= UPPER_LIMIT then [0xd800 + (code - 0x1_0000) / 0x400, 0xdc00 + (code - 0x1_0000) % 0x400]
    else [REPLACEMENT]
  }

  /** strcpy8to16. */
  function Decode(b: seq<Byte>): seq<Unit>
    decreases |b|
  {
    if b == [] then []
    else
      var r := Next(b);
      Units(r.code) + Decode(b[r.used..])
  }

  /** The counting loop of strlen8to16, with its counter of expected extension bytes. */
  function Count(b: seq<Byte>, expected: int): nat {
    if b == [] then 0
    else if IsExtension(b[0]) then (if expected - 1 < 0 then 1 else 0) + Count(b[1..], expected - 1)
    else
      var n := SequenceLength(b[0]) - 1;
      (if n == 3 then 2 else 1) + Count(b[1..], n)
  }

  // ----- the round trip -----

  lemma ConcatAt(a: seq<Byte>, b: seq<Byte>)
    ensures a != [] ==> (a + b)[0] == a[0] && (a + b)[1..] == a[1..] + b
    ensures (a + b)[|a|..] == b
  {
  }

  /** Reading one extension byte. */
  lemma ExtendOnce(code: nat, b: seq<Byte>, n: nat)
    requires b != [] && IsExtension(b[0])
    ensures var r := Extend(code * 0x40 + LowBits(b[0]), b[1..], n); Extend(code, b, n + 1) == Read(r.code, r.used + 1)
  {
  }

  lemma ThreeByteBits(u: Unit)
    requires u > 0x7ff
    ensures var e := EncodeUnit(u);
            && 0xe0 <= e[0] < 0xf0 && IsExtension(e[1]) && IsExtension(e[2])
            && (LeaderBits(e[0]) * 0x40 + LowBits(e[1])) * 0x40 + LowBits(e[2]) == u
  {
    var q := u / 0x40;
    var a, b, c := q / 0x40, q % 0x40, u % 0x40;
    assert u / 0x1000 == a;
    assert 0 <= a < 0x10 && q == a * 0x40 + b && u == q * 0x40 + c;
    OffsetBits(a, b, c);
  }

  /** Adding the marker bits leaves the payload bits. */
  lemma OffsetBits(a: int, b: int, c: int)
    requires 0 <= a < 0x10 && 0 <= b < 0x40 && 0 <= c < 0x40
    ensures LeaderBits(a + 0xe0) == a && LowBits(b + 0x80) == b && LowBits(c + 0x80) == c
  {
  }

  lemma TwoByteBits(u: Unit)
    requires u <= 0x7ff && (u > 0x7f || u == 0)
    ensures var e := EncodeUnit(u); 0xc0 <= e[0] < 0xe0 && IsExtension(e[1]) && LeaderBits(e[0]) * 0x40 + LowBits(e[1]) == u
  {
  }

  /** One encoded unit is read back whole, whatever follows. */
  lemma NextOfEncoded(u: Unit, tail: seq<Byte>)
    ensures Next(EncodeUnit(u) + tail) == Read(u, |EncodeUnit(u)|)
  {
    var e := EncodeUnit(u);
    var b := e + tail;
    ConcatAt(e, tail);
    if u > 0x7ff {
      ThreeByteBits(u);
      hide EncodeUnit, IsExtension, Extend, LowBits, LeaderBits;
      assert b[1..][0] == e[1] && b[2..][0] == e[2] && b[1..][1..] == b[2..] && b[2..][1..] == b[3..];
      var c0 := LeaderBits(e[0]);
      var c1 := c0 * 0x40 + LowBits(e[1]);
      ExtendOnce(c0, b[1..], 1);
      ExtendOnce(c1, b[2..], 0);
      ExtendNone(u, b[3..]);
      NextOfLeader(b);
    } else if u > 0x7f || u == 0 {
      TwoByteBits(u);
      hide EncodeUnit, IsExtension, Extend, LowBits, LeaderBits;
      assert b[1..][0] == e[1] && b[1..][1..] == b[2..];
      ExtendOnce(LeaderBits(e[0]), b[1..], 0);
      ExtendNone(u, b[2..]);
      NextOfLeader(b);
    }
  }

  lemma ExtendNone(code: nat, b: seq<Byte>)
    ensures Extend(code, b, 0) == Read(code, 0)
  {
  }

  lemma NextOfLeader(b: seq<Byte>)
    requires b != [] && b[0] >= 0xc0
    ensures var r := Extend(LeaderBits(b[0]), b[1..], SequenceLength(b[0]) - 1); Next(b) == Read(r.code, r.used + 1)
  {
    hide Extend;
  }

  /** Every UTF-16 sequence, with zeros and unpaired surrogates, comes back as it was. */
  lemma {:induction false} DecodeEncode(s: seq<Unit>)
    ensures Decode(Encode(s)) == s
  {
    hide Next, EncodeUnit;
    if s != [] {
      var e, tail := EncodeUnit(s[0]), Encode(s[1..]);
      NextOfEncoded(s[0], tail);
      ConcatAt(e, tail);
      DecodeEncode(s[1..]);
      assert Decode(e + tail) == Units(s[0]) + Decode(tail);
      assert s == [s[0]] + s[1..];
    }
  }

  /** The encoded text holds no zero byte, so it is a C string. */
  lemma {:induction false} EncodedIsText(s: seq<Unit>)
    ensures IsText(Encode(s))
  {
    if s != [] {
      EncodedIsText(s[1..]);
      var e := EncodeUnit(s[0]);
      assert forall i :: 0 <= i < |e| ==> e[i] != 0;
    }
  }

  // ----- standard UTF-8 -----

  /** The standard UTF-8 form of a code point. */
  function Standard(code: int): (r: seq<Byte>)
    requires 0 < code <= 0x10FFFF
    ensures 1 <= |r| <= 4
  {
    if code <= 0xffff then EncodeUnit(code)
    else [code / 0x4_0000 + 0xf0, code / 0x1000 % 0x40 + 0x80, code / 0x40 % 0x40 + 0x80, code % 0x40 + 0x80]
  }

  /** What a sequence of UTF-16 units stands for, if it is one code point. */
  function FromUnits(u: seq<Unit>): int {
    if |u| == 2 && 0xd800 <= u[0] <= 0xdbff && 0xdc00 <= u[1] <= 0xdfff
    then 0x1_0000 + (u[0] as int - 0xd800) * 0x400 + (u[1] as int - 0xdc00)
    else if |u| == 1 then u[0] else -1
  }

  /** The units written for a code point stand for it, except for the last two, which are replaced. */
  lemma UnitsGiveCodeExactly(code: int)
    requires 0 < code <= 0x10FFFF
    ensures FromUnits(Units(code)) == code <==> code <= UPPER_LIMIT
  {
  }

  lemma FourByteBits(code: int)
    requires 0xffff < code <= 0x10FFFF
    ensures var e := Standard(code);
            && |e| == 4 && e[0] >= 0xf0 && IsExtension(e[1]) && IsExtension(e[2]) && IsExtension(e[3])
            && ((LeaderBits(e[0]) * 0x40 + LowBits(e[1])) * 0x40 + LowBits(e[2])) * 0x40 + LowBits(e[3]) == code
  {
    var q := code / 0x40;
    var p := q / 0x40;
    var a, b, c, d := p / 0x40, p % 0x40, q % 0x40, code % 0x40;
    assert code / 0x1000 == p && code / 0x4_0000 == a;
    assert code == q * 0x40 + d && q == p * 0x40 + c && p == a * 0x40 + b && 0 <= a < 8;
    PayloadBits(a, b, c, d);
  }

  lemma PayloadBits(a: int, b: int, c: int, d: int)
    requires 0 <= a < 8 && 0 <= b < 0x40 && 0 <= c < 0x40 && 0 <= d < 0x40
    ensures LeaderBits(a + 0xf0) == a && LowBits(b + 0x80) == b && LowBits(c + 0x80) == c && LowBits(d + 0x80) == d
  {
  }

  /** The standard form of every code point is read back whole, whatever follows. */
  lemma StandardIsRead(code: int, tail: seq<Byte>)
    requires 0 < code <= 0x10FFFF
    ensures Next(Standard(code) + tail) == Read(code, |Standard(code)|)
  {
    if code <= 0xffff {
      NextOfEncoded(code, tail);
    } else {
      FourByteBits(code);
      hide Standard, IsExtension, Extend, LowBits, LeaderBits;
      var e := Standard(code);
      var b := e + tail;
      assert b[1..][0] == e[1] && b[2..][0] == e[2] && b[3..][0] == e[3];
      assert b[1..][1..] == b[2..] && b[2..][1..] == b[3..] && b[3..][1..] == b[4..];
      var c0 := LeaderBits(e[0]);
      var c1 := c0 * 0x40 + LowBits(e[1]);
      var c2 := c1 * 0x40 + LowBits(e[2]);
      ExtendOnce(c0, b[1..], 2);
      ExtendOnce(c1, b[2..], 1);
      ExtendOnce(c2, b[3..], 0);
      ExtendNone(code, b[4..]);
      NextOfLeader(b);
    }
  }

  ghost predicate AreCodes(s: seq<int>) { forall i :: 0 <= i < |s| ==> 0 < s[i] <= 0x10FFFF }

  function StandardText(s: seq<int>): seq<Byte>
    requires AreCodes(s)
  {
    if s == [] then [] else Standard(s[0]) + StandardText(s[1..])
  }

  function UnitsOf(s: seq<int>): seq<Unit>
    requires AreCodes(s)
  {
    if s == [] then [] else Units(s[0]) + UnitsOf(s[1..])
  }

  /** Standard UTF-8, four-byte characters included, is decoded to the units of its code points. */
  lemma {:induction false} DecodeStandard(s: seq<int>)
    requires AreCodes(s)
    ensures Decode(StandardText(s)) == UnitsOf(s)
  {
    hide Next, Standard, Units;
    if s != [] {
      var e, tail := Standard(s[0]), StandardText(s[1..]);
      StandardIsRead(s[0], tail);
      ConcatAt(e, tail);
      DecodeStandard(s[1..]);
      assert Decode(e + tail) == Units(s[0]) + Decode(tail);
    }
  }

  // ----- the length computed before decoding -----

  /** The readings of a text that strlen8to16 counts twice but that give one unit. */
  function Overcounted(b: seq<Byte>): nat
    decreases |b|
  {
    if b == [] then 0
    else
      Extra(b) + Overcounted(b[Next(b).used..])
  }

  /** At the start of a reading, no extension byte is still expected. */
  predicate InStep(b: seq<Byte>, expected: int) {
    b == [] || !IsExtension(b[0]) || expected <= 0
  }

  /** Extension bytes that are read are not counted. */
  lemma {:induction false} CountExtensions(code: nat, b: seq<Byte>, n: nat)
    ensures var r := Extend(code, b, n);
            InStep(b[r.used..], n - r.used) && Count(b, n) == Count(b[r.used..], n - r.used)
    decreases n
  {
    if n > 0 && b != [] && IsExtension(b[0]) {
      var code1 := code * 0x40 + LowBits(b[0]);
      CountExtensions(code1, b[1..], n - 1);
      var r1 := Extend(code1, b[1..], n - 1);
      assert b[1..][r1.used..] == b[r1.used + 1..];
    }
  }

  /** Below four bytes a reading stays below 0x10000. */
  lemma {:induction false} ExtendBound(code: nat, b: seq<Byte>, n: nat, bound: nat)
    requires code < bound
    ensures n == 0 ==> Extend(code, b, n).code < bound
    ensures n == 1 ==> Extend(code, b, n).code < bound * 0x40 || Extend(code, b, n).code == REPLACEMENT
    ensures n == 2 ==> Extend(code, b, n).code < bound * 0x1000 || Extend(code, b, n).code == REPLACEMENT
    decreases n
  {
    if n > 0 && b != [] && IsExtension(b[0]) {
      ExtendBound(code * 0x40 + LowBits(b[0]), b[1..], n - 1, bound * 0x40);
    }
  }

  lemma ShortReadings(b: seq<Byte>)
    requires b != [] && SequenceLength(b[0]) < 4
    ensures |Units(Next(b).code)| == 1
  {
    hide Extend;
    var c, n := b[0], SequenceLength(b[0]) - 1;
    ExtendBound(LeaderBits(c), b[1..], n, if n == 0 then 0x100 else if n == 1 then 0x20 else 0x10);
  }

  /** The counter after the bytes of one reading. */
  function ExpectedAfter(b: seq<Byte>, expected: int): int
    requires b != []
  {
    if IsExtension(b[0]) then expected - 1 else SequenceLength(b[0]) - Next(b).used
  }

  function Extra(b: seq<Byte>): nat
    requires b != []
  {
    if SequenceLength(b[0]) == 4 && |Units(Next(b).code)| == 1 then 1 else 0
  }

  /** One reading counts its units, plus one when it is overcounted. */
  lemma CountReading(b: seq<Byte>, expected: int)
    requires b != [] && InStep(b, expected)
    ensures var r := Next(b);
            InStep(b[r.used..], ExpectedAfter(b, expected))
            && Count(b, expected) == |Units(r.code)| + Extra(b) + Count(b[r.used..], ExpectedAfter(b, expected))
  {
    hide Extend, LeaderBits, Units;
    if IsExtension(b[0]) {
      ReplacedByOne();
    } else {
      var n := SequenceLength(b[0]) - 1;
      CountExtensions(LeaderBits(b[0]), b[1..], n);
      var x := Extend(LeaderBits(b[0]), b[1..], n);
      assert b[1..][x.used..] == b[x.used + 1..];
      if n < 3 {
        ShortReadings(b);
      }
    }
  }

  lemma ReplacedByOne()
    ensures |Units(REPLACEMENT)| == 1
  {
  }

  /** strlen8to16 is the number of units written plus the overcounted readings, on every byte string. */
  lemma {:induction false} CountIsUnitsPlusOvercount(b: seq<Byte>, expected: int)
    requires InStep(b, expected)
    ensures Count(b, expected) == |Decode(b)| + Overcounted(b)
    decreases |b|
  {
    hide Next, Count, Units, Extra, ExpectedAfter;
    if b != [] {
      CountReading(b, expected);
      CountIsUnitsPlusOvercount(b[Next(b).used..], ExpectedAfter(b, expected));
    } else {
      CountNothing(expected);
    }
  }

  lemma CountNothing(expected: int)
    ensures Count([], expected) == 0
  {
  }

  /** Text made by strncpy16to8 is never overcounted: its length is the length of the original. */
  lemma {:induction false} EncodedIsCountedExactly(s: seq<Unit>)
    ensures Count(Encode(s), 0) == |s|
  {
    hide Count, Decode;
    CountIsUnitsPlusOvercount(Encode(s), 0);
    DecodeEncode(s);
    NothingOvercounted(s);
  }

  lemma {:induction false} NothingOvercounted(s: seq<Unit>)
    ensures Overcounted(Encode(s)) == 0
  {
    hide Next;
    if s != [] {
      var e, tail := EncodeUnit(s[0]), Encode(s[1..]);
      NextOfEncoded(s[0], tail);
      ConcatAt(e, tail);
      NothingOvercounted(s[1..]);
    }
  }

  // ----- the loops -----

  lemma {:induction false} EncodeSplit(s: seq<Unit>, i: nat)
    requires i < |s|
    ensures Encode(s[..i + 1]) == Encode(s[..i]) + EncodeUnit(s[i])
  {
    hide EncodeUnit;
    if i == 0 {
      assert s[..1] == [s[0]] && s[..1][1..] == [] && s[..0] == [];
      assert Encode(s[..1]) == EncodeUnit(s[0]) + [];
    } else {
      EncodeSplit(s[1..], i - 1);
      assert s[1..][..i] == s[..i + 1][1..] && s[1..][..i - 1] == s[..i][1..];
    }
  }

  lemma {:induction false} EncodeBound(s: seq<Unit>)
    ensures |Encode(s)| <= 3 * |s|
  {
    if s != [] {
      EncodeBound(s[1..]);
    }
  }

  lemma {:induction false} EncodeGrows(s: seq<Unit>, i: nat)
    requires i <= |s|
    ensures |Encode(s[..i])| <= |Encode(s)|
    decreases |s| - i
  {
    hide Encode;
    if i == |s| {
      assert s[..i] == s;
    } else {
      EncodeSplit(s, i);
      EncodeGrows(s, i + 1);
    }
  }

  function UnitSize(u: Unit): (r: nat)
    ensures r == |EncodeUnit(u)|
  {
    if u > 0x7ff then 3 else if u > 0x7f || u == 0 then 2 else 1
  }

  /** strnlen16to8: the exact length, or SIZE_MAX - 1 when that does not fit. */
  method StrnLen16To8(s: seq<Unit>) returns (len: nat)
    requires |s| <= SIZE_MAX
    ensures len == if |Encode(s)| < SIZE_MAX then |Encode(s)| else SIZE_MAX - 1
  {
    hide Encode, EncodeUnit;
    len := 0;
    EncodeBound(s);
    EncodeNothing(s);
    if |s| < (SIZE_MAX - 1) / 3 {
      for i := 0 to |s|
        invariant len == |Encode(s[..i])|
      {
        EncodeSplit(s, i);
        len := len + UnitSize(s[i]);
      }
      assert s[..|s|] == s;
      return;
    }
    for i := 0 to |s|
      invariant len == |Encode(s[..i])| <= SIZE_MAX
    {
      EncodeSplit(s, i);
      EncodeGrows(s, i + 1);
      var before := len;
      len := (len + UnitSize(s[i])) % (SIZE_MAX + 1);
      if len < before {
        return SIZE_MAX - 1;
      }
    }
    assert s[..|s|] == s;
    if len == SIZE_MAX {
      len := SIZE_MAX - 1;
    }
  }

  lemma EncodeNothing(s: seq<Unit>)
    ensures s[..0] == [] && Encode([]) == []
  {
  }

  method PutAll<T>(out: array<T>, at: nat, e: seq<T>)
    requires at + |e| <= out.Length
    modifies out
    ensures out[..at + |e|] == old(out[..at]) + e
  {
    for k := 0 to |e|
      invariant out[..at + k] == old(out[..at]) + e[..k]
    {
      out[at + k] := e[k];
      assert out[..at + k + 1] == out[..at + k] + [e[k]];
    }
    assert e[..|e|] == e;
  }

  /** strncpy16to8: writes the encoding and a terminating zero, strnlen16to8 + 1 bytes in all. */
  method StrnCpy16To8(out: array<Byte>, s: seq<Unit>)
    requires |Encode(s)| + 1 <= out.Length
    modifies out
    ensures out[..|Encode(s)|] == Encode(s) && out[|Encode(s)|] == 0
  {
    hide Encode, EncodeUnit;
    var cur := 0;
    EncodeNothing(s);
    for i := 0 to |s|
      invariant cur == |Encode(s[..i])| <= |Encode(s)|
      invariant out[..cur] == Encode(s[..i])
    {
      EncodeSplit(s, i);
      EncodeGrows(s, i + 1);
      PutAll(out, cur, EncodeUnit(s[i]));
      cur := cur + UnitSize(s[i]);
    }
    assert s[..|s|] == s;
    out[cur] := 0;
  }

  /** strndup16to8: null exactly when the text needs SIZE_MAX - 1 bytes or more. */
  method StrnDup16To8(s: seq<Unit>) returns (out: array?<Byte>)
    requires |s| <= SIZE_MAX
    ensures out == null <==> |Encode(s)| >= SIZE_MAX - 1
    ensures out != null ==> out.Length == |Encode(s)| + 1 && out[..] == Encode(s) + [0]
  {
    hide Encode;
    var len := StrnLen16To8(s);
    if len >= SIZE_MAX - 1 {
      return null;
    }
    var a := new Byte[len + 1];
    StrnCpy16To8(a, s);
    assert a[..] == a[..len] + [a[len]];
    out := a;
  }

  /** strlen8to16. */
  method StrLen8To16(b: seq<Byte>) returns (len: nat)
    ensures len == |Decode(b)| + Overcounted(b)
  {
    hide Decode, Overcounted;
    CountIsUnitsPlusOvercount(b, 0);
    len := 0;
    var expected := 0;
    for i := 0 to |b|
      invariant len + Count(b[i..], expected) == Count(b, 0)
    {
      assert b[i..][1..] == b[i + 1..];
      if IsExtension(b[i]) {
        expected := expected - 1;
        if expected < 0 {
          len := len + 1;
        }
      } else {
        len := len + 1;
        expected := SequenceLength(b[i]) - 1;
        if expected == 3 {
          len := len + 1;
        }
      }
    }
  }

  /** getUtf32FromUtf8, moving a cursor. */
  method GetUtf32(b: seq<Byte>, at: nat) returns (code: nat, next: nat)
    requires at < |b|
    ensures at < next <= |b| && Next(b[at..]) == Read(code, next - at)
  {
    hide LeaderBits;
    if IsExtension(b[at]) {
      return REPLACEMENT, at + 1;
    }
    var length := SequenceLength(b[at]);
    code := LeaderBits(b[at]);
    next := at + 1;
    ghost var r := Extend(code, b[at + 1..], length - 1);
    assert b[at..][1..] == b[at + 1..];
    var i := 1;
    while i < length
      invariant 1 <= i <= length && next == at + i <= |b|
      invariant var x := Extend(code, b[next..], length - i); r == Read(x.code, x.used + i - 1)
    {
      if next == |b| || !IsExtension(b[next]) {
        return REPLACEMENT, next;
      }
      assert b[next..][1..] == b[next + 1..];
      code := code * 0x40 + LowBits(b[next]);
      next := next + 1;
      i := i + 1;
    }
  }

  lemma DecodeStep(b: seq<Byte>, at: nat, next: nat, code: nat)
    requires at < next <= |b| && Next(b[at..]) == Read(code, next - at)
    ensures Decode(b[at..]) == Units(code) + Decode(b[next..])
  {
    hide Next, Units;
    assert b[at..][next - at..] == b[next..];
  }

  /** strdup8to16: strcpy8to16 stays inside a buffer of strlen8to16 units, on every byte string. */
  method StrDup8To16(b: seq<Byte>) returns (out: array?<Unit>, outLen: nat)
    ensures out != null ==> outLen <= out.Length && out[..outLen] == Decode(b)
    ensures out == null <==> |Decode(b)| + Overcounted(b) > SIZE_MAX / 2
  {
    hide Decode, Overcounted, Next, Units;
    var len := StrLen8To16(b);
    if len != 0 && SIZE_MAX / len < 2 {
      HalfFits(len);
      return null, 0;
    }
    HalfFits(len);
    var a := new Unit[len];
    var dest, cur := 0, 0;
    assert b[0..] == b;
    while cur < |b|
      invariant 0 <= cur <= |b| && 0 <= dest <= a.Length
      invariant a[..dest] + Decode(b[cur..]) == Decode(b)
      decreases |b| - cur
    {
      var code, next := GetUtf32(b, cur);
      DecodeStep(b, cur, next, code);
      ghost var done := a[..dest];
      assert done + (Units(code) + Decode(b[next..])) == done + Units(code) + Decode(b[next..]);
      PutAll(a, dest, Units(code));
      dest := dest + |Units(code)|;
      cur := next;
    }
    DecodeNothing(b);
    out, outLen := a, dest;
  }

  lemma HalfFits(len: nat)
    ensures len != 0 && SIZE_MAX / len < 2 <==> len > SIZE_MAX / 2
  {
    if len != 0 {
      var q := SIZE_MAX / len;
      assert q * len <= SIZE_MAX < q * len + len;
      if q < 2 {
        assert q * len <= len;
      } else {
        assert 2 * len <= q * len;
      }
    }
  }

  lemma DecodeNothing(b: seq<Byte>)
    ensures Decode(b[|b|..]) == []
  {
  }
}
