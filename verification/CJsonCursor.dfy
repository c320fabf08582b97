/**
 The parsers of cJSON as the source writes them: a cursor that moves through the
 text, loops over the items of an array or object, and an output buffer for
 unescaped strings. Each is proved to read what CJson defines.
 */
module CJsonCursor {
  import opened CJson
  import opened CJsonEscapes

  /**
   No value, or a value and the position after it; Astray when a malformed escape made the code
   leave the text or its buffer.
   */
  datatype Cursor<T> = NoParse | Astray | At(value: T, pos: nat)

  /** The cursor form of a result on the rest of the text; nothing is said where an escape is malformed. */
  ghost predicate Reads<T>(t: Text, c: Cursor<T>, p: Parsed<T>) {
    p.Stray? ||
    (&& (c.NoParse? <==> p.Fail?)
     && (c.At? <==> p.Ok?)
     && (c.At? ==> c.value == p.value && c.pos <= |t| && t[c.pos..] == p.rest))
  }

  /** A value found moves the cursor on, inside the text. */
  predicate Moves<T>(t: Text, i: nat, c: Cursor<T>) { c.At? ==> i < c.pos <= |t| }

  lemma Rest(t: Text, i: nat, n: nat)
    requires i + n <= |t|
    ensures t[i..][n..] == t[i + n..]
  {
  }

  method SkipAt(t: Text, i: nat) returns (j: nat)
    requires i <= |t|
    ensures i <= j <= |t| && t[j..] == Skip(t[i..])
  {
    j := i;
    while j < |t| && t[j] <= SPACE
      invariant i <= j <= |t| && Skip(t[j..]) == Skip(t[i..])
    {
      Rest(t, j, 1);
      j := j + 1;
    }
  }

  predicate IsAt(t: Text, i: nat, c: int) { i < |t| && t[i] == c }

  // ----- strings -----

  /** The counting loop; it may run past the terminator after a last backslash. */
  method CountUnits(t: Text, i: nat) returns (len: nat, inside: bool)
    requires i <= |t|
    ensures len == UnitCount(t[i..])
    ensures !inside ==> !PlainEscapes(t[i..])
  {
    len := 0;
    var j := i;
    hide PlainEscapes, Reaches;
    while j < |t| && t[j] != QUOTE
      invariant i <= j <= |t| && len + UnitCount(t[j..]) == UnitCount(t[i..])
      invariant Reaches(t[i..], j - i)
      decreases |t| - j
    {
      len := len + 1;
      ReachOne(t, i, j);
      if t[j] == BACKSLASH && j + 1 < |t| {
        Rest(t, j, 2);
        j := j + 2;
      } else if t[j] == BACKSLASH {
        EndsInBackslash(t[i..], j - i);
        return len, false;
      } else {
        Rest(t, j, 1);
        j := j + 1;
      }
    }
    inside := true;
  }

  lemma ReachOne(t: Text, i: nat, j: nat)
    requires i <= j < |t| && t[j] != QUOTE && Reaches(t[i..], j - i)
    ensures t[j] != BACKSLASH ==> Reaches(t[i..], j + 1 - i)
    ensures t[j] == BACKSLASH && j + 1 < |t| ==> Reaches(t[i..], j + 2 - i)
  {
    Rest(t, i, j - i);
    ReachesOn(t[i..], j - i, 1);
    ReachesOn(t[i..], j - i, 2);
    Rest(t, j, 1);
  }

  /** A string whose last character is a lone backslash is not plainly escaped. */
  lemma EndsInBackslash(t: Text, n: nat)
    requires Reaches(t, n) && n + 1 == |t| && t[n] == BACKSLASH
    ensures !PlainEscapes(t)
  {
    if PlainEscapes(t) {
      WellThrough(t, n);
    }
  }

  /** What is plainly escaped is so from every place the counting loop comes to, or that place is inside a \u escape. */
  lemma {:induction false} WellThrough(t: Text, n: nat)
    requires PlainEscapes(t) && Reaches(t, n) && n + 1 == |t| && t[n] == BACKSLASH
    ensures false
    decreases |t|
  {
    if n > 0 {
      if t[0] != BACKSLASH {
        WellThrough(t[1..], n - 1);
      } else if t[1] != LOWER_U {
        WellThrough(t[2..], n - 2);
      } else {
        SixCharacters(t);
        assert t[n] == t[2] || t[n] == t[3] || t[n] == t[4] || t[n] == t[5] || n >= 6;
        ReachesOn(t, 6, n - 6);
        WellThrough(t[6..], n - 6);
      }
    }
  }

  /** One round of the copying loop: the bytes to write and the next position, which may be past the terminator. */
  method UnescapeOne(scan: Scan, t: Text, j: nat) returns (bytes: Text, next: nat)
    requires j < |t| && t[j] != QUOTE
    ensures j < next
    ensures Walk(scan, t[j..]) == if next > |t| then PastEnd(bytes) else After(bytes, Walk(scan, t[next..]))
  {
    hide EscapedByte, Utf8, JumpAt;
    if t[j] != BACKSLASH {
      Rest(t, j, 1);
      return [t[j]], j + 1;
    }
    if j + 1 == |t| {
      return [0], j + 2;
    }
    Rest(t, j, 2);
    if t[j + 1] != LOWER_U {
      return [EscapedByte(t[j + 1])], j + 2;
    }
    bytes, next := UnicodeAt(scan, t, j);
    if next <= |t| {
      Rest(t, j, next - j);
    }
  }

  /** The case of a \u: one reading of sscanf, or two. */
  method UnicodeAt(scan: Scan, t: Text, j: nat) returns (bytes: Text, next: nat)
    requires j + 2 <= |t|
    ensures next > j && JumpAt(scan, t[j..]) == Jump(bytes, next - j)
  {
    hide Utf8;
    Rest(t, j, 2);
    var uc := scan(t[j + 2..]);
    next := j + 6;
    bytes := [];
    if 0xDC00 <= uc <= 0xDFFF || uc == 0 {
      return;
    }
    if 0xD800 <= uc <= 0xDBFF {
      if j + 8 > |t| || t[j + 6] != BACKSLASH || t[j + 7] != LOWER_U {
        return;
      }
      Rest(t, j, 8);
      var uc2 := scan(t[j + 8..]);
      next := j + 12;
      if uc2 < 0xDC00 || uc2 > 0xDFFF {
        return;
      }
      uc := 0x10000 + (uc - 0xD800) * 1024 + (uc2 - 0xDC00);
    }
    bytes := Utf8(uc);
  }

  lemma AfterTwice(a: Text, b: Text, w: Walked)
    ensures After(a, After(b, w)) == After(a + b, w)
  {
    assert a + (b + w.bytes) == (a + b) + w.bytes;
  }

  lemma AfterNothing(w: Walked)
    ensures After([], w) == w
  {
    assert [] + w.bytes == w.bytes;
  }

  /**
   parse_string: counts, allocates len + 1 bytes, and copies. With plain escapes it stays inside
   text and buffer, whatever sscanf returns; a string the grammar reads is read as it says.
   */
  method ParseStringAt(scan: Scan, t: Text, i: nat) returns (c: Cursor<Text>)
    requires i <= |t| && Legit(scan)
    ensures Reads(t, c, ParseString(t[i..])) && Moves(t, i, c)
    ensures c.NoParse? <==> !IsAt(t, i, QUOTE)
    ensures c.At? ==> Walk(scan, t[i + 1..]) == Stopped(c.value, t[c.pos..])
    ensures c.Astray? ==> !PlainEscapes(t[i + 1..])
  {
    hide Walk, UnitCount, PlainEscapes, Unescape;
    if !IsAt(t, i, QUOTE) {
      return NoParse;
    }
    Rest(t, i, 1);
    if Unescape(t[i + 1..]).Ok? {
      UnescapedIsWalked(scan, t[i + 1..]);
    }
    if PlainEscapes(t[i + 1..]) {
      WrittenFits(scan, t[i + 1..]);
    }
    var len, inside := CountUnits(t, i + 1);
    if !inside {
      return Astray;
    }
    c := CopyString(scan, t, i + 1, len);
  }

  /** The copying loop, into a buffer of len + 1 bytes. */
  method CopyString(scan: Scan, t: Text, i: nat, len: nat) returns (c: Cursor<Text>)
    requires i <= |t|
    ensures !c.NoParse? && (c.At? ==> i <= c.pos <= |t| && Walk(scan, t[i..]) == Stopped(c.value, t[c.pos..]))
    ensures c.Astray? ==> Walk(scan, t[i..]).PastEnd? || |Walk(scan, t[i..]).bytes| > len
  {
    hide Walk;
    var out := new int[len + 1];
    var p, j := 0, i;
    AfterNothing(Walk(scan, t[i..]));
    while j < |t| && t[j] != QUOTE
      invariant i <= j <= |t| && 0 <= p <= len && out.Length == len + 1
      invariant Walk(scan, t[i..]) == After(out[..p], Walk(scan, t[j..]))
      decreases |t| - j
    {
      var bytes, next := UnescapeOne(scan, t, j);
      if next > |t| {
        return Astray;
      }
      AfterTwice(out[..p], bytes, Walk(scan, t[next..]));
      if p + |bytes| > len {
        return Astray;
      }
      p := Write(out, p, bytes);
      j := next;
    }
    out[p] := 0;
    var s := out[..p];
    WalkEnd(scan, t, j);
    assert s + [] == s;
    if j < |t| {
      j := j + 1;
    }
    c := At(s, j);
  }

  lemma WalkEnd(scan: Scan, t: Text, j: nat)
    requires j <= |t| && (j == |t| || t[j] == QUOTE)
    ensures Walk(scan, t[j..]) == Stopped([], if j == |t| then t[j..] else t[j + 1..])
  {
    if j < |t| {
      Rest(t, j, 1);
    }
  }

  method Write(out: array<int>, p: nat, bytes: Text) returns (p': nat)
    requires p + |bytes| <= out.Length
    modifies out
    ensures p' == p + |bytes| && out[..p'] == old(out[..p]) + bytes
  {
    var k := 0;
    while k < |bytes|
      invariant 0 <= k <= |bytes| && out[..p + k] == old(out[..p]) + bytes[..k]
    {
      out[p + k] := bytes[k];
      assert out[..p + k + 1] == out[..p + k] + [bytes[k]];
      k := k + 1;
    }
    p' := p + k;
    assert bytes[..k] == bytes;
  }

  // ----- values -----

  /** Items read so far, in front of the ones still to come. */
  function Ahead(acc: seq<Json>, tail: Items): Items {
    if acc == [] then tail else Cons(acc[0], Ahead(acc[1..], tail))
  }

  function AheadParsed(acc: seq<Json>, p: Parsed<Items>): Parsed<Items> {
    if !p.Ok? then p else Ok(Ahead(acc, p.value), p.rest)
  }

  lemma {:induction false} AheadOne(acc: seq<Json>, v: Json, tail: Items)
    ensures Ahead(acc + [v], tail) == Ahead(acc, Cons(v, tail))
  {
    if acc == [] {
      assert (acc + [v])[1..] == [];
    } else {
      assert (acc + [v])[1..] == acc[1..] + [v];
      AheadOne(acc[1..], v, tail);
    }
  }

  function AheadM(acc: seq<(Text, Json)>, tail: Members): Members {
    if acc == [] then tail else MCons(acc[0].0, acc[0].1, AheadM(acc[1..], tail))
  }

  function AheadParsedM(acc: seq<(Text, Json)>, p: Parsed<Members>): Parsed<Members> {
    if !p.Ok? then p else Ok(AheadM(acc, p.value), p.rest)
  }

  lemma {:induction false} AheadOneM(acc: seq<(Text, Json)>, m: (Text, Json), tail: Members)
    ensures AheadM(acc + [m], tail) == AheadM(acc, MCons(m.0, m.1, tail))
  {
    if acc == [] {
      assert (acc + [m])[1..] == [];
    } else {
      assert (acc + [m])[1..] == acc[1..] + [m];
      AheadOneM(acc[1..], m, tail);
    }
  }

  method HasLiteral(t: Text, i: nat, p: Text) returns (b: bool)
    requires i <= |t|
    ensures b == HasPrefix(t[i..], p)
  {
    b := i + |p| <= |t| && t[i..i + |p|] == p;
    if i + |p| <= |t| {
      assert t[i..][..|p|] == t[i..i + |p|];
    }
  }

  /** A cursor without a value, for another kind of value. */
  function NoCursor<T, U>(c: Cursor<T>): Cursor<U>
    requires !c.At?
  {
    if c.Astray? then Astray else NoParse
  }

  /** parse_value. */
  method ParseValueAt(scan: Scan, t: Text, i: nat) returns (c: Cursor<Json>)
    requires i <= |t| && Legit(scan)
    ensures Reads(t, c, ParseValue(t[i..])) && Moves(t, i, c)
    decreases |t| - i, 2
  {
    hide ParseArray, ParseObject, ParseString, ParseNumber, HasPrefix;
    var b := HasLiteral(t, i, NULL_TEXT);
    if b {
      LiteralEnd(t, i, NULL_TEXT);
      return At(Null, i + 4);
    }
    b := HasLiteral(t, i, FALSE_TEXT);
    if b {
      LiteralEnd(t, i, FALSE_TEXT);
      return At(False, i + 5);
    }
    b := HasLiteral(t, i, TRUE_TEXT);
    if b {
      LiteralEnd(t, i, TRUE_TEXT);
      return At(True, i + 4);
    }
    c := ParseOtherAt(scan, t, i);
  }

  lemma LiteralEnd(t: Text, i: nat, p: Text)
    requires i <= |t| && HasPrefix(t[i..], p)
    ensures i + |p| <= |t| && t[i..][|p|..] == t[i + |p|..]
  {
  }

  /** The rest of parse_value, after the three literals. */
  method ParseOtherAt(scan: Scan, t: Text, i: nat) returns (c: Cursor<Json>)
    requires i <= |t| && Legit(scan)
    requires !HasPrefix(t[i..], NULL_TEXT) && !HasPrefix(t[i..], FALSE_TEXT) && !HasPrefix(t[i..], TRUE_TEXT)
    ensures Reads(t, c, ParseValue(t[i..])) && Moves(t, i, c)
    decreases |t| - i, 1
  {
    hide ParseArray, ParseObject, ParseString, ParseNumber, HasPrefix;
    if i == |t| {
      c := NoParse;
    } else if t[i] == QUOTE {
      var s := ParseStringAt(scan, t, i);
      c := if s.At? then At(Str(s.value), s.pos) else NoCursor(s);
    } else if t[i] == MINUS || IsDigit(t[i]) {
      c := ParseNumberAt(t, i);
    } else if t[i] == OPEN_BRACKET {
      c := ParseArrayAt(scan, t, i);
    } else if t[i] == OPEN_BRACE {
      c := ParseObjectAt(scan, t, i);
    } else {
      c := NoParse;
    }
  }

  /** parse_array: the loop over the items. */
  method ParseArrayAt(scan: Scan, t: Text, i: nat) returns (c: Cursor<Json>)
    requires IsAt(t, i, OPEN_BRACKET) && Legit(scan)
    ensures Reads(t, c, ParseArray(t[i..])) && Moves(t, i, c)
    decreases |t| - i, 0
  {
    hide ParseValue, ParseItems, Skip;
    Rest(t, i, 1);
    var j := SkipAt(t, i + 1);
    if IsAt(t, j, CLOSE_BRACKET) {
      Rest(t, j, 1);
      return At(Arr(Nil), j + 1);
    }
    var acc: seq<Json> := [];
    ghost var all := ParseItems(t[j..]);
    while true
      invariant i < j <= |t| && (all.Stray? || all == AheadParsed(acc, ParseItems(t[j..])))
      decreases |t| - j
    {
      var k := SkipAt(t, j);
      var v := ParseValueAt(scan, t, k);
      NoItem(t[j..]);
      if !v.At? {
        return NoCursor(v);
      }
      var after := SkipAt(t, v.pos);
      if ParseValue(t[k..]).Ok? {
        NextItem(t[j..], acc, v.value);
      }
      acc := acc + [v.value];
      if !IsAt(t, after, COMMA) {
        if IsAt(t, after, CLOSE_BRACKET) {
          Rest(t, after, 1);
          return At(Arr(Ahead(acc, Nil)), after + 1);
        }
        return NoParse;
      }
      Rest(t, after, 1);
      j := after + 1;
    }
  }

  lemma NoItem(t: Text)
    ensures var v := ParseValue(Skip(t)); !v.Ok? ==> ParseItems(t) == NoneOf(v)
  {
    hide ParseValue, Skip;
  }

  /** Unrolling ParseItems once, with the items read before in front. */
  lemma NextItem(t: Text, acc: seq<Json>, v: Json)
    requires ParseValue(Skip(t)).Ok? && ParseValue(Skip(t)).value == v
    ensures var t1 := Skip(ParseValue(Skip(t)).rest);
            AheadParsed(acc, ParseItems(t))
            == if StartsWith(t1, COMMA) then AheadParsed(acc + [v], ParseItems(t1[1..]))
               else if StartsWith(t1, CLOSE_BRACKET) then Ok(Ahead(acc + [v], Nil), t1[1..])
               else Fail
  {
    hide ParseValue, Skip, Ahead;
    var t1 := Skip(ParseValue(Skip(t)).rest);
    AheadOne(acc, v, Nil);
    if StartsWith(t1, COMMA) && ParseItems(t1[1..]).Ok? {
      AheadOne(acc, v, ParseItems(t1[1..]).value);
    }
  }

  /** The name, colon and value of one member. */
  method ParseMemberAt(scan: Scan, t: Text, i: nat) returns (c: Cursor<(Text, Json)>)
    requires i <= |t| && Legit(scan)
    ensures Reads(t, c, ParseMember(t[i..])) && Moves(t, i, c)
    decreases |t| - i, 3
  {
    hide ParseValue, ParseString, Skip;
    var j := SkipAt(t, i);
    var name := ParseStringAt(scan, t, j);
    if !name.At? {
      return NoCursor(name);
    }
    var k := SkipAt(t, name.pos);
    if !IsAt(t, k, COLON) {
      return NoParse;
    }
    Rest(t, k, 1);
    k := SkipAt(t, k + 1);
    var v := ParseValueAt(scan, t, k);
    c := if v.At? then At((name.value, v.value), v.pos) else NoCursor(v);
  }

  /** parse_object: the loop over the members. */
  method ParseObjectAt(scan: Scan, t: Text, i: nat) returns (c: Cursor<Json>)
    requires IsAt(t, i, OPEN_BRACE) && Legit(scan)
    ensures Reads(t, c, ParseObject(t[i..])) && Moves(t, i, c)
    decreases |t| - i, 0
  {
    hide ParseMember, ParseMembers, Skip;
    Rest(t, i, 1);
    var j := SkipAt(t, i + 1);
    if IsAt(t, j, CLOSE_BRACE) {
      Rest(t, j, 1);
      return At(Obj(MNil), j + 1);
    }
    var acc: seq<(Text, Json)> := [];
    ghost var all := ParseMembers(t[j..]);
    while true
      invariant i < j <= |t| && (all.Stray? || all == AheadParsedM(acc, ParseMembers(t[j..])))
      decreases |t| - j
    {
      var m := ParseMemberAt(scan, t, j);
      NoMember(t[j..]);
      if !m.At? {
        return NoCursor(m);
      }
      var after := SkipAt(t, m.pos);
      if ParseMember(t[j..]).Ok? {
        NextMember(t[j..], acc, m.value);
      }
      acc := acc + [m.value];
      if !IsAt(t, after, COMMA) {
        if IsAt(t, after, CLOSE_BRACE) {
          Rest(t, after, 1);
          return At(Obj(AheadM(acc, MNil)), after + 1);
        }
        return NoParse;
      }
      Rest(t, after, 1);
      j := after + 1;
    }
  }

  lemma NoMember(t: Text)
    ensures var m := ParseMember(t); !m.Ok? ==> ParseMembers(t) == NoneOf(m)
  {
    hide ParseMember, Skip;
  }

  lemma NextMember(t: Text, acc: seq<(Text, Json)>, m: (Text, Json))
    requires ParseMember(t).Ok? && ParseMember(t).value == m
    ensures var t1 := Skip(ParseMember(t).rest);
            AheadParsedM(acc, ParseMembers(t))
            == if StartsWith(t1, COMMA) then AheadParsedM(acc + [m], ParseMembers(t1[1..]))
               else if StartsWith(t1, CLOSE_BRACE) then Ok(AheadM(acc + [m], MNil), t1[1..])
               else Fail
  {
    hide ParseMember, Skip, AheadM;
    var t1 := Skip(ParseMember(t).rest);
    AheadOneM(acc, m, MNil);
    if StartsWith(t1, COMMA) && ParseMembers(t1[1..]).Ok? {
      AheadOneM(acc, m, ParseMembers(t1[1..]).value);
    }
  }

  // ----- numbers -----

  /** A digit loop of parse_number. */
  method ReadDigitsAt(t: Text, i: nat, n0: int) returns (n: int, j: nat)
    requires i <= |t|
    ensures i <= j <= |t| && ReadDigits(n0, t[i..]) == (n, t[j..])
  {
    n, j := n0, i;
    while j < |t| && IsDigit(t[j])
      invariant i <= j <= |t| && ReadDigits(n0, t[i..]) == ReadDigits(n, t[j..])
    {
      Rest(t, j, 1);
      n := n * 10 + (t[j] - ZERO);
      j := j + 1;
    }
  }

  /** parse_number. */
  method ParseNumberAt(t: Text, i: nat) returns (c: Cursor<Json>)
    requires i < |t| && (t[i] == MINUS || IsDigit(t[i]))
    ensures Reads(t, c, ParseNumber(t[i..])) && Moves(t, i, c)
  {
    hide ReadInteger, ReadFraction, ReadExponent;
    var negative := t[i] == MINUS;
    var j := i;
    if negative {
      Rest(t, i, 1);
      j := j + 1;
    }
    var n, scale, e;
    n, j := IntegerAt(t, j);
    n, scale, j := FractionAt(t, j, n);
    e, j := ExponentAt(t, j);
    c := At(Number(if negative then -n else n, scale + e), j);
  }

  method IntegerAt(t: Text, i: nat) returns (n: int, j: nat)
    requires i <= |t|
    ensures i <= j <= |t| && ReadInteger(t[i..]) == (n, t[j..])
  {
    hide ReadDigits;
    n, j := 0, i;
    if IsAt(t, j, ZERO) {
      Rest(t, i, 1);
      j := j + 1;
    }
    if j < |t| && ZERO < t[j] <= NINE {
      n, j := ReadDigitsAt(t, j, 0);
    }
  }

  method FractionAt(t: Text, i: nat, n0: int) returns (n: int, scale: int, j: nat)
    requires i <= |t|
    ensures i <= j <= |t| && ReadFraction(n0, t[i..]) == (n, scale, t[j..])
  {
    hide ReadDigits;
    n, scale, j := n0, 0, i;
    if i + 1 < |t| && t[i] == DOT && IsDigit(t[i + 1]) {
      Rest(t, i, 1);
      n, j := ReadDigitsAt(t, i + 1, n0);
      scale := (i + 1) - j;
    }
  }

  method ExponentAt(t: Text, i: nat) returns (e: int, j: nat)
    requires i <= |t|
    ensures i <= j <= |t| && ReadExponent(t[i..]) == (e, t[j..])
  {
    hide ReadDigits;
    e, j := 0, i;
    if j < |t| && (t[j] == LOWER_E || t[j] == UPPER_E) {
      Rest(t, i, 1);
      j := j + 1;
      if IsAt(t, j, PLUS) {
        Rest(t, j, 1);
        e, j := ReadDigitsAt(t, j + 1, 0);
      } else if IsAt(t, j, MINUS) {
        Rest(t, j, 1);
        e, j := ReadDigitsAt(t, j + 1, 0);
        e := -e;
      } else {
        e, j := ReadDigitsAt(t, j, 0);
      }
    }
  }
}
