/**
 The two loops of parse_string on every text, with malformed escapes: which strings keep them together.
 */
module CJsonEscapes {

  // The first loop counts the bytes to allocate and takes an escape for two characters; the second
  // copies, and jumps five characters ahead after a \u whatever stands there. sscanf's value is that
  // of the four hexadecimal digits where there are four, and arbitrary otherwise. The text is what is
  // left of the input; its end stands for the terminating NUL.
  import opened CJson

  /** What sscanf(.., "%4x", ..) leaves in its variable, for the text it is called on. */
  type Scan = Text -> int

  ghost predicate Legit(scan: Scan) {
    forall t :: 0 <= scan(t) < 0x1_0000_0000 && (HasHex4(t) ==> scan(t) == ReadHex4(t))
  }

  // ----- the counting loop -----

  /** The first loop: an escape counts once and its second character is skipped. */
  function UnitCount(t: Text): nat {
    if t == [] || t[0] == QUOTE then 0
    else if t[0] != BACKSLASH then 1 + UnitCount(t[1..])
    else if |t| < 2 then 1
    else 1 + UnitCount(t[2..])
  }

  /** The counting loop, from the start of t, comes to stand n characters further on. */
  predicate Reaches(t: Text, n: nat)
    decreases n
  {
    n == 0 ||
    (t != [] && t[0] != QUOTE &&
     if t[0] == BACKSLASH then 2 <= n && 2 <= |t| && Reaches(t[2..], n - 2) else Reaches(t[1..], n - 1))
  }

  lemma {:induction false} ReachesInside(t: Text, n: nat)
    requires Reaches(t, n)
    ensures n <= |t|
    decreases n
  {
    if n > 0 {
      if t[0] == BACKSLASH {
        ReachesInside(t[2..], n - 2);
      } else {
        ReachesInside(t[1..], n - 1);
      }
    }
  }

  /** Two stretches one after the other. */
  lemma {:induction false} ReachesOn(t: Text, m: nat, n: nat)
    requires Reaches(t, m)
    ensures m <= |t| && (Reaches(t[m..], n) <==> Reaches(t, m + n))
    decreases m
  {
    ReachesInside(t, m);
    if m > 0 {
      var k := if t[0] == BACKSLASH then 2 else 1;
      ReachesOn(t[k..], m - k, n);
      assert t[k..][m - k..] == t[m..];
    } else {
      assert t[0..] == t;
    }
  }

  // ----- the copying loop -----

  /** What a \u escape at the front of t writes, and how far the cursor jumps. */
  datatype Jump = Jump(bytes: Text, skip: nat)

  predicate HasPair(t: Text) { |t| >= 8 && t[6] == BACKSLASH && t[7] == LOWER_U }

  function JumpAt(scan: Scan, t: Text): (r: Jump)
    requires |t| >= 2
    ensures r.skip == 6 || (r.skip == 12 && HasPair(t))
  {
    var uc := scan(t[2..]);
    if 0xDC00 <= uc <= 0xDFFF || uc == 0 then Jump([], 6)
    else if 0xD800 <= uc <= 0xDBFF then
      if !HasPair(t) then Jump([], 6)
      else
        var uc2 := scan(t[8..]);
        if uc2 < 0xDC00 || uc2 > 0xDFFF then Jump([], 12)
        else Jump(Utf8(0x10000 + (uc - 0xD800) * 1024 + (uc2 - 0xDC00)), 12)
    else Jump(Utf8(uc), 6)
  }

  /** The copying loop ends at a quote or the terminator, or its cursor is past the terminator. */
  datatype Walked = Stopped(bytes: Text, rest: Text) | PastEnd(bytes: Text)

  function After(bytes: Text, w: Walked): Walked {
    match w
    case Stopped(b, rest) => Stopped(bytes + b, rest)
    case PastEnd(b) => PastEnd(bytes + b)
  }

  function Walk(scan: Scan, t: Text): Walked
    decreases |t|
  {
    if t == [] then Stopped([], [])
    else if t[0] == QUOTE then Stopped([], t[1..])
    else if t[0] != BACKSLASH then After([t[0]], Walk(scan, t[1..]))
    else if |t| < 2 then PastEnd([0])
    else if t[1] != LOWER_U then After([EscapedByte(t[1])], Walk(scan, t[2..]))
    else
      var j := JumpAt(scan, t);
      if j.skip > |t| then PastEnd(j.bytes) else After(j.bytes, Walk(scan, t[j.skip..]))
  }

  /** The cursor of the copying loop only ever stands where the counting loop stood: it never leaves the string. */
  predicate Tracks(scan: Scan, t: Text)
    decreases |t|
  {
    if t == [] || t[0] == QUOTE then true
    else if t[0] != BACKSLASH then Tracks(scan, t[1..])
    else if |t| < 2 then false
    else if t[1] != LOWER_U then Tracks(scan, t[2..])
    else
      var n := JumpAt(scan, t).skip;
      Reaches(t, n) && n <= |t| && Tracks(scan, t[n..])
  }

  /**
   The strings on which the loops stay together: a backslash is followed by a character, and the
   four characters after a \u belong to the string, the last one not being the backslash of an escape.
   */
  predicate WellEscaped(t: Text)
    decreases |t|
  {
    if t == [] || t[0] == QUOTE then true
    else if t[0] != BACKSLASH then WellEscaped(t[1..])
    else if |t| < 2 then false
    else if t[1] != LOWER_U then WellEscaped(t[2..])
    else Reaches(t, 6) && |t| >= 6 && WellEscaped(t[6..])
  }

  lemma {:induction false} WellEscapedTracks(scan: Scan, t: Text)
    requires WellEscaped(t)
    ensures Tracks(scan, t)
    decreases |t|
  {
    hide JumpAt, Reaches;
    if t != [] && t[0] != QUOTE {
      if t[0] != BACKSLASH {
        WellEscapedTracks(scan, t[1..]);
      } else if t[1] != LOWER_U {
        WellEscapedTracks(scan, t[2..]);
      } else if JumpAt(scan, t).skip == 6 {
        WellEscapedTracks(scan, t[6..]);
      } else {
        assert t[6..][0] == BACKSLASH && t[6..][1] == LOWER_U;
        ReachesOn(t, 6, 6);
        ReachesInside(t, 12);
        assert t[6..][6..] == t[12..];
        WellEscapedTracks(scan, t[12..]);
      }
    }
  }

  /** sscanf, with 'A' where there are not four digits. */
  function Plain(t: Text): int { if HasHex4(t) then ReadHex4(t) else 0x41 }

  lemma PlainIsLegit()
    ensures Legit(Plain)
  {
  }

  /** Four hexadecimal digits after a \u are four characters for the counting loop. */
  lemma HexReaches(t: Text)
    requires |t| >= 2 && t[0] == BACKSLASH && HasHex4(t[2..])
    ensures Reaches(t, 6) && |t| >= 6
  {
    FourReach(t[2..]);
  }

  lemma FourReach(t: Text)
    requires |t| >= 4 && forall i :: 0 <= i < 4 ==> t[i] != QUOTE && t[i] != BACKSLASH
    ensures Reaches(t, 4)
  {
    assert t[1..][0] == t[1] && t[2..][0] == t[2] && t[3..][0] == t[3];
    assert t[1..][1..] == t[2..] && t[2..][1..] == t[3..];
    assert Reaches(t[3..], 1) && Reaches(t[2..], 2) && Reaches(t[1..], 3);
  }

  lemma {:induction false} PlainTracksMeansWell(t: Text)
    requires Tracks(Plain, t)
    ensures WellEscaped(t)
    decreases |t|
  {
    hide Reaches, HasHex4, ReadHex4;
    if t != [] && t[0] != QUOTE {
      if t[0] != BACKSLASH {
        PlainTracksMeansWell(t[1..]);
      } else if t[1] != LOWER_U {
        PlainTracksMeansWell(t[2..]);
      } else if JumpAt(Plain, t).skip == 6 {
        PlainTracksMeansWell(t[6..]);
      } else {
        HexReaches(t);
        ReachesOn(t, 6, 6);
        PlainTracksMeansWell(t[12..]);
        assert t[6..][6..] == t[12..];
      }
    }
  }

  /** Whatever sscanf makes of malformed escapes, the cursor stays in the string exactly if the string is well escaped. */
  lemma StaysInStringExactly(t: Text)
    ensures (forall scan: Scan :: Legit(scan) ==> Tracks(scan, t)) <==> WellEscaped(t)
  {
    hide Tracks, WellEscaped, Legit;
    if WellEscaped(t) {
      forall scan: Scan | Legit(scan)
        ensures Tracks(scan, t)
      {
        WellEscapedTracks(scan, t);
      }
    } else {
      PlainIsLegit();
      if Tracks(Plain, t) {
        PlainTracksMeansWell(t);
      }
    }
  }

  // ----- where the cursor ends, and how much is written -----

  /** The text after the string, as the counting loop sees it. */
  function AfterString(t: Text): Text {
    if t == [] then []
    else if t[0] == QUOTE then t[1..]
    else if t[0] != BACKSLASH then AfterString(t[1..])
    else if |t| < 2 then []
    else AfterString(t[2..])
  }

  lemma {:induction false} AfterStringFrom(t: Text, n: nat)
    requires Reaches(t, n)
    ensures n <= |t| && AfterString(t) == AfterString(t[n..])
    decreases n
  {
    ReachesInside(t, n);
    if n == 0 {
      assert t[0..] == t;
    } else {
      var k := if t[0] == BACKSLASH then 2 else 1;
      AfterStringFrom(t[k..], n - k);
      assert t[k..][n - k..] == t[n..];
    }
  }

  /** A copying loop that tracks the counting loop stops where that does. */
  lemma {:induction false} TrackingStops(scan: Scan, t: Text)
    requires Tracks(scan, t)
    ensures Walk(scan, t).Stopped? && Walk(scan, t).rest == AfterString(t)
    decreases |t|
  {
    hide JumpAt, Reaches;
    if t != [] && t[0] != QUOTE {
      if t[0] != BACKSLASH {
        TrackingStops(scan, t[1..]);
      } else if t[1] != LOWER_U {
        TrackingStops(scan, t[2..]);
      } else {
        var n := JumpAt(scan, t).skip;
        AfterStringFrom(t, n);
        TrackingStops(scan, t[n..]);
      }
    }
  }

  predicate IsPlain(c: int) { c != QUOTE && c != BACKSLASH }

  /** The four characters after each \u are neither quotes nor backslashes nor the end. */
  predicate PlainEscapes(t: Text)
    decreases |t|
  {
    if t == [] || t[0] == QUOTE then true
    else if t[0] != BACKSLASH then PlainEscapes(t[1..])
    else if |t| < 2 then false
    else if t[1] != LOWER_U then PlainEscapes(t[2..])
    else
      |t| >= 6 && IsPlain(t[2]) && IsPlain(t[3]) && IsPlain(t[4]) && IsPlain(t[5]) && PlainEscapes(t[6..])
  }

  lemma {:induction false} PlainIsWell(t: Text)
    requires PlainEscapes(t)
    ensures WellEscaped(t)
    decreases |t|
  {
    hide Reaches;
    if t != [] && t[0] != QUOTE {
      if t[0] != BACKSLASH {
        PlainIsWell(t[1..]);
      } else if t[1] != LOWER_U {
        PlainIsWell(t[2..]);
      } else {
        SixCharacters(t);
        PlainIsWell(t[6..]);
      }
    }
  }

  /** A \u and four plain characters count for five units. */
  lemma SixCharacters(t: Text)
    requires |t| >= 6 && t[0] == BACKSLASH && IsPlain(t[2]) && IsPlain(t[3]) && IsPlain(t[4]) && IsPlain(t[5])
    ensures Reaches(t, 6) && UnitCount(t) == 5 + UnitCount(t[6..])
  {
    FourReach(t[2..]);
    assert t[2..][1..] == t[3..] && t[3..][1..] == t[4..] && t[4..][1..] == t[5..] && t[5..][1..] == t[6..];
    assert UnitCount(t[5..]) == 1 + UnitCount(t[6..]);
    assert UnitCount(t[4..]) == 1 + UnitCount(t[5..]);
    assert UnitCount(t[3..]) == 1 + UnitCount(t[4..]);
    assert UnitCount(t[2..]) == 1 + UnitCount(t[3..]);
  }

  lemma JumpWrites(scan: Scan, t: Text)
    requires |t| >= 2
    ensures |JumpAt(scan, t).bytes| <= 4
  {
    hide Utf8;
  }

  /** With plain escapes, the buffer of len + 1 bytes holds what is written and its terminator, whatever sscanf returns. */
  lemma {:induction false} WrittenFits(scan: Scan, t: Text)
    requires PlainEscapes(t)
    ensures Walk(scan, t).Stopped? && |Walk(scan, t).bytes| <= UnitCount(t)
    decreases |t|
  {
    hide JumpAt, UnitCount;
    CountStep(t);
    if t != [] && t[0] != QUOTE {
      if t[0] != BACKSLASH {
        WrittenFits(scan, t[1..]);
      } else if t[1] != LOWER_U {
        WrittenFits(scan, t[2..]);
      } else {
        JumpWrites(scan, t);
        SixCharacters(t);
        if JumpAt(scan, t).skip == 6 {
          WrittenFits(scan, t[6..]);
        } else {
          PairIsPlain(t);
          WrittenFits(scan, t[12..]);
        }
      }
    }
  }

  lemma CountStep(t: Text)
    ensures UnitCount(t) == if t == [] || t[0] == QUOTE then 0
                            else if t[0] != BACKSLASH then 1 + UnitCount(t[1..])
                            else if |t| < 2 then 1 else 1 + UnitCount(t[2..])
  {
  }

  lemma PairIsPlain(t: Text)
    requires |t| >= 6 && PlainEscapes(t[6..]) && HasPair(t)
    ensures |t| >= 12 && PlainEscapes(t[12..]) && UnitCount(t[6..]) == 5 + UnitCount(t[12..])
  {
    var u := t[6..];
    assert u[0] == BACKSLASH && u[1] == LOWER_U;
    SixCharacters(u);
    assert u[6..] == t[12..];
  }

  /** A string the grammar reads is copied as it says, with plain escapes. */
  lemma {:induction false} UnescapedIsWalked(scan: Scan, t: Text)
    requires Legit(scan) && Unescape(t).Ok?
    ensures Walk(scan, t) == Stopped(Unescape(t).value, Unescape(t).rest) && PlainEscapes(t)
    decreases |t|
  {
    hide Utf8, ReadHex4, EscapedByte, JumpAt, UnicodeEscape;
    if t != [] && t[0] != QUOTE {
      if t[0] != BACKSLASH {
        UnescapedIsWalked(scan, t[1..]);
      } else if t[1] != LOWER_U {
        UnescapedIsWalked(scan, t[2..]);
      } else {
        EscapeIsJump(scan, t);
        UnescapedIsWalked(scan, UnicodeEscape(t[2..]).rest);
      }
    }
  }

  lemma EscapeIsJump(scan: Scan, t: Text)
    requires Legit(scan) && |t| >= 2 && t[0] == BACKSLASH && t[1] == LOWER_U && UnicodeEscape(t[2..]).Ok?
    ensures var u, j := UnicodeEscape(t[2..]), JumpAt(scan, t);
            && j.skip <= |t| && u.value == j.bytes && u.rest == t[j.skip..]
            && (PlainEscapes(t[j.skip..]) ==> PlainEscapes(t))
  {
    hide Utf8, ReadHex4, PlainEscapes;
    var s := t[2..];
    assert HasHex4(s) && scan(s) == ReadHex4(s);
    assert s[4..] == t[6..];
    HexIsPlain(t);
    if HasPair(t) {
      assert s[4..][2..] == t[8..];
      if HasHex4(t[8..]) {
        assert s[4..][6..] == t[12..];
        assert t[6..][2..] == t[8..] && t[6..][6..] == t[12..];
        HexIsPlain(t[6..]);
      }
    }
  }

  lemma HexIsPlain(t: Text)
    requires |t| >= 2 && t[0] == BACKSLASH && t[1] == LOWER_U && HasHex4(t[2..])
    ensures |t| >= 6 && (PlainEscapes(t[6..]) ==> PlainEscapes(t))
  {
    var s := t[2..];
    assert t[2] == s[0] && t[3] == s[1] && t[4] == s[2] && t[5] == s[3];
  }

  // ----- a string that is not well escaped -----

  /** After the opening quote of "\u",1,1,1 : the four characters after the \u reach past the closing quote. */
  const BROKEN: Text := [BACKSLASH, LOWER_U, QUOTE, COMMA, 49, COMMA, 49, COMMA, 49]

  /** One unit is counted and two bytes are allocated, but the rest of the text is copied too: five bytes with the terminator. */
  lemma BrokenEscapeOverruns()
    ensures UnitCount(BROKEN) == 1 && AfterString(BROKEN) == [COMMA, 49, COMMA, 49, COMMA, 49]
    ensures !WellEscaped(BROKEN) && !Tracks(Plain, BROKEN)
    ensures Walk(Plain, BROKEN) == Stopped([0x41, 49, COMMA, 49], [])
  {
    var t := BROKEN;
    assert t[2..] == [QUOTE, COMMA, 49, COMMA, 49, COMMA, 49];
    assert !Reaches(t[2..], 4) && !Reaches(t, 6);
    assert HexValue(QUOTE) < 0;
    assert Plain(t[2..]) == 0x41 && JumpAt(Plain, t) == Jump([0x41], 6);
    assert t[6..] == [49, COMMA, 49];
    assert [49, COMMA, 49][1..] == [COMMA, 49] && [COMMA, 49][1..] == [49] && [49][1..] == [];
    assert Walk(Plain, [49]) == Stopped([49], []);
    assert Walk(Plain, [COMMA, 49]) == Stopped([COMMA, 49], []);
    assert Walk(Plain, [49, COMMA, 49]) == Stopped([49, COMMA, 49], []);
  }
}
