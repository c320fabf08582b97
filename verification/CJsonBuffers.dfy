/**
 The printers of cJSON as the source writes them: they first add up a length, allocate a buffer
 of that length and then write into it. Each is proved to write the text that CJson defines,
 and that every write is inside its buffer is part of the proof.

 An array or object is printed in two passes: the first collects the texts of the children and
 adds to the length for each, the second composes them with brackets, separators, line breaks
 and tabs. The lemmas ArrayIsComposed and ObjectIsComposed tie the composed text to the text
 that the round trip is about.
 */
module CJsonBuffers {
  import opened CJson

  // ----- strings -----

  /** The length loop of print_string_ptr, for one byte. */
  function EscapedLength(c: int): int {
    if c == QUOTE || c == BACKSLASH || c == 8 || c == 12 || c == NEWLINE || c == 13 || c == TAB then 2
    else if c < 32 then 6
    else 1
  }

  lemma EscapedLengthIsExact(c: int)
    requires IsByte(c)
    ensures |EscapeByte(c)| == EscapedLength(c)
  {
  }

  lemma {:induction false} EscapeStep(s: Text, i: nat)
    requires i < |s|
    ensures Escape(s[..i + 1]) == Escape(s[..i]) + EscapeByte(s[i])
  {
    hide EscapeByte;
    if i == 0 {
      assert s[..1] == [s[0]] && s[..1][1..] == [] && s[..0] == [];
      assert Escape(s[..1]) == EscapeByte(s[0]) + Escape([]);
    } else {
      assert s[..i + 1][1..] == s[1..][..i] && s[..i][1..] == s[1..][..i - 1];
      EscapeStep(s[1..], i - 1);
      assert s[..i + 1][0] == s[0] && s[..i][0] == s[0];
    }
  }

  lemma {:induction false} EscapePrefix(s: Text, i: nat)
    requires i <= |s|
    ensures |Escape(s[..i])| <= |Escape(s)|
    decreases |s| - i
  {
    hide EscapeByte, Escape;
    if i < |s| {
      EscapeStep(s, i);
      EscapePrefix(s, i + 1);
    } else {
      assert s[..i] == s;
    }
  }

  method StringLength(s: Text) returns (len: nat)
    requires IsText(s)
    ensures len == |Escape(s)|
  {
    hide EscapeByte, Escape;
    len := 0;
    var i := 0;
    EscapeEmpty(s);
    while i < |s|
      invariant 0 <= i <= |s| && len == |Escape(s[..i])|
    {
      EscapeStep(s, i);
      EscapedLengthIsExact(s[i]);
      len := len + EscapedLength(s[i]);
      i := i + 1;
    }
    assert s[..i] == s;
  }

  lemma EscapeEmpty(s: Text)
    ensures Escape(s[..0]) == []
  {
    assert s[..0] == [];
  }

  /** strcpy without the terminator: copies src into the buffer at position at. */
  method CopyInto(out: array<int>, at: nat, src: Text)
    requires at + |src| <= out.Length
    modifies out
    ensures out[..at] == old(out[..at]) && out[at..at + |src|] == src
    ensures out[..at + |src|] == old(out[..at]) + src
  {
    var i := 0;
    while i < |src|
      invariant 0 <= i <= |src|
      invariant out[..at] == old(out[..at]) && out[at..at + i] == src[..i]
    {
      out[at + i] := src[i];
      i := i + 1;
      assert src[..i] == src[..i - 1] + [src[i - 1]];
      assert out[at..at + i] == out[at..at + i - 1] + [out[at + i - 1]];
    }
    assert src[..i] == src;
    assert out[..at + |src|] == out[..at] + out[at..at + |src|];
  }

  /** print_string_ptr fills its buffer exactly. */
  method PrintStringPtr(s: Text) returns (out: array<int>)
    requires IsText(s)
    ensures fresh(out) && out.Length == |PrintString(s)| + 1
    ensures out[..] == PrintString(s) + [0]
  {
    hide EscapeByte, Escape;
    var len := StringLength(s);
    out := new int[len + 3];
    out[0] := QUOTE;
    var p, i := 1, 0;
    EscapeEmpty(s);
    while i < |s|
      invariant 0 <= i <= |s| && p == 1 + |Escape(s[..i])| <= len + 1 && out.Length == len + 3 && fresh(out)
      invariant out[..p] == [QUOTE] + Escape(s[..i])
    {
      EscapeStep(s, i);
      EscapePrefix(s, i + 1);
      CopyInto(out, p, EscapeByte(s[i]));
      p := p + |EscapeByte(s[i])|;
      i := i + 1;
    }
    assert s[..i] == s;
    out[p] := QUOTE;
    assert out[..p] == [QUOTE] + Escape(s);
    out[p + 1] := 0;
    assert out[..] == out[..p] + [out[p], out[p + 1]];
  }

  // ----- arrays and objects -----

  function TotalLength(entries: seq<Text>): nat {
    if entries == [] then 0 else TotalLength(entries[..|entries| - 1]) + |entries[|entries| - 1]|
  }

  /** The entries one after the other, with the separator between them. */
  function JoinFirst(entries: seq<Text>, n: nat, fmt: bool): Text
    requires n <= |entries|
  {
    if n == 0 then []
    else JoinFirst(entries, n - 1, fmt) + entries[n - 1] + (if n < |entries| then Separator(fmt) else [])
  }

  lemma {:induction false} JoinLength(entries: seq<Text>, n: nat, fmt: bool)
    requires n <= |entries|
    ensures |JoinFirst(entries, n, fmt)| <= TotalLength(entries[..n]) + n * (if fmt then 2 else 1)
    ensures TotalLength(entries[..n]) <= TotalLength(entries)
  {
    if n > 0 {
      JoinLength(entries, n - 1, fmt);
      assert entries[..n][..n - 1] == entries[..n - 1];
    }
    TotalPrefix(entries, n);
  }

  lemma {:induction false} TotalPrefix(entries: seq<Text>, n: nat)
    requires n <= |entries|
    ensures TotalLength(entries[..n]) <= TotalLength(entries)
    decreases |entries| - n
  {
    if n < |entries| {
      TotalPrefix(entries, n + 1);
      assert entries[..n + 1][..n] == entries[..n];
    } else {
      assert entries[..n] == entries;
    }
  }

  /** The length print_array computes while it collects the entries. */
  method ArrayLength(entries: seq<Text>, fmt: bool) returns (len: nat)
    ensures len == 5 + TotalLength(entries) + |entries| * (if fmt then 3 else 2)
  {
    hide TotalLength;
    len := 5;
    var i := 0;
    TotalEmpty(entries);
    while i < |entries|
      invariant 0 <= i <= |entries| && len == 5 + TotalLength(entries[..i]) + i * (if fmt then 3 else 2)
    {
      TotalStep(entries, i);
      len := len + |entries[i]| + 2 + (if fmt then 1 else 0);
      i := i + 1;
    }
    assert entries[..i] == entries;
  }

  lemma JoinFits(entries: seq<Text>, n: nat, fmt: bool)
    requires n <= |entries|
    ensures |JoinFirst(entries, n, fmt)| + 3 <= 5 + TotalLength(entries) + |entries| * (if fmt then 3 else 2)
  {
    hide TotalLength, JoinFirst;
    JoinLength(entries, n, fmt);
  }

  /** print_array for a non-empty array: the buffer is long enough. */
  method ComposeArray(entries: seq<Text>, fmt: bool) returns (out: array<int>, n: nat)
    requires entries != []
    ensures fresh(out) && n < out.Length && out[n] == 0
    ensures out[..n] == [OPEN_BRACKET] + JoinFirst(entries, |entries|, fmt) + [CLOSE_BRACKET]
  {
    hide TotalLength, JoinFirst;
    var len := ArrayLength(entries, fmt);
    JoinFits(entries, 0, fmt);
    out := new int[len];
    out[0] := OPEN_BRACKET;
    n := 1;
    var i := 0;
    JoinEmpty(entries, fmt);
    assert out[..1] == [OPEN_BRACKET] + [];
    while i < |entries|
      invariant 0 <= i <= |entries| && n == 1 + |JoinFirst(entries, i, fmt)| && n + 2 <= len == out.Length && fresh(out)
      invariant out[..n] == [OPEN_BRACKET] + JoinFirst(entries, i, fmt)
    {
      JoinStep(entries, i, fmt);
      JoinFits(entries, i + 1, fmt);
      n := AppendEntry(out, n, entries[i], i != |entries| - 1, fmt);
      i := i + 1;
    }
    out[n] := CLOSE_BRACKET;
    assert out[..n + 1] == out[..n] + [CLOSE_BRACKET];
    n := n + 1;
    out[n] := 0;
  }

  method AppendEntry(out: array<int>, n: nat, entry: Text, more: bool, fmt: bool) returns (n': nat)
    requires n + |entry| + (if more then |Separator(fmt)| else 0) <= out.Length
    modifies out
    ensures n' == n + |entry| + (if more then |Separator(fmt)| else 0)
    ensures out[..n'] == old(out[..n]) + entry + (if more then Separator(fmt) else [])
  {
    CopyInto(out, n, entry);
    n' := n + |entry|;
    if more {
      CopyInto(out, n', Separator(fmt));
      n' := n' + |Separator(fmt)|;
    }
  }

  lemma TotalEmpty(entries: seq<Text>)
    ensures TotalLength(entries[..0]) == 0
  {
  }

  lemma TotalStep(entries: seq<Text>, i: nat)
    requires i < |entries|
    ensures TotalLength(entries[..i + 1]) == TotalLength(entries[..i]) + |entries[i]|
  {
    assert entries[..i + 1][..i] == entries[..i];
  }

  lemma JoinEmpty(entries: seq<Text>, fmt: bool)
    ensures JoinFirst(entries, 0, fmt) == []
  {
  }

  lemma JoinStep(entries: seq<Text>, i: nat, fmt: bool)
    requires i < |entries|
    ensures JoinFirst(entries, i + 1, fmt)
            == JoinFirst(entries, i, fmt) + entries[i] + (if i + 1 < |entries| then Separator(fmt) else [])
  {
  }

  /** The texts print_array collects before it composes them. */
  function Entries(items: Items, depth: int, fmt: bool): seq<Text> {
    if items.Nil? then [] else [PrintValue(items.head, depth, fmt)] + Entries(items.tail, depth, fmt)
  }

  /** Joining the collected texts is what PrintItems says. */
  lemma {:induction false} JoinIsPrintItems(items: Items, depth: int, fmt: bool)
    requires items.Cons?
    ensures var es := Entries(items, depth, fmt); JoinFirst(es, |es|, fmt) == PrintItems(items, depth, fmt)
  {
    hide PrintValue, Separator;
    var es := Entries(items, depth, fmt);
    if items.tail.Nil? {
      assert Entries(items.tail, depth, fmt) == [];
      assert es == [PrintValue(items.head, depth, fmt)];
      assert JoinFirst(es, 1, fmt) == JoinFirst(es, 0, fmt) + es[0] + [];
    } else {
      var ts := Entries(items.tail, depth, fmt);
      JoinIsPrintItems(items.tail, depth, fmt);
      JoinCons(es[0], ts, |ts|, fmt);
      assert es == [es[0]] + ts;
    }
  }

  lemma {:induction false} JoinCons(e: Text, ts: seq<Text>, n: nat, fmt: bool)
    requires n <= |ts| && ts != []
    ensures JoinFirst([e] + ts, n + 1, fmt) == e + Separator(fmt) + JoinFirst(ts, n, fmt)
  {
    hide Separator;
    var es := [e] + ts;
    if n == 0 {
      assert JoinFirst(es, 1, fmt) == JoinFirst(es, 0, fmt) + e + Separator(fmt);
    } else {
      JoinCons(e, ts, n - 1, fmt);
      assert es[n] == ts[n - 1];
      var sep := if n < |ts| then Separator(fmt) else [];
      assert JoinFirst(es, n + 1, fmt) == JoinFirst(es, n, fmt) + ts[n - 1] + sep;
      assert JoinFirst(ts, n, fmt) == JoinFirst(ts, n - 1, fmt) + ts[n - 1] + sep;
    }
  }

  /** An array prints as its collected entries composed by ComposeArray. */
  lemma ArrayIsComposed(items: Items, depth: int, fmt: bool)
    requires items.Cons?
    ensures var es := Entries(items, depth + 1, fmt);
            es != [] && PrintValue(Arr(items), depth, fmt)
                        == [OPEN_BRACKET] + JoinFirst(es, |es|, fmt) + [CLOSE_BRACKET]
  {
    JoinIsPrintItems(items, depth + 1, fmt);
  }

  /** The members of an object one after the other; depth is already that of the members. */
  function LinesFirst(names: seq<Text>, entries: seq<Text>, n: nat, depth: int, fmt: bool): Text
    requires |names| == |entries| && n <= |names|
  {
    if n == 0 then []
    else LinesFirst(names, entries, n - 1, depth, fmt) + PrintMember(names[n - 1], entries[n - 1], depth, fmt)
         + If(n < |names|, [COMMA]) + If(fmt, [NEWLINE])
  }

  /** What print_object adds to len for one member, name and entry already printed. */
  function MemberRoom(name: Text, entry: Text, depth: int, fmt: bool): int {
    |entry| + |PrintString(name)| + 2 + (if fmt then 2 + depth else 0)
  }

  function MembersRoom(names: seq<Text>, entries: seq<Text>, n: nat, depth: int, fmt: bool): int
    requires |names| == |entries| && n <= |names|
  {
    if n == 0 then 0 else MembersRoom(names, entries, n - 1, depth, fmt) + MemberRoom(names[n - 1], entries[n - 1], depth, fmt)
  }

  lemma {:induction false} LinesFit(names: seq<Text>, entries: seq<Text>, n: nat, depth: int, fmt: bool)
    requires |names| == |entries| && n <= |names| && depth >= 0
    ensures |LinesFirst(names, entries, n, depth, fmt)| <= MembersRoom(names, entries, n, depth, fmt)
    ensures MembersRoom(names, entries, n, depth, fmt) <= MembersRoom(names, entries, |names|, depth, fmt)
  {
    hide PrintString;
    if n > 0 {
      LinesFit(names, entries, n - 1, depth, fmt);
    }
    RoomGrows(names, entries, n, depth, fmt);
  }

  lemma {:induction false} RoomGrows(names: seq<Text>, entries: seq<Text>, n: nat, depth: int, fmt: bool)
    requires |names| == |entries| && n <= |names| && depth >= 0
    ensures MembersRoom(names, entries, n, depth, fmt) <= MembersRoom(names, entries, |names|, depth, fmt)
    decreases |names| - n
  {
    hide PrintString;
    if n < |names| {
      RoomGrows(names, entries, n + 1, depth, fmt);
    }
  }

  /** The length print_object computes while it collects names and entries. */
  method ObjectLength(names: seq<Text>, entries: seq<Text>, depth: nat, fmt: bool) returns (len: int)
    requires |names| == |entries|
    ensures len == 7 + (if fmt then depth else 0) + MembersRoom(names, entries, |names|, depth, fmt)
  {
    hide MembersRoom, PrintString;
    len := 7 + (if fmt then depth else 0);
    var i := 0;
    RoomEmpty(names, entries, depth, fmt);
    while i < |names|
      invariant 0 <= i <= |names|
      invariant len == 7 + (if fmt then depth else 0) + MembersRoom(names, entries, i, depth, fmt)
    {
      RoomStep(names, entries, i, depth, fmt);
      len := len + |entries[i]| + |PrintString(names[i])| + 2 + (if fmt then 2 + depth else 0);
      i := i + 1;
    }
  }

  /** print_object for a non-empty object: the buffer is long enough. */
  method ComposeObject(names: seq<Text>, entries: seq<Text>, depth0: nat, fmt: bool) returns (out: array<int>, n: nat)
    requires |names| == |entries| > 0
    ensures fresh(out) && n < out.Length && out[n] == 0
    ensures out[..n] == [OPEN_BRACE] + If(fmt, [NEWLINE]) + LinesFirst(names, entries, |names|, depth0 + 1, fmt)
                        + If(fmt, Tabs(depth0)) + [CLOSE_BRACE]
  {
    hide LinesFirst, MembersRoom, PrintMember, PrintString, Tabs, If;
    var depth := depth0 + 1;
    var len := ObjectLength(names, entries, depth, fmt);
    LinesFit(names, entries, 0, depth, fmt);
    RoomEmpty(names, entries, depth, fmt);
    IfLength(fmt, [NEWLINE]);
    IfLength(fmt, Tabs(depth0));
    out := new int[len];
    ghost var open := [OPEN_BRACE] + If(fmt, [NEWLINE]);
    out[0] := OPEN_BRACE;
    CopyInto(out, 1, If(fmt, [NEWLINE]));
    n := 1 + |If(fmt, [NEWLINE])|;
    var i := 0;
    while i < |names|
      invariant 0 <= i <= |names| && out.Length == len && fresh(out)
      invariant n == |open| + |LinesFirst(names, entries, i, depth, fmt)|
      invariant n + |If(fmt, Tabs(depth0))| + 2 <= len
      invariant out[..n] == open + LinesFirst(names, entries, i, depth, fmt)
    {
      LinesStep(names, entries, i, depth, fmt);
      LinesFit(names, entries, i + 1, depth, fmt);
      var line := PrintMember(names[i], entries[i], depth, fmt) + If(i + 1 < |names|, [COMMA]) + If(fmt, [NEWLINE]);
      ghost var lines := LinesFirst(names, entries, i, depth, fmt);
      assert open + lines + line == open + (lines + line);
      CopyInto(out, n, line);
      n := n + |line|;
      i := i + 1;
    }
    n := CloseObject(out, n, If(fmt, Tabs(depth - 1)));
  }

  /** Indentation, closing brace and terminator. */
  method CloseObject(out: array<int>, n: nat, tabs: Text) returns (n': nat)
    requires n + |tabs| + 2 <= out.Length
    modifies out
    ensures n' < out.Length && out[n'] == 0 && out[..n'] == old(out[..n]) + tabs + [CLOSE_BRACE]
  {
    CopyInto(out, n, tabs);
    n' := n + |tabs|;
    out[n'] := CLOSE_BRACE;
    assert out[..n' + 1] == out[..n'] + [CLOSE_BRACE];
    n' := n' + 1;
    out[n'] := 0;
  }

  lemma IfLength(b: bool, t: Text)
    ensures |If(b, t)| == if b then |t| else 0
  {
  }

  lemma RoomEmpty(names: seq<Text>, entries: seq<Text>, depth: int, fmt: bool)
    requires |names| == |entries|
    ensures MembersRoom(names, entries, 0, depth, fmt) == 0 && LinesFirst(names, entries, 0, depth, fmt) == []
  {
  }

  lemma RoomStep(names: seq<Text>, entries: seq<Text>, i: nat, depth: int, fmt: bool)
    requires |names| == |entries| && i < |names|
    ensures MembersRoom(names, entries, i + 1, depth, fmt)
            == MembersRoom(names, entries, i, depth, fmt) + MemberRoom(names[i], entries[i], depth, fmt)
  {
  }

  lemma LinesStep(names: seq<Text>, entries: seq<Text>, i: nat, depth: int, fmt: bool)
    requires |names| == |entries| && i < |names|
    ensures LinesFirst(names, entries, i + 1, depth, fmt)
            == LinesFirst(names, entries, i, depth, fmt)
               + (PrintMember(names[i], entries[i], depth, fmt) + If(i + 1 < |names|, [COMMA]) + If(fmt, [NEWLINE]))
  {
    hide PrintMember, If;
  }

  /**
   The empty object has its own allocation, depth + 3 bytes when formatted and 3
   when not. The text and its terminator fit exactly unless a formatted empty
   object stands at depth 0.
   */
  lemma EmptyObjectFits(depth: nat, fmt: bool)
    ensures |EmptyObject(depth, fmt)| + 1 <= (if fmt then depth + 3 else 3) <==> !(fmt && depth == 0)
  {
  }

  function Names(members: Members): seq<Text> {
    if members.MNil? then [] else [members.name] + Names(members.rest)
  }

  function MemberEntries(members: Members, depth: int, fmt: bool): (es: seq<Text>)
    ensures |es| == |Names(members)|
  {
    if members.MNil? then [] else [PrintValue(members.value, depth, fmt)] + MemberEntries(members.rest, depth, fmt)
  }

  lemma {:induction false} LinesCons(name: Text, e: Text, ns: seq<Text>, es: seq<Text>, n: nat, depth: int, fmt: bool)
    requires |ns| == |es| && n <= |ns| && ns != []
    ensures LinesFirst([name] + ns, [e] + es, n + 1, depth, fmt)
            == PrintMember(name, e, depth, fmt) + [COMMA] + If(fmt, [NEWLINE]) + LinesFirst(ns, es, n, depth, fmt)
  {
    hide PrintMember, LinesFirst, If;
    var names, entries := [name] + ns, [e] + es;
    var head := PrintMember(name, e, depth, fmt) + [COMMA] + If(fmt, [NEWLINE]);
    LinesStep(names, entries, n, depth, fmt);
    IfTrue([COMMA]);
    if n == 0 {
      RoomEmpty(names, entries, depth, fmt);
      RoomEmpty(ns, es, depth, fmt);
      assert names[0] == name && entries[0] == e;
    } else {
      LinesCons(name, e, ns, es, n - 1, depth, fmt);
      LinesStep(ns, es, n - 1, depth, fmt);
      assert names[n] == ns[n - 1] && entries[n] == es[n - 1];
      assert (n + 1 < |names|) == (n < |ns|);
    }
  }

  lemma IfTrue(t: Text)
    ensures If(true, t) == t && If(false, t) == []
  {
  }

  /** Printing the collected members one after the other is what PrintMembers says. */
  lemma {:induction false} LinesArePrintMembers(members: Members, depth: int, fmt: bool)
    requires members.MCons?
    ensures var ns, es := Names(members), MemberEntries(members, depth, fmt);
            LinesFirst(ns, es, |ns|, depth, fmt) == PrintMembers(members, depth, fmt)
  {
    hide PrintValue, PrintMember, LinesFirst, If;
    var ns, es := Names(members), MemberEntries(members, depth, fmt);
    var e := PrintValue(members.value, depth, fmt);
    IfTrue([COMMA]);
    if members.rest.MNil? {
      assert Names(members.rest) == [] && MemberEntries(members.rest, depth, fmt) == [];
      assert ns == [members.name] && es == [e];
      LinesStep(ns, es, 0, depth, fmt);
      RoomEmpty(ns, es, depth, fmt);
    } else {
      var ns', es' := Names(members.rest), MemberEntries(members.rest, depth, fmt);
      LinesArePrintMembers(members.rest, depth, fmt);
      LinesCons(members.name, e, ns', es', |ns'|, depth, fmt);
      assert ns == [members.name] + ns' && es == [e] + es';
    }
  }

  /** An object prints as its collected names and entries composed by ComposeObject. */
  lemma ObjectIsComposed(members: Members, depth: nat, fmt: bool)
    requires members.MCons?
    ensures var ns, es := Names(members), MemberEntries(members, depth + 1, fmt);
            |ns| > 0 && PrintValue(Obj(members), depth, fmt)
                        == [OPEN_BRACE] + If(fmt, [NEWLINE]) + LinesFirst(ns, es, |ns|, depth + 1, fmt)
                           + If(fmt, Tabs(depth)) + [CLOSE_BRACE]
  {
    hide PrintMembers, LinesFirst, If;
    LinesArePrintMembers(members, depth + 1, fmt);
  }
}
