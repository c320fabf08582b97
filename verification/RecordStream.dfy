/**
 record_stream: frames of a four-byte big-endian length and a payload, over any split of the bytes.
 */
module RecordStream {

  // The descriptor hands over any number of bytes at a time. (The comment above
  // record_stream_get_next speaks of a 16-bit length; the code reads 32 bits.)

  import opened Octets

  const HEADER_SIZE: nat := 4

  // ----- frames -----

  function Declared(b: seq<Byte>): nat
    requires |b| >= HEADER_SIZE
  {
    (b[0] as int) * 0x100_0000 + (b[1] as int) * 0x1_0000 + (b[2] as int) * 0x100 + (b[3] as int)
  }

  /** A whole frame at the front. */
  predicate HasFrame(b: seq<Byte>) {
    |b| >= HEADER_SIZE && HEADER_SIZE + Declared(b) <= |b|
  }

  function Payload(b: seq<Byte>): seq<Byte>
    requires HasFrame(b)
  {
    b[HEADER_SIZE..HEADER_SIZE + Declared(b)]
  }

  function AfterFrame(b: seq<Byte>): (r: seq<Byte>)
    requires HasFrame(b)
    ensures |r| < |b|
  {
    b[HEADER_SIZE + Declared(b)..]
  }

  /** The records of a byte stream, in order. */
  function Frames(b: seq<Byte>): seq<seq<Byte>>
    decreases |b|
  {
    if HasFrame(b) then [Payload(b)] + Frames(AfterFrame(b)) else []
  }

  /** Every record of the stream, the unfinished one at its end included, is at most max long. */
  predicate AllFit(max: nat, b: seq<Byte>)
    decreases |b|
  {
    |b| >= HEADER_SIZE ==> Declared(b) <= max && (HasFrame(b) ==> AllFit(max, AfterFrame(b)))
  }

  /** A frame at the front stays what it is when more bytes follow. */
  lemma FrameExtends(b: seq<Byte>, more: seq<Byte>)
    requires HasFrame(b)
    ensures HasFrame(b + more) && Payload(b + more) == Payload(b) && AfterFrame(b + more) == AfterFrame(b) + more
  {
  }

  lemma DeclaredExtends(b: seq<Byte>, more: seq<Byte>)
    requires |b| >= HEADER_SIZE
    ensures Declared(b + more) == Declared(b)
  {
  }

  // ----- record_stream_get_next on values -----

  /** The unread bytes of the buffer, and where in it they start. */
  datatype Stream = Stream(start: nat, pending: seq<Byte>)

  datatype Outcome =
    | Record(payload: seq<Byte>)  // 0, with a record
    | NoRecord(count: int)        // what read returned: 0 at the end of the stream, or an error
    | Again                       // -1, EAGAIN
    | TooBig                      // -1, EFBIG

  /** What read returns: an error or end as granted, else up to the room and the bytes there are. */
  function ReadCount(room: nat, rest: seq<Byte>, grant: int): (n: int)
    ensures n <= room && n <= |rest|
  {
    if grant <= 0 then grant
    else if room <= grant && room <= |rest| then room
    else if grant <= |rest| then grant
    else |rest|
  }

  datatype Call = Call(stream: Stream, rest: seq<Byte>, outcome: Outcome)

  predicate Full(max: nat, s: Stream) { s.start == 0 && |s.pending| == max + HEADER_SIZE }

  /** One call: rest is what the descriptor still holds, grant is what it is willing to give. */
  function GetNext(max: nat, s: Stream, rest: seq<Byte>, grant: int): Call
    requires s.start + |s.pending| <= max + HEADER_SIZE
  {
    if HasFrame(s.pending) then
      Call(Stream(s.start + HEADER_SIZE + Declared(s.pending), AfterFrame(s.pending)), rest, Record(Payload(s.pending)))
    else if Full(max, s) then Call(s, rest, TooBig)
    else
      var n := ReadCount(max + HEADER_SIZE - |s.pending|, rest, grant);
      if n <= 0 then Call(Stream(0, s.pending), rest, NoRecord(n))
      else
        var b := s.pending + rest[..n];
        if HasFrame(b) then Call(Stream(HEADER_SIZE + Declared(b), AfterFrame(b)), rest[n..], Record(Payload(b)))
        else Call(Stream(0, b), rest[n..], Again)
  }

  function Delivered(o: Outcome): seq<seq<Byte>> {
    if o.Record? then [o.payload] else []
  }

  /** No call loses, repeats or reorders a byte: what it delivers is what leaves the front of the stream. */
  lemma CallConserves(max: nat, s: Stream, rest: seq<Byte>, grant: int)
    requires s.start + |s.pending| <= max + HEADER_SIZE
    ensures var c := GetNext(max, s, rest, grant);
            && c.stream.start + |c.stream.pending| <= max + HEADER_SIZE
            && Frames(s.pending + rest) == Delivered(c.outcome) + Frames(c.stream.pending + c.rest)
  {
    hide Declared, Frames;
    var c := GetNext(max, s, rest, grant);
    if HasFrame(s.pending) {
      FrameExtends(s.pending, rest);
      FramesStep(s.pending + rest);
    } else if !Full(max, s) {
      var n := ReadCount(max + HEADER_SIZE - |s.pending|, rest, grant);
      if n > 0 {
        var b := s.pending + rest[..n];
        assert rest == rest[..n] + rest[n..];
        assert b + rest[n..] == s.pending + rest;
        if HasFrame(b) {
          FrameExtends(b, rest[n..]);
          FramesStep(b + rest[n..]);
        }
      }
    }
  }

  lemma FramesStep(b: seq<Byte>)
    requires HasFrame(b)
    ensures Frames(b) == [Payload(b)] + Frames(AfterFrame(b))
  {
  }

  /** A full buffer without a frame means a header that declares more than the maximum, and only that. */
  lemma FullMeansTooBig(max: nat, s: Stream)
    requires s.start + |s.pending| <= max + HEADER_SIZE && Full(max, s)
    ensures !HasFrame(s.pending) <==> Declared(s.pending) > max
  {
  }

  /** What read returned is what the caller gets: an error as it is, and 0 at the end of the stream only. */
  lemma ReadResultIsReported(max: nat, s: Stream, rest: seq<Byte>, grant: int)
    requires s.start + |s.pending| <= max + HEADER_SIZE && !HasFrame(s.pending) && |s.pending| < max + HEADER_SIZE
    ensures var c := GetNext(max, s, rest, grant);
            && (grant <= 0 ==> c.outcome == NoRecord(grant) && c.rest == rest && c.stream.pending == s.pending)
            && (grant > 0 ==> (c.outcome == NoRecord(0) <==> rest == []))
            && (grant > 0 && rest != [] ==> c.outcome.Record? || c.outcome.Again?)
  {
  }

  /** With records of at most max bytes the buffer is never full, every read has room, and each call goes forward. */
  lemma CallProgresses(max: nat, s: Stream, rest: seq<Byte>, grant: int)
    requires s.start + |s.pending| <= max + HEADER_SIZE && AllFit(max, s.pending + rest)
    ensures var c := GetNext(max, s, rest, grant);
            && AllFit(max, c.stream.pending + c.rest)
            && !c.outcome.TooBig?
            && (!HasFrame(s.pending) ==> |s.pending| < max + HEADER_SIZE)
            && (grant > 0 && rest != [] ==> !c.outcome.NoRecord?)
            && (!c.outcome.NoRecord? ==> 2 * |c.rest| + |c.stream.pending| < 2 * |rest| + |s.pending|)
  {
    hide Declared, AllFit;
    var all := s.pending + rest;
    FitStep(max, all);
    if |s.pending| >= HEADER_SIZE {
      DeclaredExtends(s.pending, rest);
    }
    if HasFrame(s.pending) {
      FrameExtends(s.pending, rest);
    } else {
      var n := ReadCount(max + HEADER_SIZE - |s.pending|, rest, grant);
      if n > 0 {
        var b := s.pending + rest[..n];
        assert rest == rest[..n] + rest[n..];
        assert b + rest[n..] == all;
        if HasFrame(b) {
          FrameExtends(b, rest[n..]);
        }
      }
    }
  }

  lemma FitStep(max: nat, b: seq<Byte>)
    requires AllFit(max, b)
    ensures |b| >= HEADER_SIZE ==> Declared(b) <= max
    ensures HasFrame(b) ==> AllFit(max, AfterFrame(b))
  {
  }

  // ----- runs -----

  datatype Run = Run(stream: Stream, rest: seq<Byte>, records: seq<seq<Byte>>, last: Outcome)

  /** Calls made one after another on a new stream whose bytes are all, with the given grants. */
  function RunOf(max: nat, all: seq<Byte>, grants: seq<int>): (r: Run)
    ensures r.stream.start + |r.stream.pending| <= max + HEADER_SIZE
  {
    if grants == [] then Run(Stream(0, []), all, [], Again)
    else
      var before := RunOf(max, all, grants[..|grants| - 1]);
      var c := GetNext(max, before.stream, before.rest, grants[|grants| - 1]);
      assert c.stream.start + |c.stream.pending| <= max + HEADER_SIZE by {
        CallConserves(max, before.stream, before.rest, grants[|grants| - 1]);
      }
      Run(c.stream, c.rest, before.records + Delivered(c.outcome), c.outcome)
  }

  /** However the bytes are split across reads, the records so far are the first frames of the stream. */
  lemma {:induction false} RecordsAreFrames(max: nat, all: seq<Byte>, grants: seq<int>)
    ensures var r := RunOf(max, all, grants); Frames(all) == r.records + Frames(r.stream.pending + r.rest)
  {
    hide GetNext, Frames, Delivered;
    if grants == [] {
      assert [] + all == all && [] + Frames(all) == Frames(all);
    } else {
      var n := |grants| - 1;
      RecordsAreFrames(max, all, grants[..n]);
      var before := RunOf(max, all, grants[..n]);
      CallConserves(max, before.stream, before.rest, grants[n]);
      var c := GetNext(max, before.stream, before.rest, grants[n]);
      assert before.records + (Delivered(c.outcome) + Frames(c.stream.pending + c.rest))
          == before.records + Delivered(c.outcome) + Frames(c.stream.pending + c.rest);
    }
  }

  /** With records of at most max bytes no call of any run reports EFBIG. */
  lemma {:induction false} NeverTooBig(max: nat, all: seq<Byte>, grants: seq<int>)
    requires AllFit(max, all)
    ensures var r := RunOf(max, all, grants); AllFit(max, r.stream.pending + r.rest) && !r.last.TooBig?
  {
    hide GetNext, AllFit;
    if grants == [] {
      assert [] + all == all;
    } else {
      var n := |grants| - 1;
      NeverTooBig(max, all, grants[..n]);
      var before := RunOf(max, all, grants[..n]);
      CallProgresses(max, before.stream, before.rest, grants[n]);
    }
  }

  /**
   Two runs over one stream that both reach its end (read returned 0 because no byte was
   left) deliver the same records: all the frames, in order.
   */
  lemma EndOfStreamDeliversAll(max: nat, all: seq<Byte>, grants: seq<int>)
    requires AllFit(max, all) && grants != [] && grants[|grants| - 1] > 0
    requires RunOf(max, all, grants).last == NoRecord(0)
    ensures RunOf(max, all, grants).records == Frames(all)
  {
    hide AllFit, Declared, Frames;
    var n := |grants| - 1;
    RecordsAreFrames(max, all, grants);
    NeverTooBig(max, all, grants[..n]);
    var before := RunOf(max, all, grants[..n]);
    CallProgresses(max, before.stream, before.rest, grants[n]);
    var r := RunOf(max, all, grants);
    assert before.rest == [] && r.rest == [] && r.stream.pending == before.stream.pending;
    assert !HasFrame(r.stream.pending);
    assert r.stream.pending + [] == r.stream.pending;
    NoFrames(r.stream.pending);
    assert r.records + [] == r.records;
  }

  lemma NoFrames(b: seq<Byte>)
    requires !HasFrame(b)
    ensures Frames(b) == []
  {
  }

  // ----- writing frames -----

  function FrameOf(p: seq<Byte>): seq<Byte>
    requires |p| < 0x1_0000_0000
  {
    [|p| / 0x100_0000, |p| / 0x1_0000 % 0x100, |p| / 0x100 % 0x100, |p| % 0x100] + p
  }

  ghost predicate Short(max: nat, ps: seq<seq<Byte>>) { forall i :: 0 <= i < |ps| ==> |ps[i]| <= max }

  function StreamOf(max: nat, ps: seq<seq<Byte>>): seq<Byte>
    requires max <= 0xffff && Short(max, ps)
  {
    if ps == [] then [] else FrameOf(ps[0]) + StreamOf(max, ps[1..])
  }

  lemma FrameRead(p: seq<Byte>, more: seq<Byte>)
    requires |p| < 0x1_0000_0000
    ensures var b := FrameOf(p) + more; HasFrame(b) && Payload(b) == p && AfterFrame(b) == more && Declared(b) == |p|
  {
    var f := FrameOf(p);
    var b := f + more;
    assert b[0] == f[0] && b[1] == f[1] && b[2] == f[2] && b[3] == f[3];
    BigEndian(|p|);
    assert Declared(b) == |p|;
    hide Declared;
    assert b[4..4 + |p|] == p && b[4 + |p|..] == more;
  }

  lemma BigEndian(n: nat)
    ensures n / 0x100_0000 * 0x100_0000 + n / 0x1_0000 % 0x100 * 0x1_0000 + n / 0x100 % 0x100 * 0x100 + n % 0x100 == n
  {
    var q := n / 0x100;
    assert n / 0x1_0000 == q / 0x100;
    var q2 := q / 0x100;
    assert n / 0x100_0000 == q2 / 0x100;
  }

  /** What a sender frames is what the receiver's stream holds. */
  lemma {:induction false} FramesOfStream(max: nat, ps: seq<seq<Byte>>)
    requires max <= 0xffff && Short(max, ps)
    ensures Frames(StreamOf(max, ps)) == ps && AllFit(max, StreamOf(max, ps))
  {
    hide FrameOf, Payload, AfterFrame, HasFrame, Declared;
    if ps == [] {
    } else {
      FramesOfStream(max, ps[1..]);
      FrameRead(ps[0], StreamOf(max, ps[1..]));
      assert ps == [ps[0]] + ps[1..];
    }
  }

  // ----- the buffer -----

  /** A frame in a part of the buffer, by offsets into the buffer. */
  lemma FrameInside(all: seq<Byte>, from: nat, to: nat)
    requires from <= to <= |all|
    ensures var b := all[from..to];
            && (HasFrame(b) ==> from + HEADER_SIZE <= to)
            && (from + HEADER_SIZE <= to ==>
                  var n := Declared(all[from..from + HEADER_SIZE]);
                  && n == Declared(b)
                  && (HasFrame(b) <==> from + HEADER_SIZE + n <= to)
                  && (HasFrame(b) ==>
                        && Payload(b) == all[from + HEADER_SIZE..from + HEADER_SIZE + n]
                        && AfterFrame(b) == all[from + HEADER_SIZE + n..to]))
  {
    var b := all[from..to];
    if from + HEADER_SIZE <= to {
      assert b == all[from..from + HEADER_SIZE] + all[from + HEADER_SIZE..to];
      DeclaredExtends(all[from..from + HEADER_SIZE], all[from + HEADER_SIZE..to]);
      hide Declared;
    }
  }

  class Reader {
    const max: nat
    const buffer: array<Byte>
    var unconsumed: nat
    var readEnd: nat

    ghost predicate Valid() reads this {
      buffer.Length == max + HEADER_SIZE && unconsumed <= readEnd <= buffer.Length
    }

    ghost function State(): Stream
      reads this, buffer
      requires Valid()
    {
      Stream(unconsumed, buffer[unconsumed..readEnd])
    }

    constructor (maxRecordLen: nat)
      ensures Valid() && fresh(buffer) && max == maxRecordLen && State() == Stream(0, [])
    {
      max := maxRecordLen;
      buffer := new Byte[maxRecordLen + HEADER_SIZE];
      unconsumed, readEnd := 0, 0;
    }

    /** getNextRecord, with getEndOfRecord inside. */
    method TakeRecord() returns (r: Outcome)
      requires Valid()
      modifies this`unconsumed
      ensures Valid()
      ensures var b := old(State()).pending;
              if HasFrame(b) then r == Record(Payload(b)) && State() == Stream(old(unconsumed) + HEADER_SIZE + Declared(b), AfterFrame(b))
              else r == Again && State() == old(State())
    {
      FrameInside(buffer[..], unconsumed, readEnd);
      hide HasFrame, Declared, Payload, AfterFrame;
      assert buffer[..][unconsumed..readEnd] == buffer[unconsumed..readEnd];
      if readEnd < unconsumed + HEADER_SIZE {
        return Again;
      }
      var len := Declared(buffer[unconsumed..unconsumed + HEADER_SIZE]);
      assert buffer[..][unconsumed..unconsumed + HEADER_SIZE] == buffer[unconsumed..unconsumed + HEADER_SIZE];
      var end := unconsumed + HEADER_SIZE + len;
      if readEnd < end {
        return Again;
      }
      r := Record(buffer[unconsumed + HEADER_SIZE..end]);
      assert buffer[..][unconsumed + HEADER_SIZE..end] == r.payload && buffer[..][end..readEnd] == buffer[end..readEnd];
      unconsumed := end;
    }

    /** The memmove that brings the remainder to the beginning. */
    method Compact()
      requires Valid()
      modifies this, buffer
      ensures Valid() && State() == Stream(0, old(State()).pending)
    {
      var toMove := readEnd - unconsumed;
      for i := 0 to toMove
        invariant Valid() && unconsumed == old(unconsumed) && readEnd == old(readEnd)
        invariant forall j :: 0 <= j < i ==> buffer[j] == old(buffer[unconsumed + j])
        invariant forall j :: i <= j < buffer.Length ==> buffer[j] == old(buffer[j])
      {
        buffer[i] := buffer[unconsumed + i];
      }
      readEnd := toMove;
      unconsumed := 0;
    }

    /** read: appends the granted bytes. */
    method Fill(rest: seq<Byte>, grant: int) returns (n: int)
      requires Valid() && unconsumed == 0
      modifies this`readEnd, buffer
      ensures Valid() && n == ReadCount(max + HEADER_SIZE - old(readEnd), rest, grant)
      ensures State() == if n <= 0 then old(State()) else Stream(0, old(State()).pending + rest[..n])
    {
      n := ReadCount(buffer.Length - readEnd, rest, grant);
      if n <= 0 {
        return;
      }
      for i := 0 to n
        invariant readEnd == old(readEnd)
        invariant forall j :: 0 <= j < readEnd ==> buffer[j] == old(buffer[j])
        invariant forall j :: 0 <= j < i ==> buffer[readEnd + j] == rest[j]
      {
        buffer[readEnd + i] := rest[i];
      }
      readEnd := readEnd + n;
    }

    /** record_stream_get_next. */
    method GetNextRecord(rest: seq<Byte>, grant: int) returns (rest': seq<Byte>, r: Outcome)
      requires Valid()
      modifies this, buffer
      ensures Valid() && Call(State(), rest', r) == GetNext(max, old(State()), rest, grant)
    {
      hide HasFrame, Declared, Payload, AfterFrame;
      rest' := rest;
      r := TakeRecord();
      if r.Record? {
        return;
      }
      if unconsumed == 0 && readEnd == buffer.Length {
        return rest, TooBig;
      }
      if unconsumed != 0 {
        Compact();
      }
      var n := Fill(rest, grant);
      if n <= 0 {
        return rest, NoRecord(n);
      }
      rest' := rest[n..];
      r := TakeRecord();
    }
  }
}
