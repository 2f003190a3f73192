/** What is written between the markers is delivered: in order, exactly once, however the line cuts
    the stream into reads. */
module FramingTheorems {
  import opened Bytes
  import opened Framing

  /** One frame on the line and the noise before it. */
  datatype Segment = Segment(noise: seq<byte>, payload: seq<byte>)

  /** The markers first occur where they were written, and the frame fits the reader's buffer. */
  predicate Clean(s: Segment, m: Markers) {
    && Find(s.noise + m.soi, m.soi) == |s.noise|
    && Find(Wire(s.payload, m), m.eoi) == |m.soi| + |s.payload|
    && |Wire(s.payload, m)| <= m.maxFrameSize + 1
  }

  function Line(segments: seq<Segment>, tail: seq<byte>, m: Markers): seq<byte> {
    if segments == [] then tail
    else segments[0].noise + Wire(segments[0].payload, m) + Line(segments[1..], tail, m)
  }

  function Payloads(segments: seq<Segment>): (r: seq<seq<byte>>)
    ensures |r| == |segments|
  {
    seq(|segments|, i requires 0 <= i < |segments| => segments[i].payload)
  }

  function Flatten(chunks: seq<seq<byte>>): seq<byte> {
    if chunks == [] then [] else Flatten(chunks[..|chunks| - 1]) + chunks[|chunks| - 1]
  }

  ghost predicate AllClean(segments: seq<Segment>, m: Markers) {
    forall i | 0 <= i < |segments| :: Clean(segments[i], m)
  }

  /** The first frame of the line is not completely in the buffer. */
  predicate Waiting(b: seq<byte>, segments: seq<Segment>, m: Markers) {
    segments != [] ==> |b| < |segments[0].noise| + |Wire(segments[0].payload, m)|
  }

  /** The buffer and what is still to come form a line of the remaining segments. */
  ghost predicate OnLine(b: seq<byte>, future: seq<byte>, segments: seq<Segment>, tail: seq<byte>, m: Markers) {
    b + future == Line(segments, tail, m) && AllClean(segments, m)
  }

  lemma PrefixOf(b: seq<byte>, future: seq<byte>, x: seq<byte>, y: seq<byte>)
    requires b + future == x + y
    ensures |b| <= |x| ==> b <= x
    ensures |b| >= |x| ==> x <= b && b[|x|..] + future == y
  {
    if |b| <= |x| {
      assert forall i | 0 <= i < |b| :: b[i] == (b + future)[i] == (x + y)[i] == x[i];
    } else {
      assert forall i | 0 <= i < |x| :: x[i] == (x + y)[i] == (b + future)[i] == b[i];
      assert b[|x|..] + future == (b + future)[|x|..] == (x + y)[|x|..] == y;
    }
  }

  /** With the start marker at the front of the buffer: the frame is taken once it is complete. */
  lemma DrainFrame(b: seq<byte>, future: seq<byte>, s: Segment, later: seq<byte>, m: Markers)
    requires m.eoi != [] && Clean(s, m) && Find(b, m.soi) == 0
    requires b + future == Wire(s.payload, m) + later
    ensures |b| < |Wire(s.payload, m)| ==> Drain(b, m) == Drained([], b)
    ensures |b| >= |Wire(s.payload, m)| ==>
              var rest := b[|Wire(s.payload, m)|..];
              rest + future == later && Drain(b, m) == Before([s.payload], Drain(rest, m))
  {
    hide Drain, Find;
    var frame := Wire(s.payload, m);
    DrainStep(b, m);
    assert b[0..] == b;
    PrefixOf(b, future, frame, later);
    if |b| < |frame| {
      FindNeedsAll(frame, b, m.eoi);
    } else {
      FindExtends(frame, b, m.eoi);
      var j := |m.soi| + |s.payload|;
      assert b[|m.soi|..j] == frame[|m.soi|..j] == s.payload;
    }
  }

  /** The noise before a frame is dropped as soon as the whole start marker has arrived. */
  lemma DrainNoise(b: seq<byte>, future: seq<byte>, s: Segment, later: seq<byte>, m: Markers)
    requires m.eoi != [] && Clean(s, m)
    requires b + future == s.noise + Wire(s.payload, m) + later
    ensures |b| < |s.noise| + |m.soi| ==> Drain(b, m) == Drained([], b)
    ensures |b| >= |s.noise| + |m.soi| ==>
              var b1 := b[|s.noise|..];
              && b1 + future == Wire(s.payload, m) + later && Find(b1, m.soi) == 0 && Drain(b, m) == Drain(b1, m)
  {
    hide *;
    var x, y := s.noise + m.soi, s.payload + m.eoi + later;
    Regroup(s, later, m);
    PrefixOf(b, future, x, y);
    DrainStep(b, m);
    CleanNoise(s, m);
    if |b| < |x| {
      FindNeedsAll(x, b, m.soi);
    } else {
      FindExtends(x, b, m.soi);
      PrefixOf(b, future, s.noise, Wire(s.payload, m) + later);
      SkipNoise(b, s.noise, m);
    }
  }

  lemma Regroup(s: Segment, later: seq<byte>, m: Markers)
    ensures s.noise + Wire(s.payload, m) + later == (s.noise + m.soi) + (s.payload + m.eoi + later)
    ensures s.noise + Wire(s.payload, m) + later == s.noise + (Wire(s.payload, m) + later)
  {
  }

  lemma CleanNoise(s: Segment, m: Markers)
    requires Clean(s, m)
    ensures Find(s.noise + m.soi, m.soi) == |s.noise|
  {
  }

  lemma SkipNoise(b: seq<byte>, noise: seq<byte>, m: Markers)
    requires m.eoi != [] && noise + m.soi <= b && Find(b, m.soi) == |noise|
    ensures var b1 := b[|noise|..];
            Find(b1, m.soi) == 0 && Drain(b, m) == Drain(b1, m)
  {
    hide Drain, Find;
    var b1 := b[|noise|..];
    assert m.soi <= b1 by {
      assert b1[..|m.soi|] == b[|noise|..|noise| + |m.soi|] == m.soi;
    }
    FoundAtStart(b1, m.soi);
    DrainFromStart(b, b1, m);
  }

  lemma FoundAtStart(s: seq<byte>, p: seq<byte>)
    requires p <= s
    ensures Find(s, p) == 0
  {
  }

  lemma DrainFromStart(b: seq<byte>, b1: seq<byte>, m: Markers)
    requires m.eoi != [] && Find(b, m.soi) != -1 && b1 == b[Find(b, m.soi)..] && Find(b1, m.soi) == 0
    ensures Drain(b, m) == Drain(b1, m)
  {
    hide *;
    DrainStep(b, m);
    DrainStep(b1, m);
    assert b1[0..] == b1;
  }

  /** Nothing, or nothing that holds a start marker. */
  predicate Quiet(tail: seq<byte>, m: Markers) { tail == [] || Find(tail, m.soi) == -1 }

  lemma DrainTail(b: seq<byte>, future: seq<byte>, tail: seq<byte>, m: Markers)
    requires m.eoi != [] && b + future == tail && Quiet(tail, m)
    ensures Drain(b, m) == Drained([], b)
  {
    hide Find;
    if Find(b, m.soi) != -1 {
      FindExtends(b, tail, m.soi);
    }
  }

  /** Draining the buffer takes exactly the frames that are complete, and leaves a line of the rest. */
  lemma {:induction false} DrainTakesComplete(b: seq<byte>, future: seq<byte>, segments: seq<Segment>, tail: seq<byte>, m: Markers)
    returns (left: seq<Segment>)
    requires m.eoi != [] && Quiet(tail, m)
    requires OnLine(b, future, segments, tail, m)
    ensures var d := Drain(b, m);
            && OnLine(d.rest, future, left, tail, m) && Waiting(d.rest, left, m)
            && d.frames + Payloads(left) == Payloads(segments)
    decreases |segments|
  {
    hide Drain, Find, Clean, Line, AllClean, Wire;
    left := segments;
    if segments == [] {
      LineOfNone(tail, m);
      DrainTail(b, future, tail, m);
    } else {
      var s, later, wire := segments[0], Line(segments[1..], tail, m), Wire(segments[0].payload, m);
      LineOfSome(segments, tail, m);
      DrainNoise(b, future, s, later, m);
      if |b| >= |s.noise| + |m.soi| {
        var b1 := b[|s.noise|..];
        DrainFrame(b1, future, s, later, m);
        if |b1| >= |wire| {
          left := DrainTakesComplete(b1[|wire|..], future, segments[1..], tail, m);
          FirstPayload(segments);
        } else {
          left := [Segment([], s.payload)] + segments[1..];
          SilentFirst(segments, tail, m);
        }
      } else {
        WireIsLonger(s, m);
      }
    }
  }

  lemma WireIsLonger(s: Segment, m: Markers)
    ensures |m.soi| <= |Wire(s.payload, m)|
    ensures m.eoi != [] ==> |m.soi| < |Wire(s.payload, m)|
  {
  }

  lemma LineOfNone(tail: seq<byte>, m: Markers)
    ensures Line([], tail, m) == tail
  {
  }

  lemma LineOfSome(segments: seq<Segment>, tail: seq<byte>, m: Markers)
    requires segments != []
    ensures var s, later := segments[0], Line(segments[1..], tail, m);
            Line(segments, tail, m) == s.noise + Wire(s.payload, m) + later
    ensures AllClean(segments, m) ==> Clean(segments[0], m) && AllClean(segments[1..], m)
  {
    hide Clean, Wire;
  }

  lemma FirstPayload(segments: seq<Segment>)
    requires segments != []
    ensures Payloads(segments) == [segments[0].payload] + Payloads(segments[1..])
  {
  }

  /** Once its start marker has arrived, the noise before a frame is forgotten. */
  lemma SilentFirst(segments: seq<Segment>, tail: seq<byte>, m: Markers)
    requires segments != [] && AllClean(segments, m)
    ensures var s, left := segments[0], [Segment([], segments[0].payload)] + segments[1..];
            && Line(left, tail, m) == Wire(s.payload, m) + Line(segments[1..], tail, m)
            && AllClean(left, m) && Payloads(left) == Payloads(segments)
  {
    hide Clean, Wire;
    var left := [Segment([], segments[0].payload)] + segments[1..];
    SilentIsClean(segments[0], m);
    assert left[1..] == segments[1..];
    LineOfSome(left, tail, m);
    assert [] + Wire(left[0].payload, m) == Wire(left[0].payload, m);
  }

  lemma SilentIsClean(s: Segment, m: Markers)
    requires Clean(s, m)
    ensures Clean(Segment([], s.payload), m)
  {
    assert [] + m.soi == m.soi;
    FindIsFirst(m.soi, m.soi, 0);
  }

  lemma {:induction false} FeedKeepsLine(chunks: seq<seq<byte>>, future: seq<byte>, segments: seq<Segment>, tail: seq<byte>, m: Markers)
    returns (left: seq<Segment>)
    requires m.eoi != [] && Quiet(tail, m)
    requires OnLine(Flatten(chunks), future, segments, tail, m)
    ensures var d := Feed(chunks, m);
            && OnLine(d.rest, future, left, tail, m) && Waiting(d.rest, left, m)
            && d.frames + Payloads(left) == Payloads(segments)
    decreases |chunks|
  {
    hide Drain, Find, Clean, Line;
    if chunks == [] {
      left := segments;
    } else {
      var n := |chunks| - 1;
      var data := chunks[n];
      assert Flatten(chunks[..n]) + (data + future) == Flatten(chunks) + future;
      left := FeedKeepsLine(chunks[..n], data + future, segments, tail, m);
      if data == [] {
        assert data + future == future;
      } else {
        var before := Feed(chunks[..n], m);
        var b := before.rest + data;
        assert b + future == before.rest + (data + future);
        var waiting := left;
        left := DrainTakesComplete(b, future, waiting, tail, m);
        assert before.frames + Drain(b, m).frames + Payloads(left)
            == before.frames + (Drain(b, m).frames + Payloads(left));
      }
    }
  }

  lemma LineHoldsItsFirst(segments: seq<Segment>, tail: seq<byte>, m: Markers)
    ensures segments != [] ==> |Line(segments, tail, m)| >= |segments[0].noise| + |Wire(segments[0].payload, m)|
  {
  }

  /** The round trip: every payload is delivered once, in order, whatever the reads return. */
  lemma RoundTrip(chunks: seq<seq<byte>>, segments: seq<Segment>, tail: seq<byte>, m: Markers)
    requires m.eoi != [] && Quiet(tail, m) && AllClean(segments, m)
    requires Flatten(chunks) == Line(segments, tail, m)
    ensures Feed(chunks, m).frames == Payloads(segments)
  {
    hide Drain, Feed, Find, Clean;
    assert Flatten(chunks) + [] == Flatten(chunks);
    var left := FeedKeepsLine(chunks, [], segments, tail, m);
    var rest := Feed(chunks, m).rest;
    assert rest + [] == rest;
    assert left == [] by {
      LineHoldsItsFirst(left, tail, m);
    }
    assert Feed(chunks, m).frames + [] == Feed(chunks, m).frames;
  }

  // ------------------------------------------------------------------
  // From writer to reader
  // ------------------------------------------------------------------

  /** A payload the end marker does not occur in too early, and that fits the reader's buffer. */
  predicate Sendable(payload: seq<byte>, m: Markers) {
    Find(Wire(payload, m), m.eoi) == |m.soi| + |payload| && |Wire(payload, m)| <= m.maxFrameSize + 1
  }

  function Silent(payloads: seq<seq<byte>>): (r: seq<Segment>)
    ensures |r| == |payloads| && Payloads(r) == payloads
  {
    seq(|payloads|, i requires 0 <= i < |payloads| => Segment([], payloads[i]))
  }

  lemma {:induction false} SentIsLine(payloads: seq<seq<byte>>, m: Markers)
    ensures Sent(payloads, m) == Line(Silent(payloads), [], m)
  {
    hide Wire;
    if payloads != [] {
      var n := |payloads| - 1;
      SentIsLine(payloads[..n], m);
      assert Silent(payloads) == Silent(payloads[..n]) + [Segment([], payloads[n])];
      LineGrows(Silent(payloads[..n]), Segment([], payloads[n]), m);
      assert [] + Wire(payloads[n], m) == Wire(payloads[n], m);
    }
  }

  lemma {:induction false} LineGrows(segments: seq<Segment>, s: Segment, m: Markers)
    ensures Line(segments + [s], [], m) == Line(segments, [], m) + (s.noise + Wire(s.payload, m))
  {
    hide Wire;
    if segments == [] {
      assert segments + [s] == [s];
      assert s.noise + Wire(s.payload, m) + [] == [] + (s.noise + Wire(s.payload, m));
    } else {
      assert (segments + [s])[1..] == segments[1..] + [s];
      LineGrows(segments[1..], s, m);
    }
  }

  /** What a client has written another one delivers, payload by payload, however the bytes arrive. */
  lemma WritesAreDelivered(written: seq<seq<byte>>, chunks: seq<seq<byte>>, m: Markers)
    requires m.eoi != [] && Flatten(chunks) == Sent(written, m)
    requires forall i | 0 <= i < |written| :: Sendable(written[i], m)
    ensures Feed(chunks, m).frames == written
  {
    hide Feed, Wire, Flatten, Line, Sent;
    forall i | 0 <= i < |written| ensures Clean(Silent(written)[i], m) {
      FindIsFirst(m.soi, m.soi, 0);
      assert [] + m.soi == m.soi;
    }
    SentIsLine(written, m);
    RoundTrip(chunks, Silent(written), [], m);
  }

  // ------------------------------------------------------------------
  // One-byte markers
  // ------------------------------------------------------------------

  lemma FindOneByte(s: seq<byte>, b: byte, k: nat)
    requires k < |s| && s[k] == b && b !in s[..k]
    ensures Find(s, [b]) == k
  {
    assert s[k..k + 1] == [b];
    FindIsFirst(s, [b], k);
    forall q | 0 <= q < k ensures s[q] != b {
      assert s[q] in s[..k];
    }
    var i := Find(s, [b]);
    assert s[i..i + 1][0] == s[i];
  }

  lemma {:induction false} FindNothing(s: seq<byte>, b: byte)
    requires b !in s
    ensures Find(s, [b]) == -1
  {
    if s != [] {
      assert s[0] in s;
      FindNothing(s[1..], b);
    }
  }

  /** With distinct one-byte markers it is enough that the noise is free of the start marker and
      the payload of the end marker. */
  lemma OneByteFramesAreClean(s: Segment, a: byte, e: byte, maxFrameSize: int)
    requires a != e && a !in s.noise && e !in s.payload && |s.payload| + 1 <= maxFrameSize
    ensures Clean(s, Markers([a], [e], maxFrameSize))
  {
    var m := Markers([a], [e], maxFrameSize);
    assert (s.noise + [a])[..|s.noise|] == s.noise;
    FindOneByte(s.noise + [a], a, |s.noise|);
    var k := 1 + |s.payload|;
    assert Wire(s.payload, m)[..k] == [a] + s.payload;
    FindOneByte(Wire(s.payload, m), e, k);
  }

  function ByteByByte(s: seq<byte>): (chunks: seq<seq<byte>>)
    ensures |chunks| == |s|
  {
    seq(|s|, i requires 0 <= i < |s| => [s[i]])
  }

  lemma {:induction false} ByteByByteIsWhole(s: seq<byte>)
    ensures Flatten(ByteByByte(s)) == s
  {
    if s != [] {
      var n := |s| - 1;
      ByteByByteIsWhole(s[..n]);
      assert ByteByByte(s)[..n] == ByteByByte(s[..n]);
    }
  }

  lemma {:induction false} DrainedFramesAreShort(b: seq<byte>, a: byte, e: byte, maxFrameSize: int)
    requires a != e
    ensures var d := Drain(b, Markers([a], [e], maxFrameSize));
            |d.rest| <= |b| && forall i | 0 <= i < |d.frames| :: |d.frames[i]| + 2 <= |b|
    decreases |b|
  {
    hide Find, Drain;
    var m := Markers([a], [e], maxFrameSize);
    DrainStep(b, m);
    var i := Find(b, [a]);
    if i != -1 {
      var b1 := b[i..];
      var j := Find(b1, [e]);
      assert b1[0] == b[i..i + 1][0] == a;
      if j != -1 {
        assert b1[j] == b1[j..j + 1][0] == e;
        DrainedFramesAreShort(b1[j + 1..], a, e, maxFrameSize);
      }
    }
  }

  lemma {:induction false} FramesAreShort(chunks: seq<seq<byte>>, a: byte, e: byte, maxFrameSize: int)
    requires a != e
    ensures var d := Feed(chunks, Markers([a], [e], maxFrameSize));
            && |d.rest| <= |Flatten(chunks)|
            && forall i | 0 <= i < |d.frames| :: |d.frames[i]| + 2 <= |Flatten(chunks)|
  {
    hide Drain;
    if chunks != [] {
      var n := |chunks| - 1;
      FramesAreShort(chunks[..n], a, e, maxFrameSize);
      var rest := Feed(chunks[..n], Markers([a], [e], maxFrameSize)).rest;
      DrainedFramesAreShort(rest + chunks[n], a, e, maxFrameSize);
    }
  }

  lemma {:induction false} FeedRestarts(p: seq<seq<byte>>, q: seq<seq<byte>>, m: Markers)
    requires m.eoi != [] && Feed(p, m) == Drained([], [])
    ensures Feed(p + q, m) == Feed(q, m)
  {
    hide Drain;
    if q == [] {
      assert p + q == p;
    } else {
      var n := |q| - 1;
      FeedRestarts(p, q[..n], m);
      assert (p + q)[..|p + q| - 1] == p + q[..n];
    }
  }

  /** An unfinished frame waits byte by byte until the buffer is too large, and is then dropped. */
  lemma {:induction false} PartialFrame(line: seq<byte>, n: nat, a: byte, e: byte, maxFrameSize: int)
    requires a != e && n <= |line| && e !in line && (line != [] ==> line[0] == a)
    requires n == 0 || n - 1 <= maxFrameSize || n == 1
    ensures Feed(ByteByByte(line[..n]), Markers([a], [e], maxFrameSize))
         == Drained([], if n > maxFrameSize then [] else line[..n])
  {
    hide Find, Drain, Feed;
    var m := Markers([a], [e], maxFrameSize);
    if n == 0 {
      FeedNothing(m);
    } else {
      PartialFrame(line, n - 1, a, e, maxFrameSize);
      var part := line[..n];
      assert part == line[..n - 1] + [line[n - 1]];
      assert ByteByByte(part) == ByteByByte(line[..n - 1]) + [[line[n - 1]]];
      FeedByte(ByteByByte(line[..n - 1]), line[n - 1], m);
      FindOneByte(part, a, 0);
      assert part[0..] == part;
      FindNothing(part, e);
      DrainStep(part, m);
    }
  }

  lemma FeedNothing(m: Markers)
    requires m.eoi != []
    ensures Feed([], m) == Drained([], [])
  {
  }

  lemma FeedByte(chunks: seq<seq<byte>>, b: byte, m: Markers)
    requires m.eoi != []
    ensures var before := Feed(chunks, m);
            Feed(chunks + [[b]], m) == Before(before.frames, Drain(before.rest + [b], m))
  {
    hide Drain;
    assert (chunks + [[b]])[..|chunks|] == chunks;
  }

  /** The size limit is exact: read a byte at a time, a frame is delivered as written if and only if
      its payload is shorter than the limit. */
  lemma FitsIsExact(payload: seq<byte>, a: byte, e: byte, maxFrameSize: int)
    requires a != e && e !in payload
    ensures var m := Markers([a], [e], maxFrameSize);
            Feed(ByteByByte(Wire(payload, m)), m).frames == [payload] <==> |payload| + 1 <= maxFrameSize
  {
    hide Drain, Feed, Find, Flatten;
    var m := Markers([a], [e], maxFrameSize);
    var s := Segment([], payload);
    var line, frame := [a] + payload, Wire(s.payload, m);
    ByteByByteIsWhole(frame);
    if |payload| + 1 <= maxFrameSize {
      OneByteFramesAreClean(s, a, e, maxFrameSize);
      FindNothing([], a);
      assert Line([s], [], m) == frame;
      RoundTrip(ByteByByte(frame), [s], [], m);
    } else {
      var c: nat := if maxFrameSize < 0 then 1 else maxFrameSize + 1;
      PartialFrame(line, c, a, e, maxFrameSize);
      assert frame[..c] == line[..c];
      FeedRestarts(ByteByByte(frame[..c]), ByteByByte(frame[c..]), m);
      assert ByteByByte(frame) == ByteByByte(frame[..c]) + ByteByByte(frame[c..]);
      ByteByByteIsWhole(frame[c..]);
      FramesAreShort(ByteByByte(frame[c..]), a, e, maxFrameSize);
      assert [payload][0] == payload;
    }
  }

  // ------------------------------------------------------------------
  // Empty end markers
  // ------------------------------------------------------------------

  datatype Round = Leaves(rest: seq<byte>) | GoesOn(buffer: seq<byte>)

  /** One round of the reader's inner loop, for any markers. */
  function RoundOf(b: seq<byte>, m: Markers): Round {
    var i := Find(b, m.soi);
    if i == -1 then Leaves(b)
    else
      var j := Find(b[i..], m.eoi);
      if j == -1 then Leaves(if |b[i..]| > m.maxFrameSize then [] else b[i..])
      else GoesOn(b[i..][j + |m.eoi|..])
  }

  /** At most `n` rounds. */
  function Rounds(b: seq<byte>, m: Markers, n: nat): Round {
    if n == 0 then GoesOn(b)
    else match RoundOf(b, m)
      case Leaves(rest) => Leaves(rest)
      case GoesOn(buffer) => Rounds(buffer, m, n - 1)
  }

  lemma FirstRound(b: seq<byte>, m: Markers, n: nat)
    requires n > 0
    ensures var first := RoundOf(b, m);
            Rounds(b, m, n) == if first.Leaves? then first else Rounds(first.buffer, m, n - 1)
  {
    hide RoundOf;
  }

  lemma RoundIsDrained(b: seq<byte>, m: Markers)
    requires m.eoi != []
    ensures var first := RoundOf(b, m);
            if first.Leaves? then Drain(b, m).rest == first.rest
            else |first.buffer| < |b| && Drain(b, m).rest == Drain(first.buffer, m).rest
  {
    hide Find, Drain;
    DrainStep(b, m);
  }

  /** With an end marker the loop leaves, and keeps what `Drain` keeps. */
  lemma {:induction false} LoopLeaves(b: seq<byte>, m: Markers) returns (n: nat)
    requires m.eoi != []
    ensures Rounds(b, m, n) == Leaves(Drain(b, m).rest)
    decreases |b|
  {
    hide *;
    RoundIsDrained(b, m);
    n := 1;
    if RoundOf(b, m).GoesOn? {
      n := LoopLeaves(RoundOf(b, m).buffer, m);
      n := n + 1;
    }
    FirstRound(b, m, n);
  }

  /** Without one it cuts nothing from a start marker on. */
  lemma {:induction false} LoopSpins(b: seq<byte>, m: Markers, n: nat)
    requires m.eoi == [] && Find(b, m.soi) != -1
    ensures Rounds(b, m, n).GoesOn?
  {
    hide Find, RoundOf;
    if n > 0 {
      hide Rounds;
      CutsNothing(b, m);
      FirstRound(b, m, n);
      LoopSpins(b[Find(b, m.soi)..], m, n - 1);
    }
  }

  lemma CutsNothing(b: seq<byte>, m: Markers)
    requires m.eoi == [] && Find(b, m.soi) != -1
    ensures var rest := b[Find(b, m.soi)..];
            RoundOf(b, m) == GoesOn(rest) && Find(rest, m.soi) == 0
  {
    hide Find;
    var i := Find(b, m.soi);
    var rest := b[i..];
    assert m.soi <= rest by {
      assert rest[..|m.soi|] == b[i..i + |m.soi|] == m.soi;
    }
    FoundAtStart(rest, m.soi);
    FoundAtStart(rest, []);
    assert rest[0..] == rest;
  }

  /** The inner loop ends if and only if there is an end marker or the buffer holds no start marker. */
  lemma LoopEndsExactly(b: seq<byte>, m: Markers)
    ensures (exists n: nat :: Rounds(b, m, n).Leaves?) <==> m.eoi != [] || Find(b, m.soi) == -1
  {
    hide Find;
    if m.eoi != [] {
      var n := LoopLeaves(b, m);
    } else if Find(b, m.soi) == -1 {
      FirstRound(b, m, 1);
      assert Rounds(b, m, 1).Leaves?;
    } else {
      forall n: nat ensures Rounds(b, m, n).GoesOn? {
        LoopSpins(b, m, n);
      }
    }
  }
}
