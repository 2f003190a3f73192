/** Frames between a start and an end marker on a serial line: the writer, the incremental reader,
    and the round trip between them. */
module Framing {
  import opened Bytes

  /** Where `p` first occurs in `s`, or -1. */
  function Find(s: seq<byte>, p: seq<byte>): (i: int)
    ensures i == -1 || (0 <= i <= |s| - |p| && s[i..i + |p|] == p)
  {
    if p <= s then 0
    else if s == [] then -1
    else
      var i := Find(s[1..], p);
      if i == -1 then -1 else i + 1
  }

  lemma {:induction false} FindIsFirst(s: seq<byte>, p: seq<byte>, k: nat)
    requires k + |p| <= |s| && s[k..k + |p|] == p
    ensures 0 <= Find(s, p) <= k
  {
    if k > 0 {
      assert s[1..][k - 1..k - 1 + |p|] == s[k..k + |p|];
      FindIsFirst(s[1..], p, k - 1);
    } else {
      assert s[0..|p|] == s[..|p|];
    }
  }

  /** What is found in a string is found at the same place in every extension of it. */
  lemma FindExtends(x: seq<byte>, y: seq<byte>, p: seq<byte>)
    requires x <= y && Find(x, p) != -1
    ensures Find(y, p) == Find(x, p)
  {
    var i := Find(x, p);
    assert y[i..i + |p|] == x[i..i + |p|];
    FindIsFirst(y, p, i);
    var j := Find(y, p);
    assert x[j..j + |p|] == y[j..j + |p|];
    FindIsFirst(x, p, j);
  }

  /** What first occurs at the very end of a string does not occur in anything shorter. */
  lemma FindNeedsAll(x: seq<byte>, y: seq<byte>, p: seq<byte>)
    requires y <= x && |y| < |x| && Find(x, p) == |x| - |p|
    ensures Find(y, p) == -1
  {
    if Find(y, p) != -1 {
      FindExtends(y, x, p);
    }
  }

  // ------------------------------------------------------------------
  // The reader
  // ------------------------------------------------------------------

  datatype Markers = Markers(soi: seq<byte>, eoi: seq<byte>, maxFrameSize: int)

  /** A payload between its markers. */
  function Wire(payload: seq<byte>, m: Markers): seq<byte> {
    m.soi + payload + m.eoi
  }

  /** What is on the line after some payloads have been written. */
  function Sent(payloads: seq<seq<byte>>, m: Markers): seq<byte> {
    if payloads == [] then [] else Sent(payloads[..|payloads| - 1], m) + Wire(payloads[|payloads| - 1], m)
  }

  datatype Drained = Drained(frames: seq<seq<byte>>, rest: seq<byte>)

  /** What the reader takes out of its buffer, and what it keeps. */
  function Drain(b: seq<byte>, m: Markers): Drained
    requires m.eoi != []
    decreases |b|
  {
    var i := Find(b, m.soi);
    if i == -1 then Drained([], b)
    else
      var j := Find(b[i..], m.eoi);
      if j == -1 then Drained([], if |b[i..]| > m.maxFrameSize then [] else b[i..])
      else
        var later := Drain(b[i..][j + |m.eoi|..], m);
        Drained([Between(b[i..], |m.soi|, j)] + later.frames, later.rest)
  }

  /** An end marker that overlaps the start marker closes an empty frame. */
  function Between(b: seq<byte>, lo: nat, hi: nat): seq<byte>
    requires hi <= |b|
  {
    if lo <= hi then b[lo..hi] else []
  }

  /** The frames and the buffer after a number of reads; an empty read changes nothing. */
  function Feed(chunks: seq<seq<byte>>, m: Markers): Drained
    requires m.eoi != []
  {
    if chunks == [] then Drained([], [])
    else
      var before, data := Feed(chunks[..|chunks| - 1], m), chunks[|chunks| - 1];
      if data == [] then before
      else
        var now := Drain(before.rest + data, m);
        Drained(before.frames + now.frames, now.rest)
  }

  /** A list of frames, which is filled and emptied in place. */
  class FrameList {
    var frames: seq<seq<byte>>

    constructor ()
      ensures frames == []
    {
      frames := [];
    }
  }

  /** The answer of a read; more than one frame comes as the client's own list. */
  datatype Received = Nothing | OneFrame(frame: seq<byte>) | Frames(list: FrameList)

  /** What a read leaves in the list when `all` arrived: a single frame asked for is not put there. */
  function Collected(all: seq<seq<byte>>, frames: int): seq<seq<byte>> {
    if frames == 1 then []
    else if 1 < frames <= |all| then all[..frames]
    else all
  }

  /** A client on a serial line. All clients of the class collect frames in one list. */
  class SerialFrameClient {
    const m: Markers
    const pending: FrameList

    /** What has been sent, and the payloads it is made of. */
    var sent: seq<byte>
    ghost var written: seq<seq<byte>>

    constructor (m: Markers, shared: FrameList)
      ensures this.m == m && pending == shared && Valid() && written == []
    {
      this.m, pending, sent, written := m, shared, [], [];
    }

    ghost predicate Valid()
      reads this
    {
      sent == Sent(written, m)
    }

    /** Send one payload between the markers. */
    method Write(data: seq<byte>)
      requires Valid()
      modifies this
      ensures Valid() && written == old(written) + [data]
    {
      sent := sent + (m.soi + data + m.eoi);
      written := written + [data];
    }

    /** The background reader over the bytes each read returns, until it is stopped; it hands over
        `delivered`, frame by frame. */
    method ReadThread(chunks: seq<seq<byte>>) returns (delivered: seq<seq<byte>>)
      requires m.eoi != [] && pending.frames == []
      modifies pending
      ensures delivered == Feed(chunks, m).frames && pending.frames == []
    {
      hide Drain;
      var buffer: seq<byte> := [];
      delivered := [];
      for n := 0 to |chunks|
        invariant delivered == Feed(chunks[..n], m).frames && buffer == Feed(chunks[..n], m).rest
        invariant pending.frames == []
      {
        assert chunks[..n + 1][..n] == chunks[..n];
        if chunks[n] != [] {
          buffer := TakeFrames(buffer + chunks[n]);
          delivered := delivered + pending.frames;
          pending.frames := [];
        }
      }
      assert chunks[..|chunks|] == chunks;
    }

    /** Take every complete frame out of the buffer. */
    method TakeFrames(start: seq<byte>) returns (buffer: seq<byte>)
      requires m.eoi != []
      modifies pending
      ensures pending.frames == old(pending.frames) + Drain(start, m).frames && buffer == Drain(start, m).rest
    {
      hide Drain, Find;
      ghost var all := pending.frames + Drain(start, m).frames;
      buffer := start;
      var soiIndex := Find(buffer, m.soi);
      while soiIndex != -1
        invariant soiIndex == Find(buffer, m.soi)
        invariant pending.frames + Drain(buffer, m).frames == all && Drain(buffer, m).rest == Drain(start, m).rest
        decreases |buffer|
      {
        ghost var before := buffer;
        buffer := buffer[soiIndex..];
        var eoiIndex := Find(buffer, m.eoi);
        DrainStep(before, m);
        if eoiIndex == -1 {
          if |buffer| > m.maxFrameSize {
            buffer := [];
          }
          return;
        }
        var frame := Between(buffer, |m.soi|, eoiIndex);
        pending.frames := pending.frames + [frame];
        buffer := buffer[eoiIndex + |m.eoi|..];
        soiIndex := Find(buffer, m.soi);
      }
      DrainStep(buffer, m);
    }

    /** The synchronous reader over what arrives before its deadline. A list it answers is the one the
        next read of any client empties and fills again. */
    method Read(chunks: seq<seq<byte>>, frames: int) returns (r: Received)
      requires m.eoi != []
      modifies pending
      ensures var all := Feed(chunks, m).frames;
              && r == (if all == [] then Nothing else if frames == 1 then OneFrame(all[0]) else Frames(pending))
              && pending.frames == (if frames == 1 then [] else if 1 < frames <= |all| then all[..frames] else all)
    {
      hide Drain;
      var buffer: seq<byte> := [];
      pending.frames := [];
      for n := 0 to |chunks|
        invariant pending.frames == Feed(chunks[..n], m).frames && buffer == Feed(chunks[..n], m).rest
        invariant frames >= 1 ==> |pending.frames| < frames
      {
        assert chunks[..n + 1][..n] == chunks[..n];
        FramesOnlyGrow(chunks, m, n + 1);
        if chunks[n] != [] {
          var frame, enough;
          buffer, frame, enough := TakeUpTo(buffer + chunks[n], frames);
          if enough {
            return if frames == 1 then OneFrame(frame) else Frames(pending);
          }
        }
      }
      assert chunks[..|chunks|] == chunks;
      r := if pending.frames == [] then Nothing else Frames(pending);
    }

    /** Take complete frames out of the buffer until there are enough of them; if one is enough, it is
        `frame`. */
    method TakeUpTo(start: seq<byte>, frames: int) returns (buffer: seq<byte>, frame: seq<byte>, enough: bool)
      requires m.eoi != [] && (frames >= 1 ==> |pending.frames| < frames)
      modifies pending
      ensures var all := old(pending.frames) + Drain(start, m).frames;
              && (enough <==> 1 <= frames <= |all|)
              && (enough ==> pending.frames == Collected(all, frames) && (frames == 1 ==> frame == all[0]))
              && (!enough ==> pending.frames == all && buffer == Drain(start, m).rest)
    {
      hide Drain, Find;
      ghost var all := pending.frames + Drain(start, m).frames;
      buffer, frame := start, [];
      var soiIndex := Find(buffer, m.soi);
      while soiIndex != -1
        invariant soiIndex == Find(buffer, m.soi)
        invariant pending.frames + Drain(buffer, m).frames == all && Drain(buffer, m).rest == Drain(start, m).rest
        invariant frames >= 1 ==> |pending.frames| < frames
        decreases |buffer|
      {
        ghost var before := buffer;
        buffer := buffer[soiIndex..];
        var eoiIndex := Find(buffer, m.eoi);
        DrainStep(before, m);
        if eoiIndex == -1 {
          if |buffer| > m.maxFrameSize {
            buffer := [];
          }
          enough := false;
          return;
        }
        frame := Between(buffer, |m.soi|, eoiIndex);
        if frames == 1 {
          enough := true;
          return;
        }
        pending.frames := pending.frames + [frame];
        if |pending.frames| == frames {
          enough := true;
          PrefixIsKept(pending.frames, Drain(buffer[eoiIndex + |m.eoi|..], m).frames);
          return;
        }
        buffer := buffer[eoiIndex + |m.eoi|..];
        soiIndex := Find(buffer, m.soi);
      }
      DrainStep(buffer, m);
      enough := false;
    }
  }

  function Before(taken: seq<seq<byte>>, d: Drained): Drained { Drained(taken + d.frames, d.rest) }

  /** One round of the reader's inner loop; it shortens the buffer by at least the end marker. */
  lemma DrainStep(b: seq<byte>, m: Markers)
    requires m.eoi != []
    ensures var i := Find(b, m.soi);
            if i == -1 then Drain(b, m) == Drained([], b)
            else
              var j := Find(b[i..], m.eoi);
              if j == -1 then Drain(b, m) == Drained([], if |b[i..]| > m.maxFrameSize then [] else b[i..])
              else
                && |b[i..][j + |m.eoi|..]| < |b|
                && Drain(b, m) == Before([Between(b[i..], |m.soi|, j)], Drain(b[i..][j + |m.eoi|..], m))
  {
    hide *;
    var i := Find(b, m.soi);
    if i == -1 {
      DrainOfNone(b, m);
    } else {
      DrainOfSome(b, b[i..], Find(b[i..], m.eoi), m);
    }
  }

  lemma DrainOfNone(b: seq<byte>, m: Markers)
    requires m.eoi != [] && Find(b, m.soi) == -1
    ensures Drain(b, m) == Drained([], b)
  {
    hide Find;
  }

  lemma DrainOfSome(b: seq<byte>, begun: seq<byte>, j: int, m: Markers)
    requires m.eoi != [] && Find(b, m.soi) != -1 && begun == b[Find(b, m.soi)..] && j == Find(begun, m.eoi)
    ensures j == -1 ==> Drain(b, m) == Drained([], if |begun| > m.maxFrameSize then [] else begun)
    ensures j != -1 ==>
              && |begun[j + |m.eoi|..]| < |b|
              && Drain(b, m) == Before([Between(begun, |m.soi|, j)], Drain(begun[j + |m.eoi|..], m))
  {
    hide Find, Between;
  }

  lemma PrefixIsKept<T>(a: seq<T>, b: seq<T>)
    ensures a <= a + b && (a + b)[..|a|] == a
  {
  }

  lemma PrefixesChain<T>(a: seq<T>, b: seq<T>, c: seq<T>)
    requires a <= b && b <= c
    ensures a <= c
  {
    assert forall i | 0 <= i < |a| :: a[i] == b[i] == c[i];
  }

  lemma FeedOnce(chunks: seq<seq<byte>>, m: Markers, n: nat)
    requires m.eoi != [] && n < |chunks|
    ensures Feed(chunks[..n], m).frames <= Feed(chunks[..n + 1], m).frames
  {
    hide Drain;
    assert chunks[..n + 1][..n] == chunks[..n];
    var before := Feed(chunks[..n], m);
    PrefixIsKept(before.frames, Drain(before.rest + chunks[n], m).frames);
  }

  lemma {:induction false} FramesOnlyGrow(chunks: seq<seq<byte>>, m: Markers, n: nat)
    requires m.eoi != [] && n <= |chunks|
    ensures Feed(chunks[..n], m).frames <= Feed(chunks, m).frames
    decreases |chunks| - n
  {
    hide Feed;
    if n < |chunks| {
      FeedOnce(chunks, m, n);
      FramesOnlyGrow(chunks, m, n + 1);
      PrefixesChain(Feed(chunks[..n], m).frames, Feed(chunks[..n + 1], m).frames, Feed(chunks, m).frames);
    } else {
      assert chunks[..n] == chunks;
    }
  }
}
