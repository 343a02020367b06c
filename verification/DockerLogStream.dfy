/** Demultiplexing a Docker log stream: frames of an 8-byte header, whose last four bytes are the
    payload size, and the payload. The reader gives some bytes and then ends, cleanly or not. */
module DockerLogStream {
  import opened Options

  type byte = x: int | 0 <= x < 256

  const HEADER := 8
  const SIZE_BOUND := 0x1_0000_0000

  datatype Frame = Frame(tag: seq<byte>, payload: seq<byte>)

  predicate IsFrame(frame: Frame) { |frame.tag| == 4 && |frame.payload| < SIZE_BOUND }

  predicate AreFrames(frames: seq<Frame>) { forall k :: 0 <= k < |frames| ==> IsFrame(frames[k]) }

  function BigEndian(n: nat): (bytes: seq<byte>)
    requires n < SIZE_BOUND
  {
    [n / 0x100_0000, n / 0x1_0000 % 0x100, n / 0x100 % 0x100, n % 0x100]
  }

  function Size(bytes: seq<byte>): nat
    requires |bytes| == 4
  {
    var first: nat, second: nat, third: nat, fourth: nat := bytes[0], bytes[1], bytes[2], bytes[3];
    first * 0x100_0000 + second * 0x1_0000 + third * 0x100 + fourth
  }

  lemma SizeOfBigEndian(n: nat)
    requires n < SIZE_BOUND
    ensures Size(BigEndian(n)) == n
  {
    assert n / 0x100 / 0x100 == n / 0x1_0000 && n / 0x1_0000 / 0x100 == n / 0x100_0000;
  }

  lemma DivideByByte(quotient: nat, rest: nat)
    requires rest < 0x100
    ensures (quotient * 0x100 + rest) / 0x100 == quotient && (quotient * 0x100 + rest) % 0x100 == rest
  {}

  lemma BigEndianOfSize(bytes: seq<byte>)
    requires |bytes| == 4
    ensures Size(bytes) < SIZE_BOUND && BigEndian(Size(bytes)) == bytes
  {
    var n := Size(bytes);
    var first: nat, second: nat, third: nat, fourth: nat := bytes[0], bytes[1], bytes[2], bytes[3];
    var two: nat := first * 0x100 + second;
    var three: nat := two * 0x100 + third;
    DivideByByte(three, fourth);
    DivideByByte(two, third);
    DivideByByte(first, second);
    assert n == three * 0x100 + fourth;
    DividedTwice(n);
  }

  lemma DividedTwice(n: nat)
    ensures n / 0x100 / 0x100 == n / 0x1_0000 && n / 0x100 / 0x100 / 0x100 == n / 0x100_0000
  {}

  /** The most significant byte comes first. */
  lemma HeaderOfSize(frame: Frame)
    requires IsFrame(frame) && |frame.payload| == 0x01_0203
    ensures EncodeFrame(frame)[4..8] == [0, 1, 2, 3]
  {}

  function EncodeFrame(frame: Frame): seq<byte>
    requires IsFrame(frame)
  {
    frame.tag + BigEndian(|frame.payload|) + frame.payload
  }

  function Encode(frames: seq<Frame>): seq<byte>
    requires AreFrames(frames)
  {
    if frames == [] then [] else Encode(frames[..|frames| - 1]) + EncodeFrame(frames[|frames| - 1])
  }

  function Payloads(frames: seq<Frame>): seq<byte> {
    if frames == [] then [] else Payloads(frames[..|frames| - 1]) + frames[|frames| - 1].payload
  }

  function Kept(limit: int): nat { if limit < 0 then 0 else limit }

  function FirstOf(bytes: seq<byte>, n: nat): seq<byte> { if |bytes| <= n then bytes else bytes[..n] }

  /** No whole frame starts here, although some bytes do. */
  predicate IsCut(rest: seq<byte>) {
    rest != [] && (|rest| < HEADER || |rest| < HEADER + Size(rest[4..8]))
  }

  /** The frames before a cut are the only ones that could be, so no frames make up the whole. */
  lemma {:induction false} CutIsNotFrames(frames: seq<Frame>, rest: seq<byte>, others: seq<Frame>)
    requires AreFrames(frames) && AreFrames(others) && IsCut(rest)
    ensures Encode(frames) + rest != Encode(others)
    decreases |frames|
  {
    if Encode(frames) + rest == Encode(others) {
      HeadOf(others);
      if frames == [] {
        assert Encode(frames) + rest == rest;
        HeadIsWhole(others[0], Encode(others[1..]), rest);
      } else {
        HeadOf(frames);
        assert Encode(others) == EncodeFrame(frames[0]) + (Encode(frames[1..]) + rest);
        SameHead(frames[0], Encode(frames[1..]) + rest, others[0], Encode(others[1..]));
        CutIsNotFrames(frames[1..], rest, others[1..]);
      }
    }
  }

  lemma EncodeMore(frames: seq<Frame>, frame: Frame)
    requires AreFrames(frames) && IsFrame(frame)
    ensures AreFrames(frames + [frame]) && Encode(frames + [frame]) == Encode(frames) + EncodeFrame(frame)
  {
    assert (frames + [frame])[..|frames|] == frames;
  }

  lemma {:induction false} HeadOf(frames: seq<Frame>)
    requires AreFrames(frames)
    ensures frames == [] ==> Encode(frames) == []
    ensures frames != [] ==> AreFrames(frames[1..]) && Encode(frames) == EncodeFrame(frames[0]) + Encode(frames[1..])
  {
    if |frames| == 1 {
      assert frames[..0] == [] && frames[1..] == [];
    } else if |frames| > 1 {
      var shorter, last := frames[..|frames| - 1], frames[|frames| - 1];
      HeadOf(shorter);
      EncodeMore(shorter, last);
      EncodeMore(shorter[1..], last);
      LastAndTail(frames);
    }
  }

  lemma LastAndTail(frames: seq<Frame>)
    requires |frames| > 1
    ensures
      var shorter, last := frames[..|frames| - 1], frames[|frames| - 1];
      frames == shorter + [last] && frames[1..] == shorter[1..] + [last]
  {}

  lemma HeadIsWhole(frame: Frame, after: seq<byte>, bytes: seq<byte>)
    requires IsFrame(frame) && bytes == EncodeFrame(frame) + after
    ensures |bytes| >= HEADER + |frame.payload| && Size(bytes[4..8]) == |frame.payload|
    ensures bytes[..4] == frame.tag && bytes[8..8 + |frame.payload|] == frame.payload
      && bytes[8 + |frame.payload|..] == after
  {
    assert bytes[4..8] == BigEndian(|frame.payload|);
    SizeOfBigEndian(|frame.payload|);
  }

  lemma SameHead(a: Frame, afterA: seq<byte>, b: Frame, afterB: seq<byte>)
    requires IsFrame(a) && IsFrame(b) && EncodeFrame(a) + afterA == EncodeFrame(b) + afterB
    ensures a == b && afterA == afterB
  {
    HeadIsWhole(a, afterA, EncodeFrame(a) + afterA);
    HeadIsWhole(b, afterB, EncodeFrame(b) + afterB);
  }

  /** A stream is made of one sequence of frames only. */
  lemma {:induction false} FramesAreUnique(a: seq<Frame>, b: seq<Frame>)
    requires AreFrames(a) && AreFrames(b) && Encode(a) == Encode(b)
    ensures a == b
  {
    HeadOf(a);
    HeadOf(b);
    if a != [] && b != [] {
      SameHead(a[0], Encode(a[1..]), b[0], Encode(b[1..]));
      FramesAreUnique(a[1..], b[1..]);
      SameHeadAndTail(a, b);
    }
  }

  lemma SameHeadAndTail(a: seq<Frame>, b: seq<Frame>)
    requires a != [] && b != [] && a[0] == b[0] && a[1..] == b[1..]
    ensures a == b
  {
    assert a == [a[0]] + a[1..] && b == [b[0]] + b[1..];
  }

  /** A whole frame at some place of the stream. */
  lemma NextFrame(rest: seq<byte>) returns (frame: Frame)
    requires rest != [] && !IsCut(rest)
    ensures IsFrame(frame) && |frame.payload| == Size(rest[4..8])
    ensures frame.payload == rest[HEADER..HEADER + |frame.payload|]
    ensures rest[..HEADER + |frame.payload|] == EncodeFrame(frame)
  {
    var size := Size(rest[4..8]);
    frame := Frame(rest[..4], rest[8..8 + size]);
    BigEndianOfSize(rest[4..8]);
    assert rest[..8 + size] == rest[..4] + rest[4..8] + rest[8..8 + size];
  }

  ghost predicate IsStream(input: seq<byte>) {
    exists frames :: AreFrames(frames) && Encode(frames) == input
  }

  lemma NotWhole(input: seq<byte>, at: nat, frames: seq<Frame>)
    requires at <= |input| && AreFrames(frames) && input[..at] == Encode(frames) && IsCut(input[at..])
    ensures !IsStream(input)
  {
    assert input == Encode(frames) + input[at..];
    forall others | AreFrames(others) ensures Encode(others) != input {
      CutIsNotFrames(frames, input[at..], others);
    }
  }

  lemma OnlyFrames(input: seq<byte>, frames: seq<Frame>)
    requires AreFrames(frames) && input == Encode(frames)
    ensures IsStream(input)
    ensures forall others :: AreFrames(others) && Encode(others) == input ==> others == frames
  {
    forall others | AreFrames(others) && Encode(others) == input ensures others == frames {
      FramesAreUnique(others, frames);
    }
  }

  datatype Logs = Logs(output: seq<byte>, truncated: bool)

  /** How much of a payload is still wanted after what was kept. */
  function Wanted(kept: seq<byte>, size: nat, limit: int): nat {
    var remaining := limit - |kept|;
    var room := if remaining < 0 then 0 else remaining;
    if size < room then size else room
  }

  lemma KeepMore(payloads: seq<byte>, payload: seq<byte>, limit: int)
    ensures
      var kept := FirstOf(payloads, Kept(limit));
      var wanted := Wanted(kept, |payload|, limit);
      && FirstOf(payloads + payload, Kept(limit)) == kept + payload[..wanted]
      && (|payloads + payload| > Kept(limit) <==> |payloads| > Kept(limit) || |payload| > wanted)
  {}

  /** The logs of frames, as far as the limit allows. */
  function LogsOf(frames: seq<Frame>, limit: int): Logs {
    Logs(FirstOf(Payloads(frames), Kept(limit)), |Payloads(frames)| > Kept(limit))
  }

  lemma MoreLogs(frames: seq<Frame>, grown: seq<Frame>, payload: seq<byte>, limit: int)
    requires Payloads(grown) == Payloads(frames) + payload
    ensures
      var logs := LogsOf(frames, limit);
      var wanted := Wanted(logs.output, |payload|, limit);
      LogsOf(grown, limit) == Logs(logs.output + payload[..wanted], logs.truncated || |payload| > wanted)
  {
    KeepMore(Payloads(frames), payload, limit);
  }

  /** Read what is still wanted of one payload and skip the rest; a short payload is an error. */
  method TakePayload(input: seq<byte>, body: nat, size: nat, kept: seq<byte>, limit: int) returns (taken: Option<Logs>)
    requires body <= |input|
    ensures taken.Some? <==> body + size <= |input|
    ensures taken.Some? ==>
      taken.value == Logs(kept + input[body..body + size][..Wanted(kept, size, limit)],
                          size > Wanted(kept, size, limit))
  {
    var output, truncated := kept, false;
    var readSize := Wanted(kept, size, limit);
    if readSize > 0 {
      if |input| < body + readSize {
        return None;
      }
      output := output + input[body..body + readSize];
    }
    var unread := size - readSize;
    if unread > 0 {
      truncated := true;
      if |input| < body + readSize + unread {
        return None;
      }
    }
    assert input[body..body + size][..readSize] == input[body..body + readSize];
    return Some(Logs(output, truncated));
  }

  /** The part of the loop that follows the header. */
  method TakeFrame(input: seq<byte>, at: nat, size: nat, logs: Logs, limit: int, ghost frames: seq<Frame>)
    returns (taken: Option<Logs>, ghost grown: seq<Frame>)
    requires at + HEADER <= |input| && AreFrames(frames) && input[..at] == Encode(frames)
    requires size == Size(input[at + 4..at + 8]) && logs == LogsOf(frames, limit)
    ensures taken.None? ==> !IsStream(input)
    ensures taken.Some? ==>
              && at + HEADER + size <= |input| && AreFrames(grown) && input[..at + HEADER + size] == Encode(grown)
              && taken.value == LogsOf(grown, limit)
  {
    var body := at + HEADER;
    var payload := TakePayload(input, body, size, logs.output, limit);
    if payload.None? {
      assert input[at..][4..8] == input[at + 4..at + 8];
      NotWhole(input, at, frames);
      return None, frames;
    }
    grown := AddFrame(input, at, frames, size);
    MoreLogs(frames, grown, input[body..body + size], limit);
    return Some(Logs(payload.value.output, logs.truncated || payload.value.truncated)), grown;
  }

  /** Succeeds exactly on whole frames followed by a clean end; the output is as much of the payloads
      as the limit allows, and truncation is reported exactly when that is not all. */
  method ReadDockerLogStream(input: seq<byte>, clean: bool, limit: int) returns (result: Option<Logs>)
    ensures result.Some? <==> clean && IsStream(input)
    ensures result.Some? ==> forall frames :: AreFrames(frames) && Encode(frames) == input ==>
      result.value == LogsOf(frames, limit)
  {
    var output: seq<byte>, truncated := [], false;
    var at := 0;
    ghost var frames: seq<Frame> := [];
    while true
      invariant 0 <= at <= |input| && AreFrames(frames) && input[..at] == Encode(frames)
      invariant Logs(output, truncated) == LogsOf(frames, limit)
      decreases |input| - at
    {
      if |input| - at < HEADER {
        if at < |input| {
          NotWhole(input, at, frames);
          return None;
        }
        OnlyFrames(input, frames);
        return if clean then Some(Logs(output, truncated)) else None;
      }
      var size := Size(input[at + 4..at + 8]);
      var taken;
      taken, frames := TakeFrame(input, at, size, Logs(output, truncated), limit, frames);
      if taken.None? {
        return None;
      }
      output, truncated := taken.value.output, taken.value.truncated;
      at := at + HEADER + size;
    }
  }

  /** The frame at some place of the stream, after the frames before it. */
  lemma AddFrame(input: seq<byte>, at: nat, frames: seq<Frame>, size: nat) returns (grown: seq<Frame>)
    requires at + HEADER <= |input| && AreFrames(frames) && input[..at] == Encode(frames)
    requires size == Size(input[at + 4..at + 8]) && at + HEADER + size <= |input|
    ensures AreFrames(grown) && input[..at + HEADER + size] == Encode(grown)
    ensures Payloads(grown) == Payloads(frames) + input[at + HEADER..at + HEADER + size]
  {
    assert input[at..][4..8] == input[at + 4..at + 8];
    var frame := NextFrame(input[at..]);
    grown := frames + [frame];
    GrowByFrame(input, at, frames, frame);
  }

  lemma GrowByFrame(input: seq<byte>, at: nat, frames: seq<Frame>, frame: Frame)
    requires AreFrames(frames) && IsFrame(frame) && at + HEADER + |frame.payload| <= |input|
    requires input[..at] == Encode(frames) && input[at..][..HEADER + |frame.payload|] == EncodeFrame(frame)
    ensures AreFrames(frames + [frame]) && input[..at + HEADER + |frame.payload|] == Encode(frames + [frame])
    ensures Payloads(frames + [frame]) == Payloads(frames) + input[at + HEADER..at + HEADER + |frame.payload|]
  {
    var end := at + HEADER + |frame.payload|;
    assert (frames + [frame])[..|frames|] == frames;
    assert input[..end] == input[..at] + input[at..][..HEADER + |frame.payload|];
    assert EncodeFrame(frame)[HEADER..] == frame.payload;
  }
}
