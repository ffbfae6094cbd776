/**
 The decoder of multiplexed container logs (scripts/live_canary_window.py:310-326), against
 the stream format of the Docker Engine API, operation ContainerAttach: a frame is a header
 {STREAM_TYPE, 0, 0, 0, SIZE1, SIZE2, SIZE3, SIZE4} with a big-endian size, then the payload.
 Text decoding of bytes is a parameter.
 */
module LogFraming {
  import opened Collections

  type Byte = x: int | 0 <= x < 256
  type Bytes = seq<Byte>

  datatype Frame = Frame(stream: Byte, payload: Bytes)

  const SIZE_LIMIT := 0x1_0000_0000

  predicate ValidFrame(f: Frame) {
    f.stream <= 2 && |f.payload| < SIZE_LIMIT
  }

  ghost predicate ValidFrames(frames: seq<Frame>) {
    forall f <- frames :: ValidFrame(f)
  }

  // ---------- The format ----------

  function BigEndian(n: nat): (b: Bytes)
    requires n < SIZE_LIMIT
    ensures |b| == 4
  {
    [n / 0x100_0000, n / 0x1_0000 % 0x100, n / 0x100 % 0x100, n % 0x100]
  }

  function FromBigEndian(b: Bytes): nat
    requires |b| == 4
  {
    ((b[0] as int * 0x100 + b[1] as int) * 0x100 + b[2] as int) * 0x100 + b[3] as int
  }

  lemma BigEndianRoundTrip(n: nat)
    requires n < SIZE_LIMIT
    ensures FromBigEndian(BigEndian(n)) == n
  {
    var q, r := n / 0x100, n % 0x100;
    assert n == q * 0x100 + r;
    assert q / 0x100 == n / 0x1_0000 && q == q / 0x100 * 0x100 + q % 0x100;
    assert n / 0x1_0000 / 0x100 == n / 0x100_0000;
  }

  lemma BigEndianOnto(b: Bytes)
    requires |b| == 4
    ensures FromBigEndian(b) < SIZE_LIMIT && BigEndian(FromBigEndian(b)) == b
  {
    var n, b0, b1, b2, b3 := FromBigEndian(b), b[0] as int, b[1] as int, b[2] as int, b[3] as int;
    assert n / 0x100 == (b0 * 0x100 + b1) * 0x100 + b2 && n % 0x100 == b3;
    assert n / 0x1_0000 == b0 * 0x100 + b1 && n / 0x100 % 0x100 == b2;
    assert n / 0x100_0000 == b0 && n / 0x1_0000 % 0x100 == b1;
  }

  function EncodeFrame(f: Frame): (b: Bytes)
    requires ValidFrame(f)
    ensures |b| == 8 + |f.payload|
  {
    [f.stream, 0, 0, 0] + BigEndian(|f.payload|) + f.payload
  }

  function Encode(frames: seq<Frame>): Bytes
    requires ValidFrames(frames)
  {
    if frames == [] then [] else EncodeFrame(frames[0]) + Encode(frames[1..])
  }

  /** The per-frame texts one after the other. */
  function Texts(frames: seq<Frame>, text: Bytes -> string): string {
    if frames == [] then "" else text(frames[0].payload) + Texts(frames[1..], text)
  }

  // ---------- The decoder ----------

  predicate HeaderAt(payload: Bytes, offset: nat) {
    && offset + 8 <= |payload|
    && payload[offset] <= 2
    && payload[offset + 1..offset + 4] == [0, 0, 0]
    && FrameEnd(payload, offset) <= |payload|
  }

  function FrameEnd(payload: Bytes, offset: nat): (end: nat)
    requires offset + 8 <= |payload|
    ensures end >= offset + 8
  {
    offset + 8 + FromBigEndian(payload[offset + 4..offset + 8])
  }

  function FrameAt(payload: Bytes, offset: nat): (f: Frame)
    requires HeaderAt(payload, offset)
    ensures ValidFrame(f)
  {
    BigEndianOnto(payload[offset + 4..offset + 8]);
    Frame(payload[offset], payload[offset + 8..FrameEnd(payload, offset)])
  }

  /** The frames from `offset` to the end, if the bytes are an exact framing. */
  function Parse(payload: Bytes, offset: nat): (r: Option<seq<Frame>>)
    requires offset <= |payload|
    ensures r.Some? ==> ValidFrames(r.value)
    decreases |payload| - offset
  {
    if offset == |payload| then Some([])
    else if !HeaderAt(payload, offset) then None
    else
      var rest := Parse(payload, FrameEnd(payload, offset));
      if rest.None? then None else Some([FrameAt(payload, offset)] + rest.value)
  }

  /** A header is where a frame's encoding starts. */
  lemma FrameBytes(payload: Bytes, offset: nat)
    requires HeaderAt(payload, offset)
    ensures payload[offset..FrameEnd(payload, offset)] == EncodeFrame(FrameAt(payload, offset))
  {
    var size := payload[offset + 4..offset + 8];
    BigEndianOnto(size);
    var f := FrameAt(payload, offset);
    assert BigEndian(|f.payload|) == size;
    assert payload[offset..FrameEnd(payload, offset)]
        == [payload[offset]] + payload[offset + 1..offset + 4] + size + f.payload;
  }

  /** Parsing inverts encoding: whatever parses re-encodes to the very bytes. */
  lemma {:induction false} ParseSound(payload: Bytes, offset: nat)
    requires offset <= |payload| && Parse(payload, offset).Some?
    ensures Encode(Parse(payload, offset).value) == payload[offset..]
    decreases |payload| - offset
  {
    if offset < |payload| {
      var end := FrameEnd(payload, offset);
      ParseSound(payload, end);
      FrameBytes(payload, offset);
      var frames := Parse(payload, offset).value;
      assert frames[1..] == Parse(payload, end).value;
      assert payload[offset..] == payload[offset..end] + payload[end..];
    }
  }

  /** The eight header bytes of a frame, one by one. */
  lemma FrameHeader(f: Frame)
    requires ValidFrame(f)
    ensures var b := EncodeFrame(f);
            && |b| == 8 + |f.payload| && b[0] == f.stream && b[1..4] == [0, 0, 0]
            && b[4..8] == BigEndian(|f.payload|) && b[8..] == f.payload
  {
    hide BigEndian;
  }

  /** A slice inside the middle of three parts. */
  lemma MiddleSlice(before: Bytes, middle: Bytes, after: Bytes, lo: nat, hi: nat)
    requires lo <= hi <= |middle|
    ensures (before + middle + after)[|before| + lo..|before| + hi] == middle[lo..hi]
  {
  }

  lemma HeaderOfFrame(before: Bytes, f: Frame, after: Bytes)
    requires ValidFrame(f)
    ensures var payload := before + EncodeFrame(f) + after;
            && HeaderAt(payload, |before|)
            && FrameEnd(payload, |before|) == |before| + |EncodeFrame(f)|
            && FrameAt(payload, |before|) == f
  {
    hide EncodeFrame, BigEndian;
    var middle := EncodeFrame(f);
    var payload, o := before + middle + after, |before|;
    FrameHeader(f);
    BigEndianRoundTrip(|f.payload|);
    assert payload[o] == middle[0];
    MiddleSlice(before, middle, after, 1, 4);
    MiddleSlice(before, middle, after, 4, 8);
    MiddleSlice(before, middle, after, 8, |middle|);
    assert middle[8..|middle|] == middle[8..];
  }

  /** Encoding inverts parsing: every list of frames is recovered from its bytes. */
  lemma {:induction false} ParseComplete(before: Bytes, frames: seq<Frame>)
    requires ValidFrames(frames)
    ensures Parse(before + Encode(frames), |before|) == Some(frames)
    decreases |frames|
  {
    EncodeNothing(before);
    hide EncodeFrame, HeaderAt, FrameAt, FrameEnd, Parse, Encode;
    if frames != [] {
      var f, rest := frames[0], Encode(frames[1..]);
      var upto := before + EncodeFrame(f);
      EncodeSplit(before, frames);
      HeaderOfFrame(before, f, rest);
      ParseComplete(upto, frames[1..]);
      ParseStep(upto + rest, |before|, frames[1..]);
      assert frames == [f] + frames[1..];
    }
  }

  lemma EncodeNothing(before: Bytes)
    ensures before + Encode([]) == before && Parse(before, |before|) == Some([])
  {
  }

  lemma EncodeSplit(before: Bytes, frames: seq<Frame>)
    requires ValidFrames(frames) && frames != []
    ensures ValidFrame(frames[0]) && ValidFrames(frames[1..])
    ensures before + Encode(frames) == (before + EncodeFrame(frames[0])) + Encode(frames[1..])
  {
    hide EncodeFrame;
  }

  lemma ParseStep(payload: Bytes, offset: nat, rest: seq<Frame>)
    requires HeaderAt(payload, offset) && Parse(payload, FrameEnd(payload, offset)) == Some(rest)
    ensures Parse(payload, offset) == Some([FrameAt(payload, offset)] + rest)
  {
  }

  /** The payload bytes of all frames together. */
  function PayloadBytes(frames: seq<Frame>): nat {
    if frames == [] then 0 else |frames[0].payload| + PayloadBytes(frames[1..])
  }

  /** Every byte is accounted for: eight for each frame and its payload, so no more than an eighth as many frames. */
  lemma {:induction false} ParseAccounts(payload: Bytes, offset: nat)
    requires offset <= |payload| && Parse(payload, offset).Some?
    ensures var frames := Parse(payload, offset).value;
            |payload| - offset == 8 * |frames| + PayloadBytes(frames) && |frames| <= (|payload| - offset) / 8
    decreases |payload| - offset
  {
    if offset < |payload| {
      var end := FrameEnd(payload, offset);
      ParseAccounts(payload, end);
      var frames := Parse(payload, offset).value;
      assert frames[1..] == Parse(payload, end).value;
      assert |frames[0].payload| == end - (offset + 8);
    }
  }

  /** The bytes are the encoding of some list of frames. */
  ghost predicate ExactFraming(payload: Bytes) {
    exists frames :: ValidFrames(frames) && Encode(frames) == payload
  }

  lemma ParsesIffFramed(payload: Bytes)
    ensures Parse(payload, 0).Some? <==> ExactFraming(payload)
  {
    assert payload[0..] == payload;
    if Parse(payload, 0).Some? {
      ParseSound(payload, 0);
    }
    if ExactFraming(payload) {
      var frames :| ValidFrames(frames) && Encode(frames) == payload;
      ParseComplete([], frames);
      assert [] + Encode(frames) == payload;
    }
  }

  /** What the decoder returns, in terms of the parse. */
  function Decoded(payload: Bytes, text: Bytes -> string): string {
    match Parse(payload, 0)
    case Some(frames) => Texts(frames, text)
    case None => text(payload)
  }

  /**
   _decode_docker_log_stream: advances frame by frame, at least 8 bytes at a time, and falls
   back to decoding everything at the first deviation from the format.
   */
  method DecodeDockerLogStream(payload: Bytes, text: Bytes -> string) returns (decoded: string)
    ensures decoded == Decoded(payload, text)
  {
    if payload == [] {
      assert Parse(payload, 0) == Some([]);
      return "";
    }
    var offset := 0;
    var chunks: seq<string> := [];
    ghost var whole := Parse(payload, 0);
    hide Parse, HeaderAt, Texts, Joined;
    ParseStarts(payload, text);
    while offset + 8 <= |payload|
      invariant offset <= |payload|
      invariant Continues(payload, whole, offset, chunks, text)
      decreases |payload| - offset
    {
      var header := payload[offset..offset + 8];
      var frameEnd := offset + 8 + FromBigEndian(header[4..8]);
      SliceOfSlice(payload, offset, 8, 4, 8);
      SliceOfSlice(payload, offset, 8, 1, 4);
      ContinueStep(payload, whole, offset, chunks, text);
      if header[0] > 2 || header[1..4] != [0, 0, 0] || frameEnd > |payload| {
        return text(payload);
      }
      chunks := chunks + [text(payload[offset + 8..frameEnd])];
      offset := frameEnd;
    }
    ContinueEnds(payload, whole, offset, chunks, text);
    if offset != |payload| {
      return text(payload);
    }
    decoded := Joined(chunks);
  }

  lemma SliceOfSlice(s: Bytes, at: nat, n: nat, lo: nat, hi: nat)
    requires lo <= hi <= n && at + n <= |s|
    ensures s[at..at + n][lo..hi] == s[at + lo..at + hi]
  {
    var a, b := s[at..at + n][lo..hi], s[at + lo..at + hi];
    assert |a| == |b| == hi - lo;
    forall i | 0 <= i < |a|
      ensures a[i] == b[i]
    {
      assert a[i] == s[at..at + n][lo + i] == s[at + (lo + i)] == b[i];
    }
  }

  /** The parse of the whole is the frames consumed so far followed by the parse of the rest. */
  ghost predicate Continues(payload: Bytes, whole: Option<seq<Frame>>, offset: nat, chunks: seq<string>,
                            text: Bytes -> string)
    requires offset <= |payload|
  {
    && (whole.Some? <==> Parse(payload, offset).Some?)
    && (whole.Some? ==> Texts(whole.value, text) == Joined(chunks) + Texts(Parse(payload, offset).value, text))
  }

  lemma ParseStarts(payload: Bytes, text: Bytes -> string)
    ensures Continues(payload, Parse(payload, 0), 0, [], text)
  {
  }

  lemma ContinueStep(payload: Bytes, whole: Option<seq<Frame>>, offset: nat, chunks: seq<string>, text: Bytes -> string)
    requires offset + 8 <= |payload| && Continues(payload, whole, offset, chunks, text)
    ensures HeaderAt(payload, offset) <==>
              payload[offset] <= 2 && payload[offset + 1..offset + 4] == [0, 0, 0]
                  && FrameEnd(payload, offset) <= |payload|
    ensures !HeaderAt(payload, offset) ==> whole == None
    ensures HeaderAt(payload, offset) ==>
              var end := FrameEnd(payload, offset);
              Continues(payload, whole, end, chunks + [text(payload[offset + 8..end])], text)
  {
    if HeaderAt(payload, offset) {
      var end := FrameEnd(payload, offset);
      JoinedAppend(chunks, text(payload[offset + 8..end]));
      var rest := Parse(payload, end);
      if rest.Some? {
        var all := [FrameAt(payload, offset)] + rest.value;
        assert all[1..] == rest.value;
      }
    }
  }

  lemma ContinueEnds(payload: Bytes, whole: Option<seq<Frame>>, offset: nat, chunks: seq<string>, text: Bytes -> string)
    requires offset <= |payload| < offset + 8 && Continues(payload, whole, offset, chunks, text)
    ensures offset != |payload| ==> whole == None
    ensures offset == |payload| ==> whole.Some? && Texts(whole.value, text) == Joined(chunks)
  {
  }

  function Joined(chunks: seq<string>): string {
    if chunks == [] then "" else Joined(chunks[..|chunks| - 1]) + chunks[|chunks| - 1]
  }

  lemma JoinedAppend(chunks: seq<string>, chunk: string)
    ensures Joined(chunks + [chunk]) == Joined(chunks) + chunk
  {
    assert (chunks + [chunk])[..|chunks|] == chunks;
  }

  /** Round trip: decoding the encoding of any frames gives the concatenation of their texts. */
  lemma DecodeEncoded(frames: seq<Frame>, text: Bytes -> string)
    requires ValidFrames(frames)
    ensures Decoded(Encode(frames), text) == Texts(frames, text)
  {
    ParseComplete([], frames);
    assert [] + Encode(frames) == Encode(frames);
  }

  /** Fallback: anything that is not an exact framing is decoded whole. */
  lemma DecodeUnframed(payload: Bytes, text: Bytes -> string)
    requires !ExactFraming(payload)
    ensures Decoded(payload, text) == text(payload)
  {
    ParsesIffFramed(payload);
  }

  /** A byte string is the encoding of at most one list of frames. */
  lemma EncodeInjective(a: seq<Frame>, b: seq<Frame>)
    requires ValidFrames(a) && ValidFrames(b) && Encode(a) == Encode(b)
    ensures a == b
  {
    ParseComplete([], a);
    ParseComplete([], b);
    assert [] + Encode(a) == [] + Encode(b);
  }

  // ---------- The format byte by byte ----------

  /**
   A header is eight bytes: a stream number of at most 2, three zeros, and the payload's size with the most
   significant byte first; the payload must be there in full.
   */
  lemma HeaderIff(payload: Bytes, offset: nat)
    requires offset + 8 <= |payload|
    ensures var b4: int, b5: int, b6: int, b7: int :=
              payload[offset + 4], payload[offset + 5], payload[offset + 6], payload[offset + 7];
            var size := b4 * 16777216 + b5 * 65536 + b6 * 256 + b7;
            && FrameEnd(payload, offset) == offset + 8 + size
            && (HeaderAt(payload, offset)
                <==> && payload[offset] <= 2 && payload[offset + 1] == 0 && payload[offset + 2] == 0
                     && payload[offset + 3] == 0 && offset + 8 + size <= |payload|)
            && (HeaderAt(payload, offset) ==>
                  && FrameAt(payload, offset).stream == payload[offset]
                  && FrameAt(payload, offset).payload == payload[offset + 8..offset + 8 + size])
  {
    var zeros := payload[offset + 1..offset + 4];
    assert zeros == [payload[offset + 1], payload[offset + 2], payload[offset + 3]];
  }

  /** A frame is encoded as its stream number, three zeros, its size in base 256, and its payload. */
  lemma EncodedFrameIs(f: Frame)
    requires ValidFrame(f)
    ensures var b := EncodeFrame(f);
            && |b| == 8 + |f.payload| && b[8..] == f.payload
            && b[0] == f.stream && f.stream in {0, 1, 2} && b[1] == 0 && b[2] == 0 && b[3] == 0
            && var b4: int, b5: int, b6: int, b7: int := b[4], b[5], b[6], b[7];
               b4 * 16777216 + b5 * 65536 + b6 * 256 + b7 == |f.payload| < 4294967296
  {
    FrameHeader(f);
    BigEndianRoundTrip(|f.payload|);
    var b, size := EncodeFrame(f), BigEndian(|f.payload|);
    assert b[4] == b[4..8][0] && b[5] == b[4..8][1] && b[6] == b[4..8][2] && b[7] == b[4..8][3];
    assert b[1] == b[1..4][0] && b[2] == b[1..4][1] && b[3] == b[1..4][2];
    hide BigEndian, EncodeFrame;
    assert b[4..8] == size;
  }

  /** Bytes that start with no header, too short a one included, are decoded whole. */
  lemma BadHeaderDecodedWhole(payload: Bytes, text: Bytes -> string)
    requires payload != []
    requires |payload| >= 8 ==>
               var b4: int, b5: int, b6: int, b7: int := payload[4], payload[5], payload[6], payload[7];
               || payload[0] > 2 || payload[1] != 0 || payload[2] != 0 || payload[3] != 0
               || 8 + b4 * 16777216 + b5 * 65536 + b6 * 256 + b7 > |payload|
    ensures Decoded(payload, text) == text(payload)
  {
    if |payload| >= 8 {
      HeaderIff(payload, 0);
    }
  }

  /** A frame at the start contributes its text, and the rest is decoded like a stream of its own if it is framed. */
  lemma FirstFrameDecoded(payload: Bytes, text: Bytes -> string)
    requires |payload| >= 8 && HeaderAt(payload, 0)
    ensures var end := FrameEnd(payload, 0);
            Decoded(payload, text)
            == if ExactFraming(payload[end..]) then text(payload[8..end]) + Decoded(payload[end..], text)
               else text(payload)
  {
    var end := FrameEnd(payload, 0);
    var f, tail := FrameAt(payload, 0), payload[end..];
    FrameBytes(payload, 0);
    assert payload == payload[..end] + tail && payload[0..end] == payload[..end];
    ParsesIffFramed(tail);
    if ExactFraming(tail) {
      var frames :| ValidFrames(frames) && Encode(frames) == tail;
      ParseComplete([], frames);
      assert [] + Encode(frames) == tail;
      ParseComplete(EncodeFrame(f), frames);
      assert EncodeFrame(f) + Encode(frames) == payload;
      assert ([f] + frames)[1..] == frames;
    } else if ExactFraming(payload) {
      ParsesIffFramed(payload);
      ParseSound(payload, end);
    } else {
      DecodeUnframed(payload, text);
    }
  }
}
