/**
 * Line buffers (src/lib/server.ts, `hostSpawn`) and Docker's framed log streams (src/lib/docker.ts,
 * src/lib/alerts.ts).
 */

module Lines {
  import opened JsText
  import opened JsBytes
  import opened Sequences
  import opened Utf8

  /** The buffer of `hostSpawn`: complete lines are handed out, the unfinished one is kept. */
  class LineBuffer {
    var buf: Text

    constructor ()
      ensures buf == []
    {
      buf := [];
    }

    method Flush(chunk: Text) returns (lines: seq<Text>)
      modifies this
      ensures lines + [buf] == Split(old(buf) + chunk, NEWLINE)
      ensures (lines, buf) == Fed(old(buf), chunk)
    {
      buf := buf + chunk;
      lines := Split(buf, NEWLINE);
      buf := lines[|lines| - 1];
      lines := lines[..|lines| - 1];
    }

    /** The handler of the child's output: every chunk is decoded on its own. */
    method Receive(chunk: Bytes) returns (lines: seq<Text>)
      modifies this
      ensures (lines, buf) == Fed(old(buf), Decode(chunk))
    {
      lines := Flush(Decode(chunk));
    }

    /** On `close` the partial line is handed out too, unless it is empty. */
    method Finish() returns (lines: seq<Text>)
      ensures lines == if buf == [] then [] else [buf]
    {
      lines := if buf == [] then [] else [buf];
    }
  }

  function Fed(buf: Text, chunk: Text): (r: (seq<Text>, Text))
    ensures r.0 + [r.1] == Split(buf + chunk, NEWLINE)
  {
    var parts := Split(buf + chunk, NEWLINE);
    (parts[..|parts| - 1], parts[|parts| - 1])
  }

  /** All lines handed out over a run of the first `n` chunks, and the buffer after it. */
  function FedAll(buf: Text, chunks: seq<Text>, n: nat): (seq<Text>, Text)
    requires n <= |chunks|
  {
    if n == 0 then ([], buf)
    else
      var before := FedAll(buf, chunks, n - 1);
      var last := Fed(before.1, chunks[n - 1]);
      (before.0 + last.0, last.1)
  }

  function Joined(chunks: seq<Text>, n: nat): Text
    requires n <= |chunks|
  {
    if n == 0 then [] else Joined(chunks, n - 1) + chunks[n - 1]
  }

  /** Where the stream is cut does not matter: lines and leftover are one split of everything that arrived. */
  lemma {:induction false} ChunkingIndependent(buf: Text, chunks: seq<Text>, n: nat)
    requires n <= |chunks| && NEWLINE !in buf
    ensures var r := FedAll(buf, chunks, n);
            NEWLINE !in r.1 && r.0 + [r.1] == Split(buf + Joined(chunks, n), NEWLINE)
  {
    if n == 0 {
      assert buf + Joined(chunks, 0) == buf;
      SplitSolid(buf, NEWLINE);
    } else {
      ChunkingIndependent(buf, chunks, n - 1);
      var (before, chunk) := (FedAll(buf, chunks, n - 1), chunks[n - 1]);
      var sofar := buf + Joined(chunks, n - 1);
      SplitConcat(sofar, chunk, NEWLINE);
      LastOf(before.0, before.1, Split(sofar, NEWLINE));
      Assoc(buf, Joined(chunks, n - 1), chunk);
      var last := Fed(before.1, chunk);
      Appended(before.0, last.0, last.1);
      assert last.1 in Split(before.1 + chunk, NEWLINE);
    }
  }

  lemma LastOf(init: seq<Text>, last: Text, parts: seq<Text>)
    requires parts == init + [last]
    ensures parts[..|parts| - 1] == init && parts[|parts| - 1] == last
  {
  }

  lemma Appended(a: seq<Text>, b: seq<Text>, c: Text)
    ensures a + (b + [c]) == (a + b) + [c]
  {
  }

  /** Two cuttings of the same text hand out the same lines. */
  lemma SameLines(x: seq<Text>, y: seq<Text>)
    requires Joined(x, |x|) == Joined(y, |y|)
    ensures FedAll([], x, |x|) == FedAll([], y, |y|)
  {
    ChunkingIndependent([], x, |x|);
    ChunkingIndependent([], y, |y|);
    var (p, q) := (FedAll([], x, |x|), FedAll([], y, |y|));
    var parts := Split([] + Joined(x, |x|), NEWLINE);
    LastOf(p.0, p.1, parts);
    LastOf(q.0, q.1, parts);
  }

  // ----- from bytes

  /** The texts of the chunks, one after the other. */
  function Decoded(chunks: seq<Bytes>, n: nat): Text
    requires n <= |chunks|
  {
    if n == 0 then [] else Decoded(chunks, n - 1) + Decode(chunks[n - 1])
  }

  lemma {:induction false} JoinedIsDecoded(chunks: seq<Bytes>, texts: seq<Text>, n: nat)
    requires texts == Texts(chunks) && n <= |chunks|
    ensures Joined(texts, n) == Decoded(chunks, n)
  {
    hide Decode;
    if n > 0 {
      JoinedIsDecoded(chunks, texts, n - 1);
    }
  }

  lemma {:induction false} CleanChunks(chunks: seq<Bytes>, n: nat)
    requires n <= |chunks| && CleanCuts(chunks, n)
    ensures Decoded(chunks, n) == Decode(JoinedBytes(chunks, n))
  {
    hide Decode;
    hide CleanCut;
    DecodeEmpty();
    if n > 0 {
      CleanChunks(chunks, n - 1);
      CutIff(JoinedBytes(chunks, n - 1), chunks[n - 1]);
    }
  }

  /** The texts of the chunks never weigh less than the whole, and weigh more after a cut that is not clean. */
  lemma {:induction false} ChunksWeigh(chunks: seq<Bytes>, n: nat)
    requires n <= |chunks|
    ensures Weight(Decode(JoinedBytes(chunks, n))) <= Weight(Decoded(chunks, n))
    ensures Weight(Decode(JoinedBytes(chunks, n))) == Weight(Decoded(chunks, n)) ==> CleanCuts(chunks, n)
  {
    hide Decode;
    hide CleanCut;
    hide Weight;
    DecodeEmpty();
    if n > 0 {
      ChunksWeigh(chunks, n - 1);
      CutIff(JoinedBytes(chunks, n - 1), chunks[n - 1]);
      WeightJoin(Decoded(chunks, n - 1), Decode(chunks[n - 1]));
    }
  }

  /** Decoding the chunks one by one is decoding the whole stream exactly when every cut is clean. */
  lemma ChunksIff(chunks: seq<Bytes>, n: nat)
    requires n <= |chunks|
    ensures Decoded(chunks, n) == Decode(JoinedBytes(chunks, n)) <==> CleanCuts(chunks, n)
  {
    hide Decode;
    hide CleanCut;
    ChunksWeigh(chunks, n);
    if CleanCuts(chunks, n) {
      CleanChunks(chunks, n);
    }
  }

  /** The lines and the leftover of `hostSpawn` over the chunks of a stream. */
  function Received(chunks: seq<Bytes>): (seq<Text>, Text) {
    FedAll([], Texts(chunks), |chunks|)
  }

  /**
   * They are one split of the decoded stream exactly when no chunk ends inside a character that the next one goes on
   * with.
   */
  lemma ReceivedIff(chunks: seq<Bytes>)
    ensures Received(chunks).0 + [Received(chunks).1] == Split(Decode(JoinedBytes(chunks, |chunks|)), NEWLINE)
            <==> CleanCuts(chunks, |chunks|)
  {
    hide Decode;
    hide CleanCut;
    var (texts, whole) := (Texts(chunks), Decode(JoinedBytes(chunks, |chunks|)));
    ChunksIff(chunks, |chunks|);
    JoinedIsDecoded(chunks, texts, |chunks|);
    ChunkingIndependent([], texts, |texts|);
    assert [] + Joined(texts, |texts|) == Joined(texts, |texts|);
    JoinSplit(Joined(texts, |texts|), NEWLINE);
    JoinSplit(whole, NEWLINE);
  }

  /** So two clean cuttings of one stream hand out the same lines. */
  lemma SameLinesOfBytes(x: seq<Bytes>, y: seq<Bytes>)
    requires JoinedBytes(x, |x|) == JoinedBytes(y, |y|) && CleanCuts(x, |x|) && CleanCuts(y, |y|)
    ensures Received(x) == Received(y)
  {
    hide Decode;
    hide CleanCut;
    ChunksIff(x, |x|);
    ChunksIff(y, |y|);
    JoinedIsDecoded(x, Texts(x), |x|);
    JoinedIsDecoded(y, Texts(y), |y|);
    SameLines(Texts(x), Texts(y));
  }

  /** A character cut in two comes out as two replacement characters. */
  lemma CutCharacter(whole: seq<Bytes>, cut: seq<Bytes>)
    requires whole == [[0xC3, 0xA9]] && cut == [[0xC3], [0xA9]]
    ensures JoinedBytes(whole, |whole|) == JoinedBytes(cut, |cut|)
    ensures Received(whole) == ([], [0xE9]) && Received(cut) == ([], [REPLACEMENT, REPLACEMENT])
  {
    hide Decode;
    hide Received;
    hide JoinedBytes;
    CutCharacterDecoded(whole[0], cut[0], cut[1]);
    assert cut[0] + cut[1] == whole[0] && Decode(cut[0]) + Decode(cut[1]) == [REPLACEMENT, REPLACEMENT];
    OneChunk(whole);
    TwoChunks(cut);
  }

  lemma OneChunk(chunks: seq<Bytes>)
    requires |chunks| == 1 && NEWLINE !in Decode(chunks[0])
    ensures JoinedBytes(chunks, |chunks|) == chunks[0] && Received(chunks) == ([], Decode(chunks[0]))
  {
    hide Decode;
    var n := |chunks|;
    assert JoinedBytes(chunks, n) == JoinedBytes(chunks, n - 1) + chunks[n - 1];
    assert Decoded(chunks, n) == Decoded(chunks, n - 1) + Decode(chunks[n - 1]);
    JoinedIsDecoded(chunks, Texts(chunks), n);
    LinesOfTexts(Texts(chunks), Decode(chunks[0]));
  }

  lemma TwoChunks(chunks: seq<Bytes>)
    requires |chunks| == 2 && NEWLINE !in Decode(chunks[0]) && NEWLINE !in Decode(chunks[1])
    ensures JoinedBytes(chunks, |chunks|) == chunks[0] + chunks[1]
    ensures Received(chunks) == ([], Decode(chunks[0]) + Decode(chunks[1]))
  {
    hide Decode;
    var n := |chunks|;
    assert JoinedBytes(chunks, n - 1) == chunks[0] && Decoded(chunks, n - 1) == Decode(chunks[0]);
    assert Decoded(chunks, n) == Decoded(chunks, n - 1) + Decode(chunks[n - 1]);
    JoinedIsDecoded(chunks, Texts(chunks), n);
    LinesOfTexts(Texts(chunks), Decode(chunks[0]) + Decode(chunks[1]));
  }

  lemma CutCharacterDecoded(whole: Bytes, first: Bytes, second: Bytes)
    requires whole == [0xC3, 0xA9] && first == [0xC3] && second == [0xA9]
    ensures Decode(whole) == [0xE9] && Decode(first) == [REPLACEMENT] && Decode(second) == [REPLACEMENT]
  {
    DecodeFirst(IDLE, 0xC3, [0xA9]);
    DecodeFirst(Step(IDLE, 0xC3).0, 0xA9, []);
    DecodeFirst(IDLE, 0xC3, []);
    DecodeFirst(IDLE, 0xA9, []);
    assert [0xC3] + [0xA9] == whole && [0xC3] + [] == first && [0xA9] + [] == second;
  }

  lemma LinesOfTexts(texts: seq<Text>, all: Text)
    requires Joined(texts, |texts|) == all && NEWLINE !in all
    ensures FedAll([], texts, |texts|) == ([], all)
  {
    ChunkingIndependent([], texts, |texts|);
    assert [] + all == all;
    SplitSolid(all, NEWLINE);
    LastOf(FedAll([], texts, |texts|).0, FedAll([], texts, |texts|).1, [all]);
  }
}

module DockerFrames {
  import opened JsText
  import opened JsBytes
  import opened Lines
  import opened Sequences
  import opened Utf8

  /** `buf.toString("utf8")` of a payload; nothing here depends on how bytes become text. */
  type Decoder = Bytes -> Text

  /** `buf.readUInt32BE(offset + 4)`: the payload length in the header at `o`. */
  function ReadLength(buf: Bytes, o: nat): nat
    requires o + 8 <= |buf|
  {
    Word(buf[o + 4], buf[o + 5], buf[o + 6], buf[o + 7])
  }

  // ----- frames and their encoding

  datatype Frame = Frame(stream: Byte, payload: Bytes)

  predicate ValidFrame(f: Frame) {
    f.stream <= 2 && |f.payload| < TWO_TO_32
  }

  predicate ValidFrames(fs: seq<Frame>) {
    forall i | 0 <= i < |fs| :: ValidFrame(fs[i])
  }

  function Header(f: Frame): (h: Bytes)
    requires ValidFrame(f)
    ensures |h| == 8
  {
    [f.stream, 0, 0, 0] + WordBytes(|f.payload|)
  }

  function Encode(f: Frame): Bytes
    requires ValidFrame(f)
  {
    Header(f) + f.payload
  }

  function EncodeAll(fs: seq<Frame>): Bytes
    requires ValidFrames(fs)
  {
    if fs == [] then [] else Encode(fs[0]) + EncodeAll(fs[1..])
  }

  function Payloads(fs: seq<Frame>): Bytes {
    if fs == [] then [] else fs[0].payload + Payloads(fs[1..])
  }

  lemma HeaderLength(f: Frame, rest: Bytes)
    requires ValidFrame(f)
    ensures var buf := Encode(f) + rest;
            && |buf| >= 8 + |f.payload| && ReadLength(buf, 0) == |f.payload|
            && buf[0] <= 2 && buf[1] == 0 && buf[2] == 0 && buf[3] == 0
  {
    WordOfBytes(|f.payload|);
    var buf := Encode(f) + rest;
    assert forall i | 0 <= i < 8 :: buf[i] == Header(f)[i];
  }

  lemma FrameSplits(f: Frame, rest: Bytes)
    requires ValidFrame(f)
    ensures var (buf, n) := (Encode(f) + rest, |f.payload|);
            buf[8..8 + n] == f.payload && buf[8 + n..] == rest
  {
  }

  // ----- demuxDockerStream

  /** The loop from offset `o` on. */
  function FramesAt(buf: Bytes, o: nat): Bytes
    requires o <= |buf|
    decreases |buf| - o
  {
    if o + 8 > |buf| then []
    else if buf[o] > 2 || buf[o + 1] != 0 then buf[o..]
    else
      var len := ReadLength(buf, o);
      if o + 8 + len > |buf| then buf[o + 8..] else buf[o + 8..o + 8 + len] + FramesAt(buf, o + 8 + len)
  }

  function Demux(buf: Bytes): Bytes {
    if |buf| < 8 || buf[0] > 2 || buf[1] != 0 || buf[2] != 0 || buf[3] != 0 then buf else FramesAt(buf, 0)
  }

  method DemuxDockerStream(buf: Bytes, utf8: Decoder) returns (text: Text)
    ensures text == utf8(Demux(buf))
  {
    if |buf| < 8 || buf[0] > 2 || buf[1] != 0 || buf[2] != 0 || buf[3] != 0 { return utf8(buf); }
    var chunks := JoinFrames(buf);
    return utf8(chunks);
  }

  /** Data without frames, as of a container with a terminal, is shown as it is. */
  lemma DemuxUnframed(buf: Bytes)
    requires |buf| < 8 || buf[0] > 2 || buf[1] != 0 || buf[2] != 0 || buf[3] != 0
    ensures Demux(buf) == buf
  {
  }

  /** Behind whole frames, bytes that begin no frame are shown as they are. */
  lemma DemuxBroken(fs: seq<Frame>, rest: Bytes)
    requires ValidFrames(fs) && fs != [] && |rest| >= 8 && (rest[0] > 2 || rest[1] != 0)
    ensures Demux(EncodeAll(fs) + rest) == Payloads(fs) + rest
  {
    FramesOfEncoded(fs, rest);
    assert rest[0..] == rest;
  }

  /** The loop: the payloads of the frames, one after the other. */
  method JoinFrames(buf: Bytes) returns (chunks: Bytes)
    ensures chunks == FramesAt(buf, 0)
  {
    hide FramesAt;
    chunks := [];
    var offset := 0;
    while offset + 8 <= |buf|
      invariant offset <= |buf| && chunks + FramesAt(buf, offset) == FramesAt(buf, 0)
    {
      FramesStep(buf, offset);
      if buf[offset] > 2 || buf[offset + 1] != 0 { return chunks + buf[offset..]; }
      var len := ReadLength(buf, offset);
      offset := offset + 8;
      if offset + len > |buf| { return chunks + buf[offset..]; }
      Assoc(chunks, buf[offset..offset + len], FramesAt(buf, offset + len));
      chunks := chunks + buf[offset..offset + len];
      offset := offset + len;
    }
    FramesStep(buf, offset);
    assert chunks + [] == chunks;
  }

  lemma FramesStep(buf: Bytes, o: nat)
    requires o <= |buf|
    ensures FramesAt(buf, o)
            == if o + 8 > |buf| then []
               else if buf[o] > 2 || buf[o + 1] != 0 then buf[o..]
               else if o + 8 + ReadLength(buf, o) > |buf| then buf[o + 8..]
               else buf[o + 8..o + 8 + ReadLength(buf, o)] + FramesAt(buf, o + 8 + ReadLength(buf, o))
  {
  }

  ghost predicate EndsWith(buf: Bytes, k: nat, x: Bytes) {
    |buf| == k + |x| && forall i | 0 <= i < |x| :: buf[k + i] == x[i]
  }

  lemma SliceShift(buf: Bytes, k: nat, x: Bytes, i: nat, j: nat)
    requires EndsWith(buf, k, x) && i <= j <= |x|
    ensures buf[k + i..k + j] == x[i..j]
  {
  }

  lemma HeaderShift(buf: Bytes, k: nat, x: Bytes, o: nat)
    requires EndsWith(buf, k, x) && o + 8 <= |x|
    ensures buf[k + o] == x[o] && buf[k + o + 1] == x[o + 1] && ReadLength(buf, k + o) == ReadLength(x, o)
  {
    assert forall i | o <= i < o + 8 :: buf[k + i] == x[i];
  }

  /** What one header yields, and where the next one is. */
  ghost predicate Yields(buf: Bytes, o: nat, part: Bytes, next: nat)
    requires o + 8 <= |buf|
  {
    next == o + 8 + ReadLength(buf, o) <= |buf| && buf[o] <= 2 && buf[o + 1] == 0 && part == buf[o + 8..next]
  }

  lemma FramesGoOn(buf: Bytes, o: nat, part: Bytes, next: nat)
    requires o + 8 <= |buf| && Yields(buf, o, part, next)
    ensures FramesAt(buf, o) == part + FramesAt(buf, next)
  {
  }

  lemma FramesEnd(buf: Bytes, k: nat, x: Bytes, o: nat)
    requires EndsWith(buf, k, x) && o + 8 <= |x|
    requires x[o] > 2 || x[o + 1] != 0 || o + 8 + ReadLength(x, o) > |x|
    ensures FramesAt(buf, k + o) == FramesAt(x, o)
  {
    HeaderShift(buf, k, x, o);
    SliceShift(buf, k, x, o, |x|);
    SliceShift(buf, k, x, o + 8, |x|);
  }

  /** What stands before the offset does not matter. */
  lemma {:induction false} FramesShift(buf: Bytes, k: nat, x: Bytes, o: nat)
    requires EndsWith(buf, k, x) && o <= |x|
    ensures FramesAt(buf, k + o) == FramesAt(x, o)
    decreases |x| - o
  {
    if o + 8 <= |x| {
      var end := o + 8 + ReadLength(x, o);
      if x[o] > 2 || x[o + 1] != 0 || end > |x| {
        FramesEnd(buf, k, x, o);
      } else {
        HeaderShift(buf, k, x, o);
        SliceShift(buf, k, x, o + 8, end);
        FramesGoOn(x, o, x[o + 8..end], end);
        FramesGoOn(buf, k + o, x[o + 8..end], k + end);
        FramesShift(buf, k, x, end);
      }
    }
  }

  lemma {:induction false} FramesOfEncoded(fs: seq<Frame>, tail: Bytes)
    requires ValidFrames(fs)
    ensures FramesAt(EncodeAll(fs) + tail, 0) == Payloads(fs) + FramesAt(tail, 0)
  {
    if fs == [] {
      assert EncodeAll(fs) + tail == tail && Payloads(fs) + FramesAt(tail, 0) == FramesAt(tail, 0);
    } else {
      var rest := EncodeAll(fs[1..]) + tail;
      Assoc(Encode(fs[0]), EncodeAll(fs[1..]), tail);
      HeaderLength(fs[0], rest);
      FrameSplits(fs[0], rest);
      FramesShift(Encode(fs[0]) + rest, |Encode(fs[0])|, rest, 0);
      FramesOfEncoded(fs[1..], tail);
      Assoc(fs[0].payload, Payloads(fs[1..]), FramesAt(tail, 0));
    }
  }

  /** A whole framed stream comes back as its payloads, one after the other. */
  lemma DemuxEncoded(fs: seq<Frame>)
    requires ValidFrames(fs)
    ensures Demux(EncodeAll(fs)) == Payloads(fs)
  {
    if fs != [] {
      HeaderLength(fs[0], EncodeAll(fs[1..]));
    }
    FramesOfEncoded(fs, []);
    NoTail(EncodeAll(fs), Payloads(fs));
  }

  lemma NoTail(a: Bytes, b: Bytes)
    ensures a + [] == a && b + [] == b
  {
  }

  /** A stream cut inside its last frame yields the payload bytes that did arrive; a cut header yields none. */
  lemma DemuxCut(fs: seq<Frame>, f: Frame, k: nat)
    requires ValidFrames(fs) && ValidFrame(f) && k < |Encode(f)| && (fs != [] || k >= 8)
    ensures Demux(EncodeAll(fs) + Encode(f)[..k]) == Payloads(fs) + if k < 8 then [] else f.payload[..k - 8]
  {
    var tail := Encode(f)[..k];
    FramesOfEncoded(fs, tail);
    CutFrame(f, k);
    if fs != [] {
      Assoc(Encode(fs[0]), EncodeAll(fs[1..]), tail);
      HeaderLength(fs[0], EncodeAll(fs[1..]) + tail);
    } else {
      assert EncodeAll(fs) + tail == tail;
      CutHeader(f, k);
    }
  }

  lemma CutHeader(f: Frame, k: nat)
    requires ValidFrame(f) && 8 <= k < |Encode(f)|
    ensures var tail := Encode(f)[..k];
            && ReadLength(tail, 0) == |f.payload| && tail[0] <= 2 && tail[1] == 0 && tail[2] == 0 && tail[3] == 0
            && tail[8..] == f.payload[..k - 8]
  {
    var tail := Encode(f)[..k];
    NoTail(Encode(f), []);
    HeaderLength(f, []);
    assert forall i | 0 <= i < 8 :: tail[i] == (Encode(f) + [])[i];
    CutPayload(f, k);
  }

  lemma CutPayload(f: Frame, k: nat)
    requires ValidFrame(f) && 8 <= k < |Encode(f)|
    ensures Encode(f)[..k][8..] == f.payload[..k - 8]
  {
  }

  lemma CutFrame(f: Frame, k: nat)
    requires ValidFrame(f) && k < |Encode(f)|
    ensures FramesAt(Encode(f)[..k], 0) == if k < 8 then [] else f.payload[..k - 8]
  {
    if k >= 8 {
      CutHeader(f, k);
    }
  }

  // ----- demuxInto

  /** What one chunk adds to the text of its container: each payload decoded on its own. */
  function TextOf(buf: Bytes, utf8: Decoder): Text
    decreases |buf|
  {
    if |buf| < 8 then []
    else if buf[0] > 2 || buf[1] != 0 || buf[2] != 0 || buf[3] != 0 then utf8(buf)
    else
      var len := ReadLength(buf, 0);
      if |buf| < 8 + len then [] else utf8(buf[8..8 + len]) + TextOf(buf[8 + len..], utf8)
  }

  function Get(partial: map<string, Text>, name: string): Text {
    if name in partial then partial[name] else []
  }

  /** The ingestion's unfinished lines, one per container. */
  class Ingestion {
    var partialBuffers: map<string, Text>

    constructor ()
      ensures partialBuffers == map[]
    {
      partialBuffers := map[];
    }

    /** The leftover of one container is updated; every other container keeps its own. */
    method DemuxInto(containerName: string, chunk: Bytes, utf8: Decoder) returns (lines: seq<Text>)
      modifies this
      ensures var fed := Fed(Get(old(partialBuffers), containerName), TextOf(chunk, utf8));
              lines == fed.0 && partialBuffers == old(partialBuffers)[containerName := fed.1]
    {
      var buf, out: Text := chunk, [];
      while |buf| >= 8
        invariant partialBuffers == old(partialBuffers) && out + TextOf(buf, utf8) == TextOf(chunk, utf8)
        decreases |buf|
      {
        if buf[0] > 2 || buf[1] != 0 || buf[2] != 0 || buf[3] != 0 {
          out := out + utf8(buf);
          buf := [];
          assert out == TextOf(chunk, utf8);
          break;
        }
        var len := ReadLength(buf, 0);
        if |buf| < 8 + len {
          assert out + [] == out;
          break;
        }
        Assoc(out, utf8(buf[8..8 + len]), TextOf(buf[8 + len..], utf8));
        out := out + utf8(buf[8..8 + len]);
        buf := buf[8 + len..];
      }
      assert out + [] == out && out == TextOf(chunk, utf8);
      var combined := Get(partialBuffers, containerName) + out;
      lines := Split(combined, NEWLINE);
      partialBuffers := partialBuffers[containerName := lines[|lines| - 1]];
      lines := lines[..|lines| - 1];
    }
  }

  /** The texts that some chunks add. */
  function ChunkTextsOf(chunks: seq<Bytes>, utf8: Decoder): seq<Text> {
    seq(|chunks|, i requires 0 <= i < |chunks| => TextOf(chunks[i], utf8))
  }

  /** The data events of one container: every chunk goes on with what the chunks before it left over. */
  method Follow(into: Ingestion, containerName: string, chunks: seq<Bytes>, utf8: Decoder) returns (lines: seq<Text>)
    modifies into
    ensures var before := if containerName in old(into.partialBuffers) then old(into.partialBuffers)[containerName]
                          else [];
            var fed := FedAll(before, ChunkTextsOf(chunks, utf8), |chunks|);
            && lines == fed.0
            && (chunks != [] ==> into.partialBuffers == old(into.partialBuffers)[containerName := fed.1])
  {
    hide TextOf;
    hide Fed;
    hide FedAll;
    ghost var (start, texts) := (into.partialBuffers, ChunkTextsOf(chunks, utf8));
    ghost var before := Get(start, containerName);
    FedNothing(before, texts);
    lines := [];
    for n := 0 to |chunks|
      invariant lines == FedAll(before, texts, n).0
      invariant Get(into.partialBuffers, containerName) == FedAll(before, texts, n).1
      invariant into.partialBuffers
                == if n == 0 then start else start[containerName := FedAll(before, texts, n).1]
    {
      FedNext(before, texts, n);
      assert texts[n] == TextOf(chunks[n], utf8);
      var more := into.DemuxInto(containerName, chunks[n], utf8);
      UpdateTwice(start, containerName, FedAll(before, texts, n).1, FedAll(before, texts, n + 1).1);
      lines := lines + more;
    }
  }

  lemma FedNothing(buf: Text, chunks: seq<Text>)
    ensures FedAll(buf, chunks, 0) == ([], buf)
  {
  }

  lemma FedNext(buf: Text, chunks: seq<Text>, n: nat)
    requires n < |chunks|
    ensures var (before, last) := (FedAll(buf, chunks, n), Fed(FedAll(buf, chunks, n).1, chunks[n]));
            FedAll(buf, chunks, n + 1) == (before.0 + last.0, last.1)
  {
  }

  lemma UpdateTwice<T, U>(m: map<T, U>, k: T, v: U, w: U)
    ensures m[k := v][k := w] == m[k := w]
  {
  }

  function TextsOf(fs: seq<Frame>, utf8: Decoder): Text {
    if fs == [] then [] else utf8(fs[0].payload) + TextsOf(fs[1..], utf8)
  }

  lemma {:induction false} TextOfEncoded(fs: seq<Frame>, tail: Bytes, utf8: Decoder)
    requires ValidFrames(fs)
    ensures TextOf(EncodeAll(fs) + tail, utf8) == TextsOf(fs, utf8) + TextOf(tail, utf8)
  {
    if fs == [] {
      assert EncodeAll(fs) + tail == tail && TextsOf(fs, utf8) + TextOf(tail, utf8) == TextOf(tail, utf8);
    } else {
      var rest := EncodeAll(fs[1..]) + tail;
      Assoc(Encode(fs[0]), EncodeAll(fs[1..]), tail);
      HeaderLength(fs[0], rest);
      FrameSplits(fs[0], rest);
      TextOfEncoded(fs[1..], tail, utf8);
      Assoc(utf8(fs[0].payload), TextsOf(fs[1..], utf8), TextOf(tail, utf8));
    }
  }

  /** The chunks of one container, each made of whole frames. */
  function ChunkTexts(chunks: seq<seq<Frame>>, utf8: Decoder): seq<Text>
    requires forall i | 0 <= i < |chunks| :: ValidFrames(chunks[i])
  {
    seq(|chunks|, i requires 0 <= i < |chunks| => TextOf(EncodeAll(chunks[i]), utf8))
  }

  function AllTexts(chunks: seq<seq<Frame>>, n: nat, utf8: Decoder): Text
    requires n <= |chunks|
  {
    if n == 0 then [] else AllTexts(chunks, n - 1, utf8) + TextsOf(chunks[n - 1], utf8)
  }

  /** However the frames are grouped into chunks, lines and leftover are one split of all the payload texts. */
  lemma {:induction false} IngestedLines(chunks: seq<seq<Frame>>, utf8: Decoder)
    requires forall i | 0 <= i < |chunks| :: ValidFrames(chunks[i])
    ensures var r := FedAll([], ChunkTexts(chunks, utf8), |chunks|);
            r.0 + [r.1] == Split(AllTexts(chunks, |chunks|, utf8), NEWLINE)
  {
    var texts := ChunkTexts(chunks, utf8);
    ChunkingIndependent([], texts, |texts|);
    JoinedTexts(chunks, |chunks|, utf8);
    assert [] + Joined(texts, |texts|) == Joined(texts, |texts|);
  }

  lemma {:induction false} JoinedTexts(chunks: seq<seq<Frame>>, n: nat, utf8: Decoder)
    requires n <= |chunks| && forall i | 0 <= i < |chunks| :: ValidFrames(chunks[i])
    ensures Joined(ChunkTexts(chunks, utf8), n) == AllTexts(chunks, n, utf8)
  {
    hide TextOf;
    hide TextsOf;
    hide EncodeAll;
    if n > 0 {
      JoinedTexts(chunks, n - 1, utf8);
      WholeFrames(chunks[n - 1], utf8);
      assert ChunkTexts(chunks, utf8)[n - 1] == TextOf(EncodeAll(chunks[n - 1]), utf8);
    }
  }

  lemma WholeFrames(fs: seq<Frame>, utf8: Decoder)
    requires ValidFrames(fs)
    ensures TextOf(EncodeAll(fs), utf8) == TextsOf(fs, utf8)
  {
    TextOfEncoded(fs, [], utf8);
    NoTail(EncodeAll(fs), []);
    assert TextsOf(fs, utf8) + [] == TextsOf(fs, utf8);
  }

  // ----- a frame cut by the end of a chunk

  /** A chunk begins like a frame. */
  predicate FrameStart(buf: Bytes)
    requires |buf| >= 4
  {
    buf[0] <= 2 && buf[1] == 0 && buf[2] == 0 && buf[3] == 0
  }

  /**
   * Of a frame cut by the end of a chunk, the first part is dropped: only the frames before it are read. The rest
   * stands at the start of the next chunk, where it is read as a header. Unless it happens to look like one, it comes
   * out raw, and with it everything that follows it in that chunk, later headers included.
   */
  lemma CutBetweenChunks(fs: seq<Frame>, f: Frame, k: nat, more: Bytes, utf8: Decoder)
    requires ValidFrames(fs) && ValidFrame(f) && k < |Encode(f)|
    ensures TextOf(EncodeAll(fs) + Encode(f)[..k], utf8) == TextsOf(fs, utf8)
    ensures var next := Encode(f)[k..] + more;
            && (|next| < 8 ==> TextOf(next, utf8) == [])
            && (|next| >= 8 && !FrameStart(next) ==> TextOf(next, utf8) == utf8(next))
    ensures k >= 8 ==> Encode(f)[k..] == f.payload[k - 8..]
  {
    var tail := Encode(f)[..k];
    TextOfEncoded(fs, tail, utf8);
    if k >= 8 {
      CutHeader(f, k);
    }
    assert TextsOf(fs, utf8) + [] == TextsOf(fs, utf8);
  }

  /** The texts that two chunks add. */
  function TwoTexts(first: Bytes, second: Bytes): seq<Text> {
    [TextOf(first, Decode), TextOf(second, Decode)]
  }

  /**
   * So a frame of ASCII text that is cut inside its payload and followed by another frame gives wrong lines, wherever
   * the cut is: the text before the cut is missing and the next header is shown.
   */
  lemma CutTextShown(f: Frame, k: nat, g: Frame)
    requires ValidFrame(f) && ValidFrame(g) && 8 <= k < |Encode(f)|
    requires Ascii(f.payload) && Ascii(Encode(g)) && forall i | 0 <= i < |f.payload| :: f.payload[i] > 2
    ensures var texts := TwoTexts(Encode(f)[..k], Encode(f)[k..] + Encode(g));
            var r := FedAll([], texts, |texts|);
            && r.0 + [r.1] == Split(AsText(f.payload[k - 8..] + Encode(g)), NEWLINE)
            && r.0 + [r.1] != Split(TextsOf([f, g], Decode), NEWLINE)
  {
    hide Decode;
    var (first, second) := (Encode(f)[..k], Encode(f)[k..] + Encode(g));
    var shown := f.payload[k - 8..] + Encode(g);
    CutBetweenChunks([], f, k, Encode(g), Decode);
    assert EncodeAll([]) + first == first && second == shown;
    assert second[0] == f.payload[k - 8];
    AsciiDecodes(shown);
    var texts := TwoTexts(first, second);
    assert texts == [[], AsText(shown)];
    TwoFed(texts);
    ExpectedText(f, g);
    ShownDiffers(f, k, g);
    JoinSplit(AsText(shown), NEWLINE);
    JoinSplit(AsText(f.payload + g.payload), NEWLINE);
  }

  lemma TwoFed(texts: seq<Text>)
    requires |texts| == 2 && texts[0] == []
    ensures var r := FedAll([], texts, |texts|); r.0 + [r.1] == Split(texts[1], NEWLINE)
  {
    var n := |texts|;
    ChunkingIndependent([], texts, n);
    assert Joined(texts, n - 1) == [] && Joined(texts, n) == Joined(texts, n - 1) + texts[n - 1];
    assert [] + Joined(texts, n) == texts[1];
  }

  lemma ExpectedText(f: Frame, g: Frame)
    requires ValidFrame(f) && ValidFrame(g) && Ascii(f.payload) && Ascii(Encode(g))
    ensures TextsOf([f, g], Decode) == AsText(f.payload + g.payload)
  {
    hide Decode;
    hide TextsOf;
    PayloadIsAscii(g);
    AsciiDecodes(f.payload);
    AsciiDecodes(g.payload);
    TwoPayloads([f, g], Decode);
    assert AsText(f.payload) + AsText(g.payload) == AsText(f.payload + g.payload);
  }

  lemma PayloadIsAscii(g: Frame)
    requires ValidFrame(g) && Ascii(Encode(g))
    ensures Ascii(g.payload)
  {
    assert forall i | 0 <= i < |g.payload| :: g.payload[i] == Encode(g)[8 + i];
  }

  lemma TwoPayloads(fs: seq<Frame>, utf8: Decoder)
    requires |fs| == 2
    ensures TextsOf(fs, utf8) == utf8(fs[0].payload) + utf8(fs[1].payload)
  {
    assert TextsOf(fs[1..], utf8) == utf8(fs[1].payload) + [] == utf8(fs[1].payload);
  }

  lemma ShownDiffers(f: Frame, k: nat, g: Frame)
    requires ValidFrame(f) && ValidFrame(g) && 8 <= k < |Encode(f)|
    requires forall i | 0 <= i < |f.payload| :: f.payload[i] > 2
    ensures AsText(f.payload[k - 8..] + Encode(g)) != AsText(f.payload + g.payload)
  {
    var (shown, meant) := (f.payload[k - 8..] + Encode(g), f.payload + g.payload);
    if |shown| == |meant| {
      var at := |f.payload| - (k - 8);
      assert shown[at] == g.stream && meant[at] == f.payload[at];
    }
  }
}
