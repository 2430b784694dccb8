/**
 * `buf.toString("utf8")`: the UTF-8 decoder of the WHATWG Encoding Standard, section 8.1, and what a cut does to it.
 */
module Utf8 {
  import opened JsText
  import opened JsBytes
  import opened Sequences

  const REPLACEMENT: CodeUnit := 0xFFFD

  /** How many continuation bytes are due, the range of the next one, and the code point so far. */
  datatype Progress = Progress(needed: nat, lower: int, upper: int, point: nat)

  predicate InBounds(s: Progress) {
    && 0x80 <= s.lower && s.upper <= 0xBF
    && (s.needed == 1 ==> s.point <= 0x43FF)
    && (s.needed == 2 ==> s.point <= 0x10F)
    && (s.needed == 3 ==> s.point <= 4 && (s.point == 4 ==> s.upper == 0x8F))
    && s.needed <= 3
  }

  const IDLE := Progress(0, 0x80, 0xBF, 0)

  type State = s: Progress | InBounds(s) witness IDLE

  function Utf16(point: nat): (units: Text)
    requires point <= 0x10FFFF
    ensures |units| == 1 || (|units| == 2 && REPLACEMENT !in units)
  {
    if point < 0x10000 then [point] else [0xD800 + (point - 0x10000) / 0x400, 0xDC00 + (point - 0x10000) % 0x400]
  }

  /** A byte with no sequence in progress. */
  function Lead(b: Byte): (State, Text) {
    if b <= 0x7F then (IDLE, [b])
    else if 0xC2 <= b <= 0xDF then (Progress(1, 0x80, 0xBF, b - 0xC0), [])
    else if 0xE0 <= b <= 0xEF then
      (Progress(2, if b == 0xE0 then 0xA0 else 0x80, if b == 0xED then 0x9F else 0xBF, b - 0xE0), [])
    else if 0xF0 <= b <= 0xF4 then
      (Progress(3, if b == 0xF0 then 0x90 else 0x80, if b == 0xF4 then 0x8F else 0xBF, b - 0xF0), [])
    else (IDLE, [REPLACEMENT])
  }

  /** The byte continues the sequence in progress. */
  predicate Continues(s: State, b: Byte) {
    s.needed > 0 && s.lower <= b <= s.upper
  }

  function Step(s: State, b: Byte): (State, Text) {
    if Continues(s, b) then
      var point := s.point * 64 + (b - 0x80);
      if s.needed == 1 then (IDLE, Utf16(point)) else (Progress(s.needed - 1, 0x80, 0xBF, point), [])
    else
      var (next, units) := Lead(b);
      (next, (if s.needed > 0 then [REPLACEMENT] else []) + units)
  }

  /** At the end of the input an unfinished sequence becomes one replacement character. */
  function End(s: State): Text {
    if s.needed > 0 then [REPLACEMENT] else []
  }

  function StateAfter(s: State, bytes: Bytes): State
    decreases bytes
  {
    if bytes == [] then s else StateAfter(Step(s, bytes[0]).0, bytes[1..])
  }

  function Emitted(s: State, bytes: Bytes): Text
    decreases bytes
  {
    if bytes == [] then [] else Step(s, bytes[0]).1 + Emitted(Step(s, bytes[0]).0, bytes[1..])
  }

  function DecodeFrom(s: State, bytes: Bytes): Text {
    Emitted(s, bytes) + End(StateAfter(s, bytes))
  }

  function Decode(bytes: Bytes): Text {
    DecodeFrom(IDLE, bytes)
  }

  /** Decoding the second part starts where the first part stopped. */
  lemma {:induction false} DecodeOn(s: State, a: Bytes, b: Bytes)
    ensures DecodeFrom(s, a + b) == Emitted(s, a) + DecodeFrom(StateAfter(s, a), b)
    decreases a
  {
    if a == [] {
      assert a + b == b;
    } else {
      assert (a + b)[1..] == a[1..] + b;
      var (next, units) := Step(s, a[0]);
      DecodeOn(next, a[1..], b);
      Assoc(units, Emitted(next, (a + b)[1..]), End(StateAfter(next, (a + b)[1..])));
      Assoc(units, Emitted(next, a[1..]), DecodeFrom(StateAfter(next, a[1..]), b));
    }
  }

  lemma DecodeFirst(s: State, b: Byte, rest: Bytes)
    ensures DecodeFrom(s, [b] + rest) == Step(s, b).1 + DecodeFrom(Step(s, b).0, rest)
  {
    assert ([b] + rest)[1..] == rest;
    Assoc(Step(s, b).1, Emitted(Step(s, b).0, rest), End(StateAfter(Step(s, b).0, rest)));
  }

  lemma DecodeNothing(s: State)
    ensures DecodeFrom(s, []) == End(s)
  {
  }

  lemma DecodeEmpty()
    ensures Decode([]) == [] && Weight([]) == 0
  {
  }

  // ----- what is encoded comes back, and nothing else passes

  /** A code point that is no surrogate. */
  predicate IsScalar(p: int) {
    0 <= p < 0xD800 || 0xE000 <= p <= 0x10FFFF
  }

  /** Its encoding, section 3 of RFC 3629. */
  function Encoding(p: nat): Bytes
    requires IsScalar(p)
  {
    if p < 0x80 then [p]
    else if p < 0x800 then [0xC0 + p / 0x40, 0x80 + p % 0x40]
    else if p < 0x10000 then [0xE0 + p / 0x1000, 0x80 + p / 0x40 % 0x40, 0x80 + p % 0x40]
    else [0xF0 + p / 0x40000, 0x80 + p / 0x1000 % 0x40, 0x80 + p / 0x40 % 0x40, 0x80 + p % 0x40]
  }

  /** One unit, or a pair of surrogates that together are the code point. */
  lemma SurrogatePair(p: nat)
    requires p <= 0x10FFFF
    ensures if p < 0x10000 then Utf16(p) == [p]
            else var (high: int, low: int) := (Utf16(p)[0], Utf16(p)[1]);
                 && |Utf16(p)| == 2 && 0xD800 <= high <= 0xDBFF && 0xDC00 <= low <= 0xDFFF
                 && 0x10000 + 0x400 * (high - 0xD800) + (low - 0xDC00) == p
  {
  }

  /** A byte that goes on with the sequence in progress hands out nothing, or the code point at its end. */
  lemma StepContinues(s: State, b: Byte, rest: Bytes)
    requires Continues(s, b)
    ensures var point := s.point * 0x40 + (b - 0x80);
            if s.needed == 1 then DecodeFrom(s, [b] + rest) == Utf16(point) + Decode(rest)
            else InBounds(Progress(s.needed - 1, 0x80, 0xBF, point))
                 && DecodeFrom(s, [b] + rest) == DecodeFrom(Progress(s.needed - 1, 0x80, 0xBF, point), rest)
  {
    DecodeFirst(s, b, rest);
  }

  lemma LeadTaken(b: Byte, rest: Bytes)
    ensures Decode([b] + rest) == Lead(b).1 + DecodeFrom(Lead(b).0, rest)
  {
    DecodeFirst(IDLE, b, rest);
    assert [] + Lead(b).1 == Lead(b).1;
  }

  /** The encoding of a code point is read as that code point, whatever follows. */
  lemma DecodeEncoding(p: nat, rest: Bytes)
    requires IsScalar(p)
    ensures Decode(Encoding(p) + rest) == Utf16(p) + Decode(rest)
  {
    if p < 0x80 {
      LeadTaken(p, rest);
    } else if p < 0x800 {
      DecodeTwo(p, rest);
    } else if p < 0x10000 {
      DecodeThree(p, rest);
    } else {
      DecodeFour(p, rest);
    }
  }

  lemma DecodeTwo(p: nat, rest: Bytes)
    requires 0x80 <= p < 0x800
    ensures Decode(Encoding(p) + rest) == Utf16(p) + Decode(rest)
  {
    hide Utf16;
    var (b, c) := (0xC0 + p / 0x40, 0x80 + p % 0x40);
    assert Encoding(p) + rest == [b] + ([c] + rest);
    LeadTaken(b, [c] + rest);
    StepContinues(Lead(b).0, c, rest);
    assert p / 0x40 * 0x40 + p % 0x40 == p;
    assert [] + (Utf16(p) + Decode(rest)) == Utf16(p) + Decode(rest);
  }

  lemma DecodeThree(p: nat, rest: Bytes)
    requires IsScalar(p) && 0x800 <= p < 0x10000
    ensures Decode(Encoding(p) + rest) == Utf16(p) + Decode(rest)
  {
    hide Utf16;
    var (b, c, d) := (0xE0 + p / 0x1000, 0x80 + p / 0x40 % 0x40, 0x80 + p % 0x40);
    assert Encoding(p) + rest == [b] + ([c] + ([d] + rest));
    assert p / 0x1000 * 0x40 + p / 0x40 % 0x40 == p / 0x40 && p / 0x40 * 0x40 + p % 0x40 == p;
    LeadTaken(b, [c] + ([d] + rest));
    StepContinues(Lead(b).0, c, [d] + rest);
    StepContinues(Progress(1, 0x80, 0xBF, p / 0x40), d, rest);
    hide Lead;
    assert [] + (Utf16(p) + Decode(rest)) == Utf16(p) + Decode(rest);
  }

  lemma FourParts(p: nat)
    requires 0x10000 <= p <= 0x10FFFF
    ensures var (b, c, d) := (0xF0 + p / 0x40000, 0x80 + p / 0x1000 % 0x40, 0x80 + p / 0x40 % 0x40);
            && Lead(b).1 == [] && Lead(b).0.needed == 3 && Lead(b).0.point == p / 0x40000 && Continues(Lead(b).0, c)
            && p / 0x40000 * 0x40 + (c - 0x80) == p / 0x1000 && p / 0x1000 * 0x40 + (d - 0x80) == p / 0x40
            && p / 0x40 * 0x40 + p % 0x40 == p
  {
    assert p / 0x40000 * 0x40 + p / 0x1000 % 0x40 == p / 0x1000;
  }

  /** Three more bytes finish a sequence of four. */
  lemma ThreeMore(s: State, c: Byte, d: Byte, e: Byte, rest: Bytes, p: nat)
    requires s.needed == 3 && Continues(s, c) && 0x80 <= d <= 0xBF && 0x80 <= e <= 0xBF && p <= 0x10FFFF
    requires ((s.point * 0x40 + (c - 0x80)) * 0x40 + (d - 0x80)) * 0x40 + (e - 0x80) == p
    ensures DecodeFrom(s, [c] + ([d] + ([e] + rest))) == Utf16(p) + Decode(rest)
  {
    hide Utf16;
    hide DecodeFrom;
    StepContinues(s, c, [d] + ([e] + rest));
    var third: State := Progress(2, 0x80, 0xBF, s.point * 0x40 + (c - 0x80));
    StepContinues(third, d, [e] + rest);
    StepContinues(Progress(1, 0x80, 0xBF, third.point * 0x40 + (d - 0x80)), e, rest);
  }

  lemma DecodeFour(p: nat, rest: Bytes)
    requires 0x10000 <= p <= 0x10FFFF
    ensures Decode(Encoding(p) + rest) == Utf16(p) + Decode(rest)
  {
    var (b, c) := (0xF0 + p / 0x40000, 0x80 + p / 0x1000 % 0x40);
    var (d, e) := (0x80 + p / 0x40 % 0x40, 0x80 + p % 0x40);
    FourParts(p);
    assert Encoding(p) == [b, c, d, e];
    hide Utf16;
    hide Lead;
    hide Encoding;
    hide DecodeFrom;
    hide Continues;
    var tail := [c] + ([d] + ([e] + rest));
    assert [b, c, d, e] + rest == [b] + tail;
    LeadTaken(b, tail);
    ThreeMore(Lead(b).0, c, d, e, rest, p);
    assert [] + DecodeFrom(Lead(b).0, tail) == DecodeFrom(Lead(b).0, tail);
  }

  /** The second bytes that some encoding has behind this first one. */
  predicate Second(b: Byte, c: Byte) {
    || (0xC2 <= b <= 0xDF && 0x80 <= c <= 0xBF)
    || (b == 0xE0 && 0xA0 <= c <= 0xBF) || (0xE1 <= b <= 0xEC && 0x80 <= c <= 0xBF)
    || (b == 0xED && 0x80 <= c <= 0x9F) || (0xEE <= b <= 0xEF && 0x80 <= c <= 0xBF)
    || (b == 0xF0 && 0x90 <= c <= 0xBF) || (0xF1 <= b <= 0xF3 && 0x80 <= c <= 0xBF)
    || (b == 0xF4 && 0x80 <= c <= 0x8F)
  }

  /** That table is the one of the encodings. */
  lemma SecondIff(b: Byte, c: Byte)
    ensures Second(b, c) <==> exists p: nat :: IsScalar(p) && StartsWith(p, b, c)
  {
    if Second(b, c) {
      SecondHasPoint(b, c);
    }
    if p: nat :| IsScalar(p) && StartsWith(p, b, c) {
      PointHasSecond(p, b, c);
    }
  }

  predicate StartsWith(p: nat, b: Byte, c: Byte)
    requires IsScalar(p)
  {
    |Encoding(p)| >= 2 && Encoding(p)[0] == b && Encoding(p)[1] == c
  }

  lemma SecondHasPoint(b: Byte, c: Byte)
    requires Second(b, c)
    ensures exists p: nat :: IsScalar(p) && StartsWith(p, b, c)
  {
    var low := c - 0x80;
    if b <= 0xDF {
      var p := (b - 0xC0) * 0x40 + low;
      assert p / 0x40 == b - 0xC0 && p % 0x40 == low;
      assert StartsWith(p, b, c);
    } else if b <= 0xEF {
      var p := (b - 0xE0) * 0x1000 + low * 0x40;
      assert p / 0x40 == (b - 0xE0) * 0x40 + low && p / 0x1000 == b - 0xE0;
      assert p / 0x40 % 0x40 == low;
      assert StartsWith(p, b, c);
    } else {
      var p := (b - 0xF0) * 0x40000 + low * 0x1000;
      assert p / 0x1000 == (b - 0xF0) * 0x40 + low && p / 0x40000 == b - 0xF0;
      assert p / 0x1000 % 0x40 == low;
      assert StartsWith(p, b, c);
    }
  }

  lemma PointHasSecond(p: nat, b: Byte, c: Byte)
    requires IsScalar(p) && StartsWith(p, b, c)
    ensures Second(b, c)
  {
    if 0x800 <= p < 0x10000 {
      assert p / 0x1000 * 0x40 + p / 0x40 % 0x40 == p / 0x40;
    } else if p >= 0x10000 {
      assert p / 0x40000 * 0x40 + p / 0x1000 % 0x40 == p / 0x1000;
    }
  }

  /** A byte that begins no encoding becomes a replacement character. */
  lemma NoLead(b: Byte, rest: Bytes)
    requires 0x80 <= b < 0xC2 || 0xF4 < b
    ensures Decode([b] + rest) == [REPLACEMENT] + Decode(rest)
  {
    LeadTaken(b, rest);
  }

  /** A first byte with a second one that cannot follow it becomes one, and the second is read afresh. */
  lemma NoSecond(b: Byte, c: Byte, rest: Bytes)
    requires 0xC2 <= b <= 0xF4 && !Second(b, c)
    ensures Decode([b] + ([c] + rest)) == [REPLACEMENT] + Decode([c] + rest)
  {
    LeadTaken(b, [c] + rest);
    BrokenOff(Lead(b).0, c, rest);
  }

  /** So do two or three bytes that a fitting one does not follow. */
  lemma NoThird(b: Byte, c: Byte, d: Byte, rest: Bytes)
    requires b >= 0xE0 && Second(b, c) && !(0x80 <= d <= 0xBF)
    ensures Decode([b] + ([c] + ([d] + rest))) == [REPLACEMENT] + Decode([d] + rest)
  {
    LeadTaken(b, [c] + ([d] + rest));
    StepContinues(Lead(b).0, c, [d] + rest);
    BrokenOff(Step(Lead(b).0, c).0, d, rest);
  }

  lemma NoFourth(b: Byte, c: Byte, d: Byte, e: Byte, rest: Bytes)
    requires b >= 0xF0 && Second(b, c) && 0x80 <= d <= 0xBF && !(0x80 <= e <= 0xBF)
    ensures Decode([b] + ([c] + ([d] + ([e] + rest)))) == [REPLACEMENT] + Decode([e] + rest)
  {
    LeadTaken(b, [c] + ([d] + ([e] + rest)));
    StepContinues(Lead(b).0, c, [d] + ([e] + rest));
    var third := Step(Lead(b).0, c).0;
    StepContinues(third, d, [e] + rest);
    BrokenOff(Step(third, d).0, e, rest);
  }

  lemma BrokenOff(s: State, b: Byte, rest: Bytes)
    requires s.needed > 0 && !Continues(s, b)
    ensures DecodeFrom(s, [b] + rest) == [REPLACEMENT] + Decode([b] + rest)
  {
    DecodeFirst(s, b, rest);
    LeadTaken(b, rest);
    Assoc([REPLACEMENT], Lead(b).1, DecodeFrom(Lead(b).0, rest));
  }

  /** ASCII text, where every byte is its own character. */
  predicate Ascii(bytes: Bytes) {
    forall i | 0 <= i < |bytes| :: bytes[i] < 0x80
  }

  function AsText(bytes: Bytes): (s: Text)
    ensures |s| == |bytes| && forall i | 0 <= i < |bytes| :: s[i] == bytes[i]
  {
    seq(|bytes|, i requires 0 <= i < |bytes| => bytes[i])
  }

  lemma AsciiFirst(b: Byte, rest: Bytes)
    requires b < 0x80
    ensures Decode([b] + rest) == [b as CodeUnit] + Decode(rest)
  {
    DecodeFirst(IDLE, b, rest);
    assert Utf16(b) == [b as CodeUnit];
  }

  lemma {:induction false} AsciiDecodes(bytes: Bytes)
    requires Ascii(bytes)
    ensures Decode(bytes) == AsText(bytes)
    decreases bytes
  {
    hide Decode;
    if bytes == [] {
      DecodeEmpty();
    } else {
      var (b, rest) := (bytes[0], bytes[1..]);
      assert bytes == [b] + rest;
      AsciiFirst(b, rest);
      AsciiDecodes(rest);
      assert [b as CodeUnit] + AsText(rest) == AsText(bytes);
    }
  }

  // ----- a weight by which a broken sequence costs more than a whole one

  function Weight(s: Text): nat {
    if s == [] then 0 else Weight(s[1..]) + if s[0] == REPLACEMENT then 2 else 1
  }

  lemma {:induction false} WeightJoin(a: Text, b: Text)
    ensures Weight(a + b) == Weight(a) + Weight(b)
  {
    if a == [] {
      assert a + b == b;
    } else {
      assert (a + b)[1..] == a[1..] + b;
      WeightJoin(a[1..], b);
    }
  }

  lemma WeightOfPoint(point: nat)
    requires point <= 0x10FFFF
    ensures Weight(Utf16(point)) <= 2
  {
    var units := Utf16(point);
    if |units| == 2 {
      assert units[0] in units && units[1] in units && units[1..][1..] == [];
      assert Weight(units[1..]) == 1;
    } else {
      assert units[1..] == [];
    }
  }

  /** A sequence in progress that goes on: what follows weighs less than it does on its own after a replacement. */
  lemma {:induction false} GoesOn(s: State, bytes: Bytes)
    requires bytes != [] && Continues(s, bytes[0])
    ensures Weight(DecodeFrom(s, bytes)) <= Weight(Decode(bytes))
    decreases |bytes|, 0
  {
    hide DecodeFrom;
    var (b, rest) := (bytes[0], bytes[1..]);
    assert bytes == [b] + rest;
    DecodeFirst(s, b, rest);
    DecodeFirst(IDLE, b, rest);
    assert Decode(bytes) == [REPLACEMENT] + Decode(rest);
    WeightJoin([REPLACEMENT], Decode(rest));
    WeightJoin(Step(s, b).1, DecodeFrom(Step(s, b).0, rest));
    if s.needed == 1 {
      WeightOfPoint(s.point * 64 + (b - 0x80));
    } else {
      Interrupted(Step(s, b).0, rest);
    }
  }

  /** A sequence in progress costs at most one replacement, and exactly that when it does not go on. */
  lemma {:induction false} Interrupted(s: State, bytes: Bytes)
    requires s.needed > 0
    ensures Weight(DecodeFrom(s, bytes)) <= 2 + Weight(Decode(bytes))
    ensures bytes == [] || !Continues(s, bytes[0]) ==> DecodeFrom(s, bytes) == [REPLACEMENT] + Decode(bytes)
    decreases |bytes|, 1
  {
    hide DecodeFrom;
    DecodeNothing(s);
    DecodeNothing(IDLE);
    WeightJoin([REPLACEMENT], Decode(bytes));
    if bytes == [] {
    } else if Continues(s, bytes[0]) {
      GoesOn(s, bytes);
    } else {
      var (b, rest) := (bytes[0], bytes[1..]);
      assert bytes == [b] + rest;
      DecodeFirst(s, b, rest);
      DecodeFirst(IDLE, b, rest);
      Assoc([REPLACEMENT], Lead(b).1, DecodeFrom(Lead(b).0, rest));
    }
  }

  // ----- cuts

  /** The cut does not fall inside a sequence that goes on behind it. */
  predicate CleanCut(a: Bytes, b: Bytes) {
    b == [] || !Continues(StateAfter(IDLE, a), b[0])
  }

  /** Decoding two parts one by one is decoding them at once exactly when the cut is clean. */
  lemma CutIff(a: Bytes, b: Bytes)
    ensures Decode(a + b) == Decode(a) + Decode(b) <==> CleanCut(a, b)
    ensures Weight(Decode(a + b)) <= Weight(Decode(a)) + Weight(Decode(b))
    ensures Weight(Decode(a + b)) == Weight(Decode(a)) + Weight(Decode(b)) <==> CleanCut(a, b)
  {
    var (s, out) := (StateAfter(IDLE, a), Emitted(IDLE, a));
    DecodeOn(IDLE, a, b);
    WeightJoin(out, DecodeFrom(s, b));
    WeightJoin(out, End(s));
    WeightJoin(Decode(a), Decode(b));
    assert Weight([REPLACEMENT]) == 2;
    if s.needed == 0 {
      SameWhenIdle(s, b);
      assert out + [] == out;
    } else if CleanCut(a, b) {
      Interrupted(s, b);
      Assoc(out, [REPLACEMENT], Decode(b));
      WeightJoin([REPLACEMENT], Decode(b));
    } else {
      GoesOn(s, b);
    }
  }

  lemma SameWhenIdle(s: State, bytes: Bytes)
    requires s.needed == 0
    ensures DecodeFrom(s, bytes) == Decode(bytes)
  {
    if bytes != [] {
      assert Step(s, bytes[0]) == Step(IDLE, bytes[0]);
    }
  }

  /** The chunks of a stream put together, and their texts put together. */
  function JoinedBytes(chunks: seq<Bytes>, n: nat): Bytes
    requires n <= |chunks|
  {
    if n == 0 then [] else JoinedBytes(chunks, n - 1) + chunks[n - 1]
  }

  function Texts(chunks: seq<Bytes>): seq<Text> {
    seq(|chunks|, i requires 0 <= i < |chunks| => Decode(chunks[i]))
  }

  predicate CleanCuts(chunks: seq<Bytes>, n: nat)
    requires n <= |chunks|
  {
    forall i | 0 <= i < n :: CleanCut(JoinedBytes(chunks, i), chunks[i])
  }
}
