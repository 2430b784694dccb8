/** The base32 encoder and the one-time codes (src/lib/totp.ts). */

/** JavaScript's 32-bit integer operators on mathematical integers. */
module JsInt32 {
  import opened JsBytes

  const TWO_TO_31 := 0x8000_0000

  function Pow2(k: nat): (p: nat)
    ensures p >= 1
  {
    if k == 0 then 1 else 2 * Pow2(k - 1)
  }

  function ToUint32(x: int): int {
    x % TWO_TO_32
  }

  function ToInt32(x: int): int {
    (x + TWO_TO_31) % TWO_TO_32 - TWO_TO_31
  }

  /** `x << k` */
  function Shl(x: int, k: nat): int {
    ToInt32(x * Pow2(k))
  }

  /** Dropping `k` low bits: halving, rounded down, `k` times. */
  function Halve(x: int, k: nat): int
    decreases k
  {
    if k == 0 then x else Halve(x / 2, k - 1)
  }

  /** `x >>> k` */
  function UShr(x: int, k: nat): int {
    Halve(ToUint32(x), k)
  }
}

/** Integers as bit strings, the most significant bit first; negative numbers in two's complement. */
module Bits {
  import opened Sequences
  import opened JsBytes
  import opened JsInt32

  type Bit = b: int | 0 <= b <= 1

  /** The low `n` bits of `v`. */
  function Low(v: int, n: nat): (bits: seq<Bit>)
    ensures |bits| == n
    decreases n, v
  {
    if n == 0 then [] else Low(v / 2, n - 1) + [v % 2]
  }

  function Value(bits: seq<Bit>): nat {
    if bits == [] then 0 else 2 * Value(bits[..|bits| - 1]) + bits[|bits| - 1]
  }

  lemma {:induction false} ValueOfLow(v: int, n: nat)
    requires 0 <= v < Pow2(n)
    ensures Value(Low(v, n)) == v
    decreases n
  {
    if n > 0 {
      ValueOfLow(v / 2, n - 1);
      assert Low(v, n)[..n - 1] == Low(v / 2, n - 1);
    }
  }

  lemma {:induction false} LowOfValue(bits: seq<Bit>)
    ensures Value(bits) < Pow2(|bits|) && Low(Value(bits), |bits|) == bits
  {
    if bits != [] {
      var init := bits[..|bits| - 1];
      LowOfValue(init);
      assert bits == init + [bits[|bits| - 1]];
    }
  }

  /** Multiplying by a power of two and adding puts the new bits on the right. */
  lemma {:induction false} LowAppend(v: int, n: nat, r: int, k: nat)
    requires 0 <= r < Pow2(k)
    ensures Low(v * Pow2(k) + r, n + k) == Low(v, n) + Low(r, k)
    decreases k
  {
    if k > 0 {
      HalfOfShift(v, Pow2(k - 1), r);
      LowAppend(v, n, r / 2, k - 1);
    }
  }

  lemma HalfOfShift(v: int, p: int, r: int)
    ensures (v * (2 * p) + r) / 2 == v * p + r / 2 && (v * (2 * p) + r) % 2 == r % 2
  {
    var w := v * p;
    assert v * (2 * p) == 2 * w;
    assert (2 * w + r) / 2 == w + r / 2;
  }

  /** Shifting right takes bits off on the right. */
  lemma {:induction false} LowSplit(v: int, n: nat, k: nat)
    ensures Low(v, n + k) == Low(Halve(v, k), n) + Low(v, k)
    decreases k
  {
    if k > 0 {
      LowSplit(v / 2, n, k - 1);
    }
  }

  /** Adding a multiple of a large power of two leaves the low bits alone. */
  lemma {:induction false} LowModulo(v: int, m: int, n: nat, k: nat)
    requires n <= k
    ensures Low(v + m * Pow2(k), n) == Low(v, n)
    decreases n
  {
    if n > 0 {
      assert m * Pow2(k) == 2 * (m * Pow2(k - 1));
      assert (v + m * Pow2(k)) / 2 == v / 2 + m * Pow2(k - 1) && (v + m * Pow2(k)) % 2 == v % 2;
      LowModulo(v / 2, m, n - 1, k - 1);
    }
  }

  lemma Pow2Of32()
    ensures Pow2(5) == 32 && Pow2(8) == 256 && Pow2(32) == TWO_TO_32
  {
    assert Pow2(8) == 256;
    assert Pow2(16) == 0x1_0000 by { assert Pow2(12) == 4096; }
    assert Pow2(24) == 0x100_0000 by { assert Pow2(20) == 0x10_0000; }
    assert Pow2(28) == 0x1000_0000;
  }

  /** Wrapping to 32 bits keeps the low bits. */
  lemma LowOfWrap(v: int, n: nat)
    requires n <= 32
    ensures Low(ToInt32(v), n) == Low(v, n) == Low(ToUint32(v), n)
  {
    Pow2Of32();
    LowModulo(v, -((v + TWO_TO_31) / TWO_TO_32), n, 32);
    LowModulo(v, -(v / TWO_TO_32), n, 32);
    assert ToInt32(v) == v - (v + TWO_TO_31) / TWO_TO_32 * TWO_TO_32;
    assert ToUint32(v) == v - v / TWO_TO_32 * TWO_TO_32;
  }

  lemma LowOfMask5(v: int)
    ensures Low(v % 32, 5) == Low(v, 5)
  {
    Pow2Of32();
    LowModulo(v, -(v / 32), 5, 5);
    assert v % 32 == v + -(v / 32) * 32;
  }

  /** The first `n` numbers written with `width` bits each, one after the other. */
  function Stream(numbers: seq<int>, n: nat, width: nat): (bits: seq<Bit>)
    requires n <= |numbers|
    ensures |bits| == n * width
  {
    if n == 0 then []
    else
      Product(n, width);
      Stream(numbers, n - 1, width) + Low(numbers[n - 1], width)
  }

  function Concat(numbers: seq<int>, width: nat): (bits: seq<Bit>)
    ensures |bits| == |numbers| * width
  {
    Stream(numbers, |numbers|, width)
  }

  lemma Product(n: nat, width: nat)
    requires n > 0
    ensures (n - 1) * width + width == n * width
  {
  }

  lemma StreamSnoc(numbers: seq<int>, n: nat, width: nat)
    requires n < |numbers|
    ensures Stream(numbers, n + 1, width) == Stream(numbers, n, width) + Low(numbers[n], width)
  {
  }

  lemma LongerTail<T>(a: seq<T>, b: seq<T>, c: seq<T>, bc: seq<T>, ab: seq<T>)
    requires a + b == ab && bc == b + c
    ensures a + bc == ab + c
  {
    Assoc(a, b, c);
  }

  lemma {:induction false} StreamOfPrefix(numbers: seq<int>, more: seq<int>, n: nat, width: nat)
    requires n <= |numbers|
    ensures Stream(numbers + more, n, width) == Stream(numbers, n, width)
  {
    if n > 0 {
      StreamOfPrefix(numbers, more, n - 1, width);
    }
  }

  lemma ConcatSnoc(numbers: seq<int>, x: int, width: nat)
    ensures Concat(numbers + [x], width) == Concat(numbers, width) + Low(x, width)
  {
    StreamOfPrefix(numbers, [x], |numbers|, width);
  }

  lemma {:induction false} StreamAt(numbers: seq<int>, n: nat, k: nat)
    requires k < n <= |numbers|
    ensures Stream(numbers, n, 5)[5 * k..5 * k + 5] == Low(numbers[k], 5)
  {
    if k < n - 1 {
      StreamAt(numbers, n - 1, k);
    }
  }

  /** The stream from its front: the first number, then the others. */
  lemma {:induction false} StreamFirst(numbers: seq<int>, n: nat, width: nat)
    requires 0 < n <= |numbers|
    ensures Stream(numbers, n, width) == Low(numbers[0], width) + Stream(numbers[1..], n - 1, width)
  {
    if n > 1 {
      StreamFirst(numbers, n - 1, width);
      Assoc(Low(numbers[0], width), Stream(numbers[1..], n - 2, width), Low(numbers[n - 1], width));
    }
  }
}

/** `base64urlToBase32`, from the decoded bytes on, against RFC 4648 section 6. */
module Base32 {
  import opened Wrappers
  import opened Sequences
  import opened JsBytes
  import opened JsInt32
  import opened Bits

  type Symbol = n: int | 0 <= n < 32

  const B32_CHARS := "ABCDEFGHIJKLMNOPQRSTUVWXYZ234567"

  function CharOf(symbol: Symbol): char {
    B32_CHARS[symbol]
  }

  function Chars(symbols: seq<Symbol>): (text: string)
    ensures |text| == |symbols|
    ensures forall i | 0 <= i < |symbols| :: text[i] == CharOf(symbols[i])
  {
    seq(|symbols|, i requires 0 <= i < |symbols| => CharOf(symbols[i]))
  }

  function Zeros(n: nat): seq<Bit> {
    seq(n, _ => 0)
  }

  function Padding(n: nat): string {
    seq(n, _ => '=')
  }

  /** How many `=` fill `n` symbols up to a whole group of eight. */
  function Missing(n: nat): (fill: nat)
    ensures fill < 8 && (n + fill) % 8 == 0
  {
    (8 - n % 8) % 8
  }

  /**
   * RFC 4648 section 6: the bits of the input, most significant first, padded on the right with fewer than five zero
   * bits, cut into groups of five.
   */
  ghost predicate IsRfcSymbols(bytes: seq<Byte>, symbols: seq<Symbol>) {
    && 8 * |bytes| <= 5 * |symbols| < 8 * |bytes| + 5
    && Concat(symbols, 5) == Concat(bytes, 8) + Zeros(5 * |symbols| - 8 * |bytes|)
  }

  /** The symbols as characters, filled up with `=` to whole groups of eight. */
  ghost predicate Writes(bytes: seq<Byte>, symbols: seq<Symbol>, text: string) {
    IsRfcSymbols(bytes, symbols) && text == Chars(symbols) + Padding(Missing(|symbols|))
  }

  ghost predicate IsRfcEncoding(bytes: seq<Byte>, text: string) {
    exists symbols: seq<Symbol> :: Writes(bytes, symbols, text)
  }

  lemma EmitBits(val: int, bits: nat)
    requires 5 <= bits <= 32
    ensures Low(val, bits) == Low(UShr(val, bits - 5) % 32, 5) + Low(val, bits - 5)
  {
    LowOfWrap(val, bits);
    LowOfWrap(val, bits - 5);
    LowSplit(ToUint32(val), 5, bits - 5);
    LowOfMask5(UShr(val, bits - 5));
  }

  lemma TakeByte(val: int, bits: nat, byte: Byte)
    requires bits + 8 <= 32
    ensures Low(Shl(val, 8) + byte, bits + 8) == Low(val, bits) + Low(byte, 8)
  {
    LowAppend256(val, bits, byte);
    var lost := Lost(val);
    LowModulo32(val * 256 + byte, -lost, bits + 8);
  }

  /** The wrap-around of `val << 8` drops a multiple of 2^32. */
  lemma Lost(val: int) returns (lost: int)
    ensures Shl(val, 8) == val * 256 + -lost * TWO_TO_32
  {
    Pow2Of32();
    lost := (val * 256 + TWO_TO_31) / TWO_TO_32;
  }

  lemma LowAppend256(v: int, n: nat, byte: Byte)
    ensures Low(v * 256 + byte, n + 8) == Low(v, n) + Low(byte, 8)
  {
    hide Low;
    Pow2Of32();
    LowAppend(v, n, byte, 8);
  }

  lemma LowModulo32(v: int, m: int, n: nat)
    requires n <= 32
    ensures Low(v + m * TWO_TO_32, n) == Low(v, n)
  {
    hide Low;
    Pow2Of32();
    LowModulo(v, m, n, 32);
  }

  lemma {:induction false} LowOfZero(n: nat)
    ensures Low(0, n) == Zeros(n)
  {
    if n > 0 {
      LowOfZero(n - 1);
    }
  }

  lemma LastBits(val: int, bits: nat)
    requires 0 < bits < 5
    ensures Low(Shl(val, 5 - bits) % 32, 5) == Low(val, bits) + Zeros(5 - bits)
  {
    var k := 5 - bits;
    LowOfMask5(Shl(val, k));
    LowOfWrap(val * Pow2(k), 5);
    LowAppend(val, bits, 0, k);
    LowOfZero(k);
  }

  /** The bits already emitted and those still in the buffer are the bits of the first `i` bytes. */
  ghost predicate Buffered(symbols: seq<Symbol>, val: int, bits: nat, bytes: seq<Byte>, i: nat)
    requires i <= |bytes|
  {
    5 * |symbols| + bits == 8 * i && Concat(symbols, 5) + Low(val, bits) == Stream(bytes, i, 8)
  }

  lemma ByteBuffered(symbols: seq<Symbol>, val: int, bits: nat, bytes: seq<Byte>, i: nat)
    requires i < |bytes| && bits < 5 && Buffered(symbols, val, bits, bytes, i)
    ensures Buffered(symbols, Shl(val, 8) + bytes[i], bits + 8, bytes, i + 1)
  {
    TakeByte(val, bits, bytes[i]);
    StreamSnoc(bytes, i, 8);
    LongerTail(Concat(symbols, 5), Low(val, bits), Low(bytes[i], 8), Low(Shl(val, 8) + bytes[i], bits + 8),
               Stream(bytes, i, 8));
  }

  lemma SymbolEmitted(symbols: seq<Symbol>, val: int, bits: nat, bytes: seq<Byte>, i: nat)
    requires i <= |bytes| && 5 <= bits <= 12 && Buffered(symbols, val, bits, bytes, i)
    ensures Buffered(symbols + [UShr(val, bits - 5) % 32], val, bits - 5, bytes, i)
  {
    var symbol := UShr(val, bits - 5) % 32;
    ConcatSnoc(symbols, symbol, 5);
    EmitBits(val, bits);
    Assoc(Concat(symbols, 5), Low(symbol, 5), Low(val, bits - 5));
  }

  lemma AllEmitted(symbols: seq<Symbol>, val: int, bits: nat, bytes: seq<Byte>)
    requires bits < 5 && Buffered(symbols, val, bits, bytes, |bytes|)
    ensures bits == 0 ==> IsRfcSymbols(bytes, symbols)
    ensures bits > 0 ==> IsRfcSymbols(bytes, symbols + [Shl(val, 5 - bits) % 32])
  {
    if bits > 0 {
      LastBits(val, bits);
      ConcatSnoc(symbols, Shl(val, 5 - bits) % 32, 5);
      Assoc(Concat(symbols, 5), Low(val, bits), Zeros(5 - bits));
    }
  }

  lemma CharsSnoc(symbols: seq<Symbol>, symbol: Symbol)
    ensures Chars(symbols + [symbol]) == Chars(symbols) + [CharOf(symbol)]
  {
  }

  /** The bit buffer `val` wraps at 32 bits on every byte; the text that comes out is the RFC encoding all the same. */
  method Encode(bytes: seq<Byte>) returns (out: string)
    ensures IsRfcEncoding(bytes, out)
    ensures |out| % 8 == 0
    ensures out == Unbounded(bytes)
  {
    var bits: nat, val := 0, 0;
    out := "";
    ghost var symbols: seq<Symbol> := [];
    for i := 0 to |bytes|
      invariant bits < 5 && out == Chars(symbols) && Buffered(symbols, val, bits, bytes, i)
    {
      val, bits := AddByte(val, bits, symbols, bytes, i);
      bits, out, symbols := DrainBits(val, bits, out, symbols, bytes, i + 1);
    }
    out := Finish(val, bits, out, symbols, bytes);
    UnboundedIsRfc(bytes);
    EncodingUnique(bytes, out, Unbounded(bytes));
  }

  /** `val = (val << 8) | b`, where `|` adds: the low eight bits of `val << 8` are zero. */
  method AddByte(val: int, bits: nat, ghost symbols: seq<Symbol>, bytes: seq<Byte>, i: nat)
    returns (next: int, more: nat)
    requires i < |bytes| && bits < 5 && Buffered(symbols, val, bits, bytes, i)
    ensures more == bits + 8 && Buffered(symbols, next, more, bytes, i + 1)
  {
    hide Buffered;
    hide Shl;
    ByteBuffered(symbols, val, bits, bytes, i);
    return Shl(val, 8) + bytes[i], bits + 8;
  }

  /** The inner loop: `while (bits >= 5)`. */
  method DrainBits(val: int, bits: nat, text: string, ghost symbols: seq<Symbol>, ghost bytes: seq<Byte>, ghost i: nat)
    returns (left: nat, out: string, ghost all: seq<Symbol>)
    requires i <= |bytes| && bits <= 12 && text == Chars(symbols) && Buffered(symbols, val, bits, bytes, i)
    ensures left < 5 && out == Chars(all) && Buffered(all, val, left, bytes, i)
  {
    left, out, all := bits, text, symbols;
    while left >= 5
      invariant left <= 12 && out == Chars(all) && Buffered(all, val, left, bytes, i)
    {
      var symbol: Symbol := UShr(val, left - 5) % 32;
      SymbolEmitted(all, val, left, bytes, i);
      all, out, left := Emit(all, symbol, out), out + [CharOf(symbol)], left - 5;
    }
  }

  /** After the loops: the bits still in the buffer, then the padding. */
  method Finish(val: int, bits: nat, text: string, ghost symbols: seq<Symbol>, ghost bytes: seq<Byte>)
    returns (out: string)
    requires bits < 5 && text == Chars(symbols) && Buffered(symbols, val, bits, bytes, |bytes|)
    ensures IsRfcEncoding(bytes, out) && |out| % 8 == 0
  {
    AllEmitted(symbols, val, bits, bytes);
    out := text;
    ghost var all := symbols;
    if bits > 0 {
      var symbol: Symbol := Shl(val, 5 - bits) % 32;
      all, out := Emit(symbols, symbol, out), out + [CharOf(symbol)];
    }
    out := PadOut(all, out);
    assert Writes(bytes, all, out);
  }

  ghost function Emit(symbols: seq<Symbol>, symbol: Symbol, out: string): (more: seq<Symbol>)
    requires out == Chars(symbols)
    ensures more == symbols + [symbol] && Chars(more) == out + [CharOf(symbol)]
  {
    CharsSnoc(symbols, symbol);
    symbols + [symbol]
  }

  /** The last loop: `while (out.length % 8 !== 0) out += "="`. */
  method PadOut(ghost symbols: seq<Symbol>, text: string) returns (out: string)
    requires text == Chars(symbols)
    ensures out == text + Padding(Missing(|symbols|)) && |out| % 8 == 0
  {
    out := text;
    ghost var fill := 0;
    while |out| % 8 != 0
      invariant out == text + Padding(fill) && fill <= Missing(|symbols|)
      decreases Missing(|symbols|) - fill
    {
      out := out + "=";
      fill := fill + 1;
    }
  }

  // ----- a decoder written from RFC 4648 section 6

  function SymbolOf(c: char): Option<Symbol> {
    if 'A' <= c <= 'Z' then Some(c as int - 'A' as int)
    else if '2' <= c <= '7' then Some(c as int - '2' as int + 26)
    else None
  }

  /** The symbols before the padding, and the padding's length; `None` on a foreign character. */
  function ReadSymbols(text: string): (r: Option<(seq<Symbol>, nat)>) {
    if text == [] then Some(([], 0))
    else if text[|text| - 1] == '=' then
      var r := ReadSymbols(text[..|text| - 1]);
      if r.None? then None else Some((r.value.0, r.value.1 + 1))
    else ReadData(text)
  }

  function ReadData(text: string): (r: Option<(seq<Symbol>, nat)>) {
    if text == [] then Some(([], 0))
    else
      var (init, last) := (ReadData(text[..|text| - 1]), SymbolOf(text[|text| - 1]));
      if init.None? || last.None? then None else Some((init.value.0 + [last.value], 0))
  }

  function Octets(bits: seq<Bit>): (bytes: seq<Byte>)
    ensures |bytes| == |bits| / 8
  {
    if |bits| < 8 then []
    else
      LowOfValue(bits[..8]);
      Pow2Of32();
      [Value(bits[..8])] + Octets(bits[8..])
  }

  /** Whole groups of eight characters; unused bits of the last symbol are zero and fewer than five. */
  function Decode(text: string): Option<seq<Byte>> {
    if |text| % 8 != 0 then None
    else
      var r := ReadSymbols(text);
      if r.None? || r.value.1 >= 8 then None else WholeOctets(Concat(r.value.0, 5))
  }

  lemma AlphabetReads(v: Symbol)
    ensures SymbolOf(CharOf(v)) == Some(v) && CharOf(v) != '='
  {
  }

  lemma {:induction false} ReadsChars(symbols: seq<Symbol>)
    ensures ReadData(Chars(symbols)) == Some((symbols, 0))
  {
    if symbols != [] {
      var (init, last) := (symbols[..|symbols| - 1], symbols[|symbols| - 1]);
      ReadsChars(init);
      AlphabetReads(last);
      assert Chars(symbols)[..|symbols| - 1] == Chars(init);
      assert init + [last] == symbols;
    }
  }

  lemma {:induction false} ReadsPadded(symbols: seq<Symbol>, n: nat)
    ensures ReadSymbols(Chars(symbols) + Padding(n)) == Some((symbols, n))
  {
    var text := Chars(symbols) + Padding(n);
    if n == 0 {
      assert text == Chars(symbols);
      ReadsChars(symbols);
      if symbols != [] {
        AlphabetReads(symbols[|symbols| - 1]);
      }
    } else {
      assert text[..|text| - 1] == Chars(symbols) + Padding(n - 1);
      ReadsPadded(symbols, n - 1);
    }
  }

  lemma FirstOctet(byte: Byte, rest: seq<Bit>)
    ensures Octets(Low(byte, 8) + rest) == [byte] + Octets(rest)
  {
    var bits := Low(byte, 8) + rest;
    assert bits[..8] == Low(byte, 8) && bits[8..] == rest;
    Pow2Of32();
    ValueOfLow(byte, 8);
  }

  lemma {:induction false} OctetsOfBytes(bytes: seq<Byte>, tail: seq<Bit>)
    requires |tail| < 8
    ensures Octets(Concat(bytes, 8) + tail) == bytes
  {
    if bytes == [] {
      assert Octets(Concat(bytes, 8) + tail) == [];
    } else {
      StreamFirst(bytes, |bytes|, 8);
      Assoc(Low(bytes[0], 8), Concat(bytes[1..], 8), tail);
      FirstOctet(bytes[0], Concat(bytes[1..], 8) + tail);
      OctetsOfBytes(bytes[1..], tail);
    }
  }

  /** The whole octets of a bit string, when what is left over is fewer than five zero bits. */
  function WholeOctets(bits: seq<Bit>): Option<seq<Byte>> {
    var spare := |bits| % 8;
    if spare >= 5 || bits[|bits| - spare..] != Zeros(spare) then None else Some(Octets(bits))
  }

  lemma DecodeSymbols(bytes: seq<Byte>, symbols: seq<Symbol>)
    requires IsRfcSymbols(bytes, symbols)
    ensures WholeOctets(Concat(symbols, 5)) == Some(bytes)
  {
    OctetsOfBytes(bytes, Zeros(5 * |symbols| - 8 * |bytes|));
  }

  /** Decoding an encoding gives exactly the bytes that were encoded. */
  lemma DecodeEncoding(bytes: seq<Byte>, text: string)
    requires IsRfcEncoding(bytes, text)
    ensures Decode(text) == Some(bytes)
  {
    var symbols: seq<Symbol> :| Writes(bytes, symbols, text);
    DecodeWritten(bytes, symbols, text);
  }

  lemma DecodeWritten(bytes: seq<Byte>, symbols: seq<Symbol>, text: string)
    requires Writes(bytes, symbols, text)
    ensures Decode(text) == Some(bytes)
  {
    ReadsPadded(symbols, Missing(|symbols|));
    DecodeSymbols(bytes, symbols);
  }

  lemma SymbolsUnique(bytes: seq<Byte>, x: seq<Symbol>, y: seq<Symbol>)
    requires IsRfcSymbols(bytes, x) && IsRfcSymbols(bytes, y)
    ensures x == y
  {
    Pow2Of32();
    assert |x| == |y| && Concat(x, 5) == Concat(y, 5);
    forall k | 0 <= k < |x|
      ensures x[k] == y[k]
    {
      StreamAt(x, |x|, k);
      StreamAt(y, |y|, k);
      ValueOfLow(x[k], 5);
      ValueOfLow(y[k], 5);
    }
  }

  // ----- the same without any wrap-around

  /** The last `m` base-32 digits of a number. */
  function Digits(v: nat, m: nat): (symbols: seq<Symbol>)
    ensures |symbols| == m
    decreases m
  {
    if m == 0 then [] else Digits(v / 32, m - 1) + [v % 32]
  }

  /** How many symbols `n` bytes take. */
  function SymbolCount(n: nat): (m: nat)
    ensures 8 * n <= 5 * m < 8 * n + 5
  {
    (8 * n + 4) / 5
  }

  /** The bytes read as one number of any size, shifted to whole symbols, written in base 32. */
  function Unbounded(bytes: seq<Byte>): string {
    var (n, m) := (|bytes|, SymbolCount(|bytes|));
    Chars(Digits(BigEndian(bytes, n) * Pow2(5 * m - 8 * n), m)) + Padding(Missing(m))
  }

  lemma NoBits(bytes: seq<Byte>)
    ensures Low(0, 0) == Stream(bytes, 0, 8) == []
  {
  }

  lemma {:induction false} NumberBits(bytes: seq<Byte>, n: nat)
    requires n <= |bytes|
    ensures Low(BigEndian(bytes, n), 8 * n) == Stream(bytes, n, 8)
  {
    hide Low;
    hide Stream;
    if n == 0 {
      NoBits(bytes);
    } else {
      NumberBits(bytes, n - 1);
      StreamSnoc(bytes, n - 1, 8);
      LowAppend256(BigEndian(bytes, n - 1), 8 * (n - 1), bytes[n - 1]);
    }
  }

  lemma FiveHalves(v: int)
    ensures Halve(v, 5) == v / 32
  {
    assert Halve(v, 5) == v / 2 / 2 / 2 / 2 / 2;
  }

  lemma {:induction false} DigitsBits(v: nat, m: nat)
    ensures Concat(Digits(v, m), 5) == Low(v, 5 * m)
    decreases m
  {
    if m > 0 {
      DigitsBits(v / 32, m - 1);
      ConcatSnoc(Digits(v / 32, m - 1), v % 32, 5);
      LowSplit(v, 5 * (m - 1), 5);
      FiveHalves(v);
      LowOfMask5(v);
    }
  }

  /** That is an encoding by the standard as well. */
  lemma UnboundedIsRfc(bytes: seq<Byte>)
    ensures IsRfcEncoding(bytes, Unbounded(bytes))
  {
    hide Low;
    hide Digits;
    hide Pow2;
    hide BigEndian;
    hide Stream;
    var (n, m) := (|bytes|, SymbolCount(|bytes|));
    var (number, k) := (BigEndian(bytes, n), 5 * m - 8 * n);
    var symbols := Digits(number * Pow2(k), m);
    NumberBits(bytes, n);
    LowAppend(number, 8 * n, 0, k);
    LowOfZero(k);
    DigitsBits(number * Pow2(k), m);
    assert Writes(bytes, symbols, Unbounded(bytes));
  }

  /** The bytes determine their encoding. */
  lemma EncodingUnique(bytes: seq<Byte>, s: string, t: string)
    requires IsRfcEncoding(bytes, s) && IsRfcEncoding(bytes, t)
    ensures s == t
  {
    var x: seq<Symbol> :| Writes(bytes, x, s);
    var y: seq<Symbol> :| Writes(bytes, y, t);
    SymbolsUnique(bytes, x, y);
  }
}

/** `hotp`, apart from the HMAC itself: the counter bytes and the dynamic truncation of RFC 4226 section 5.3. */
module Hotp {
  import opened JsBytes
  import opened JsInt32

  const DIGITS := 6
  const MAX_SAFE_INTEGER := 0x1F_FFFF_FFFF_FFFF

  function CounterBytes(counter: nat): seq<Byte>
    requires counter <= MAX_SAFE_INTEGER
  {
    var (high, low) := (counter / TWO_TO_32, ToUint32(counter));
    WordBytes(high) + WordBytes(low)
  }

  lemma FourMore(bytes: seq<Byte>, n: nat)
    requires n + 4 <= |bytes|
    ensures BigEndian(bytes, n + 4) ==
            TWO_TO_32 * BigEndian(bytes, n) + Word(bytes[n], bytes[n + 1], bytes[n + 2], bytes[n + 3])
  {
    assert BigEndian(bytes, n + 1) == 256 * BigEndian(bytes, n) + bytes[n];
    assert BigEndian(bytes, n + 2) == 256 * BigEndian(bytes, n + 1) + bytes[n + 1];
    assert BigEndian(bytes, n + 3) == 256 * BigEndian(bytes, n + 2) + bytes[n + 2];
  }

  /** The eight bytes are the counter in big-endian order, also above 32 bits, where `counter >>> 0` wraps. */
  lemma CounterBytesValue(counter: nat)
    requires counter <= MAX_SAFE_INTEGER
    ensures |CounterBytes(counter)| == 8 && BigEndian(CounterBytes(counter), 8) == counter
  {
    var (high, low) := (counter / TWO_TO_32, ToUint32(counter));
    WordOfBytes(high);
    WordOfBytes(low);
    FourMore(CounterBytes(counter), 0);
    FourMore(CounterBytes(counter), 4);
    assert BigEndian(CounterBytes(counter), 0) == 0;
  }

  /** The code of an HMAC-SHA-1 value. */
  function Truncate(hmac: seq<Byte>): nat
    requires |hmac| == 20
  {
    var offset := hmac[|hmac| - 1] % 16;
    Word(hmac[offset] % 128, hmac[offset + 1], hmac[offset + 2], hmac[offset + 3]) % 1_000_000
  }

  /** RFC 4226 section 5.3: four bytes from the offset, big-endian, without the sign bit, modulo 10^6. */
  lemma TruncateIsDynamicTruncation(hmac: seq<Byte>)
    requires |hmac| == 20
    ensures var offset := hmac[19] % 16;
            Truncate(hmac) == BigEndian(hmac[offset..offset + 4], 4) % TWO_TO_31 % 1_000_000
  {
    var offset := hmac[19] % 16;
    var four := hmac[offset..offset + 4];
    FourMore(four, 0);
    assert BigEndian(four, 0) == 0;
    WithoutSignBit(four[0], four[1], four[2], four[3]);
  }

  lemma WithoutSignBit(b0: Byte, b1: Byte, b2: Byte, b3: Byte)
    ensures Word(b0, b1, b2, b3) % TWO_TO_31 == Word(b0 % 128, b1, b2, b3)
  {
    var high := b0 / 128;
    assert b0 == 128 * high + b0 % 128;
    var word := Word(b0 % 128, b1, b2, b3);
    assert Word(b0, b1, b2, b3) == TWO_TO_31 * high + word && 0 <= word < TWO_TO_31;
  }

  function Digit(d: nat): char
    requires d < 10
  {
    (('0' as int) + d) as char
  }

  /** `n.toString()` */
  function ToDecimal(n: nat): (s: string)
    ensures s != []
  {
    if n < 10 then [Digit(n)] else ToDecimal(n / 10) + [Digit(n % 10)]
  }

  function PadStart(s: string, width: nat): string {
    if |s| >= width then s else seq(width - |s|, _ => '0') + s
  }

  function Code(hmac: seq<Byte>): string
    requires |hmac| == 20
  {
    PadStart(ToDecimal(Truncate(hmac)), DIGITS)
  }

  function ReadDecimal(s: string, n: nat): int
    requires n <= |s|
  {
    if n == 0 then 0 else 10 * ReadDecimal(s, n - 1) + (s[n - 1] as int - '0' as int)
  }

  lemma {:induction false} ReadZeros(s: string, n: nat)
    requires n <= |s| && forall i | 0 <= i < n :: s[i] == '0'
    ensures ReadDecimal(s, n) == 0
  {
    if n > 0 {
      ReadZeros(s, n - 1);
    }
  }

  /** Leading zeros do not change the value read. */
  lemma {:induction false} ReadPadded(zeros: string, s: string, n: nat)
    requires n <= |s| && forall c | c in zeros :: c == '0'
    ensures ReadDecimal(zeros + s, |zeros| + n) == ReadDecimal(s, n)
  {
    if n == 0 {
      assert forall i | 0 <= i < |zeros| :: zeros[i] in zeros;
      ReadZeros(zeros + s, |zeros|);
    } else {
      ReadPadded(zeros, s, n - 1);
    }
  }

  lemma {:induction false} ReadToDecimal(n: nat, width: nat)
    requires width > 0 && n < Pow10(width)
    ensures |ToDecimal(n)| <= width && ReadDecimal(ToDecimal(n), |ToDecimal(n)|) == n
  {
    if n >= 10 {
      var init := ToDecimal(n / 10);
      ReadToDecimal(n / 10, width - 1);
      ReadOfPrefix(init, [Digit(n % 10)], |init|);
    } else {
      assert ReadDecimal([Digit(n)], 0) == 0;
    }
  }

  lemma {:induction false} ReadOfPrefix(s: string, more: string, n: nat)
    requires n <= |s|
    ensures ReadDecimal(s + more, n) == ReadDecimal(s, n)
  {
    if n > 0 {
      ReadOfPrefix(s, more, n - 1);
    }
  }

  function Pow10(k: nat): (p: nat)
    ensures p >= 1
  {
    if k == 0 then 1 else 10 * Pow10(k - 1)
  }

  /** The code has exactly six characters and reads as the truncated value. */
  lemma CodeIsSixDigits(hmac: seq<Byte>)
    requires |hmac| == 20
    ensures |Code(hmac)| == DIGITS && ReadDecimal(Code(hmac), DIGITS) == Truncate(hmac)
  {
    var s := ToDecimal(Truncate(hmac));
    assert Pow10(6) == 1_000_000;
    ReadToDecimal(Truncate(hmac), 6);
    var zeros := seq(DIGITS - |s|, _ => '0');
    ReadPadded(zeros, s, |s|);
    assert |s| == DIGITS ==> zeros + s == s;
  }
}
