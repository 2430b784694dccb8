/** Values shared by every part of the model: optional results, JavaScript strings and JavaScript rounding. */

module Wrappers {
  datatype Option<+T> = None | Some(value: T)

  datatype Result<+T, +E> = Ok(value: T) | Err(error: E)
}

module Sequences {
  lemma Assoc<T>(a: seq<T>, b: seq<T>, c: seq<T>)
    ensures a + b + c == a + (b + c)
  {
  }
}

/** A JavaScript string is a sequence of UTF-16 code units; indices and lengths count code units. */
module JsText {
  type CodeUnit = n: int | 0 <= n < 0x10000

  type Text = seq<CodeUnit>

  const SPACE: CodeUnit := 0x20
  const NEWLINE: CodeUnit := 0x0A

  /** The characters that `\s` matches and `trim` removes. */
  predicate IsSpace(c: CodeUnit) {
    || 0x09 <= c <= 0x0D || c == 0x20 || c == 0xA0 || c == 0x1680 || 0x2000 <= c <= 0x200A
    || c == 0x2028 || c == 0x2029 || c == 0x202F || c == 0x205F || c == 0x3000 || c == 0xFEFF
  }

  /** The code units of a text that is written out. */
  function Units(s: string): Text
    requires forall i | 0 <= i < |s| :: s[i] as int < 0x10000
  {
    seq(|s|, i requires 0 <= i < |s| => s[i] as int)
  }

  /** The white space and line terminators of ECMAScript, one by one. */
  const SPACES: set<CodeUnit> := {
    0x09, 0x0A, 0x0B, 0x0C, 0x0D, 0x20, 0xA0, 0x1680, 0x2000, 0x2001, 0x2002, 0x2003, 0x2004, 0x2005, 0x2006, 0x2007,
    0x2008, 0x2009, 0x200A, 0x2028, 0x2029, 0x202F, 0x205F, 0x3000, 0xFEFF}

  lemma SpacesListed(c: CodeUnit)
    ensures IsSpace(c) <==> c in SPACES
  {
  }

  predicate Blank(s: Text) {
    forall c | c in s :: IsSpace(c)
  }

  function TrimStart(s: Text): (r: Text)
    ensures |r| <= |s|
  {
    if s != [] && IsSpace(s[0]) then TrimStart(s[1..]) else s
  }

  function TrimEnd(s: Text): Text {
    if s != [] && IsSpace(s[|s| - 1]) then TrimEnd(s[..|s| - 1]) else s
  }

  /** `s.trim()` */
  function Trim(s: Text): Text {
    TrimEnd(TrimStart(s))
  }

  lemma {:induction false} TrimStartFacts(s: Text)
    ensures var r := TrimStart(s);
            && r == s[|s| - |r|..]
            && (r == [] <==> Blank(s))
            && (r != [] ==> !IsSpace(r[0]))
  {
    if s != [] && IsSpace(s[0]) {
      TrimStartFacts(s[1..]);
      assert Blank(s) <==> Blank(s[1..]) by { assert s == [s[0]] + s[1..]; }
    } else if s != [] {
      assert s[0] in s;
    }
  }

  lemma {:induction false} TrimEndFacts(s: Text)
    ensures var r := TrimEnd(s);
            && r <= s
            && (r == [] <==> Blank(s))
            && (r != [] ==> !IsSpace(r[|r| - 1]))
  {
    if s != [] && IsSpace(s[|s| - 1]) {
      TrimEndFacts(s[..|s| - 1]);
      assert Blank(s) <==> Blank(s[..|s| - 1]) by { assert s == s[..|s| - 1] + [s[|s| - 1]]; }
    } else if s != [] {
      assert s[|s| - 1] in s;
    }
  }

  /** What is left has no white space at either end, and nothing is left exactly when all of it was blank. */
  lemma TrimFacts(s: Text)
    ensures Trim(s) == [] <==> Blank(s)
    ensures Trim(s) != [] ==> !IsSpace(Trim(s)[0]) && !IsSpace(Trim(s)[|Trim(s)| - 1])
    ensures forall c | c in Trim(s) :: c in s
  {
    hide TrimStart;
    hide TrimEnd;
    hide IsSpace;
    TrimStartFacts(s);
    TrimEndFacts(TrimStart(s));
    assert forall c | c in Trim(s) :: c in TrimStart(s);
  }

  /** Whatever white space is put around it, trimming gives the text back. */
  lemma TrimPadded(before: Text, s: Text, after: Text)
    requires Blank(before) && Blank(after) && s != [] && !IsSpace(s[0]) && !IsSpace(s[|s| - 1])
    ensures Trim(before + s + after) == s
  {
    hide TrimStart;
    hide TrimEnd;
    hide IsSpace;
    hide Blank;
    var padded := s + after;
    assert padded[0] == s[0];
    TrimStartPadded(before, padded);
    assert before + s + after == before + padded;
    TrimEndPadded(s, after);
  }

  lemma {:induction false} TrimStartPadded(before: Text, s: Text)
    requires Blank(before) && s != [] && !IsSpace(s[0])
    ensures TrimStart(before + s) == s
  {
    if before == [] {
      assert before + s == s;
    } else {
      assert (before + s)[1..] == before[1..] + s && before[0] in before;
      assert before == [before[0]] + before[1..];
      TrimStartPadded(before[1..], s);
    }
  }

  lemma {:induction false} TrimEndPadded(s: Text, after: Text)
    requires Blank(after) && s != [] && !IsSpace(s[|s| - 1])
    ensures TrimEnd(s + after) == s
  {
    if after == [] {
      assert s + after == s;
    } else {
      var init := after[..|after| - 1];
      assert (s + after)[..|s + after| - 1] == s + init && after == init + [after[|after| - 1]];
      assert after[|after| - 1] in after;
      TrimEndPadded(s, init);
    }
  }

  lemma TrimSolid(s: Text)
    requires s != [] && !IsSpace(s[0]) && !IsSpace(s[|s| - 1])
    ensures Trim(s) == s
  {
  }

  /** `s.split(sep)` for a one-unit separator: always at least one piece, none of them holding the separator. */
  function Split(s: Text, sep: CodeUnit): (parts: seq<Text>)
    ensures |parts| >= 1
    ensures forall p | p in parts :: sep !in p
  {
    if s == [] then [[]]
    else
      var rest := Split(s[1..], sep);
      if s[0] == sep then [[]] + rest else [[s[0]] + rest[0]] + rest[1..]
  }

  /** `parts.join(sep)`. */
  function Join(parts: seq<Text>, sep: CodeUnit): Text {
    if parts == [] then []
    else if |parts| == 1 then parts[0]
    else parts[0] + [sep] + Join(parts[1..], sep)
  }

  /** Splitting then joining gives the text back, so different texts have different pieces. */
  lemma {:induction false} JoinSplit(s: Text, sep: CodeUnit)
    ensures Join(Split(s, sep), sep) == s
  {
    if s != [] {
      JoinSplit(s[1..], sep);
      var rest := Split(s[1..], sep);
      assert [s[0]] + s[1..] == s;
      if s[0] == sep {
        assert ([[]] + rest)[1..] == rest;
        assert [] + [sep] + Join(rest, sep) == [sep] + s[1..];
      } else if |rest| > 1 {
        assert ([[s[0]] + rest[0]] + rest[1..])[1..] == rest[1..];
        assert [s[0]] + rest[0] + [sep] + Join(rest[1..], sep) == [s[0]] + (rest[0] + [sep] + Join(rest[1..], sep));
      }
    }
  }

  lemma SplitSolid(s: Text, sep: CodeUnit)
    requires sep !in s
    ensures Split(s, sep) == [s]
  {
    if s != [] {
      SplitSolid(s[1..], sep);
      assert [s[0]] + s[1..] == s && [s[1..]][1..] == [];
    }
  }

  /** Putting one unit in front of a split text. */
  function Prefix(c: CodeUnit, parts: seq<Text>, sep: CodeUnit): seq<Text>
    requires parts != []
  {
    if c == sep then [[]] + parts else [[c] + parts[0]] + parts[1..]
  }

  /** Splitting across a cut: the last piece before the cut continues into the first piece after it. */
  lemma {:induction false} SplitConcat(a: Text, b: Text, sep: CodeUnit)
    ensures var first := Split(a, sep);
            Split(a + b, sep) == first[..|first| - 1] + Split(first[|first| - 1] + b, sep)
  {
    if a == [] {
      assert [] + b == b;
    } else {
      assert (a + b)[1..] == a[1..] + b;
      SplitConcat(a[1..], b, sep);
      var tail := Split(a[1..], sep);
      hide Prefix;
      var more := Split(tail[|tail| - 1] + b, sep);
      assert Split(a + b, sep) == Prefix(a[0], tail[..|tail| - 1] + more, sep);
      PrefixOfCut(a[0], tail, b, sep);
    }
  }

  lemma SplitCons(c: CodeUnit, s: Text, sep: CodeUnit)
    ensures Split([c] + s, sep) == Prefix(c, Split(s, sep), sep)
  {
    assert ([c] + s)[1..] == s;
  }

  lemma PrefixOfCut(c: CodeUnit, tail: seq<Text>, b: Text, sep: CodeUnit)
    requires tail != []
    ensures var first := Prefix(c, tail, sep);
            Prefix(c, tail[..|tail| - 1] + Split(tail[|tail| - 1] + b, sep), sep)
            == first[..|first| - 1] + Split(first[|first| - 1] + b, sep)
  {
    hide Split;
    var first, last := Prefix(c, tail, sep), tail[|tail| - 1];
    var more := Split(last + b, sep);
    SplitCons(c, last + b, sep);
    if c == sep {
      assert first[..|first| - 1] == [[]] + tail[..|tail| - 1];
    } else if |tail| == 1 {
      assert first[0] + b == [c] + (last + b);
      assert tail[..0] + more == more;
    } else {
      assert first[..|first| - 1] == [[c] + tail[0]] + tail[1..|tail| - 1];
      assert (tail[..|tail| - 1] + more)[1..] == tail[1..|tail| - 1] + more;
    }
  }

  /** Joining then splitting gives the pieces back, so joining loses nothing. */
  lemma {:induction false} SplitJoin(parts: seq<Text>, sep: CodeUnit)
    requires parts != [] && forall p | p in parts :: sep !in p
    ensures Split(Join(parts, sep), sep) == parts
  {
    SplitSolid(parts[0], sep);
    if |parts| > 1 {
      SplitJoin(parts[1..], sep);
      var tail := Join(parts[1..], sep);
      assert Join(parts, sep) == parts[0] + ([sep] + tail);
      SplitConcat(parts[0], [sep] + tail, sep);
      SplitSeparated(parts[0], tail, sep);
    }
  }

  lemma SplitSeparated(head: Text, tail: Text, sep: CodeUnit)
    requires sep !in head
    ensures Split(head + ([sep] + tail), sep) == [head] + Split(tail, sep)
  {
    if head == [] {
      assert [] + ([sep] + tail) == [sep] + tail;
    } else {
      assert (head + ([sep] + tail))[1..] == head[1..] + ([sep] + tail);
      SplitSeparated(head[1..], tail, sep);
      assert ([head[1..]] + Split(tail, sep))[1..] == Split(tail, sep);
      assert [head[0]] + head[1..] == head;
    }
  }
}

/** Buffers. */
module JsBytes {
  type Byte = n: int | 0 <= n < 256

  type Bytes = seq<Byte>

  const TWO_TO_32 := 0x1_0000_0000

  /** `(b0 << 24) | (b1 << 16) | (b2 << 8) | b3` for bytes: the shifted bytes do not overlap, so `|` adds. */
  function Word(b0: int, b1: int, b2: int, b3: int): int {
    0x100_0000 * b0 + 0x1_0000 * b1 + 0x100 * b2 + b3
  }

  /** The first `n` bytes as one number, the first byte being the most significant. */
  function BigEndian(bytes: seq<Byte>, n: nat): nat
    requires n <= |bytes|
  {
    if n == 0 then 0 else 256 * BigEndian(bytes, n - 1) + bytes[n - 1]
  }

  /** `buf.writeUInt32BE(v)` */
  function WordBytes(v: nat): (bytes: Bytes)
    requires v < TWO_TO_32
    ensures |bytes| == 4
  {
    [v / 0x100_0000, v / 0x1_0000 % 0x100, v / 0x100 % 0x100, v % 0x100]
  }

  lemma WordOfBytes(v: nat)
    requires v < TWO_TO_32
    ensures var w := WordBytes(v); Word(w[0], w[1], w[2], w[3]) == v
  {
    assert v / 0x100 == 0x100 * (v / 0x1_0000) + v / 0x100 % 0x100;
    assert v / 0x1_0000 == 0x100 * (v / 0x100_0000) + v / 0x1_0000 % 0x100;
  }
}

module JsNumber {
  /** `Math.round`: half rounds up. */
  function Round(x: real): (n: int)
    ensures -0.5 < n as real - x <= 0.5
  {
    (x + 0.5).Floor
  }

  /** `Math.round(x * scale) / scale`: the nearest multiple of `1/scale`, at most half a step away. */
  function RoundTo(x: real, scale: real): (r: real)
    requires scale > 0.0
    ensures -0.5 < (r - x) * scale <= 0.5
  {
    var n := Round(x * scale) as real;
    assert (n / scale - x) * scale == n - x * scale;
    n / scale
  }

  function Abs(x: real): real {
    if x < 0.0 then -x else x
  }
}
