/** Escaping (src/lib/report.ts, `esc`) and entity decoding (src/lib/junit.ts, `decodeEntities`). */
module Entities {
  import opened Wrappers
  import opened JsText

  const AMP: CodeUnit := 0x26   // &
  const LT: CodeUnit := 0x3C    // <
  const GT: CodeUnit := 0x3E    // >
  const QUOT: CodeUnit := 0x22  // "
  const APOS: CodeUnit := 0x27  // '
  const HASH: CodeUnit := 0x23  // #
  const SEMI: CodeUnit := 0x3B  // ;
  const LOWER_X: CodeUnit := 0x78

  const AMP_ENTITY: Text := [0x26, 0x61, 0x6D, 0x70, 0x3B]          // &amp;
  const LT_ENTITY: Text := [0x26, 0x6C, 0x74, 0x3B]                 // &lt;
  const GT_ENTITY: Text := [0x26, 0x67, 0x74, 0x3B]                 // &gt;
  const QUOT_ENTITY: Text := [0x26, 0x71, 0x75, 0x6F, 0x74, 0x3B]   // &quot;
  const APOS_ENTITY: Text := [0x26, 0x61, 0x70, 0x6F, 0x73, 0x3B]   // &apos;

  /** `s.replace(/pattern/g, replacement)` for a literal pattern: matches from the left, never overlapping. */
  function ReplaceAll(s: Text, pattern: Text, replacement: Text): Text
    requires pattern != []
  {
    if s == [] then []
    else if pattern <= s then replacement + ReplaceAll(s[|pattern|..], pattern, replacement)
    else [s[0]] + ReplaceAll(s[1..], pattern, replacement)
  }

  /** The printer side: four replacements, the ampersand first. */
  function Esc(s: Text): Text {
    var a := ReplaceAll(s, [AMP], AMP_ENTITY);
    var b := ReplaceAll(a, [LT], LT_ENTITY);
    var c := ReplaceAll(b, [GT], GT_ENTITY);
    ReplaceAll(c, [QUOT], QUOT_ENTITY)
  }

  // ----- numeric references

  predicate IsDigit(c: CodeUnit, hex: bool) {
    0x30 <= c <= 0x39 || (hex && (0x41 <= c <= 0x46 || 0x61 <= c <= 0x66))
  }

  function DigitValue(c: CodeUnit): int {
    if c <= 0x39 then c - 0x30 else if c <= 0x46 then c - 0x37 else c - 0x57
  }

  /** The length of the longest run of digits at the start. */
  function DigitRun(s: Text, hex: bool): (n: nat)
    ensures n <= |s| && forall i | 0 <= i < n :: IsDigit(s[i], hex)
  {
    if s != [] && IsDigit(s[0], hex) then 1 + DigitRun(s[1..], hex) else 0
  }

  function Number(digits: Text, hex: bool): int {
    if digits == [] then 0
    else
      var before := Number(digits[..|digits| - 1], hex);
      (if hex then 16 * before else 10 * before) + DigitValue(digits[|digits| - 1])
  }

  lemma {:induction false} DigitsPositive(digits: Text, hex: bool)
    requires forall i | 0 <= i < |digits| :: IsDigit(digits[i], true)
    ensures Number(digits, hex) >= 0
  {
    if digits != [] {
      DigitsPositive(digits[..|digits| - 1], hex);
    }
  }

  /** A match of `&#(\d+);` or `&#x([0-9a-fA-F]+);` at the start: the number and the length matched. */
  function ReferenceAt(s: Text, hex: bool): (r: Option<(nat, nat)>)
    ensures r.Some? ==> OpensReference(s, hex) && 0 < r.value.1 <= |s|
  {
    if !OpensReference(s, hex) then None else Reference(s, if hex then 3 else 2, hex)
  }

  predicate OpensReference(s: Text, hex: bool) {
    |s| >= 3 && s[0] == AMP && s[1] == HASH && (hex ==> s[2] == LOWER_X)
  }

  function Reference(s: Text, open: nat, hex: bool): (r: Option<(nat, nat)>)
    requires 0 < open <= |s|
    ensures r.Some? ==> 0 < r.value.1 <= |s|
  {
    var n := DigitRun(s[open..], hex);
    if n == 0 || open + n >= |s| || s[open + n] != SEMI then None
    else
      var digits := s[open..open + n];
      DigitsPositive(digits, hex);
      Some((Number(digits, hex), open + n + 1))
  }

  const MAX_CODE_POINT := 0x10FFFF

  /** `String.fromCodePoint`: one code unit, or a surrogate pair. */
  function FromCodePoint(p: nat): Text
    requires p <= MAX_CODE_POINT
  {
    if p < 0x10000 then [p] else [0xD800 + (p - 0x10000) / 0x400, 0xDC00 + (p - 0x10000) % 0x400]
  }

  /** Replace every numeric reference; `None` is the `RangeError` of a number that is no code point. */
  function DecodeNumeric(s: Text, hex: bool): Option<Text> {
    if s == [] then Some([])
    else
      var ref := ReferenceAt(s, hex);
      if ref.Some? && ref.value.0 > MAX_CODE_POINT then None
      else
        var (unit, n) := if ref.Some? then (FromCodePoint(ref.value.0), ref.value.1) else ([s[0]], 1);
        var rest := DecodeNumeric(s[n..], hex);
        if rest.None? then None else Some(unit + rest.value)
  }

  /** The reader side: seven passes one after the other, the ampersand last. */
  function Decode(s: Text): Option<Text> {
    var a := ReplaceAll(s, LT_ENTITY, [LT]);
    var b := ReplaceAll(a, GT_ENTITY, [GT]);
    var c := ReplaceAll(b, QUOT_ENTITY, [QUOT]);
    var d := ReplaceAll(c, APOS_ENTITY, [APOS]);
    var e := DecodeNumeric(d, false);
    if e.None? then None
    else
      var f := DecodeNumeric(e.value, true);
      if f.None? then None else Some(ReplaceAll(f.value, AMP_ENTITY, [AMP]))
  }

  // ----- partly escaped texts

  predicate IsSpecial(c: CodeUnit) {
    c == AMP || c == LT || c == GT || c == QUOT
  }

  function Entity(c: CodeUnit): (e: Text)
    requires IsSpecial(c)
    ensures |e| >= 4 && e[0] == AMP && e[1] != HASH
    ensures forall i | 1 <= i < |e| :: !IsSpecial(e[i]) && !IsSpace(e[i])
  {
    if c == AMP then AMP_ENTITY else if c == LT then LT_ENTITY else if c == GT then GT_ENTITY else QUOT_ENTITY
  }

  /** The text with exactly the specials in `live` escaped, each on its own. */
  function Escaped(s: Text, live: set<CodeUnit>): Text {
    if s == [] then [] else Unit(s[0], live) + Escaped(s[1..], live)
  }

  function Unit(c: CodeUnit, live: set<CodeUnit>): (u: Text)
    ensures u != []
  {
    if c in live && IsSpecial(c) then Entity(c) else [c]
  }

  /** Nothing can match inside a stretch that does not hold the pattern's first unit. */
  lemma {:induction false} ReplaceSkips(u: Text, t: Text, pattern: Text, replacement: Text)
    requires pattern != [] && pattern[0] !in u
    ensures ReplaceAll(u + t, pattern, replacement) == u + ReplaceAll(t, pattern, replacement)
  {
    if u == [] {
      assert u + t == t;
    } else {
      assert (u + t)[0] == u[0] && (u + t)[1..] == u[1..] + t;
      ReplaceSkips(u[1..], t, pattern, replacement);
      assert [u[0]] + u[1..] == u;
    }
  }

  lemma ReplaceHits(t: Text, pattern: Text, replacement: Text)
    requires pattern != []
    ensures ReplaceAll(pattern + t, pattern, replacement) == replacement + ReplaceAll(t, pattern, replacement)
  {
    assert (pattern + t)[|pattern|..] == t;
  }

  /** An entity other than the pattern passes through. */
  lemma EntityPasses(e: Text, t: Text, pattern: Text, replacement: Text)
    requires |e| >= 4 && |pattern| >= 4 && pattern[0] == AMP && e[0] == AMP && AMP !in e[1..]
    requires e[1] != pattern[1] || e[2] != pattern[2]
    ensures ReplaceAll(e + t, pattern, replacement) == e + ReplaceAll(t, pattern, replacement)
  {
    assert !(pattern <= e + t) by {
      assert (e + t)[1] == e[1] && (e + t)[2] == e[2];
    }
    assert (e + t)[1..] == e[1..] + t;
    ReplaceSkips(e[1..], t, pattern, replacement);
    assert [e[0]] + e[1..] == e;
  }

  /** One decoding pass undoes exactly one kind of escape. */
  lemma {:induction false} PassDecodes(s: Text, live: set<CodeUnit>, x: CodeUnit)
    requires AMP in live && x in live && IsSpecial(x)
    ensures ReplaceAll(Escaped(s, live), Entity(x), [x]) == Escaped(s, live - {x})
  {
    if s != [] {
      var (c, t) := (s[0], Escaped(s[1..], live));
      PassDecodes(s[1..], live, x);
      if c == x {
        ReplaceHits(t, Entity(x), [x]);
      } else if c in live && IsSpecial(c) {
        EntityPasses(Entity(c), t, Entity(x), [x]);
      } else {
        ReplaceSkips([c], t, Entity(x), [x]);
      }
    }
  }

  lemma {:induction false} AposPassSkips(s: Text, live: set<CodeUnit>)
    requires AMP in live
    ensures ReplaceAll(Escaped(s, live), APOS_ENTITY, [APOS]) == Escaped(s, live)
  {
    if s != [] {
      var (c, t) := (s[0], Escaped(s[1..], live));
      AposPassSkips(s[1..], live);
      if c in live && IsSpecial(c) {
        EntityPasses(Entity(c), t, APOS_ENTITY, [APOS]);
      } else {
        ReplaceSkips([c], t, APOS_ENTITY, [APOS]);
      }
    }
  }

  lemma Unfold(u: Text, t: Text)
    requires u != []
    ensures [u[0]] + (u[1..] + t) == u + t
  {
  }

  /** A unit that opens no reference is copied. */
  lemma NumericCopies(c: CodeUnit, t: Text, hex: bool)
    requires c != AMP || (t != [] && t[0] != HASH)
    requires DecodeNumeric(t, hex) == Some(t)
    ensures DecodeNumeric([c] + t, hex) == Some([c] + t)
  {
    var s := [c] + t;
    assert s[1..] == t && (|s| > 1 ==> s[1] == t[0]);
  }

  lemma {:induction false} NumericSkips(u: Text, t: Text, hex: bool)
    requires AMP !in u && DecodeNumeric(t, hex) == Some(t)
    ensures DecodeNumeric(u + t, hex) == Some(u + t)
  {
    if u == [] {
      assert u + t == t;
    } else {
      NumericSkips(u[1..], t, hex);
      Unfold(u, t);
      NumericCopies(u[0], u[1..] + t, hex);
    }
  }

  lemma NumericEntityPasses(e: Text, t: Text, hex: bool)
    requires |e| >= 2 && e[0] == AMP && e[1] != HASH && AMP !in e[1..] && DecodeNumeric(t, hex) == Some(t)
    ensures DecodeNumeric(e + t, hex) == Some(e + t)
  {
    NumericSkips(e[1..], t, hex);
    Unfold(e, t);
    NumericCopies(e[0], e[1..] + t, hex);
  }

  lemma {:induction false} NumericPassSkips(s: Text, live: set<CodeUnit>, hex: bool)
    requires AMP in live
    ensures DecodeNumeric(Escaped(s, live), hex) == Some(Escaped(s, live))
  {
    if s != [] {
      var (c, t) := (s[0], Escaped(s[1..], live));
      NumericPassSkips(s[1..], live, hex);
      if c in live && IsSpecial(c) {
        NumericEntityPasses(Entity(c), t, hex);
      } else {
        NumericSkips([c], t, hex);
      }
    }
  }

  lemma {:induction false} PassEscapes(s: Text, live: set<CodeUnit>, x: CodeUnit)
    requires IsSpecial(x) && x !in live && (x == AMP ==> live == {})
    ensures ReplaceAll(Escaped(s, live), [x], Entity(x)) == Escaped(s, live + {x})
  {
    if s != [] {
      var (c, t) := (s[0], Escaped(s[1..], live));
      PassEscapes(s[1..], live, x);
      if c == x {
        ReplaceHits(t, [x], Entity(x));
      } else {
        assert x !in Unit(c, live);
        ReplaceSkips(Unit(c, live), t, [x], Entity(x));
      }
    }
  }

  lemma {:induction false} EscapedNothing(s: Text, live: set<CodeUnit>)
    requires forall c | c in live :: c !in s
    ensures Escaped(s, live) == s
  {
    if s != [] {
      EscapedNothing(s[1..], live);
      assert s[0] in s && [s[0]] + s[1..] == s;
    }
  }

  const SPECIALS: set<CodeUnit> := {AMP, LT, GT, QUOT}

  /** The chain of replacements escapes every special exactly once. */
  lemma EscIsUnitwise(s: Text)
    ensures Esc(s) == Escaped(s, SPECIALS)
  {
    EscapedNothing(s, {});
    PassEscapes(s, {}, AMP);
    PassEscapes(s, {AMP}, LT);
    PassEscapes(s, {AMP, LT}, GT);
    PassEscapes(s, {AMP, LT, GT}, QUOT);
    assert {} + {AMP} == {AMP} && {AMP} + {LT} == {AMP, LT} && {AMP, LT} + {GT} == {AMP, LT, GT};
    assert {AMP, LT, GT} + {QUOT} == SPECIALS;
  }

  /** Decoding undoes escaping on every text, however many entities the text itself spells out. */
  lemma DecodeEsc(s: Text)
    ensures Decode(Esc(s)) == Some(s)
  {
    EscIsUnitwise(s);
    PassDecodes(s, SPECIALS, LT);
    assert SPECIALS - {LT} == {AMP, GT, QUOT};
    PassDecodes(s, {AMP, GT, QUOT}, GT);
    assert {AMP, GT, QUOT} - {GT} == {AMP, QUOT};
    PassDecodes(s, {AMP, QUOT}, QUOT);
    assert {AMP, QUOT} - {QUOT} == {AMP};
    AposPassSkips(s, {AMP});
    NumericPassSkips(s, {AMP}, false);
    NumericPassSkips(s, {AMP}, true);
    PassDecodes(s, {AMP}, AMP);
    assert {AMP} - {AMP} == {};
    EscapedNothing(s, {});
  }

  /** Escaped text holds no markup, and is blank exactly when the text is. */
  lemma {:induction false} EscShape(s: Text)
    ensures LT !in Esc(s) && GT !in Esc(s) && QUOT !in Esc(s)
    ensures Blank(Esc(s)) <==> Blank(s)
    ensures Esc(s) == [] <==> s == []
  {
    EscIsUnitwise(s);
    EscapedShape(s);
  }

  lemma {:induction false} EscapedShape(s: Text)
    ensures LT !in Escaped(s, SPECIALS) && GT !in Escaped(s, SPECIALS) && QUOT !in Escaped(s, SPECIALS)
    ensures Blank(Escaped(s, SPECIALS)) <==> Blank(s)
    ensures Escaped(s, SPECIALS) == [] <==> s == []
  {
    if s != [] {
      EscapedShape(s[1..]);
      var (u, t) := (Unit(s[0], SPECIALS), Escaped(s[1..], SPECIALS));
      assert s == [s[0]] + s[1..];
      BlankConcat(u, t);
      BlankConcat([s[0]], s[1..]);
      UnitShape(s[0]);
    }
  }

  lemma UnitShape(c: CodeUnit)
    ensures var u := Unit(c, SPECIALS);
            LT !in u && GT !in u && QUOT !in u && (Blank(u) <==> Blank([c]))
  {
    var u := Unit(c, SPECIALS);
    assert u[0] in u && c in [c];
  }

  lemma BlankConcat(u: Text, t: Text)
    ensures Blank(u + t) <==> Blank(u) && Blank(t)
  {
    if Blank(u + t) {
      forall c | c in u || c in t
        ensures IsSpace(c)
      {
        assert c in u + t;
      }
    }
  }

  /** A decimal reference decodes to its code point, and throws exactly when there is no such code point. */
  lemma DecimalReference(digits: Text)
    requires digits != [] && forall d {:trigger d in digits} | d in digits :: IsDigit(d, false)
    ensures var n := Number(digits, false);
            && n >= 0
            && Decode([AMP, HASH] + digits + [SEMI]) == if n > MAX_CODE_POINT then None else Some(FromCodePoint(n))
  {
    var s := [AMP, HASH] + digits + [SEMI];
    assert s[1..] == [HASH] + digits + [SEMI];
    ReplaceSkipsHash(s, LT_ENTITY, [LT]);
    ReplaceSkipsHash(s, GT_ENTITY, [GT]);
    ReplaceSkipsHash(s, QUOT_ENTITY, [QUOT]);
    ReplaceSkipsHash(s, APOS_ENTITY, [APOS]);
    ReferenceAlone(digits, s);
    var n := Number(digits, false);
    if n <= MAX_CODE_POINT {
      var u := FromCodePoint(n);
      ShortUnchanged(u);
      assert s[|s|..] == [] && u + [] == u;
      assert DecodeNumeric(s, false) == Some(u);
    }
  }

  lemma ReferenceAlone(digits: Text, s: Text)
    requires digits != [] && (forall d {:trigger d in digits} | d in digits :: IsDigit(d, false))
    requires s == [AMP, HASH] + digits + [SEMI]
    ensures Number(digits, false) >= 0 && ReferenceAt(s, false) == Some((Number(digits, false), |s|))
  {
    assert forall i | 0 <= i < |digits| :: digits[i] in digits;
    DigitsPositive(digits, false);
    assert s[2..] == digits + [SEMI] && s[2..2 + |digits|] == digits;
    RunOf(digits, [SEMI]);
  }

  lemma {:induction false} ShortUnchanged(u: Text)
    requires |u| <= 2
    ensures DecodeNumeric(u, true) == Some(u) && ReplaceAll(u, AMP_ENTITY, [AMP]) == u
  {
    if u != [] {
      ShortUnchanged(u[1..]);
      assert [u[0]] + u[1..] == u;
    }
  }

  lemma ReplaceSkipsHash(s: Text, pattern: Text, replacement: Text)
    requires |s| >= 2 && s[0] == AMP && s[1] == HASH && AMP !in s[1..]
    requires |pattern| >= 2 && pattern[0] == AMP && pattern[1] != HASH
    ensures ReplaceAll(s, pattern, replacement) == s
  {
    assert s[1..] + [] == s[1..];
    ReplaceSkips(s[1..], [], pattern, replacement);
    assert [s[0]] + s[1..] == s;
  }

  lemma {:induction false} RunOf(digits: Text, rest: Text)
    requires (forall c | c in digits :: IsDigit(c, false)) && (rest == [] || !IsDigit(rest[0], false))
    ensures DigitRun(digits + rest, false) == |digits|
  {
    if digits == [] {
      assert digits + rest == rest;
    } else {
      assert (digits + rest)[1..] == digits[1..] + rest && digits[0] in digits;
      RunOf(digits[1..], rest);
    }
  }
}
