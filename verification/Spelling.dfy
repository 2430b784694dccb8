/** Every way to spell a text with references, and what `decodeEntities` and `parseAttrs` make of it. */
module Spelling {
  import opened Wrappers
  import opened JsText
  import opened Sequences
  import opened Entities
  import opened Xml
  import RT = XmlRoundTrip

  /** A unit as it is, by its named entity, or a code point by its number. */
  datatype Spelled = Bare(c: CodeUnit) | Named(c: CodeUnit) | Numeric(digits: Text, hex: bool)

  const NAMES: map<CodeUnit, Text> :=
    map[LT := LT_ENTITY, GT := GT_ENTITY, QUOT := QUOT_ENTITY, APOS := APOS_ENTITY, AMP := AMP_ENTITY]

  /** A bare ampersand would begin a reference; one by its number would be read twice. */
  predicate Sound(u: Spelled) {
    match u
    case Bare(c) => c != AMP
    case Named(c) => c in NAMES
    case Numeric(digits, hex) =>
      digits != [] && (forall i | 0 <= i < |digits| :: IsDigit(digits[i], hex)) && Number(digits, hex) != AMP
  }

  predicate AllSound(us: seq<Spelled>) {
    forall i | 0 <= i < |us| :: Sound(us[i])
  }

  function Opening(hex: bool): Text {
    if hex then [AMP, HASH, LOWER_X] else [AMP, HASH]
  }

  function Written(u: Spelled): Text {
    match u
    case Bare(c) => [c]
    case Named(c) => if c in NAMES then NAMES[c] else []
    case Numeric(digits, hex) => Opening(hex) + digits + [SEMI]
  }

  function WrittenAll(us: seq<Spelled>): Text {
    if us == [] then [] else Written(us[0]) + WrittenAll(us[1..])
  }

  /** A number that is no code point makes the reader throw. */
  predicate IsPoint(u: Spelled) {
    u.Numeric? ==> 0 <= Number(u.digits, u.hex) <= MAX_CODE_POINT
  }

  function Meaning(u: Spelled): Text
    requires IsPoint(u)
  {
    match u
    case Bare(c) => [c]
    case Named(c) => [c]
    case Numeric(digits, hex) => FromCodePoint(Number(digits, hex))
  }

  predicate AllPoints(us: seq<Spelled>) {
    forall i | 0 <= i < |us| :: IsPoint(us[i])
  }

  function MeaningAll(us: seq<Spelled>): Text
    requires AllPoints(us)
  {
    if us == [] then [] else Meaning(us[0]) + MeaningAll(us[1..])
  }

  // ----- what numbers and code points are

  /** Digits are worth what they say, and stand for powers of ten or sixteen. */
  lemma DigitValues(k: nat)
    requires k < 16
    ensures var (lower, upper) := ("0123456789abcdef", "0123456789ABCDEF");
            && DigitValue(lower[k] as int) == k == DigitValue(upper[k] as int)
            && IsDigit(lower[k] as int, true) && IsDigit(upper[k] as int, true)
            && (IsDigit(lower[k] as int, false) <==> k < 10)
  {
  }

  lemma NumberSnoc(digits: Text, d: CodeUnit, hex: bool)
    ensures Number(digits + [d], hex) == (if hex then 16 else 10) * Number(digits, hex) + DigitValue(d)
  {
    assert (digits + [d])[..|digits|] == digits;
  }

  /** One unit, or a pair of surrogates that together are the code point. */
  lemma CodePointUnits(p: nat)
    requires p <= MAX_CODE_POINT
    ensures var u := FromCodePoint(p);
            if p < 0x10000 then u == [p]
            else |u| == 2 && 0xD800 <= u[0] <= 0xDBFF && 0xDC00 <= u[1] <= 0xDFFF && PairOf(u[0], u[1]) == p
  {
  }

  /** The code point of two surrogates. */
  function PairOf(high: int, low: int): int {
    0x10000 + 0x400 * (high - 0xD800) + (low - 0xDC00)
  }

  // ----- the passes

  /** Which pass decodes the unit; a bare one needs none. */
  function PassOf(u: Spelled): nat {
    match u
    case Bare(_) => 0
    case Named(c) => if c == LT then 1 else if c == GT then 2 else if c == QUOT then 3 else if c == APOS then 4 else 7
    case Numeric(_, hex) => if hex then 6 else 5
  }

  /** The unit after the first `pass` passes. */
  function Shown(u: Spelled, pass: nat): Text
    requires IsPoint(u)
  {
    if PassOf(u) <= pass then Meaning(u) else Written(u)
  }

  function ShownAll(us: seq<Spelled>, pass: nat): Text
    requires AllPoints(us)
  {
    if us == [] then [] else Shown(us[0], pass) + ShownAll(us[1..], pass)
  }

  /** Decoded units hold no ampersand before the last pass, and written references hold one at their front. */
  lemma ShownShape(u: Spelled, pass: nat)
    requires Sound(u) && IsPoint(u)
    ensures PassOf(u) <= pass && pass < 7 ==> AMP !in Shown(u, pass)
    ensures PassOf(u) > pass ==>
              && |Shown(u, pass)| >= 4 && Shown(u, pass)[0] == AMP && AMP !in Shown(u, pass)[1..]
              && (u.Numeric? <==> Shown(u, pass)[1] == HASH)
  {
    if u.Numeric? && PassOf(u) > pass {
      var w := Written(u);
      forall i | 1 <= i < |w|
        ensures w[i] != AMP
      {
        var n := |Opening(u.hex)|;
        if n <= i < n + |u.digits| {
          assert w[i] == u.digits[i - n];
        }
      }
    } else if u.Numeric? {
      CodePointUnits(Number(u.digits, u.hex));
    }
  }

  /** A pass for a named entity decodes that one and nothing else. */
  lemma {:induction false} NamedPass(us: seq<Spelled>, c: CodeUnit)
    requires AllSound(us) && AllPoints(us) && c in NAMES
    ensures var pass := PassOf(Named(c));
            ReplaceAll(ShownAll(us, pass - 1), NAMES[c], [c]) == ShownAll(us, pass)
  {
    var pass := PassOf(Named(c));
    if us != [] {
      var (u, rest) := (us[0], ShownAll(us[1..], pass - 1));
      NamedPass(us[1..], c);
      ShownShape(u, pass - 1);
      if u == Named(c) {
        ReplaceHits(rest, NAMES[c], [c]);
      } else if PassOf(u) <= pass - 1 {
        ReplaceSkips(Shown(u, pass - 1), rest, NAMES[c], [c]);
      } else {
        EntityPasses(Written(u), rest, NAMES[c], [c]);
      }
    }
  }

  function Prepend(u: Text, decoded: Option<Text>): Option<Text> {
    if decoded.None? then None else Some(u + decoded.value)
  }

  lemma PrependNothing(decoded: Option<Text>)
    ensures Prepend([], decoded) == decoded
  {
    assert decoded.Some? ==> [] + decoded.value == decoded.value;
  }

  lemma {:induction false} NumericSkipsAny(u: Text, t: Text, hex: bool)
    requires AMP !in u
    ensures DecodeNumeric(u + t, hex) == Prepend(u, DecodeNumeric(t, hex))
  {
    if u == [] {
      assert u + t == t;
      PrependNothing(DecodeNumeric(t, hex));
    } else {
      assert (u + t)[0] == u[0] && (u + t)[1..] == u[1..] + t;
      NumericSkipsAny(u[1..], t, hex);
      var rest := DecodeNumeric(t, hex);
      if rest.Some? {
        Unfold(u, rest.value);
      }
    }
  }

  /** What begins no reference of this kind is copied. */
  lemma NumericLeaves(w: Text, t: Text, hex: bool)
    requires w != [] && AMP !in w[1..] && ReferenceAt(w + t, hex).None?
    ensures DecodeNumeric(w + t, hex) == Prepend(w, DecodeNumeric(t, hex))
  {
    assert (w + t)[0] == w[0] && (w + t)[1..] == w[1..] + t;
    NumericSkipsAny(w[1..], t, hex);
    var rest := DecodeNumeric(t, hex);
    if rest.Some? {
      Unfold(w, rest.value);
    }
  }

  lemma {:induction false} RunOfAny(digits: Text, rest: Text, hex: bool)
    requires (forall i | 0 <= i < |digits| :: IsDigit(digits[i], hex)) && (rest == [] || !IsDigit(rest[0], hex))
    ensures DigitRun(digits + rest, hex) == |digits|
  {
    if digits == [] {
      assert digits + rest == rest;
    } else {
      assert (digits + rest)[1..] == digits[1..] + rest;
      RunOfAny(digits[1..], rest, hex);
    }
  }

  lemma ReferenceIs(u: Spelled, t: Text)
    requires u.Numeric? && u.digits != [] && forall i | 0 <= i < |u.digits| :: IsDigit(u.digits[i], u.hex)
    ensures Number(u.digits, u.hex) >= 0
    ensures ReferenceAt(Written(u) + t, u.hex) == Some((Number(u.digits, u.hex), |Written(u)|))
  {
    var (w, n) := (Written(u), |Opening(u.hex)|);
    var s := w + t;
    DigitsPositive(u.digits, u.hex);
    assert s[n..] == u.digits + ([SEMI] + t) && s[n..n + |u.digits|] == u.digits;
    RunOfAny(u.digits, [SEMI] + t, u.hex);
    assert s[n + |u.digits|] == SEMI;
    assert OpensReference(s, u.hex) && |w| == n + |u.digits| + 1;
    hide Number;
    hide DigitRun;
    hide Written;
  }

  /** A reference of this kind is replaced by its code point, or throws. */
  lemma NumericHits(u: Spelled, t: Text)
    requires u.Numeric? && u.digits != [] && forall i | 0 <= i < |u.digits| :: IsDigit(u.digits[i], u.hex)
    ensures Number(u.digits, u.hex) >= 0
    ensures DecodeNumeric(Written(u) + t, u.hex)
            == if IsPoint(u) then Prepend(Meaning(u), DecodeNumeric(t, u.hex)) else None
  {
    ReferenceIs(u, t);
    NumericUnfolds(Written(u), t, u.hex);
  }

  lemma NumericUnfolds(w: Text, t: Text, hex: bool)
    requires w != [] && ReferenceAt(w + t, hex).Some? && ReferenceAt(w + t, hex).value.1 == |w|
    ensures var n := ReferenceAt(w + t, hex).value.0;
            DecodeNumeric(w + t, hex)
            == if n > MAX_CODE_POINT then None else Prepend(FromCodePoint(n), DecodeNumeric(t, hex))
  {
    hide ReferenceAt;
    hide FromCodePoint;
    assert (w + t)[|w|..] == t;
  }

  lemma NotOfThisKind(u: Spelled, t: Text, hex: bool)
    requires Sound(u) && (u.Named? || (u.Numeric? && u.hex != hex)) && !(u.Numeric? && hex)
    ensures ReferenceAt(Written(u) + t, hex).None?
  {
    var s := Written(u) + t;
    if u.Numeric? {
      var w := Written(u);
      assert w[2] == LOWER_X && s[2] == w[2];
      assert s[2..][0] == s[2];
    } else {
      assert s[1] == Written(u)[1];
    }
  }

  /** The two numeric passes, the decimal one first. */
  lemma {:induction false} NumericPass(us: seq<Spelled>, hex: bool)
    requires AllSound(us) && AllPoints(us)
    ensures var pass := PassOf(Numeric([], hex));
            DecodeNumeric(ShownAll(us, pass - 1), hex) == Some(ShownAll(us, pass))
  {
    var pass := PassOf(Numeric([], hex));
    if us != [] {
      var (u, rest) := (us[0], ShownAll(us[1..], pass - 1));
      NumericPass(us[1..], hex);
      ShownShape(u, pass - 1);
      if u.Numeric? && u.hex == hex {
        NumericHits(u, rest);
      } else if PassOf(u) <= pass - 1 {
        NumericSkipsAny(Shown(u, pass - 1), rest, hex);
      } else {
        NotOfThisKind(u, rest, hex);
        NumericLeaves(Written(u), rest, hex);
      }
    }
  }

  lemma {:induction false} ShownEnds(us: seq<Spelled>)
    requires AllSound(us) && AllPoints(us)
    ensures ShownAll(us, 0) == WrittenAll(us) && ShownAll(us, 7) == MeaningAll(us)
  {
    if us != [] {
      ShownEnds(us[1..]);
    }
  }

  /** However a text is spelled, it is read as what the spelling means. */
  lemma DecodeSpelled(us: seq<Spelled>)
    requires AllSound(us) && AllPoints(us)
    ensures Decode(WrittenAll(us)) == Some(MeaningAll(us))
  {
    hide ReplaceAll;
    hide DecodeNumeric;
    hide ShownAll;
    hide WrittenAll;
    hide MeaningAll;
    ShownEnds(us);
    NamedPass(us, LT);
    NamedPass(us, GT);
    NamedPass(us, QUOT);
    NamedPass(us, APOS);
    NumericPass(us, false);
    NumericPass(us, true);
    NamedPass(us, AMP);
  }

  /** An ampersand by its number is read twice: `&#38;amp;` is one ampersand and not the text `&amp;`. */
  lemma AmpersandReadTwice()
    ensures Decode([AMP, HASH, 0x33, 0x38, SEMI] + [0x61, 0x6D, 0x70, SEMI]) == Some([AMP])
  {
    var s := [AMP, HASH, 0x33, 0x38, SEMI] + [0x61, 0x6D, 0x70, SEMI];
    ReplaceSkipsHash(s, LT_ENTITY, [LT]);
    ReplaceSkipsHash(s, GT_ENTITY, [GT]);
    ReplaceSkipsHash(s, QUOT_ENTITY, [QUOT]);
    ReplaceSkipsHash(s, APOS_ENTITY, [APOS]);
    FirstReading();
    SecondReading();
    hide ReplaceAll;
    hide DecodeNumeric;
  }

  lemma FirstReading()
    ensures DecodeNumeric([AMP, HASH, 0x33, 0x38, SEMI] + [0x61, 0x6D, 0x70, SEMI], false) == Some(AMP_ENTITY)
  {
    var (u, t) := (Numeric([0x33, 0x38], false), [0x61, 0x6D, 0x70, SEMI]);
    assert Written(u) == [AMP, HASH, 0x33, 0x38, SEMI];
    assert [0x33, 0x38][..1] == [0x33] && [0x33][..0] == [];
    assert Number([0x33], false) == 3 && Number(u.digits, false) == 38;
    NumericHits(u, t);
    PlainNumeric(t, false);
    hide DecodeNumeric;
    assert [AMP] + t == AMP_ENTITY;
  }

  lemma SecondReading()
    ensures DecodeNumeric(AMP_ENTITY, true) == Some(AMP_ENTITY) && ReplaceAll(AMP_ENTITY, AMP_ENTITY, [AMP]) == [AMP]
  {
    PlainNumeric(AMP_ENTITY[1..], true);
    NumericCopies(AMP, AMP_ENTITY[1..], true);
    assert [AMP] + AMP_ENTITY[1..] == AMP_ENTITY && AMP_ENTITY + [] == AMP_ENTITY;
    hide DecodeNumeric;
    ReplaceHits([], AMP_ENTITY, [AMP]);
  }

  lemma PlainNumeric(t: Text, hex: bool)
    requires AMP !in t
    ensures DecodeNumeric(t, hex) == Some(t)
  {
    NumericSkips(t, [], hex);
    assert t + [] == t;
  }

  // ----- attributes in any style

  /** An attribute with white space around its equals sign, in either kind of quotes. */
  datatype Attr = Attr(name: Text, before: Text, after: Text, quote: CodeUnit, value: seq<Spelled>)

  predicate Fits(a: Attr) {
    && RT.PlainName(a.name) && Blank(a.before) && Blank(a.after) && (a.quote == QUOT || a.quote == APOS)
    && AllSound(a.value) && AllPoints(a.value) && a.quote !in WrittenAll(a.value)
  }

  function Style(a: Attr): Text {
    a.name + (a.before + ([EQUALS] + (a.after + ([a.quote] + WrittenAll(a.value) + [a.quote]))))
  }

  lemma {:induction false} BlankSkipped(gap: Text, s: Text)
    requires Blank(gap) && (s == [] || !IsSpace(s[0]))
    ensures TrimStart(gap + s) == s
  {
    if gap == [] {
      assert gap + s == s;
    } else {
      assert (gap + s)[1..] == gap[1..] + s && gap[0] in gap && gap == [gap[0]] + gap[1..];
      BlankSkipped(gap[1..], s);
    }
  }

  lemma QuotedSpaced(before: Text, after: Text, quote: CodeUnit, value: Text, t: Text)
    requires Blank(before) && Blank(after) && (quote == QUOT || quote == APOS) && quote !in value
    ensures var w := before + ([EQUALS] + (after + ([quote] + value + [quote])));
            QuotedAt(w + t) == Some((value, |w|))
  {
    hide QuotedAt;
    hide TrimStart;
    hide IndexOfUnit;
    var quoted := [quote] + value + [quote];
    var equals := [EQUALS] + (after + quoted);
    assert before + equals + t == before + (equals + t);
    EqualsPart(after, quoted, t);
    BlankSkipped(before, equals + t);
    QuotedPart(quote, value, t);
    BlankSkipped(after, quoted + t);
    QuotedUnfolds(before + equals + t, equals + t, quoted + t, |value|);
  }

  lemma EqualsPart(after: Text, quoted: Text, t: Text)
    ensures var e := [EQUALS] + (after + quoted) + t; e[0] == EQUALS && e[1..] == after + (quoted + t)
  {
  }

  lemma QuotedPart(quote: CodeUnit, value: Text, t: Text)
    requires quote !in value
    ensures var q := [quote] + value + [quote] + t;
            q[0] == quote && IndexOfUnit(q[1..], quote) == Some(|value|) && q[1..][..|value|] == value
  {
    var q := [quote] + value + [quote] + t;
    assert q[1..] == value + [quote] + t;
    RT.IndexOfUnitAfter(value, quote, t);
  }

  lemma QuotedUnfolds(s: Text, equals: Text, quoted: Text, n: nat)
    requires TrimStart(s) == equals != [] && equals[0] == EQUALS && TrimStart(equals[1..]) == quoted != []
    requires (quoted[0] == QUOT || quoted[0] == APOS) && IndexOfUnit(quoted[1..], quoted[0]) == Some(n)
    ensures QuotedAt(s).Some? && QuotedAt(s).value.0 == quoted[1..][..n]
    ensures QuotedAt(s).value.1 == |s| - |quoted| + n + 2
  {
    hide TrimStart;
    hide IndexOfUnit;
    hide IsSpace;
  }

  lemma StyledAt(a: Attr, t: Text)
    requires Fits(a)
    ensures AttrAt(Style(a) + t) == Some((a.name, WrittenAll(a.value), |Style(a)|))
  {
    hide RT.PlainName;
    hide QuotedAt;
    hide NameRun;
    hide AttrAt;
    var value := WrittenAll(a.value);
    hide WrittenAll;
    var w := a.before + ([EQUALS] + (a.after + ([a.quote] + value + [a.quote])));
    QuotedSpaced(a.before, a.after, a.quote, value, t);
    TailIsNoName(a.before, [EQUALS] + (a.after + ([a.quote] + value + [a.quote])), t);
    NameAlone(a.name, w + t);
    assert Style(a) + t == a.name + (w + t);
    RT.AttrAtIs(Style(a) + t, a.name, w + t);
  }

  lemma NameAlone(name: Text, tail: Text)
    requires RT.PlainName(name) && tail != [] && !IsNameUnit(tail[0])
    ensures var s := name + tail;
            NameRun(s) == |name| && s[..NameRun(s)] == name && s[NameRun(s)..] == tail && name != []
  {
    RT.NameRunIs(name, tail);
  }

  lemma TailIsNoName(before: Text, equals: Text, t: Text)
    requires Blank(before) && equals != [] && equals[0] == EQUALS
    ensures !IsNameUnit((before + equals + t)[0])
  {
    var s := before + equals + t;
    assert before != [] ==> s[0] == before[0] && before[0] in before;
    assert before == [] ==> s[0] == EQUALS;
  }

  function StyleAll(attrs: seq<Attr>): Text {
    if attrs == [] then [] else [SPACE] + (Style(attrs[0]) + StyleAll(attrs[1..]))
  }

  predicate AllFit(attrs: seq<Attr>) {
    forall a | a in attrs :: Fits(a)
  }

  function Meant(attrs: seq<Attr>): seq<(Text, Text)>
    requires AllFit(attrs)
  {
    if attrs == [] then []
    else
      assert Fits(attrs[0]);
      [(attrs[0].name, MeaningAll(attrs[0].value))] + Meant(attrs[1..])
  }

  /** Attributes in any style and spelling are read as their names and what their values mean. */
  lemma {:induction false} StyledRead(attrs: seq<Attr>, sofar: map<Text, Text>)
    requires AllFit(attrs)
    ensures AttrsFrom(StyleAll(attrs), sofar) == Some(RT.AttrMap(Meant(attrs), sofar))
  {
    if attrs != [] {
      var (a, rest) := (attrs[0], StyleAll(attrs[1..]));
      assert Fits(a);
      var s := Style(a) + rest;
      var value := MeaningAll(a.value);
      RT.SpaceSkipped(s, sofar);
      StyledAt(a, rest);
      DecodeSpelled(a.value);
      assert s != [] && NextAttr(s, sofar) == Some((|Style(a)|, Assign(sofar, a.name, value)));
      assert s[|Style(a)|..] == rest;
      StyledRead(attrs[1..], Assign(sofar, a.name, value));
      assert Meant(attrs)[1..] == Meant(attrs[1..]);
    }
  }
}
