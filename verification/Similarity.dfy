/** The similarity score (src/lib/aiquality.ts): half token overlap, half edit distance, in [0, 1]. */
module Similarity {
  import opened JsText
  import opened JsNumber
  import TextDistance

  /**
   * `s.toLowerCase()`. Lowering may depend on context and change lengths, so any function on texts may stand for it.
   */
  type Lowering = Text -> Text

  /** Every maximal run of separators becomes one space: `s.replace(/separators+/g, " ")`. */
  function ReplaceRuns(s: Text, separator: CodeUnit -> bool, inRun: bool := false): (r: Text)
    ensures forall c | c in r :: c == SPACE || (c in s && !separator(c))
  {
    if s == [] then []
    else if !separator(s[0]) then [s[0]] + ReplaceRuns(s[1..], separator, false)
    else if inRun then ReplaceRuns(s[1..], separator, true)
    else [SPACE] + ReplaceRuns(s[1..], separator, true)
  }

  /** `(s ?? "").trim().replace(/\s+/g, " ")`. */
  function Normalize(s: Text): Text {
    ReplaceRuns(Trim(s), IsSpace)
  }

  /** The class `[0-9a-zÀ-￿]`, which the `i` flag widens by the capitals and the micro sign. */
  predicate IsTokenUnit(c: CodeUnit) {
    || 0x30 <= c <= 0x39 || 0x61 <= c <= 0x7A || 0x41 <= c <= 0x5A || c == 0xB5 || 0xC0 <= c
  }

  /** `s.split(/\s+/).filter(Boolean)`: the words between runs of white space, `word` being the one in progress. */
  function Words(s: Text, word: Text := []): (words: seq<Text>)
    ensures forall w | w in words :: w != [] && forall c | c in w :: c in word || (c in s && !IsSpace(c))
  {
    if s == [] then (if word == [] then [] else [word])
    else if IsSpace(s[0]) then (if word == [] then [] else [word]) + Words(s[1..], [])
    else Words(s[1..], word + [s[0]])
  }

  function Tokenize(s: Text, lower: Lowering): (tokens: seq<Text>)
    ensures forall t | t in tokens :: t != [] && forall c | c in t :: c in lower(s) && IsTokenUnit(c) && !IsSpace(c)
  {
    Words(ReplaceRuns(lower(s), (c: CodeUnit) => !IsTokenUnit(c)))
  }

  function TokenSet(s: Text, lower: Lowering): set<Text> {
    set t | t in Tokenize(s, lower)
  }

  // ----- what tokens and normal forms are

  /** The units of a token, one range after the other. */
  lemma TokenUnits(c: CodeUnit)
    ensures IsTokenUnit(c)
            <==> || '0' as int <= c <= '9' as int || 'a' as int <= c <= 'z' as int || 'A' as int <= c <= 'Z' as int
                 || c == 0xB5 || 0xC0 <= c <= 0xFFFF
  {
  }

  /** A maximal stretch of units that do not separate. */
  ghost predicate MaximalRun(s: Text, separator: CodeUnit -> bool, t: Text) {
    exists i: nat, j: nat :: i < j <= |s| && IsRun(s, separator, i, j) && s[i..j] == t
  }

  predicate IsRun(s: Text, separator: CodeUnit -> bool, i: nat, j: nat)
    requires i <= j <= |s|
  {
    && (forall k | i <= k < j :: !separator(s[k]))
    && (i == 0 || separator(s[i - 1])) && (j == |s| || separator(s[j]))
  }

  /** The words between separators of any kind. */
  function Runs(s: Text, separator: CodeUnit -> bool, word: Text): seq<Text> {
    if s == [] then (if word == [] then [] else [word])
    else if separator(s[0]) then (if word == [] then [] else [word]) + Runs(s[1..], separator, [])
    else Runs(s[1..], separator, word + [s[0]])
  }

  const Separates: CodeUnit -> bool := (c: CodeUnit) => !IsTokenUnit(c) || IsSpace(c)

  /** Replacing the separators by spaces and splitting at white space is splitting at both. */
  lemma {:induction false} WordsAreRuns(s: Text, inRun: bool, word: Text)
    requires inRun ==> word == []
    ensures Words(ReplaceRuns(s, (c: CodeUnit) => !IsTokenUnit(c), inRun), word) == Runs(s, Separates, word)
  {
    var separator := (c: CodeUnit) => !IsTokenUnit(c);
    if s != [] {
      var (c, rest) := (s[0], s[1..]);
      if IsTokenUnit(c) {
        var tail := ReplaceRuns(rest, separator, false);
        assert ([c] + tail)[1..] == tail;
        WordsAreRuns(rest, false, if IsSpace(c) then [] else word + [c]);
      } else {
        var tail := ReplaceRuns(rest, separator, true);
        assert ([SPACE] + tail)[1..] == tail;
        WordsAreRuns(rest, true, []);
        assert [] + Runs(rest, Separates, []) == Runs(rest, Separates, []);
      }
    }
  }

  /** The word in progress, put back in front of the text, makes no difference. */
  lemma {:induction false} RunsAreMaximal(s: Text, separator: CodeUnit -> bool, word: Text, t: Text)
    requires forall k | 0 <= k < |word| :: !separator(word[k])
    ensures t in Runs(s, separator, word) <==> MaximalRun(word + s, separator, t)
    decreases |s|
  {
    var whole := word + s;
    if s == [] {
      OnlyRun(word, separator, t);
      assert whole == word;
    } else if separator(s[0]) {
      RunsAreMaximal(s[1..], separator, [], t);
      assert [] + s[1..] == s[1..];
      RunsSplit(word, s, separator, t);
    } else {
      RunsAreMaximal(s[1..], separator, word + [s[0]], t);
      assert whole == word + [s[0]] + s[1..];
    }
  }

  lemma OnlyRun(word: Text, separator: CodeUnit -> bool, t: Text)
    requires forall k | 0 <= k < |word| :: !separator(word[k])
    ensures MaximalRun(word, separator, t) <==> word != [] && t == word
  {
    if word != [] {
      assert IsRun(word, separator, 0, |word|) && word[0..|word|] == word;
    }
  }

  lemma RunBehind(whole: Text, separator: CodeUnit -> bool, n: nat, i: nat, j: nat)
    requires 0 < n <= |whole| && separator(whole[n - 1]) && i <= j <= |whole| - n
    ensures IsRun(whole, separator, n + i, n + j) <==> IsRun(whole[n..], separator, i, j)
    ensures whole[n + i..n + j] == whole[n..][i..j]
  {
    var rest := whole[n..];
    assert forall k | 0 <= k < |rest| :: rest[k] == whole[n + k];
    assert (forall k | n + i <= k < n + j :: !separator(whole[k])) <==> forall k | i <= k < j :: !separator(rest[k])
    by {
      if forall k | i <= k < j :: !separator(rest[k]) {
        forall k | n + i <= k < n + j
          ensures !separator(whole[k])
        {
          assert rest[k - n] == whole[k];
        }
      }
    }
  }

  /** At the first separator the text falls apart: the word before it is a run, and the others are those behind it. */
  lemma RunsSplit(word: Text, s: Text, separator: CodeUnit -> bool, t: Text)
    requires s != [] && separator(s[0]) && forall k | 0 <= k < |word| :: !separator(word[k])
    ensures MaximalRun(word + s, separator, t) <==> (word != [] && t == word) || MaximalRun(s[1..], separator, t)
  {
    var (whole, n) := (word + s, |word| + 1);
    assert whole[|word|] == s[0] && whole[n..] == s[1..] && whole[0..|word|] == word;
    if word != [] {
      assert IsRun(whole, separator, 0, |word|);
    }
    RunsBehind(whole, separator, n, t);
    if i: nat, j: nat :| i < j <= |whole| && IsRun(whole, separator, i, j) && whole[i..j] == t && i < n {
      assert i == 0 && j == |word|;
    }
  }

  lemma RunsBehind(whole: Text, separator: CodeUnit -> bool, n: nat, t: Text)
    requires 0 < n <= |whole| && separator(whole[n - 1])
    ensures MaximalRun(whole[n..], separator, t)
            <==> exists i: nat, j: nat ::
                   n <= i < j <= |whole| && IsRun(whole, separator, i, j) && whole[i..j] == t
  {
    hide IsRun;
    if i: nat, j: nat :| i < j <= |whole[n..]| && IsRun(whole[n..], separator, i, j) && whole[n..][i..j] == t {
      RunBehind(whole, separator, n, i, j);
    }
    if i: nat, j: nat :| n <= i < j <= |whole| && IsRun(whole, separator, i, j) && whole[i..j] == t {
      RunBehind(whole, separator, n, i - n, j - n);
    }
  }

  /**
   * The tokens of a text are the maximal stretches of its lowered form that hold token units and no white space, all of
   * them and nothing else.
   */
  lemma TokensIff(s: Text, lower: Lowering, t: Text)
    ensures t in Tokenize(s, lower) <==> MaximalRun(lower(s), Separates, t)
  {
    WordsAreRuns(lower(s), false, []);
    RunsAreMaximal(lower(s), Separates, [], t);
    assert [] + lower(s) == lower(s);
  }

  /** A word holds no white space, and there is something to it. */
  predicate IsWord(w: Text) {
    w != [] && forall c | c in w :: !IsSpace(c)
  }

  /** A text as words with white space around them: `first` at the front, and `gaps[k]` behind the k-th word. */
  function Spread(first: Text, words: seq<Text>, gaps: seq<Text>): Text
    requires |gaps| == |words|
  {
    first + Behind(words, gaps)
  }

  function Behind(words: seq<Text>, gaps: seq<Text>): Text
    requires |gaps| == |words|
  {
    if words == [] then [] else words[0] + (gaps[0] + Behind(words[1..], gaps[1..]))
  }

  /** Words proper, white space around them, and some of it between any two. */
  predicate Fit(words: seq<Text>, gaps: seq<Text>) {
    && |gaps| == |words| && (forall k | 0 <= k < |words| :: IsWord(words[k]) && Blank(gaps[k]))
    && forall k | 0 <= k < |words| - 1 :: gaps[k] != []
  }

  lemma FitRest(words: seq<Text>, gaps: seq<Text>)
    requires Fit(words, gaps) && words != []
    ensures Fit(words[1..], gaps[1..]) && IsWord(words[0]) && Blank(gaps[0]) && (|words| > 1 ==> gaps[0] != [])
  {
  }

  /** Every text is spread from some words. */
  lemma {:induction false} EveryTextSpreads(s: Text) returns (first: Text, words: seq<Text>, gaps: seq<Text>)
    ensures Blank(first) && Fit(words, gaps) && s == Spread(first, words, gaps)
  {
    if s == [] {
      return [], [], [];
    }
    var tail;
    tail, words, gaps := EveryTextSpreads(s[1..]);
    assert s == [s[0]] + s[1..];
    if IsSpace(s[0]) {
      first := [s[0]] + tail;
    } else if words != [] && tail == [] {
      var longer := [s[0]] + words[0];
      assert words[0] + (gaps[0] + Behind(words[1..], gaps[1..])) == s[1..];
      var more := [longer] + words[1..];
      assert more[1..] == words[1..] && IsWord(words[0]);
      assert Behind(more, gaps) == longer + (gaps[0] + Behind(words[1..], gaps[1..]));
      first, words := [], more;
    } else {
      var (ws, gs) := ([[s[0]]] + words, [tail] + gaps);
      assert ws[1..] == words && gs[1..] == gaps;
      first, words, gaps := [], ws, gs;
    }
  }

  lemma {:induction false} WordTaken(w: Text, rest: Text, word: Text)
    requires forall c | c in w :: !IsSpace(c)
    ensures Words(w + rest, word) == Words(rest, word + w)
  {
    if w == [] {
      assert w + rest == rest && word + w == word;
    } else {
      assert (w + rest)[1..] == w[1..] + rest && w[0] in w;
      WordTaken(w[1..], rest, word + [w[0]]);
      assert word + [w[0]] + w[1..] == word + w;
    }
  }

  lemma {:induction false} GapTaken(gap: Text, rest: Text)
    requires Blank(gap)
    ensures Words(gap + rest) == Words(rest)
  {
    if gap == [] {
      assert gap + rest == rest;
    } else {
      assert (gap + rest)[1..] == gap[1..] + rest && gap[0] in gap;
      assert gap == [gap[0]] + gap[1..];
      GapTaken(gap[1..], rest);
      assert [] + Words(gap[1..] + rest) == Words(gap[1..] + rest);
    }
  }

  /** White space, or the end, finishes a word. */
  lemma WordEnds(w: Text, gap: Text, rest: Text)
    requires w != [] && Blank(gap) && (gap != [] || rest == [])
    ensures Words(gap + rest, w) == [w] + Words(rest)
  {
    if gap == [] {
      assert gap + rest == [];
      assert [w] + [] == [w];
    } else {
      assert (gap + rest)[1..] == gap[1..] + rest && gap[0] in gap;
      assert gap == [gap[0]] + gap[1..];
      GapTaken(gap[1..], rest);
    }
  }

  /** Splitting at white space gives back the words that a text was spread from. */
  lemma WordsOfSpread(first: Text, words: seq<Text>, gaps: seq<Text>)
    requires Blank(first) && Fit(words, gaps)
    ensures Words(Spread(first, words, gaps)) == words
  {
    GapTaken(first, Behind(words, gaps));
    WordsBehind(words, gaps);
  }

  lemma {:induction false} WordsBehind(words: seq<Text>, gaps: seq<Text>)
    requires Fit(words, gaps)
    ensures Words(Behind(words, gaps)) == words
    decreases |words|
  {
    if words != [] {
      var (w, rest) := (words[0], Behind(words[1..], gaps[1..]));
      FitRest(words, gaps);
      WordTaken(w, gaps[0] + rest, []);
      assert [] + w == w;
      WordEnds(w, gaps[0], rest);
      WordsBehind(words[1..], gaps[1..]);
      assert words == [w] + words[1..];
    }
  }

  lemma {:induction false} SolidKept(w: Text, rest: Text, inRun: bool)
    requires w != [] && forall c | c in w :: !IsSpace(c)
    ensures ReplaceRuns(w + rest, IsSpace, inRun) == w + ReplaceRuns(rest, IsSpace, false)
  {
    hide ReplaceRuns;
    SolidFirst(w, rest, inRun);
    if |w| == 1 {
      assert w[1..] + rest == rest && [w[0]] == w;
    } else {
      SolidKept(w[1..], rest, false);
      PutFirst(w, ReplaceRuns(rest, IsSpace, false));
    }
  }

  lemma PutFirst(w: Text, rest: Text)
    requires w != []
    ensures [w[0]] + (w[1..] + rest) == w + rest
  {
  }

  lemma SolidFirst(w: Text, rest: Text, inRun: bool)
    requires w != [] && forall c | c in w :: !IsSpace(c)
    ensures ReplaceRuns(w + rest, IsSpace, inRun) == [w[0]] + ReplaceRuns(w[1..] + rest, IsSpace, false)
  {
    assert (w + rest)[1..] == w[1..] + rest && (w + rest)[0] == w[0] && w[0] in w;
  }

  lemma {:induction false} GapReplaced(gap: Text, rest: Text, inRun: bool)
    requires Blank(gap)
    ensures ReplaceRuns(gap + rest, IsSpace, inRun)
            == (if gap == [] || inRun then [] else [SPACE])
               + ReplaceRuns(rest, IsSpace, inRun || gap != [])
  {
    if gap == [] {
      assert gap + rest == rest;
    } else {
      assert (gap + rest)[1..] == gap[1..] + rest && gap[0] in gap;
      assert gap == [gap[0]] + gap[1..];
      GapReplaced(gap[1..], rest, true);
      assert [] + ReplaceRuns(rest, IsSpace, true) == ReplaceRuns(rest, IsSpace, true);
    }
  }

  /** Words with white space between them, and none at the end, become the words with single spaces between them. */
  lemma {:induction false} JoinedBySpaces(words: seq<Text>, gaps: seq<Text>, inRun: bool)
    requires Fit(words, gaps) && words != [] && gaps[|words| - 1] == []
    ensures ReplaceRuns(Behind(words, gaps), IsSpace, inRun) == Join(words, SPACE)
    decreases |words|
  {
    var (w, rest) := (words[0], Behind(words[1..], gaps[1..]));
    FitRest(words, gaps);
    SolidKept(w, gaps[0] + rest, inRun);
    if |words| == 1 {
      assert gaps[0] + rest == [] && w + [] == w;
    } else {
      GapReplaced(gaps[0], rest, false);
      JoinedBySpaces(words[1..], gaps[1..], true);
      assert w + ([SPACE] + Join(words[1..], SPACE)) == w + [SPACE] + Join(words[1..], SPACE);
    }
  }

  /**
   * The normal form of a text: its words, in order, with single spaces between them, however they were spaced. A blank
   * text has the empty one.
   */
  lemma NormalizeSpread(first: Text, words: seq<Text>, gaps: seq<Text>)
    requires Blank(first) && Fit(words, gaps)
    ensures Normalize(Spread(first, words, gaps)) == Join(words, SPACE)
  {
    if words == [] {
      assert first + [] == first;
      TrimFacts(first);
    } else {
      var (last, inner) := (gaps[|words| - 1], gaps[..|words| - 1] + [[]]);
      LastGap(words, gaps);
      BehindSolid(words, inner);
      assert Spread(first, words, gaps) == first + Behind(words, inner) + last;
      TrimPadded(first, Behind(words, inner), last);
      hide Trim;
      JoinedBySpaces(words, inner, false);
    }
  }

  lemma {:induction false} LastGap(words: seq<Text>, gaps: seq<Text>)
    requires words != [] && |gaps| == |words|
    ensures Behind(words, gaps) == Behind(words, gaps[..|words| - 1] + [[]]) + gaps[|words| - 1]
    decreases |words|
  {
    var inner := gaps[..|words| - 1] + [[]];
    var last := gaps[|words| - 1];
    BehindUnfolds(words, gaps);
    BehindUnfolds(words, inner);
    if |words| == 1 {
      assert Behind(words[1..], gaps[1..]) == [] == Behind(words[1..], inner[1..]);
      assert gaps[0] + [] == gaps[0] && inner[0] + [] == [] && words[0] + [] == words[0];
    } else {
      LastGap(words[1..], gaps[1..]);
      assert inner[1..] == gaps[1..][..|words| - 2] + [[]] && inner[0] == gaps[0];
      hide Behind;
      Regroup(words[0], gaps[0], Behind(words[1..], inner[1..]), last);
    }
  }

  lemma BehindUnfolds(words: seq<Text>, gaps: seq<Text>)
    requires words != [] && |gaps| == |words|
    ensures Behind(words, gaps) == words[0] + (gaps[0] + Behind(words[1..], gaps[1..]))
  {
  }

  lemma Regroup(w: Text, gap: Text, rest: Text, last: Text)
    ensures w + (gap + (rest + last)) == w + (gap + rest) + last
  {
  }

  lemma {:induction false} BehindSolid(words: seq<Text>, gaps: seq<Text>)
    requires |gaps| == |words| && words != [] && (forall k | 0 <= k < |words| :: IsWord(words[k]))
    requires gaps[|words| - 1] == []
    ensures var s := Behind(words, gaps); s != [] && !IsSpace(s[0]) && !IsSpace(s[|s| - 1])
    decreases |words|
  {
    var w := words[0];
    assert IsWord(w) && w[0] in w && w[|w| - 1] in w;
    if |words| == 1 {
      assert Behind(words, gaps) == w;
    } else {
      BehindSolid(words[1..], gaps[1..]);
    }
  }

  // ----- the score

  lemma Ratio(d: real, n: real)
    requires 0.0 <= d <= n && n > 0.0
    ensures 0.0 <= d / n <= 1.0 && (d / n == 0.0 <==> d == 0.0) && (d / n == 1.0 <==> d == n)
  {
    var q := d / n;
    assert q * n == d;
  }

  function Share(inter: nat, union: nat): (r: real)
    requires inter <= union
    ensures 0.0 <= r <= 1.0
    ensures r == 0.0 <==> inter == 0
  {
    if union == 0 then 0.0
    else
      Ratio(inter as real, union as real);
      inter as real / union as real
  }

  function Jaccard(ta: set<Text>, tb: set<Text>): (r: real)
    ensures 0.0 <= r <= 1.0
    ensures r == 0.0 <==> ta !! tb
  {
    SubsetSize(ta * tb, ta + tb);
    DisjointIff(ta, tb);
    Share(|ta * tb|, |ta + tb|)
  }

  lemma DisjointIff<T>(x: set<T>, y: set<T>)
    ensures |x * y| == 0 <==> x !! y
  {
    if x !! y {
      assert x * y == {};
    } else {
      var e :| e in x && e in y;
      assert e in x * y;
    }
  }

  lemma SubsetSize<T>(x: set<T>, y: set<T>)
    requires x <= y
    ensures |x| <= |y|
  {
    assert y == x + (y - x);
  }

  function NormLev(na: Text, nb: Text): (r: real)
    requires na != [] || nb != []
    ensures r <= 1.0
  {
    1.0 - TextDistance.Lev(na, nb) as real / TextDistance.Max(|na|, |nb|) as real
  }

  /** The blend of two normalised texts that differ and are both non-empty, before the clamps and the rounding. */
  function Blend(na: Text, nb: Text, lower: Lowering): real
    requires na != [] && nb != []
  {
    0.5 * Jaccard(TokenSet(na, lower), TokenSet(nb, lower)) + 0.5 * NormLev(na, nb)
  }

  /** The score of two normalised texts before rounding, without any clamp. */
  function Raw(na: Text, nb: Text, lower: Lowering): real {
    if na == nb then 1.0 else if na == [] || nb == [] then 0.0 else Blend(na, nb, lower)
  }

  function Score(a: Text, b: Text, lower: Lowering): real {
    RoundTo(Raw(Normalize(a), Normalize(b), lower), 10000.0)
  }

  function Clamp(x: real): (r: real)
    ensures 0.0 <= r <= 1.0 && (0.0 <= x <= 1.0 ==> r == x) && (x < 0.0 ==> r == 0.0) && (x > 1.0 ==> r == 1.0)
  {
    var atLeast0 := if x < 0.0 then 0.0 else x;
    if atLeast0 > 1.0 then 1.0 else atLeast0
  }

  /** The loop over one token set counts the tokens shared with the other. */
  method CountShared(ta: set<Text>, tb: set<Text>) returns (inter: nat)
    ensures inter == |ta * tb|
  {
    inter := 0;
    var rest := ta;
    while rest != {}
      invariant rest <= ta && inter == |(ta - rest) * tb|
      decreases rest
    {
      var tok :| tok in rest;
      OneMoreToken(ta, tb, rest, tok);
      rest := rest - {tok};
      if tok in tb { inter := inter + 1; }
    }
    assert ta - {} == ta;
  }

  lemma OneMoreToken(ta: set<Text>, tb: set<Text>, rest: set<Text>, tok: Text)
    requires tok in rest && rest <= ta
    ensures |(ta - (rest - {tok})) * tb| == |(ta - rest) * tb| + if tok in tb then 1 else 0
  {
    var (counted, after) := ((ta - rest) * tb, (ta - (rest - {tok})) * tb);
    if tok in tb {
      assert after == counted + {tok};
    } else {
      assert after == counted;
    }
  }

  /** The clamped computation of the source returns the unclamped score. */
  method Similarity(a: Text, b: Text, lower: Lowering) returns (score: real)
    ensures score == Score(a, b, lower)
  {
    var na, nb := Normalize(a), Normalize(b);
    RoundExact();
    if na == nb { return 1.0; }
    if |na| == 0 || |nb| == 0 { return 0.0; }
    var ta, tb := TokenSet(na, lower), TokenSet(nb, lower);
    var inter := CountShared(ta, tb);
    var union := |ta| + |tb| - inter;
    assert union == |ta + tb|;
    var jaccard := if union == 0 then 0.0 else inter as real / union as real;
    assert jaccard == Jaccard(ta, tb);
    var dist := TextDistance.Levenshtein(na, nb);
    var normLev := 1.0 - dist as real / TextDistance.Max(|na|, |nb|) as real;
    BlendRange(na, nb, lower);
    var blend := 0.5 * jaccard + 0.5 * (if normLev < 0.0 then 0.0 else normLev);
    assert blend == Blend(na, nb, lower);
    hide Blend;
    hide Clamp;
    return RoundTo(Clamp(blend), 10000.0);
  }

  // ----- what the score promises

  lemma RoundExact()
    ensures RoundTo(1.0, 10000.0) == 1.0 && RoundTo(0.0, 10000.0) == 0.0
  {
    assert (10000.0 + 0.5).Floor == 10000 && (0.0 + 0.5).Floor == 0;
  }

  lemma NormLevRange(na: Text, nb: Text)
    requires na != [] || nb != []
    ensures 0.0 <= NormLev(na, nb) <= 1.0
    ensures NormLev(na, nb) == 1.0 <==> na == nb
    ensures NormLev(na, nb) == 0.0 <==> TextDistance.Lev(na, nb) == TextDistance.Max(|na|, |nb|)
    ensures NormLev(na, nb) == NormLev(nb, na)
  {
    TextDistance.LevIsMetric(na, nb, nb);
    var (d, n) := (TextDistance.Lev(na, nb) as real, TextDistance.Max(|na|, |nb|) as real);
    Ratio(d, n);
  }

  /** The blend is in [0, 1), so neither clamp can act on it. */
  lemma BlendRange(na: Text, nb: Text, lower: Lowering)
    requires na != [] && nb != [] && na != nb
    ensures 0.0 <= NormLev(na, nb) && 0.0 <= Blend(na, nb, lower) < 1.0
    ensures Clamp(Blend(na, nb, lower)) == Blend(na, nb, lower)
  {
    NormLevRange(na, nb);
  }

  lemma RawSymmetric(na: Text, nb: Text, lower: Lowering)
    ensures Raw(na, nb, lower) == Raw(nb, na, lower)
  {
    if na != nb && na != [] && nb != [] {
      NormLevRange(na, nb);
      JaccardSymmetric(TokenSet(na, lower), TokenSet(nb, lower));
    }
  }

  lemma JaccardSymmetric(ta: set<Text>, tb: set<Text>)
    ensures Jaccard(ta, tb) == Jaccard(tb, ta)
  {
    assert ta * tb == tb * ta && ta + tb == tb + ta;
  }

  lemma ScoreSymmetric(a: Text, b: Text, lower: Lowering)
    ensures Score(a, b, lower) == Score(b, a, lower)
  {
    RawSymmetric(Normalize(a), Normalize(b), lower);
  }

  lemma RawRange(na: Text, nb: Text, lower: Lowering)
    ensures 0.0 <= Raw(na, nb, lower) <= 1.0
    ensures Raw(na, nb, lower) == 1.0 <==> na == nb
  {
    if na != nb && na != [] && nb != [] {
      BlendRange(na, nb, lower);
    }
  }

  lemma ScoreRange(a: Text, b: Text, lower: Lowering)
    ensures 0.0 <= Score(a, b, lower) <= 1.0
  {
    var raw := Raw(Normalize(a), Normalize(b), lower);
    RawRange(Normalize(a), Normalize(b), lower);
    RoundExact();
    RoundMonotone(0.0, raw);
    RoundMonotone(raw, 1.0);
  }

  lemma RoundMonotone(x: real, y: real)
    requires x <= y
    ensures RoundTo(x, 10000.0) <= RoundTo(y, 10000.0)
  {
    assert (x * 10000.0 + 0.5).Floor <= (y * 10000.0 + 0.5).Floor;
  }

  /** Before rounding, 1 means equal after normalisation; after it, 1 also covers a score within half a step of 1. */
  lemma ScoreOneIff(a: Text, b: Text, lower: Lowering)
    ensures var raw := Raw(Normalize(a), Normalize(b), lower);
            && (raw == 1.0 <==> Normalize(a) == Normalize(b))
            && (Score(a, b, lower) == 1.0 <==> raw >= 0.99995)
  {
    RawRange(Normalize(a), Normalize(b), lower);
    RoundsToOneIff(Raw(Normalize(a), Normalize(b), lower));
  }

  lemma RoundsToOneIff(raw: real)
    requires 0.0 <= raw <= 1.0
    ensures RoundTo(raw, 10000.0) == 1.0 <==> raw >= 0.99995
  {
    var n := (raw * 10000.0 + 0.5).Floor;
    assert RoundTo(raw, 10000.0) == n as real / 10000.0;
    assert n as real / 10000.0 == 1.0 <==> n == 10000;
  }

  /**
   * Exactly when two different texts score 0 before rounding: one is blank, or no token is shared and the edit distance
   * is as large as it can be.
   */
  lemma RawZeroIff(na: Text, nb: Text, lower: Lowering)
    requires na != nb
    ensures Raw(na, nb, lower) == 0.0 <==>
            || na == [] || nb == []
            || (TokenSet(na, lower) !! TokenSet(nb, lower)
                && TextDistance.Lev(na, nb) == TextDistance.Max(|na|, |nb|))
  {
    if na != [] && nb != [] {
      NormLevRange(na, nb);
    }
  }

  /** The score before rounding in figures: half the share of common tokens, half the edit distance left over. */
  lemma RawFormula(na: Text, nb: Text, lower: Lowering)
    requires na != nb && na != [] && nb != []
    ensures var (ta, tb) := (TokenSet(na, lower), TokenSet(nb, lower));
            var share := if ta + tb == {} then 0.0 else |ta * tb| as real / |ta + tb| as real;
            Raw(na, nb, lower)
            == (share + 1.0 - TextDistance.Lev(na, nb) as real / TextDistance.Max(|na|, |nb|) as real) / 2.0
  {
  }

  /** Two texts with the same tokens, and some, get half the score for them whatever their order. */
  lemma SameTokens(na: Text, nb: Text, lower: Lowering)
    requires na != nb && na != [] && nb != []
    requires TokenSet(na, lower) == TokenSet(nb, lower) != {}
    ensures Raw(na, nb, lower)
            == 1.0 - TextDistance.Lev(na, nb) as real / TextDistance.Max(|na|, |nb|) as real / 2.0
  {
    RawFormula(na, nb, lower);
    WholeShare(TokenSet(na, lower));
    hide TextDistance.Lev;
    hide TextDistance.Max;
    hide Raw;
  }

  lemma WholeShare(ta: set<Text>)
    requires ta != {}
    ensures ta + ta != {} && |ta * ta| as real / |ta + ta| as real == 1.0
  {
    assert ta * ta == ta && ta + ta == ta;
  }

  predicate Disjoint(a: Text, b: Text) {
    forall c | c in a :: c !in b
  }

  /** Nothing in common before and after lowering means score 0, whatever lowering does. */
  lemma NothingInCommon(a: Text, b: Text, lower: Lowering)
    requires Normalize(a) != [] && Normalize(b) != []
    requires Disjoint(Normalize(a), Normalize(b)) && Disjoint(lower(Normalize(a)), lower(Normalize(b)))
    ensures Score(a, b, lower) == 0.0
  {
    var (na, nb) := (Normalize(a), Normalize(b));
    TextDistance.EntryDisjoint(na, nb, |na|, |nb|);
    LoweredApartIff(na, nb, lower);
    RoundExact();
  }

  /**
   * With nothing in common after lowering alone, the score before rounding is 0 exactly when the edit distance, which
   * is taken on the texts before lowering, is as large as it can be.
   */
  lemma LoweredApartIff(na: Text, nb: Text, lower: Lowering)
    requires na != [] && nb != [] && Disjoint(lower(na), lower(nb))
    ensures Raw(na, nb, lower) == 0.0 <==> TextDistance.Lev(na, nb) == TextDistance.Max(|na|, |nb|)
  {
    if na == nb {
      TextDistance.LevIsMetric(na, nb, nb);
    } else {
      forall t | t in TokenSet(na, lower)
        ensures t !in TokenSet(nb, lower)
      {
        assert t[0] in t;
      }
      RawZeroIff(na, nb, lower);
    }
  }

  const CAPITAL_SIGMA: CodeUnit := 0x3A3
  const SIGMA: CodeUnit := 0x3C3
  const FINAL_SIGMA: CodeUnit := 0x3C2

  lemma {:induction false} NoSpacesToReplace(s: Text)
    requires forall c | c in s :: !IsSpace(c)
    ensures ReplaceRuns(s, IsSpace, false) == s
  {
    if s != [] {
      assert s == [s[0]] + s[1..];
      NoSpacesToReplace(s[1..]);
    }
  }

  lemma SolidIsNormal(s: Text)
    requires s != [] && forall c | c in s :: !IsSpace(c)
    ensures Normalize(s) == s
  {
    assert s[0] in s && s[|s| - 1] in s;
    TrimSolid(s);
    NoSpacesToReplace(s);
  }

  /**
   * A capital sigma that ends a word lowers to the final sigma, any other to the plain one. Under every lowering that
   * does so, "aΣ" and "bΣc" share nothing after lowering and still score above 0, because they share the sigma before
   * it.
   */
  lemma FinalSigmaCounterexample(lower: Lowering)
    requires lower([0x61, CAPITAL_SIGMA]) == [0x61, FINAL_SIGMA]
    requires lower([0x62, CAPITAL_SIGMA, 0x63]) == [0x62, SIGMA, 0x63]
    ensures var (a, b) := ([0x61, CAPITAL_SIGMA], [0x62, CAPITAL_SIGMA, 0x63]);
            && Disjoint(lower(Normalize(a)), lower(Normalize(b)))
            && Score(a, b, lower) > 0.0
  {
    var (a, b) := ([0x61, CAPITAL_SIGMA], [0x62, CAPITAL_SIGMA, 0x63]);
    SolidIsNormal(a);
    SolidIsNormal(b);
    SigmaDistance(a, b);
    ScoreAbove(a, b, lower);
  }

  lemma SigmaDistance(a: Text, b: Text)
    requires a == [0x61, CAPITAL_SIGMA] && b == [0x62, CAPITAL_SIGMA, 0x63]
    ensures TextDistance.Lev(a, b) <= 2
  {
    var script := [TextDistance.Substitute(0, 0x62), TextDistance.Insert(2, 0x63)];
    assert TextDistance.Apply(script[0], a) == [0x62, CAPITAL_SIGMA];
    assert script[1..] == [TextDistance.Insert(2, 0x63)] && script[1..][1..] == [];
    assert TextDistance.Turns(a, script, b);
    TextDistance.NoShorterScript(a, script, b);
  }

  lemma ScoreAbove(a: Text, b: Text, lower: Lowering)
    requires Normalize(a) == a && Normalize(b) == b && |a| == 2 && |b| == 3 && TextDistance.Lev(a, b) <= 2
    ensures Score(a, b, lower) > 0.0
  {
    var d := TextDistance.Lev(a, b);
    assert TextDistance.Max(|a|, |b|) == 3;
    assert d as real / 3.0 <= 2.0 / 3.0;
    assert Raw(a, b, lower) >= 1.0 / 6.0;
  }
}
