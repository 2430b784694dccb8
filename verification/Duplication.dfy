/** The duplication estimate (src/lib/codeanalysis.ts, `duplicationPercent`). */
module Duplication {
  import opened JsText
  import opened JsNumber

  /** The digest of a text as a hexadecimal string. */
  type Digest = Text -> Text

  /** `allLines.map(trim).filter(nonEmpty)` */
  function Norm(allLines: seq<Text>): (norm: seq<Text>)
    ensures |norm| <= |allLines|
  {
    if allLines == [] then []
    else (if Trim(allLines[0]) == [] then [] else [Trim(allLines[0])]) + Norm(allLines[1..])
  }

  /** Lines are compared without the white space around them, and blank ones are not there. */
  lemma NormOfLine(before: Text, line: Text, after: Text)
    requires Blank(before) && Blank(after)
    ensures line == [] ==> Norm([before + line + after]) == []
    ensures line != [] && !IsSpace(line[0]) && !IsSpace(line[|line| - 1]) ==> Norm([before + line + after]) == [line]
  {
    var lines := [before + line + after];
    assert lines[1..] == [];
    if line == [] {
      assert forall c | c in lines[0] :: IsSpace(c);
      TrimFacts(lines[0]);
    } else if !IsSpace(line[0]) && !IsSpace(line[|line| - 1]) {
      TrimPadded(before, line, after);
    }
  }

  /** Lines of a text cut at its newlines. */
  predicate AreLines(lines: seq<Text>) {
    forall i | 0 <= i < |lines| :: NEWLINE !in lines[i]
  }

  lemma {:induction false} NormAreLines(allLines: seq<Text>)
    requires AreLines(allLines)
    ensures AreLines(Norm(allLines))
  {
    if allLines != [] {
      TrimFacts(allLines[0]);
      assert AreLines(allLines[1..]);
      NormAreLines(allLines[1..]);
    }
  }

  function Key(norm: seq<Text>, n: nat, i: nat, sha1: Digest): Text
    requires i + n <= |norm|
  {
    sha1(Window(norm, n, i))
  }

  /** The `n` lines from the i-th on, as one text. */
  function Window(norm: seq<Text>, n: nat, i: nat): Text
    requires i + n <= |norm|
  {
    Join(norm[i..i + n], NEWLINE)
  }

  /** The digest tells the windows of this text apart, whatever it does to other texts. */
  predicate Collisionless(norm: seq<Text>, n: nat, sha1: Digest) {
    forall i: nat, j: nat | i + n <= |norm| && j + n <= |norm| ::
      sha1(Window(norm, n, i)) == sha1(Window(norm, n, j)) ==> Window(norm, n, i) == Window(norm, n, j)
  }

  /** Equal keys mean equal windows. */
  lemma KeyDecides(norm: seq<Text>, n: nat, i: nat, j: nat, sha1: Digest)
    requires Collisionless(norm, n, sha1) && AreLines(norm) && i + n <= |norm| && j + n <= |norm|
    ensures Key(norm, n, i, sha1) == Key(norm, n, j, sha1) <==> norm[i..i + n] == norm[j..j + n]
  {
    if n > 0 && Key(norm, n, i, sha1) == Key(norm, n, j, sha1) {
      SplitJoin(norm[i..i + n], NEWLINE);
      SplitJoin(norm[j..j + n], NEWLINE);
    }
  }

  /** Line `k` lies in a window that occurs at another position as well. */
  ghost predicate Duplicated(norm: seq<Text>, n: nat, k: nat) {
    exists i: nat, j: nat :: Repeats(norm, n, i, j) && i <= k < i + n
  }

  predicate Repeats(norm: seq<Text>, n: nat, i: nat, j: nat) {
    i != j && i + n <= |norm| && j + n <= |norm| && norm[i..i + n] == norm[j..j + n]
  }

  // ----- the two passes

  /** How many of the first `m` windows have the key. */
  function Occurrences(norm: seq<Text>, n: nat, m: nat, key: Text, sha1: Digest): nat
    requires m == 0 || m + n <= |norm| + 1
  {
    if m == 0 then 0
    else Occurrences(norm, n, m - 1, key, sha1) + if Key(norm, n, m - 1, sha1) == key then 1 else 0
  }

  lemma {:induction false} OccursOnce(norm: seq<Text>, n: nat, m: nat, i: nat, sha1: Digest)
    requires i < m && m + n <= |norm| + 1
    ensures Occurrences(norm, n, m, Key(norm, n, i, sha1), sha1) >= 1
  {
    if i < m - 1 {
      OccursOnce(norm, n, m - 1, i, sha1);
    }
  }

  /** A key seen more than once among the windows belongs to two of them. */
  lemma {:induction false} OccursTwiceIff(norm: seq<Text>, n: nat, m: nat, i: nat, sha1: Digest)
    requires i < m && m + n <= |norm| + 1
    ensures Occurrences(norm, n, m, Key(norm, n, i, sha1), sha1) > 1 <==>
            exists j: nat | j < m && j != i :: Key(norm, n, j, sha1) == Key(norm, n, i, sha1)
  {
    var key := Key(norm, n, i, sha1);
    if i < m - 1 {
      OccursTwiceIff(norm, n, m - 1, i, sha1);
      OccursOnce(norm, n, m - 1, i, sha1);
    } else {
      OccursNone(norm, n, m - 1, key, sha1);
    }
  }

  lemma {:induction false} OccursNone(norm: seq<Text>, n: nat, m: nat, key: Text, sha1: Digest)
    requires m == 0 || m + n <= |norm| + 1
    ensures Occurrences(norm, n, m, key, sha1) > 0 <==> exists j: nat | j < m :: Key(norm, n, j, sha1) == key
  {
    if m > 0 {
      OccursNone(norm, n, m - 1, key, sha1);
    }
  }

  method CountWindows(norm: seq<Text>, windowN: nat, sha1: Digest) returns (seen: map<Text, nat>)
    requires windowN <= |norm|
    ensures forall key :: (if key in seen then seen[key] else 0)
                          == Occurrences(norm, windowN, |norm| - windowN + 1, key, sha1)
  {
    seen := map[];
    var i := 0;
    while i + windowN <= |norm|
      invariant i + windowN <= |norm| + 1
      invariant forall key :: (if key in seen then seen[key] else 0) == Occurrences(norm, windowN, i, key, sha1)
    {
      var h := Key(norm, windowN, i, sha1);
      seen := seen[h := (if h in seen then seen[h] else 0) + 1];
      i := i + 1;
    }
  }

  /** The window at `i` is counted more than once. */
  ghost predicate Counted(norm: seq<Text>, n: nat, i: nat, sha1: Digest)
    requires i + n <= |norm|
  {
    Occurrences(norm, n, |norm| - n + 1, Key(norm, n, i, sha1), sha1) > 1
  }

  /** One of the windows before `m` covers line `k` and is counted more than once. */
  ghost predicate Covered(norm: seq<Text>, n: nat, k: nat, m: nat, sha1: Digest)
    requires n <= |norm| && m + n <= |norm| + 1
  {
    exists i: nat :: i < m && i <= k < i + n && Counted(norm, n, i, sha1)
  }

  lemma CoveredStep(norm: seq<Text>, n: nat, k: nat, m: nat, sha1: Digest)
    requires m + n <= |norm|
    ensures Covered(norm, n, k, m + 1, sha1) <==>
            Covered(norm, n, k, m, sha1) || (m <= k < m + n && Counted(norm, n, m, sha1))
  {
    if Covered(norm, n, k, m + 1, sha1) {
      var i: nat :| i < m + 1 && i <= k < i + n && Counted(norm, n, i, sha1);
    }
  }

  method MarkWindows(norm: seq<Text>, windowN: nat, seen: map<Text, nat>, sha1: Digest) returns (dupLine: array<bool>)
    requires windowN <= |norm|
    requires forall key :: (if key in seen then seen[key] else 0)
                           == Occurrences(norm, windowN, |norm| - windowN + 1, key, sha1)
    ensures fresh(dupLine) && dupLine.Length == |norm|
    ensures forall k | 0 <= k < |norm| ::
              dupLine[k] <==> Covered(norm, windowN, k, |norm| - windowN + 1, sha1)
  {
    dupLine := new bool[|norm|](_ => false);
    var i := 0;
    while i + windowN <= |norm|
      invariant i + windowN <= |norm| + 1
      invariant forall k | 0 <= k < |norm| :: dupLine[k] <==> Covered(norm, windowN, k, i, sha1)
    {
      ghost var before := dupLine[..];
      var h := Key(norm, windowN, i, sha1);
      var counted := (if h in seen then seen[h] else 0) > 1;
      if counted { MarkRange(dupLine, i, windowN); }
      forall k | 0 <= k < |norm|
        ensures dupLine[k] <==> Covered(norm, windowN, k, i + 1, sha1)
      {
        CoveredStep(norm, windowN, k, i, sha1);
        assert before[k] <==> Covered(norm, windowN, k, i, sha1);
        assert dupLine[k] == (before[k] || (counted && i <= k < i + windowN));
      }
      i := i + 1;
    }
  }

  /** The inner loop of the second pass. */
  method MarkRange(dupLine: array<bool>, i: nat, windowN: nat)
    requires i + windowN <= dupLine.Length
    modifies dupLine
    ensures forall l | 0 <= l < dupLine.Length :: dupLine[l] == (old(dupLine[l]) || i <= l < i + windowN)
  {
    for k := i to i + windowN
      invariant forall l | 0 <= l < dupLine.Length :: dupLine[l] == (old(dupLine[l]) || i <= l < k)
    {
      dupLine[k] := true;
    }
  }

  lemma CountedIff(norm: seq<Text>, n: nat, i: nat, sha1: Digest)
    requires i + n <= |norm|
    ensures Counted(norm, n, i, sha1) <==> exists j: nat :: SameKey(norm, n, i, j, sha1)
  {
    var m := |norm| - n + 1;
    OccursTwiceIff(norm, n, m, i, sha1);
    if Counted(norm, n, i, sha1) {
      var j: nat :| j < m && j != i && Key(norm, n, j, sha1) == Key(norm, n, i, sha1);
      assert SameKey(norm, n, i, j, sha1);
    }
    if j: nat :| SameKey(norm, n, i, j, sha1) {
      assert j < m && Key(norm, n, j, sha1) == Key(norm, n, i, sha1);
    }
  }

  /** Windows at two positions with one digest. */
  predicate SameKey(norm: seq<Text>, n: nat, i: nat, j: nat, sha1: Digest) {
    i != j && i + n <= |norm| && j + n <= |norm| && Key(norm, n, i, sha1) == Key(norm, n, j, sha1)
  }

  /** Whatever the digest, a line in a window that equals a window at another position is marked. */
  lemma DuplicatedIsCovered(norm: seq<Text>, n: nat, k: nat, sha1: Digest)
    requires n <= |norm| && Duplicated(norm, n, k)
    ensures Covered(norm, n, k, |norm| - n + 1, sha1)
  {
    var i: nat, j: nat :| Repeats(norm, n, i, j) && i <= k < i + n;
    assert SameKey(norm, n, i, j, sha1);
    CountedIff(norm, n, i, sha1);
  }

  /** Two windows with one digest differ only where every line is duplicated anyway. */
  ghost predicate CollisionsHarmless(norm: seq<Text>, n: nat, sha1: Digest) {
    forall i: nat, j: nat, k: nat | SameKey(norm, n, i, j, sha1) && i <= k < i + n :: Duplicated(norm, n, k)
  }

  /** A digest that tells the windows of a text apart has none. */
  lemma CollisionlessIsHarmless(allLines: seq<Text>, n: nat, sha1: Digest)
    requires AreLines(allLines) && Collisionless(Norm(allLines), n, sha1)
    ensures CollisionsHarmless(Norm(allLines), n, sha1)
  {
    var norm := Norm(allLines);
    NormAreLines(allLines);
    forall i: nat, j: nat, k: nat | SameKey(norm, n, i, j, sha1) && i <= k < i + n
      ensures Duplicated(norm, n, k)
    {
      KeyDecides(norm, n, i, j, sha1);
      assert Repeats(norm, n, i, j);
    }
  }

  /** The marker finds exactly the lines in a window that equals a window at another position. */
  lemma CoveredIffDuplicated(norm: seq<Text>, n: nat, k: nat, sha1: Digest)
    requires CollisionsHarmless(norm, n, sha1) && n <= |norm|
    ensures Covered(norm, n, k, |norm| - n + 1, sha1) <==> Duplicated(norm, n, k)
  {
    if Covered(norm, n, k, |norm| - n + 1, sha1) {
      var i: nat :| i < |norm| - n + 1 && i <= k < i + n && Counted(norm, n, i, sha1);
      CountedIff(norm, n, i, sha1);
    }
    if Duplicated(norm, n, k) {
      DuplicatedIsCovered(norm, n, k, sha1);
    }
  }

  ghost predicate MarksExact(norm: seq<Text>, n: nat, sha1: Digest)
    requires n <= |norm|
  {
    forall k: nat :: Covered(norm, n, k, |norm| - n + 1, sha1) <==> Duplicated(norm, n, k)
  }

  /** And it does so exactly when the collisions of the digest on this text, if any, are harmless. */
  lemma MarksExactIff(norm: seq<Text>, n: nat, sha1: Digest)
    requires n <= |norm|
    ensures MarksExact(norm, n, sha1) <==> CollisionsHarmless(norm, n, sha1)
  {
    if CollisionsHarmless(norm, n, sha1) {
      forall k: nat
        ensures Covered(norm, n, k, |norm| - n + 1, sha1) <==> Duplicated(norm, n, k)
      {
        CoveredIffDuplicated(norm, n, k, sha1);
      }
    }
    if MarksExact(norm, n, sha1) {
      forall i: nat, j: nat, k: nat | SameKey(norm, n, i, j, sha1) && i <= k < i + n
        ensures Duplicated(norm, n, k)
      {
        CountedIff(norm, n, i, sha1);
        assert i < |norm| - n + 1;
        assert Covered(norm, n, k, |norm| - n + 1, sha1);
      }
    }
  }

  // ----- the percentage

  /** How many of the first `m` lines are duplicated. */
  ghost function DuplicatedLines(norm: seq<Text>, n: nat, m: nat): (count: nat)
    ensures count <= m
  {
    if m == 0 then 0 else DuplicatedLines(norm, n, m - 1) + if Duplicated(norm, n, m - 1) then 1 else 0
  }

  ghost function Percent(norm: seq<Text>, n: nat): real {
    if |norm| < n || |norm| == 0 then 0.0
    else Round(DuplicatedLines(norm, n, |norm|) as real / |norm| as real * 10000.0) as real / 100.0
  }

  method DuplicationPercent(allLines: seq<Text>, windowN: nat, sha1: Digest) returns (percent: real)
    requires CollisionsHarmless(Norm(allLines), windowN, sha1)
    ensures percent == Percent(Norm(allLines), windowN)
  {
    hide CollisionsHarmless;
    hide Duplicated;
    hide Covered;
    hide Norm;
    hide Round;
    var norm := Norm(allLines);
    var total := |norm|;
    if total < windowN { return 0.0; }
    var seen := CountWindows(norm, windowN, sha1);
    var dupLine := MarkWindows(norm, windowN, seen, sha1);
    var dup := 0;
    ghost var marks := dupLine[..];
    for k := 0 to total
      invariant dupLine[..] == marks
      invariant dup == DuplicatedLines(norm, windowN, k)
    {
      CoveredIffDuplicated(norm, windowN, k, sha1);
      assert dupLine[k] == marks[k];
      if dupLine[k] { dup := dup + 1; }
    }
    return if total == 0 then 0.0 else Round(dup as real / total as real * 10000.0) as real / 100.0;
  }

  lemma PercentRange(norm: seq<Text>, n: nat)
    ensures 0.0 <= Percent(norm, n) <= 100.0
    ensures Percent(norm, n) == 100.0 <==>
            |norm| >= n && |norm| > 0 && DuplicatedLines(norm, n, |norm|) as real >= 0.99995 * |norm| as real
  {
    if |norm| >= n && |norm| > 0 {
      var (d, t) := (DuplicatedLines(norm, n, |norm|) as real, |norm| as real);
      var q := d / t;
      assert q * t == d;
      QuotientRange(q, d, t);
    }
  }

  lemma QuotientRange(q: real, d: real, t: real)
    requires t > 0.0 && q * t == d && 0.0 <= d <= t
    ensures 0.0 <= q <= 1.0 && (q >= 0.99995 <==> d >= 0.99995 * t)
  {
    ScaleUp(0.0, q, t);
    ScaleUp(q, 1.0, t);
    ScaleUp(0.99995, q, t);
    assert q >= 0.99995 <==> q * t >= 0.99995 * t;
  }

  lemma ScaleUp(x: real, y: real, t: real)
    requires t > 0.0
    ensures x <= y <==> x * t <= y * t
  {
    assert y * t - x * t == (y - x) * t;
  }

  lemma {:induction false} NormAppend(a: seq<Text>, b: seq<Text>)
    ensures Norm(a + b) == Norm(a) + Norm(b)
  {
    if a == [] {
      assert a + b == b;
    } else {
      assert (a + b)[1..] == a[1..] + b;
      NormAppend(a[1..], b);
    }
  }

  lemma HalfWindow(t: seq<Text>, n: nat, base: nat, start: nat)
    requires start + n <= |t| && (base == 0 || base == |t|)
    ensures (t + t)[base + start..base + start + n] == t[start..start + n]
  {
    assert forall k | start <= k < |t| :: (t + t)[base + k] == t[k];
  }

  lemma EveryLineDuplicated(t: seq<Text>, n: nat, k: nat)
    requires 0 < n <= |t| && k < 2 * |t|
    ensures Duplicated(t + t, n, k)
  {
    var (twice, base) := (t + t, if k < |t| then 0 else |t|);
    var start := if k - base + n <= |t| then k - base else |t| - n;
    var other := if base == 0 then |t| else 0;
    HalfWindow(t, n, base, start);
    HalfWindow(t, n, other, start);
    assert Repeats(twice, n, base + start, other + start);
  }

  lemma {:induction false} AllDuplicated(norm: seq<Text>, n: nat, m: nat)
    requires forall k: nat | k < m :: Duplicated(norm, n, k)
    ensures DuplicatedLines(norm, n, m) == m
  {
    if m > 0 {
      AllDuplicated(norm, n, m - 1);
    }
  }

  /** A text of at least one window followed by itself scores 100. */
  lemma SelfCopyScores100(lines: seq<Text>, n: nat)
    requires 0 < n <= |Norm(lines)|
    ensures Percent(Norm(lines + lines), n) == 100.0
  {
    NormAppend(lines, lines);
    var t := Norm(lines);
    forall k: nat | k < |t + t|
      ensures Duplicated(t + t, n, k)
    {
      EveryLineDuplicated(t, n, k);
    }
    AllDuplicated(t + t, n, |t + t|);
    PercentRange(t + t, n);
  }
}
