/** Edit distance (src/lib/aiquality.ts, `levenshtein`): the least number of single edits between two texts. */
module TextDistance {
  /** One edit, at any position of the current text. */
  datatype Edit<T> = Insert(at: nat, c: T) | Delete(at: nat) | Substitute(at: nat, c: T)

  predicate Applicable<T>(e: Edit<T>, s: seq<T>) {
    if e.Insert? then e.at <= |s| else e.at < |s|
  }

  function Apply<T>(e: Edit<T>, s: seq<T>): seq<T>
    requires Applicable(e, s)
  {
    match e
    case Insert(at, c) => s[..at] + [c] + s[at..]
    case Delete(at) => s[..at] + s[at + 1..]
    case Substitute(at, c) => s[at := c]
  }

  /** The script of edits, applied one after the other to `a`, gives `b`. */
  predicate Turns<T(==)>(a: seq<T>, script: seq<Edit<T>>, b: seq<T>)
    decreases |script|
  {
    if script == [] then a == b
    else Applicable(script[0], a) && Turns(Apply(script[0], a), script[1..], b)
  }

  function Min(x: nat, y: nat): nat {
    if x <= y then x else y
  }

  function Max(x: nat, y: nat): nat {
    if x <= y then y else x
  }

  function Mismatch<T(==)>(x: T, y: T): nat {
    if x == y then 0 else 1
  }

  /** One table entry from its three neighbours. */
  function Cell(up: nat, left: nat, diagonal: nat, cost: nat): nat {
    Min(Min(up + 1, left + 1), diagonal + cost)
  }

  /** The table row after `prev`, up to column `j`, for the next unit `x`. */
  function NextRow<T(==)>(x: T, b: seq<T>, prev: seq<nat>, j: nat): (row: seq<nat>)
    requires |prev| == |b| + 1 && j <= |b|
    ensures |row| == j + 1
  {
    if j == 0 then [prev[0] + 1]
    else
      var row := NextRow(x, b, prev, j - 1);
      row + [Cell(prev[j], row[j - 1], prev[j - 1], Mismatch(x, b[j - 1]))]
  }

  function Row<T(==)>(a: seq<T>, b: seq<T>, i: nat): (row: seq<nat>)
    requires i <= |a|
    ensures |row| == |b| + 1
  {
    if i == 0 then seq(|b| + 1, j => j) else NextRow(a[i - 1], b, Row(a, b, i - 1), |b|)
  }

  /** Entry (i, j) of the table is about the first `i` units of `a` and the first `j` of `b`. */
  function Entry<T(==)>(a: seq<T>, b: seq<T>, i: nat, j: nat): nat
    requires i <= |a| && j <= |b|
  {
    Row(a, b, i)[j]
  }

  lemma {:induction false} NextRowAt<T>(x: T, b: seq<T>, prev: seq<nat>, j: nat, k: nat)
    requires |prev| == |b| + 1 && k <= j <= |b|
    ensures NextRow(x, b, prev, j)[k] == NextRow(x, b, prev, k)[k]
  {
    if k < j {
      NextRowAt(x, b, prev, j - 1, k);
    }
  }

  lemma {:induction false} RowStart<T>(a: seq<T>, b: seq<T>, i: nat)
    requires i <= |a|
    ensures Row(a, b, i)[0] == i
  {
    if i > 0 {
      RowStart(a, b, i - 1);
      NextRowAt(a[i - 1], b, Row(a, b, i - 1), |b|, 0);
    }
  }

  /** The recurrence the table obeys. */
  lemma EntryStep<T>(a: seq<T>, b: seq<T>, i: nat, j: nat)
    requires i <= |a| && j <= |b|
    ensures i == 0 ==> Entry(a, b, i, j) == j
    ensures j == 0 ==> Entry(a, b, i, j) == i
    ensures i > 0 && j > 0 ==>
              Entry(a, b, i, j) == Cell(Entry(a, b, i - 1, j), Entry(a, b, i, j - 1), Entry(a, b, i - 1, j - 1),
                                        Mismatch(a[i - 1], b[j - 1]))
  {
    if i > 0 {
      NextRowAt(a[i - 1], b, Row(a, b, i - 1), |b|, j);
      if j > 0 {
        NextRowAt(a[i - 1], b, Row(a, b, i - 1), |b|, j - 1);
      }
    }
    RowStart(a, b, i);
  }

  lemma BelowAt<T>(a: seq<T>, b: seq<T>, i: nat, j: nat, above: seq<nat>, below: seq<nat>)
    requires 0 < i <= |a| && 0 < j <= |b| && above == Row(a, b, i - 1) && below == Row(a, b, i)
    ensures below[j] == Min(Min(above[j] + 1, below[j - 1] + 1), above[j - 1] + Mismatch(a[i - 1], b[j - 1]))
  {
    EntryStep(a, b, i, j);
  }

  function Lev<T(==)>(a: seq<T>, b: seq<T>): nat {
    Entry(a, b, |a|, |b|)
  }

  /** The two-row loop computes the table's last entry. */
  method Levenshtein<T(==)>(a: seq<T>, b: seq<T>) returns (distance: nat)
    ensures distance == Lev(a, b)
  {
    if a == b {
      EntryZero(a, b, |a|, |b|);
      return 0;
    }
    if |a| == 0 { return |b|; }
    if |b| == 0 {
      RowStart(a, b, |a|);
      return |a|;
    }
    var prev := new nat[|b| + 1](_ => 0);
    for j := 0 to |b| + 1
      invariant forall k | 0 <= k < j :: prev[k] == k
    {
      prev[j] := j;
    }
    assert prev[..] == Row(a, b, 0);
    for i := 1 to |a| + 1
      invariant prev.Length == |b| + 1 && prev[..] == Row(a, b, i - 1)
    {
      prev := FillRow(a, b, i, prev);
    }
    return prev[|b|];
  }

  /** The inner loop: a fresh row from the row above it. */
  method FillRow<T(==)>(a: seq<T>, b: seq<T>, i: nat, prev: array<nat>) returns (cur: array<nat>)
    requires 0 < i <= |a| && prev.Length == |b| + 1 && prev[..] == Row(a, b, i - 1)
    ensures fresh(cur) && cur.Length == |b| + 1 && cur[..] == Row(a, b, i)
  {
    ghost var above, below := Row(a, b, i - 1), Row(a, b, i);
    cur := new nat[|b| + 1](_ => 0);
    RowStart(a, b, i);
    cur[0] := i;
    for j := 1 to |b| + 1
      invariant prev[..] == above
      invariant forall k | 0 <= k < j :: cur[k] == below[k]
    {
      var cost := if a[i - 1] == b[j - 1] then 0 else 1;
      BelowAt(a, b, i, j, above, below);
      assert prev[j] == above[j] && prev[j - 1] == above[j - 1];
      cur[j] := Min(Min(prev[j] + 1, cur[j - 1] + 1), prev[j - 1] + cost);
    }
  }

  // ----- the distance is a metric, between the length difference and the larger length

  lemma {:induction false} EntryBounds<T>(a: seq<T>, b: seq<T>, i: nat, j: nat)
    requires i <= |a| && j <= |b|
    ensures i - j <= Entry(a, b, i, j) && j - i <= Entry(a, b, i, j) <= Max(i, j)
    decreases i + j
  {
    EntryStep(a, b, i, j);
    if i > 0 && j > 0 {
      EntryBounds(a, b, i - 1, j);
      EntryBounds(a, b, i, j - 1);
      EntryBounds(a, b, i - 1, j - 1);
    }
  }

  lemma {:induction false} EntryZero<T>(a: seq<T>, b: seq<T>, i: nat, j: nat)
    requires i <= |a| && j <= |b|
    ensures Entry(a, b, i, j) == 0 <==> a[..i] == b[..j]
    decreases i
  {
    EntryStep(a, b, i, j);
    if i > 0 && j > 0 {
      EntryZero(a, b, i - 1, j - 1);
      assert a[..i] == a[..i - 1] + [a[i - 1]] && b[..j] == b[..j - 1] + [b[j - 1]];
    } else {
      assert |a[..i]| == i && |b[..j]| == j;
    }
  }

  lemma {:induction false} EntrySymmetric<T>(a: seq<T>, b: seq<T>, i: nat, j: nat)
    requires i <= |a| && j <= |b|
    ensures Entry(a, b, i, j) == Entry(b, a, j, i)
    decreases i + j
  {
    EntryStep(a, b, i, j);
    EntryStep(b, a, j, i);
    if i > 0 && j > 0 {
      EntrySymmetric(a, b, i - 1, j);
      EntrySymmetric(a, b, i, j - 1);
      EntrySymmetric(a, b, i - 1, j - 1);
    }
  }

  lemma EntryAtMost<T>(a: seq<T>, b: seq<T>, i: nat, j: nat)
    requires 0 < i <= |a| && 0 < j <= |b|
    ensures Entry(a, b, i, j) <= Entry(a, b, i - 1, j) + 1 && Entry(a, b, i, j) <= Entry(a, b, i, j - 1) + 1
    ensures Entry(a, b, i, j) <= Entry(a, b, i - 1, j - 1) + Mismatch(a[i - 1], b[j - 1])
  {
    EntryStep(a, b, i, j);
  }

  /** Each way the last step of a-to-b can meet the last step of b-to-c yields a step of a-to-c. */
  lemma {:induction false} EntryTriangle<T>(a: seq<T>, b: seq<T>, c: seq<T>, i: nat, j: nat, k: nat)
    requires i <= |a| && j <= |b| && k <= |c|
    ensures Entry(a, c, i, k) <= Entry(a, b, i, j) + Entry(b, c, j, k)
    decreases i + j + k
  {
    if i == 0 || j == 0 || k == 0 {
      EntryBounds(a, b, i, j);
      EntryBounds(b, c, j, k);
      EntryBounds(a, c, i, k);
    } else {
      EntryStep(a, b, i, j);
      EntryStep(b, c, j, k);
      EntryAtMost(a, c, i, k);
      if Entry(a, b, i, j) == Entry(a, b, i - 1, j) + 1 {
        EntryTriangle(a, b, c, i - 1, j, k);
      } else if Entry(b, c, j, k) == Entry(b, c, j, k - 1) + 1 {
        EntryTriangle(a, b, c, i, j, k - 1);
      } else if Entry(a, b, i, j) == Entry(a, b, i, j - 1) + 1 {
        EntryTriangle(a, b, c, i, j - 1, k);
        EntryTriangle(a, b, c, i, j - 1, k - 1);
      } else if Entry(b, c, j, k) == Entry(b, c, j - 1, k) + 1 {
        EntryTriangle(a, b, c, i - 1, j - 1, k);
      } else {
        EntryTriangle(a, b, c, i - 1, j - 1, k - 1);
      }
    }
  }

  /** The edit distance is a metric and lies between the length difference and the larger length. */
  lemma LevIsMetric<T>(a: seq<T>, b: seq<T>, c: seq<T>)
    ensures Lev(a, b) == 0 <==> a == b
    ensures Lev(a, b) == Lev(b, a)
    ensures Lev(a, c) <= Lev(a, b) + Lev(b, c)
    ensures |a| - |b| <= Lev(a, b) && |b| - |a| <= Lev(a, b) <= Max(|a|, |b|)
  {
    EntryZero(a, b, |a|, |b|);
    assert a[..|a|] == a && b[..|b|] == b;
    EntrySymmetric(a, b, |a|, |b|);
    EntryTriangle(a, b, c, |a|, |b|, |c|);
    EntryBounds(a, b, |a|, |b|);
  }

  // ----- the distance is the length of the shortest script

  lemma {:induction false} EntryOfPrefix<T>(a: seq<T>, b: seq<T>, x: seq<T>, y: seq<T>, i: nat, j: nat)
    requires i <= |a| && j <= |b|
    ensures Entry(a + x, b + y, i, j) == Entry(a, b, i, j)
    decreases i + j
  {
    EntryStep(a, b, i, j);
    EntryStep(a + x, b + y, i, j);
    if i > 0 && j > 0 {
      EntryOfPrefix(a, b, x, y, i - 1, j);
      EntryOfPrefix(a, b, x, y, i, j - 1);
      EntryOfPrefix(a, b, x, y, i - 1, j - 1);
    }
  }

  lemma {:induction false} EntryOfCommonSuffix<T>(a: seq<T>, b: seq<T>, suffix: seq<T>, n: nat)
    requires n <= |suffix|
    ensures Entry(a + suffix, b + suffix, |a| + n, |b| + n) <= Lev(a, b)
  {
    if n == 0 {
      EntryOfPrefix(a, b, suffix, suffix, |a|, |b|);
    } else {
      EntryStep(a + suffix, b + suffix, |a| + n, |b| + n);
      EntryOfCommonSuffix(a, b, suffix, n - 1);
    }
  }

  /** One edit moves a text by at most one. */
  lemma LevOneEdit<T>(e: Edit<T>, s: seq<T>)
    requires Applicable(e, s)
    ensures Lev(s, Apply(e, s)) <= 1
  {
    hide Entry;
    var head := s[..e.at];
    var before := if e.Insert? then head else head + [s[e.at]];
    var after := if e.Delete? then head else head + [e.c];
    var suffix := s[|before|..];
    assert s == before + suffix && Apply(e, s) == after + suffix;
    LevNearlyEqual(head, before, after);
    EntryOfCommonSuffix(before, after, suffix, |suffix|);
  }

  lemma LevNearlyEqual<T>(head: seq<T>, before: seq<T>, after: seq<T>)
    requires before == head || (|before| == |head| + 1 && before[..|head|] == head)
    requires after == head || (|after| == |head| + 1 && after[..|head|] == head)
    ensures Lev(before, after) <= 1
  {
    var n := |head|;
    assert before[..n] == head && after[..n] == head;
    EntryZero(before, after, n, n);
    EntryStep(before, after, |before|, |after|);
    if |before| + |after| == 2 * n + 1 && n > 0 {
      EntryStep(before, after, n, n);
    }
  }

  /** No script is shorter than the distance. */
  lemma {:induction false} NoShorterScript<T>(a: seq<T>, script: seq<Edit<T>>, b: seq<T>)
    requires Turns(a, script, b)
    ensures Lev(a, b) <= |script|
    decreases |script|
  {
    if script == [] {
      LevIsMetric(a, b, b);
    } else {
      var next := Apply(script[0], a);
      NoShorterScript(next, script[1..], b);
      LevOneEdit(script[0], a);
      LevIsMetric(a, next, b);
    }
  }

  /** The last edit of a shortest script, read off the table. */
  datatype Move = Done | Drop | Add | Copy | Swap

  /** Where the table stood before the last move, and what the move adds to a script. */
  function Before(move: Move, i: nat, j: nat): (nat, nat) {
    (if i > 0 && !move.Add? then i - 1 else i, if j > 0 && !move.Drop? then j - 1 else j)
  }

  predicate Possible<T(==)>(a: seq<T>, b: seq<T>, i: nat, j: nat, move: Move)
    requires i <= |a| && j <= |b|
  {
    match move
    case Done => i == 0 && j == 0
    case Drop => i > 0
    case Add => j > 0
    case Copy => i > 0 && j > 0 && a[i - 1] == b[j - 1]
    case Swap => i > 0 && j > 0
  }

  lemma LastMove<T>(a: seq<T>, b: seq<T>, i: nat, j: nat) returns (move: Move)
    requires i <= |a| && j <= |b|
    ensures Possible(a, b, i, j, move)
    ensures Entry(a, b, i, j) == (if move.Done? then 0 else Entry(a, b, Before(move, i, j).0, Before(move, i, j).1))
                                 + if move.Done? || move.Copy? then 0 else 1
  {
    EntryStep(a, b, i, j);
    if i == 0 && j == 0 {
      move := Done;
    } else if j == 0 {
      EntryStep(a, b, i - 1, j);
      move := Drop;
    } else if i == 0 {
      EntryStep(a, b, i, j - 1);
      move := Add;
    } else if Entry(a, b, i, j) == Entry(a, b, i - 1, j) + 1 {
      move := Drop;
    } else if Entry(a, b, i, j) == Entry(a, b, i, j - 1) + 1 {
      move := Add;
    } else {
      move := if a[i - 1] == b[j - 1] then Copy else Swap;
    }
  }

  /** A script still works on a longer text and leaves the added unit at the end. */
  lemma {:induction false} TurnsWithTail<T>(a: seq<T>, script: seq<Edit<T>>, b: seq<T>, c: T)
    requires Turns(a, script, b)
    ensures Turns(a + [c], script, b + [c])
    decreases |script|
  {
    if script != [] {
      var e := script[0];
      assert Apply(e, a + [c]) == Apply(e, a) + [c];
      TurnsWithTail(Apply(e, a), script[1..], b, c);
    }
  }

  lemma {:induction false} TurnsThen<T>(a: seq<T>, script: seq<Edit<T>>, b: seq<T>, e: Edit<T>)
    requires Turns(a, script, b) && Applicable(e, b)
    ensures Turns(a, script + [e], Apply(e, b))
    decreases |script|
  {
    if script == [] {
      assert (script + [e])[1..] == [];
    } else {
      assert (script + [e])[1..] == script[1..] + [e];
      TurnsThen(Apply(script[0], a), script[1..], b, e);
    }
  }

  lemma PrefixStep<T>(s: seq<T>, i: nat)
    requires 0 < i <= |s|
    ensures s[..i] == s[..i - 1] + [s[i - 1]]
  {
  }

  lemma DropTurns<T>(a: seq<T>, i: nat, script: seq<Edit<T>>, q: seq<T>) returns (longer: seq<Edit<T>>)
    requires 0 < i <= |a| && Turns(a[..i - 1], script, q)
    ensures Turns(a[..i], longer, q) && |longer| == |script| + 1
  {
    var x := a[i - 1];
    PrefixStep(a, i);
    TurnsWithTail(a[..i - 1], script, q, x);
    assert Apply(Delete(|q|), q + [x]) == q;
    TurnsThen(a[..i], script, q + [x], Delete(|q|));
    longer := script + [Delete(|q|)];
  }

  lemma AddTurns<T>(p: seq<T>, script: seq<Edit<T>>, b: seq<T>, j: nat) returns (longer: seq<Edit<T>>)
    requires 0 < j <= |b| && Turns(p, script, b[..j - 1])
    ensures Turns(p, longer, b[..j]) && |longer| == |script| + 1
  {
    var e := Insert(j - 1, b[j - 1]);
    assert Apply(e, b[..j - 1]) == b[..j];
    TurnsThen(p, script, b[..j - 1], e);
    longer := script + [e];
  }

  lemma CopyTurns<T>(a: seq<T>, i: nat, script: seq<Edit<T>>, b: seq<T>, j: nat)
    requires 0 < i <= |a| && 0 < j <= |b| && a[i - 1] == b[j - 1] && Turns(a[..i - 1], script, b[..j - 1])
    ensures Turns(a[..i], script, b[..j])
  {
    PrefixStep(a, i);
    PrefixStep(b, j);
    TurnsWithTail(a[..i - 1], script, b[..j - 1], a[i - 1]);
  }

  lemma SwapTurns<T>(a: seq<T>, i: nat, script: seq<Edit<T>>, b: seq<T>, j: nat) returns (longer: seq<Edit<T>>)
    requires 0 < i <= |a| && 0 < j <= |b| && Turns(a[..i - 1], script, b[..j - 1])
    ensures Turns(a[..i], longer, b[..j]) && |longer| == |script| + 1
  {
    var (x, e) := (a[i - 1], Substitute(j - 1, b[j - 1]));
    PrefixStep(a, i);
    TurnsWithTail(a[..i - 1], script, b[..j - 1], x);
    assert Apply(e, b[..j - 1] + [x]) == b[..j];
    TurnsThen(a[..i], script, b[..j - 1] + [x], e);
    longer := script + [e];
  }

  lemma Replay<T>(a: seq<T>, b: seq<T>, i: nat, j: nat, move: Move, shorter: seq<Edit<T>>)
    returns (script: seq<Edit<T>>)
    requires i <= |a| && j <= |b| && Possible(a, b, i, j, move) && !move.Done?
    requires Turns(a[..Before(move, i, j).0], shorter, b[..Before(move, i, j).1])
    ensures Turns(a[..i], script, b[..j])
    ensures |script| == |shorter| + if move.Copy? then 0 else 1
  {
    match move
    case Drop => script := DropTurns(a, i, shorter, b[..j]);
    case Add => script := AddTurns(a[..i], shorter, b, j);
    case Copy =>
      script := shorter;
      CopyTurns(a, i, shorter, b, j);
    case Swap => script := SwapTurns(a, i, shorter, b, j);
  }

  /** Replaying the last moves, outermost last, gives a script of exactly the table's length. */
  lemma {:induction false} ShortestScript<T>(a: seq<T>, b: seq<T>, i: nat, j: nat) returns (script: seq<Edit<T>>)
    requires i <= |a| && j <= |b|
    ensures |script| == Entry(a, b, i, j)
    ensures Turns(a[..i], script, b[..j])
    decreases i + j
  {
    var move := LastMove(a, b, i, j);
    if move.Done? {
      script := [];
    } else {
      var shorter := ShortestScript(a, b, Before(move, i, j).0, Before(move, i, j).1);
      script := Replay(a, b, i, j, move, shorter);
    }
  }

  /** Some script attains the distance and none beats it. */
  lemma LevIsLeastScript<T>(a: seq<T>, b: seq<T>)
    ensures exists script :: Turns(a, script, b) && |script| == Lev(a, b)
    ensures forall script :: Turns(a, script, b) ==> Lev(a, b) <= |script|
  {
    var best := ShortestScript(a, b, |a|, |b|);
    assert a[..|a|] == a && b[..|b|] == b;
    assert Turns(a, best, b);
    forall script | Turns(a, script, b)
      ensures Lev(a, b) <= |script|
    {
      NoShorterScript(a, script, b);
    }
  }

  /** Two texts with no unit in common are as far apart as they can be. */
  lemma {:induction false} EntryDisjoint<T>(a: seq<T>, b: seq<T>, i: nat, j: nat)
    requires forall c | c in a :: c !in b
    requires i <= |a| && j <= |b|
    ensures Entry(a, b, i, j) == Max(i, j)
    decreases i + j
  {
    EntryStep(a, b, i, j);
    if i > 0 && j > 0 {
      assert a[i - 1] in a && b[j - 1] in b;
      EntryDisjoint(a, b, i - 1, j);
      EntryDisjoint(a, b, i, j - 1);
      EntryDisjoint(a, b, i - 1, j - 1);
    }
  }
}
