/**
 * Health checks before a switch (src/lib/deploy.ts, `waitHealthy`) and after it (src/lib/healthwatch.ts, `runWatch`).
 */
module Health {
  /** One HTTP probe: a status code, or an error or timeout. */
  datatype Probe = Answer(status: int) | Failed

  predicate Healthy(p: Probe) {
    p.Answer? && 200 <= p.status < 300
  }

  /** The answers 200 to 299. */
  lemma HealthyIff(p: Probe)
    ensures Healthy(p) <==> exists status :: 200 <= status <= 299 && p == Answer(status)
  {
    if p.Answer? {
      assert p == Answer(p.status);
    }
  }

  function Good(probe: nat -> Probe): nat -> bool {
    (i: nat) => Healthy(probe(i))
  }

  /** The `n` probes that end just before index `k` all have the wanted outcome. */
  predicate Block(outcomes: nat -> bool, k: nat, n: nat) {
    n <= k && forall i: nat | k - n <= i < k :: outcomes(i)
  }

  /** How many probes in a row, ending just before index `k`, have the wanted outcome. */
  function Streak(outcomes: nat -> bool, k: nat): nat {
    if k == 0 || !outcomes(k - 1) then 0 else Streak(outcomes, k - 1) + 1
  }

  lemma {:induction false} BlockIffStreak(outcomes: nat -> bool, k: nat, n: nat)
    ensures Streak(outcomes, k) <= k
    ensures Block(outcomes, k, n) <==> n <= Streak(outcomes, k)
    decreases k
  {
    if k > 0 {
      if outcomes(k - 1) {
        if n > 0 {
          BlockIffStreak(outcomes, k - 1, n - 1);
        } else {
          BlockIffStreak(outcomes, k - 1, 0);
        }
      } else if n > 0 {
        assert k - n <= k - 1 < k;
      }
    }
  }

  function AtLeastOne(n: int): nat {
    if n < 1 then 1 else n
  }

  function MaxTries(healthConsecutive: int): int {
    healthConsecutive * 6 + 20
  }

  /** The probes just before index `k` are a block of as many good ones as are required, and at least one. */
  predicate PassedAt(probe: nat -> Probe, healthConsecutive: int, k: nat) {
    Block(Good(probe), k, AtLeastOne(healthConsecutive))
  }

  /**
   * Success exactly when a block of consecutive 2xx answers lies within the allowed probes, reported at the earliest
   * such block; a required count below one still needs one good answer.
   */
  method WaitHealthy(healthConsecutive: int, probe: nat -> Probe) returns (ok: bool, tries: nat)
    ensures ok <==> exists k: nat :: k <= 6 * healthConsecutive + 20 && PassedAt(probe, healthConsecutive, k)
    ensures ok ==>
              && PassedAt(probe, healthConsecutive, tries)
              && forall k: nat | k < tries :: !PassedAt(probe, healthConsecutive, k)
    ensures !ok ==> tries == if 6 * healthConsecutive + 20 < 0 then 0 else 6 * healthConsecutive + 20
  {
    ghost var good := Good(probe);
    ghost var n := AtLeastOne(healthConsecutive);
    var consecutive := 0;
    var maxTries := MaxTries(healthConsecutive);
    var i := 0;
    assert maxTries == 6 * healthConsecutive + 20;
    BlockIffStreak(good, 0, n);
    while i < maxTries
      invariant i <= maxTries || i == 0
      invariant consecutive == Streak(good, i)
      invariant forall k: nat | k <= i :: !PassedAt(probe, healthConsecutive, k)
    {
      if Healthy(probe(i)) {
        consecutive := consecutive + 1;
        BlockIffStreak(good, i + 1, n);
        if consecutive >= healthConsecutive {
          assert PassedAt(probe, healthConsecutive, i + 1);
          return true, i + 1;
        }
      } else {
        consecutive := 0;
        BlockIffStreak(good, i + 1, n);
      }
      i := i + 1;
    }
    return false, i;
  }

  // ----- the watch after a deploy

  datatype HealthStatus = Watching | Degraded | HealthyStatus | ErrorStatus

  /** The checks that fail, among those that would start before the deadline. */
  function Bad(ok: seq<bool>): nat -> bool {
    (i: nat) => i < |ok| && !ok[i]
  }

  /** The checks just before index `k` are a block of `failThreshold` failures. */
  predicate DegradedAt(ok: seq<bool>, failThreshold: int, k: nat) {
    Block(Bad(ok), k, AtLeastOne(failThreshold))
  }

  /** The row of the run and the rows of its checks. */
  class WatchedRun {
    var healthStatus: HealthStatus
    var checks: seq<bool>
    var rollbacks: nat
    var calls: nat               // database calls made so far: rows, log lines, the alert
    const luck: nat -> bool      // whether each of them succeeds

    constructor (luck: nat -> bool)
      ensures healthStatus == Watching && checks == [] && rollbacks == 0 && calls == 0 && this.luck == luck
    {
      healthStatus, checks, rollbacks, calls, this.luck := Watching, [], 0, 0, luck;
    }

    method Call() returns (ok: bool)
      modifies this`calls
      ensures calls == old(calls) + 1 && ok == luck(old(calls))
    {
      ok := luck(calls);
      calls := calls + 1;
    }

    ghost predicate AllWritten(from: nat, to: nat) {
      forall k: nat | from <= k < to :: luck(k)
    }

    /**
     * `ok` holds the outcome of each check that would start before the deadline. A watch that ends by itself is
     * degraded exactly when `failThreshold` of them fail in a row, at the first such moment, and has then run the
     * rollback hook once if there is one. A failing call ends it where it is; also then the hook has only run after
     * such a block.
     */
    method RunWatch(ok: seq<bool>, failThreshold: int, hasHook: bool) returns (ended: bool)
      modifies this
      ensures calls > old(calls) && (AllWritten(old(calls), calls) ==> ended)
      // an error ends it, but for the log line behind the hook, after which one more is tried
      ensures if ended then forall k: nat | old(calls) <= k < calls && !luck(k) :: k == calls - 2 && hasHook
              else !luck(calls - 1)
      ensures ended ==>
                calls
                == old(calls) + 2 + 2 * |checks| + if healthStatus == Degraded then AtTheEnd(hasHook, calls) else 2
      ensures !ended && luck(old(calls)) && |checks| < |ok| && !DegradedAt(ok, failThreshold, |checks|) ==>
                healthStatus == Watching
      ensures |checks| <= |ok| && checks == ok[..|checks|]
      ensures forall k: nat | k < |checks| :: !DegradedAt(ok, failThreshold, k)
      ensures ended ==>
                && (healthStatus == Degraded <==> exists k: nat :: k <= |ok| && DegradedAt(ok, failThreshold, k))
                && (healthStatus == Degraded || healthStatus == HealthyStatus)
                && (healthStatus == Degraded ==> DegradedAt(ok, failThreshold, |checks|))
                && (healthStatus == HealthyStatus ==> checks == ok)
                && rollbacks == old(rollbacks) + if healthStatus == Degraded && hasHook then 1 else 0
      ensures rollbacks == old(rollbacks)
              || (rollbacks == old(rollbacks) + 1 && hasHook && DegradedAt(ok, failThreshold, |checks|))
    {
      checks := [];
      var written := Call();
      if !written { return false; }
      healthStatus := Watching;
      written := Call();                                    // log
      if !written { return false; }
      var degraded;
      written, degraded := WatchChecks(ok, failThreshold);
      if !written { return false; }
      hide DegradedAt;
      if degraded {
        ended := Degrade(hasHook);
        return;
      }
      written := Call();
      if !written { return false; }
      healthStatus := HealthyStatus;
      ended := Call();                                      // log
    }

    /** The loop: it stops at the first block of failures, at a call that fails, or at the deadline. */
    method WatchChecks(ok: seq<bool>, failThreshold: int) returns (written: bool, degraded: bool)
      requires checks == []
      modifies this`checks, this`calls
      ensures calls >= old(calls)
      ensures written ==> calls == old(calls) + 2 * |checks|
      ensures if written then AllWritten(old(calls), calls) else calls > old(calls) && !luck(calls - 1) && !degraded
      ensures |checks| <= |ok| && checks == ok[..|checks|]
      ensures forall k: nat | k < |checks| :: !DegradedAt(ok, failThreshold, k)
      ensures written ==> (degraded <==> DegradedAt(ok, failThreshold, |checks|))
      ensures written && !degraded ==> checks == ok
    {
      ghost var (bad, n) := (Bad(ok), AtLeastOne(failThreshold));
      hide Block;
      BlockIffStreak(bad, 0, n);
      var fails := 0;
      while |checks| < |ok|
        invariant calls == old(calls) + 2 * |checks| && AllWritten(old(calls), calls)
        invariant |checks| <= |ok| && checks == ok[..|checks|] && fails == Streak(bad, |checks|)
        invariant forall k: nat | k <= |checks| :: !DegradedAt(ok, failThreshold, k)
      {
        written := Call();                                  // the row of the check
        if !written { return false, false; }
        var good := ok[|checks|];
        checks := checks + [good];
        BlockIffStreak(bad, |checks|, n);
        fails := if good then 0 else fails + 1;
        written := Call();                                  // log
        if !written { return false, false; }
        if !good && fails >= failThreshold { return true, true; }
      }
      return true, false;
    }

    /** The calls of the end of a degraded watch: status, alert, log, and one or two more log lines behind the hook. */
    function AtTheEnd(hasHook: bool, to: nat): nat {
      if !hasHook then 3 else if to >= 2 && !luck(to - 2) then 5 else 4
    }

    /** The end of a degraded watch: status, alert, and the hook if there is one. */
    method Degrade(hasHook: bool) returns (ended: bool)
      modifies this`healthStatus, this`rollbacks, this`calls
      ensures calls > old(calls) && (AllWritten(old(calls), calls) ==> ended)
      ensures if ended then forall k: nat | old(calls) <= k < calls && !luck(k) :: k == calls - 2 && hasHook
              else !luck(calls - 1)
      ensures healthStatus == if luck(old(calls)) then Degraded else old(healthStatus)
      ensures rollbacks == old(rollbacks) || (rollbacks == old(rollbacks) + 1 && hasHook)
      ensures ended ==> rollbacks == old(rollbacks) + if hasHook then 1 else 0
      ensures ended ==> calls == old(calls) + AtTheEnd(hasHook, calls)
      // the log line behind the hook may fail if the one about that does not
      ensures AllWritten(old(calls), old(calls) + 3) ==>
                (ended <==> !hasHook || luck(old(calls) + 3) || luck(old(calls) + 4))
      // a failing write or alert before the hook means that it is not run
      ensures rollbacks != old(rollbacks) ==> AllWritten(old(calls), old(calls) + 3)
    {
      var written := Call();
      if !written { return false; }
      healthStatus := Degraded;
      written := Call();                                    // the alert
      if !written { return false; }
      ended := Call();                                      // log
      if ended && hasHook {
        rollbacks := rollbacks + 1;
        ended := Call();                                    // log
        if !ended {
          ended := Call();                                  // log of the error, the hook's or that of the log
        }
      }
    }

    /** The watch and what catches its errors, which writes `error` over the status. */
    method StartHealthWatch(ok: seq<bool>, failThreshold: int, hasHook: bool) returns (ended: bool)
      modifies this
      ensures calls > old(calls) && (AllWritten(old(calls), calls) ==> ended)
      ensures ended ==>
                && (healthStatus == Degraded <==> exists k: nat :: k <= |ok| && DegradedAt(ok, failThreshold, k))
                && (healthStatus == Degraded || healthStatus == HealthyStatus)
      ensures !ended ==>
                && calls > old(calls) + 2 && !luck(calls - 3)
                && (luck(calls - 1) ==> healthStatus == ErrorStatus)
      ensures rollbacks != old(rollbacks) ==>
                rollbacks == old(rollbacks) + 1 && exists k: nat :: k <= |ok| && DegradedAt(ok, failThreshold, k)
    {
      ended := RunWatch(ok, failThreshold, hasHook);
      if !ended {
        var logged := Call();
        var written := Call();
        if written { healthStatus := ErrorStatus; }
      }
    }
  }
}
