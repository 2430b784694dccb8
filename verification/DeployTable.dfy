/** The record of deployments of one environment (src/lib/deploy.ts): it behaves like a stack of commits. */
module DeployTable {
  import opened Wrappers

  type Commit = string

  datatype Status = Active | Superseded | RolledBack

  /** A row's id is its position; rows are created in order. */
  datatype Row = Row(commit: Commit, status: Status, deployedAt: int, rollbackOf: Option<nat>)

  type Rows = seq<Row>

  datatype Error = NothingToRollBackTo

  predicate Live(r: Row) {
    r.status == Active || r.status == Superseded
  }

  /** The last row with the status among the first `n`. */
  function LastWith(rows: Rows, n: nat, status: Status): (r: Option<nat>)
    requires n <= |rows|
    ensures r.Some? ==> r.value < n && rows[r.value].status == status
  {
    if n == 0 then None else if rows[n - 1].status == status then Some(n - 1) else LastWith(rows, n - 1, status)
  }

  /** The live row just below index `n`. */
  function LastLive(rows: Rows, n: nat): (r: Option<nat>)
    requires n <= |rows|
    ensures r.Some? ==> r.value < n && Live(rows[r.value])
  {
    if n == 0 then None else if Live(rows[n - 1]) then Some(n - 1) else LastLive(rows, n - 1)
  }

  /** The commits of the live rows, the one on traffic last. */
  function Stack(rows: Rows, n: nat): seq<Commit>
    requires n <= |rows|
  {
    if n == 0 then [] else Stack(rows, n - 1) + if Live(rows[n - 1]) then [rows[n - 1].commit] else []
  }

  function StackOf(rows: Rows): seq<Commit> {
    Stack(rows, |rows|)
  }

  predicate Increasing(rows: Rows) {
    forall i, j | 0 <= i < j < |rows| :: rows[i].deployedAt < rows[j].deployedAt
  }

  /** Among the live rows the last one is active and all others are superseded. */
  predicate WellKept(rows: Rows) {
    && Increasing(rows)
    && forall i | 0 <= i < |rows| && Live(rows[i]) :: rows[i].status == Active <==> LastLive(rows, |rows|) == Some(i)
  }

  // ----- the two operations on the rows

  function Recorded(rows: Rows, commit: Commit, now: int): Rows {
    var prev := LastWith(rows, |rows|, Active);
    (if prev.Some? then rows[prev.value := rows[prev.value].(status := Superseded)] else rows)
    + [Row(commit, Active, now, None)]
  }

  predicate AllBefore(rows: Rows, now: int) {
    forall i | 0 <= i < |rows| :: rows[i].deployedAt < now
  }

  function Restored(rows: Rows): Result<(Rows, Commit), Error> {
    var (current, previous) := (LastWith(rows, |rows|, Active), LastWith(rows, |rows|, Superseded));
    if previous.None? then Err(NothingToRollBackTo)
    else
      var swept := if current.Some? then rows[current.value := rows[current.value].(status := RolledBack)] else rows;
      Ok((swept[previous.value := swept[previous.value].(status := Active, rollbackOf := current)],
          rows[previous.value].commit))
  }

  class DeploymentTable {
    var rows: Rows

    constructor ()
      ensures rows == []
    {
      rows := [];
    }

    /** `findFirst` ordered by `deployedAt`, newest first. */
    method FindLatest(status: Status) returns (r: Option<nat>)
      requires Increasing(rows)
      ensures r == LastWith(rows, |rows|, status)
    {
      r := None;
      for i := 0 to |rows|
        invariant r == LastWith(rows, i, status)
      {
        if rows[i].status == status && (r.None? || rows[i].deployedAt > rows[r.value].deployedAt) {
          r := Some(i);
        }
      }
    }

    /** The record step of a deploy: supersede the active row, then create the new one. */
    method Record(commit: Commit, now: int)
      requires WellKept(rows) && AllBefore(rows, now)
      modifies this
      ensures rows == Recorded(old(rows), commit, now) && WellKept(rows)
      ensures StackOf(rows) == StackOf(old(rows)) + [commit]
    {
      RecordPushes(rows, commit, now);
      var prev := FindLatest(Active);
      if prev.Some? {
        rows := rows[prev.value := rows[prev.value].(status := Superseded)];
      }
      rows := rows + [Row(commit, Active, now, None)];
    }

    /** A rollback throws, and changes nothing, exactly when no deployment lies beneath the live one. */
    method Rollback() returns (r: Result<Commit, Error>)
      requires WellKept(rows)
      modifies this
      ensures WellKept(rows)
      ensures r.Err? <==> |StackOf(old(rows))| < 2
      ensures r.Err? ==> rows == old(rows)
      ensures r.Ok? ==>
                var was := StackOf(old(rows));
                && Restored(old(rows)) == Ok((rows, r.value))
                && StackOf(rows) == was[..|was| - 1] && r.value == was[|was| - 2]
    {
      RollbackPops(rows);
      var current := FindLatest(Active);
      var previous := FindLatest(Superseded);
      if previous.None? { return Err(NothingToRollBackTo); }
      var restored := rows[previous.value].commit;
      if current.Some? {
        rows := rows[current.value := rows[current.value].(status := RolledBack)];
      }
      rows := rows[previous.value := rows[previous.value].(status := Active, rollbackOf := current)];
      return Ok(restored);
    }
  }

  // ----- live rows and the stack

  lemma {:induction false} StackTop(rows: Rows, n: nat)
    requires n <= |rows|
    ensures LastLive(rows, n).None? ==> Stack(rows, n) == []
    ensures var top := LastLive(rows, n);
            top.Some? ==> Stack(rows, n) == Stack(rows, top.value) + [rows[top.value].commit]
    ensures forall i | 0 <= i < n && Live(rows[i]) :: LastLive(rows, n).Some? && i <= LastLive(rows, n).value
  {
    if n > 0 {
      StackTop(rows, n - 1);
    }
  }

  lemma {:induction false} LastWithFacts(rows: Rows, n: nat, status: Status)
    requires n <= |rows|
    ensures forall i | 0 <= i < n && rows[i].status == status ::
              LastWith(rows, n, status).Some? && i <= LastWith(rows, n, status).value
  {
    if n > 0 {
      LastWithFacts(rows, n - 1, status);
    }
  }

  lemma TopIsActive(rows: Rows)
    requires WellKept(rows)
    ensures LastWith(rows, |rows|, Active) == LastLive(rows, |rows|)
  {
    StackTop(rows, |rows|);
    LastWithFacts(rows, |rows|, Active);
  }

  /** Below the top a live row is superseded, and from the top on none is. */
  lemma {:induction false} BelowIsSuperseded(rows: Rows, top: nat, n: nat)
    requires WellKept(rows) && LastLive(rows, |rows|) == Some(top) && n <= |rows|
    ensures LastWith(rows, n, Superseded) == LastLive(rows, if n <= top then n else top)
  {
    if n > 0 {
      BelowIsSuperseded(rows, top, n - 1);
      StackTop(rows, |rows|);
    }
  }

  /** In a well-kept table the latest active row is the top, and the latest superseded row is the one beneath it. */
  lemma Tops(rows: Rows)
    requires WellKept(rows)
    ensures var top := LastLive(rows, |rows|);
            && LastWith(rows, |rows|, Active) == top
            && LastWith(rows, |rows|, Superseded) == (if top.None? then None else LastLive(rows, top.value))
  {
    TopIsActive(rows);
    var top := LastLive(rows, |rows|);
    if top.Some? {
      BelowIsSuperseded(rows, top.value, |rows|);
    } else {
      StackTop(rows, |rows|);
    }
  }

  /** The stack depends on the commits and on which rows are live. */
  lemma {:induction false} SameStack(a: Rows, b: Rows, n: nat)
    requires n <= |a| && n <= |b|
    requires forall i | 0 <= i < n :: a[i].commit == b[i].commit && (Live(a[i]) <==> Live(b[i]))
    ensures Stack(a, n) == Stack(b, n) && LastLive(a, n) == LastLive(b, n)
  {
    if n > 0 {
      SameStack(a, b, n - 1);
    }
  }

  lemma RecordPushes(rows: Rows, commit: Commit, now: int)
    requires WellKept(rows) && AllBefore(rows, now)
    ensures WellKept(Recorded(rows, commit, now))
    ensures StackOf(Recorded(rows, commit, now)) == StackOf(rows) + [commit]
  {
    Tops(rows);
    StackTop(rows, |rows|);
    SameStack(rows, Recorded(rows, commit, now), |rows|);
  }

  /** Dead rows at the end add nothing. */
  lemma {:induction false} DeadTail(rows: Rows, k: nat, n: nat)
    requires k <= n <= |rows| && forall i | k <= i < n :: !Live(rows[i])
    ensures Stack(rows, n) == Stack(rows, k) && LastLive(rows, n) == LastLive(rows, k)
  {
    if k < n {
      DeadTail(rows, k, n - 1);
    }
  }

  lemma RollbackPops(rows: Rows)
    requires WellKept(rows)
    ensures var (was, r) := (StackOf(rows), Restored(rows));
            && (r.Err? <==> |was| < 2)
            && (r.Ok? ==> WellKept(r.value.0) && StackOf(r.value.0) == was[..|was| - 1] && r.value.1 == was[|was| - 2])
  {
    hide Stack;
    hide LastWith;
    Tops(rows);
    StackTop(rows, |rows|);
    var top := LastLive(rows, |rows|);
    if top.Some? {
      StackTop(rows, top.value);
      var below := LastLive(rows, top.value);
      if below.Some? {
        var after := Restored(rows).value.0;
        SameStack(rows, after, top.value);
        DeadTail(after, top.value, |rows|);
        StackTop(after, |after|);
      }
    }
  }

  /** The active row is newer than every superseded row. */
  lemma ActiveIsNewest(rows: Rows, i: nat, j: nat)
    requires WellKept(rows) && i < |rows| && j < |rows|
    requires rows[i].status == Active && rows[j].status == Superseded
    ensures rows[j].deployedAt < rows[i].deployedAt
  {
    StackTop(rows, |rows|);
  }

  // ----- any run of deploys and rollbacks

  datatype Op = Deploy(commit: Commit, at: int) | RollBack

  function Step(rows: Rows, op: Op): Rows {
    match op
    case Deploy(commit, at) => Recorded(rows, commit, at)
    case RollBack => if Restored(rows).Err? then rows else Restored(rows).value.0
  }

  /** The simple form: a stack of commits whose last element is never popped. */
  function StackStep(s: seq<Commit>, op: Op): seq<Commit> {
    match op
    case Deploy(commit, _) => s + [commit]
    case RollBack => if |s| < 2 then s else s[..|s| - 1]
  }

  lemma StepRefines(rows: Rows, op: Op)
    requires WellKept(rows) && (op.Deploy? ==> AllBefore(rows, op.at))
    ensures WellKept(Step(rows, op)) && StackOf(Step(rows, op)) == StackStep(StackOf(rows), op)
  {
    match op
    case Deploy(commit, at) => RecordPushes(rows, commit, at);
    case RollBack => RollbackPops(rows);
  }

  lemma StepKeepsOlder(rows: Rows, op: Op, at: int)
    requires AllBefore(rows, at) && (op.Deploy? ==> op.at < at)
    ensures AllBefore(Step(rows, op), at)
  {
  }

  function Run(ops: seq<Op>, n: nat): Rows
    requires n <= |ops|
  {
    if n == 0 then [] else Step(Run(ops, n - 1), ops[n - 1])
  }

  function RunStack(ops: seq<Op>, n: nat): seq<Commit>
    requires n <= |ops|
  {
    if n == 0 then [] else StackStep(RunStack(ops, n - 1), ops[n - 1])
  }

  /** Deploys happen at ever later times. */
  predicate Chronological(ops: seq<Op>) {
    forall i, j | 0 <= i < j < |ops| && ops[i].Deploy? && ops[j].Deploy? :: ops[i].at < ops[j].at
  }

  /** Every row of a run is older than a deploy still to come. */
  lemma {:induction false} RowsAreOlder(ops: seq<Op>, n: nat, j: nat)
    requires Chronological(ops) && n <= j < |ops| && ops[j].Deploy?
    ensures AllBefore(Run(ops, n), ops[j].at)
  {
    if n > 0 {
      RowsAreOlder(ops, n - 1, j);
      StepKeepsOlder(Run(ops, n - 1), ops[n - 1], ops[j].at);
    }
  }

  /** The table refines the stack over every run. */
  lemma {:induction false} TableRefinesStack(ops: seq<Op>, n: nat)
    requires Chronological(ops) && n <= |ops|
    ensures WellKept(Run(ops, n)) && StackOf(Run(ops, n)) == RunStack(ops, n)
  {
    if n > 0 {
      TableRefinesStack(ops, n - 1);
      if ops[n - 1].Deploy? {
        RowsAreOlder(ops, n - 1, n - 1);
      }
      StepRefines(Run(ops, n - 1), ops[n - 1]);
    }
  }

  /** Deploying and rolling back leaves the commits as they were, with the earlier commit active again. */
  lemma RollbackUndoesDeploy(rows: Rows, commit: Commit, now: int)
    requires WellKept(rows) && StackOf(rows) != [] && AllBefore(rows, now)
    ensures var r := Restored(Recorded(rows, commit, now));
            && r.Ok? && StackOf(r.value.0) == StackOf(rows)
            && r.value.1 == StackOf(rows)[|StackOf(rows)| - 1]
  {
    RecordPushes(rows, commit, now);
    RollbackPops(Recorded(rows, commit, now));
    var was := StackOf(rows);
    assert (was + [commit])[..|was|] == was;
  }
}
