/**
 * Any number of deploys at once (src/lib/deploy.ts, `runDeploy` and `rollback`) together with the other writers of
 * the same rows (src/app/api/deploy/runs/[id]/cancel, src/app/api/deployments), one event per database access.
 */
module DeployLock {
  import opened Wrappers

  type Env = string

  datatype JobState = QUEUED | RUNNING | SUCCEEDED | FAILED | CANCELLED | ROLLED_BACK

  /** Where a run stands between two database accesses. */
  datatype Phase =
    | Created                          // the row exists, its state is not RUNNING yet
    | Ready                            // RUNNING, before the lock check
    | Denied                           // the check saw another run
    | Pipeline                         // past the check, before the record step
    | Superseding(prev: Option<nat>)   // the active deployment was looked up
    | Creating                         // the old deployment is superseded
    | Recorded                         // the new deployment exists
    | Finishing                        // SUCCEEDED is written; alert and log follow
    | Failing(succeeded: bool)         // in the catch block, entered before or after SUCCEEDED was written
    | Done

  datatype Run = Run(env: Env, commit: string, state: JobState, phase: Phase)

  datatype DeploymentStatus = Active | Superseded | RolledBack

  datatype Deployment = Deployment(env: Env, commit: string, status: DeploymentStatus)

  /** Where a manual rollback stands between two database accesses. */
  datatype RollBackPhase =
    | Asked                                            // the run was read
    | Found(current: Option<nat>)                      // the active deployment was looked up
    | Swapping(current: Option<nat>, previous: nat)    // so was the superseded one; the docker calls are here
    | Swept(previous: nat)                             // the active one is rolled back
    | Restored                                         // the superseded one is active
    | Ended

  /** A manual rollback of one run. */
  datatype RollBack = RollBack(run: nat, env: Env, phase: RollBackPhase)

  /**
   * A transaction that posts a deployment: the rows it found active when it superseded them. Its writes appear
   * together, when it commits.
   */
  datatype Put = Put(env: Env, commit: string, found: set<nat>, pending: bool)

  datatype World = World(runs: seq<Run>, deployments: seq<Deployment>, rollbacks: seq<RollBack>, puts: seq<Put>)

  datatype Event =
    | Create(env: Env, commit: string)
    | Move(run: nat, fails: bool)          // the next access of one run, or an error thrown there
    | Ask(run: nat)                        // a manual rollback of that run begins
    | Undo(rollback: nat, fails: bool)     // the next access of one rollback, or an error thrown there
    | Cancel(run: nat)                     // the write of the cancel route; the state it asks for was read before
    | Post(env: Env, commit: string)       // a deployment is posted, by hand or as a rollback to an older one
    | Commit(put: nat, fails: bool)        // and committed, or given up

  /** `findFirst`: the latest deployment of the environment with the status among the first `n`. */
  function Latest(ds: seq<Deployment>, n: nat, env: Env, status: DeploymentStatus): (r: Option<nat>)
    requires n <= |ds|
    ensures r.Some? ==> r.value < n && ds[r.value].env == env && ds[r.value].status == status
    ensures r.None? ==> forall i | 0 <= i < n :: !(ds[i].env == env && ds[i].status == status)
  {
    if n == 0 then None
    else if ds[n - 1].env == env && ds[n - 1].status == status then Some(n - 1)
    else Latest(ds, n - 1, env, status)
  }

  /** Another run of the environment is RUNNING. */
  predicate Locked(runs: seq<Run>, env: Env, me: nat) {
    exists i | 0 <= i < |runs| :: i != me && runs[i].env == env && runs[i].state == RUNNING
  }

  /** A run past the record step that throws is in the catch block with SUCCEEDED already written. */
  function Thrown(r: Run): Run {
    match r.phase
    case Pipeline => r.(phase := Failing(false))
    case Superseding(_) => r.(phase := Failing(false))
    case Creating => r.(phase := Failing(false))
    case Recorded => r.(phase := Failing(false))
    case Finishing => r.(phase := Failing(true))
    case _ => r.(phase := Done)  // outside the try block, or inside the catch block
  }

  function Moved(w: World, me: nat, fails: bool): (Run, seq<Deployment>)
    requires me < |w.runs|
  {
    var (r, ds) := (w.runs[me], w.deployments);
    if fails then (Thrown(r), ds)
    else
      match r.phase
      case Created => (r.(state := RUNNING, phase := Ready), ds)
      case Ready => (r.(phase := if Locked(w.runs, r.env, me) then Denied else Pipeline), ds)
      case Denied => (r.(state := FAILED, phase := Done), ds)
      case Pipeline => (r.(phase := Superseding(Latest(ds, |ds|, r.env, Active))), ds)
      case Superseding(prev) =>
        (r.(phase := Creating),
         if prev.Some? && prev.value < |ds| then ds[prev.value := ds[prev.value].(status := Superseded)] else ds)
      case Creating => (r.(phase := Recorded), ds + [Deployment(r.env, r.commit, Active)])
      case Recorded => (r.(state := SUCCEEDED, phase := Finishing), ds)
      case Finishing => (r.(phase := Done), ds)
      case Failing(_) => (r.(state := ROLLED_BACK, phase := Done), ds)
      case Done => (r, ds)
  }

  function WithStatus(ds: seq<Deployment>, i: nat, status: DeploymentStatus): seq<Deployment> {
    if i < |ds| then ds[i := ds[i].(status := status)] else ds
  }

  /** A lookup that finds nothing to return to throws, like every other error. */
  function Undone(r: RollBack, ds: seq<Deployment>, fails: bool): (RollBack, seq<Deployment>) {
    if fails then (r.(phase := Ended), ds)
    else
      match r.phase
      case Asked => (r.(phase := Found(Latest(ds, |ds|, r.env, Active))), ds)
      case Found(current) =>
        var previous := Latest(ds, |ds|, r.env, Superseded);
        (r.(phase := if previous.None? then Ended else Swapping(current, previous.value)), ds)
      case Swapping(current, previous) =>
        (r.(phase := Swept(previous)), if current.Some? then WithStatus(ds, current.value, RolledBack) else ds)
      case Swept(previous) => (r.(phase := Restored), WithStatus(ds, previous, Active))
      case Restored => (r.(phase := Ended), ds)
      case Ended => (r, ds)
  }

  /** The last access of a rollback writes the state of its run. */
  function Marked(runs: seq<Run>, r: RollBack, fails: bool): seq<Run> {
    if r.phase == Restored && !fails && r.run < |runs| then runs[r.run := runs[r.run].(state := ROLLED_BACK)] else runs
  }

  function ActiveRows(ds: seq<Deployment>, env: Env): set<nat> {
    set i: nat | i < |ds| && ds[i].env == env && ds[i].status == Active
  }

  /** The table after a posted deployment. */
  function Posted(ds: seq<Deployment>, p: Put): seq<Deployment> {
    seq(|ds|, i requires 0 <= i < |ds| => if i in p.found then ds[i].(status := Superseded) else ds[i])
    + [Deployment(p.env, p.commit, Active)]
  }

  function Step(w: World, e: Event): World {
    match e
    case Create(env, commit) => w.(runs := w.runs + [Run(env, commit, QUEUED, Created)])
    case Move(me, fails) =>
      if me >= |w.runs| then w
      else
        var (r, ds) := Moved(w, me, fails);
        w.(runs := w.runs[me := r], deployments := ds)
    case Ask(me) =>
      if me >= |w.runs| then w else w.(rollbacks := w.rollbacks + [RollBack(me, w.runs[me].env, Asked)])
    case Undo(i, fails) =>
      if i >= |w.rollbacks| then w
      else
        var (r, ds) := Undone(w.rollbacks[i], w.deployments, fails);
        w.(runs := Marked(w.runs, w.rollbacks[i], fails), deployments := ds, rollbacks := w.rollbacks[i := r])
    case Cancel(me) =>
      if me >= |w.runs| then w else w.(runs := w.runs[me := w.runs[me].(state := CANCELLED)])
    case Post(env, commit) => w.(puts := w.puts + [Put(env, commit, ActiveRows(w.deployments, env), true)])
    case Commit(i, fails) =>
      if i >= |w.puts| || !w.puts[i].pending then w
      else w.(deployments := if fails then w.deployments else Posted(w.deployments, w.puts[i]),
              puts := w.puts[i := w.puts[i].(pending := false)])
  }

  const START := World([], [], [], [])

  function After(events: seq<Event>, n: nat): World
    requires n <= |events|
  {
    if n == 0 then START else Step(After(events, n - 1), events[n - 1])
  }

  predicate Idle(w: World, env: Env) {
    forall i | 0 <= i < |w.runs| && w.runs[i].env == env :: w.runs[i].state != RUNNING
  }

  /** From its first lookup in the table to its last write. */
  predicate Live(r: RollBack) {
    r.phase != Asked && r.phase != Ended
  }

  /** Between its first lookup in the table of deployments and its last write there. */
  predicate Holding(r: RollBack) {
    r.phase.Found? || r.phase.Swapping? || r.phase.Swept?
  }

  /** The same of a run. */
  predicate Recording(r: Run) {
    r.phase.Superseding? || r.phase == Creating
  }

  /** While a rollback is live, its environment has no RUNNING run and no other live rollback. */
  predicate RollBacksApart(w: World) {
    forall i | 0 <= i < |w.rollbacks| && Live(w.rollbacks[i]) ::
      && Idle(w, w.rollbacks[i].env)
      && forall j | 0 <= j < |w.rollbacks| && j != i && w.rollbacks[j].env == w.rollbacks[i].env ::
           !Live(w.rollbacks[j])
  }

  /**
   * While a posted deployment is not committed, nothing else is in the middle of changing the table of its
   * environment.
   */
  predicate PutsApart(w: World) {
    forall i | 0 <= i < |w.puts| && w.puts[i].pending ::
      && (forall j | 0 <= j < |w.runs| && w.runs[j].env == w.puts[i].env :: !Recording(w.runs[j]))
      && (forall j | 0 <= j < |w.rollbacks| && w.rollbacks[j].env == w.puts[i].env :: !Holding(w.rollbacks[j]))
      && forall j | 0 <= j < |w.puts| && j != i && w.puts[j].env == w.puts[i].env :: !w.puts[j].pending
  }

  predicate Separate(w: World) {
    RollBacksApart(w) && PutsApart(w)
  }

  /** No run is cancelled between its RUNNING write and its first write of a final state. */
  predicate Allowed(w: World, e: Event) {
    e.Cancel? && e.run < |w.runs| ==> !OnItsWay(w.runs[e.run])
  }

  /**
   * Rollbacks and posted deployments are kept apart from deploys, and from each other, over their whole span, and
   * runs on their way are not cancelled.
   */
  predicate Careful(events: seq<Event>, n: nat)
    requires n <= |events|
  {
    forall k | 0 <= k < n :: Separate(After(events, k)) && Allowed(After(events, k), events[k])
  }

  // ----- what every interleaving keeps

  /** Between the lock check and the first write of a final state. */
  predicate Critical(r: Run) {
    || r.phase == Pipeline || r.phase.Superseding? || r.phase == Creating || r.phase == Recorded
    || r.phase == Failing(false)
  }

  /** From its RUNNING write on. */
  predicate OnItsWay(r: Run) {
    r.phase == Ready || Critical(r)
  }

  predicate HoldsLock(r: Run) {
    OnItsWay(r) ==> r.state == RUNNING
  }

  predicate Exclusive(runs: seq<Run>) {
    forall i, j | 0 <= i < j < |runs| && runs[i].env == runs[j].env :: !(Critical(runs[i]) && Critical(runs[j]))
  }

  predicate AtMostOneActive(ds: seq<Deployment>) {
    forall i, j | 0 <= i < j < |ds| && ds[i].env == ds[j].env :: !(ds[i].status == Active && ds[j].status == Active)
  }

  predicate NoneActive(ds: seq<Deployment>, env: Env) {
    forall i | 0 <= i < |ds| && ds[i].env == env :: ds[i].status != Active
  }

  /** The row is the active one of the environment, or there is none. */
  predicate CurrentIs(ds: seq<Deployment>, env: Env, current: Option<nat>) {
    if current.Some? then
      current.value < |ds| && ds[current.value].env == env && ds[current.value].status == Active
    else NoneActive(ds, env)
  }

  /** What a run knows about the table while it records. */
  predicate Knows(r: Run, ds: seq<Deployment>) {
    && (r.phase.Superseding? ==> CurrentIs(ds, r.env, r.phase.prev))
    && (r.phase == Creating ==> NoneActive(ds, r.env))
  }

  /** What a rollback knows about it. */
  predicate Prepared(r: RollBack, ds: seq<Deployment>) {
    match r.phase
    case Found(current) => CurrentIs(ds, r.env, current)
    case Swapping(current, previous) =>
      CurrentIs(ds, r.env, current)
      && previous < |ds| && ds[previous].env == r.env && ds[previous].status == Superseded
    case Swept(previous) => previous < |ds| && ds[previous].env == r.env && NoneActive(ds, r.env)
    case _ => true
  }

  /** What a posted deployment that is not committed knows about it. */
  predicate Covers(p: Put, ds: seq<Deployment>) {
    p.pending ==>
      && (forall i | i in p.found :: i < |ds| && ds[i].env == p.env)
      && forall i: nat | i < |ds| && ds[i].env == p.env && ds[i].status == Active :: i in p.found
  }

  /** A rollback is of the environment of its run. */
  predicate OfItsRun(r: RollBack, runs: seq<Run>) {
    r.run < |runs| && runs[r.run].env == r.env
  }

  predicate Safe(w: World) {
    && (forall i | 0 <= i < |w.runs| :: HoldsLock(w.runs[i]) && Knows(w.runs[i], w.deployments))
    && (forall i | 0 <= i < |w.rollbacks| ::
          OfItsRun(w.rollbacks[i], w.runs) && Prepared(w.rollbacks[i], w.deployments))
    && (forall i | 0 <= i < |w.puts| :: Covers(w.puts[i], w.deployments))
    && Exclusive(w.runs)
    && AtMostOneActive(w.deployments)
  }

  /** A run that passes the check finds no other run inside. */
  lemma CheckKeepsExclusive(w: World, me: nat, r: Run)
    requires LockSafe(w) && me < |w.runs| && r.env == w.runs[me].env
    requires Critical(r) ==> Critical(w.runs[me]) || !Locked(w.runs, r.env, me)
    ensures Exclusive(w.runs[me := r])
  {
    var runs := w.runs[me := r];
    forall i, j | 0 <= i < j < |runs| && runs[i].env == runs[j].env
      ensures !(Critical(runs[i]) && Critical(runs[j]))
    {
      if i == me || j == me {
        var other := if i == me then j else i;
        assert HoldsLock(w.runs[other]);
      }
    }
  }

  lemma SupersedeKeeps(ds: seq<Deployment>, env: Env, prev: Option<nat>)
    requires AtMostOneActive(ds)
    requires CurrentIs(ds, env, prev)
    ensures var after := if prev.Some? then ds[prev.value := ds[prev.value].(status := Superseded)] else ds;
            AtMostOneActive(after) && NoneActive(after, env) && SameElsewhere(ds, after, env)
  {
  }

  lemma CreateKeeps(ds: seq<Deployment>, d: Deployment)
    requires AtMostOneActive(ds) && NoneActive(ds, d.env)
    ensures AtMostOneActive(ds + [d]) && SameElsewhere(ds, ds + [d], d.env)
  {
  }

  /** Only rows of one environment differ; rows are never removed. */
  predicate SameElsewhere(before: seq<Deployment>, after: seq<Deployment>, env: Env) {
    && |before| <= |after|
    && (forall i | 0 <= i < |before| ::
          before[i].env == after[i].env && (before[i].env != env ==> before[i] == after[i]))
    && forall i | |before| <= i < |after| :: after[i].env == env
  }

  lemma KnowsKept(r: Run, before: seq<Deployment>, after: seq<Deployment>, env: Env)
    requires Knows(r, before) && SameElsewhere(before, after, env) && r.env != env
    ensures Knows(r, after)
  {
  }

  lemma PreparedKept(r: RollBack, before: seq<Deployment>, after: seq<Deployment>, env: Env)
    requires Prepared(r, before) && SameElsewhere(before, after, env) && r.env != env
    ensures Prepared(r, after)
  {
  }

  lemma CoversKept(p: Put, before: seq<Deployment>, after: seq<Deployment>, env: Env)
    requires Covers(p, before) && SameElsewhere(before, after, env) && p.env != env
    ensures Covers(p, after)
  {
  }

  /** What a moving run changes in the table, it changes as the only run of its environment inside. */
  lemma MoveKeepsTable(w: World, me: nat, fails: bool)
    requires Safe(w) && me < |w.runs|
    ensures var (r, ds) := Moved(w, me, fails);
            && AtMostOneActive(ds) && Knows(r, ds) && SameElsewhere(w.deployments, ds, r.env)
            && (ds != w.deployments ==> Recording(w.runs[me]))
  {
    var r := w.runs[me];
    assert Knows(r, w.deployments);
    if !fails {
      match r.phase
      case Superseding(prev) => SupersedeKeeps(w.deployments, r.env, prev);
      case Creating => CreateKeeps(w.deployments, Deployment(r.env, r.commit, Active));
      case _ =>
    }
  }

  /** Whoever changes the table of one environment, holding it alone, leaves what the others know of it as it was. */
  lemma OthersKept(w: World, env: Env, ds: seq<Deployment>)
    requires Safe(w) && SameElsewhere(w.deployments, ds, env)
    requires ds == w.deployments
             || ((forall i | 0 <= i < |w.rollbacks| && w.rollbacks[i].env == env :: Prepared(w.rollbacks[i], ds))
                 && (forall i | 0 <= i < |w.puts| && w.puts[i].env == env :: Covers(w.puts[i], ds)))
    ensures forall i | 0 <= i < |w.rollbacks| :: Prepared(w.rollbacks[i], ds)
    ensures forall i | 0 <= i < |w.puts| :: Covers(w.puts[i], ds)
  {
    forall i | 0 <= i < |w.rollbacks|
      ensures Prepared(w.rollbacks[i], ds)
    {
      assert Prepared(w.rollbacks[i], w.deployments);
      if w.rollbacks[i].env != env {
        PreparedKept(w.rollbacks[i], w.deployments, ds, env);
      }
    }
    forall i | 0 <= i < |w.puts|
      ensures Covers(w.puts[i], ds)
    {
      assert Covers(w.puts[i], w.deployments);
      if w.puts[i].env != env {
        CoversKept(w.puts[i], w.deployments, ds, env);
      }
    }
  }

  lemma MoveKeeps(w: World, me: nat, fails: bool)
    requires Safe(w) && Separate(w) && me < |w.runs|
    ensures Safe(Step(w, Move(me, fails)))
  {
    var (r, ds) := Moved(w, me, fails);
    assert HoldsLock(w.runs[me]);
    CheckKeepsExclusive(w, me, r);
    MoveKeepsTable(w, me, fails);
    var after := Step(w, Move(me, fails));
    forall i | 0 <= i < |after.runs|
      ensures HoldsLock(after.runs[i]) && Knows(after.runs[i], ds)
    {
      if i != me {
        assert HoldsLock(w.runs[i]) && Knows(w.runs[i], w.deployments);
        OthersKnow(w, me, i, ds);
      }
    }
    MoverIsAlone(w, me, ds);
    OthersKept(w, w.runs[me].env, ds);
    forall i | 0 <= i < |w.rollbacks|
      ensures OfItsRun(w.rollbacks[i], after.runs)
    {
      assert OfItsRun(w.rollbacks[i], w.runs);
    }
  }

  lemma OthersKnow(w: World, me: nat, i: nat, ds: seq<Deployment>)
    requires Safe(w) && me < |w.runs| && i < |w.runs| && i != me
    requires SameElsewhere(w.deployments, ds, w.runs[me].env)
    requires ds != w.deployments ==> Recording(w.runs[me])
    ensures Knows(w.runs[i], ds)
  {
    var other := w.runs[i];
    assert Knows(other, w.deployments);
    if ds != w.deployments && other.env != w.runs[me].env {
      KnowsKept(other, w.deployments, ds, w.runs[me].env);
    }
  }

  /**
   * A run that changes the table is RUNNING, so no rollback of its environment is live and no posted deployment
   * pending.
   */
  lemma MoverIsAlone(w: World, me: nat, ds: seq<Deployment>)
    requires Safe(w) && Separate(w) && me < |w.runs|
    requires ds != w.deployments ==> Recording(w.runs[me])
    ensures ds == w.deployments
            || ((forall i | 0 <= i < |w.rollbacks| && w.rollbacks[i].env == w.runs[me].env ::
                   Prepared(w.rollbacks[i], ds))
                && (forall i | 0 <= i < |w.puts| && w.puts[i].env == w.runs[me].env :: Covers(w.puts[i], ds)))
  {
    assert HoldsLock(w.runs[me]);
    if ds != w.deployments {
      forall i | 0 <= i < |w.rollbacks| && w.rollbacks[i].env == w.runs[me].env
        ensures Prepared(w.rollbacks[i], ds)
      {
        assert Live(w.rollbacks[i]) ==> Idle(w, w.rollbacks[i].env);
      }
    }
  }

  /** What one access of a rollback does to the table. */
  lemma UndoKeepsTable(r: RollBack, ds: seq<Deployment>, fails: bool)
    requires AtMostOneActive(ds) && Prepared(r, ds)
    ensures var (next, after) := Undone(r, ds, fails);
            && AtMostOneActive(after) && Prepared(next, after) && SameElsewhere(ds, after, r.env)
            && (after != ds ==> Holding(r)) && next.env == r.env && next.run == r.run
  {
  }

  lemma UndoKeeps(w: World, i: nat, fails: bool)
    requires Safe(w) && Separate(w) && i < |w.rollbacks|
    ensures Safe(Step(w, Undo(i, fails)))
  {
    var r := w.rollbacks[i];
    assert OfItsRun(r, w.runs) && Prepared(r, w.deployments);
    UndoKeepsTable(r, w.deployments, fails);
    var after := Step(w, Undo(i, fails));
    forall j | 0 <= j < |after.runs|
      ensures HoldsLock(after.runs[j]) && Knows(after.runs[j], after.deployments)
      ensures Critical(after.runs[j]) == Critical(w.runs[j]) && after.runs[j].env == w.runs[j].env
    {
      RunsStand(w, i, fails, j);
    }
    forall j | 0 <= j < |after.rollbacks|
      ensures OfItsRun(after.rollbacks[j], after.runs) && Prepared(after.rollbacks[j], after.deployments)
    {
      if j != i {
        assert OfItsRun(w.rollbacks[j], w.runs) && Prepared(w.rollbacks[j], w.deployments);
        if w.rollbacks[j].env != r.env {
          PreparedKept(w.rollbacks[j], w.deployments, after.deployments, r.env);
        }
      }
    }
    forall j | 0 <= j < |w.puts|
      ensures Covers(w.puts[j], after.deployments)
    {
      assert Covers(w.puts[j], w.deployments);
      if w.puts[j].env != r.env {
        CoversKept(w.puts[j], w.deployments, after.deployments, r.env);
      }
    }
  }

  /** A live rollback meets no run of its environment that is inside. */
  lemma RunsStand(w: World, i: nat, fails: bool, j: nat)
    requires Safe(w) && Separate(w) && i < |w.rollbacks| && j < |w.runs|
    ensures var after := Step(w, Undo(i, fails));
            && HoldsLock(after.runs[j]) && Knows(after.runs[j], after.deployments)
            && Critical(after.runs[j]) == Critical(w.runs[j]) && after.runs[j].env == w.runs[j].env
  {
    var r := w.rollbacks[i];
    assert HoldsLock(w.runs[j]) && Knows(w.runs[j], w.deployments) && OfItsRun(r, w.runs) && Prepared(r, w.deployments);
    UndoKeepsTable(r, w.deployments, fails);
    if w.runs[j].env != r.env {
      KnowsKept(w.runs[j], w.deployments, Step(w, Undo(i, fails)).deployments, r.env);
    } else if Live(r) {
      assert Idle(w, r.env);
    }
  }

  /** What the commit of a posted deployment does to the table. */
  lemma PostedKeepsTable(ds: seq<Deployment>, p: Put)
    requires AtMostOneActive(ds) && Covers(p, ds) && p.pending
    ensures AtMostOneActive(Posted(ds, p)) && SameElsewhere(ds, Posted(ds, p), p.env)
  {
    var after := Posted(ds, p);
    assert forall i: nat | i < |ds| && after[i].env == p.env :: after[i].status != Active;
  }

  lemma CommitKeeps(w: World, i: nat, fails: bool)
    requires Safe(w) && Separate(w) && i < |w.puts| && w.puts[i].pending
    ensures Safe(Step(w, Commit(i, fails)))
  {
    var p := w.puts[i];
    assert Covers(p, w.deployments);
    PostedKeepsTable(w.deployments, p);
    var after := Step(w, Commit(i, fails));
    forall j | 0 <= j < |w.runs|
      ensures HoldsLock(w.runs[j]) && Knows(w.runs[j], after.deployments)
    {
      assert HoldsLock(w.runs[j]) && Knows(w.runs[j], w.deployments);
      if w.runs[j].env != p.env && !fails {
        KnowsKept(w.runs[j], w.deployments, after.deployments, p.env);
      }
    }
    forall j | 0 <= j < |w.rollbacks|
      ensures OfItsRun(w.rollbacks[j], w.runs) && Prepared(w.rollbacks[j], after.deployments)
    {
      assert OfItsRun(w.rollbacks[j], w.runs) && Prepared(w.rollbacks[j], w.deployments);
      if w.rollbacks[j].env != p.env && !fails {
        PreparedKept(w.rollbacks[j], w.deployments, after.deployments, p.env);
      }
    }
    forall j | 0 <= j < |after.puts|
      ensures Covers(after.puts[j], after.deployments)
    {
      if j != i {
        assert Covers(w.puts[j], w.deployments);
        if w.puts[j].env != p.env && !fails {
          CoversKept(w.puts[j], w.deployments, after.deployments, p.env);
        }
      }
    }
  }

  lemma CancelKeeps(w: World, me: nat)
    requires Safe(w) && me < |w.runs| && w.runs[me].phase != Ready && !Critical(w.runs[me])
    ensures Safe(Step(w, Cancel(me)))
  {
    var after := Step(w, Cancel(me));
    forall i | 0 <= i < |w.runs|
      ensures HoldsLock(after.runs[i]) && Knows(after.runs[i], w.deployments)
    {
      assert HoldsLock(w.runs[i]) && Knows(w.runs[i], w.deployments);
    }
    forall i | 0 <= i < |w.rollbacks|
      ensures OfItsRun(w.rollbacks[i], after.runs)
    {
      assert OfItsRun(w.rollbacks[i], w.runs);
    }
  }

  lemma CreateEventKeeps(w: World, env: Env, commit: string)
    requires Safe(w)
    ensures Safe(Step(w, Create(env, commit)))
  {
    assert HoldsLock(Run(env, commit, QUEUED, Created)) && Knows(Run(env, commit, QUEUED, Created), w.deployments);
  }

  lemma AskKeeps(w: World, me: nat)
    requires Safe(w) && me < |w.runs|
    ensures Safe(Step(w, Ask(me)))
  {
    assert OfItsRun(RollBack(me, w.runs[me].env, Asked), w.runs);
  }

  lemma PostKeeps(w: World, env: Env, commit: string)
    requires Safe(w)
    ensures Safe(Step(w, Post(env, commit)))
  {
    assert Covers(Put(env, commit, ActiveRows(w.deployments, env), true), w.deployments);
  }

  lemma StepKeeps(w: World, e: Event)
    requires Safe(w) && Separate(w) && Allowed(w, e)
    ensures Safe(Step(w, e))
  {
    hide Safe;
    hide Separate;
    match e
    case Create(env, commit) => CreateEventKeeps(w, env, commit);
    case Move(me, fails) =>
      if me < |w.runs| {
        MoveKeeps(w, me, fails);
      }
    case Ask(me) =>
      if me < |w.runs| {
        AskKeeps(w, me);
      }
    case Undo(i, fails) =>
      if i < |w.rollbacks| {
        UndoKeeps(w, i, fails);
      }
    case Cancel(me) =>
      if me < |w.runs| {
        CancelKeeps(w, me);
      }
    case Post(env, commit) => PostKeeps(w, env, commit);
    case Commit(i, fails) =>
      if i < |w.puts| && w.puts[i].pending {
        CommitKeeps(w, i, fails);
      }
  }

  lemma NothingYet()
    ensures Safe(START)
  {
  }

  lemma {:induction false} EveryRunIsSafe(events: seq<Event>, n: nat)
    requires n <= |events| && Careful(events, n)
    ensures Safe(After(events, n))
  {
    hide Safe;
    hide Separate;
    hide Allowed;
    hide Step;
    NothingYet();
    if n > 0 {
      EveryRunIsSafe(events, n - 1);
      StepKeeps(After(events, n - 1), events[n - 1]);
    }
  }

  // ----- what the lock alone needs

  predicate LockSafe(w: World) {
    (forall i | 0 <= i < |w.runs| :: HoldsLock(w.runs[i])) && Exclusive(w.runs)
  }

  /** A cancel, or the last access of a rollback, writes the state of a run that is on its way. */
  predicate TakesLock(w: World, e: Event) {
    match e
    case Cancel(me) => me < |w.runs| && OnItsWay(w.runs[me])
    case Undo(i, fails) =>
      && i < |w.rollbacks| && w.rollbacks[i].phase == Restored && !fails
      && w.rollbacks[i].run < |w.runs| && OnItsWay(w.runs[w.rollbacks[i].run])
    case _ => false
  }

  predicate LockRespected(events: seq<Event>, n: nat)
    requires n <= |events|
  {
    forall k | 0 <= k < n :: !TakesLock(After(events, k), events[k])
  }

  lemma StateWritten(w: World, me: nat, state: JobState)
    requires LockSafe(w) && me < |w.runs| && !OnItsWay(w.runs[me])
    ensures LockSafe(w.(runs := w.runs[me := w.runs[me].(state := state)]))
  {
    var runs := w.runs[me := w.runs[me].(state := state)];
    forall i | 0 <= i < |runs|
      ensures HoldsLock(runs[i]) && Critical(runs[i]) == Critical(w.runs[i]) && runs[i].env == w.runs[i].env
    {
      assert HoldsLock(w.runs[i]);
    }
  }

  lemma LockStep(w: World, e: Event)
    requires LockSafe(w) && !TakesLock(w, e)
    ensures LockSafe(Step(w, e))
  {
    match e
    case Create(env, commit) => assert HoldsLock(Run(env, commit, QUEUED, Created));
    case Move(me, fails) =>
      if me < |w.runs| {
        assert HoldsLock(w.runs[me]);
        CheckKeepsExclusive(w, me, Moved(w, me, fails).0);
      }
    case Undo(i, fails) =>
      if i < |w.rollbacks| && w.rollbacks[i].phase == Restored && !fails && w.rollbacks[i].run < |w.runs| {
        StateWritten(w, w.rollbacks[i].run, ROLLED_BACK);
      }
    case Cancel(me) =>
      if me < |w.runs| {
        StateWritten(w, me, CANCELLED);
      }
    case _ =>
  }

  lemma {:induction false} LockHolds(events: seq<Event>, n: nat)
    requires n <= |events| && LockRespected(events, n)
    ensures LockSafe(After(events, n))
  {
    hide Step;
    hide TakesLock;
    if n > 0 {
      LockHolds(events, n - 1);
      LockStep(After(events, n - 1), events[n - 1]);
    }
  }

  /**
   * At most one run per environment is between its lock check and its first write of a final state, whatever is posted
   * or rolled back meanwhile, as long as nobody writes the state of a run that is on its way.
   */
  lemma AtMostOneRunInside(events: seq<Event>, n: nat, i: nat, j: nat)
    requires n <= |events| && LockRespected(events, n)
    requires i < j < |After(events, n).runs|
    requires Critical(After(events, n).runs[i]) && Critical(After(events, n).runs[j])
    ensures After(events, n).runs[i].env != After(events, n).runs[j].env
  {
    LockHolds(events, n);
  }

  /** Rollbacks that have their environment to themselves respect the lock. */
  lemma CarefulRespectsLock(events: seq<Event>, n: nat)
    requires n <= |events| && Careful(events, n)
    ensures LockRespected(events, n)
  {
    forall k | 0 <= k < n
      ensures !TakesLock(After(events, k), events[k])
    {
      EveryRunIsSafe(events, k);
      SafeRespectsLock(After(events, k), events[k]);
    }
  }

  lemma SafeRespectsLock(w: World, e: Event)
    requires Safe(w) && Separate(w) && Allowed(w, e)
    ensures !TakesLock(w, e)
  {
    if e.Undo? && e.rollback < |w.rollbacks| && w.rollbacks[e.rollback].phase == Restored {
      var r := w.rollbacks[e.rollback];
      assert OfItsRun(r, w.runs) && HoldsLock(w.runs[r.run]) && Idle(w, r.env);
    }
  }

  predicate DeploysOnly(events: seq<Event>, n: nat)
    requires n <= |events|
  {
    forall k | 0 <= k < n :: events[k].Create? || events[k].Move?
  }

  lemma {:induction false} NothingElse(events: seq<Event>, n: nat)
    requires n <= |events| && DeploysOnly(events, n)
    ensures After(events, n).rollbacks == [] && After(events, n).puts == []
  {
    hide Moved;
    if n > 0 {
      NothingElse(events, n - 1);
    }
  }

  /** Deploys alone need no care: however they interleave and wherever they fail, lock and table are safe. */
  lemma DeploysAreCareful(events: seq<Event>, n: nat)
    requires n <= |events| && DeploysOnly(events, n)
    ensures Careful(events, n) && Safe(After(events, n))
  {
    hide Step;
    hide Safe;
    forall k | 0 <= k < n
      ensures Separate(After(events, k)) && Allowed(After(events, k), events[k])
    {
      NothingElse(events, k);
    }
    EveryRunIsSafe(events, n);
  }

  // ----- when the lock is given back

  /** The run holds the lock and will never move again. */
  predicate Stuck(w: World, i: nat) {
    i < |w.runs| && w.runs[i].phase == Done && w.runs[i].state == RUNNING
  }

  /** An access of its own fails where nothing catches the error. */
  predicate Drops(w: World, e: Event, i: nat) {
    && e == Move(i, true) && i < |w.runs| && w.runs[i].state == RUNNING
    && (w.runs[i].phase == Ready || w.runs[i].phase == Denied || w.runs[i].phase.Failing?)
  }

  /** A cancel, or the last access of a rollback of that run. */
  predicate Frees(w: World, e: Event, i: nat) {
    || e == Cancel(i)
    || (e.Undo? && !e.fails && e.rollback < |w.rollbacks| && w.rollbacks[e.rollback].phase == Restored
        && w.rollbacks[e.rollback].run == i)
  }

  /** A run is RUNNING neither before its first access nor once its last state is written. */
  predicate Timely(r: Run) {
    r.phase == Created || r.phase == Finishing ==> r.state != RUNNING
  }

  lemma TimelyStep(w: World, e: Event, i: nat)
    requires i < |w.runs| ==> Timely(w.runs[i])
    ensures |w.runs| <= |Step(w, e).runs|
    ensures i < |Step(w, e).runs| ==> Timely(Step(w, e).runs[i])
    ensures Stuck(Step(w, e), i) <==> (Stuck(w, i) && !Frees(w, e, i)) || Drops(w, e, i)
  {
  }

  /** The last such failure left the lock taken, and nothing has given it back since. */
  predicate LeftTaken(events: seq<Event>, n: nat, i: nat)
    requires n <= |events|
  {
    exists k | 0 <= k < n :: DroppedAt(events, k, n, i)
  }

  predicate DroppedAt(events: seq<Event>, k: nat, n: nat, i: nat)
    requires k < n <= |events|
  {
    Drops(After(events, k), events[k], i) && forall j | k < j < n :: !Frees(After(events, j), events[j], i)
  }

  /**
   * A run that is over still holds the lock exactly when one of its own accesses failed before the try block or inside
   * the catch block, and neither a cancel nor a rollback of that run came afterwards.
   */
  lemma {:induction false} StuckIff(events: seq<Event>, n: nat, i: nat)
    requires n <= |events|
    ensures Stuck(After(events, n), i) <==> LeftTaken(events, n, i)
    ensures i < |After(events, n).runs| ==> Timely(After(events, n).runs[i])
  {
    hide Step;
    hide Stuck;
    hide Drops;
    hide Frees;
    hide Timely;
    if n == 0 {
      NobodyStuck(i);
    } else {
      StuckIff(events, n - 1, i);
      TimelyStep(After(events, n - 1), events[n - 1], i);
      LeftTakenStep(events, n - 1, i);
    }
  }

  lemma NobodyStuck(i: nat)
    ensures !Stuck(START, i)
  {
  }

  lemma LeftTakenStep(events: seq<Event>, n: nat, i: nat)
    requires n < |events|
    ensures LeftTaken(events, n + 1, i)
            <==> (LeftTaken(events, n, i) && !Frees(After(events, n), events[n], i))
                 || Drops(After(events, n), events[n], i)
  {
    hide Drops;
    hide Frees;
    hide After;
    if LeftTaken(events, n, i) && !Frees(After(events, n), events[n], i) {
      var k :| 0 <= k < n && DroppedAt(events, k, n, i);
      assert DroppedAt(events, k, n + 1, i);
    }
    if Drops(After(events, n), events[n], i) {
      assert DroppedAt(events, n, n + 1, i);
    }
    if LeftTaken(events, n + 1, i) {
      var k :| 0 <= k < n + 1 && DroppedAt(events, k, n + 1, i);
      assert k < n ==> DroppedAt(events, k, n, i);
    }
  }

  // ----- what the state of a run says of its past

  /** The event writes this state of the run. */
  predicate Writes(w: World, e: Event, i: nat, state: JobState) {
    match state
    case QUEUED => e.Create? && i == |w.runs|
    case RUNNING => Accesses(w, e, i) && w.runs[i].phase == Created
    case FAILED => Accesses(w, e, i) && w.runs[i].phase == Denied
    case SUCCEEDED => Accesses(w, e, i) && w.runs[i].phase == Recorded
    case ROLLED_BACK => (Accesses(w, e, i) && w.runs[i].phase.Failing?) || Marks(w, e, i)
    case CANCELLED => e == Cancel(i) && i < |w.runs|
  }

  /** An access of the run itself that goes through. */
  predicate Accesses(w: World, e: Event, i: nat) {
    e == Move(i, false) && i < |w.runs|
  }

  /** The last access of a rollback of the run. */
  predicate Marks(w: World, e: Event, i: nat) {
    && e.Undo? && !e.fails && e.rollback < |w.rollbacks| && i < |w.runs|
    && w.rollbacks[e.rollback].phase == Restored && w.rollbacks[e.rollback].run == i
  }

  predicate WritesNothing(w: World, e: Event, i: nat) {
    forall state :: !Writes(w, e, i, state)
  }

  lemma WriteStep(w: World, e: Event, i: nat)
    ensures |w.runs| <= |Step(w, e).runs|
    ensures forall state | Writes(w, e, i, state) :: i < |Step(w, e).runs| && Step(w, e).runs[i].state == state
    ensures i < |Step(w, e).runs| && WritesNothing(w, e, i) ==>
              i < |w.runs| && Step(w, e).runs[i].state == w.runs[i].state
  {
    assert WritesNothing(w, e, i) ==>
             && !Writes(w, e, i, QUEUED) && !Writes(w, e, i, RUNNING) && !Writes(w, e, i, FAILED)
             && !Writes(w, e, i, SUCCEEDED) && !Writes(w, e, i, ROLLED_BACK) && !Writes(w, e, i, CANCELLED);
  }

  /** The k-th event is the last of the first `n` to write a state of the run, and it writes this one. */
  predicate LastWrite(events: seq<Event>, k: nat, n: nat, i: nat, state: JobState)
    requires k < n <= |events|
  {
    && Writes(After(events, k), events[k], i, state)
    && forall j | k < j < n :: WritesNothing(After(events, j), events[j], i)
  }

  predicate LastWritten(events: seq<Event>, n: nat, i: nat, state: JobState)
    requires n <= |events|
  {
    exists k | 0 <= k < n :: LastWrite(events, k, n, i, state)
  }

  lemma LastWriteLonger(events: seq<Event>, k: nat, n: nat, i: nat, state: JobState)
    requires k < n < |events|
    ensures LastWrite(events, k, n + 1, i, state)
            <==> LastWrite(events, k, n, i, state) && WritesNothing(After(events, n), events[n], i)
  {
    hide Writes;
    hide WritesNothing;
    hide After;
  }

  lemma LastWriteStep(events: seq<Event>, n: nat, i: nat, state: JobState)
    requires n < |events|
    ensures var (w, e) := (After(events, n), events[n]);
            LastWritten(events, n + 1, i, state)
            <==> Writes(w, e, i, state) || (LastWritten(events, n, i, state) && WritesNothing(w, e, i))
  {
    hide Writes;
    hide WritesNothing;
    hide After;
    forall k | 0 <= k < n
      ensures LastWrite(events, k, n + 1, i, state)
              <==> LastWrite(events, k, n, i, state) && WritesNothing(After(events, n), events[n], i)
    {
      LastWriteLonger(events, k, n, i, state);
    }
    assert LastWrite(events, n, n + 1, i, state) <==> Writes(After(events, n), events[n], i, state);
    hide LastWrite;
    if k :| 0 <= k < n && LastWrite(events, k, n, i, state) {
      assert WritesNothing(After(events, n), events[n], i) ==> LastWrite(events, k, n + 1, i, state);
    }
    var m := n + 1;
    if k :| 0 <= k < m && LastWrite(events, k, m, i, state) {
      assert k < n ==> LastWrite(events, k, n, i, state);
    }
  }

  /** Whatever the run, its state is the one that the last write of its state wrote. */
  lemma {:induction false} StateIff(events: seq<Event>, n: nat, i: nat, state: JobState)
    requires n <= |events|
    ensures i < |After(events, n).runs| && After(events, n).runs[i].state == state
            <==> LastWritten(events, n, i, state)
  {
    hide Step;
    hide Writes;
    hide LastWrite;
    if n > 0 {
      StateIff(events, n - 1, i, state);
      WriteStep(After(events, n - 1), events[n - 1], i);
      LastWriteStep(events, n - 1, i, state);
    }
  }

  /** The access that follows the record step. */
  predicate Records(w: World, e: Event, i: nat) {
    Accesses(w, e, i) && w.runs[i].phase == Recorded
  }

  /** The catch block of the run goes through. */
  predicate Catches(w: World, e: Event, i: nat) {
    Accesses(w, e, i) && w.runs[i].phase.Failing?
  }

  /** What ends a success: a completed catch block, a rollback or a cancel. */
  predicate Unmakes(w: World, e: Event, i: nat) {
    Catches(w, e, i) || Marks(w, e, i) || (e == Cancel(i) && i < |w.runs|)
  }

  predicate RecordedSince(events: seq<Event>, k: nat, n: nat, i: nat)
    requires k < n <= |events|
  {
    Records(After(events, k), events[k], i) && forall j | k < j < n :: !Unmakes(After(events, j), events[j], i)
  }

  predicate PastRecord(w: World, i: nat) {
    i < |w.runs| && (w.runs[i].phase == Finishing || w.runs[i].phase.Failing? || w.runs[i].phase == Done)
  }

  lemma PastRecordStep(w: World, e: Event, i: nat)
    ensures PastRecord(w, i) || Records(w, e, i) ==> PastRecord(Step(w, e), i)
    ensures PastRecord(w, i) ==> (WritesNothing(w, e, i) <==> !Unmakes(w, e, i))
  {
    assert Unmakes(w, e, i) ==> Writes(w, e, i, ROLLED_BACK) || Writes(w, e, i, CANCELLED);
  }

  lemma {:induction false} PastRecordAfter(events: seq<Event>, k: nat, n: nat, i: nat)
    requires k < n <= |events| && Records(After(events, k), events[k], i)
    ensures PastRecord(After(events, n), i)
  {
    hide Step;
    hide PastRecord;
    PastRecordStep(After(events, n - 1), events[n - 1], i);
    if k < n - 1 {
      PastRecordAfter(events, k, n - 1, i);
    }
  }

  /** A run is SUCCEEDED exactly when it got past its record step and nothing has unmade that since. */
  lemma SucceededIff(events: seq<Event>, n: nat, i: nat)
    requires n <= |events|
    ensures i < |After(events, n).runs| && After(events, n).runs[i].state == SUCCEEDED
            <==> exists k | 0 <= k < n :: RecordedSince(events, k, n, i)
  {
    StateIff(events, n, i, SUCCEEDED);
    hide After;
    forall k | 0 <= k < n
      ensures LastWrite(events, k, n, i, SUCCEEDED) <==> RecordedSince(events, k, n, i)
    {
      RecordedIsLast(events, k, n, i);
    }
    hide LastWrite;
    hide RecordedSince;
    if k :| 0 <= k < n && LastWrite(events, k, n, i, SUCCEEDED) {
      assert RecordedSince(events, k, n, i);
    }
  }

  lemma RecordedIsLast(events: seq<Event>, k: nat, n: nat, i: nat)
    requires k < n <= |events|
    ensures LastWrite(events, k, n, i, SUCCEEDED) <==> RecordedSince(events, k, n, i)
  {
    hide Unmakes;
    hide WritesNothing;
    if Records(After(events, k), events[k], i) {
      forall j | k < j < n
        ensures WritesNothing(After(events, j), events[j], i) <==> !Unmakes(After(events, j), events[j], i)
      {
        PastRecordAfter(events, k, j, i);
        PastRecordStep(After(events, j), events[j], i);
      }
    }
    hide After;
  }

  /** SUCCEEDED is written by the access after the record step and by nothing else. */
  predicate SucceedsLate(r: Run) {
    r.state == SUCCEEDED ==> r.phase == Finishing || r.phase == Failing(true) || r.phase == Done
  }

  lemma {:induction false} SucceedsLateAlways(events: seq<Event>, n: nat, i: nat)
    requires n <= |events|
    ensures i < |After(events, n).runs| ==> SucceedsLate(After(events, n).runs[i])
  {
    hide SucceedsLate;
    if n > 0 {
      SucceedsLateAlways(events, n - 1, i);
      SucceedsLateStep(After(events, n - 1), events[n - 1], i);
    } else {
      hide Step;
    }
  }

  lemma SucceedsLateStep(w: World, e: Event, i: nat)
    requires i < |w.runs| ==> SucceedsLate(w.runs[i])
    ensures i < |Step(w, e).runs| ==> SucceedsLate(Step(w, e).runs[i])
  {
  }

  /** An access of the run fails between its lock check and its first write of a final state. */
  predicate FailsInside(w: World, e: Event, i: nat) {
    e == Move(i, true) && i < |w.runs| && Critical(w.runs[i])
  }

  /** The run is in its catch block, or over, and was not successful. */
  predicate Unsuccessful(w: World, i: nat) {
    i < |w.runs| && w.runs[i].state != SUCCEEDED && (w.runs[i].phase == Failing(false) || w.runs[i].phase == Done)
  }

  lemma UnsuccessfulStep(w: World, e: Event, i: nat)
    ensures Unsuccessful(w, i) ==> Unsuccessful(Step(w, e), i)
    ensures FailsInside(w, e, i) && SucceedsLate(w.runs[i]) ==> Unsuccessful(Step(w, e), i)
  {
  }

  /** A run with a failing access inside is never successful afterwards. */
  lemma {:induction false} FailedIsNotSuccessful(events: seq<Event>, k: nat, n: nat, i: nat)
    requires k < n <= |events| && FailsInside(After(events, k), events[k], i)
    ensures Unsuccessful(After(events, n), i)
  {
    hide Step;
    hide Unsuccessful;
    SucceedsLateAlways(events, k, i);
    UnsuccessfulStep(After(events, n - 1), events[n - 1], i);
    if k < n - 1 {
      FailedIsNotSuccessful(events, k, n - 1, i);
    }
  }

  /** And once its catch block went through it stays rolled back, unless somebody cancels it. */
  lemma {:induction false} CaughtIsRolledBack(events: seq<Event>, k: nat, n: nat, i: nat)
    requires k < n <= |events| && Catches(After(events, k), events[k], i)
    requires forall j | k < j < n :: events[j] != Cancel(i)
    ensures RolledBackRun(After(events, n), i)
  {
    hide Step;
    hide RolledBackRun;
    RolledBackStep(After(events, n - 1), events[n - 1], i);
    if k < n - 1 {
      CaughtIsRolledBack(events, k, n - 1, i);
    }
  }

  predicate RolledBackRun(w: World, i: nat) {
    i < |w.runs| && w.runs[i].state == ROLLED_BACK && w.runs[i].phase == Done
  }

  lemma RolledBackStep(w: World, e: Event, i: nat)
    ensures RolledBackRun(w, i) && e != Cancel(i) ==> RolledBackRun(Step(w, e), i)
    ensures Catches(w, e, i) ==> RolledBackRun(Step(w, e), i)
  {
  }

  /** Until then every other run of the environment is refused. */
  lemma StuckDeniesOthers(w: World, i: nat, me: nat)
    requires Stuck(w, i) && me < |w.runs| && me != i && w.runs[me].env == w.runs[i].env
    requires w.runs[me].phase == Created
    ensures Moves(w, me, 3) == WithRun(w, me, w.runs[me].(state := FAILED, phase := Done), w.deployments)
  {
    hide Moves;
    InPlace(w, me);
    var (r, ds) := (w.runs[me], w.deployments);
    MovesOn(w, me, 0, r, ds);
    var ready := r.(state := RUNNING, phase := Ready);
    assert w.runs[me := ready][i] == w.runs[i];
    MovesOn(w, me, 1, ready, ds);
    MovesOn(w, me, 2, ready.(phase := Denied), ds);
  }

  /** At most one deployment per environment is ever active. */
  lemma AtMostOneDeploymentActive(events: seq<Event>, n: nat, i: nat, j: nat)
    requires n <= |events| && Careful(events, n)
    requires i < j < |After(events, n).deployments|
    requires After(events, n).deployments[i].env == After(events, n).deployments[j].env
    requires After(events, n).deployments[i].status == Active
    ensures After(events, n).deployments[j].status != Active
  {
    EveryRunIsSafe(events, n);
  }

  // ----- what a run does alone, and where the lock does not reach

  /** One run moves `count` times without an error. */
  function Moves(w: World, me: nat, count: nat): World {
    if count == 0 then w else Step(Moves(w, me, count - 1), Move(me, false))
  }

  /** One rollback makes `count` accesses without an error. */
  function Undoes(w: World, i: nat, count: nat): World {
    if count == 0 then w else Step(Undoes(w, i, count - 1), Undo(i, false))
  }

  function WithRun(w: World, me: nat, r: Run, ds: seq<Deployment>): World
    requires me < |w.runs|
  {
    w.(runs := w.runs[me := r], deployments := ds)
  }

  function WithRollBack(w: World, i: nat, r: RollBack, ds: seq<Deployment>): World
    requires i < |w.rollbacks|
  {
    w.(rollbacks := w.rollbacks[i := r], deployments := ds)
  }

  lemma MovesOn(w: World, me: nat, count: nat, r: Run, ds: seq<Deployment>)
    requires me < |w.runs| && Moves(w, me, count) == WithRun(w, me, r, ds)
    ensures var (next, after) := Moved(WithRun(w, me, r, ds), me, false);
            Moves(w, me, count + 1) == WithRun(w, me, next, after)
  {
    hide Moved;
  }

  lemma UndoesOn(w: World, i: nat, count: nat, r: RollBack, ds: seq<Deployment>)
    requires i < |w.rollbacks| && Undoes(w, i, count) == WithRollBack(w, i, r, ds) && r.phase != Restored
    ensures var (next, after) := Undone(r, ds, false);
            Undoes(w, i, count + 1) == WithRollBack(w, i, next, after)
  {
    hide Undone;
  }

  lemma InPlace(w: World, i: nat)
    ensures i < |w.runs| ==> Moves(w, i, 0) == WithRun(w, i, w.runs[i], w.deployments)
    ensures i < |w.rollbacks| ==> Undoes(w, i, 0) == WithRollBack(w, i, w.rollbacks[i], w.deployments)
  {
    assert i < |w.runs| ==> w.runs[i := w.runs[i]] == w.runs;
    assert i < |w.rollbacks| ==> w.rollbacks[i := w.rollbacks[i]] == w.rollbacks;
  }

  predicate FreeFor(w: World, me: nat)
    requires me < |w.runs|
  {
    !Locked(w.runs, w.runs[me].env, me)
  }

  /** A new run passes the check when no other run of its environment is RUNNING. */
  lemma Enters(w: World, me: nat)
    requires me < |w.runs| && w.runs[me].phase == Created && FreeFor(w, me)
    ensures Moves(w, me, 2) == WithRun(w, me, w.runs[me].(state := RUNNING, phase := Pipeline), w.deployments)
  {
    hide Moves;
    InPlace(w, me);
    var r := w.runs[me];
    MovesOn(w, me, 0, r, w.deployments);
    var ready := r.(state := RUNNING, phase := Ready);
    assert !Locked(w.runs[me := ready], r.env, me);
    MovesOn(w, me, 1, ready, w.deployments);
  }

  /** The table after a deploy of the commit. */
  function Deployed(ds: seq<Deployment>, env: Env, commit: string): seq<Deployment> {
    var prev := Latest(ds, |ds|, env, Active);
    (if prev.Some? then WithStatus(ds, prev.value, Superseded) else ds) + [Deployment(env, commit, Active)]
  }

  /**
   * While no other run of its environment is RUNNING, a run gets from its creation to SUCCEEDED in six accesses; the
   * other runs and rollbacks, and the table of other environments, stay as they are.
   */
  lemma AloneSucceeds(w: World, me: nat)
    requires me < |w.runs| && w.runs[me].phase == Created && FreeFor(w, me)
    ensures var r := w.runs[me];
            Moves(w, me, 6)
            == WithRun(w, me, r.(state := SUCCEEDED, phase := Finishing), Deployed(w.deployments, r.env, r.commit))
    ensures SameElsewhere(w.deployments, Deployed(w.deployments, w.runs[me].env, w.runs[me].commit), w.runs[me].env)
  {
    hide Moves;
    Enters(w, me);
    var (r, ds) := (w.runs[me].(state := RUNNING), w.deployments);
    var prev := Latest(ds, |ds|, r.env, Active);
    MovesOn(w, me, 2, r.(phase := Pipeline), ds);
    MovesOn(w, me, 3, r.(phase := Superseding(prev)), ds);
    var swept := if prev.Some? then WithStatus(ds, prev.value, Superseded) else ds;
    MovesOn(w, me, 4, r.(phase := Creating), swept);
    MovesOn(w, me, 5, r.(phase := Recorded), swept + [Deployment(r.env, r.commit, Active)]);
  }

  /** A run created in an environment without a RUNNING run gets past the check. */
  lemma NewRunEnters(w: World, env: Env, commit: string)
    requires Idle(w, env)
    ensures var created := Step(w, Create(env, commit));
            && FreeFor(created, |w.runs|)
            && Moves(created, |w.runs|, 2) == w.(runs := w.runs + [Run(env, commit, RUNNING, Pipeline)])
  {
    hide Moves;
    var created := Step(w, Create(env, commit));
    assert forall i | 0 <= i < |w.runs| :: created.runs[i] == w.runs[i];
    Enters(created, |w.runs|);
  }

  /**
   * An error after SUCCEEDED is written sends the run into its rollback without the lock: another run of the
   * environment gets past its check at the same time.
   */
  lemma LateFailureOverlaps(w: World, me: nat, commit: string)
    requires me < |w.runs| && w.runs[me].phase == Finishing && Idle(w, w.runs[me].env)
    ensures var failing := Step(w, Move(me, true));
            var created := Step(failing, Create(w.runs[me].env, commit));
            Moves(created, |w.runs|, 2).runs
            == w.runs[me := w.runs[me].(phase := Failing(true))] + [Run(w.runs[me].env, commit, RUNNING, Pipeline)]
  {
    hide Moves;
    NewRunEnters(Step(w, Move(me, true)), w.runs[me].env, commit);
  }

  /** The rollback that `Ask` begins, after its two lookups. */
  lemma LooksUp(w: World, me: nat, current: Option<nat>, previous: nat)
    requires me < |w.runs|
    requires current == Latest(w.deployments, |w.deployments|, w.runs[me].env, Active)
    requires Latest(w.deployments, |w.deployments|, w.runs[me].env, Superseded) == Some(previous)
    ensures var env := w.runs[me].env;
            Undoes(Step(w, Ask(me)), |w.rollbacks|, 2)
            == w.(rollbacks := w.rollbacks + [RollBack(me, env, Swapping(current, previous))])
  {
    hide Undoes;
    var (asked, i, r) := (Step(w, Ask(me)), |w.rollbacks|, RollBack(me, w.runs[me].env, Asked));
    InPlace(asked, i);
    UndoesOn(asked, i, 0, r, w.deployments);
    UndoesOn(asked, i, 1, r.(phase := Found(current)), w.deployments);
  }

  /** The table after both writes of a rollback. */
  function SwappedBack(ds: seq<Deployment>, current: Option<nat>, previous: nat): seq<Deployment> {
    WithStatus(if current.Some? then WithStatus(ds, current.value, RolledBack) else ds, previous, Active)
  }

  lemma SwapsBack(w: World, i: nat, current: Option<nat>, previous: nat)
    requires i < |w.rollbacks| && w.rollbacks[i].phase == Swapping(current, previous)
    ensures Undoes(w, i, 2)
            == WithRollBack(w, i, w.rollbacks[i].(phase := Restored), SwappedBack(w.deployments, current, previous))
  {
    hide Undoes;
    var r := w.rollbacks[i];
    InPlace(w, i);
    UndoesOn(w, i, 0, r, w.deployments);
    var swept := if current.Some? then WithStatus(w.deployments, current.value, RolledBack) else w.deployments;
    UndoesOn(w, i, 1, r.(phase := Swept(previous)), swept);
  }

  /** Both halves of a rollback at once; its last access is still to come. */
  lemma RollsBack(w: World, me: nat, current: Option<nat>, previous: nat)
    requires me < |w.runs|
    requires current == Latest(w.deployments, |w.deployments|, w.runs[me].env, Active)
    requires Latest(w.deployments, |w.deployments|, w.runs[me].env, Superseded) == Some(previous)
    ensures Undoes(Undoes(Step(w, Ask(me)), |w.rollbacks|, 2), |w.rollbacks|, 2)
            == w.(deployments := SwappedBack(w.deployments, current, previous),
                  rollbacks := w.rollbacks + [RollBack(me, w.runs[me].env, Restored)])
  {
    hide Undoes;
    LooksUp(w, me, current, previous);
    var r := RollBack(me, w.runs[me].env, Swapping(current, previous));
    SwapsBack(w.(rollbacks := w.rollbacks + [r]), |w.rollbacks|, current, previous);
  }

  /** A rollback that fails, or finds nothing to go back to, is over and has changed nothing. */
  lemma RollBackThrows(w: World, i: nat, fails: bool)
    requires i < |w.rollbacks|
    requires var r := w.rollbacks[i];
             fails || (r.phase.Found? && Latest(w.deployments, |w.deployments|, r.env, Superseded) == None)
             || r.phase == Ended
    ensures var after := Step(w, Undo(i, fails));
            after.rollbacks[i].phase == Ended && after.deployments == w.deployments && after.runs == w.runs
  {
  }

  /** Its last access ends it, with its run rolled back and the table as it is. */
  lemma RollBackEnds(w: World, i: nat)
    requires i < |w.rollbacks| && w.rollbacks[i].phase == Restored && w.rollbacks[i].run < |w.runs|
    ensures var (r, after) := (w.rollbacks[i], Step(w, Undo(i, false)));
            after.rollbacks[i] == r.(phase := Ended) && after.runs[r.run].state == ROLLED_BACK
            && after.deployments == w.deployments
  {
  }

  /** A transaction that is given up leaves the table alone, and none is committed twice. */
  lemma PostOnce(w: World, i: nat, fails: bool)
    requires i < |w.puts|
    ensures var after := Step(w, Commit(i, fails));
            !after.puts[i].pending && (fails || !w.puts[i].pending ==> after.deployments == w.deployments)
  {
  }

  /** A manual rollback of a run that is still inside frees the lock for the next one. */
  lemma CarelessRollbackUnlocks(w: World, me: nat, previous: nat, commit: string)
    requires me < |w.runs| && w.runs[me].phase == Pipeline && FreeFor(w, me)
    requires Latest(w.deployments, |w.deployments|, w.runs[me].env, Superseded) == Some(previous)
    ensures var (env, i) := (w.runs[me].env, |w.rollbacks|);
            var restored := Undoes(Undoes(Step(w, Ask(me)), i, 2), i, 2);
            var created := Step(Step(restored, Undo(i, false)), Create(env, commit));
            Moves(created, |w.runs|, 2).runs
            == w.runs[me := w.runs[me].(state := ROLLED_BACK)] + [Run(env, commit, RUNNING, Pipeline)]
  {
    hide Undoes;
    hide Moves;
    var (env, i) := (w.runs[me].env, |w.rollbacks|);
    RollsBack(w, me, Latest(w.deployments, |w.deployments|, env, Active), previous);
    var ended := Step(Undoes(Undoes(Step(w, Ask(me)), i, 2), i, 2), Undo(i, false));
    assert ended.runs == w.runs[me := w.runs[me].(state := ROLLED_BACK)];
    NewRunEnters(ended, env, commit);
  }

  // ----- a rollback that is alone only when it begins

  /**
   * Idle at the start is not enough: a run that enters while its own rollback is under way loses the lock to the last
   * write of that rollback, and a second run gets inside.
   */
  lemma QueuedRunLosesTheLock(w: World, me: nat, previous: nat, commit: string)
    requires me < |w.runs| && w.runs[me].phase == Created && Idle(w, w.runs[me].env)
    requires Latest(w.deployments, |w.deployments|, w.runs[me].env, Superseded) == Some(previous)
    ensures var (env, i) := (w.runs[me].env, |w.rollbacks|);
            var entered := Moves(Undoes(Undoes(Step(w, Ask(me)), i, 2), i, 2), me, 2);
            var created := Step(Step(entered, Undo(i, false)), Create(env, commit));
            Moves(created, |w.runs|, 2).runs
            == w.runs[me := w.runs[me].(state := ROLLED_BACK, phase := Pipeline)]
               + [Run(env, commit, RUNNING, Pipeline)]
  {
    hide Undoes;
    hide Moves;
    var (env, i) := (w.runs[me].env, |w.rollbacks|);
    RollsBack(w, me, Latest(w.deployments, |w.deployments|, env, Active), previous);
    var restored := Undoes(Undoes(Step(w, Ask(me)), i, 2), i, 2);
    Enters(restored, me);
    var ended := Step(Moves(restored, me, 2), Undo(i, false));
    assert ended.runs == w.runs[me := w.runs[me].(state := ROLLED_BACK, phase := Pipeline)];
    NewRunEnters(ended, env, commit);
  }

  predicate BothActive(ds: seq<Deployment>, env: Env, i: nat, j: nat) {
    && i != j && i < |ds| && j < |ds| && ds[i].env == env && ds[j].env == env
    && ds[i].status == Active && ds[j].status == Active
  }

  /** A deploy between the lookups and the writes of a rollback leaves two active deployments. */
  lemma DeployDuringRollback(w: World, me: nat, current: nat, previous: nat, commit: string)
    requires me < |w.runs| && Idle(w, w.runs[me].env)
    requires Latest(w.deployments, |w.deployments|, w.runs[me].env, Active) == Some(current)
    requires Latest(w.deployments, |w.deployments|, w.runs[me].env, Superseded) == Some(previous)
    ensures var (env, i) := (w.runs[me].env, |w.rollbacks|);
            var looked := Undoes(Step(w, Ask(me)), i, 2);
            var deployed := Moves(Step(looked, Create(env, commit)), |w.runs|, 6);
            BothActive(Undoes(deployed, i, 2).deployments, env, previous, |w.deployments|)
  {
    hide Undoes;
    hide Moves;
    var (env, i) := (w.runs[me].env, |w.rollbacks|);
    LooksUp(w, me, Some(current), previous);
    var created := Step(Undoes(Step(w, Ask(me)), i, 2), Create(env, commit));
    assert forall k | 0 <= k < |w.runs| :: created.runs[k] == w.runs[k];
    AloneSucceeds(created, |w.runs|);
    SwapsBack(Moves(created, |w.runs|, 6), i, Some(current), previous);
  }

  /** A whole rollback between the two lookups of another leaves two active deployments, with no run anywhere. */
  lemma RollbackDuringRollback(w: World, me: nat, current: nat, previous: nat, older: nat)
    requires me < |w.runs|
    requires Latest(w.deployments, |w.deployments|, w.runs[me].env, Active) == Some(current)
    requires Latest(w.deployments, |w.deployments|, w.runs[me].env, Superseded) == Some(previous)
    requires var after := SwappedBack(w.deployments, Some(current), previous);
             Latest(after, |after|, w.runs[me].env, Superseded) == Some(older)
    ensures var i := |w.rollbacks|;
            var first := Undoes(Step(w, Ask(me)), i, 1);
            var other := Undoes(Undoes(Step(first, Ask(me)), i + 1, 2), i + 1, 2);
            BothActive(Undoes(Step(other, Undo(i, false)), i, 2).deployments, w.runs[me].env, older, previous)
  {
    hide Undoes;
    var (env, i) := (w.runs[me].env, |w.rollbacks|);
    var (asked, r) := (Step(w, Ask(me)), RollBack(me, env, Asked));
    InPlace(asked, i);
    UndoesOn(asked, i, 0, r, w.deployments);
    var first := Undoes(asked, i, 1);
    RollsBack(first, me, Some(current), previous);
    var other := Undoes(Undoes(Step(first, Ask(me)), i + 1, 2), i + 1, 2);
    SwapsBack(Step(other, Undo(i, false)), i, Some(current), older);
  }

  // ----- the other writers

  /** Cancelling a run that is inside frees the lock while its pipeline goes on. */
  lemma CancelUnlocks(w: World, me: nat, commit: string)
    requires me < |w.runs| && Critical(w.runs[me]) && FreeFor(w, me)
    ensures var env := w.runs[me].env;
            var created := Step(Step(w, Cancel(me)), Create(env, commit));
            && Moves(created, |w.runs|, 2).runs
               == w.runs[me := w.runs[me].(state := CANCELLED)] + [Run(env, commit, RUNNING, Pipeline)]
            && Critical(w.runs[me].(state := CANCELLED))
  {
    hide Moves;
    NewRunEnters(Step(w, Cancel(me)), w.runs[me].env, commit);
  }

  /** So does cancelling it before its check, which it passes all the same. */
  lemma CancelBeforeCheckUnlocks(w: World, me: nat, commit: string)
    requires me < |w.runs| && w.runs[me].phase == Ready && FreeFor(w, me)
    ensures var env := w.runs[me].env;
            var entered := Step(Step(w, Cancel(me)), Move(me, false));
            Moves(Step(entered, Create(env, commit)), |w.runs|, 2).runs
            == w.runs[me := w.runs[me].(state := CANCELLED, phase := Pipeline)] + [Run(env, commit, RUNNING, Pipeline)]
  {
    hide Moves;
    var cancelled := Step(w, Cancel(me));
    assert forall i | 0 <= i < |w.runs| && i != me :: cancelled.runs[i] == w.runs[i];
    assert !Locked(cancelled.runs, w.runs[me].env, me);
    NewRunEnters(Step(cancelled, Move(me, false)), w.runs[me].env, commit);
  }

  /** A deployment posted and committed on its own. */
  function PutNow(w: World, env: Env, commit: string): World {
    Step(Step(w, Post(env, commit)), Commit(|w.puts|, false))
  }

  lemma PutNowTable(w: World, env: Env, commit: string)
    ensures var after := PutNow(w, env, commit);
            && after.runs == w.runs && after.rollbacks == w.rollbacks && |after.deployments| == |w.deployments| + 1
            && after.deployments[|w.deployments|] == Deployment(env, commit, Active)
            && (forall i | 0 <= i < |w.deployments| :: after.deployments[i].env == w.deployments[i].env)
            && forall i | 0 <= i < |w.deployments| && w.deployments[i].status != Active ::
                 after.deployments[i] == w.deployments[i]
  {
  }

  /** A deployment posted between the lookup and the create of a run leaves two active deployments. */
  lemma PostDuringRecord(w: World, me: nat, prev: Option<nat>, commit: string)
    requires me < |w.runs| && w.runs[me].phase == Superseding(prev)
    requires prev.Some? ==> prev.value < |w.deployments|
    ensures var (env, n) := (w.runs[me].env, |w.deployments|);
            BothActive(Moves(PutNow(w, env, commit), me, 2).deployments, env, n, n + 1)
  {
    hide Moves;
    var (r, n) := (w.runs[me], |w.deployments|);
    var put := PutNow(w, r.env, commit);
    PutNowTable(w, r.env, commit);
    InPlace(put, me);
    MovesOn(put, me, 0, r, put.deployments);
    var swept := if prev.Some? then WithStatus(put.deployments, prev.value, Superseded) else put.deployments;
    MovesOn(put, me, 1, r.(phase := Creating), swept);
  }

  /** One posted between the lookups and the writes of a rollback does too. */
  lemma PostDuringRollback(w: World, i: nat, current: Option<nat>, previous: nat, commit: string)
    requires i < |w.rollbacks| && w.rollbacks[i].phase == Swapping(current, previous)
    requires current.Some? ==> current.value < |w.deployments|
    requires previous < |w.deployments| && w.deployments[previous].env == w.rollbacks[i].env
    ensures var (env, n) := (w.rollbacks[i].env, |w.deployments|);
            BothActive(Undoes(PutNow(w, env, commit), i, 2).deployments, env, previous, n)
  {
    hide Undoes;
    var env := w.rollbacks[i].env;
    PutNowTable(w, env, commit);
    SwapsBack(PutNow(w, env, commit), i, current, previous);
  }

  /** Two posted at once do, since neither transaction sees the row of the other. */
  lemma PostDuringPost(w: World, env: Env, a: string, b: string)
    ensures var (i, n) := (|w.puts|, |w.deployments|);
            var posted := Step(Step(w, Post(env, a)), Post(env, b));
            BothActive(Step(Step(posted, Commit(i, false)), Commit(i + 1, false)).deployments, env, n, n + 1)
  {
    var (i, n) := (|w.puts|, |w.deployments|);
    var posted := Step(Step(w, Post(env, a)), Post(env, b));
    var first := Step(posted, Commit(i, false));
    assert first.puts[i + 1] == Put(env, b, ActiveRows(w.deployments, env), true);
    assert first.deployments[n] == Deployment(env, a, Active) && n !in first.puts[i + 1].found;
  }

  lemma BecomesLate(w: World, e: Event, i: nat)
    requires i < |Step(w, e).runs| && Step(w, e).runs[i].phase == Failing(true)
    ensures i < |w.runs|
    ensures w.runs[i].phase == Failing(true) || (e.Move? && e.fails && e.run == i && w.runs[i].phase == Finishing)
  {
  }

  /** A failure after SUCCEEDED is the only way to be in the rollback outside the lock. */
  lemma {:induction false} OnlyLateFailures(events: seq<Event>, n: nat, i: nat)
    requires n <= |events| && i < |After(events, n).runs|
    requires forall k | 0 <= k < n && events[k].Move? && events[k].fails ::
               var w := After(events, k);
               events[k].run < |w.runs| ==> w.runs[events[k].run].phase != Finishing
    ensures After(events, n).runs[i].phase != Failing(true)
  {
    if n > 0 {
      var w := After(events, n - 1);
      if i < |w.runs| {
        OnlyLateFailures(events, n - 1, i);
      }
      if After(events, n).runs[i].phase == Failing(true) {
        BecomesLate(w, events[n - 1], i);
      }
    }
  }
}
