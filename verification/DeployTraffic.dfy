/**
 * The traffic side of one deploy in managed proxy mode (src/lib/deploy.ts, `runDeploy`; src/lib/proxy.ts): which
 * containers run and where the proxy points after every step, whichever call fails.
 */
module DeployTraffic {
  import opened Wrappers
  import Health

  type Name = string

  type Port = int

  /** The host port a container is bound to while it runs. */
  datatype Container = Container(port: Port, running: bool)

  type Containers = map<Name, Container>

  datatype Snapshot = Snapshot(containers: Containers, target: Port)

  /** Some running container is bound to the port. */
  ghost predicate Served(c: Containers, p: Port) {
    exists name :: name in c && c[name] == Container(p, true)
  }

  ghost predicate Serving(s: Snapshot) {
    Served(s.containers, s.target)
  }

  predicate Up(c: Containers, name: Name, p: Port) {
    name in c && c[name] == Container(p, true)
  }

  function Stopped(c: Containers, name: Name): Containers
    requires name in c
  {
    c[name := c[name].(running := false)]
  }

  predicate Running(c: Containers, name: Name) {
    name in c && c[name].running
  }

  /** From index `from` on, the named container does not run on the port. */
  ghost predicate NeverUp(history: seq<Snapshot>, from: nat, name: Name, p: Port) {
    forall i | from <= i < |history| :: !Up(history[i].containers, name, p)
  }

  /** Only the named container may differ. */
  ghost predicate SameBut(before: Containers, after: Containers, name: Name) {
    before - {name} == after - {name}
  }

  /** From index `from` on, the target stays and only the named container changes. */
  ghost predicate OnlyOneChanges(history: seq<Snapshot>, from: nat, before: Containers, target: Port, name: Name) {
    forall i | from <= i < |history| :: history[i].target == target && SameBut(before, history[i].containers, name)
  }

  lemma OneMoreStep(start: seq<Snapshot>, history: seq<Snapshot>, s: Snapshot, before: Containers, name: Name)
    requires start <= history && OnlyOneChanges(history, |start|, before, s.target, name)
    requires SameBut(before, s.containers, name)
    ensures start <= history + [s] && OnlyOneChanges(history + [s], |start|, before, s.target, name)
  {
  }

  lemma StepsJoin(start: seq<Snapshot>, middle: seq<Snapshot>, history: seq<Snapshot>, before: Containers,
                  between: Containers, target: Port, name: Name)
    requires start <= middle <= history && SameBut(before, between, name)
    requires OnlyOneChanges(middle, |start|, before, target, name)
    requires OnlyOneChanges(history, |middle|, between, target, name)
    ensures OnlyOneChanges(history, |start|, before, target, name)
  {
    forall i | |start| <= i < |history|
      ensures history[i].target == target && SameBut(before, history[i].containers, name)
    {
      if i < |middle| {
        assert history[i] == middle[i];
      }
    }
  }

  /** What a play does to the containers of the host. */
  type Play = Containers -> Containers

  /** The play keeps the named container running, on the port it is bound to. */
  ghost predicate LeavesAlone(play: Play, name: Name) {
    forall c: Containers | Running(c, name) :: name in play(c) && play(c)[name] == c[name]
  }

  /** How the application answers the n-th probe while it runs. */
  type App = nat -> Health.Probe

  ghost predicate PassesHealth(app: App, healthConsecutive: int) {
    exists k: nat :: k <= 6 * healthConsecutive + 20 && Health.PassedAt(app, healthConsecutive, k)
  }

  /** Every snapshot from index `from` on serves traffic. */
  ghost predicate AllServing(history: seq<Snapshot>, from: nat) {
    forall i | from <= i < |history| :: Serving(history[i])
  }

  /** `occupied` are the ports that something other than a container listens on. */
  datatype Config = Config(proxyListenPort: Port, healthConsecutive: int, occupied: set<Port>)

  ghost predicate Free(c: Containers, cfg: Config, p: Port) {
    8400 <= p < 8600 && p != cfg.proxyListenPort && p !in cfg.occupied && !Served(c, p)
  }

  ghost predicate SomeFree(c: Containers, cfg: Config) {
    exists p :: Free(c, cfg, p)
  }

  lemma NotYetServing(c: Containers, name: Name, p: Port)
    requires name !in c
    ensures Served(c[name := Container(p, false)], p) <==> Served(c, p)
  {
    var made := c[name := Container(p, false)];
    if n :| n in c && c[n] == Container(p, true) {
      assert made[n] == Container(p, true);
    }
  }

  class Host {
    var containers: Containers
    var target: Port                 // the upstream of the managed proxy
    var calls: nat                   // external calls made so far
    const luck: nat -> bool          // whether each external call succeeds
    ghost var history: seq<Snapshot>

    constructor (containers: Containers, target: Port, luck: nat -> bool)
      ensures this.containers == containers && this.target == target && this.luck == luck
      ensures calls == 0 && history == []
    {
      this.containers, this.target, this.luck, calls, history := containers, target, luck, 0, [];
    }

    /** From here on every call succeeds. */
    ghost predicate AllGood(from: nat)
    {
      forall k: nat | from <= k :: luck(k)
    }

    /** These calls succeed. */
    ghost predicate Good(from: nat, to: nat)
    {
      forall k: nat | from <= k < to :: luck(k)
    }

    /** Of these calls none but the excused ones fails. */
    ghost predicate AllBut(from: nat, to: nat, excused: set<int>) {
      forall k: nat | from <= k < to && !luck(k) :: k in excused
    }

    /** From here on every call but one succeeds. */
    ghost predicate FailsOnlyAt(from: nat, at: nat)
    {
      forall k: nat | from <= k :: luck(k) <==> k != at
    }

    /** One call that may throw and changes neither containers nor proxy: a log line, git, a ping, a database access. */
    method Call() returns (ok: bool)
      modifies this`calls
      ensures calls == old(calls) + 1 && ok == luck(old(calls))
    {
      ok := luck(calls);
      calls := calls + 1;
    }

    method Become(next: Containers)
      modifies this`containers, this`history
      ensures containers == next && history == old(history) + [Snapshot(containers, target)]
    {
      containers, history := next, history + [Snapshot(next, target)];
    }

    /** `stopAndRemove`: throws only when the containers cannot be listed. */
    method StopAndRemove(name: Name) returns (ok: bool)
      modifies this
      ensures target == old(target) && calls >= old(calls)
      ensures SameBut(old(containers), containers, name)
      ensures old(history) <= history
      ensures containers == if |history| > |old(history)| then history[|history| - 1].containers else old(containers)
      ensures OnlyOneChanges(history, |old(history)|, old(containers), target, name)
      ensures !ok ==> containers == old(containers) && history == old(history)
      ensures Running(containers, name) ==> containers == old(containers)
      ensures forall i | |old(history)| <= i < |history| :: !Running(history[i].containers, name)
      // the list must come; that stopping or removing fails is swallowed
      ensures ok <==> luck(old(calls))
      ensures ok ==> AllBut(old(calls), calls, {calls - 2, calls - 1})
      ensures calls == old(calls) + if ok && name in old(containers) then 3 else 1
      ensures Good(old(calls), calls) ==> ok && containers == old(containers) - {name}
      ensures containers == if !ok || name !in old(containers) then old(containers)
                            else if luck(old(calls) + 2) then old(containers) - {name}
                            else if luck(old(calls) + 1) then Stopped(old(containers), name)
                            else old(containers)
      ensures Good(old(calls), calls) && name in old(containers) ==>
                |history| > |old(history)| && history[|history| - 1] == Snapshot(containers, target)
    {
      ok := Call();
      if !ok || name !in containers { return; }
      var stopped := Call();
      if stopped {
        OneMoreStep(old(history), history, Snapshot(Stopped(containers, name), target), old(containers), name);
        Become(Stopped(containers, name));
      }
      var removed := Call();
      if removed {
        OneMoreStep(old(history), history, Snapshot(containers - {name}, target), old(containers), name);
        Become(containers - {name});
      }
    }

    /** The second part of `startContainer`: create the container and start it. */
    method RunContainer(name: Name, port: Port) returns (ok: bool)
      modifies this
      ensures target == old(target) && old(calls) <= calls <= old(calls) + 3
      ensures SameBut(old(containers), containers, name) && old(history) <= history
      ensures OnlyOneChanges(history, |old(history)|, old(containers), target, name)
      ensures ok ==>
                && Up(containers, name, port)
                && |history| > |old(history)| && history[|history| - 1].containers == containers
      ensures !ok && !Up(old(containers), name, port) ==> NeverUp(history, |old(history)|, name, port)
      ensures ok ==>
                && Good(old(calls), calls) && calls == old(calls) + 3
                && name !in old(containers) && !Served(old(containers), port)
      ensures Good(old(calls), calls) && name !in old(containers) && !Served(old(containers), port) ==>
                ok && containers == old(containers)[name := Container(port, true)] && calls == old(calls) + 3
    {
      var logged := Call();
      if !logged { return false; }
      var created := Call();
      if !created || name in containers { return false; }
      var made := containers[name := Container(port, false)];
      OneMoreStep(old(history), history, Snapshot(made, target), old(containers), name);
      Become(made);
      var started := Call();
      var bound := exists n | n in containers :: containers[n] == Container(port, true);
      assert bound <==> Served(made, port);
      NotYetServing(old(containers), name, port);
      if !started || bound { return false; }
      var up := containers[name := Container(port, true)];
      OneMoreStep(old(history), history, Snapshot(up, target), old(containers), name);
      Become(up);
      return true;
    }

    /** `startContainer`: remove the old container of that name, create the new one, start it. */
    method StartContainer(name: Name, port: Port) returns (ok: bool)
      modifies this
      ensures target == old(target) && old(calls) <= calls
      ensures calls <= old(calls) + if name in old(containers) then 6 else 4
      ensures SameBut(old(containers), containers, name) && old(history) <= history
      ensures OnlyOneChanges(history, |old(history)|, old(containers), target, name)
      ensures ok ==>
                && Up(containers, name, port)
                && |history| > |old(history)| && history[|history| - 1].containers == containers
      ensures !ok && !Up(old(containers), name, port) ==> NeverUp(history, |old(history)|, name, port)
      ensures ok ==> AllBut(old(calls), calls, {old(calls) + 1})
      ensures Good(old(calls), calls) && !Served(old(containers) - {name}, port) ==>
                && ok && containers == old(containers)[name := Container(port, true)]
                && calls == old(calls) + if name in old(containers) then 6 else 4
      ensures Good(old(calls), calls) && name in old(containers) ==>
                Snapshot(old(containers) - {name}, target) in history[|old(history)|..]
    {
      ok := StopAndRemove(name);
      if !ok { return; }
      ghost var between, removed := containers, history;
      ok := RunContainer(name, port);
      StepsJoin(old(history), removed, history, old(containers), between, target, name);
      if removed != old(history) {
        assert history[|removed| - 1] == removed[|removed| - 1];
      }
    }

    /** A play, which never throws and may change the containers whether or not it reports success. */
    method RunAnsible(play: Play)
      modifies this
      ensures target == old(target) && calls == old(calls) && containers == play(old(containers))
      ensures history == old(history) + [Snapshot(containers, target)]
    {
      Become(play(containers));
    }

    /** `setTarget` */
    method SetTarget(port: Port)
      modifies this
      ensures target == port && containers == old(containers) && calls == old(calls)
      ensures history == old(history) + [Snapshot(containers, target)]
    {
      target, history := port, history + [Snapshot(containers, port)];
    }

    /** The first free port of 8400 to 8599 that is not the proxy's own. */
    method PickFreePort(cfg: Config) returns (port: Option<Port>)
      ensures port.Some? ==> Free(containers, cfg, port.value) && forall p | p < port.value :: !Free(containers, cfg, p)
      ensures port.None? ==> forall p :: !Free(containers, cfg, p)
    {
      for p := 8400 to 8600
        invariant forall q | q < p :: !Free(containers, cfg, q)
      {
        var bound := exists n | n in containers :: containers[n] == Container(p, true);
        if p != cfg.proxyListenPort && p !in cfg.occupied && !bound { return Some(p); }
      }
      return None;
    }

    /** `waitHealthy` on a port: nothing answers there unless a container runs on it. */
    method WaitHealthy(port: Port, healthConsecutive: int, app: App) returns (ok: bool)
      modifies this`calls
      ensures calls == old(calls) + 1
      ensures ok ==> Served(containers, port) && PassesHealth(app, healthConsecutive) && luck(old(calls))
      ensures luck(old(calls)) && Served(containers, port) && PassesHealth(app, healthConsecutive) ==> ok
    {
      var served := exists n | n in containers :: containers[n] == Container(port, true);
      var probe: App := if served then app else (i: nat) => Health.Failed;
      var healthy, tries := Health.WaitHealthy(healthConsecutive, probe);
      if healthy {
        assert Health.PassedAt(probe, healthConsecutive, tries);
        assert Health.Good(probe)(tries - 1);
      }
      var logged := Call();
      ok := healthy && logged;
    }

    /** `blue.inspect()`: the bound port of a running container, none for a stopped one. */
    function BoundPort(name: Name): Option<Port>
      reads this
      requires name in containers
    {
      if containers[name].running && containers[name].port != 0 then Some(containers[name].port) else None
    }
  }

  // ----- the deploy

  /** From index `from` on, blue runs and the proxy points at it. */
  ghost predicate OnBlue(history: seq<Snapshot>, from: nat, blue: Name, bluePort: Port) {
    forall i | from <= i < |history| :: Up(history[i].containers, blue, bluePort) && history[i].target == bluePort
  }

  /** From index `from` on, the proxy points at a port that a running container is bound to. */
  ghost predicate OnPort(history: seq<Snapshot>, from: nat, p: Port) {
    forall i | from <= i < |history| :: Served(history[i].containers, p) && history[i].target == p
  }

  lemma OthersServe(before: Containers, after: Containers, blue: Name, p: Port)
    requires SameBut(before, after, blue) && Served(before, p) && !Up(before, blue, p)
    ensures Served(after, p)
  {
    var name :| name in before && before[name] == Container(p, true);
    assert name != blue && name in before - {blue} && (after - {blue})[name] == Container(p, true);
  }

  lemma BlueStaysUp(before: Containers, after: Containers, green: Name, blue: Name, bluePort: Port)
    requires SameBut(before, after, green) && Up(before, blue, bluePort) && blue != green
    ensures Up(after, blue, bluePort) && Served(after, bluePort)
  {
    assert blue in after - {green} && (after - {green})[blue] == before[blue];
  }

  lemma GreenSteps(history: seq<Snapshot>, from: nat, before: Containers, green: Name, blue: Name, bluePort: Port)
    requires OnlyOneChanges(history, from, before, bluePort, green) && Up(before, blue, bluePort) && blue != green
    ensures OnBlue(history, from, blue, bluePort)
  {
    forall i | from <= i < |history|
      ensures Up(history[i].containers, blue, bluePort)
    {
      BlueStaysUp(before, history[i].containers, green, blue, bluePort);
    }
  }

  /** What a deploy is started with; `ansibleOk` is what the play reports, and the play is told the port of green. */
  datatype Job = Job(blue: Name, green: Name, hasImage: bool, forceHealthFail: bool, app: App,
                     deployPlay: Port -> Play, ansibleOk: bool, rollbackPlay: Play)

  /** Ansible is not there: it changes nothing and does not report success. */
  ghost predicate NoAnsible(job: Job) {
    !job.ansibleOk && forall p, c :: job.deployPlay(p)(c) == c
  }

  /** The proxy is on a running blue. */
  predicate Live(c: Containers, target: Port, job: Job, bluePort: Port) {
    Up(c, job.blue, bluePort) && target == bluePort && bluePort != 0
  }

  /** Both plays keep a running blue up. */
  ghost predicate KeepsBlue(job: Job) {
    (forall p :: LeavesAlone(job.deployPlay(p), job.blue)) && LeavesAlone(job.rollbackPlay, job.blue)
  }

  /** The deploy play does not start blue on the port of green. */
  ghost predicate KeepsApart(job: Job) {
    forall p, c: Containers | !Up(c, job.blue, p) :: !Up(job.deployPlay(p)(c), job.blue, p)
  }

  /** Nothing in the job itself stands in the way of the deploy. */
  ghost predicate Sound(job: Job, cfg: Config) {
    job.hasImage && !job.forceHealthFail && PassesHealth(job.app, cfg.healthConsecutive)
  }

  /** Up to and including the deploy play; `None` is an error thrown on the way. */
  method UntilPlay(h: Host, cfg: Config, job: Job) returns (port: Option<Port>)
    modifies h
    ensures h.target == old(h.target) && old(h.calls) <= h.calls <= old(h.calls) + 2
    ensures port.None? ==> h.containers == old(h.containers) && h.history == old(h.history)
    ensures port.Some? ==>
              && Free(old(h.containers), cfg, port.value) && h.calls == old(h.calls) + 2
              && h.containers == job.deployPlay(port.value)(old(h.containers))
              && h.history == old(h.history) + [Snapshot(h.containers, h.target)]
    ensures port.Some? ==> h.Good(old(h.calls), h.calls)
    ensures h.Good(old(h.calls), h.calls) ==> (port.Some? <==> SomeFree(old(h.containers), cfg))
  {
    var ok := h.Call();                                   // log lines, git head, docker ping
    if !ok { return None; }
    port := h.PickFreePort(cfg);
    if port.None? { return; }
    ok := h.Call();                                       // migrations and git, logged
    if !ok { return None; }
    h.RunAnsible(job.deployPlay(port.value));
  }

  /** The run up to a health check: the play on a free port, and after it only green changes. */
  ghost predicate PlaySteps(history: seq<Snapshot>, from: nat, before: Containers, after: Containers, target: Port,
                            cfg: Config, job: Job, port: Port)
  {
    var played := job.deployPlay(port)(before);
    && Free(before, cfg, port) && SameBut(played, after, job.green)
    && from < |history| && history[from] == Snapshot(played, target)
    && OnlyOneChanges(history, from + 1, played, target, job.green)
  }

  lemma PlayBegins(history: seq<Snapshot>, from: nat, before: Containers, target: Port, cfg: Config, job: Job,
                   port: Port)
    requires Free(before, cfg, port) && |history| == from + 1
    requires history[from] == Snapshot(job.deployPlay(port)(before), target)
    ensures PlaySteps(history, from, before, job.deployPlay(port)(before), target, cfg, job, port)
  {
  }

  lemma PlayFirst(history: seq<Snapshot>, from: nat, before: Containers, after: Containers, target: Port,
                  cfg: Config, job: Job, port: Port)
    requires PlaySteps(history, from, before, after, target, cfg, job, port)
    ensures Free(before, cfg, port) && from < |history|
    ensures history[from].containers == job.deployPlay(port)(before)
  {
  }

  lemma PlayGoesOn(played: seq<Snapshot>, history: seq<Snapshot>, before: Containers, after: Containers, target: Port,
                   cfg: Config, job: Job, port: Port)
    requires played != [] && played <= history
    requires PlaySteps(played, |played| - 1, before, job.deployPlay(port)(before), target, cfg, job, port)
    requires SameBut(job.deployPlay(port)(before), after, job.green)
    requires OnlyOneChanges(history, |played|, job.deployPlay(port)(before), target, job.green)
    ensures PlaySteps(history, |played| - 1, before, after, target, cfg, job, port)
  {
    assert history[|played| - 1] == played[|played| - 1];
  }

  /**
   * What `greenStarted` says of the steps up to the switch: without ansible, that green ran on its port after one of
   * them; with a play that reports success, that there is an image and the progress call before its report is looked at
   * went through.
   */
  ghost predicate Started(steps: seq<Snapshot>, progressed: bool, job: Job, greenStarted: bool, port: Option<Port>) {
    && (port.None? ==> !greenStarted)
    && (port.Some? && NoAnsible(job) ==>
          (greenStarted <==> exists i | 0 <= i < |steps| :: Up(steps[i].containers, job.green, port.value)))
    && (port.Some? && job.ansibleOk ==> (greenStarted <==> job.hasImage && progressed))
  }

  /** `docker run` for green, unless the play has done it. */
  method StartGreen(h: Host, job: Job, port: Port) returns (ok: bool)
    modifies h
    ensures h.target == old(h.target) && old(h.calls) <= h.calls && old(h.history) <= h.history
    ensures h.calls <= old(h.calls) + if job.green in old(h.containers) then 7 else 5
    ensures SameBut(old(h.containers), h.containers, job.green)
    ensures OnlyOneChanges(h.history, |old(h.history)|, old(h.containers), h.target, job.green)
    ensures forall i | |old(h.history)| <= i < |h.history| :: h.history[i].target == h.target
    ensures ok ==> job.hasImage && h.AllBut(old(h.calls), h.calls, {old(h.calls) + 2})
    ensures ok && !job.ansibleOk ==>
              && Up(h.containers, job.green, port) && Served(h.containers, port)
              && |h.history| > |old(h.history)| && h.history[|h.history| - 1].containers == h.containers
    ensures !ok && !Up(old(h.containers), job.green, port) ==> NeverUp(h.history, |old(h.history)|, job.green, port)
    ensures job.ansibleOk ==>
              && h.history == old(h.history) && h.containers == old(h.containers)
              && (ok <==> job.hasImage && h.luck(old(h.calls)))
    ensures h.Good(old(h.calls), h.calls) && job.hasImage && !job.ansibleOk && !Served(old(h.containers), port) ==>
              && ok && h.containers == old(h.containers)[job.green := Container(port, true)]
              && h.calls == old(h.calls) + if job.green in old(h.containers) then 7 else 5
  {
    ok := h.Call();                                       // progress
    if !ok || !job.hasImage { return false; }
    if !job.ansibleOk {
      FreeAfterRemoval(h.containers, job.green, port);
      ok := h.StartContainer(job.green, port);
    }
  }

  /**
   * Up to and including the start of green; `None` is an error thrown before the play. `port` is the one the play was
   * given; before the play nothing happens.
   */
  method Launch(h: Host, cfg: Config, job: Job) returns (port: Option<Port>, greenStarted: bool)
    modifies h
    ensures h.target == old(h.target) && h.calls >= old(h.calls) && old(h.history) <= h.history
    ensures forall i | |old(h.history)| <= i < |h.history| :: h.history[i].target == h.target
    ensures port.None? ==> h.history == old(h.history) && h.containers == old(h.containers)
    ensures port.Some? ==>
              && Free(old(h.containers), cfg, port.value)
              && PlaySteps(h.history, |old(h.history)|, old(h.containers), h.containers, h.target, cfg, job, port.value)
    ensures greenStarted ==>
              && port.Some? && job.hasImage && h.AllBut(old(h.calls), h.calls, {old(h.calls) + 4})
              && (!job.ansibleOk ==> Served(h.containers, port.value))
    ensures Started(h.history[|old(h.history)|..], h.luck(old(h.calls) + 2), job, greenStarted, port)
    ensures h.Good(old(h.calls), h.calls) && job.hasImage && NoAnsible(job) && port.Some? ==>
              && greenStarted && h.containers == old(h.containers)[job.green := Container(port.value, true)]
              && h.calls == old(h.calls) + if job.green in old(h.containers) then 9 else 7
    ensures h.Good(old(h.calls), h.calls) ==> (port.Some? <==> SomeFree(old(h.containers), cfg))
    ensures NoAnsible(job) ==> h.calls <= old(h.calls) + if job.green in old(h.containers) then 9 else 7
  {
    greenStarted := false;
    port := UntilPlay(h, cfg, job);
    if port.None? { return; }
    ghost var steps, c := h.history, h.calls - 2;
    PlayBegins(h.history, |old(h.history)|, old(h.containers), h.target, cfg, job, port.value);
    greenStarted := StartGreen(h, job, port.value);
    PlayGoesOn(steps, h.history, old(h.containers), h.containers, h.target, cfg, job, port.value);
    hide PlaySteps;
    hide OnlyOneChanges;
    hide SameBut;
    if greenStarted {
      GoodAllBut(h, c, c + 2, h.calls, {c + 4});
    }
    hide Host.AllBut;
  }

  /** Up to and including the health check of green; `None` is an error thrown on the way. */
  method Prepare(h: Host, cfg: Config, job: Job)
    returns (greenPort: Option<Port>, greenStarted: bool, ghost port: Option<Port>)
    modifies h
    ensures h.target == old(h.target) && h.calls >= old(h.calls) && old(h.history) <= h.history
    ensures forall i | |old(h.history)| <= i < |h.history| :: h.history[i].target == h.target
    ensures port.None? ==> h.history == old(h.history) && h.containers == old(h.containers)
    ensures port.Some? ==>
              PlaySteps(h.history, |old(h.history)|, old(h.containers), h.containers, h.target, cfg, job, port.value)
    ensures greenPort.Some? ==>
              && greenPort == port && greenStarted && Free(old(h.containers), cfg, port.value)
              && Served(h.containers, port.value) && Sound(job, cfg)
              && h.AllBut(old(h.calls), h.calls, {old(h.calls) + 4})
    ensures Started(h.history[|old(h.history)|..], h.luck(old(h.calls) + 2), job, greenStarted, port)
    ensures h.Good(old(h.calls), h.calls) && job.hasImage && NoAnsible(job) && port.Some? ==>
              greenStarted && h.containers == old(h.containers)[job.green := Container(port.value, true)]
    ensures h.Good(old(h.calls), h.calls) ==> (port.Some? <==> SomeFree(old(h.containers), cfg))
    ensures NoAnsible(job) ==> h.calls <= old(h.calls) + if job.green in old(h.containers) then 11 else 9
    ensures h.Good(old(h.calls), h.calls) && Sound(job, cfg) && NoAnsible(job) ==>
              && (greenPort.Some? <==> SomeFree(old(h.containers), cfg))
              && (greenPort.Some? ==>
                    && h.containers == old(h.containers)[job.green := Container(greenPort.value, true)]
                    && h.calls == old(h.calls) + if job.green in old(h.containers) then 11 else 9)
  {
    hide PlaySteps;
    hide Started;
    hide SomeFree;
    hide Free;
    hide Host.AllBut;
    ghost var c := h.calls;
    greenPort := None;
    var chosen;
    chosen, greenStarted := Launch(h, cfg, job);
    port := chosen;
    if !greenStarted { return; }
    ghost var started := h.calls;
    var ok := h.Call();                                   // log
    if !ok { return; }
    ok := h.WaitHealthy(chosen.value, cfg.healthConsecutive, job.app);
    AllButGood(h, c, started, h.calls, {c + 4});
    if ok && !job.forceHealthFail { greenPort := chosen; }
  }

  lemma GoodAllBut(h: Host, a: nat, b: nat, c: nat, excused: set<int>)
    requires a <= b <= c && h.Good(a, b) && h.AllBut(b, c, excused)
    ensures h.AllBut(a, c, excused)
  {
  }

  lemma AllButJoin(h: Host, a: nat, b: nat, c: nat)
    requires a <= b <= c && h.AllBut(a, b, {a + 4})
    ensures h.AllBut(b, c, {c - 3, c - 2}) ==> h.AllBut(a, c, {a + 4, c - 3, c - 2})
  {
  }

  lemma AllButGood(h: Host, a: nat, b: nat, c: nat, excused: set<int>)
    requires a <= b <= c && h.AllBut(a, b, excused)
    ensures h.Good(b, c) ==> h.AllBut(a, c, excused)
  {
  }

  lemma FreeAfterRemoval(c: Containers, name: Name, p: Port)
    ensures !Served(c, p) ==> !Served(c - {name}, p)
  {
    if n :| n in c - {name} && (c - {name})[n] == Container(p, true) {
      assert c[n] == Container(p, true);
    }
  }

  /** Under a play that leaves a running blue alone, blue stays up and apart from green. */
  lemma PlayKeepsBlue(history: seq<Snapshot>, from: nat, before: Containers, after: Containers, target: Port,
                      cfg: Config, job: Job, port: Port, bluePort: Port)
    requires PlaySteps(history, from, before, after, target, cfg, job, port) && job.blue != job.green
    requires Up(before, job.blue, bluePort) && LeavesAlone(job.deployPlay(port), job.blue)
    ensures Up(after, job.blue, bluePort) && port != bluePort
    ensures forall i | from <= i < |history| ::
              Up(history[i].containers, job.blue, bluePort) && history[i].target == target
  {
    var played := job.deployPlay(port)(before);
    assert Up(played, job.blue, bluePort);
    BlueStaysUp(played, after, job.green, job.blue, bluePort);
    forall i | from < i < |history|
      ensures Up(history[i].containers, job.blue, bluePort)
    {
      BlueStaysUp(played, history[i].containers, job.green, job.blue, bluePort);
    }
  }

  lemma PlayKeepsApart(history: seq<Snapshot>, from: nat, before: Containers, after: Containers, target: Port,
                       cfg: Config, job: Job, port: Port)
    requires PlaySteps(history, from, before, after, target, cfg, job, port) && job.blue != job.green && KeepsApart(job)
    ensures !Up(after, job.blue, port)
  {
    var played := job.deployPlay(port)(before);
    assert !Up(before, job.blue, port) && !Up(played, job.blue, port);
    assert job.blue in after ==> job.blue in after - {job.green} && (after - {job.green})[job.blue] == after[job.blue];
    assert job.blue in played ==> job.blue in played - {job.green};
  }

  /** The port is served, and not by blue. */
  ghost predicate ServedBeside(c: Containers, blue: Name, p: Port) {
    Served(c, p) && !Up(c, blue, p)
  }

  /** From the switch on: drain, stop blue, record. `stoppingBlue` tells whether blue's containers were ever touched. */
  method SwitchAndFinish(h: Host, job: Job, greenPort: Port) returns (done: bool, stoppingBlue: bool)
    modifies h
    ensures h.target == greenPort && h.calls > old(h.calls)
    ensures old(h.history) < h.history
    // an error ends it: of the log, the list of containers or the record step, but not one from stopping blue
    ensures stoppingBlue <==> h.Good(old(h.calls), old(h.calls) + 2)
    ensures if done then h.AllBut(old(h.calls), h.calls, {h.calls - 3, h.calls - 2}) else !h.luck(h.calls - 1)
    ensures forall i | |old(h.history)| <= i < |h.history| :: h.history[i].target == greenPort
    ensures ServedBeside(old(h.containers), job.blue, greenPort) ==>
              Served(h.containers, greenPort) && OnPort(h.history, |old(h.history)|, greenPort)
    ensures !stoppingBlue ==> !done && h.containers == old(h.containers)
    ensures Running(h.containers, job.blue) ==> h.containers == old(h.containers)
    // five calls if blue is there, the last of them the record step
    ensures h.Good(old(h.calls), h.calls) ==> done && h.containers == old(h.containers) - {job.blue}
    ensures job.blue in old(h.containers) && h.Good(old(h.calls), old(h.calls) + 4) && !h.luck(old(h.calls) + 4) ==>
              !done && stoppingBlue && h.calls == old(h.calls) + 5 && h.containers == old(h.containers) - {job.blue}
  {
    ghost var (before, from, calls) := (h.containers, |h.history|, h.calls);
    h.SetTarget(greenPort);
    done, stoppingBlue := false, false;
    var ok := h.Call();                                   // log lines around the drain
    if !ok { return; }
    stoppingBlue := h.StopAndRemove(job.blue);
    if ServedBeside(before, job.blue, greenPort) {
      SwitchedStaysServed(before, h.history, from + 1, job.blue, greenPort);
      OthersServe(before, h.containers, job.blue, greenPort);
    }
    hide Served;
    hide OnPort;
    hide Up;
    if !stoppingBlue { return; }
    done := h.Call();                                     // the record step, alert and log
  }

  lemma SwitchedStaysServed(before: Containers, history: seq<Snapshot>, from: nat, blue: Name, p: Port)
    requires ServedBeside(before, blue, p) && OnlyOneChanges(history, from, before, p, blue)
    ensures OnPort(history, from, p)
  {
    forall i | from <= i < |history|
      ensures Served(history[i].containers, p)
    {
      OthersServe(before, history[i].containers, blue, p);
    }
  }

  /** `if (switched)`: point the proxy back to blue if blue is found running. */
  method PointBack(h: Host, blue: Name, switched: bool) returns (ok: bool)
    modifies h
    ensures h.containers == old(h.containers) && h.calls >= old(h.calls) && old(h.history) <= h.history
    ensures forall i | |old(h.history)| <= i < |h.history| :: h.history[i] == Snapshot(h.containers, h.target)
    ensures h.target == old(h.target) || (switched && Up(h.containers, blue, h.target))
    ensures forall p | p != 0 && switched && Up(h.containers, blue, p) ::
              h.target == p || (!ok && h.history == old(h.history))
    ensures if ok then h.Good(old(h.calls), h.calls) else old(h.calls) < h.calls && !h.luck(h.calls - 1)
    // the list, the inspection of a blue that is there, and the log line of a move
    ensures ok && switched ==>
              h.calls == old(h.calls) + if blue !in h.containers then 1 else if h.BoundPort(blue).None? then 2 else 3
    ensures !Running(h.containers, blue) ==> h.target == old(h.target)
  {
    if !switched { return true; }
    ok := h.Call();                                       // list the containers
    if !ok || blue !in h.containers { return; }
    ok := h.Call();                                       // inspect
    if !ok { return; }
    var bound := h.BoundPort(blue);
    if bound.Some? {
      h.SetTarget(bound.value);
      ok := h.Call();                                     // log
    }
  }

  /** The containers over a catch block: until the play only green changes, and the play comes last, if at all. */
  ghost predicate CatchSteps(history: seq<Snapshot>, from: nat, afterStop: nat, before: Containers, job: Job) {
    && from <= afterStop <= |history| <= afterStop + 1
    && (forall i | from <= i < afterStop :: SameBut(before, history[i].containers, job.green))
    && (afterStop < |history| ==>
          exists c | SameBut(before, c, job.green) :: history[afterStop].containers == job.rollbackPlay(c))
  }

  /** `if (greenStarted)`: stop green and remove it. */
  method StopGreen(h: Host, green: Name, greenStarted: bool) returns (ok: bool)
    modifies h
    ensures h.target == old(h.target) && h.calls >= old(h.calls) && old(h.history) <= h.history
    ensures OnlyOneChanges(h.history, |old(h.history)|, old(h.containers), h.target, green)
    ensures SameBut(old(h.containers), h.containers, green)
    ensures h.containers == if |h.history| > |old(h.history)| then h.history[|h.history| - 1].containers
                            else old(h.containers)
    ensures if ok then h.AllBut(old(h.calls), h.calls, {h.calls - 2, h.calls - 1})
            else old(h.calls) < h.calls && !h.luck(h.calls - 1)
    ensures h.Good(old(h.calls), h.calls) ==> h.containers == old(h.containers) - if greenStarted then {green} else {}
    ensures h.Good(old(h.calls), h.calls) && greenStarted && green in old(h.containers) ==>
              |h.history| > |old(h.history)| && h.history[|h.history| - 1] == Snapshot(h.containers, h.target)
  {
    assert h.containers - {} == h.containers;
    if !greenStarted { return true; }
    ok := h.Call();                                       // log
    if !ok { return; }
    ok := h.StopAndRemove(green);
  }

  /** The catch block: point the proxy back, remove green, run the rollback play. */
  method CatchRollback(h: Host, job: Job, greenStarted: bool, switched: bool) returns (ghost afterStop: nat)
    modifies h
    ensures old(h.history) <= h.history && h.calls > old(h.calls)
    // an error ends it before the play, unless it comes from stopping green
    ensures if afterStop == |h.history| then !h.luck(h.calls - 1)
            else h.AllBut(old(h.calls), h.calls, {h.calls - 2, h.calls - 1})
    ensures CatchSteps(h.history, |old(h.history)|, afterStop, old(h.containers), job)
    ensures h.containers
            == if |h.history| > |old(h.history)| then h.history[|h.history| - 1].containers else old(h.containers)
    // the proxy points where it did or at blue, and away from blue nothing changes
    ensures forall i | |old(h.history)| <= i < |h.history| :: h.history[i].target == h.target
    ensures h.target == old(h.target) || (switched && Up(old(h.containers), job.blue, h.target))
    ensures !Running(old(h.containers), job.blue) ==> h.target == old(h.target)
    ensures forall p | p != 0 && switched && Up(old(h.containers), job.blue, p) ::
              h.target == p || h.history == old(h.history)
    // when every call succeeds
    ensures h.AllGood(old(h.calls)) ==>
              && afterStop + 1 == |h.history|
              && h.containers == job.rollbackPlay(old(h.containers) - if greenStarted then {job.green} else {})
              && (forall p | p != 0 && switched && Up(old(h.containers), job.blue, p) :: h.target == p)
              && (greenStarted && job.green in old(h.containers) ==>
                    afterStop > |old(h.history)|
                    && h.history[afterStop - 1] == Snapshot(old(h.containers) - {job.green}, h.target))
  {
    ghost var before := h.containers;
    afterStop := |h.history|;
    var ok := h.Call();                                   // log, before the inner try
    if !ok { return; }
    ok := PointBack(h, job.blue, switched);
    afterStop := |h.history|;
    if !ok { return; }
    ok := StopGreen(h, job.green, greenStarted);
    afterStop := |h.history|;
    if !ok { return; }
    ghost var stopped := h.containers;
    h.RunAnsible(job.rollbackPlay);
    assert SameBut(before, stopped, job.green);
  }

  lemma PlayKeepsUp(play: Play, c: Containers, blue: Name, bluePort: Port)
    requires LeavesAlone(play, blue) && Up(c, blue, bluePort)
    ensures Up(play(c), blue, bluePort) && Served(play(c), bluePort)
  {
  }

  lemma CatchKeepsBlue(history: seq<Snapshot>, from: nat, afterStop: nat, before: Containers, job: Job, bluePort: Port)
    requires CatchSteps(history, from, afterStop, before, job)
    requires Up(before, job.blue, bluePort) && job.blue != job.green && LeavesAlone(job.rollbackPlay, job.blue)
    ensures forall i | from <= i < |history| :: Up(history[i].containers, job.blue, bluePort)
  {
    forall i | from <= i < |history|
      ensures Up(history[i].containers, job.blue, bluePort)
    {
      if i < afterStop {
        BlueStaysUp(before, history[i].containers, job.green, job.blue, bluePort);
      } else {
        var c :| SameBut(before, c, job.green) && history[afterStop].containers == job.rollbackPlay(c);
        BlueStaysUp(before, c, job.green, job.blue, bluePort);
        PlayKeepsUp(job.rollbackPlay, c, job.blue, bluePort);
      }
    }
  }

  /** Every step of a run that the proxy spent on a served port. */
  lemma ServedSteps(history: seq<Snapshot>, from: nat, p: Port)
    requires OnPort(history, from, p)
    ensures AllServing(history, from)
  {
  }

  lemma BlueSteps(history: seq<Snapshot>, from: nat, blue: Name, bluePort: Port)
    requires OnBlue(history, from, blue, bluePort)
    ensures OnPort(history, from, bluePort)
  {
  }

  /** No container but the named one is bound to the port. */
  ghost predicate OnlyOne(c: Containers, name: Name, p: Port) {
    forall n | n in c && n != name :: c[n] != Container(p, true)
  }

  /** The named container is, as the only one. */
  ghost predicate Alone(c: Containers, name: Name, p: Port) {
    Up(c, name, p) && OnlyOne(c, name, p)
  }

  lemma OnlyGreenBound(c: Containers, green: Name, blue: Name, cfg: Config, p: Port)
    requires Free(c, cfg, p) && green != blue
    ensures var after := c[green := Container(p, true)] - {blue};
            Alone(after, green, p) && !Running(after, blue)
  {
    var after := c[green := Container(p, true)] - {blue};
    forall n | n in after && n != green
      ensures after[n] != Container(p, true)
    {
      assert after[n] == c[n];
    }
  }

  lemma TakenAway(c: Containers, name: Name, p: Port)
    requires OnlyOne(c, name, p)
    ensures !Served(c - {name}, p)
  {
    assert forall n | n in c - {name} :: n in c && n != name && (c - {name})[n] == c[n];
  }

  /** The catch block, with what it means for the traffic. */
  method Fail(h: Host, job: Job, greenStarted: bool, switched: bool, ghost bluePort: Port)
    requires job.blue != job.green
    modifies h
    ensures old(h.history) <= h.history && h.calls >= old(h.calls)
    ensures forall i | |old(h.history)| <= i < |h.history| ::
              h.history[i].target == old(h.target) || (switched && Up(old(h.containers), job.blue, h.history[i].target))
    ensures Up(old(h.containers), job.blue, bluePort) && bluePort != 0 && LeavesAlone(job.rollbackPlay, job.blue)
            && (switched || old(h.target) == bluePort) ==>
              && AllServing(h.history, |old(h.history)|) && Up(h.containers, job.blue, bluePort)
              && (h.AllGood(old(h.calls)) ==> h.target == bluePort)
    ensures h.AllGood(old(h.calls)) ==>
              && h.containers == job.rollbackPlay(old(h.containers) - if greenStarted then {job.green} else {})
              && |h.history| > |old(h.history)| && h.history[|h.history| - 1] == Snapshot(h.containers, h.target)
              && (greenStarted && job.green in old(h.containers) ==>
                    |h.history| >= |old(h.history)| + 2
                    && h.history[|h.history| - 2] == Snapshot(old(h.containers) - {job.green}, h.target))
    ensures h.AllGood(old(h.calls)) && greenStarted && !Running(old(h.containers), job.blue)
            && Alone(old(h.containers), job.green, old(h.target)) ==>
              !AllServing(h.history, |old(h.history)|)
  {
    ghost var before, from, target := h.containers, |h.history|, h.target;
    ghost var afterStop := CatchRollback(h, job, greenStarted, switched);
    if Up(before, job.blue, bluePort) && bluePort != 0 && LeavesAlone(job.rollbackPlay, job.blue)
       && (switched || target == bluePort) {
      CatchKeepsBlue(h.history, from, afterStop, before, job, bluePort);
      BlueSteps(h.history, from, job.blue, bluePort);
      ServedSteps(h.history, from, bluePort);
    }
    if greenStarted && !Running(before, job.blue) && OnlyOne(before, job.green, target) && h.AllGood(old(h.calls)) {
      TakenAway(before, job.green, target);
      assert Up(before, job.green, target) ==> h.history[afterStop - 1] == Snapshot(before - {job.green}, target);
    }
  }

  /**
   * The run of a deploy as the catch block found it; `switched` is the step at which the proxy switched, and `port` the
   * one the play was given.
   */
  datatype Caught = Caught(stoppingBlue: bool, containers: Containers, target: Port, calls: nat, switched: nat,
                           steps: nat, greenStarted: bool, port: Option<Port>)

  /**
   * Traffic is served after every step from `from` on: up to the catch block in any case, and through it while blue is
   * up; a rollback whose calls succeed then ends on blue.
   */
  ghost predicate ServesWhileBlueIsUp(h: Host, from: nat, job: Job, bluePort: Port, done: bool, caught: Caught)
    reads h
  {
    && caught.steps <= |h.history|
    && (forall i | from <= i < caught.steps :: Serving(h.history[i]))
    && (done || Running(caught.containers, job.blue) ==> AllServing(h.history, from))
    && (!caught.stoppingBlue ==> !done && Running(caught.containers, job.blue))
    && (done ==> h.target != bluePort && Served(h.containers, h.target))
    && (!done && h.AllGood(caught.calls) && Running(caught.containers, job.blue) ==>
          h.target == bluePort && Up(h.containers, job.blue, bluePort))
  }

  /** The last two steps take green away and run the rollback play; the proxy is where it was. */
  ghost predicate TakesGreenAway(h: Host, start: Containers, target: Port, job: Job)
    reads h
  {
    && |h.history| >= 2 && h.target == target
    && h.history[|h.history| - 2] == Snapshot(start - {job.green}, target)
    && h.containers == job.rollbackPlay(start - {job.green})
    && h.history[|h.history| - 1] == Snapshot(h.containers, target)
  }

  /** From index `from` up to `to` the proxy does not move. */
  ghost predicate StaysOn(history: seq<Snapshot>, from: nat, to: nat, target: Port) {
    to <= |history| && forall i | from <= i < to :: history[i].target == target
  }

  /** Green took over from blue, and was taken away behind the proxy. */
  ghost predicate LosesTraffic(h: Host, from: nat, start: Containers, job: Job, caught: Caught)
    reads h
  {
    && !AllServing(h.history, from)
    && caught.containers == start[job.green := Container(caught.target, true)] - {job.blue}
  }

  /** An error before the switch, and the catch block. */
  method FailEarly(h: Host, job: Job, greenStarted: bool, ghost port: Option<Port>, ghost start: Containers,
                   ghost from: nat, ghost bluePort: Port) returns (ghost caught: Caught)
    requires job.blue != job.green && from <= |h.history|
    modifies h
    ensures old(h.calls) <= h.calls && old(h.history) <= h.history
    ensures caught == Caught(false, old(h.containers), old(h.target), old(h.calls), |old(h.history)|, |old(h.history)|,
                             greenStarted, port)
    ensures h.history[from..|old(h.history)|] == old(h.history)[from..]
    ensures StaysOn(old(h.history), from, |old(h.history)|, old(h.target)) ==>
              && StaysOn(h.history, from, |h.history|, old(h.target))
              && StaysOn(h.history, from, |old(h.history)|, old(h.target))
    ensures Up(old(h.containers), job.blue, bluePort) && bluePort != 0 && LeavesAlone(job.rollbackPlay, job.blue)
            && old(h.target) == bluePort && (forall i | from <= i < |old(h.history)| :: Serving(old(h.history)[i])) ==>
              ServesWhileBlueIsUp(h, from, job, bluePort, false, caught)
    ensures h.AllGood(old(h.calls)) ==>
              h.containers == job.rollbackPlay(old(h.containers) - if greenStarted then {job.green} else {})
    ensures h.AllGood(old(h.calls)) && greenStarted && port.Some?
            && old(h.containers) == start[job.green := Container(port.value, true)] ==>
              TakesGreenAway(h, start, old(h.target), job)
  {
    ghost var before, steps := h.containers, h.history;
    caught := Caught(false, h.containers, h.target, h.calls, |h.history|, |h.history|, greenStarted, port);
    if port.Some? {
      AddThenRemove(start, job.green, Container(port.value, true));
    }
    Fail(h, job, greenStarted, false, bluePort);
    assert forall i | from <= i < |steps| :: h.history[i] == steps[i];
  }

  /** From the switch to the end, through the catch block if a call fails. */
  method SwitchOver(h: Host, cfg: Config, job: Job, greenPort: Port, ghost start: Containers, ghost from: nat,
                    ghost bluePort: Port) returns (done: bool, ghost caught: Caught)
    requires job.blue != job.green && from <= |h.history|
    modifies h
    ensures old(h.calls) <= h.calls && old(h.history) <= h.history
    ensures caught.switched == |old(h.history)| < caught.steps <= |h.history|
    ensures h.history[from..|old(h.history)|] == old(h.history)[from..]
    ensures StaysOn(old(h.history), from, |old(h.history)|, old(h.target)) ==>
              StaysOn(h.history, from, |old(h.history)|, old(h.target))
    ensures caught.greenStarted && caught.port == Some(greenPort)
    ensures done ==> h.AllBut(old(h.calls), h.calls, {h.calls - 3, h.calls - 2})
    ensures caught.target == greenPort && (done ==> h.target == greenPort && caught.steps == |h.history|)
    ensures ServedBeside(old(h.containers), job.blue, greenPort) ==>
              && (forall i | caught.switched <= i < caught.steps :: Serving(h.history[i]))
              && (done ==> Served(h.containers, greenPort))
    ensures Up(old(h.containers), job.blue, bluePort) && bluePort != 0 && LeavesAlone(job.rollbackPlay, job.blue)
            && greenPort != bluePort && Served(old(h.containers), greenPort)
            && (forall i | from <= i < |old(h.history)| :: Serving(old(h.history)[i])) ==>
              ServesWhileBlueIsUp(h, from, job, bluePort, done, caught)
    ensures h.AllGood(old(h.calls)) ==> done && h.containers == old(h.containers) - {job.blue}
    ensures !done && h.AllGood(caught.calls) ==> h.containers == job.rollbackPlay(caught.containers - {job.green})
    ensures !done && h.AllGood(caught.calls) && !Running(caught.containers, job.blue)
            && Alone(caught.containers, job.green, greenPort) ==>
              !AllServing(h.history, from)
    // a fresh green that replaces blue is taken away again when nothing but the record step fails
    ensures job.blue in start && Free(start, cfg, greenPort)
            && old(h.containers) == start[job.green := Container(greenPort, true)]
            && h.Good(old(h.calls), old(h.calls) + 4) && !h.luck(old(h.calls) + 4) && h.AllGood(old(h.calls) + 5) ==>
              !done && LosesTraffic(h, from, start, job, caught)
  {
    if Free(start, cfg, greenPort) {
      OnlyGreenBound(start, job.green, job.blue, cfg, greenPort);
    }
    ghost var mid := h.history;
    var stoppingBlue;
    done, stoppingBlue := SwitchAndFinish(h, job, greenPort);
    caught := Caught(stoppingBlue, h.containers, h.target, h.calls, |mid|, |h.history|, true, Some(greenPort));
    if !done {
      Fail(h, job, true, true, bluePort);
    }
    assert forall i | from <= i < |mid| :: h.history[i] == mid[i];
  }

  /** One deploy in managed mode, whatever it finds on the host and whichever of its calls fails. */
  method RunDeploy(h: Host, cfg: Config, job: Job, ghost bluePort: Port) returns (done: bool, ghost caught: Caught)
    requires job.blue != job.green
    modifies h
    ensures old(h.calls) <= h.calls && old(h.history) <= h.history
    ensures |old(h.history)| <= caught.switched <= caught.steps <= |h.history|
    // the proxy leaves its target only for a port that passed the consecutive health checks, and only at the switch
    ensures StaysOn(h.history, |old(h.history)|, |h.history|, old(h.target)) || Sound(job, cfg)
    ensures StaysOn(h.history, |old(h.history)|, caught.switched, old(h.target))
    // from the switch to the catch block, or to the end, green serves the traffic on a port that was free
    ensures KeepsApart(job) ==> forall i | caught.switched <= i < caught.steps :: Serving(h.history[i])
    ensures done ==> Free(old(h.containers), cfg, h.target) && caught.steps == |h.history| > caught.switched
    // of its calls none may fail but those that stop or remove a container
    ensures done ==> h.AllBut(old(h.calls), h.calls, {old(h.calls) + 4, h.calls - 3, h.calls - 2})
    ensures done && KeepsApart(job) ==> Served(h.containers, h.target)
    // when the proxy starts on a running blue, traffic is served while blue is up
    ensures old(Live(h.containers, h.target, job, bluePort)) && KeepsBlue(job) ==>
              ServesWhileBlueIsUp(h, |old(h.history)|, job, bluePort, done, caught)
    // without ansible, and with every call succeeding, green takes over whenever a port is free
    ensures old(h.AllGood(h.calls)) && Sound(job, cfg) && NoAnsible(job) ==>
              && (done <==> SomeFree(old(h.containers), cfg))
              && (done ==> h.containers == old(h.containers)[job.green := Container(h.target, true)] - {job.blue})
    // a rollback whose calls succeed removes green exactly if it was started, and its play comes last
    ensures Started(h.history[|old(h.history)|..caught.switched], h.luck(old(h.calls) + 2), job, caught.greenStarted,
                    caught.port)
    ensures caught.port.Some? ==>
              && Free(old(h.containers), cfg, caught.port.value) && |h.history| > |old(h.history)|
              && h.history[|old(h.history)|].containers == job.deployPlay(caught.port.value)(old(h.containers))
    ensures !done && h.AllGood(caught.calls) ==>
              h.containers == job.rollbackPlay(caught.containers - if caught.greenStarted then {job.green} else {})
    // so a green that does not pass its health check is started and taken away again
    ensures old(h.AllGood(h.calls)) && job.hasImage && NoAnsible(job) && !Sound(job, cfg)
            && SomeFree(old(h.containers), cfg) ==>
              !done && caught.greenStarted && TakesGreenAway(h, old(h.containers), old(h.target), job)
    // a rollback after the switch without a running blue takes away the green that serves the traffic
    ensures !done && caught.switched < caught.steps && h.AllGood(caught.calls) && !Running(caught.containers, job.blue)
            && Alone(caught.containers, job.green, caught.target) ==>
              !AllServing(h.history, |old(h.history)|)
    // so a sound deploy in which nothing but the record step fails loses traffic
    ensures var record := old(h.calls) + if job.green in old(h.containers) then 15 else 13;
            old(Live(h.containers, h.target, job, bluePort)) && h.FailsOnlyAt(old(h.calls), record)
            && Sound(job, cfg) && NoAnsible(job) && SomeFree(old(h.containers), cfg) ==>
              && !done && caught.target != bluePort
              && LosesTraffic(h, |old(h.history)|, old(h.containers), job, caught)
  {
    hide SameBut;
    hide OnlyOneChanges;
    hide PlaySteps;
    hide Started;
    hide Sound;
    hide NoAnsible;
    hide Host.Good;
    hide Host.AllGood;
    hide Host.FailsOnlyAt;
    hide Host.AllBut;
    hide ServesWhileBlueIsUp;
    hide TakesGreenAway;
    hide LosesTraffic;
    hide SomeFree;
    hide Free;
    hide Served;
    hide Serving;
    hide Up;
    hide Running;
    hide OnlyOne;
    hide Alone;
    hide AllServing;
    hide LeavesAlone;
    hide KeepsApart;
    ghost var calls := h.calls;
    ghost var from, start, target := |h.history|, h.containers, h.target;
    ghost var live := Live(start, target, job, bluePort) && KeepsBlue(job);
    UpIsThere(start, job.blue, bluePort);
    var greenPort, greenStarted;
    ghost var port;
    greenPort, greenStarted, port := Prepare(h, cfg, job);
    if live {
      PreparedOnBlue(h.history, from, start, h.containers, target, cfg, job, port, bluePort);
    }
    if port.Some? {
      PlayFirst(h.history, from, start, h.containers, target, cfg, job, port.value);
    }
    assert StaysOn(h.history, from, |h.history|, target);
    hide StaysOn;
    ghost var record := calls + if job.green in start then 15 else 13;
    LuckSplits(h, calls, h.calls, record);
    assert h.FailsOnlyAt(calls, record) && Sound(job, cfg) && NoAnsible(job) && SomeFree(start, cfg) ==>
             h.calls + 4 == record && h.containers == start[job.green := Container(greenPort.value, true)];
    if greenPort.None? {
      caught := FailEarly(h, job, greenStarted, port, start, from, bluePort);
      done := false;
    } else {
      if KeepsApart(job) {
        PlayKeepsApart(h.history, from, start, h.containers, target, cfg, job, greenPort.value);
      }
      ghost var switching := h.calls;
      done, caught := SwitchOver(h, cfg, job, greenPort.value, start, from, bluePort);
      AllButJoin(h, calls, switching, h.calls);
    }
  }

  lemma UpIsThere(c: Containers, name: Name, p: Port)
    ensures Up(c, name, p) ==> name in c && Served(c, p)
    ensures forall cfg: Config | Free(c, cfg, p) :: !Served(c, p)
  {
  }

  lemma AddThenRemove(c: Containers, name: Name, x: Container)
    ensures c[name := x] - {name} == c - {name}
  {
  }

  lemma LuckSplits(h: Host, from: nat, mid: nat, at: nat)
    requires from <= mid
    ensures h.AllGood(from) ==> h.Good(from, mid) && h.AllGood(mid)
    ensures h.FailsOnlyAt(from, at) && mid <= at ==>
              h.Good(from, mid) && !h.luck(at) && (at == mid + 4 ==> h.Good(mid, mid + 4) && h.AllGood(mid + 5))
  {
  }

  lemma PreparedOnBlue(history: seq<Snapshot>, from: nat, before: Containers, after: Containers, target: Port,
                       cfg: Config, job: Job, port: Option<Port>, bluePort: Port)
    requires from <= |history| && job.blue != job.green && Live(before, target, job, bluePort) && KeepsBlue(job)
    requires if port.None? then from == |history| && after == before
             else PlaySteps(history, from, before, after, target, cfg, job, port.value)
    ensures Up(after, job.blue, bluePort) && port != Some(bluePort) && OnBlue(history, from, job.blue, bluePort)
    ensures forall i | from <= i < |history| :: Serving(history[i])
  {
    if port.Some? {
      PlayKeepsBlue(history, from, before, after, target, cfg, job, port.value, bluePort);
    }
    BlueSteps(history, from, job.blue, bluePort);
    ServedSteps(history, from, bluePort);
  }

  lemma AlwaysHealthy(app: App, n: nat)
    requires forall i :: app(i) == Health.Answer(200)
    ensures PassesHealth(app, n)
  {
    var k := Health.AtLeastOne(n);
    forall i: nat | i < k
      ensures Health.Good(app)(i)
    {
      assert app(i) == Health.Answer(200);
    }
    assert Health.PassedAt(app, n, k);
  }

  /** Such a run: blue serves alone, the application is healthy, and only the write of the record fails. */
  method FailedRecordCutsTraffic() returns (h: Host, done: bool)
    ensures fresh(h) && !done && !AllServing(h.history, 0)
  {
    var start := map["blue" := Container(9000, true)];
    var luck := (k: nat) => k != 13;
    h := new Host(start, 9000, luck);
    var app: App := _ => Health.Answer(200);
    var cfg := Config(80, 3, {});
    var idle: Play := c => c;
    var job := Job("blue", "green", true, false, app, _ => idle, false, idle);
    AlwaysHealthy(app, cfg.healthConsecutive);
    assert Free(start, cfg, 8400);
    ghost var caught;
    done, caught := RunDeploy(h, cfg, job, 9000);
  }

  // ----- a manual or automatic rollback of a run that is over

  /** The docker half of `rollback`: point the proxy at blue if it is found running, then remove green. */
  method RollBack(h: Host, blue: Name, green: Name) returns (ok: bool)
    requires blue != green
    modifies h
    ensures old(h.history) <= h.history && h.calls > old(h.calls)
    // an error ends it, unless it comes from starting blue or stopping green
    ensures if ok then h.AllBut(old(h.calls), h.calls, {old(h.calls) + 3, h.calls - 2, h.calls - 1})
            else !h.luck(h.calls - 1)
    ensures SameBut(old(h.containers), h.containers, green)
    ensures h.target == old(h.target) || Up(old(h.containers), blue, h.target)
    // with a running blue the traffic is served throughout, whichever call fails
    ensures Running(old(h.containers), blue) && old(h.containers)[blue].port != 0 ==>
              && AllServing(h.history, |old(h.history)|)
              && (h.Good(old(h.calls), h.calls) ==> Up(h.containers, blue, h.target) && green !in h.containers)
    // without one, green is taken away under the proxy
    ensures h.Good(old(h.calls), h.calls) && !Running(old(h.containers), blue)
            && Alone(old(h.containers), green, old(h.target)) ==>
              && ok && h.target == old(h.target) && !Served(h.containers, h.target)
              && !AllServing(h.history, |old(h.history)|)
  {
    hide Host.AllBut;
    ghost var before, target, calls := h.containers, h.target, h.calls;
    ok := h.Call();                                       // the lookups in the database
    if !ok { return; }
    ok := PointAtBlue(h, blue);
    if !ok { return; }
    ghost var (from, pointed, middle) := (|h.history|, h.history, h.calls);
    ok := h.StopAndRemove(green);
    RolledBackCalls(h, calls, middle, h.calls);
    if Running(before, blue) && before[blue].port != 0 {
      GreenSteps(h.history, from, before, green, blue, h.target);
      BlueStaysUp(before, h.containers, green, blue, h.target);
      BlueSteps(h.history, from, blue, h.target);
    } else if OnlyOne(before, green, target) {
      TakenAway(before, green, target);
    }
  }

  lemma RolledBackCalls(h: Host, a: nat, b: nat, c: nat)
    requires a < b <= c && h.luck(a) && h.AllBut(a + 1, b, {a + 3})
    ensures h.AllBut(b, c, {c - 2, c - 1}) ==> h.AllBut(a, c, {a + 3, c - 2, c - 1})
  {
  }

  /** Point the proxy at blue if it is found running, and start it, which changes nothing then. */
  method PointAtBlue(h: Host, blue: Name) returns (ok: bool)
    modifies h
    ensures h.containers == old(h.containers) && old(h.history) <= h.history && h.calls > old(h.calls)
    ensures if ok then h.AllBut(old(h.calls), h.calls, {old(h.calls) + 2})
            else !h.luck(h.calls - 1) && h.history == old(h.history) && h.target == old(h.target)
    ensures forall i | |old(h.history)| <= i < |h.history| :: h.history[i] == Snapshot(h.containers, h.target)
    ensures h.target == old(h.target) || Up(h.containers, blue, h.target)
    ensures ok && Running(h.containers, blue) && h.containers[blue].port != 0 ==> h.target == h.containers[blue].port
    ensures ok ==>
              h.calls == old(h.calls) + if blue !in h.containers then 1 else if h.BoundPort(blue).None? then 2 else 3
  {
    ok := h.Call();                                       // list the containers
    if !ok || blue !in h.containers { return; }
    ok := h.Call();                                       // inspect
    if !ok { return; }
    var bound := h.BoundPort(blue);
    if bound.Some? {
      var started := h.Call();                            // start it, errors are swallowed
      h.SetTarget(bound.value);
    }
  }

  /**
   * A deploy that succeeds has removed blue. So the rollback that follows it, by hand or because the release was found
   * degraded, takes the service down when every call succeeds.
   */
  method RollBackAfterDeploy(h: Host, cfg: Config, job: Job, ghost bluePort: Port) returns (done: bool, ok: bool)
    requires job.blue != job.green
    modifies h
    ensures old(h.AllGood(h.calls)) && Sound(job, cfg) && NoAnsible(job)
            && SomeFree(old(h.containers), cfg) ==>
              done && ok && !Served(h.containers, h.target)
  {
    ghost var start := h.containers;
    ghost var caught;
    done, caught := RunDeploy(h, cfg, job, bluePort);
    if !done { return false, false; }
    OnlyGreenBound(start, job.green, job.blue, cfg, h.target);
    ok := RollBack(h, job.blue, job.green);
  }

  // ----- one proxy for all environments

  /**
   * The listen port is one setting, so all environments share one proxy: a deploy of another environment takes it away
   * from a container that goes on running.
   */
  method OtherDeployTakesProxy(h: Host, cfg: Config, job: Job, live: Name, ghost bluePort: Port) returns (done: bool)
    requires job.blue != job.green && live !in {job.blue, job.green} && Up(h.containers, live, h.target)
    modifies h
    ensures done ==> h.target != old(h.target)
    ensures old(h.AllGood(h.calls)) && Sound(job, cfg) && NoAnsible(job)
            && SomeFree(old(h.containers), cfg) ==>
              done && Up(h.containers, live, old(h.target)) && Up(h.containers, job.green, h.target)
  {
    ghost var start, target := h.containers, h.target;
    assert Served(start, target);
    ghost var caught;
    done, caught := RunDeploy(h, cfg, job, bluePort);
    assert start[job.green := Container(h.target, true)][live] == start[live];
  }

  // ----- a second deploy under the default names

  /**
   * After a deploy the live container has the green name, which the next deploy of the service gives its own green.
   * Such a deploy, up to its start of green, has a step that serves no traffic whenever its calls succeed and a port
   * is free: starting green takes the live container away first.
   */
  method SecondDeployCutsTraffic(h: Host, cfg: Config, job: Job) returns (started: bool)
    requires Alone(h.containers, job.green, h.target)
    requires NoAnsible(job) && job.hasImage
    modifies h
    ensures old(h.history) <= h.history
    ensures h.Good(old(h.calls), h.calls) && SomeFree(old(h.containers), cfg) ==>
              exists i | |old(h.history)| <= i < |h.history| :: !Serving(h.history[i])
  {
    ghost var before, target, from := h.containers, h.target, h.history;
    TakenAway(before, job.green, target);
    var port := UntilPlay(h, cfg, job);
    if port.None? { return false; }
    var ok := h.Call();                                   // progress
    if !ok { return false; }
    ghost var played := h.history;
    started := h.StartContainer(job.green, port.value);
    ghost var gone := Snapshot(before - {job.green}, target);
    if gone in h.history[|played|..] {
      var i :| |played| <= i < |h.history| && h.history[i] == gone;
      assert !Serving(h.history[i]);
    }
  }

  // ----- the shipped play

  /** What the shipped blue/green play does when its steps succeed: run green on its port, then stop blue. */
  function ShippedPlay(green: Name, greenPort: Port, blue: Name): Play {
    (c: Containers) =>
      var started := c[green := Container(greenPort, true)];
      if blue in started then Stopped(started, blue) else started
  }

  /** It stops blue before the panel switches. */
  lemma ShippedPlayStopsBlue(c: Containers, green: Name, greenPort: Port, blue: Name, bluePort: Port)
    requires Up(c, blue, bluePort) && OnlyOne(c, blue, bluePort) && blue != green && greenPort != bluePort
    ensures !LeavesAlone(ShippedPlay(green, greenPort, blue), blue)
    ensures Up(ShippedPlay(green, greenPort, blue)(c), green, greenPort)
    ensures !Served(ShippedPlay(green, greenPort, blue)(c), bluePort)
  {
    var after := ShippedPlay(green, greenPort, blue)(c);
    assert Running(c, blue) && after[blue] != c[blue];
    forall n | n in after
      ensures after[n] != Container(bluePort, true)
    {
    }
  }

  /** It never starts blue, so from the switch on green serves the traffic under it as under any such play. */
  lemma ShippedPlayKeepsApart(job: Job)
    requires forall p :: job.deployPlay(p) == ShippedPlay(job.green, p, job.blue)
    requires job.blue != job.green
    ensures KeepsApart(job)
  {
    forall p, c: Containers | !Up(c, job.blue, p)
      ensures !Up(job.deployPlay(p)(c), job.blue, p)
    {
      assert job.deployPlay(p)(c) == ShippedPlay(job.green, p, job.blue)(c);
    }
  }

  /**
   * Every run under it that gets to the play, as it does when its first calls succeed and a port is free, has a step
   * after which nothing serves the traffic; the steps that follow are only added to the history.
   */
  method ShippedPlayCutsTraffic(h: Host, cfg: Config, job: Job, ghost bluePort: Port) returns (port: Option<Port>)
    requires Up(h.containers, job.blue, bluePort) && h.target == bluePort && job.blue != job.green
    requires OnlyOne(h.containers, job.blue, bluePort)
    requires forall p :: job.deployPlay(p) == ShippedPlay(job.green, p, job.blue)
    modifies h
    ensures h.Good(old(h.calls), h.calls) && SomeFree(old(h.containers), cfg) ==> port.Some?
    ensures port.Some? ==> |h.history| == |old(h.history)| + 1 && !Serving(h.history[|old(h.history)|])
  {
    ghost var before := h.containers;
    port := UntilPlay(h, cfg, job);
    if port.Some? {
      ShippedPlayStopsBlue(before, job.green, port.value, job.blue, bluePort);
    }
  }
}
