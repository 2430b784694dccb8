/** Alerts: cooldown, suppression accounting and deliveries (src/lib/alerts.ts). */
module Alerts {
  import opened Wrappers

  type RuleId = string

  datatype Severity = INFO | WARN | ERROR | CRITICAL

  function Rank(s: Severity): nat {
    match s
    case INFO => 0
    case WARN => 1
    case ERROR => 2
    case CRITICAL => 3
  }

  /** Times are in milliseconds, the cooldown in seconds. */
  datatype Rule = Rule(cooldownSec: int, lastFiredAt: Option<int>)

  /** What the people on call did with an event. */
  datatype AckStatus = Open | Acked | Snoozed | Resolved

  /**
   * `container` is the container name in the payload; `firedAt` is what the event wrote to its rule's `lastFiredAt`.
   */
  datatype Event = Event(rule: Option<RuleId>, container: Option<string>, severity: Severity,
                         createdAt: int, firedAt: int, suppressedCount: nat, ackStatus: AckStatus)

  datatype Channel = Channel(minSeverity: Severity, enabled: bool)

  datatype DeliveryStatus = Pending | Queued | Delivered

  /**
   * One attempt: a good answer (2xx, and `ok` from Telegram) that is saved, one whose saving fails, or anything else;
   * or one, good or not, of which nothing can be written at all.
   */
  datatype Answer = Accepted | Unsaved | Refused | Lost(good: bool)

  /** `oks` counts the good answers the delivery ever got. */
  datatype Delivery = Delivery(event: nat, channel: nat, status: DeliveryStatus, attempts: nat, oks: nat)

  /** One call: the rule it names, the container, the container in its payload, and the clock at its three reads. */
  datatype Raise = Raise(ruleId: Option<RuleId>, containerName: Option<string>, payloadContainer: Option<string>,
                         severity: Severity, checkedAt: int, createdAt: int, firedAt: int)

  /** An empty name counts as none. */
  function ContainerOf(name: Option<string>): Option<string> {
    if name == Some("") then None else name
  }

  /** The container name in the payload of the event: the call's own name goes over the one in its payload. */
  function StoredContainer(r: Raise): Option<string> {
    if ContainerOf(r.containerName).Some? then r.containerName else r.payloadContainer
  }

  function NewEvent(rules: map<RuleId, Rule>, r: Raise): Event {
    Event(RuleOf(rules, r), StoredContainer(r), r.severity, r.createdAt, r.firedAt, 0, Open)
  }

  /** The rule a call resolves to: none when it names none or an unknown one. */
  function RuleOf(rules: map<RuleId, Rule>, r: Raise): Option<RuleId> {
    if r.ruleId.Some? && r.ruleId.value != "" && r.ruleId.value in rules then r.ruleId else None
  }

  predicate InCooldown(rule: Rule, now: int) {
    rule.cooldownSec > 0 && rule.lastFiredAt.Some? && now - rule.lastFiredAt.value < rule.cooldownSec * 1000
  }

  /** Without a container the query matches every event of the rule. */
  predicate Matches(e: Event, rule: RuleId, container: Option<string>) {
    e.rule == Some(rule) && (container.None? || e.container == container)
  }

  /** The most recent matching event among the first `n`; they are stored oldest first. */
  function MostRecent(events: seq<Event>, n: nat, rule: RuleId, container: Option<string>): (r: Option<nat>)
    requires n <= |events|
    ensures r.Some? ==> r.value < n && Matches(events[r.value], rule, container)
    ensures r.None? ==> forall i | 0 <= i < n :: !Matches(events[i], rule, container)
  {
    if n == 0 then None
    else if Matches(events[n - 1], rule, container) then Some(n - 1)
    else MostRecent(events, n - 1, rule, container)
  }

  /** The channels to which an event of this severity goes, in order, among the first `n`. */
  function Eligible(channels: seq<Channel>, n: nat, severity: Severity): (ids: seq<nat>)
    requires n <= |channels|
    ensures forall c | c in ids :: c < n
  {
    if n == 0 then []
    else
      var ch := channels[n - 1];
      Eligible(channels, n - 1, severity)
      + if ch.enabled && Rank(ch.minSeverity) <= Rank(severity) then [n - 1] else []
  }

  lemma EligibleNext(channels: seq<Channel>, c: nat, severity: Severity)
    requires c < |channels|
    ensures var (ids, ch) := (Eligible(channels, c, severity), channels[c]);
            Eligible(channels, c + 1, severity)
            == if ch.enabled && Rank(ch.minSeverity) <= Rank(severity) then ids + [c] else ids
  {
  }

  /** The tables the alert code works on. */
  datatype Tables = Tables(rules: map<RuleId, Rule>, events: seq<Event>)

  /** The event that a call suppresses into, if any. */
  function SuppressInto(t: Tables, r: Raise): (into: Option<nat>)
    ensures into.Some? ==> into.value < |t.events|
  {
    var id := RuleOf(t.rules, r);
    if id.None? || !InCooldown(t.rules[id.value], r.checkedAt) then None
    else MostRecent(t.events, |t.events|, id.value, ContainerOf(r.containerName))
  }

  /** The name that the call itself gives; an empty one counts as none. */
  predicate GivesName(r: Raise) {
    r.containerName.Some? && r.containerName.value != ""
  }

  /** An event of the rule that a call names, and of the container that it names, if it does. */
  predicate OfSource(e: Event, r: Raise) {
    e.rule == r.ruleId && (GivesName(r) ==> e.container == r.containerName)
  }

  /**
   * A call is suppressed into an event exactly when it names a known rule with a cooldown that fired less than that
   * ago, and the event is the latest one of its source.
   */
  lemma SuppressIntoIff(t: Tables, r: Raise, i: nat)
    ensures SuppressInto(t, r) == Some(i)
            <==> && r.ruleId.Some? && r.ruleId.value != "" && r.ruleId.value in t.rules
                 && var rule := t.rules[r.ruleId.value];
                 && rule.cooldownSec > 0 && rule.lastFiredAt.Some?
                 && r.checkedAt < rule.lastFiredAt.value + 1000 * rule.cooldownSec
                 && i < |t.events| && OfSource(t.events[i], r)
                 && forall j | i < j < |t.events| :: !OfSource(t.events[j], r)
  {
    if RuleOf(t.rules, r).Some? {
      LatestIff(t.events, |t.events|, r.ruleId.value, ContainerOf(r.containerName), i);
      assert forall e: Event :: Matches(e, r.ruleId.value, ContainerOf(r.containerName)) <==> OfSource(e, r);
    }
  }

  lemma {:induction false} LatestIff(events: seq<Event>, n: nat, rule: RuleId, container: Option<string>, i: nat)
    requires n <= |events|
    ensures MostRecent(events, n, rule, container) == Some(i)
            <==> i < n && Matches(events[i], rule, container)
                 && forall j | i < j < n :: !Matches(events[j], rule, container)
  {
    if n > 0 {
      LatestIff(events, n - 1, rule, container, i);
    }
  }

  /** Otherwise there is a new event, with the call's own container name over the one in its payload. */
  lemma NewEventStored(t: Tables, r: Raise)
    requires SuppressInto(t, r).None?
    ensures var after := Raised(t, r).events;
            && |after| == |t.events| + 1 && after[..|t.events|] == t.events
            && after[|t.events|].container == (if GivesName(r) then r.containerName else r.payloadContainer)
            && after[|t.events|].severity == r.severity && after[|t.events|].suppressedCount == 0
            && after[|t.events|].ackStatus == Open
            && after[|t.events|].rule
               == if r.ruleId.Some? && r.ruleId.value != "" && r.ruleId.value in t.rules then r.ruleId else None
  {
  }

  function Raised(t: Tables, r: Raise): Tables {
    var (id, into) := (RuleOf(t.rules, r), SuppressInto(t, r));
    if into.Some? then
      var e := t.events[into.value];
      t.(events := t.events[into.value := e.(suppressedCount := e.suppressedCount + 1)])
    else
      Tables(if id.Some? then t.rules[id.value := t.rules[id.value].(lastFiredAt := Some(r.firedAt))] else t.rules,
             t.events + [NewEvent(t.rules, r)])
  }

  /** Which event goes to which channel. */
  function Pairs(ds: seq<Delivery>): seq<(nat, nat)> {
    seq(|ds|, i requires 0 <= i < |ds| => (ds[i].event, ds[i].channel))
  }

  function PairsOf(event: nat, ids: seq<nat>): seq<(nat, nat)> {
    seq(|ids|, i requires 0 <= i < |ids| => (event, ids[i]))
  }

  function NewPairs(t: Tables, r: Raise, channels: seq<Channel>): seq<(nat, nat)> {
    if SuppressInto(t, r).Some? then [] else PairsOf(|t.events|, Eligible(channels, |channels|, r.severity))
  }

  /** The deliveries of an event, each attempted once. */
  function Sent(event: nat, ids: seq<nat>, answers: nat -> Answer): seq<Delivery> {
    seq(|ids|, k requires 0 <= k < |ids| => Attempted(Delivery(event, ids[k], Pending, 0, 0), answers(k)))
  }

  lemma NoneSent(before: seq<Delivery>, event: nat, answers: nat -> Answer)
    ensures before + Sent(event, [], answers) == before
  {
  }

  lemma SentMore(before: seq<Delivery>, event: nat, ids: seq<nat>, id: nat, answers: nat -> Answer)
    ensures before + Sent(event, ids + [id], answers) ==
            before + Sent(event, ids, answers) + [Attempted(Delivery(event, id, Pending, 0, 0), answers(|ids|))]
  {
    assert Sent(event, ids + [id], answers)
           == Sent(event, ids, answers) + [Attempted(Delivery(event, id, Pending, 0, 0), answers(|ids|))];
  }

  lemma PairsAppended(before: seq<Delivery>, event: nat, ids: seq<nat>, answers: nat -> Answer)
    ensures Pairs(before + Sent(event, ids, answers)) == Pairs(before) + PairsOf(event, ids)
  {
    var sent := Sent(event, ids, answers);
    forall i | 0 <= i < |sent| ensures Pairs(sent)[i] == PairsOf(event, ids)[i] {
      assert sent[i] == Attempted(Delivery(event, ids[i], Pending, 0, 0), answers(i));
    }
    assert Pairs(sent) == PairsOf(event, ids);
    PairsJoin(before, sent);
  }

  lemma PairsJoin(before: seq<Delivery>, sent: seq<Delivery>)
    ensures Pairs(before + sent) == Pairs(before) + Pairs(sent)
  {
    forall i | 0 <= i < |before + sent|
      ensures Pairs(before + sent)[i] == (Pairs(before) + Pairs(sent))[i]
    {
      assert (before + sent)[i] == if i < |before| then before[i] else sent[i - |before|];
    }
  }

  datatype RaiseResult = RaiseResult(suppressed: bool, eventId: nat, deliveriesEnqueued: nat)

  class AlertStore {
    var tables: Tables
    var channels: seq<Channel>
    var deliveries: seq<Delivery>

    constructor (rules: map<RuleId, Rule>, channels: seq<Channel>)
      ensures tables == Tables(rules, []) && this.channels == channels && deliveries == []
    {
      tables, this.channels, deliveries := Tables(rules, []), channels, [];
    }

    /** `answers` holds how each delivery attempt goes. */
    method RaiseAlert(r: Raise, answers: nat -> Answer) returns (result: RaiseResult)
      modifies this
      ensures tables == Raised(old(tables), r) && channels == old(channels)
      ensures result.suppressed <==> SuppressInto(old(tables), r).Some?
      ensures result.suppressed ==> deliveries == old(deliveries) && result.deliveriesEnqueued == 0
                                    && result.eventId == SuppressInto(old(tables), r).value
      ensures !result.suppressed ==>
                var ids := Eligible(channels, |channels|, r.severity);
                && result.eventId == |old(tables).events| && result.deliveriesEnqueued == |ids|
                && deliveries == old(deliveries) + Sent(result.eventId, ids, answers)
      ensures Pairs(deliveries) == Pairs(old(deliveries)) + NewPairs(old(tables), r, channels)
    {
      var id := RuleOf(tables.rules, r);
      var container := ContainerOf(r.containerName);
      if id.Some? && InCooldown(tables.rules[id.value], r.checkedAt) {
        var recent := MostRecent(tables.events, |tables.events|, id.value, container);
        if recent.Some? {
          var e := tables.events[recent.value];
          tables := tables.(events := tables.events[recent.value := e.(suppressedCount := e.suppressedCount + 1)]);
          return RaiseResult(true, recent.value, 0);
        }
      }
      var eventId := |tables.events|;
      tables := tables.(events := tables.events + [NewEvent(tables.rules, r)]);
      if id.Some? {
        tables := tables.(rules := tables.rules[id.value := tables.rules[id.value].(lastFiredAt := Some(r.firedAt))]);
      }
      assert SuppressInto(old(tables), r).None? && tables == Raised(old(tables), r);
      var enqueued := Enqueue(eventId, r.severity, answers);
      PairsAppended(old(deliveries), eventId, Eligible(channels, |channels|, r.severity), answers);
      return RaiseResult(false, eventId, enqueued);
    }

    /** The loop over the channels: one delivery for each one that takes the event, attempted at once. */
    method Enqueue(eventId: nat, severity: Severity, answers: nat -> Answer) returns (enqueued: nat)
      modifies this`deliveries
      ensures var ids := Eligible(channels, |channels|, severity);
              enqueued == |ids| && deliveries == old(deliveries) + Sent(eventId, ids, answers)
    {
      hide Attempted;
      NoneSent(old(deliveries), eventId, answers);
      assert Eligible(channels, 0, severity) == [];
      hide Sent;
      hide Eligible;
      enqueued := 0;
      for c := 0 to |channels|
        invariant enqueued == |Eligible(channels, c, severity)|
        invariant deliveries == old(deliveries) + Sent(eventId, Eligible(channels, c, severity), answers)
      {
        hide Rank;
        EligibleNext(channels, c, severity);
        var ch := channels[c];
        if ch.enabled {
          if Rank(ch.minSeverity) <= Rank(severity) {
            SentMore(old(deliveries), eventId, Eligible(channels, c, severity), c, answers);
            CreateDelivery(eventId, c, answers(enqueued));
            enqueued := enqueued + 1;
          }
        }
      }
    }

    /** A new delivery, attempted at once. */
    method CreateDelivery(eventId: nat, channel: nat, answer: Answer)
      modifies this`deliveries
      ensures deliveries == old(deliveries) + [Attempted(Delivery(eventId, channel, Pending, 0, 0), answer)]
    {
      hide Attempted;
      deliveries := deliveries + [Delivery(eventId, channel, Pending, 0, 0)];
      Deliver(|deliveries| - 1, answer);
    }

    /** One attempt: delivered only on a good answer, queued otherwise; a delivered row is left alone. */
    method Deliver(id: nat, answer: Answer)
      requires id < |deliveries|
      modifies this`deliveries
      ensures deliveries == old(deliveries)[id := Attempted(old(deliveries)[id], answer)]
    {
      var del := deliveries[id];
      if del.status == Delivered { return; }
      if answer == Accepted {
        deliveries := deliveries[id := del.(status := Delivered, attempts := del.attempts + 1, oks := del.oks + 1)];
        return;
      }
      if answer == Unsaved || answer == Lost(true) {
        del := del.(oks := del.oks + 1);
      }
      if answer.Lost? {
        deliveries := deliveries[id := del];
        return;
      }
      deliveries := deliveries[id := del.(status := Queued, attempts := del.attempts + 1)];
    }

    /** The acknowledge, snooze and resolve actions. */
    method SetAckStatus(event: nat, status: AckStatus)
      modifies this`tables
      ensures tables == Applied(old(tables), Marking(event, status))
    {
      if event < |tables.events| {
        tables := tables.(events := tables.events[event := tables.events[event].(ackStatus := status)]);
      }
    }

    /** Retry everything queued; the two counts add up and name what is still queued afterwards. */
    method FlushQueued(answers: nat -> Answer) returns (attempted: nat, delivered: nat, stillQueued: nat)
      modifies this`deliveries
      ensures deliveries == Flushed(old(deliveries), answers)
      ensures attempted == CountStatus(old(deliveries), |old(deliveries)|, Queued) == delivered + stillQueued
      ensures stillQueued == CountStatus(deliveries, |deliveries|, Queued)
      ensures CountStatus(deliveries, |deliveries|, Delivered)
              == CountStatus(old(deliveries), |old(deliveries)|, Delivered) + delivered
    {
      ghost var before := deliveries;
      attempted, delivered, stillQueued := 0, 0, 0;
      for i := 0 to |deliveries|
        invariant |deliveries| == |before|
        invariant forall j | 0 <= j < i :: deliveries[j] == Flushed(before, answers)[j]
        invariant forall j | i <= j < |before| :: deliveries[j] == before[j]
        invariant attempted == CountStatus(before, i, Queued) == delivered + stillQueued
        invariant stillQueued == CountStatus(Flushed(before, answers), i, Queued)
        invariant CountStatus(Flushed(before, answers), i, Delivered) == CountStatus(before, i, Delivered) + delivered
      {
        if deliveries[i].status == Queued {
          attempted := attempted + 1;
          Deliver(i, answers(i));
          if deliveries[i].status == Delivered { delivered := delivered + 1; } else { stillQueued := stillQueued + 1; }
        }
      }
      assert deliveries == Flushed(before, answers);
    }
  }

  function Attempted(d: Delivery, answer: Answer): Delivery {
    if d.status == Delivered then d
    else
      match answer
      case Accepted => d.(status := Delivered, attempts := d.attempts + 1, oks := d.oks + 1)
      case Unsaved => d.(status := Queued, attempts := d.attempts + 1, oks := d.oks + 1)
      case Refused => d.(status := Queued, attempts := d.attempts + 1)
      case Lost(good) => d.(oks := d.oks + if good then 1 else 0)
  }

  function Flushed(ds: seq<Delivery>, answers: nat -> Answer): seq<Delivery> {
    seq(|ds|, i requires 0 <= i < |ds| => if ds[i].status == Queued then Attempted(ds[i], answers(i)) else ds[i])
  }

  function CountStatus(ds: seq<Delivery>, n: nat, status: DeliveryStatus): nat
    requires n <= |ds|
  {
    if n == 0 then 0 else CountStatus(ds, n - 1, status) + if ds[n - 1].status == status then 1 else 0
  }

  /** A row after its first `n` attempts. */
  function AttemptedAll(d: Delivery, answers: seq<Answer>, n: nat): Delivery
    requires n <= |answers|
  {
    if n == 0 then d else Attempted(AttemptedAll(d, answers, n - 1), answers[n - 1])
  }

  /** The attempts up to and including the first accepted one, all of them if none was. */
  function UpToFirstAccepted(answers: seq<Answer>, n: nat): (m: nat)
    requires n <= |answers|
    ensures m <= n
  {
    if n == 0 then 0
    else if exists i | 0 <= i < n - 1 :: answers[i] == Accepted then UpToFirstAccepted(answers, n - 1)
    else n
  }

  function GoodAnswers(answers: seq<Answer>, n: nat): nat
    requires n <= |answers|
  {
    if n == 0 then 0
    else GoodAnswers(answers, n - 1) + if answers[n - 1] == Refused || answers[n - 1] == Lost(false) then 0 else 1
  }

  function WrittenAnswers(answers: seq<Answer>, n: nat): nat
    requires n <= |answers|
  {
    if n == 0 then 0 else WrittenAnswers(answers, n - 1) + if answers[n - 1].Lost? then 0 else 1
  }

  /**
   * Over any attempts a new row is delivered exactly when a good answer was saved, and no attempt is made after that
   * one; every earlier good answer is one whose saving failed. It stays pending, and so out of reach of the retries,
   * exactly when nothing was ever written of its attempts.
   */
  lemma {:induction false} DeliveredIffAnswered(event: nat, channel: nat, answers: seq<Answer>, n: nat)
    requires n <= |answers|
    ensures var d := AttemptedAll(Delivery(event, channel, Pending, 0, 0), answers, n);
            && (d.status == Delivered <==> exists i | 0 <= i < n :: answers[i] == Accepted)
            && (d.status == Pending <==> forall i | 0 <= i < n :: answers[i].Lost?)
            && d.attempts == WrittenAnswers(answers, UpToFirstAccepted(answers, n))
            && d.oks == GoodAnswers(answers, UpToFirstAccepted(answers, n))
            && d.event == event && d.channel == channel
  {
    if n > 0 {
      DeliveredIffAnswered(event, channel, answers, n - 1);
      assert answers[n - 1] == Accepted ==> exists i | 0 <= i < n :: answers[i] == Accepted;
    }
  }

  lemma {:induction false} EligibleIff(channels: seq<Channel>, n: nat, severity: Severity, c: nat)
    requires n <= |channels|
    ensures c in Eligible(channels, n, severity) <==>
            c < n && channels[c].enabled && Takes(channels[c].minSeverity, severity)
  {
    if n > 0 {
      EligibleIff(channels, n - 1, severity, c);
      var ch := channels[n - 1];
      assert c in Eligible(channels, n, severity) <==>
             c in Eligible(channels, n - 1, severity)
             || (c == n - 1 && ch.enabled && Takes(ch.minSeverity, severity));
    }
  }

  /** No channel gets two deliveries of one event. */
  lemma {:induction false} EligibleOnce(channels: seq<Channel>, n: nat, severity: Severity, i: nat, j: nat)
    requires n <= |channels| && i < j < |Eligible(channels, n, severity)|
    ensures Eligible(channels, n, severity)[i] < Eligible(channels, n, severity)[j]
  {
    var before := Eligible(channels, n - 1, severity);
    if j < |before| {
      EligibleOnce(channels, n - 1, severity, i, j);
    } else {
      assert Eligible(channels, n, severity)[j] == n - 1 && before[i] in before;
    }
  }

  // ----- any number of calls, one after the other

  /** A call, or a person marking an event. */
  datatype Op = Raising(r: Raise) | Marking(event: nat, status: AckStatus)

  function Applied(t: Tables, op: Op): Tables {
    match op
    case Raising(r) => Raised(t, r)
    case Marking(event, status) =>
      if event < |t.events| then t.(events := t.events[event := t.events[event].(ackStatus := status)]) else t
  }

  function AppliedAll(t: Tables, ops: seq<Op>, n: nat): Tables
    requires n <= |ops|
  {
    if n == 0 then t else Applied(AppliedAll(t, ops, n - 1), ops[n - 1])
  }

  function Raises(ops: seq<Op>, n: nat): nat
    requires n <= |ops|
  {
    if n == 0 then 0 else Raises(ops, n - 1) + if ops[n - 1].Raising? then 1 else 0
  }

  function PairsOfOp(t: Tables, op: Op, channels: seq<Channel>): seq<(nat, nat)> {
    if op.Raising? then NewPairs(t, op.r, channels) else []
  }

  function PairsOfRun(t: Tables, ops: seq<Op>, channels: seq<Channel>, n: nat): seq<(nat, nat)>
    requires n <= |ops|
  {
    if n == 0 then []
    else PairsOfRun(t, ops, channels, n - 1) + PairsOfOp(AppliedAll(t, ops, n - 1), ops[n - 1], channels)
  }

  /** Whether a channel with this minimum takes an event of this severity: INFO is the least, CRITICAL the greatest. */
  predicate Takes(min: Severity, severity: Severity) {
    match min
    case INFO => true
    case WARN => severity != INFO
    case ERROR => severity == ERROR || severity == CRITICAL
    case CRITICAL => severity == CRITICAL
  }

  predicate Entitled(channels: seq<Channel>, events: seq<Event>, event: nat, channel: nat) {
    && event < |events| && channel < |channels| && channels[channel].enabled
    && Takes(channels[channel].minSeverity, events[event].severity)
  }

  /** Over any run, an event is sent to exactly the enabled channels whose minimum it reaches. */
  lemma {:induction false} DeliveredIff(rules: map<RuleId, Rule>, ops: seq<Op>, channels: seq<Channel>, n: nat,
                                        event: nat, channel: nat)
    requires n <= |ops|
    ensures var t := Tables(rules, []);
            (event, channel) in PairsOfRun(t, ops, channels, n)
            <==> Entitled(channels, AppliedAll(t, ops, n).events, event, channel)
  {
    hide NewPairs;
    hide Raised;
    if n > 0 {
      DeliveredIff(rules, ops, channels, n - 1, event, channel);
      if ops[n - 1].Raising? {
        NewPairIff(AppliedAll(Tables(rules, []), ops, n - 1), ops[n - 1].r, channels, event, channel);
      }
    }
  }

  lemma NewPairIff(t: Tables, r: Raise, channels: seq<Channel>, event: nat, channel: nat)
    ensures (event, channel) in NewPairs(t, r, channels) <==>
            Entitled(channels, Raised(t, r).events, event, channel) && !Entitled(channels, t.events, event, channel)
    ensures Entitled(channels, t.events, event, channel) ==> Entitled(channels, Raised(t, r).events, event, channel)
  {
    var ids := Eligible(channels, |channels|, r.severity);
    EligibleIff(channels, |channels|, r.severity, channel);
    var pairs := PairsOf(|t.events|, ids);
    if event == |t.events| && channel in ids {
      var k :| 0 <= k < |ids| && ids[k] == channel;
      assert pairs[k] == (event, channel);
    }
    if (event, channel) in pairs {
      var k :| 0 <= k < |pairs| && pairs[k] == (event, channel);
      assert ids[k] == channel && event == |t.events|;
    }
  }

  /** And to each of them once: the deliveries of a run are in strictly increasing order. */
  lemma {:induction false} DeliveredOnce(rules: map<RuleId, Rule>, ops: seq<Op>, channels: seq<Channel>,
                                         n: nat, i: nat, j: nat)
    requires n <= |ops| && i < j < |PairsOfRun(Tables(rules, []), ops, channels, n)|
    ensures var pairs := PairsOfRun(Tables(rules, []), ops, channels, n);
            pairs[i].0 < pairs[j].0 || (pairs[i].0 == pairs[j].0 && pairs[i].1 < pairs[j].1)
  {
    hide NewPairs;
    hide Raised;
    hide AppliedAll;
    var t := Tables(rules, []);
    var (before, w) := (PairsOfRun(t, ops, channels, n - 1), AppliedAll(t, ops, n - 1));
    var more := PairsOfOp(w, ops[n - 1], channels);
    assert PairsOfRun(t, ops, channels, n) == before + more;
    if j < |before| {
      DeliveredOnce(rules, ops, channels, n - 1, i, j);
    } else if i < |before| {
      assert before[i] in before;
      DeliveredIff(rules, ops, channels, n - 1, before[i].0, before[i].1);
      NewPairsAscend(w, ops[n - 1].r, channels, j - |before|, j - |before|);
    } else {
      NewPairsAscend(w, ops[n - 1].r, channels, i - |before|, j - |before|);
    }
  }

  lemma NewPairsAscend(t: Tables, r: Raise, channels: seq<Channel>, i: nat, j: nat)
    requires i <= j < |NewPairs(t, r, channels)|
    ensures var pairs := NewPairs(t, r, channels);
            pairs[i].0 == pairs[j].0 == |t.events| && (i < j ==> pairs[i].1 < pairs[j].1)
  {
    if i < j {
      EligibleOnce(channels, |channels|, r.severity, i, j);
    }
  }

  /** The clock does not run backwards, within a call or between calls. */
  predicate ClockMonotone(ops: seq<Op>) {
    && (forall i | 0 <= i < |ops| && ops[i].Raising? :: ops[i].r.checkedAt <= ops[i].r.createdAt <= ops[i].r.firedAt)
    && forall i, j | 0 <= i < j < |ops| && ops[i].Raising? && ops[j].Raising? :: ops[i].r.firedAt <= ops[j].r.checkedAt
  }

  /** An event stands for itself and every call suppressed into it. */
  function Weight(events: seq<Event>, n: nat): nat
    requires n <= |events|
  {
    if n == 0 then 0 else Weight(events, n - 1) + 1 + events[n - 1].suppressedCount
  }

  lemma {:induction false} WeightOfUpdate(events: seq<Event>, n: nat, i: nat, e: Event)
    requires n <= |events| && i < |events|
    ensures Weight(events[i := e], n)
            == Weight(events, n) + if i < n then e.suppressedCount - events[i].suppressedCount else 0
  {
    if n > 0 {
      WeightOfUpdate(events, n - 1, i, e);
    }
  }

  lemma {:induction false} WeightOfPrefix(events: seq<Event>, e: Event, n: nat)
    requires n <= |events|
    ensures Weight(events + [e], n) == Weight(events, n)
  {
    if n > 0 {
      WeightOfPrefix(events, e, n - 1);
    }
  }

  /** No call is lost or counted twice, whatever is done with the events in between. */
  lemma {:induction false} EveryRaiseCounted(t: Tables, ops: seq<Op>, n: nat)
    requires n <= |ops|
    ensures var after := AppliedAll(t, ops, n);
            Weight(after.events, |after.events|) == Weight(t.events, |t.events|) + Raises(ops, n)
  {
    if n > 0 {
      EveryRaiseCounted(t, ops, n - 1);
      var (before, op) := (AppliedAll(t, ops, n - 1), ops[n - 1]);
      match op
      case Raising(r) => RaiseWeighs(before, r);
      case Marking(event, status) =>
        if event < |before.events| {
          WeightOfUpdate(before.events, |before.events|, event, before.events[event].(ackStatus := status));
        }
    }
  }

  lemma RaiseWeighs(t: Tables, r: Raise)
    ensures var after := Raised(t, r).events; Weight(after, |after|) == Weight(t.events, |t.events|) + 1
  {
    var into := SuppressInto(t, r);
    if into.Some? {
      var e := t.events[into.value];
      WeightOfUpdate(t.events, |t.events|, into.value, e.(suppressedCount := e.suppressedCount + 1));
    } else {
      WeightOfPrefix(t.events, NewEvent(t.rules, r), |t.events|);
    }
  }

  /** Events of one rule and one container are at least the rule's cooldown apart. */
  predicate Spaced(t: Tables) {
    forall i, j | 0 <= i < j < |t.events| && SameSource(t, i, j) ::
      t.events[j].createdAt - t.events[i].createdAt >= t.rules[t.events[j].rule.value].cooldownSec * 1000
  }

  predicate SameSource(t: Tables, i: nat, j: nat)
    requires i < |t.events| && j < |t.events|
  {
    && t.events[i].rule == t.events[j].rule && t.events[i].container == t.events[j].container
    && t.events[j].rule.Some? && t.events[j].rule.value in t.rules
  }

  /** A rule's last firing is not before any of its events, and not after `now`. */
  predicate FiredAfterEvents(t: Tables, now: int) {
    && (forall i | 0 <= i < |t.events| :: t.events[i].createdAt <= now)
    && forall i | 0 <= i < |t.events| && t.events[i].rule.Some? && t.events[i].rule.value in t.rules ::
         && t.rules[t.events[i].rule.value].lastFiredAt.Some?
         && t.events[i].createdAt <= t.rules[t.events[i].rule.value].lastFiredAt.value
  }

  lemma RaiseKeepsSpacing(t: Tables, r: Raise, now: int)
    requires Spaced(t) && FiredAfterEvents(t, now)
    requires now <= r.checkedAt <= r.createdAt <= r.firedAt
    ensures Spaced(Raised(t, r)) && FiredAfterEvents(Raised(t, r), r.firedAt)
    ensures forall id :: id in Raised(t, r).rules <==> id in t.rules
    ensures forall id | id in t.rules :: Raised(t, r).rules[id].cooldownSec == t.rules[id].cooldownSec
  {
    var after := Raised(t, r);
    var into := SuppressInto(t, r);
    if into.Some? {
      forall i, j | 0 <= i < j < |after.events| && SameSource(after, i, j)
        ensures after.events[j].createdAt - after.events[i].createdAt
                >= after.rules[after.events[j].rule.value].cooldownSec * 1000
      {
        assert SameSource(t, i, j);
      }
    } else {
      var n := |t.events|;
      forall i, j | 0 <= i < j < |after.events| && SameSource(after, i, j)
        ensures after.events[j].createdAt - after.events[i].createdAt
                >= after.rules[after.events[j].rule.value].cooldownSec * 1000
      {
        if j < n {
          assert SameSource(t, i, j);
        } else {
          NewEventIsSpaced(t, r, i);
        }
      }
    }
  }

  /** A call that makes a new event of the rule comes after the cooldown of every earlier event of its source. */
  lemma NewEventIsSpaced(t: Tables, r: Raise, i: nat)
    requires i < |t.events| && SuppressInto(t, r).None?
    requires FiredAfterEvents(t, r.checkedAt) && r.checkedAt <= r.createdAt
    requires RuleOf(t.rules, r).Some? && t.events[i].rule == RuleOf(t.rules, r)
    requires t.events[i].container == StoredContainer(r)
    ensures r.createdAt - t.events[i].createdAt >= t.rules[RuleOf(t.rules, r).value].cooldownSec * 1000
  {
    var id := RuleOf(t.rules, r).value;
    assert Matches(t.events[i], id, ContainerOf(r.containerName));
  }

  /** Over any run with a clock that does not run backwards. */
  lemma {:induction false} EventsAreSpaced(rules: map<RuleId, Rule>, ops: seq<Op>, n: nat)
    requires ClockMonotone(ops) && n <= |ops|
    ensures var after := AppliedAll(Tables(rules, []), ops, n);
            && Spaced(after)
            && (forall id :: id in after.rules <==> id in rules)
            && (forall id | id in rules :: after.rules[id].cooldownSec == rules[id].cooldownSec)
            && (forall j | n <= j < |ops| && ops[j].Raising? :: FiredAfterEvents(after, ops[j].r.checkedAt))
  {
    hide Raised;
    if n > 0 {
      EventsAreSpaced(rules, ops, n - 1);
      var (before, op) := (AppliedAll(Tables(rules, []), ops, n - 1), ops[n - 1]);
      match op
      case Raising(r) => RaiseKeepsSpacing(before, r, r.checkedAt);
      case Marking(event, status) => MarkingKeepsSpacing(before, event, status);
    }
  }

  lemma MarkingKeepsSpacing(t: Tables, event: nat, status: AckStatus)
    requires Spaced(t)
    ensures Spaced(Applied(t, Marking(event, status)))
    ensures forall now | FiredAfterEvents(t, now) :: FiredAfterEvents(Applied(t, Marking(event, status)), now)
  {
    var after := Applied(t, Marking(event, status));
    forall i, j | 0 <= i < j < |after.events| && SameSource(after, i, j)
      ensures after.events[j].createdAt - after.events[i].createdAt
              >= after.rules[after.events[j].rule.value].cooldownSec * 1000
    {
      assert SameSource(t, i, j);
    }
  }

  // ----- which event a call is suppressed into

  predicate StillOpen(e: Event) {
    e.ackStatus == Open || e.ackStatus == Snoozed
  }

  /** The most recent matching event that is open or snoozed, as the comment on `raiseAlert` has it. */
  function MostRecentOpen(events: seq<Event>, n: nat, rule: RuleId, container: Option<string>): (r: Option<nat>)
    requires n <= |events|
    ensures r.Some? ==> r.value < n && StillOpen(events[r.value])
  {
    if n == 0 then None
    else if Matches(events[n - 1], rule, container) && StillOpen(events[n - 1]) then Some(n - 1)
    else MostRecentOpen(events, n - 1, rule, container)
  }

  /**
   * The code takes the most recent matching event in any state. That is the event the comment names exactly when it is
   * open or snoozed, or when none matches at all.
   */
  lemma {:induction false} MostRecentIsOpenIff(events: seq<Event>, n: nat, rule: RuleId, container: Option<string>)
    requires n <= |events|
    ensures var latest := MostRecent(events, n, rule, container);
            MostRecentOpen(events, n, rule, container) == latest
            <==> (latest.Some? ==> events[latest.value].ackStatus in {Open, Snoozed})
  {
    if n > 0 {
      MostRecentIsOpenIff(events, n - 1, rule, container);
    }
  }

  /** Within the cooldown a call is swallowed by a resolved event, which nobody looks at any more. */
  lemma SwallowedByResolved(rule: Rule, r: Raise, e: Event)
    requires r.ruleId.Some? && r.ruleId.value != "" && InCooldown(rule, r.checkedAt)
    requires e.rule == r.ruleId && e.container == StoredContainer(r) && e.ackStatus == Resolved
    ensures var t := Tables(map[r.ruleId.value := rule], [e]);
            && Raised(t, r).events == [e.(suppressedCount := e.suppressedCount + 1)]
            && MostRecentOpen(t.events, 1, r.ruleId.value, ContainerOf(r.containerName)) == None
  {
    var t := Tables(map[r.ruleId.value := rule], [e]);
    assert Matches(e, r.ruleId.value, ContainerOf(r.containerName));
    assert MostRecent(t.events, 1, r.ruleId.value, ContainerOf(r.containerName)) == Some(0);
  }

  // ----- the cooldown is one per rule, whatever the container

  lemma {:induction false} MostRecentKept(events: seq<Event>, n: nat, i: nat, e: Event, rule: RuleId)
    requires n <= |events| && i < |events| && e.rule == events[i].rule
    ensures MostRecent(events[i := e], n, rule, None) == MostRecent(events, n, rule, None)
  {
    if n > 0 {
      MostRecentKept(events, n - 1, i, e, rule);
    }
  }

  lemma {:induction false} MostRecentOfPrefix(events: seq<Event>, n: nat, e: Event, rule: RuleId)
    requires n <= |events|
    ensures MostRecent(events + [e], n, rule, None) == MostRecent(events, n, rule, None)
  {
    if n > 0 {
      MostRecentOfPrefix(events, n - 1, e, rule);
    }
  }

  /** The rule last fired with its latest event, for whatever container, or not since the run began. */
  predicate FiredLast(rules: map<RuleId, Rule>, t: Tables, id: RuleId)
    requires id in rules
  {
    var latest := MostRecent(t.events, |t.events|, id, None);
    && id in t.rules && t.rules[id].cooldownSec == rules[id].cooldownSec
    && t.rules[id].lastFiredAt
       == if latest.Some? then Some(t.events[latest.value].firedAt) else rules[id].lastFiredAt
  }

  lemma UpdateKeepsFiredLast(rules: map<RuleId, Rule>, t: Tables, id: RuleId, i: nat, e: Event)
    requires id in rules && FiredLast(rules, t, id) && i < |t.events|
    requires e.rule == t.events[i].rule && e.firedAt == t.events[i].firedAt
    ensures FiredLast(rules, t.(events := t.events[i := e]), id)
  {
    MostRecentKept(t.events, |t.events|, i, e, id);
  }

  lemma RaiseKeepsFiredLast(rules: map<RuleId, Rule>, t: Tables, id: RuleId, r: Raise)
    requires id in rules && FiredLast(rules, t, id)
    ensures FiredLast(rules, Raised(t, r), id)
  {
    var into := SuppressInto(t, r);
    if into.Some? {
      var e := t.events[into.value];
      UpdateKeepsFiredLast(rules, t, id, into.value, e.(suppressedCount := e.suppressedCount + 1));
    } else {
      MostRecentOfPrefix(t.events, |t.events|, NewEvent(t.rules, r), id);
    }
  }

  lemma {:induction false} RunKeepsFiredLast(rules: map<RuleId, Rule>, ops: seq<Op>, n: nat, id: RuleId)
    requires n <= |ops| && id in rules
    ensures FiredLast(rules, AppliedAll(Tables(rules, []), ops, n), id)
  {
    if n > 0 {
      RunKeepsFiredLast(rules, ops, n - 1, id);
      var t := AppliedAll(Tables(rules, []), ops, n - 1);
      match ops[n - 1]
      case Raising(r) => RaiseKeepsFiredLast(rules, t, id, r);
      case Marking(event, status) =>
        if event < |t.events| {
          UpdateKeepsFiredLast(rules, t, id, event, t.events[event].(ackStatus := status));
        }
    }
  }

  lemma {:induction false} MostRecentIsLast(events: seq<Event>, n: nat, rule: RuleId, container: Option<string>, i: nat)
    requires i < n <= |events| && Matches(events[i], rule, container)
    ensures var latest := MostRecent(events, n, rule, container); latest.Some? && i <= latest.value
  {
    if i < n - 1 && !Matches(events[n - 1], rule, container) {
      MostRecentIsLast(events, n - 1, rule, container, i);
    }
  }

  /** The event is younger than the cooldown of the rule. */
  predicate InTime(rule: Rule, e: Event, now: int) {
    now - e.firedAt < rule.cooldownSec * 1000
  }

  /**
   * Where there is an event of its own source, a call is suppressed exactly when the latest event of the rule, for any
   * container, is in time. So a suppressed call has no event of its own source in time only if a later event of another
   * container has moved the cooldown on.
   */
  lemma CooldownIsPerRule(rules: map<RuleId, Rule>, ops: seq<Op>, n: nat, r: Raise, id: RuleId, own: nat)
    requires n <= |ops| && id in rules && rules[id].cooldownSec > 0
    requires var t := AppliedAll(Tables(rules, []), ops, n);
             && RuleOf(t.rules, r) == Some(id)
             && MostRecent(t.events, |t.events|, id, ContainerOf(r.containerName)) == Some(own)
    ensures var t := AppliedAll(Tables(rules, []), ops, n);
            var latest := MostRecent(t.events, |t.events|, id, None);
            && latest.Some? && own <= latest.value
            && (SuppressInto(t, r).Some? <==> InTime(rules[id], t.events[latest.value], r.checkedAt))
            && (SuppressInto(t, r).Some? && !InTime(rules[id], t.events[own], r.checkedAt) ==>
                  && own < latest.value && r.containerName.Some?
                  && t.events[latest.value].container != r.containerName)
  {
    var t := AppliedAll(Tables(rules, []), ops, n);
    RunKeepsFiredLast(rules, ops, n, id);
    MostRecentIsLast(t.events, |t.events|, id, None, own);
    var latest := MostRecent(t.events, |t.events|, id, None).value;
    if own < latest && Matches(t.events[latest], id, ContainerOf(r.containerName)) {
      MostRecentIsLast(t.events, |t.events|, id, ContainerOf(r.containerName), latest);
    }
  }

  /**
   * A cooldown of a minute, an event for `a` at 0 and one for `b` at 50 s: a call for `a` at 70 s is still
   * suppressed.
   */
  lemma OtherContainerProlongs(id: RuleId, severity: Severity, ops: seq<Op>, call: Raise)
    requires id != ""
    requires ops == [Raising(Raise(Some(id), Some("a"), None, severity, 0, 0, 0)),
                     Raising(Raise(Some(id), Some("b"), None, severity, 50000, 50000, 50000))]
    requires call == Raise(Some(id), Some("a"), None, severity, 70000, 70000, 70000)
    ensures var t := AppliedAll(Tables(map[id := Rule(60, None)], []), ops, |ops|);
            SuppressInto(t, call) == Some(0) && !InTime(t.rules[id], t.events[0], call.checkedAt)
  {
    var start := Tables(map[id := Rule(60, None)], []);
    var first := Applied(start, ops[0]);
    assert AppliedAll(start, ops, 0) == start && AppliedAll(start, ops, 1) == first;
    assert first.events == [Event(Some(id), Some("a"), severity, 0, 0, 0, Open)];
    var second := Applied(first, ops[1]);
    assert MostRecent(first.events, 0, id, Some("b")) == None;
    assert second.events == first.events + [Event(Some(id), Some("b"), severity, 50000, 50000, 0, Open)];
    assert !Matches(second.events[1], id, Some("a")) && MostRecent(second.events, 1, id, Some("a")) == Some(0);
  }
}
