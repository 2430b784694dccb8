/** A job's log and the streams that follow it (src/lib/jobs.ts), one event per database access. */
module JobLog {
  import opened JsText

  datatype JobState = QUEUED | RUNNING | SUCCEEDED | FAILED | CANCELLED | ROLLED_BACK

  predicate Terminal(s: JobState) {
    s == SUCCEEDED || s == FAILED || s == CANCELLED || s == ROLLED_BACK
  }

  /** An append between its read of the log and its write: what it read and the line to add. */
  datatype Append = Append(cur: Text, line: Text)

  /** A stream: how much of the log it has sent, and everything it has sent. */
  datatype Stream = Stream(sentLen: nat, received: Text, done: bool)

  datatype World = World(state: JobState, log: Text, pending: seq<Append>, streams: seq<Stream>)

  datatype Event =
    | SetState(state: JobState)             // QUEUED to RUNNING, then once to a terminal state
    | BeginAppend(line: Text)               // `findUnique`
    | EndAppend(which: nat, written: bool)  // `update`, whose failure is swallowed
    | Open                                  // a client connects
    | Poll(stream: nat)                     // one turn of a stream's loop

  const START := World(QUEUED, [], [], [])

  function SliceFrom(s: Text, i: nat): Text {
    if i <= |s| then s[i..] else []
  }

  /** `send` the new part of the log; the loop ends with the poll that finds a terminal state. */
  function Polled(s: Stream, w: World): Stream {
    if s.done then s else Stream(|w.log|, s.received + SliceFrom(w.log, s.sentLen), Terminal(w.state))
  }

  function Step(w: World, e: Event): World {
    match e
    case SetState(state) => if Terminal(w.state) then w else w.(state := state)
    case BeginAppend(line) => w.(pending := w.pending + [Append(w.log, line)])
    case EndAppend(which, written) =>
      if which >= |w.pending| then w
      else
        var a := w.pending[which];
        w.(log := if written then a.cur + a.line else w.log, pending := w.pending[..which] + w.pending[which + 1..])
    case Open => w.(streams := w.streams + [Stream(0, [], false)])
    case Poll(i) => if i >= |w.streams| then w else w.(streams := w.streams[i := Polled(w.streams[i], w)])
  }

  function After(events: seq<Event>, n: nat): World
    requires n <= |events|
  {
    if n == 0 then START else Step(After(events, n - 1), events[n - 1])
  }

  /** Every append is awaited before the next one begins. */
  predicate Awaited(events: seq<Event>, n: nat)
    requires n <= |events|
  {
    forall i | 0 <= i < n && events[i].BeginAppend? :: After(events, i).pending == []
  }

  predicate Follows(s: Stream, log: Text) {
    s.sentLen <= |log| && s.received == log[..s.sentLen]
  }

  predicate Consistent(w: World) {
    && |w.pending| <= 1
    && (forall i | 0 <= i < |w.pending| :: w.pending[i].cur == w.log)
    && forall i | 0 <= i < |w.streams| :: Follows(w.streams[i], w.log)
  }

  lemma FollowsLonger(s: Stream, log: Text, line: Text)
    requires Follows(s, log)
    ensures Follows(s, log + line)
  {
  }

  lemma PollKeeps(s: Stream, w: World)
    requires Follows(s, w.log)
    ensures Follows(Polled(s, w), w.log)
    ensures !s.done ==> Polled(s, w).received == w.log
  {
    assert w.log[..s.sentLen] + w.log[s.sentLen..] == w.log && w.log[..|w.log|] == w.log;
  }

  lemma WriteKeeps(w: World, which: nat, written: bool)
    requires Consistent(w)
    ensures Consistent(Step(w, EndAppend(which, written))) && w.log <= Step(w, EndAppend(which, written)).log
  {
    if which < |w.pending| && written {
      forall i | 0 <= i < |w.streams|
        ensures Follows(w.streams[i], w.log + w.pending[which].line)
      {
        FollowsLonger(w.streams[i], w.log, w.pending[which].line);
      }
    }
  }

  lemma StepKeeps(w: World, e: Event)
    requires Consistent(w) && (e.BeginAppend? ==> w.pending == [])
    ensures Consistent(Step(w, e))
    ensures w.log <= Step(w, e).log
  {
    match e
    case EndAppend(which, written) => WriteKeeps(w, which, written);
    case Poll(i) =>
      if i < |w.streams| {
        PollKeeps(w.streams[i], w);
      }
    case _ =>
  }

  lemma {:induction false} RunKeeps(events: seq<Event>, n: nat)
    requires n <= |events| && Awaited(events, n)
    ensures Consistent(After(events, n))
  {
    if n > 0 {
      RunKeeps(events, n - 1);
      StepKeeps(After(events, n - 1), events[n - 1]);
    }
  }

  /** In every interleaving of awaited appends with polls, what a stream has sent is a prefix of the log. */
  lemma StreamsSendPrefixes(events: seq<Event>, n: nat, i: nat)
    requires n <= |events| && Awaited(events, n) && i < |After(events, n).streams|
    ensures After(events, n).streams[i].received <= After(events, n).log
  {
    RunKeeps(events, n);
  }

  /** The poll that sends the terminal state has by then sent the whole log. */
  lemma TerminalPollSendsAll(events: seq<Event>, n: nat, i: nat)
    requires n < |events| && Awaited(events, n) && events[n] == Poll(i) && i < |After(events, n).streams|
    requires !After(events, n).streams[i].done
    ensures After(events, n + 1).streams[i].done
            <==> After(events, n).state in {SUCCEEDED, FAILED, CANCELLED, ROLLED_BACK}
    ensures After(events, n + 1).streams[i].received == After(events, n + 1).log
  {
    RunKeeps(events, n);
    PollKeeps(After(events, n).streams[i], After(events, n));
  }

  /** What a stream that has ended sent is final, whatever happens afterwards. */
  lemma EndedStays(w: World, e: Event, i: nat)
    requires i < |w.streams| && w.streams[i].done
    ensures i < |Step(w, e).streams| && Step(w, e).streams[i] == w.streams[i]
  {
  }

  /** A job can change its state until that is a terminal one, and then never again. */
  lemma StateChanges(w: World, e: Event)
    ensures Step(w, e).state
            == if e.SetState? && w.state in {QUEUED, RUNNING} then e.state else w.state
  {
  }

  /** The log only ever grows. */
  lemma {:induction false} LogGrows(events: seq<Event>, m: nat, n: nat)
    requires m <= n <= |events| && Awaited(events, n)
    ensures After(events, m).log <= After(events, n).log
  {
    if m < n {
      LogGrows(events, m, n - 1);
      RunKeeps(events, n - 1);
      StepKeeps(After(events, n - 1), events[n - 1]);
    }
  }

  /** Once the terminal state is written no append is under way, and none begins any more. */
  predicate EndsLast(events: seq<Event>, n: nat)
    requires n <= |events|
  {
    && (forall k | 0 <= k < n && events[k].BeginAppend? :: !Terminal(After(events, k).state))
    && forall k | 0 <= k < n && events[k].SetState? && Terminal(events[k].state) :: After(events, k).pending == []
  }

  /** No append is under way in a terminal state, and every ended stream holds the log. */
  predicate Settled(w: World) {
    && (Terminal(w.state) ==> w.pending == [])
    && forall i | 0 <= i < |w.streams| && w.streams[i].done :: Terminal(w.state) && w.streams[i].received == w.log
  }

  lemma StartSettled()
    ensures Settled(START)
  {
  }

  lemma SettledStep(w: World, e: Event)
    requires Consistent(w) && Settled(w)
    requires Terminal(w.state) ==> !e.BeginAppend?
    requires e.SetState? && Terminal(e.state) ==> w.pending == []
    ensures Settled(Step(w, e))
  {
    if e.Poll? && e.stream < |w.streams| {
      PollKeeps(w.streams[e.stream], w);
    }
  }

  lemma EndsLastBefore(events: seq<Event>, n: nat)
    requires 0 < n <= |events| && Awaited(events, n) && EndsLast(events, n)
    ensures Awaited(events, n - 1) && EndsLast(events, n - 1)
    ensures var (w, e) := (After(events, n - 1), events[n - 1]);
            && (Terminal(w.state) ==> !e.BeginAppend?)
            && (e.SetState? && Terminal(e.state) ==> w.pending == [])
  {
  }

  /** Then a stream that has ended holds the final log, whatever happens after its last poll. */
  lemma {:induction false} EndedStreamHoldsFinalLog(events: seq<Event>, n: nat)
    requires n <= |events| && Awaited(events, n) && EndsLast(events, n)
    ensures Settled(After(events, n))
  {
    hide Step;
    hide Settled;
    hide Consistent;
    hide EndsLast;
    hide Awaited;
    StartSettled();
    if n > 0 {
      EndsLastBefore(events, n);
      EndedStreamHoldsFinalLog(events, n - 1);
      RunKeeps(events, n - 1);
      SettledStep(After(events, n - 1), events[n - 1]);
    }
  }

  /** Whenever a stream ends with an append still under way, it misses the line of that append. */
  lemma LateLineMissed(w: World, i: nat, j: nat)
    requires Consistent(w) && Terminal(w.state)
    requires i < |w.streams| && !w.streams[i].done && j < |w.pending| && w.pending[j].line != []
    ensures var after := Step(Step(w, Poll(i)), EndAppend(j, true));
            && after.streams[i].done && after.streams[i].received == w.log
            && after.log == w.log + w.pending[j].line != w.log
  {
    PollKeeps(w.streams[i], w);
    assert |w.log + w.pending[j].line| > |w.log|;
  }

  // ----- overlapping appends

  /**
   * The n-th event, if it is the write of an append, adds the line of that append to the log and changes nothing else
   * in it.
   */
  predicate AddsItsLine(events: seq<Event>, k: nat)
    requires k < |events|
  {
    var w := After(events, k);
    events[k].EndAppend? && events[k].which < |w.pending| ==>
      After(events, k + 1).log == w.log + w.pending[events[k].which].line
  }

  /** Lines are not empty and writes succeed. */
  predicate Plain(events: seq<Event>, n: nat)
    requires n <= |events|
  {
    forall k | 0 <= k < n ::
      (events[k].BeginAppend? ==> events[k].line != []) && (events[k].EndAppend? ==> events[k].written)
  }

  predicate LinesNotEmpty(w: World) {
    forall i | 0 <= i < |w.pending| :: w.pending[i].line != []
  }

  /** Some append under way has read a log that is no longer the whole, or will have once another one is written. */
  predicate Doomed(w: World) {
    |w.pending| >= 2 || exists i | 0 <= i < |w.pending| :: |w.pending[i].cur| < |w.log|
  }

  /** No append under way has read more than there is. */
  predicate Readable(w: World) {
    forall i | 0 <= i < |w.pending| :: |w.pending[i].cur| <= |w.log|
  }

  /** The write of an append that adds its line to the log as it is. */
  predicate Appends(w: World, j: nat)
    requires j < |w.pending|
  {
    Step(w, EndAppend(j, true)).log == w.log + w.pending[j].line
  }

  lemma PendingAfter(w: World, j: nat)
    requires j < |w.pending|
    ensures var next := Step(w, EndAppend(j, true)).pending;
            && |next| == |w.pending| - 1
            && (forall i | 0 <= i < j :: next[i] == w.pending[i])
            && forall i | j <= i < |next| :: next[i] == w.pending[i + 1]
  {
  }

  lemma CurAfter(w: World, j: nat)
    requires j < |w.pending|
    ensures Step(w, EndAppend(j, true)).log == w.pending[j].cur + w.pending[j].line
  {
  }

  /** Its own append had read the whole log, so it is none of those that doom the run, and it makes the log longer. */
  lemma WriteKeepsDoom(w: World, j: nat)
    requires LinesNotEmpty(w) && Readable(w) && j < |w.pending| && Appends(w, j)
    ensures Readable(Step(w, EndAppend(j, true))) && LinesNotEmpty(Step(w, EndAppend(j, true)))
    ensures Doomed(w) ==> Doomed(Step(w, EndAppend(j, true)))
  {
    hide Step;
    var next := Step(w, EndAppend(j, true));
    PendingAfter(w, j);
    assert |next.log| == |w.log| + |w.pending[j].line| > |w.log|;
    forall i | 0 <= i < |next.pending|
      ensures next.pending[i].line != [] && |next.pending[i].cur| < |next.log|
    {
      assert next.pending[i] == w.pending[if i < j then i else i + 1];
    }
    CurAfter(w, j);
    SameStart(w.pending[j].cur, w.log, w.pending[j].line);
    if Doomed(w) {
      assert |w.pending| >= 2;
      assert |next.pending[0].cur| < |next.log|;
    }
  }

  /** An append that begins while another is under way dooms the run. */
  lemma BeginDooms(w: World, line: Text)
    requires LinesNotEmpty(w) && Readable(w) && line != []
    ensures Readable(Step(w, BeginAppend(line))) && LinesNotEmpty(Step(w, BeginAppend(line)))
    ensures Doomed(w) || w.pending != [] ==> Doomed(Step(w, BeginAppend(line)))
  {
    var next := Step(w, BeginAppend(line));
    assert next.pending == w.pending + [Append(w.log, line)];
    if Doomed(w) || w.pending != [] {
      assert |w.pending| >= 1;
    }
  }

  lemma SameStart(a: Text, b: Text, line: Text)
    requires a + line == b + line
    ensures a == b
  {
    assert |a| == |b|;
    assert a == (a + line)[..|a|] == (b + line)[..|b|] == b;
  }

  lemma {:induction false} OverlapDooms(events: seq<Event>, n: nat)
    requires n <= |events| && Plain(events, n) && forall k | 0 <= k < n :: AddsItsLine(events, k)
    ensures LinesNotEmpty(After(events, n)) && Readable(After(events, n))
    ensures Awaited(events, n) || Doomed(After(events, n))
  {
    if n > 0 {
      OverlapDooms(events, n - 1);
      assert AddsItsLine(events, n - 1);
      var (w, e) := (After(events, n - 1), events[n - 1]);
      match e
      case BeginAppend(line) => BeginDooms(w, line);
      case EndAppend(which, written) =>
        if which < |w.pending| {
          WriteKeepsDoom(w, which);
        }
      case _ => OthersKeepDoom(w, e);
    }
  }

  lemma OthersKeepDoom(w: World, e: Event)
    requires !e.BeginAppend? && !e.EndAppend?
    ensures Step(w, e).pending == w.pending && Step(w, e).log == w.log
  {
  }

  /**
   * With lines that are not empty, writes that succeed and no append left under way: every write adds exactly its own
   * line to the log iff no append begins while another is under way.
   */
  lemma LinesKeptIff(events: seq<Event>, n: nat)
    requires n <= |events| && Plain(events, n) && After(events, n).pending == []
    ensures (forall k | 0 <= k < n :: AddsItsLine(events, k)) <==> Awaited(events, n)
  {
    if forall k | 0 <= k < n :: AddsItsLine(events, k) {
      OverlapDooms(events, n);
    }
    if Awaited(events, n) {
      forall k | 0 <= k < n
        ensures AddsItsLine(events, k)
      {
        RunKeeps(events, k);
      }
    }
  }

  /** Two appends that overlap lose a line, and a stream may have sent what the log no longer holds. */
  lemma OverlappingAppendsLoseALine(x: Text, y: Text)
    requires x != [] && y != [] && x != y && |x| == |y|
    ensures var events := [Open, BeginAppend(x), BeginAppend(y), EndAppend(0, true), Poll(0), EndAppend(0, true)];
            var w := After(events, 6);
            w.log == y && w.streams == [Stream(|x|, x, false)] && !(x <= w.log)
  {
    var events := [Open, BeginAppend(x), BeginAppend(y), EndAppend(0, true), Poll(0), EndAppend(0, true)];
    var s := Stream(0, [], false);
    assert After(events, 1) == World(QUEUED, [], [], [s]);
    assert After(events, 2) == World(QUEUED, [], [Append([], x)], [s]);
    assert After(events, 3) == World(QUEUED, [], [Append([], x), Append([], y)], [s]);
    assert [] + x == x && [] + y == y;
    var w4 := After(events, 4);
    assert w4.log == x && w4.pending == [Append([], y)] && w4.streams == [s];
    var w5 := After(events, 5);
    assert x[0..] == x;
    assert w5.streams == [Stream(|x|, x, false)];
  }
}
