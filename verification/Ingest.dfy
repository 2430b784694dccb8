/**
 * Concurrent ingest (src/lib/billing.ts, `recordEvent`), one step per database access, under the unique generation
 * index.
 */
module Ingest {
  import opened Wrappers

  type Generation = Option<string>

  /** The table: the generation id of each row; a row's id is its position. */
  type Rows = seq<Generation>

  datatype Phase =
    | Start                           // before the first lookup
    | Absent                          // the lookup found nothing; pricing is looked up
    | Conflict                        // the insert hit the unique index
    | Inserted(id: nat)               // the row exists; mirror and budgets follow
    | Returned(id: nat, hit: bool)
    | Threw

  datatype Caller = Caller(generation: Generation, phase: Phase)

  datatype World = World(rows: Rows, callers: seq<Caller>)

  /** One caller moves; `fails` is a database error other than the unique index. */
  datatype Event = Event(caller: nat, fails: bool)

  /** `findUnique`: the row with this generation id among the first `n`. */
  function Find(rows: Rows, n: nat, g: Generation): (r: Option<nat>)
    requires n <= |rows|
    ensures r.Some? ==> r.value < n && rows[r.value] == g
    ensures r.None? ==> forall i | 0 <= i < n :: rows[i] != g
  {
    if n == 0 then None else if rows[n - 1] == g then Some(n - 1) else Find(rows, n - 1, g)
  }

  /** An empty id is stored, and so meets the unique index, but is never looked up. */
  predicate LookedUp(g: Generation) {
    g.Some? && g.value != ""
  }

  function Moved(rows: Rows, c: Caller, fails: bool): (Caller, Rows) {
    var existing := if c.generation.None? then None else Find(rows, |rows|, c.generation);
    match c.phase
    case Start =>
      if !LookedUp(c.generation) then (c.(phase := Absent), rows)
      else if fails then (c.(phase := Threw), rows)
      else if existing.Some? then (c.(phase := Returned(existing.value, true)), rows)
      else (c.(phase := Absent), rows)
    case Absent =>
      if fails then (c.(phase := Threw), rows)
      else if existing.Some? then (c.(phase := if LookedUp(c.generation) then Conflict else Threw), rows)
      else (c.(phase := Inserted(|rows|)), rows + [c.generation])
    case Conflict =>
      if fails || existing.None? then (c.(phase := Threw), rows)
      else (c.(phase := Returned(existing.value, true)), rows)
    case Inserted(id) => (c.(phase := Returned(id, false)), rows)
    case Returned(_, _) => (c, rows)
    case Threw => (c, rows)
  }

  function Step(w: World, e: Event): World {
    if e.caller >= |w.callers| then w
    else
      var (c, rows) := Moved(w.rows, w.callers[e.caller], e.fails);
      World(rows, w.callers[e.caller := c])
  }

  function After(w: World, events: seq<Event>, n: nat): World
    requires n <= |events|
  {
    if n == 0 then w else Step(After(w, events, n - 1), events[n - 1])
  }

  // ----- what every interleaving keeps

  function CountRows(rows: Rows, n: nat, g: Generation): nat
    requires n <= |rows|
  {
    if n == 0 then 0 else CountRows(rows, n - 1, g) + if rows[n - 1] == g then 1 else 0
  }

  /** The caller made the row itself: it will report, or has reported, no idempotent hit. */
  predicate Owns(c: Caller, g: Generation) {
    c.generation == g && (c.phase.Inserted? || (c.phase.Returned? && !c.phase.hit))
  }

  function Owners(callers: seq<Caller>, n: nat, g: Generation): nat
    requires n <= |callers|
  {
    if n == 0 then 0 else Owners(callers, n - 1, g) + if Owns(callers[n - 1], g) then 1 else 0
  }

  /** A caller that has an id has the id of a row with its own generation. */
  predicate HoldsItsRow(rows: Rows, c: Caller) {
    (c.phase.Inserted? || c.phase.Returned?) ==> c.phase.id < |rows| && rows[c.phase.id] == c.generation
  }

  predicate UniqueIndex(rows: Rows) {
    forall i, j | 0 <= i < j < |rows| && rows[i].Some? :: rows[i] != rows[j]
  }

  ghost predicate Consistent(w: World, before: Rows) {
    && before <= w.rows
    && (forall i | 0 <= i < |w.callers| :: HoldsItsRow(w.rows, w.callers[i]))
    && (forall g ::
          CountRows(w.rows, |w.rows|, g) == CountRows(before, |before|, g) + Owners(w.callers, |w.callers|, g))
    && UniqueIndex(w.rows)
  }

  lemma {:induction false} OwnersUpdate(callers: seq<Caller>, n: nat, i: nat, c: Caller, g: Generation)
    requires n <= |callers| && i < |callers|
    ensures Owners(callers[i := c], n, g)
            == Owners(callers, n, g)
               + (if i < n && Owns(c, g) then 1 else 0) - (if i < n && Owns(callers[i], g) then 1 else 0)
  {
    if n > 0 {
      OwnersUpdate(callers, n - 1, i, c, g);
    }
  }

  lemma {:induction false} CountOfPrefix(rows: Rows, more: Rows, n: nat, g: Generation)
    requires n <= |rows|
    ensures CountRows(rows + more, n, g) == CountRows(rows, n, g)
  {
    if n > 0 {
      CountOfPrefix(rows, more, n - 1, g);
    }
  }

  /** A caller becomes the owner of a row exactly when it adds it. */
  lemma OwnsWhatItAdds(rows: Rows, c: Caller, fails: bool, g: Generation)
    ensures var moved := Moved(rows, c, fails);
            || (moved.1 == rows && (Owns(moved.0, g) <==> Owns(c, g)))
            || (moved.1 == rows + [c.generation] && !Owns(c, g) && (Owns(moved.0, g) <==> c.generation == g))
  {
  }

  lemma CountsKept(w: World, n: nat, e: Event, g: Generation)
    requires e.caller < |w.callers| && CountRows(w.rows, |w.rows|, g) == n + Owners(w.callers, |w.callers|, g)
    ensures var next := Step(w, e);
            CountRows(next.rows, |next.rows|, g) == n + Owners(next.callers, |next.callers|, g)
  {
    hide Moved;
    var c := w.callers[e.caller];
    var moved := Moved(w.rows, c, e.fails);
    OwnsWhatItAdds(w.rows, c, e.fails, g);
    OwnersUpdate(w.callers, |w.callers|, e.caller, moved.0, g);
    CountOfPrefix(w.rows, [c.generation], |w.rows|, g);
  }

  lemma IdsKept(w: World, before: Rows, e: Event, i: nat)
    requires Consistent(w, before) && i < |w.callers|
    ensures HoldsItsRow(Step(w, e).rows, Step(w, e).callers[i])
  {
    assert HoldsItsRow(w.rows, w.callers[i]);
  }

  lemma IndexKept(w: World, before: Rows, e: Event)
    requires Consistent(w, before)
    ensures before <= Step(w, e).rows && UniqueIndex(Step(w, e).rows)
  {
  }

  lemma StepKeeps(w: World, before: Rows, e: Event)
    requires Consistent(w, before)
    ensures Consistent(Step(w, e), before)
  {
    if e.caller < |w.callers| {
      forall g
        ensures CountRows(Step(w, e).rows, |Step(w, e).rows|, g)
                == CountRows(before, |before|, g) + Owners(Step(w, e).callers, |Step(w, e).callers|, g)
      {
        CountsKept(w, CountRows(before, |before|, g), e, g);
      }
      forall i | 0 <= i < |w.callers|
        ensures HoldsItsRow(Step(w, e).rows, Step(w, e).callers[i])
      {
        IdsKept(w, before, e, i);
      }
      IndexKept(w, before, e);
      hide Moved;
    }
  }

  predicate AllStart(callers: seq<Caller>) {
    forall i | 0 <= i < |callers| :: callers[i].phase == Start
  }

  lemma {:induction false} NoOwnersAtStart(callers: seq<Caller>, n: nat, g: Generation)
    requires AllStart(callers) && n <= |callers|
    ensures Owners(callers, n, g) == 0
  {
    if n > 0 {
      NoOwnersAtStart(callers, n - 1, g);
    }
  }

  lemma {:induction false} RunKeeps(w: World, events: seq<Event>, n: nat)
    requires AllStart(w.callers) && UniqueIndex(w.rows) && n <= |events|
    ensures Consistent(After(w, events, n), w.rows)
    ensures SameGenerations(After(w, events, n).callers, w.callers)
  {
    if n == 0 {
      forall g
        ensures Owners(w.callers, |w.callers|, g) == 0
      {
        NoOwnersAtStart(w.callers, |w.callers|, g);
      }
    } else {
      RunKeeps(w, events, n - 1);
      StepKeeps(After(w, events, n - 1), w.rows, events[n - 1]);
    }
  }

  predicate SameGenerations(a: seq<Caller>, b: seq<Caller>) {
    |a| == |b| && forall i | 0 <= i < |a| :: a[i].generation == b[i].generation
  }

  lemma {:induction false} AtMostOnce(rows: Rows, n: nat, g: Generation)
    requires UniqueIndex(rows) && g.Some? && n <= |rows|
    ensures CountRows(rows, n, g) <= 1
    ensures CountRows(rows, n, g) == 1 <==> exists i | 0 <= i < n :: rows[i] == g
  {
    if n > 0 {
      AtMostOnce(rows, n - 1, g);
    }
  }

  /**
   * Whatever the interleaving and whichever calls fail: at most one row per generation, every caller that returned has
   * that row's id, and a generation not stored before has exactly as many owners as rows.
   */
  lemma ExactlyOnce(w: World, events: seq<Event>, g: Generation)
    requires AllStart(w.callers) && UniqueIndex(w.rows) && g.Some?
    ensures var end := After(w, events, |events|);
            && CountRows(end.rows, |end.rows|, g) <= 1
            && (forall i, j | 0 <= i < |end.callers| && 0 <= j < |end.callers|
                  && end.callers[i].generation == g == end.callers[j].generation
                  && end.callers[i].phase.Returned? && end.callers[j].phase.Returned? ::
                    end.callers[i].phase.id == end.callers[j].phase.id)
            && Owners(end.callers, |end.callers|, g)
               == CountRows(end.rows, |end.rows|, g) - CountRows(w.rows, |w.rows|, g)
  {
    RunKeeps(w, events, |events|);
    var end := After(w, events, |events|);
    AtMostOnce(end.rows, |end.rows|, g);
    forall i, j | 0 <= i < |end.callers| && 0 <= j < |end.callers|
      && end.callers[i].generation == g == end.callers[j].generation
      && end.callers[i].phase.Returned? && end.callers[j].phase.Returned?
      ensures end.callers[i].phase.id == end.callers[j].phase.id
    {
      assert HoldsItsRow(end.rows, end.callers[i]) && HoldsItsRow(end.rows, end.callers[j]);
    }
  }

  /** Once some caller of a new generation has returned, one row exists and exactly one caller is not a hit. */
  lemma OneNonHit(w: World, events: seq<Event>, g: Generation, i: nat)
    requires AllStart(w.callers) && UniqueIndex(w.rows) && g.Some?
    requires CountRows(w.rows, |w.rows|, g) == 0
    requires i < |After(w, events, |events|).callers|
    requires After(w, events, |events|).callers[i].generation == g
    requires After(w, events, |events|).callers[i].phase.Returned?
    ensures var end := After(w, events, |events|);
            CountRows(end.rows, |end.rows|, g) == 1 && Owners(end.callers, |end.callers|, g) == 1
  {
    ExactlyOnce(w, events, g);
    RunKeeps(w, events, |events|);
    var end := After(w, events, |events|);
    assert HoldsItsRow(end.rows, end.callers[i]);
    AtMostOnce(end.rows, |end.rows|, g);
  }

  // ----- every caller gets its answer

  function Rank(p: Phase): nat {
    match p
    case Start => 0
    case Absent => 1
    case Conflict => 2
    case Inserted(_) => 2
    case Returned(_, _) => 3
    case Threw => 3
  }

  function OwnMoves(events: seq<Event>, n: nat, i: nat): nat
    requires n <= |events|
  {
    if n == 0 then 0 else OwnMoves(events, n - 1, i) + if events[n - 1].caller == i then 1 else 0
  }

  predicate NoneFails(events: seq<Event>, n: nat, i: nat)
    requires n <= |events|
  {
    forall k | 0 <= k < n && events[k].caller == i :: !events[k].fails
  }

  /** The index that stopped an insert is that of a row, which the second lookup will find. */
  predicate ConflictHasRow(rows: Rows, c: Caller) {
    c.phase == Conflict ==> LookedUp(c.generation) && c.generation in rows
  }

  /** Each move of a caller brings it on, and it has its answer after three. */
  lemma {:induction false} MovesOn(w: World, events: seq<Event>, n: nat, i: nat)
    requires AllStart(w.callers) && i < |w.callers| && n <= |events|
    ensures var c := After(w, events, n).callers;
            && |c| == |w.callers| && c[i].generation == w.callers[i].generation
            && ConflictHasRow(After(w, events, n).rows, c[i])
            && (OwnMoves(events, n, i) <= Rank(c[i].phase) || Rank(c[i].phase) == 3)
  {
    if n > 0 {
      MovesOn(w, events, n - 1, i);
    }
  }

  /** A step in which the caller throws: an access of its own fails, or the insert of an empty id meets a row. */
  predicate Throws(w: World, e: Event, i: nat)
    requires i < |w.callers|
  {
    var c := w.callers[i];
    && e.caller == i
    && match c.phase
       case Start => LookedUp(c.generation) && e.fails
       case Absent => e.fails || (c.generation == Some("") && c.generation in w.rows)
       case Conflict => e.fails
       case _ => false
  }

  predicate ThrowsAt(w: World, events: seq<Event>, k: nat, i: nat)
    requires k < |events|
  {
    i < |After(w, events, k).callers| && Throws(After(w, events, k), events[k], i)
  }

  lemma ThrowStep(w: World, e: Event, i: nat)
    requires i < |w.callers| && ConflictHasRow(w.rows, w.callers[i])
    ensures Step(w, e).callers[i].phase == Threw <==> w.callers[i].phase == Threw || Throws(w, e, i)
  {
  }

  /**
   * A caller throws exactly by these steps. In particular a looked-up id never makes it throw, whoever inserts it
   * first: the lookup after a conflict always finds the row.
   */
  lemma {:induction false} ThrowsIff(w: World, events: seq<Event>, n: nat, i: nat)
    requires AllStart(w.callers) && i < |w.callers| && n <= |events|
    ensures |After(w, events, n).callers| == |w.callers|
    ensures After(w, events, n).callers[i].phase == Threw <==> exists k | 0 <= k < n :: ThrowsAt(w, events, k, i)
  {
    hide Step;
    hide Throws;
    MovesOn(w, events, n, i);
    if n > 0 {
      ThrowsIff(w, events, n - 1, i);
      MovesOn(w, events, n - 1, i);
      ThrowStep(After(w, events, n - 1), events[n - 1], i);
      assert ThrowsAt(w, events, n - 1, i) <==> Throws(After(w, events, n - 1), events[n - 1], i);
    }
  }

  /**
   * A caller with an id to look up, none of whose own accesses fails, returns within three moves, whatever the others
   * do and wherever they fail.
   */
  lemma CallerReturns(w: World, events: seq<Event>, n: nat, i: nat)
    requires AllStart(w.callers) && i < |w.callers| && n <= |events|
    requires LookedUp(w.callers[i].generation) && NoneFails(events, n, i)
    ensures var c := After(w, events, n).callers;
            |c| == |w.callers| && c[i].phase != Threw && (OwnMoves(events, n, i) >= 3 ==> c[i].phase.Returned?)
  {
    MovesOn(w, events, n, i);
    ThrowsIff(w, events, n, i);
    forall k | 0 <= k < n
      ensures !ThrowsAt(w, events, k, i)
    {
      MovesOn(w, events, k, i);
    }
  }

  /** A caller whose row is there already returns it by its first access, as a hit, and inserts nothing. */
  lemma KnownReturnsAtOnce(w: World, i: nat)
    requires i < |w.callers| && w.callers[i].phase == Start
    requires LookedUp(w.callers[i].generation) && w.callers[i].generation in w.rows
    ensures var after := Step(w, Event(i, false));
            && after.rows == w.rows && after.callers[i].phase.Returned? && after.callers[i].phase.hit
            && w.rows[after.callers[i].phase.id] == w.callers[i].generation
  {
  }

  /** The caller has had its turns and none of its own accesses failed. */
  predicate Served(events: seq<Event>, i: nat) {
    NoneFails(events, |events|, i) && OwnMoves(events, |events|, i) >= 3
  }

  /**
   * One caller of a generation is enough: it returns, and then there is exactly one row, whose id every caller of the
   * generation that had its turns has returned. Exactly one caller made the row if it was not there before, and none
   * if it was.
   */
  lemma ServedExactlyOnce(w: World, events: seq<Event>, g: Generation, i: nat)
    requires AllStart(w.callers) && UniqueIndex(w.rows) && LookedUp(g)
    requires i < |w.callers| && w.callers[i].generation == g && Served(events, i)
    ensures var end := After(w, events, |events|);
            && |end.callers| == |w.callers| && CountRows(end.rows, |end.rows|, g) == 1
            && Owners(end.callers, |end.callers|, g) == (if g in w.rows then 0 else 1)
            && exists id: nat | id < |end.rows| && end.rows[id] == g ::
                 forall j | 0 <= j < |end.callers| && end.callers[j].generation == g && Served(events, j) ::
                   end.callers[j].phase.Returned? && end.callers[j].phase.id == id
  {
    var end := After(w, events, |events|);
    CallerReturns(w, events, |events|, i);
    RunKeeps(w, events, |events|);
    ExactlyOnce(w, events, g);
    AtMostOnce(w.rows, |w.rows|, g);
    AtMostOnce(end.rows, |end.rows|, g);
    assert HoldsItsRow(end.rows, end.callers[i]);
    var id := end.callers[i].phase.id;
    forall j | 0 <= j < |end.callers| && end.callers[j].generation == g && Served(events, j)
      ensures end.callers[j].phase.Returned? && end.callers[j].phase.id == id
    {
      CallerReturns(w, events, |events|, j);
    }
  }

  /** An empty id never gets a caller a hit, and makes it throw only over a row. */
  lemma {:induction false} EmptyId(w: World, events: seq<Event>, n: nat, i: nat)
    requires AllStart(w.callers) && i < |w.callers| && n <= |events|
    requires w.callers[i].generation == Some("") && NoneFails(events, n, i)
    ensures var end := After(w, events, n);
            && |end.callers| == |w.callers| && end.callers[i].phase != Conflict
            && (end.callers[i].phase.Returned? ==> !end.callers[i].phase.hit)
            && (end.callers[i].phase == Threw ==> Some("") in end.rows)
  {
    if n > 0 {
      MovesOn(w, events, n - 1, i);
      EmptyId(w, events, n - 1, i);
    }
  }

  /**
   * An empty id is inserted without a lookup, so a caller whose insert finds it in the table throws: of those that had
   * their turns without a failing access, all do but the one that made the row.
   */
  lemma EmptyIdThrowsIff(w: World, events: seq<Event>, i: nat)
    requires AllStart(w.callers) && UniqueIndex(w.rows)
    requires i < |w.callers| && w.callers[i].generation == Some("") && Served(events, i)
    ensures var end := After(w, events, |events|);
            && |end.callers| == |w.callers| && CountRows(end.rows, |end.rows|, Some("")) == 1
            && Owners(end.callers, |end.callers|, Some("")) == (if Some("") in w.rows then 0 else 1)
            && (end.callers[i].phase == Threw <==> !Owns(end.callers[i], Some("")))
  {
    var (n, g) := (|events|, Some(""));
    var end := After(w, events, n);
    EmptyId(w, events, n, i);
    MovesOn(w, events, n, i);
    RunKeeps(w, events, n);
    ExactlyOnce(w, events, g);
    AtMostOnce(w.rows, |w.rows|, g);
    AtMostOnce(end.rows, |end.rows|, g);
    assert HoldsItsRow(end.rows, end.callers[i]);
  }
}
