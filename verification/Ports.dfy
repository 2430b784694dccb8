/** The port table of a server (src/lib/serverPorts.ts). */
module Ports {
  import opened Wrappers

  type Key = (int, string, string)  // port, protocol, interface

  datatype ObservedPort = ObservedPort(
    key: Key, processName: Option<string>, containerName: Option<string>, serviceName: Option<string>,
    viaDocker: bool, isPublic: bool)

  /** A name that is neither missing nor empty. */
  predicate Named(name: Option<string>) {
    name.Some? && name.value != ""
  }

  // ----- dedupe: a Map keeps its keys in the order of their first insertion

  predicate DistinctKeys(rows: seq<ObservedPort>) {
    forall i, j | 0 <= i < j < |rows| :: rows[i].key != rows[j].key
  }

  function IndexOf(rows: seq<ObservedPort>, key: Key, n: nat): (i: nat)
    requires n <= |rows|
    ensures i <= n && (i < n ==> rows[i].key == key) && forall j | 0 <= j < i :: rows[j].key != key
  {
    if n == 0 then 0
    else
      var i := IndexOf(rows, key, n - 1);
      if i < n - 1 then i else if rows[n - 1].key == key then n - 1 else n
  }

  function Merge(prev: ObservedPort, p: ObservedPort): ObservedPort {
    if !Named(prev.processName) && Named(p.processName) then p
    else if !Named(prev.containerName) && Named(p.containerName) then
      prev.(containerName := p.containerName, serviceName := p.serviceName)
    else prev
  }

  function Put(rows: seq<ObservedPort>, p: ObservedPort): seq<ObservedPort> {
    var i := IndexOf(rows, p.key, |rows|);
    if i == |rows| then rows + [p] else rows[i := Merge(rows[i], p)]
  }

  function Deduped(ports: seq<ObservedPort>, n: nat): seq<ObservedPort>
    requires n <= |ports|
  {
    if n == 0 then [] else Put(Deduped(ports, n - 1), ports[n - 1])
  }

  /** The keys of the first `n` observations. */
  function KeysOf(ports: seq<ObservedPort>, n: nat): set<Key>
    requires n <= |ports|
  {
    if n == 0 then {} else KeysOf(ports, n - 1) + {ports[n - 1].key}
  }

  method Dedupe(ports: seq<ObservedPort>) returns (rows: seq<ObservedPort>)
    ensures rows == Deduped(ports, |ports|)
    ensures DistinctKeys(rows) && KeysOf(rows, |rows|) == KeysOf(ports, |ports|)
    ensures forall i | 0 <= i < |rows| :: ShownName(rows[i].processName) == FirstName(ports, |ports|, rows[i].key)
  {
    rows := [];
    for n := 0 to |ports|
      invariant rows == Deduped(ports, n)
    {
      rows := Put(rows, ports[n]);
    }
    DedupeKeys(ports, |ports|);
    DedupeNames(ports, |ports|);
  }

  /** A name counts when it is there and not empty. */
  lemma NamedIff(name: Option<string>)
    ensures Named(name) <==> name != None && name != Some("")
    ensures ShownName(name) == if name == None || name == Some("") then None else name
  {
  }

  /**
   * Of two observations of one port the first is kept, unless only the second has a process name; and it takes over the
   * container and service names of the second if it has no container name itself.
   */
  lemma Merged(prev: ObservedPort, p: ObservedPort)
    ensures var r := Merge(prev, p);
            if !Named(prev.processName) && Named(p.processName) then r == p
            else
              && r.processName == prev.processName && r.key == prev.key
              && r.viaDocker == prev.viaDocker && r.isPublic == prev.isPublic
              && (if !Named(prev.containerName) && Named(p.containerName) then
                    r.containerName == p.containerName && r.serviceName == p.serviceName
                  else r.containerName == prev.containerName && r.serviceName == prev.serviceName)
  {
  }

  function ShownName(name: Option<string>): Option<string> {
    if Named(name) then name else None
  }

  /** The first non-empty process name given for the key among the first `n` observations. */
  function FirstName(ports: seq<ObservedPort>, n: nat, key: Key): Option<string>
    requires n <= |ports|
  {
    if n == 0 then None
    else
      var before := FirstName(ports, n - 1, key);
      if before.Some? || ports[n - 1].key != key then before else ShownName(ports[n - 1].processName)
  }

  lemma {:induction false} KeysOfUpdate(rows: seq<ObservedPort>, n: nat, i: nat, r: ObservedPort)
    requires n <= |rows| && i < |rows| && r.key == rows[i].key
    ensures KeysOf(rows[i := r], n) == KeysOf(rows, n)
  {
    if n > 0 {
      KeysOfUpdate(rows, n - 1, i, r);
    }
  }

  lemma {:induction false} KeysOfPrefix(rows: seq<ObservedPort>, p: ObservedPort, n: nat)
    requires n <= |rows|
    ensures KeysOf(rows + [p], n) == KeysOf(rows, n)
  {
    if n > 0 {
      KeysOfPrefix(rows, p, n - 1);
    }
  }

  lemma {:induction false} KeysOfIff(rows: seq<ObservedPort>, n: nat, key: Key)
    requires n <= |rows|
    ensures key in KeysOf(rows, n) <==> IndexOf(rows, key, n) < n
  {
    if n > 0 {
      KeysOfIff(rows, n - 1, key);
    }
  }

  lemma PutKeys(rows: seq<ObservedPort>, p: ObservedPort)
    requires DistinctKeys(rows)
    ensures var after := Put(rows, p);
            DistinctKeys(after) && KeysOf(after, |after|) == KeysOf(rows, |rows|) + {p.key}
  {
    var i := IndexOf(rows, p.key, |rows|);
    KeysOfIff(rows, |rows|, p.key);
    if i == |rows| {
      KeysOfPrefix(rows, p, |rows|);
    } else {
      KeysOfUpdate(rows, |rows|, i, Merge(rows[i], p));
    }
  }

  /** No key appears twice, none is lost and none is made up. */
  lemma {:induction false} DedupeKeys(ports: seq<ObservedPort>, n: nat)
    requires n <= |ports|
    ensures var rows := Deduped(ports, n); DistinctKeys(rows) && KeysOf(rows, |rows|) == KeysOf(ports, n)
  {
    if n > 0 {
      DedupeKeys(ports, n - 1);
      PutKeys(Deduped(ports, n - 1), ports[n - 1]);
    }
  }

  lemma {:induction false} NoKeyNoName(ports: seq<ObservedPort>, n: nat, key: Key)
    requires n <= |ports| && key !in KeysOf(ports, n)
    ensures FirstName(ports, n, key) == None
  {
    if n > 0 {
      NoKeyNoName(ports, n - 1, key);
    }
  }

  /** Each row shows the first process name given for its key. */
  lemma {:induction false} DedupeNames(ports: seq<ObservedPort>, n: nat)
    requires n <= |ports|
    ensures var rows := Deduped(ports, n);
            forall i | 0 <= i < |rows| :: ShownName(rows[i].processName) == FirstName(ports, n, rows[i].key)
  {
    if n > 0 {
      DedupeNames(ports, n - 1);
      DedupeKeys(ports, n - 1);
      var (before, p) := (Deduped(ports, n - 1), ports[n - 1]);
      var i := IndexOf(before, p.key, |before|);
      KeysOfIff(before, |before|, p.key);
      if i == |before| {
        NoKeyNoName(ports, n - 1, p.key);
      }
    }
  }

  /** Nothing changes when the keys are distinct already. */
  lemma {:induction false} DedupeIdentity(ports: seq<ObservedPort>, n: nat)
    requires n <= |ports| && DistinctKeys(ports)
    ensures Deduped(ports, n) == ports[..n]
  {
    if n > 0 {
      DedupeIdentity(ports, n - 1);
      var before := ports[..n - 1];
      assert forall j | 0 <= j < n - 1 :: before[j].key != ports[n - 1].key;
      assert ports[..n] == before + [ports[n - 1]];
    }
  }

  // ----- attachDocker

  datatype Container = Container(name: string, service: string, published: seq<(int, string)>)

  function Publish(byPort: map<(int, string), Container>, c: Container, n: nat): map<(int, string), Container>
    requires n <= |c.published|
  {
    if n == 0 then byPort else Publish(byPort, c, n - 1)[c.published[n - 1] := c]
  }

  /** `byPort` after the first `n` containers: a later container overrides an earlier one. */
  function ByPort(containers: seq<Container>, n: nat): map<(int, string), Container>
    requires n <= |containers|
  {
    if n == 0 then map[]
    else Publish(ByPort(containers, n - 1), containers[n - 1], |containers[n - 1].published|)
  }

  function Attach(o: ObservedPort, byPort: map<(int, string), Container>): ObservedPort {
    var at := (o.key.0, o.key.1);
    if at !in byPort then o
    else
      o.(containerName := Some(byPort[at].name),
         serviceName := if o.serviceName.Some? then o.serviceName else Some(byPort[at].service),
         viaDocker := true)
  }

  /** The container publishes the port and protocol. */
  predicate Publishes(c: Container, at: (int, string)) {
    at in c.published
  }

  lemma {:induction false} PublishAt(byPort: map<(int, string), Container>, c: Container, n: nat, at: (int, string))
    requires n <= |c.published|
    ensures at in Publish(byPort, c, n) <==> at in byPort || at in c.published[..n]
    ensures at in Publish(byPort, c, n) ==>
              Publish(byPort, c, n)[at] == if at in c.published[..n] then c else byPort[at]
  {
    if n > 0 {
      PublishAt(byPort, c, n - 1, at);
      assert c.published[..n] == c.published[..n - 1] + [c.published[n - 1]];
    }
  }

  /** A port belongs to the last container that publishes it. */
  lemma {:induction false} ByPortAt(containers: seq<Container>, n: nat, i: nat, at: (int, string))
    requires i < n <= |containers| && Publishes(containers[i], at)
    requires forall j | i < j < n :: !Publishes(containers[j], at)
    ensures at in ByPort(containers, n) && ByPort(containers, n)[at] == containers[i]
  {
    var c := containers[n - 1];
    PublishAt(ByPort(containers, n - 1), c, |c.published|, at);
    assert c.published[..|c.published|] == c.published;
    if i < n - 1 {
      ByPortAt(containers, n - 1, i, at);
    }
  }

  lemma {:induction false} ByPortNone(containers: seq<Container>, n: nat, at: (int, string))
    requires n <= |containers| && forall j | 0 <= j < n :: !Publishes(containers[j], at)
    ensures at !in ByPort(containers, n)
  {
    if n > 0 {
      var c := containers[n - 1];
      ByPortNone(containers, n - 1, at);
      PublishAt(ByPort(containers, n - 1), c, |c.published|, at);
      assert c.published[..|c.published|] == c.published;
    }
  }

  /**
   * An observed port gets the name of the last container that publishes its port and protocol, and that container's
   * service unless it has one already; nothing else about it changes. Other ports stay as they are.
   */
  lemma AttachedOwner(observed: seq<ObservedPort>, containers: seq<Container>, k: nat, i: nat)
    requires k < |observed| && i <= |containers|
    requires var at := (observed[k].key.0, observed[k].key.1);
             && (i < |containers| ==> Publishes(containers[i], at))
             && forall j | 0 <= j < |containers| && (j > i || i == |containers|) :: !Publishes(containers[j], at)
    ensures var (o, r) := (observed[k], AttachDocker(observed, Some(containers))[k]);
            if i == |containers| then r == o
            else
              && r.containerName == Some(containers[i].name) && r.viaDocker
              && r.serviceName == (if o.serviceName.Some? then o.serviceName else Some(containers[i].service))
              && r.key == o.key && r.processName == o.processName && r.isPublic == o.isPublic
  {
    var at := (observed[k].key.0, observed[k].key.1);
    if i == |containers| {
      ByPortNone(containers, |containers|, at);
    } else {
      ByPortAt(containers, |containers|, i, at);
    }
  }

  /** `None` when Docker cannot be reached on the target. */
  function AttachDocker(observed: seq<ObservedPort>, containers: Option<seq<Container>>): (r: seq<ObservedPort>)
    ensures |r| == |observed| && forall i | 0 <= i < |r| :: r[i].key == observed[i].key
  {
    if containers.None? then observed
    else
      var byPort := ByPort(containers.value, |containers.value|);
      seq(|observed|, i requires 0 <= i < |observed| => Attach(observed[i], byPort))
  }

  /** The second `dedupe` of `scanPorts` never changes anything. */
  lemma SecondDedupeIsIdentity(ports: seq<ObservedPort>, containers: Option<seq<Container>>)
    ensures var attached := AttachDocker(Deduped(ports, |ports|), containers);
            Deduped(attached, |attached|) == attached
  {
    DedupeKeys(ports, |ports|);
    var attached := AttachDocker(Deduped(ports, |ports|), containers);
    DedupeIdentity(attached, |attached|);
    assert attached[..|attached|] == attached;
  }

  // ----- the allocation table

  datatype RowKey = RowKey(serverId: string, hostName: string, key: Key)

  datatype Status = Active | Stale

  datatype Row = Row(seen: ObservedPort, status: Status, firstSeen: int, lastSeen: int)

  type Rows = map<RowKey, Row>

  predicate Has(observed: seq<ObservedPort>, n: nat, key: Key)
    requires n <= |observed|
  {
    exists i | 0 <= i < n :: observed[i].key == key
  }

  /** The last observation of a key wins: every one of them is upserted. */
  function LastOf(observed: seq<ObservedPort>, n: nat, key: Key): ObservedPort
    requires n <= |observed| && Has(observed, n, key)
  {
    if observed[n - 1].key == key then observed[n - 1] else LastOf(observed, n - 1, key)
  }

  function Upsert(rows: Rows, rowKey: RowKey, o: ObservedPort, now: int): Rows {
    rows[rowKey := Row(o, Active, if rowKey in rows then rows[rowKey].firstSeen else now, now)]
  }

  predicate OfHost(k: RowKey, serverId: string, hostName: string) {
    k.serverId == serverId && k.hostName == hostName
  }

  /** What one scan makes of one row. */
  ghost predicate RowAfter(before: Rows, after: Rows, k: RowKey, serverId: string, hostName: string,
                           observed: seq<ObservedPort>, n: nat, now: int, swept: bool)
    requires n <= |observed|
  {
    if OfHost(k, serverId, hostName) && Has(observed, n, k.key) then
      && k in after
      && after[k] == Row(LastOf(observed, n, k.key), Active, if k in before then before[k].firstSeen else now, now)
    else
      && (k in after <==> k in before)
      && (k in after ==>
            after[k] == if swept && OfHost(k, serverId, hostName) then before[k].(status := Stale) else before[k])
  }

  ghost predicate ScanResult(before: Rows, after: Rows, serverId: string, hostName: string,
                             observed: seq<ObservedPort>, now: int)
  {
    forall k :: RowAfter(before, after, k, serverId, hostName, observed, |observed|, now, true)
  }

  /** Active rows of the server and host whose key was not observed. */
  function GoneStale(rows: Rows, serverId: string, hostName: string, observed: seq<ObservedPort>): set<RowKey> {
    set k | k in rows && OfHost(k, serverId, hostName) && rows[k].status == Active && !Has(observed, |observed|, k.key)
  }

  class PortTable {
    var rows: Rows

    constructor ()
      ensures rows == map[]
    {
      rows := map[];
    }

    /** Upsert what was observed; of the same server and host, whatever else was active is stale now. */
    method Reconcile(serverId: string, hostName: string, observed: seq<ObservedPort>, now: int)
      returns (upserted: nat, markedStale: nat)
      modifies this
      ensures ScanResult(old(rows), rows, serverId, hostName, observed, now)
      ensures upserted == |observed| && markedStale == |GoneStale(old(rows), serverId, hostName, observed)|
    {
      upserted := 0;
      ghost var before := rows;
      for n := 0 to |observed|
        invariant upserted == n
        invariant forall k :: RowAfter(before, rows, k, serverId, hostName, observed, n, now, false)
      {
        var rowKey := RowKey(serverId, hostName, observed[n].key);
        ghost var was, m := rows, n + 1;
        rows := Upsert(rows, rowKey, observed[n], now);
        forall k
          ensures RowAfter(before, rows, k, serverId, hostName, observed, m, now, false)
        {
          UpsertStep(before, was, k, serverId, hostName, observed, n, now);
        }
        upserted := upserted + 1;
      }
      var seenKeys := set o | o in observed :: o.key;
      ghost var was := rows;
      forall k
        ensures RowAfter(before, was, k, serverId, hostName, observed, |observed|, now, false)
        ensures k.key in seenKeys <==> Has(observed, |observed|, k.key)
      {
        SeenIff(observed, k.key);
      }
      var stale := set k | k in rows && OfHost(k, serverId, hostName) && rows[k].status == Active && k.key !in seenKeys;
      assert stale == GoneStale(before, serverId, hostName, observed);
      markedStale := |stale|;
      rows := map k | k in rows :: if k in stale then rows[k].(status := Stale) else rows[k];
      forall k
        ensures RowAfter(before, rows, k, serverId, hostName, observed, |observed|, now, true)
      {
        assert RowAfter(before, was, k, serverId, hostName, observed, |observed|, now, false);
      }
    }

    /** The lowest port of the range that no allocation of the server holds, active or stale. */
    method NextFreePort(serverId: string, rangeStart: int, rangeEnd: int) returns (port: Option<int>)
      ensures port.Some? ==> rangeStart <= port.value <= rangeEnd && port.value !in Taken(rows, serverId)
      ensures port.Some? ==> forall p | rangeStart <= p < port.value :: p in Taken(rows, serverId)
      ensures port.None? ==> forall p | rangeStart <= p <= rangeEnd :: p in Taken(rows, serverId)
    {
      var taken := Taken(rows, serverId);
      var p := rangeStart;
      while p <= rangeEnd
        invariant forall q | rangeStart <= q < p :: q in taken
      {
        if p !in taken { return Some(p); }
        p := p + 1;
      }
      return None;
    }
  }

  function Taken(rows: Rows, serverId: string): set<int> {
    set k | k in rows && k.serverId == serverId :: k.key.0
  }

  lemma SeenIff(observed: seq<ObservedPort>, key: Key)
    ensures key in (set o | o in observed :: o.key) <==> Has(observed, |observed|, key)
  {
    if key in (set o | o in observed :: o.key) {
      var o :| o in observed && o.key == key;
    }
  }

  lemma UpsertStep(before: Rows, was: Rows, k: RowKey, serverId: string, hostName: string,
                   observed: seq<ObservedPort>, n: nat, now: int)
    requires n < |observed|
    requires RowAfter(before, was, k, serverId, hostName, observed, n, now, false)
    ensures var rows := Upsert(was, RowKey(serverId, hostName, observed[n].key), observed[n], now);
            RowAfter(before, rows, k, serverId, hostName, observed, n + 1, now, false)
  {
    if OfHost(k, serverId, hostName) {
      assert k == RowKey(serverId, hostName, k.key);
      if observed[n].key != k.key && Has(observed, n + 1, k.key) {
        var i :| 0 <= i < n + 1 && observed[i].key == k.key;
        assert i < n;
      }
    }
  }

  // ----- the table after a whole history of scans, of any servers and hosts

  datatype Scan = Scan(serverId: string, hostName: string, time: int, observed: seq<ObservedPort>)

  predicate OfScan(k: RowKey, scan: Scan) {
    OfHost(k, scan.serverId, scan.hostName)
  }

  predicate Saw(scan: Scan, k: RowKey) {
    OfScan(k, scan) && Has(scan.observed, |scan.observed|, k.key)
  }

  /** The tables met along a run of scans that starts with an empty table. */
  ghost predicate IsRun(tables: seq<Rows>, scans: seq<Scan>) {
    && |tables| == |scans| + 1 && tables[0] == map[]
    && forall n | 0 <= n < |scans| ::
         ScanResult(tables[n], tables[n + 1], scans[n].serverId, scans[n].hostName, scans[n].observed, scans[n].time)
  }

  predicate EverSaw(scans: seq<Scan>, n: nat, k: RowKey)
    requires n <= |scans|
  {
    exists i | 0 <= i < n :: Saw(scans[i], k)
  }

  function FirstTime(scans: seq<Scan>, n: nat, k: RowKey): int
    requires n <= |scans| && EverSaw(scans, n, k)
  {
    if EverSaw(scans, n - 1, k) then FirstTime(scans, n - 1, k) else scans[n - 1].time
  }

  function LastTime(scans: seq<Scan>, n: nat, k: RowKey): int
    requires n <= |scans| && EverSaw(scans, n, k)
  {
    if Saw(scans[n - 1], k) then scans[n - 1].time else LastTime(scans, n - 1, k)
  }

  /** The latest scan of the row's own server and host saw it. */
  predicate SeenLast(scans: seq<Scan>, n: nat, k: RowKey)
    requires n <= |scans|
  {
    n > 0 && if OfScan(k, scans[n - 1]) then Saw(scans[n - 1], k) else SeenLast(scans, n - 1, k)
  }

  /**
   * The whole history decides the table: a row exists exactly when it was ever seen, with the first and the last time
   * it was seen, active exactly when the latest scan of its server and host saw it, whatever other hosts were
   * scanned.
   */
  lemma {:induction false} HistoryDecides(tables: seq<Rows>, scans: seq<Scan>, n: nat, k: RowKey)
    requires IsRun(tables, scans) && n <= |scans|
    ensures k in tables[n] <==> EverSaw(scans, n, k)
    ensures k in tables[n] ==>
              && tables[n][k].firstSeen == FirstTime(scans, n, k)
              && tables[n][k].lastSeen == LastTime(scans, n, k)
              && (tables[n][k].status == Active <==> SeenLast(scans, n, k))
  {
    if n > 0 {
      HistoryDecides(tables, scans, n - 1, k);
      var scan := scans[n - 1];
      assert ScanResult(tables[n - 1], tables[n], scan.serverId, scan.hostName, scan.observed, scan.time);
      assert RowAfter(tables[n - 1], tables[n], k, scan.serverId, scan.hostName,
                      scan.observed, |scan.observed|, scan.time, true);
      assert EverSaw(scans, n, k) <==> EverSaw(scans, n - 1, k) || Saw(scan, k);
    }
  }

  /** The scan found the port on the server, on whatever interface and by whatever protocol. */
  predicate SawPort(scan: Scan, serverId: string, port: int) {
    scan.serverId == serverId && exists i | 0 <= i < |scan.observed| :: scan.observed[i].key.0 == port
  }

  /** The ports that are taken are those ever observed on any host of the server. */
  lemma TakenIsEverSeen(tables: seq<Rows>, scans: seq<Scan>, n: nat, serverId: string, port: int)
    requires IsRun(tables, scans) && n <= |scans|
    ensures port in Taken(tables[n], serverId) <==> exists i | 0 <= i < n :: SawPort(scans[i], serverId, port)
  {
    if port in Taken(tables[n], serverId) {
      var k :| k in tables[n] && k.serverId == serverId && k.key.0 == port;
      HistoryDecides(tables, scans, n, k);
      var i :| 0 <= i < n && Saw(scans[i], k);
      assert SawPort(scans[i], serverId, port);
    }
    if i :| 0 <= i < n && SawPort(scans[i], serverId, port) {
      var j :| 0 <= j < |scans[i].observed| && scans[i].observed[j].key.0 == port;
      var k := RowKey(serverId, scans[i].hostName, scans[i].observed[j].key);
      assert Saw(scans[i], k);
      HistoryDecides(tables, scans, n, k);
    }
  }

  /** What `NextFreePort` offers for a range that starts here. */
  predicate LeastFree(rows: Rows, serverId: string, start: int, p: int) {
    start <= p && p !in Taken(rows, serverId) && forall q | start <= q < p :: q in Taken(rows, serverId)
  }

  /** Over any number of scans of any hosts, the port offered for a fixed range never goes down. */
  lemma NextFreeNeverDecreases(tables: seq<Rows>, scans: seq<Scan>, m: nat, n: nat, serverId: string, start: int,
                               before: int, after: int)
    requires IsRun(tables, scans) && m <= n <= |scans|
    requires LeastFree(tables[m], serverId, start, before) && LeastFree(tables[n], serverId, start, after)
    ensures before <= after
  {
    if after < before {
      TakenIsEverSeen(tables, scans, m, serverId, after);
      TakenIsEverSeen(tables, scans, n, serverId, after);
    }
  }

  // ----- conflicts

  function Owner(o: ObservedPort): string {
    if Named(o.containerName) then o.containerName.value
    else if Named(o.serviceName) then o.serviceName.value
    else if Named(o.processName) then o.processName.value
    else "unknown(" + o.key.2 + ")"
  }

  /** The owner of a row is its container, else its service, else its process, else unknown on its interface. */
  lemma OwnerOf(o: ObservedPort)
    ensures Named(o.containerName) ==> Some(Owner(o)) == o.containerName
    ensures !Named(o.containerName) && Named(o.serviceName) ==> Some(Owner(o)) == o.serviceName
    ensures !Named(o.containerName) && !Named(o.serviceName) && Named(o.processName) ==> Some(Owner(o)) == o.processName
    ensures !Named(o.containerName) && !Named(o.serviceName) && !Named(o.processName) ==>
              Owner(o) == "unknown(" + o.key.2 + ")"
  {
  }

  /** Port and protocol. */
  type Slot = (int, string)

  function SlotOf(o: ObservedPort): Slot {
    (o.key.0, o.key.1)
  }

  /** The rows of one port and protocol among the first `n`. */
  function GroupOf(rows: seq<ObservedPort>, n: nat, slot: Slot): seq<ObservedPort>
    requires n <= |rows|
  {
    if n == 0 then []
    else GroupOf(rows, n - 1, slot) + if SlotOf(rows[n - 1]) == slot then [rows[n - 1]] else []
  }

  /** The test that decides whether a group is reported. */
  predicate Reported(group: seq<ObservedPort>) {
    var owners := set o | o in group :: Owner(o);
    |owners| > 1 || |group| > 1
  }

  lemma ReportedIff(group: seq<ObservedPort>)
    ensures Reported(group) <==> |group| > 1
  {
    var owners := set o | o in group :: Owner(o);
    if |group| == 1 {
      assert owners == {Owner(group[0])};
    } else if group == [] {
      assert owners == {};
    }
  }

  predicate DistinctSlots(slots: seq<Slot>) {
    forall i, j | 0 <= i < j < |slots| :: slots[i] != slots[j]
  }

  function Get(byPort: map<Slot, seq<ObservedPort>>, slot: Slot): seq<ObservedPort> {
    if slot in byPort then byPort[slot] else []
  }

  /** The map holds the groups of the first `n` rows. */
  ghost predicate Groups(byPort: map<Slot, seq<ObservedPort>>, rows: seq<ObservedPort>, n: nat)
    requires n <= |rows|
  {
    forall slot :: Get(byPort, slot) == GroupOf(rows, n, slot)
  }

  /** The keys of the map, each once. */
  predicate InOrder(byPort: map<Slot, seq<ObservedPort>>, order: seq<Slot>) {
    && DistinctSlots(order)
    && (forall slot | slot in byPort :: slot in order)
    && forall slot | slot in order :: slot in byPort
  }

  lemma GroupsStep(byPort: map<Slot, seq<ObservedPort>>, rows: seq<ObservedPort>, n: nat)
    requires n < |rows| && Groups(byPort, rows, n)
    ensures var slot := SlotOf(rows[n]); Groups(byPort[slot := Get(byPort, slot) + [rows[n]]], rows, n + 1)
  {
    var slot := SlotOf(rows[n]);
    var after := byPort[slot := Get(byPort, slot) + [rows[n]]];
    forall other
      ensures Get(after, other) == GroupOf(rows, n + 1, other)
    {
      assert Get(byPort, other) == GroupOf(rows, n, other);
      assert GroupOf(rows, n + 1, other) == GroupOf(rows, n, other) + if other == slot then [rows[n]] else [];
    }
  }

  lemma OrderStep(byPort: map<Slot, seq<ObservedPort>>, order: seq<Slot>, slot: Slot, group: seq<ObservedPort>)
    requires InOrder(byPort, order)
    ensures InOrder(byPort[slot := group], if slot in byPort then order else order + [slot])
  {
  }

  /** The Map of groups, whose keys are in the order of their first rows. */
  method GroupBySlot(rows: seq<ObservedPort>) returns (byPort: map<Slot, seq<ObservedPort>>, order: seq<Slot>)
    ensures InOrder(byPort, order) && Groups(byPort, rows, |rows|)
  {
    byPort, order := map[], [];
    for n := 0 to |rows|
      invariant InOrder(byPort, order) && Groups(byPort, rows, n)
    {
      hide InOrder;
      hide Groups;
      var slot := SlotOf(rows[n]);
      var group := Get(byPort, slot) + [rows[n]];
      GroupsStep(byPort, rows, n);
      OrderStep(byPort, order, slot, group);
      if slot !in byPort { order := order + [slot]; }
      byPort := byPort[slot := group];
    }
  }

  /** The conflicts are those among the slots, with their rows. */
  ghost predicate ConflictsOf(rows: seq<ObservedPort>, among: seq<Slot>, slots: seq<Slot>,
                              claimants: seq<seq<ObservedPort>>)
  {
    && |slots| == |claimants| && DistinctSlots(slots)
    && (forall slot :: slot in slots <==> slot in among && |GroupOf(rows, |rows|, slot)| > 1)
    && forall i | 0 <= i < |slots| :: claimants[i] == GroupOf(rows, |rows|, slots[i])
  }

  lemma ConflictsStep(rows: seq<ObservedPort>, among: seq<Slot>, slots: seq<Slot>, claimants: seq<seq<ObservedPort>>,
                      slot: Slot)
    requires ConflictsOf(rows, among, slots, claimants) && slot !in among
    ensures var group := GroupOf(rows, |rows|, slot);
            if |group| > 1 then ConflictsOf(rows, among + [slot], slots + [slot], claimants + [group])
            else ConflictsOf(rows, among + [slot], slots, claimants)
  {
  }

  /** `detectConflicts` on the rows of a server: one conflict for each port and protocol that has at least two rows. */
  method DetectConflicts(rows: seq<ObservedPort>) returns (slots: seq<Slot>, claimants: seq<seq<ObservedPort>>)
    ensures |slots| == |claimants| && DistinctSlots(slots)
    ensures forall slot :: slot in slots <==> |GroupOf(rows, |rows|, slot)| > 1
    ensures forall i | 0 <= i < |slots| :: claimants[i] == GroupOf(rows, |rows|, slots[i])
  {
    var byPort, order := GroupBySlot(rows);
    slots, claimants := [], [];
    for n := 0 to |order|
      invariant ConflictsOf(rows, order[..n], slots, claimants)
    {
      hide ConflictsOf;
      hide Groups;
      hide InOrder;
      hide GroupOf;
      hide Reported;
      NextSlot(rows, byPort, order, n);
      var group := byPort[order[n]];
      ReportedIff(group);
      ConflictsStep(rows, order[..n], slots, claimants, order[n]);
      assert order[..n + 1] == order[..n] + [order[n]];
      if Reported(group) { slots, claimants := slots + [order[n]], claimants + [group]; }
    }
    AllSlots(rows, byPort, order, slots, claimants);
  }

  lemma NextSlot(rows: seq<ObservedPort>, byPort: map<Slot, seq<ObservedPort>>, order: seq<Slot>, n: nat)
    requires InOrder(byPort, order) && Groups(byPort, rows, |rows|) && n < |order|
    ensures order[n] in byPort && byPort[order[n]] == GroupOf(rows, |rows|, order[n]) && order[n] !in order[..n]
  {
    assert Get(byPort, order[n]) == GroupOf(rows, |rows|, order[n]);
  }

  lemma AllSlots(rows: seq<ObservedPort>, byPort: map<Slot, seq<ObservedPort>>, order: seq<Slot>, slots: seq<Slot>,
                 claimants: seq<seq<ObservedPort>>)
    requires InOrder(byPort, order) && Groups(byPort, rows, |rows|)
    requires ConflictsOf(rows, order[..|order|], slots, claimants)
    ensures forall slot :: slot in slots <==> |GroupOf(rows, |rows|, slot)| > 1
  {
    assert order[..|order|] == order;
    forall slot
      ensures slot in slots <==> |GroupOf(rows, |rows|, slot)| > 1
    {
      assert Get(byPort, slot) == GroupOf(rows, |rows|, slot);
    }
  }

  /** One service on two interfaces is reported as a conflict with itself. */
  lemma SameOwnerReported(a: ObservedPort, b: ObservedPort)
    requires SlotOf(a) == SlotOf(b) && a.key.2 != b.key.2 && Owner(a) == Owner(b)
    ensures var rows := [a, b];
            GroupOf(rows, |rows|, SlotOf(a)) == rows && Reported(rows) && |set o | o in rows :: Owner(o)| == 1
  {
    var rows := [a, b];
    assert GroupOf(rows, 1, SlotOf(a)) == [a];
    assert (set o | o in rows :: Owner(o)) == {Owner(a)};
  }
}
