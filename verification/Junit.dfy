/** Test reports (src/lib/junit.ts): `findAll` and the counts of `parseJunit`. */
module Junit {
  import opened Wrappers
  import opened JsText
  import opened Xml
  import RT = XmlRoundTrip

  const TESTCASE: Text := [0x74, 0x65, 0x73, 0x74, 0x63, 0x61, 0x73, 0x65]
  const FAILURE: Text := [0x66, 0x61, 0x69, 0x6C, 0x75, 0x72, 0x65]
  const ERROR: Text := [0x65, 0x72, 0x72, 0x6F, 0x72]
  const SKIPPED: Text := [0x73, 0x6B, 0x69, 0x70, 0x70, 0x65, 0x64]

  lemma TagsSpelled()
    ensures TESTCASE == Units("testcase") && FAILURE == Units("failure") && ERROR == Units("error")
    ensures SKIPPED == Units("skipped")
  {
  }

  /** Every element with the tag among the nodes and below them, in document order. */
  function Found(nodes: seq<Node>, tag: Text): seq<Node>
    decreases nodes
  {
    if nodes == [] then []
    else (if nodes[0].tag == tag then [nodes[0]] else []) + Found(nodes[0].children, tag) + Found(nodes[1..], tag)
  }

  /** The recursive `walk` that pushes onto `out`. */
  method Walk(n: Node, tag: Text, out: seq<Node>) returns (r: seq<Node>)
    ensures r == out + Found(n.children, tag)
    decreases n
  {
    r := out;
    for i := 0 to |n.children|
      invariant r + Found(n.children[i..], tag) == out + Found(n.children, tag)
    {
      var c := n.children[i];
      ghost var before := r;
      if c.tag == tag { r := r + [c]; }
      r := Walk(c, tag, r);
      FoundStep(n.children, i, tag, before);
    }
  }

  lemma FoundStep(nodes: seq<Node>, i: nat, tag: Text, before: seq<Node>)
    requires i < |nodes|
    ensures var c := nodes[i];
            before + Found(nodes[i..], tag)
            == (if c.tag == tag then before + [c] else before) + Found(c.children, tag) + Found(nodes[i + 1..], tag)
  {
    assert nodes[i..][0] == nodes[i] && nodes[i..][1..] == nodes[i + 1..];
  }

  method FindAll(n: Node, tag: Text) returns (out: seq<Node>)
    ensures out == Found(n.children, tag)
  {
    out := Walk(n, tag, []);
  }

  // ----- counting

  datatype Status = PASSED | FAILED | SKIPPED_CASE

  datatype Counts = Counts(total: nat, passed: nat, failed: nat, skipped: nat)

  predicate HasChild(tc: Node, tag: Text) {
    exists i | 0 <= i < |tc.children| :: tc.children[i].tag == tag
  }

  /** A failure or an error wins over a skip mark. */
  function StatusOf(tc: Node): Status {
    if HasChild(tc, FAILURE) || HasChild(tc, ERROR) then FAILED
    else if HasChild(tc, SKIPPED) then SKIPPED_CASE
    else PASSED
  }

  function Tally(cases: seq<Node>, n: nat, status: Status): nat
    requires n <= |cases|
  {
    if n == 0 then 0 else Tally(cases, n - 1, status) + if StatusOf(cases[n - 1]) == status then 1 else 0
  }

  function CountsOf(cases: seq<Node>): Counts {
    Counts(|cases|, Tally(cases, |cases|, PASSED), Tally(cases, |cases|, FAILED), Tally(cases, |cases|, SKIPPED_CASE))
  }

  method ParseJunit(xml: Text) returns (r: Option<Counts>)
    ensures r.None? <==> Parse(xml).None?
    ensures r.Some? ==> r.value == CountsOf(Found(Parse(xml).value.children, TESTCASE))
    ensures r.Some? ==> r.value.total == r.value.passed + r.value.failed + r.value.skipped
  {
    hide Parse;
    hide Found;
    var root := ParseXml(xml);
    if root.None? { return None; }
    var cases := FindAll(root.value, TESTCASE);
    var passed, failed, skipped := 0, 0, 0;
    for i := 0 to |cases|
      invariant passed == Tally(cases, i, PASSED) && failed == Tally(cases, i, FAILED)
      invariant skipped == Tally(cases, i, SKIPPED_CASE) && passed + failed + skipped == i
    {
      match StatusOf(cases[i])
      case PASSED => passed := passed + 1;
      case FAILED => failed := failed + 1;
      case SKIPPED_CASE => skipped := skipped + 1;
    }
    return Some(Counts(|cases|, passed, failed, skipped));
  }

  // ----- on a printed report the cases found are the test cases of the report, in order

  function Cases(ts: seq<RT.Tree>, tag: Text): seq<RT.Tree>
    decreases ts
  {
    if ts == [] then []
    else (if ts[0].tag == tag then [ts[0]] else []) + Cases(ts[0].children, tag) + Cases(ts[1..], tag)
  }

  lemma {:induction false} ReadAllAppend(a: seq<RT.Tree>, b: seq<RT.Tree>)
    ensures RT.ReadAll(a + b) == RT.ReadAll(a) + RT.ReadAll(b)
  {
    if a == [] {
      assert a + b == b;
    } else {
      assert (a + b)[1..] == a[1..] + b;
      ReadAllAppend(a[1..], b);
    }
  }

  lemma {:induction false} FoundInRead(ts: seq<RT.Tree>, tag: Text)
    ensures Found(RT.ReadAll(ts), tag) == RT.ReadAll(Cases(ts, tag))
    decreases ts
  {
    if ts != [] {
      var here := if ts[0].tag == tag then [ts[0]] else [];
      FoundInRead(ts[0].children, tag);
      FoundInRead(ts[1..], tag);
      ReadAllAppend(here, Cases(ts[0].children, tag));
      ReadAllAppend(here + Cases(ts[0].children, tag), Cases(ts[1..], tag));
      assert RT.ReadAll(ts)[0] == RT.Read(ts[0]) && RT.ReadAll(ts)[1..] == RT.ReadAll(ts[1..]);
      assert RT.ReadAll(here) == if ts[0].tag == tag then [RT.Read(ts[0])] else [];
    }
  }

  predicate TreeHasChild(t: RT.Tree, tag: Text) {
    exists i | 0 <= i < |t.children| :: t.children[i].tag == tag
  }

  /** The status of a test case in the report. */
  function TreeStatus(t: RT.Tree): Status {
    if TreeHasChild(t, FAILURE) || TreeHasChild(t, ERROR) then FAILED
    else if TreeHasChild(t, SKIPPED) then SKIPPED_CASE
    else PASSED
  }

  function TreeTally(cases: seq<RT.Tree>, n: nat, status: Status): nat
    requires n <= |cases|
  {
    if n == 0 then 0 else TreeTally(cases, n - 1, status) + if TreeStatus(cases[n - 1]) == status then 1 else 0
  }

  function TreeCounts(cases: seq<RT.Tree>): Counts {
    Counts(|cases|, TreeTally(cases, |cases|, PASSED), TreeTally(cases, |cases|, FAILED),
           TreeTally(cases, |cases|, SKIPPED_CASE))
  }

  /**
   * A printed report is counted as what it says of its own test cases, whatever its texts and attribute values
   * contain.
   */
  lemma ReportCounts(t: RT.Tree)
    requires RT.Plain(t)
    ensures var root := Parse(RT.Print(t));
            root.Some? && CountsOf(Found(root.value.children, TESTCASE)) == TreeCounts(Cases([t], TESTCASE))
  {
    RT.ParsePrint(t);
    FoundInRead([t], TESTCASE);
    assert [t][1..] == [] && RT.ReadAll([t]) == [RT.Read(t)];
    SameCounts(Cases([t], TESTCASE));
    hide CountsOf;
    hide TreeCounts;
  }

  lemma SameCounts(cases: seq<RT.Tree>)
    ensures CountsOf(RT.ReadAll(cases)) == TreeCounts(cases)
  {
    ReadElements(cases);
    ReadTally(cases, |cases|, PASSED);
    ReadTally(cases, |cases|, FAILED);
    ReadTally(cases, |cases|, SKIPPED_CASE);
    hide Tally;
    hide TreeTally;
  }

  lemma {:induction false} ReadElements(ts: seq<RT.Tree>)
    ensures |RT.ReadAll(ts)| == |ts| && forall i | 0 <= i < |ts| :: RT.ReadAll(ts)[i] == RT.Read(ts[i])
  {
    if ts != [] {
      ReadElements(ts[1..]);
      assert forall i | 1 <= i < |ts| :: ts[i] == ts[1..][i - 1] && RT.ReadAll(ts)[i] == RT.ReadAll(ts[1..])[i - 1];
    }
  }

  lemma {:induction false} ReadTally(cases: seq<RT.Tree>, n: nat, status: Status)
    requires n <= |cases| == |RT.ReadAll(cases)|
    requires forall i | 0 <= i < |cases| :: RT.ReadAll(cases)[i] == RT.Read(cases[i])
    ensures Tally(RT.ReadAll(cases), n, status) == TreeTally(cases, n, status)
  {
    if n > 0 {
      ReadTally(cases, n - 1, status);
      ReadStatus(cases[n - 1]);
    }
  }

  /** Reading keeps the status: it depends on the tags of the children alone. */
  lemma ReadStatus(t: RT.Tree)
    ensures StatusOf(RT.Read(t)) == TreeStatus(t)
  {
    ReadElements(t.children);
    assert RT.Read(t).children == RT.ReadAll(t.children);
    forall tag: Text
      ensures HasChild(RT.Read(t), tag) <==> TreeHasChild(t, tag)
    {
      forall i | 0 <= i < |t.children|
        ensures RT.Read(t).children[i].tag == t.children[i].tag
      {
        assert RT.Read(t.children[i]).tag == t.children[i].tag;
      }
    }
  }
}
