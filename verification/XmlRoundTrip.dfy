/** Printing a tree with `esc` and parsing it again. */
module XmlRoundTrip {
  import opened Wrappers
  import opened JsText
  import opened Sequences
  import opened Entities
  import opened Xml

  /** What a printer is given: attributes in order, and whether the text is to stand in a CDATA section. */
  datatype Tree = Tree(tag: Text, attrs: seq<(Text, Text)>, children: seq<Tree>, text: Text, raw: bool)

  predicate PlainName(name: Text) {
    name != [] && forall c | c in name :: IsNameUnit(c)
  }

  predicate PlainAttrs(attrs: seq<(Text, Text)>) {
    && (forall i | 0 <= i < |attrs| :: PlainName(attrs[i].0))
    && (forall i, j | 0 <= i < j < |attrs| :: attrs[i].0 != attrs[j].0)
  }

  predicate Plain(t: Tree)
    decreases t, 1
  {
    PlainName(t.tag) && PlainAttrs(t.attrs) && AllPlain(t.children) && (t.raw ==> FitsSection(t.text))
  }

  predicate AllPlain(ts: seq<Tree>)
    decreases ts, 0
  {
    ts == [] || (Plain(ts[0]) && AllPlain(ts[1..]))
  }

  const DASH: CodeUnit := 0x2D

  /**
   * Nothing that the prolog passes remove begins in the text, nor does its end leave that open: behind every `<` stand
   * no `?`, and no `!` that a dash or the D of a document type follows.
   */
  predicate Inert(s: Text) {
    forall i | 0 <= i < |s| && s[i] == LT :: Decided(s, i)
  }

  predicate Decided(s: Text, i: nat) {
    && i + 1 < |s| && s[i + 1] != QUESTION
    && (s[i + 1] == BANG ==> i + 2 < |s| && s[i + 2] != DASH && Upper(s[i + 2]) != 'D' as int)
  }

  function Section(text: Text): Text {
    CDATA_OPEN + text + CDATA_CLOSE
  }

  /** A section ends at its own end, and the prolog passes find nothing in it. */
  predicate FitsSection(text: Text) {
    IndexOf(text, CDATA_CLOSE).None? && Inert(Section(text))
  }

  // ----- the canonical printer

  function PrintAttr(attr: (Text, Text)): Text {
    attr.0 + [EQUALS, QUOT] + Esc(attr.1) + [QUOT]
  }

  function PrintAttrs(attrs: seq<(Text, Text)>): Text {
    if attrs == [] then [] else [SPACE] + PrintAttr(attrs[0]) + PrintAttrs(attrs[1..])
  }

  function Head(t: Tree): Text {
    t.tag + PrintAttrs(t.attrs)
  }

  function CloseTag(tag: Text): Text {
    [LT, SLASH] + tag + [GT]
  }

  function Print(t: Tree): Text
    decreases t, 1
  {
    if t.text == [] && t.children == [] then [LT] + Head(t) + [SLASH, GT]
    else [LT] + Head(t) + [GT] + PrintText(t) + PrintAll(t.children) + CloseTag(t.tag)
  }

  function PrintText(t: Tree): Text {
    if t.raw then Section(t.text) else Esc(t.text)
  }

  function PrintAll(ts: seq<Tree>): Text
    decreases ts, 0
  {
    if ts == [] then [] else Print(ts[0]) + PrintAll(ts[1..])
  }

  // ----- what comes back

  function AttrMap(attrs: seq<(Text, Text)>, sofar: map<Text, Text>): map<Text, Text> {
    if attrs == [] then sofar else AttrMap(attrs[1..], Assign(sofar, attrs[0].0, attrs[0].1))
  }

  function Stored(text: Text): Text {
    if Blank(text) then [] else text
  }

  /** The text that comes back: blank text is lost, unless it stands in a section. */
  function ReadText(t: Tree): Text {
    if t.raw then t.text else Stored(t.text)
  }

  /** The node the parser builds: a blank text and an attribute named `__proto__` are lost. */
  function Read(t: Tree): Node
    decreases t, 1
  {
    Node(t.tag, AttrMap(t.attrs, map[]), ReadAll(t.children), ReadText(t))
  }

  function ReadAll(ts: seq<Tree>): (ns: seq<Node>)
    ensures |ns| == |ts|
    decreases ts, 0
  {
    if ts == [] then [] else [Read(ts[0])] + ReadAll(ts[1..])
  }

  // ----- scanning

  lemma {:induction false} IndexOfUnitAfter(u: Text, c: CodeUnit, t: Text)
    requires c !in u
    ensures IndexOfUnit(u + [c] + t, c) == Some(|u|)
  {
    var s := u + [c] + t;
    if u != [] {
      IndexOfUnitAfter(u[1..], c, t);
      assert s[1..] == u[1..] + [c] + t;
      assert s[0] == u[0] && u[0] in u;
    }
  }

  lemma {:induction false} NameRunIs(name: Text, t: Text)
    requires (forall c | c in name :: IsNameUnit(c)) && (t == [] || !IsNameUnit(t[0]))
    ensures NameRun(name + t) == |name|
  {
    if name == [] {
      assert name + t == t;
    } else {
      assert (name + t)[1..] == name[1..] + t && name[0] in name;
      NameRunIs(name[1..], t);
    }
  }

  lemma NameIsSolid(name: Text)
    requires PlainName(name)
    ensures forall c | c in name :: !IsSpace(c) && c != LT && c != GT && c != SLASH && c != QUOT && c != EQUALS
    ensures name[0] in name && name[|name| - 1] in name
  {
  }

  // ----- attributes

  lemma QuotedIs(value: Text, t: Text)
    requires QUOT !in value
    ensures QuotedAt([EQUALS, QUOT] + value + [QUOT] + t) == Some((value, |value| + 3))
  {
    var s := [EQUALS, QUOT] + value + [QUOT] + t;
    assert s[0] == EQUALS && s[1] == QUOT && s[1..][1..] == value + [QUOT] + t;
    IndexOfUnitAfter(value, QUOT, t);
    assert s[1..][1..][..|value|] == value;
    assert !IsSpace(EQUALS) && !IsSpace(QUOT);
  }

  lemma AttrIs(attr: (Text, Text), t: Text)
    requires PlainName(attr.0)
    ensures AttrAt(PrintAttr(attr) + t) == Some((attr.0, Esc(attr.1), |PrintAttr(attr)|))
  {
    hide Esc;
    hide NameRun;
    hide QuotedAt;
    hide AttrAt;
    var value := Esc(attr.1);
    var tail := [EQUALS, QUOT] + value + [QUOT] + t;
    EscShape(attr.1);
    AttrSplits(attr.0, value, t);
    TailStarts(value, t);
    NameRunIs(attr.0, tail);
    QuotedIs(value, t);
    AttrAtIs(PrintAttr(attr) + t, attr.0, tail);
  }

  lemma AttrAtIs(s: Text, name: Text, tail: Text)
    requires name != [] && s[..NameRun(s)] == name && s[NameRun(s)..] == tail && QuotedAt(tail).Some?
    ensures AttrAt(s) == Some((name, QuotedAt(tail).value.0, |name| + QuotedAt(tail).value.1))
  {
    hide NameRun;
    hide QuotedAt;
  }

  lemma TailStarts(value: Text, t: Text)
    ensures var tail := [EQUALS, QUOT] + value + [QUOT] + t; tail[0] == EQUALS
  {
  }

  lemma AttrSplits(name: Text, value: Text, t: Text)
    ensures var s := name + [EQUALS, QUOT] + value + [QUOT] + t;
            var tail := [EQUALS, QUOT] + value + [QUOT] + t;
            s == name + tail && s[|name|..] == tail && s[..|name|] == name
  {
  }

  lemma AttrRead(attr: (Text, Text), t: Text, sofar: map<Text, Text>)
    requires PlainName(attr.0)
    ensures AttrsFrom(PrintAttr(attr) + t, sofar) == AttrsFrom(t, Assign(sofar, attr.0, attr.1))
  {
    var s := PrintAttr(attr) + t;
    AttrIs(attr, t);
    DecodeEsc(attr.1);
    assert s != [] && NextAttr(s, sofar) == Some((|PrintAttr(attr)|, Assign(sofar, attr.0, attr.1)));
    assert s[|PrintAttr(attr)|..] == t;
  }

  lemma SpaceSkipped(t: Text, sofar: map<Text, Text>)
    ensures AttrsFrom([SPACE] + t, sofar) == AttrsFrom(t, sofar)
  {
    var s := [SPACE] + t;
    assert NameRun(s) == 0;
    assert NextAttr(s, sofar) == Some((1, sofar));
    assert s[1..] == t;
  }

  lemma {:induction false} AttrsRead(attrs: seq<(Text, Text)>, sofar: map<Text, Text>)
    requires forall i | 0 <= i < |attrs| :: PlainName(attrs[i].0)
    ensures AttrsFrom(PrintAttrs(attrs), sofar) == Some(AttrMap(attrs, sofar))
  {
    if attrs != [] {
      var (first, rest) := (attrs[0], PrintAttrs(attrs[1..]));
      AttrsAssoc(PrintAttr(first), rest);
      SpaceSkipped(PrintAttr(first) + rest, sofar);
      AttrRead(first, rest, sofar);
      AttrsRead(attrs[1..], Assign(sofar, first.0, first.1));
    }
  }

  lemma AttrsAssoc(x: Text, rest: Text)
    ensures [SPACE] + x + rest == [SPACE] + (x + rest)
  {
  }

  // ----- opening tags

  lemma {:induction false} AttrsShape(attrs: seq<(Text, Text)>)
    requires forall i | 0 <= i < |attrs| :: PlainName(attrs[i].0)
    ensures LT !in PrintAttrs(attrs) && GT !in PrintAttrs(attrs)
    ensures attrs != [] ==> PrintAttrs(attrs) != [] && PrintAttrs(attrs)[0] == SPACE
    ensures attrs != [] ==> PrintAttrs(attrs)[|PrintAttrs(attrs)| - 1] == QUOT
  {
    if attrs != [] {
      var first := attrs[0];
      NameIsSolid(first.0);
      EscShape(first.1);
      AttrsShape(attrs[1..]);
    }
  }

  /** The head of a tag holds no angle bracket and neither starts nor ends with white space or a slash. */
  lemma HeadShape(t: Tree)
    requires PlainName(t.tag) && PlainAttrs(t.attrs)
    ensures var h := Head(t);
            && LT !in h && GT !in h && h != []
            && IsNameUnit(h[0]) && !IsSpace(h[|h| - 1]) && h[|h| - 1] != SLASH
  {
    NameIsSolid(t.tag);
    AttrsShape(t.attrs);
    assert t.attrs == [] ==> Head(t) == t.tag;
  }

  lemma {:induction false} SpaceAfter(name: Text, t: Text)
    requires (forall c | c in name :: !IsSpace(c)) && (t == [] || t[0] == SPACE)
    ensures IndexOfSpace(name + t) == if t == [] then None else Some(|name|)
  {
    if name == [] {
      assert name + t == t;
    } else {
      assert (name + t)[1..] == name[1..] + t && name[0] in name;
      SpaceAfter(name[1..], t);
    }
  }

  /** The body of a printed tag, with or without the closing slash, opens the node it was printed from. */
  lemma OpenTagReads(t: Tree, selfClosing: bool, advance: nat, stack: Stack)
    requires PlainName(t.tag) && PlainAttrs(t.attrs) && advance > 0
    ensures var node := Node(t.tag, AttrMap(t.attrs, map[]), [], []);
            var body := if selfClosing then Head(t) + [SLASH] else Head(t);
            TakeTag(body, advance, stack)
            == Continue(advance, if selfClosing then AddChild(stack, node) else stack + [node])
  {
    hide TagAndAttrs;
    hide Head;
    hide AttrMap;
    var h := Head(t);
    HeadShape(t);
    HeadReads(t);
    if selfClosing {
      var body := h + [SLASH];
      assert body[..|body| - 1] == h && body[0] == h[0];
      TrimSolid(h);
    }
  }

  lemma HeadReads(t: Tree)
    requires PlainName(t.tag) && PlainAttrs(t.attrs)
    ensures TagAndAttrs(Head(t)) == (t.tag, Some(AttrMap(t.attrs, map[])))
  {
    var printed := PrintAttrs(t.attrs);
    NameIsSolid(t.tag);
    AttrsShape(t.attrs);
    SpaceAfter(t.tag, printed);
    AttrsRead(t.attrs, map[]);
    if t.attrs == [] {
      assert Head(t) == t.tag;
    } else {
      HeadSplits(t.tag, printed);
      SpaceSkipped(printed[1..], map[]);
    }
  }

  lemma HeadSplits(tag: Text, printed: Text)
    requires printed != [] && printed[0] == SPACE
    ensures (tag + printed)[..|tag|] == tag && (tag + printed)[|tag| + 1..] == printed[1..]
    ensures printed == [SPACE] + printed[1..]
  {
  }

  /** A tag at the front: everything up to its `>` is the body. */
  lemma TagTaken(body: Text, post: Text, stack: Stack)
    requires LT !in body && GT !in body && body != [] && !IsSpace(body[0]) && !IsSpace(body[|body| - 1])
    requires body[0] != BANG
    ensures var s := [LT] + body + [GT] + post;
            Next(s, stack) == TakeTag(body, |body| + 2, stack) && s[|body| + 2..] == post
  {
    var s := [LT] + body + [GT] + post;
    assert s[0] == LT && s[1] == body[0];
    assert IndexOfUnit(s, LT) == Some(0) && s[..0] == [] && s[0..] == s;
    assert TakeText([], stack) == Some(stack);
    assert !IsCData(s) by { assert CDATA_OPEN[1] == BANG; }
    TagBody(body, post);
    TrimSolid(body);
    assert NextTag(s, stack) == TakeTag(body, |body| + 2, stack);
    TakeTagStep(body, |body| + 2, stack);
  }

  lemma TagBody(body: Text, post: Text)
    requires GT !in body
    ensures var s := [LT] + body + [GT] + post;
            IndexOfUnit(s, GT) == Some(|body| + 1) && s[1..|body| + 1] == body && s[|body| + 2..] == post
  {
    var s := [LT] + body + [GT] + post;
    assert s == ([LT] + body) + [GT] + post;
    IndexOfUnitAfter([LT] + body, GT, post);
  }

  lemma TakeTagStep(body: Text, advance: nat, stack: Stack)
    requires advance > 0
    ensures Later(TakeTag(body, advance, stack), 0) == TakeTag(body, advance, stack)
  {
  }

  lemma TagParsed(body: Text, post: Text, stack: Stack, pushed: Stack)
    requires LT !in body && GT !in body && body != [] && !IsSpace(body[0]) && !IsSpace(body[|body| - 1])
    requires body[0] != BANG && TakeTag(body, |body| + 2, stack) == Continue(|body| + 2, pushed)
    ensures ParseFrom([LT] + body + [GT] + post, stack) == ParseFrom(post, pushed)
  {
    TagTaken(body, post, stack);
  }

  // ----- text and closing tags

  /** Escaped text in front of a tag is added to the innermost element. */
  lemma TextParsed(text: Text, after: Text, stack: Stack)
    requires after != [] && after[0] == LT
    ensures ParseFrom(Esc(text) + after, stack) == ParseFrom(after, AddText(stack, Stored(text)))
  {
    var e := Esc(text);
    EscShape(text);
    DecodeEsc(text);
    var added := if Blank(text) then stack else AddText(stack, text);
    assert TakeText(e, stack) == Some(added);
    assert after == [LT] + after[1..];
    IndexOfUnitAfter(e, LT, after[1..]);
    var s := e + after;
    TextSplits(e, after);
    assert Next(s, stack) == Later(NextTag(after, added), |e|);
    assert IndexOfUnit(after, LT) == Some(0) && after[..0] == [] && after[0..] == after;
    assert Next(after, added) == Later(NextTag(after, added), 0);
    SameStep(s, e, after, stack, added);
    AddNothing(stack);
  }

  lemma {:induction false} FirstEnd(s: Text, close: Text, t: Text)
    requires |close| > 0 && close[|close| - 1] !in close[..|close| - 1] && IndexOf(s, close).None?
    ensures IndexOf(s + close + t, close) == Some(|s|)
  {
    var whole := s + close + t;
    if s != [] {
      assert whole[1..] == s[1..] + close + t;
      FirstEnd(s[1..], close, t);
      var last := |close| - 1;
      if |s| <= last {
        assert whole[last] == close[last - |s|] && close[last - |s|] in close[..last];
      } else {
        assert whole[..|close|] == s[..|close|];
      }
    }
  }

  /** What stands before a text that does not begin the end of anything changes nothing. */
  lemma {:induction false} NoEndBefore(before: Text, s: Text, close: Text)
    requires |close| > 0 && (forall c | c in before :: c !in close) && IndexOf(s, close).None?
    ensures IndexOf(before + s, close).None?
  {
    if before == [] {
      assert before + s == s;
    } else {
      assert (before + s)[1..] == before[1..] + s && before[0] in before;
      NoEndBefore(before[1..], s, close);
      assert (before + s)[0] == before[0] && close[0] in close;
    }
  }

  /** A section is added to the innermost element as it is, blank or not. */
  lemma SectionParsed(text: Text, after: Text, stack: Stack)
    requires FitsSection(text)
    ensures ParseFrom(Section(text) + after, stack) == ParseFrom(after, AddText(stack, text))
  {
    var s := Section(text) + after;
    assert s[0] == LT && IndexOfUnit(s, LT) == Some(0) && s[..0] == [] && s[0..] == s;
    assert TakeText([], stack) == Some(stack);
    assert CDATA_OPEN <= s;
    NoEndBefore(CDATA_OPEN, text, CDATA_CLOSE);
    assert s == (CDATA_OPEN + text) + CDATA_CLOSE + after;
    FirstEnd(CDATA_OPEN + text, CDATA_CLOSE, after);
    var n := 9 + |text|;
    assert s[9..n] == text && s[n + 3..] == after;
    assert NextTag(s, stack) == Continue(n + 3, AddText(stack, text));
    assert Next(s, stack) == Continue(n + 3, AddText(stack, text));
  }

  lemma AddNothing(stack: Stack)
    ensures AddText(stack, []) == stack
  {
    assert Top(stack).text + [] == Top(stack).text;
  }

  lemma TextSplits(e: Text, after: Text)
    requires after != [] && after[0] == LT
    ensures e + after == e + [LT] + after[1..]
    ensures (e + after)[..|e|] == e && (e + after)[|e|..] == after
  {
  }

  lemma SameStep(s: Text, e: Text, after: Text, stack: Stack, added: Stack)
    requires after != [] && after[0] == LT && s == e + after
    requires Next(s, stack) == Later(NextTag(after, added), |e|)
    requires Next(after, added) == Later(NextTag(after, added), 0)
    ensures ParseFrom(s, stack) == ParseFrom(after, added)
  {
    hide Next;
    hide NextTag;
    hide ParseFrom;
    var step := NextTag(after, added);
    ParseUnfolds(s, stack, Later(step, |e|));
    ParseUnfolds(after, added, Later(step, 0));
    if step.Continue? {
      DropBoth(e, after, step.advance);
    }
  }

  lemma DropBoth(e: Text, after: Text, n: nat)
    requires n <= |after|
    ensures (e + after)[n + |e|..] == after[n..]
  {
  }

  lemma ParseUnfolds(s: Text, stack: Stack, step: Step)
    requires s != [] && step == Next(s, stack)
    ensures ParseFrom(s, stack)
            == if step.Throw? then None else if step.Stop? then Some(step.stack)
               else ParseFrom(s[step.advance..], step.stack)
  {
  }

  lemma CloseParsed(tag: Text, post: Text, stack: Stack)
    requires PlainName(tag)
    ensures ParseFrom(CloseTag(tag) + post, stack) == ParseFrom(post, Close(stack))
  {
    var body := [SLASH] + tag;
    NameIsSolid(tag);
    assert body[0] == SLASH && body[|body| - 1] == tag[|tag| - 1];
    TagParsed(body, post, stack, Close(stack));
    CloseJoins(tag, post);
  }

  lemma CloseJoins(tag: Text, post: Text)
    ensures CloseTag(tag) + post == [LT] + ([SLASH] + tag) + [GT] + post
  {
  }

  // ----- whole elements

  /** Several children at once. */
  function AddChildren(stack: Stack, children: seq<Node>): Stack {
    SetTop(stack, Top(stack).(children := Top(stack).children + children))
  }

  lemma AddChildrenStep(stack: Stack, first: Node, rest: seq<Node>)
    ensures AddChildren(AddChild(stack, first), rest) == AddChildren(stack, [first] + rest)
  {
    assert Top(stack).children + [first] + rest == Top(stack).children + ([first] + rest);
  }

  lemma AddNoChildren(stack: Stack)
    ensures AddChildren(stack, []) == stack
  {
    assert Top(stack).children + [] == Top(stack).children;
  }

  lemma FillElement(stack: Stack, node: Node, text: Text, children: seq<Node>)
    requires node.text == [] && node.children == []
    ensures Close(AddChildren(AddText(stack + [node], text), children))
            == AddChild(stack, node.(text := text, children := children))
  {
    var pushed := stack + [node];
    assert pushed[..|pushed| - 1] == stack;
    assert [] + text == text && [] + children == children;
    var texted := AddText(pushed, text);
    assert texted == stack + [node.(text := text)];
    assert texted[..|texted| - 1] == stack;
    var full := AddChildren(texted, children);
    assert full == stack + [node.(text := text, children := children)];
    assert full[..|full| - 1] == stack;
  }

  lemma PrintStarts(ts: seq<Tree>, tag: Text, post: Text)
    ensures var s := PrintAll(ts) + CloseTag(tag) + post; s != [] && s[0] == LT
  {
  }

  lemma SelfClosedParsed(t: Tree, post: Text, stack: Stack)
    requires PlainName(t.tag) && PlainAttrs(t.attrs)
    ensures ParseFrom([LT] + Head(t) + [SLASH, GT] + post, stack)
            == ParseFrom(post, AddChild(stack, Node(t.tag, AttrMap(t.attrs, map[]), [], [])))
  {
    hide TakeTag;
    hide ParseFrom;
    hide AttrMap;
    hide Head;
    var body := Head(t) + [SLASH];
    HeadShape(t);
    OpenTagReads(t, true, |body| + 2, stack);
    assert body[0] == Head(t)[0];
    TagParsed(body, post, stack, AddChild(stack, Node(t.tag, AttrMap(t.attrs, map[]), [], [])));
    SlashJoins(Head(t), post);
  }

  lemma SlashJoins(h: Text, post: Text)
    ensures [LT] + (h + [SLASH]) + [GT] + post == [LT] + h + [SLASH, GT] + post
  {
  }

  lemma OpenParsed(t: Tree, post: Text, stack: Stack)
    requires PlainName(t.tag) && PlainAttrs(t.attrs)
    ensures ParseFrom([LT] + Head(t) + [GT] + post, stack)
            == ParseFrom(post, stack + [Node(t.tag, AttrMap(t.attrs, map[]), [], [])])
  {
    HeadShape(t);
    OpenTagReads(t, false, |Head(t)| + 2, stack);
    TagParsed(Head(t), post, stack, stack + [Node(t.tag, AttrMap(t.attrs, map[]), [], [])]);
  }

  lemma PrintAssoc(h: Text, e: Text, c: Text, z: Text, post: Text)
    ensures [LT] + h + [GT] + e + c + z + post == [LT] + h + [GT] + (e + (c + z + post))
    ensures c + z + post == c + (z + post)
  {
  }

  /** A printed element is read as one more child of the innermost open element. */
  lemma {:induction false} ElementParsed(t: Tree, post: Text, stack: Stack)
    requires Plain(t)
    ensures ParseFrom(Print(t) + post, stack) == ParseFrom(post, AddChild(stack, Read(t)))
    decreases t, 1
  {
    var node := Node(t.tag, AttrMap(t.attrs, map[]), [], []);
    if t.text == [] && t.children == [] {
      SelfClosedParsed(t, post, stack);
    } else {
      var (e, c, z) := (PrintText(t), PrintAll(t.children), CloseTag(t.tag));
      PrintAssoc(Head(t), e, c, z, post);
      OpenParsed(t, e + (c + z + post), stack);
      PrintStarts(t.children, t.tag, post);
      if t.raw {
        SectionParsed(t.text, c + z + post, stack + [node]);
      } else {
        TextParsed(t.text, c + z + post, stack + [node]);
      }
      var texted := AddText(stack + [node], ReadText(t));
      ElementsParsed(t.children, z + post, texted);
      CloseParsed(t.tag, post, AddChildren(texted, ReadAll(t.children)));
      FillElement(stack, node, ReadText(t), ReadAll(t.children));
    }
  }

  lemma {:induction false} ElementsParsed(ts: seq<Tree>, post: Text, stack: Stack)
    requires AllPlain(ts)
    ensures ParseFrom(PrintAll(ts) + post, stack) == ParseFrom(post, AddChildren(stack, ReadAll(ts)))
    decreases ts, 0
  {
    if ts == [] {
      assert PrintAll(ts) + post == post;
      AddNoChildren(stack);
    } else {
      var rest := PrintAll(ts[1..]);
      Assoc(Print(ts[0]), rest, post);
      ElementParsed(ts[0], rest + post, stack);
      var more := AddChild(stack, Read(ts[0]));
      ElementsParsed(ts[1..], post, more);
      AddChildrenStep(stack, Read(ts[0]), ReadAll(ts[1..]));
    }
  }

  // ----- the prolog passes find nothing to remove

  /** The openings that the three passes look for. */
  predicate IsOpening(open: Text) {
    open == PI_OPEN || open == COMMENT_OPEN || open == DOCTYPE_OPEN
  }

  lemma NothingOpens(s: Text, rest: Text, open: Text, ignoreCase: bool)
    requires Inert(s) && s != [] && IsOpening(open)
    ensures !Opens(s + rest, open, ignoreCase)
  {
    var whole := s + rest;
    assert whole[0] == s[0];
    if s[0] == LT {
      assert whole[1] == s[1];
      if s[1] == BANG {
        assert whole[2] == s[2];
      }
    }
    if |open| <= |whole| {
      var first := (i: nat) requires i < |whole| => if ignoreCase then Upper(whole[i]) else whole[i];
      assert first(0) != open[0] || first(1) != open[1] || first(2) != open[2];
    }
  }

  lemma InertTail(s: Text)
    requires Inert(s) && s != []
    ensures Inert(s[1..])
  {
    var tail := s[1..];
    forall i | 0 <= i < |tail| && tail[i] == LT
      ensures Decided(tail, i)
    {
      assert tail[i] == s[i + 1] && Decided(s, i + 1);
      assert tail[i + 1] == s[i + 2] && (tail[i + 1] == BANG ==> tail[i + 2] == s[i + 3]);
    }
  }

  /** Inert text is kept, whatever follows it. */
  lemma {:induction false} StripPasses(s: Text, rest: Text, open: Text, close: Text, ignoreCase: bool)
    requires Inert(s) && IsOpening(open)
    ensures Strip(s + rest, open, close, ignoreCase) == s + Strip(rest, open, close, ignoreCase)
  {
    if s == [] {
      assert s + rest == rest;
    } else {
      NothingOpens(s, rest, open, ignoreCase);
      assert (s + rest)[1..] == s[1..] + rest;
      InertTail(s);
      StripPasses(s[1..], rest, open, close, ignoreCase);
      assert [s[0]] + (s[1..] + Strip(rest, open, close, ignoreCase)) == s + Strip(rest, open, close, ignoreCase);
    }
  }

  lemma StripNothing(s: Text, open: Text, close: Text, ignoreCase: bool)
    requires Inert(s) && IsOpening(open)
    ensures Strip(s, open, close, ignoreCase) == s
  {
    StripPasses(s, [], open, close, ignoreCase);
    assert s + [] == s;
  }

  lemma InertJoin(a: Text, b: Text)
    requires Inert(a) && Inert(b)
    ensures Inert(a + b)
  {
    var s := a + b;
    forall i | 0 <= i < |s| && s[i] == LT
      ensures Decided(s, i)
    {
      if i >= |a| {
        assert Decided(b, i - |a|);
      } else {
        assert Decided(a, i);
      }
    }
  }

  lemma InertWithout(a: Text)
    requires LT !in a
    ensures Inert(a)
  {
  }

  lemma TagInert(body: Text)
    requires LT !in body && body != [] && body[0] != BANG && body[0] != QUESTION
    ensures Inert([LT] + body + [GT])
  {
    var s := [LT] + body + [GT];
    assert forall k | 0 <= k < |body| :: s[k + 1] == body[k] && body[k] in body;
    assert s[1] == body[0];
  }

  lemma TextInert(t: Tree)
    requires t.raw ==> FitsSection(t.text)
    ensures Inert(PrintText(t))
  {
    if !t.raw {
      EscShape(t.text);
      InertWithout(PrintText(t));
    }
  }

  lemma {:induction false} PrintInert(t: Tree)
    requires Plain(t)
    ensures Inert(Print(t)) && Print(t)[0] == LT
    decreases t, 1
  {
    hide Inert;
    hide Head;
    hide PrintText;
    HeadShape(t);
    if t.text == [] && t.children == [] {
      TagInert(Head(t) + [SLASH]);
      assert Print(t) == [LT] + (Head(t) + [SLASH]) + [GT];
    } else {
      var (o, e, c) := ([LT] + Head(t) + [GT], PrintText(t), PrintAll(t.children));
      TagInert(Head(t));
      TextInert(t);
      InertJoin(o, e);
      PrintAllInert(t.children);
      InertJoin(o + e, c);
      NameIsSolid(t.tag);
      TagInert([SLASH] + t.tag);
      assert CloseTag(t.tag) == [LT] + ([SLASH] + t.tag) + [GT];
      InertJoin(o + e + c, CloseTag(t.tag));
    }
  }

  lemma {:induction false} PrintAllInert(ts: seq<Tree>)
    requires AllPlain(ts)
    ensures Inert(PrintAll(ts))
    decreases ts, 0
  {
    if ts != [] {
      PrintInert(ts[0]);
      PrintAllInert(ts[1..]);
      InertJoin(Print(ts[0]), PrintAll(ts[1..]));
    }
  }

  // ----- the round trip

  /** A document whose root element is `n`. */
  function Document(n: Node): Node {
    ROOT.(children := [n])
  }

  /** Parsing a printed tree never throws and yields the one root element that `Read` describes. */
  lemma ParsePrint(t: Tree)
    requires Plain(t)
    ensures Parse(Print(t)) == Some(Document(Read(t)))
  {
    PrologOfPrint(t);
    ParseStrippedPrint(t);
  }

  lemma ParseStrippedPrint(t: Tree)
    requires Plain(t)
    ensures ParseStripped(Print(t)) == Some(Document(Read(t)))
  {
    ElementAlone(t, [], [ROOT]);
    OneChild(Read(t));
    ClosedDocument(Print(t), Document(Read(t)));
  }

  lemma OneChild(n: Node)
    ensures AddChild([ROOT], n) == [Document(n)]
  {
    assert [ROOT][..0] == [] && ROOT.children + [n] == [n];
  }

  lemma ClosedDocument(xml: Text, root: Node)
    requires ParseFrom(xml, [ROOT]) == Some([root])
    ensures ParseStripped(xml) == Some(root)
  {
  }

  lemma ElementAlone(t: Tree, nothing: Text, stack: Stack)
    requires Plain(t) && nothing == []
    ensures ParseFrom(Print(t), stack) == Some(AddChild(stack, Read(t)))
  {
    ElementParsed(t, nothing, stack);
    assert Print(t) + nothing == Print(t);
  }

  lemma PrologOfPrint(t: Tree)
    requires Plain(t)
    ensures StripProlog(Print(t)) == Print(t)
  {
    var s := Print(t);
    PrintInert(t);
    StripNothing(s, PI_OPEN, PI_CLOSE, false);
    StripNothing(s, COMMENT_OPEN, COMMENT_CLOSE, false);
    StripNothing(s, DOCTYPE_OPEN, [GT], true);
  }

  /** The node that says everything the tree says. */
  function Whole(t: Tree): Node
    decreases t, 1
  {
    Node(t.tag, WholeMap(t.attrs, map[]), WholeAll(t.children), t.text)
  }

  function WholeMap(attrs: seq<(Text, Text)>, sofar: map<Text, Text>): map<Text, Text> {
    if attrs == [] then sofar else WholeMap(attrs[1..], sofar[attrs[0].0 := attrs[0].1])
  }

  function WholeAll(ts: seq<Tree>): (ns: seq<Node>)
    ensures |ns| == |ts|
    decreases ts, 0
  {
    if ts == [] then [] else [Whole(ts[0])] + WholeAll(ts[1..])
  }

  /** With distinct names, as `Plain` asks, the map holds every attribute with its value. */
  lemma {:induction false} WholeMapKeeps(attrs: seq<(Text, Text)>, m: map<Text, Text>)
    requires forall i, j | 0 <= i < j < |attrs| :: attrs[i].0 != attrs[j].0
    ensures forall i | 0 <= i < |attrs| ::
              attrs[i].0 in WholeMap(attrs, m) && WholeMap(attrs, m)[attrs[i].0] == attrs[i].1
    ensures forall k | k in m && (forall i | 0 <= i < |attrs| :: attrs[i].0 != k) ::
              k in WholeMap(attrs, m) && WholeMap(attrs, m)[k] == m[k]
  {
    if attrs != [] {
      var rest := attrs[1..];
      WholeMapKeeps(rest, m[attrs[0].0 := attrs[0].1]);
      assert forall i | 0 <= i < |rest| :: rest[i] == attrs[i + 1];
      assert forall i | 1 <= i < |attrs| :: attrs[i] == rest[i - 1];
    }
  }

  /**
   * What a caller can check before printing: no blank text outside a section except the empty one, and no attribute
   * named `__proto__`.
   */
  predicate Storable(t: Tree)
    decreases t, 1
  {
    && (t.raw || t.text == [] || !Blank(t.text))
    && (forall i | 0 <= i < |t.attrs| :: t.attrs[i].0 != PROTO)
    && AllStorable(t.children)
  }

  predicate AllStorable(ts: seq<Tree>)
    decreases ts, 0
  {
    ts == [] || (Storable(ts[0]) && AllStorable(ts[1..]))
  }

  lemma {:induction false} MapKeys(attrs: seq<(Text, Text)>, m: map<Text, Text>)
    ensures forall k :: k in AttrMap(attrs, m) ==>
                          k in m || (k != PROTO && exists i | 0 <= i < |attrs| :: attrs[i].0 == k)
    ensures forall k :: k in WholeMap(attrs, m) <==> k in m || exists i | 0 <= i < |attrs| :: attrs[i].0 == k
  {
    if attrs != [] {
      MapKeys(attrs[1..], Assign(m, attrs[0].0, attrs[0].1));
      MapKeys(attrs[1..], m[attrs[0].0 := attrs[0].1]);
      assert forall i | 0 <= i < |attrs[1..]| :: attrs[1..][i] == attrs[i + 1];
    }
  }

  lemma {:induction false} SameMaps(attrs: seq<(Text, Text)>, m: map<Text, Text>)
    requires forall i | 0 <= i < |attrs| :: attrs[i].0 != PROTO
    ensures AttrMap(attrs, m) == WholeMap(attrs, m)
  {
    if attrs != [] {
      SameMaps(attrs[1..], m[attrs[0].0 := attrs[0].1]);
    }
  }

  lemma AttrsKeptIff(attrs: seq<(Text, Text)>)
    ensures AttrMap(attrs, map[]) == WholeMap(attrs, map[]) <==> forall i | 0 <= i < |attrs| :: attrs[i].0 != PROTO
  {
    if forall i | 0 <= i < |attrs| :: attrs[i].0 != PROTO {
      SameMaps(attrs, map[]);
    } else {
      MapKeys(attrs, map[]);
      assert PROTO in WholeMap(attrs, map[]) && PROTO !in AttrMap(attrs, map[]);
    }
  }

  lemma {:induction false} ReadIsWholeIff(t: Tree)
    ensures Read(t) == Whole(t) <==> Storable(t)
    decreases t, 1
  {
    AttrsKeptIff(t.attrs);
    ReadAllIsWholeIff(t.children);
  }

  lemma {:induction false} ReadAllIsWholeIff(ts: seq<Tree>)
    ensures ReadAll(ts) == WholeAll(ts) <==> AllStorable(ts)
    decreases ts, 0
  {
    if ts != [] {
      ReadIsWholeIff(ts[0]);
      ReadAllIsWholeIff(ts[1..]);
      assert ReadAll(ts)[0] == Read(ts[0]) && ReadAll(ts)[1..] == ReadAll(ts[1..]);
      assert WholeAll(ts)[0] == Whole(ts[0]) && WholeAll(ts)[1..] == WholeAll(ts[1..]);
    }
  }

  /** Printing and parsing gives the tree back exactly when the tree is storable. */
  lemma RoundTripIff(t: Tree)
    requires Plain(t)
    ensures Parse(Print(t)) == Some(Document(Whole(t))) <==> Storable(t)
  {
    ParsePrint(t);
    ReadIsWholeIff(t);
    if Document(Read(t)) == Document(Whole(t)) {
      assert Document(Read(t)).children[0] == Document(Whole(t)).children[0];
    }
  }
}
