/** The stack-driven XML reader (src/lib/junit.ts, `parseXml` and `parseAttrs`). */
module Xml {
  import opened Wrappers
  import opened JsText
  import opened Entities

  const SLASH: CodeUnit := 0x2F
  const EQUALS: CodeUnit := 0x3D
  const BANG: CodeUnit := 0x21
  const QUESTION: CodeUnit := 0x3F
  const BOM: CodeUnit := 0xFEFF

  const PI_OPEN: Text := [0x3C, 0x3F]                                            // <?
  const PI_CLOSE: Text := [0x3F, 0x3E]                                           // ?>
  const COMMENT_OPEN: Text := [0x3C, 0x21, 0x2D, 0x2D]                           // <!--
  const COMMENT_CLOSE: Text := [0x2D, 0x2D, 0x3E]                                // -->
  const DOCTYPE_OPEN: Text := [0x3C, 0x21, 0x44, 0x4F, 0x43, 0x54, 0x59, 0x50, 0x45]  // <!DOCTYPE
  const CDATA_OPEN: Text := [0x3C, 0x21, 0x5B, 0x43, 0x44, 0x41, 0x54, 0x41, 0x5B]    // <![CDATA[
  const CDATA_CLOSE: Text := [0x5D, 0x5D, 0x3E]                                  // ]]>
  const ROOT_TAG: Text := [0x23, 0x72, 0x6F, 0x6F, 0x74]                         // #root
  const PROTO: Text := [0x5F, 0x5F, 0x70, 0x72, 0x6F, 0x74, 0x6F, 0x5F, 0x5F]    // __proto__

  /** The markup that the reader looks for, spelled out. */
  lemma MarkupSpelled()
    ensures PI_OPEN == Units("<?") && PI_CLOSE == Units("?>")
    ensures COMMENT_OPEN == Units("<!--") && COMMENT_CLOSE == Units("-->") && DOCTYPE_OPEN == Units("<!DOCTYPE")
    ensures CDATA_OPEN == Units("<![CDATA[") && CDATA_CLOSE == Units("]]>")
    ensures PROTO == Units("__proto__") && ROOT_TAG == Units("#root")
    ensures [SLASH, EQUALS, BANG, QUESTION] == Units("/=!?")
    ensures LT_ENTITY == Units("&lt;") && GT_ENTITY == Units("&gt;") && AMP_ENTITY == Units("&amp;")
    ensures QUOT_ENTITY == Units("&quot;") && APOS_ENTITY == Units("&apos;")
    ensures [AMP, LT, GT, QUOT, APOS, HASH, SEMI, LOWER_X] == Units("&<>\"'#;x")
  {
  }

  datatype Node = Node(tag: Text, attrs: map<Text, Text>, children: seq<Node>, text: Text)

  // ----- searching

  /** `s.indexOf(pattern)`, the least index of a match. */
  function IndexOf(s: Text, pattern: Text): (r: Option<nat>)
    ensures r.Some? ==> r.value + |pattern| <= |s|
  {
    if pattern <= s then Some(0)
    else if s == [] then None
    else
      var r := IndexOf(s[1..], pattern);
      if r.None? then None else Some(r.value + 1)
  }

  function IndexOfUnit(s: Text, c: CodeUnit): (r: Option<nat>)
    ensures r.Some? ==> r.value < |s| && s[r.value] == c
  {
    if s == [] then None
    else if s[0] == c then Some(0)
    else
      var r := IndexOfUnit(s[1..], c);
      if r.None? then None else Some(r.value + 1)
  }

  /** `s.search(/\s/)` */
  function IndexOfSpace(s: Text): (r: Option<nat>)
    ensures r.Some? ==> r.value < |s|
  {
    if s == [] then None
    else if IsSpace(s[0]) then Some(0)
    else
      var r := IndexOfSpace(s[1..]);
      if r.None? then None else Some(r.value + 1)
  }

  function Upper(c: CodeUnit): CodeUnit {
    if 0x61 <= c <= 0x7A then c - 0x20 else c
  }

  predicate Opens(s: Text, open: Text, ignoreCase: bool) {
    |open| <= |s| && forall i | 0 <= i < |open| :: (if ignoreCase then Upper(s[i]) else s[i]) == open[i]
  }

  /** `s.replace(/open[\s\S]*?close/g, "")`: from an opening to the nearest closing after it. */
  function Strip(s: Text, open: Text, close: Text, ignoreCase: bool): Text
    requires open != []
  {
    if s == [] then []
    else if Opens(s, open, ignoreCase) && IndexOf(s[|open|..], close).Some? then
      Strip(s[|open| + IndexOf(s[|open|..], close).value + |close|..], open, close, ignoreCase)
    else [s[0]] + Strip(s[1..], open, close, ignoreCase)
  }

  /** BOM, processing instructions, comments and document types are removed before parsing, in this order. */
  function StripProlog(input: Text): Text {
    var a := if input != [] && input[0] == BOM then input[1..] else input;
    var b := Strip(a, PI_OPEN, PI_CLOSE, false);
    var c := Strip(b, COMMENT_OPEN, COMMENT_CLOSE, false);
    Strip(c, DOCTYPE_OPEN, [GT], true)
  }

  // ----- attributes

  /** `[\w:.-]` */
  predicate IsNameUnit(c: CodeUnit) {
    || 0x30 <= c <= 0x39 || 0x41 <= c <= 0x5A || 0x61 <= c <= 0x7A || c == 0x5F || c == 0x3A || c == 0x2E || c == 0x2D
  }

  lemma NameUnits(c: CodeUnit)
    ensures IsNameUnit(c)
            <==> || 'a' as int <= c <= 'z' as int || 'A' as int <= c <= 'Z' as int || '0' as int <= c <= '9' as int
                 || c == '_' as int || c == ':' as int || c == '.' as int || c == '-' as int
  {
  }

  function NameRun(s: Text): (n: nat)
    ensures n <= |s|
  {
    if s != [] && IsNameUnit(s[0]) then 1 + NameRun(s[1..]) else 0
  }

  /** A match of `([\w:.-]+)\s*=\s*("([^"]*)"|'([^']*)')` at the start: name, value and the length matched. */
  function AttrAt(s: Text): (r: Option<(Text, Text, nat)>)
    ensures r.Some? ==> 0 < r.value.2 <= |s|
  {
    var n := NameRun(s);
    var v := QuotedAt(s[n..]);
    if n == 0 || v.None? then None else Some((s[..n], v.value.0, n + v.value.1))
  }

  /** The part from the equals sign on: the value and the length matched. */
  function QuotedAt(s: Text): (r: Option<(Text, nat)>)
    ensures r.Some? ==> r.value.1 <= |s|
  {
    var equals := TrimStart(s);
    if equals == [] || equals[0] != EQUALS then None
    else
      var quoted := TrimStart(equals[1..]);
      if quoted == [] || (quoted[0] != QUOT && quoted[0] != APOS) then None
      else
        var close := IndexOfUnit(quoted[1..], quoted[0]);
        if close.None? then None
        else Some((quoted[1..][..close.value], |s| - |quoted| + close.value + 2))
  }

  /** `attrs[name] = value` on a plain object: a string assigned to `__proto__` has no effect. */
  function Assign(attrs: map<Text, Text>, name: Text, value: Text): map<Text, Text> {
    if name == PROTO then attrs else attrs[name := value]
  }

  /** What one position of the `exec` loop yields: how far to move and the attributes so far; `None` when it throws. */
  function NextAttr(raw: Text, attrs: map<Text, Text>): (r: Option<(nat, map<Text, Text>)>)
    requires raw != []
    ensures r.Some? ==> 0 < r.value.0 <= |raw|
  {
    var m := AttrAt(raw);
    if m.None? then Some((1, attrs))
    else
      var value := Decode(m.value.1);
      if value.None? then None else Some((m.value.2, Assign(attrs, m.value.0, value.value)))
  }

  function AttrsFrom(raw: Text, attrs: map<Text, Text>): Option<map<Text, Text>>
    decreases |raw|
  {
    if raw == [] then Some(attrs)
    else
      var next := NextAttr(raw, attrs);
      if next.None? then None else AttrsFrom(raw[next.value.0..], next.value.1)
  }

  method ParseAttrs(raw: Text) returns (attrs: Option<map<Text, Text>>)
    ensures attrs == AttrsFrom(raw, map[])
  {
    hide AttrsFrom;
    hide NextAttr;
    var found, lastIndex := map[], 0;
    ghost var outcome := AttrsFrom(raw, map[]);
    assert raw[0..] == raw;
    while lastIndex < |raw|
      invariant lastIndex <= |raw| && AttrsFrom(raw[lastIndex..], found) == outcome
    {
      var next := NextAttr(raw[lastIndex..], found);
      AttrsAdvance(raw, lastIndex, found);
      if next.None? { return None; }
      lastIndex, found := lastIndex + next.value.0, next.value.1;
    }
    AttrsDone(raw, found);
    return Some(found);
  }

  lemma AttrsDone(raw: Text, attrs: map<Text, Text>)
    ensures AttrsFrom(raw[|raw|..], attrs) == Some(attrs)
  {
  }

  lemma AttrsAdvance(raw: Text, i: nat, attrs: map<Text, Text>)
    requires i < |raw|
    ensures var next := NextAttr(raw[i..], attrs);
            && (next.None? ==> AttrsFrom(raw[i..], attrs) == None)
            && (next.Some? ==> AttrsFrom(raw[i..], attrs) == AttrsFrom(raw[i + next.value.0..], next.value.1))
  {
    var next := NextAttr(raw[i..], attrs);
    if next.Some? {
      SuffixOfSuffix(raw, i, next.value.0);
    }
  }

  // ----- the stack of open elements; a closed element is the last child of the one below it

  type Stack = s: seq<Node> | s != [] witness [Node([], map[], [], [])]

  function Top(stack: Stack): Node {
    stack[|stack| - 1]
  }

  function SetTop(stack: Stack, n: Node): (r: Stack) {
    stack[..|stack| - 1] + [n]
  }

  function AddText(stack: Stack, text: Text): Stack {
    SetTop(stack, Top(stack).(text := Top(stack).text + text))
  }

  function AddChild(stack: Stack, child: Node): Stack {
    SetTop(stack, Top(stack).(children := Top(stack).children + [child]))
  }

  /** `if (stack.length > 1) stack.pop()` */
  function Close(stack: Stack): Stack {
    if |stack| > 1 then AddChild(stack[..|stack| - 1], Top(stack)) else stack
  }

  /** Elements still open at the end of the input stay where they are in the tree. */
  function CloseAll(stack: Stack): Node
    decreases |stack|
  {
    if |stack| == 1 then stack[0] else CloseAll(Close(stack))
  }

  // ----- one iteration of the loop

  datatype Step = Throw | Stop(stack: Stack) | Continue(advance: nat, stack: Stack)

  /** A step that goes on moves the index forward, within the text; the root keeps its tag and attributes. */
  predicate Sound(step: Step, length: nat, root: Node) {
    && (step.Continue? ==> 0 < step.advance <= length)
    && (!step.Throw? ==> step.stack[0].tag == root.tag && step.stack[0].attrs == root.attrs)
  }

  /** Text before the next tag belongs to the innermost open element, unless it is blank. */
  function TakeText(text: Text, stack: Stack): (r: Option<Stack>)
    ensures r.Some? ==> r.value[0].tag == stack[0].tag && r.value[0].attrs == stack[0].attrs
  {
    if Blank(text) then Some(stack)
    else
      var decoded := Decode(text);
      if decoded.None? then None else Some(AddText(stack, decoded.value))
  }

  function Next(rest: Text, stack: Stack): (step: Step)
    requires rest != []
    ensures Sound(step, |rest|, stack[0])
  {
    var lt := IndexOfUnit(rest, LT);
    if lt.None? then
      var taken := TakeText(Trim(rest), stack);
      if taken.None? then Throw else Stop(taken.value)
    else
      var taken := TakeText(rest[..lt.value], stack);
      if taken.None? then Throw else Later(NextTag(rest[lt.value..], taken.value), lt.value)
  }

  function Later(step: Step, n: nat): Step {
    if step.Continue? then step.(advance := step.advance + n) else step
  }

  function NextTag(rest: Text, stack: Stack): (step: Step)
    requires rest != [] && rest[0] == LT
    ensures Sound(step, |rest|, stack[0])
  {
    if IsCData(rest) then TakeCData(rest, stack)
    else
      var gt := IndexOfUnit(rest, GT);
      if gt.None? then Stop(stack) else TakeTag(Trim(rest[1..gt.value]), gt.value + 1, stack)
  }

  predicate IsCData(rest: Text) {
    CDATA_OPEN <= rest
  }

  /** CDATA is kept raw, up to its end or the end of the input. */
  function TakeCData(rest: Text, stack: Stack): (step: Step)
    requires |rest| >= 9
    ensures Sound(step, |rest|, stack[0])
  {
    var end := IndexOf(rest, CDATA_CLOSE);
    if end.None? then Continue(|rest|, AddText(stack, rest[9..]))
    else Continue(end.value + 3, AddText(stack, if end.value < 9 then [] else rest[9..end.value]))
  }

  function TakeTag(body: Text, advance: nat, stack: Stack): (step: Step)
    requires advance > 0
    ensures Sound(step, advance, stack[0])
  {
    if body != [] && body[0] == SLASH then Continue(advance, Close(stack)) else OpenTag(body, advance, stack)
  }

  function OpenTag(body: Text, advance: nat, stack: Stack): (step: Step)
    requires advance > 0
    ensures Sound(step, advance, stack[0])
  {
    var selfClosing := body != [] && body[|body| - 1] == SLASH;
    var (tag, attrs) := TagAndAttrs(if selfClosing then Trim(body[..|body| - 1]) else body);
    if attrs.None? then Throw
    else
      var node := Node(tag, attrs.value, [], []);
      Continue(advance, if selfClosing then AddChild(stack, node) else stack + [node])
  }

  function TagAndAttrs(tagBody: Text): (Text, Option<map<Text, Text>>) {
    var space := IndexOfSpace(tagBody);
    if space.None? then (tagBody, Some(map[]))
    else (tagBody[..space.value], AttrsFrom(tagBody[space.value + 1..], map[]))
  }

  /** The loop from the front of `rest` on; `None` is a `RangeError` thrown by an entity. */
  function ParseFrom(rest: Text, stack: Stack): (r: Option<Stack>)
    decreases |rest|
  {
    if rest == [] then Some(stack)
    else
      match Next(rest, stack)
      case Throw => None
      case Stop(s) => Some(s)
      case Continue(n, s) => ParseFrom(rest[n..], s)
  }

  const ROOT := Node(ROOT_TAG, map[], [], [])

  function Parse(input: Text): Option<Node> {
    ParseStripped(StripProlog(input))
  }

  function ParseStripped(xml: Text): Option<Node> {
    var stack := ParseFrom(xml, [ROOT]);
    if stack.None? then None else Some(CloseAll(stack.value))
  }

  /** The loop: the scan index strictly grows and the root is never popped, on any input at all. */
  method ScanXml(xml: Text, root: Node) returns (r: Option<Stack>)
    ensures r == ParseFrom(xml, [root])
    ensures r.Some? ==> r.value[0].tag == root.tag && r.value[0].attrs == root.attrs
  {
    hide ParseFrom;
    hide Next;
    var stack: Stack := [root];
    var i := 0;
    ghost var outcome := ParseFrom(xml, stack);
    assert xml[0..] == xml;
    while i < |xml|
      invariant 0 <= i <= |xml|
      invariant stack[0].tag == root.tag && stack[0].attrs == root.attrs
      invariant ParseFrom(xml[i..], stack) == outcome
      decreases |xml| - i
    {
      var step := Next(xml[i..], stack);
      ParseAdvances(xml, i, stack, step);
      if step.Throw? { return None; }
      stack := step.stack;
      if step.Stop? { return Some(stack); }
      i := i + step.advance;
    }
    ParseDone(xml, stack);
    return Some(stack);
  }

  lemma ParseDone(xml: Text, stack: Stack)
    ensures ParseFrom(xml[|xml|..], stack) == Some(stack)
  {
  }

  method ParseXml(input: Text) returns (r: Option<Node>)
    ensures r == Parse(input)
    ensures r.Some? ==> r.value.tag == ROOT_TAG && r.value.attrs == map[]
  {
    var xml := StripProlog(input);
    var stack := ScanXml(xml, ROOT);
    if stack.None? { return None; }
    RootStays(stack.value);
    return Some(CloseAll(stack.value));
  }

  lemma ParseAdvances(xml: Text, i: nat, stack: Stack, step: Step)
    requires i < |xml| && step == Next(xml[i..], stack)
    ensures step.Throw? ==> ParseFrom(xml[i..], stack) == None
    ensures step.Stop? ==> ParseFrom(xml[i..], stack) == Some(step.stack)
    ensures step.Continue? ==> ParseFrom(xml[i + step.advance..], step.stack) == ParseFrom(xml[i..], stack)
    ensures Sound(step, |xml| - i, stack[0])
  {
    hide Next;
    if step.Continue? {
      SuffixOfSuffix(xml, i, step.advance);
    }
  }

  lemma SuffixOfSuffix(s: Text, i: nat, n: nat)
    requires i + n <= |s|
    ensures s[i..][n..] == s[i + n..]
  {
  }

  lemma {:induction false} RootStays(stack: Stack)
    ensures CloseAll(stack).tag == stack[0].tag && CloseAll(stack).attrs == stack[0].attrs
    decreases |stack|
  {
    if |stack| > 1 {
      RootStays(Close(stack));
    }
  }
}
