/** Comments, processing instructions and document types around a printed tree: what the prolog passes make of them. */
module XmlProlog {
  import opened Wrappers
  import opened JsText
  import opened Entities
  import opened Xml
  import opened RT = XmlRoundTrip
  import Junit

  /** A document in pieces; only the markup belongs to the tree. */
  datatype Piece =
    | Markup(text: Text)
    | Comment(body: Text)
    | Instruction(body: Text)
    | DocType(keyword: Text, body: Text)  // the keyword in any case, with its `<!`

  function Written(p: Piece): Text {
    match p
    case Markup(text) => text
    case Comment(body) => COMMENT_OPEN + body + COMMENT_CLOSE
    case Instruction(body) => PI_OPEN + body + PI_CLOSE
    case DocType(keyword, body) => keyword + body + [GT]
  }

  /** No instruction begins in the text. */
  predicate NoInstruction(s: Text) {
    forall i | 0 <= i < |s| && s[i] == LT :: i + 1 < |s| && s[i + 1] != QUESTION
  }

  /**
   * A comment holds neither its own end nor the start of an instruction, which is looked for first; an instruction does
   * not hold its own end; a document type holds no angle bracket inside.
   */
  predicate Fits(p: Piece) {
    match p
    case Markup(text) => Inert(text)
    case Comment(body) => IndexOf(body, COMMENT_CLOSE).None? && NoInstruction(body + [DASH])
    case Instruction(body) => IndexOf(body, PI_CLOSE).None?
    case DocType(keyword, body) =>
      |keyword| == |DOCTYPE_OPEN| && Opens(keyword, DOCTYPE_OPEN, true) && LT !in body && GT !in body
  }

  predicate AllFit(ps: seq<Piece>) {
    forall i | 0 <= i < |ps| :: Fits(ps[i])
  }

  function WrittenAll(ps: seq<Piece>): Text {
    if ps == [] then [] else Written(ps[0]) + WrittenAll(ps[1..])
  }

  /** The markup alone. */
  function Kept(ps: seq<Piece>): Text {
    if ps == [] then [] else (if ps[0].Markup? then ps[0].text else []) + Kept(ps[1..])
  }

  // ----- one pass over one piece

  /** From an opening to the nearest closing, everything goes. */
  lemma StripRemoves(front: Text, body: Text, rest: Text, open: Text, close: Text, ignoreCase: bool)
    requires open != [] && |front| == |open| && Opens(front, open, ignoreCase)
    requires |close| > 0 && close[|close| - 1] !in close[..|close| - 1] && IndexOf(body, close).None?
    ensures Strip(front + body + close + rest, open, close, ignoreCase) == Strip(rest, open, close, ignoreCase)
  {
    var s := front + body + close + rest;
    assert Opens(s, open, ignoreCase) by {
      assert forall i | 0 <= i < |open| :: s[i] == front[i];
    }
    assert s[|open|..] == body + close + rest;
    FirstEnd(body, close, rest);
    assert s[|open| + |body| + |close|..] == rest;
  }

  lemma {:induction false} NoInstructionPasses(s: Text, rest: Text)
    requires NoInstruction(s)
    ensures Strip(s + rest, PI_OPEN, PI_CLOSE, false) == s + Strip(rest, PI_OPEN, PI_CLOSE, false)
  {
    if s == [] {
      assert s + rest == rest;
    } else {
      NoInstructionAhead(s, rest);
      NoInstructionPasses(s[1..], rest);
      FirstKept(s, rest, PI_OPEN, PI_CLOSE, false);
    }
  }

  lemma NoInstructionAhead(s: Text, rest: Text)
    requires NoInstruction(s) && s != []
    ensures !Opens(s + rest, PI_OPEN, false) && NoInstruction(s[1..])
  {
    assert (s + rest)[0] == s[0] && (s[0] == LT ==> (s + rest)[1] == s[1]);
    assert PI_OPEN[0] == LT && PI_OPEN[1] == QUESTION;
    assert forall i | 0 <= i < |s[1..]| :: s[1..][i] == s[i + 1];
  }

  /** The first unit is kept when nothing opens there. */
  lemma FirstKept(s: Text, rest: Text, open: Text, close: Text, ignoreCase: bool)
    requires s != [] && open != [] && !Opens(s + rest, open, ignoreCase)
    requires Strip(s[1..] + rest, open, close, ignoreCase) == s[1..] + Strip(rest, open, close, ignoreCase)
    ensures Strip(s + rest, open, close, ignoreCase) == s + Strip(rest, open, close, ignoreCase)
  {
    hide Opens;
    var stripped := Strip(rest, open, close, ignoreCase);
    assert (s + rest)[0] == s[0] && (s + rest)[1..] == s[1..] + rest;
    assert [s[0]] + (s[1..] + stripped) == s + stripped;
  }

  /** A text with a single `<`, at its front, that no opening of the pass begins with is kept. */
  lemma TagPasses(s: Text, rest: Text, open: Text, close: Text)
    requires s != [] && LT !in s[1..] && open != [] && open[0] == LT && !Opens(s + rest, open, false)
    ensures Strip(s + rest, open, close, false) == s + Strip(rest, open, close, false)
  {
    assert (s + rest)[1..] == s[1..] + rest;
    SkipsWithout(s[1..], rest, open, close, false);
    assert [s[0]] + (s[1..] + Strip(rest, open, close, false)) == s + Strip(rest, open, close, false);
  }

  lemma {:induction false} SkipsWithout(s: Text, rest: Text, open: Text, close: Text, ignoreCase: bool)
    requires LT !in s && open != [] && open[0] == LT
    ensures Strip(s + rest, open, close, ignoreCase) == s + Strip(rest, open, close, ignoreCase)
  {
    if s == [] {
      assert s + rest == rest;
    } else {
      assert (s + rest)[0] == s[0] && s[0] in s;
      assert (s + rest)[1..] == s[1..] + rest;
      SkipsWithout(s[1..], rest, open, close, ignoreCase);
      assert [s[0]] + (s[1..] + Strip(rest, open, close, ignoreCase)) == s + Strip(rest, open, close, ignoreCase);
    }
  }

  // ----- the three passes

  /** The pieces that are left after the first `pass` passes. */
  predicate Left(p: Piece, pass: nat) {
    match p
    case Markup(_) => true
    case Comment(_) => pass < 2
    case Instruction(_) => pass < 1
    case DocType(_, _) => pass < 3
  }

  function Shown(ps: seq<Piece>, pass: nat): Text {
    if ps == [] then [] else (if Left(ps[0], pass) then Written(ps[0]) else []) + Shown(ps[1..], pass)
  }

  lemma {:induction false} FirstPass(ps: seq<Piece>)
    requires AllFit(ps)
    ensures Strip(Shown(ps, 0), PI_OPEN, PI_CLOSE, false) == Shown(ps, 1)
  {
    if ps != [] {
      FirstPass(ps[1..]);
      var (p, rest) := (ps[0], Shown(ps[1..], 0));
      assert Fits(p);
      match p
      case Markup(text) => StripPasses(text, rest, PI_OPEN, PI_CLOSE, false);
      case Comment(body) => CommentPasses(body, rest);
      case Instruction(body) => StripRemoves(PI_OPEN, body, rest, PI_OPEN, PI_CLOSE, false);
      case DocType(keyword, body) =>
        DocTypeShape(keyword, body, rest);
        TagPasses(keyword + body + [GT], rest, PI_OPEN, PI_CLOSE);
    }
  }

  lemma CommentPasses(body: Text, rest: Text)
    requires NoInstruction(body + [DASH])
    ensures var s := COMMENT_OPEN + body + COMMENT_CLOSE;
            Strip(s + rest, PI_OPEN, PI_CLOSE, false) == s + Strip(rest, PI_OPEN, PI_CLOSE, false)
  {
    var s := COMMENT_OPEN + body + COMMENT_CLOSE;
    var inner := body + [DASH];
    forall i | 0 <= i < |s| && s[i] == LT
      ensures i + 1 < |s| && s[i + 1] != QUESTION
    {
      if i >= 4 {
        assert s[i] == inner[i - 4] && s[i + 1] == inner[i - 3];
      }
    }
    NoInstructionPasses(s, rest);
  }

  lemma DocTypeShape(keyword: Text, body: Text, rest: Text)
    requires Fits(DocType(keyword, body))
    ensures var s := keyword + body + [GT];
            && s != [] && LT !in s[1..]
            && !Opens(s + rest, PI_OPEN, false) && !Opens(s + rest, COMMENT_OPEN, false)
  {
    var s := keyword + body + [GT];
    assert forall i | 0 <= i < 9 :: Upper(keyword[i]) == DOCTYPE_OPEN[i];
    assert (s + rest)[1] == keyword[1] && (s + rest)[2] == keyword[2];
    forall c | c in s[1..]
      ensures c != LT
    {
      var i :| 1 <= i < |s| && s[i] == c;
      if i < 9 {
        assert s[i] == keyword[i] && Upper(keyword[i]) == DOCTYPE_OPEN[i];
      } else if i < 9 + |body| {
        assert s[i] == body[i - 9] && body[i - 9] in body;
      }
    }
  }

  lemma {:induction false} SecondPass(ps: seq<Piece>)
    requires AllFit(ps)
    ensures Strip(Shown(ps, 1), COMMENT_OPEN, COMMENT_CLOSE, false) == Shown(ps, 2)
  {
    if ps != [] {
      SecondPass(ps[1..]);
      var (p, rest) := (ps[0], Shown(ps[1..], 1));
      assert Fits(p);
      match p
      case Markup(text) => StripPasses(text, rest, COMMENT_OPEN, COMMENT_CLOSE, false);
      case Comment(body) => StripRemoves(COMMENT_OPEN, body, rest, COMMENT_OPEN, COMMENT_CLOSE, false);
      case Instruction(body) => assert [] + rest == rest && [] + Shown(ps[1..], 2) == Shown(ps[1..], 2);
      case DocType(keyword, body) =>
        DocTypeShape(keyword, body, rest);
        TagPasses(keyword + body + [GT], rest, COMMENT_OPEN, COMMENT_CLOSE);
    }
  }

  lemma {:induction false} ThirdPass(ps: seq<Piece>)
    requires AllFit(ps)
    ensures Strip(Shown(ps, 2), DOCTYPE_OPEN, [GT], true) == Shown(ps, 3)
  {
    if ps != [] {
      ThirdPass(ps[1..]);
      hide Inert;
      hide Opens;
      var (p, rest) := (ps[0], Shown(ps[1..], 2));
      assert Fits(p);
      match p
      case Markup(text) => StripPasses(text, rest, DOCTYPE_OPEN, [GT], true);
      case DocType(keyword, body) => DocTypeRemoved(keyword, body, rest);
      case _ => assert [] + rest == rest && [] + Shown(ps[1..], 3) == Shown(ps[1..], 3);
    }
  }

  lemma DocTypeRemoved(keyword: Text, body: Text, rest: Text)
    requires Fits(DocType(keyword, body))
    ensures Strip(keyword + body + [GT] + rest, DOCTYPE_OPEN, [GT], true) == Strip(rest, DOCTYPE_OPEN, [GT], true)
  {
    NoUnit(body, GT);
    StripRemoves(keyword, body, rest, DOCTYPE_OPEN, [GT], true);
  }

  lemma {:induction false} NoUnit(s: Text, c: CodeUnit)
    requires c !in s
    ensures IndexOf(s, [c]).None?
  {
    if s != [] {
      assert s[0] in s;
      NoUnit(s[1..], c);
    }
  }

  lemma {:induction false} ShownEnds(ps: seq<Piece>)
    ensures Shown(ps, 0) == WrittenAll(ps) && Shown(ps, 3) == Kept(ps)
  {
    if ps != [] {
      ShownEnds(ps[1..]);
    }
  }

  /** A mark at the front or not. */
  function WithMark(marked: bool, s: Text): Text {
    if marked then [BOM] + s else s
  }

  predicate Unmarked(s: Text) {
    s == [] || s[0] != BOM
  }

  /** The passes leave the markup, and nothing else, of a document with a byte order mark or without. */
  lemma PrologStripped(marked: bool, ps: seq<Piece>)
    requires AllFit(ps) && (marked || Unmarked(WrittenAll(ps)))
    ensures StripProlog(WithMark(marked, WrittenAll(ps))) == Kept(ps)
  {
    ShownEnds(ps);
    FirstPass(ps);
    SecondPass(ps);
    ThirdPass(ps);
    assert marked ==> WithMark(marked, WrittenAll(ps))[1..] == WrittenAll(ps);
  }

  // ----- documents

  /**
   * A printed tree with comments, instructions and document types anywhere between its parts is read as if they were
   * not there. Its parts are any pieces that leave no `<` open at their end.
   */
  lemma AnnotatedParse(marked: bool, ps: seq<Piece>, t: Tree)
    requires AllFit(ps) && (marked || Unmarked(WrittenAll(ps))) && Plain(t) && Kept(ps) == Print(t)
    ensures Parse(WithMark(marked, WrittenAll(ps))) == Some(Document(Read(t)))
  {
    PrologStripped(marked, ps);
    ParseStrippedPrint(t);
  }

  /** And it is counted the same. */
  lemma AnnotatedCounts(marked: bool, ps: seq<Piece>, t: Tree)
    requires AllFit(ps) && (marked || Unmarked(WrittenAll(ps))) && Plain(t) && Kept(ps) == Print(t)
    ensures var root := Parse(WithMark(marked, WrittenAll(ps)));
            root.Some?
            && Junit.CountsOf(Junit.Found(root.value.children, Junit.TESTCASE))
               == Junit.TreeCounts(Junit.Cases([t], Junit.TESTCASE))
  {
    AnnotatedParse(marked, ps, t);
    ParsePrint(t);
    Junit.ReportCounts(t);
  }

  // ----- a section is not safe from the passes

  lemma ThreePieces(a: Text, body: Text, c: Text)
    ensures var ps := [Markup(a), Comment(body), Markup(c)];
            WrittenAll(ps) == a + Written(Comment(body)) + c && Kept(ps) == a + c
  {
    var ps := [Markup(a), Comment(body), Markup(c)];
    assert ps[1..] == [Comment(body), Markup(c)] && ps[1..][1..] == [Markup(c)] && [Markup(c)][1..] == [];
    assert WrittenAll([Markup(c)]) == c + [] == c && Kept([Markup(c)]) == c + [] == c;
    hide Written;
    assert Kept(ps[1..]) == [] + c == c;
  }

  lemma SectionInPieces(before: Text, comment: Text, after: Text)
    ensures Section(before + comment + after) == (CDATA_OPEN + before) + comment + (after + CDATA_CLOSE)
    ensures Section(before + after) == (CDATA_OPEN + before) + (after + CDATA_CLOSE)
  {
  }

  /** What looks like a comment inside a section is taken out of it. */
  lemma SectionLosesComment(before: Text, body: Text, after: Text)
    requires Inert(CDATA_OPEN + before) && Inert(after + CDATA_CLOSE) && Fits(Comment(body))
    ensures StripProlog(Section(before + Written(Comment(body)) + after)) == Section(before + after)
  {
    var ps := [Markup(CDATA_OPEN + before), Comment(body), Markup(after + CDATA_CLOSE)];
    ThreePieces(CDATA_OPEN + before, body, after + CDATA_CLOSE);
    SectionInPieces(before, Written(Comment(body)), after);
    hide Written;
    assert Section(before + Written(Comment(body)) + after)[0] == LT;
    PrologStripped(false, ps);
  }
}
