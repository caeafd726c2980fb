/**
 * A document laid out one tag per line, seen as its sequence of lines, and what the substitutions
 * of the repairs do to it. Every pattern of `_remove_bad_tags`, `_fill_dummy_tags` and
 * `_inject_tags` starts with `<`, and in such a document `<` starts lines only, so each pass acts
 * on each line on its own.
 */
module TagLines {
  import opened Wrappers
  import opened Text
  import opened Scanning
  import opened Substitution
  import opened OfcGrammar
  import opened InlineClosingTags
  import opened Repair
  import opened Rendering

  /** One line of a laid-out document: `<NAME>value`, `<NAME>` or `</NAME>`, then a line feed. */
  datatype TagLine = TagLine(close: bool, name: string, value: string)

  function SlashOf(close: bool): string {
    if close then "/" else ""
  }

  /** The tag that starts a line. */
  function TagOf(l: TagLine): string {
    "<" + SlashOf(l.close) + l.name + ">"
  }

  /** The text of a line, its line feed included. */
  function LineOf(l: TagLine): (r: string)
    ensures |r| == |l.name| + |l.value| + 3 + |SlashOf(l.close)| && r[|r| - 1] == '\n'
  {
    TagOf(l) + l.value + "\n"
  }

  /** A line as the renderer writes it: a valid name and a value without `<`, CR or LF. */
  predicate GoodLine(l: TagLine) {
    ValidName(l.name) && AllIn(l.value, ValueChar)
  }

  /** The text of a sequence of lines. */
  function LinesText(ls: seq<TagLine>): string {
    if ls == [] then [] else LineOf(ls[0]) + LinesText(ls[1..])
  }

  /** The lines of a tree, as Render writes them. */
  function Lines(n: Node): seq<TagLine> {
    match n
    case Content(name, value) => [TagLine(false, name, value)]
    case Aggregate(name, children) => [TagLine(false, name, "")] + AllLines(children) + [TagLine(true, name, "")]
  }

  function AllLines(nodes: seq<Node>): seq<TagLine> {
    if nodes == [] then [] else Lines(nodes[0]) + AllLines(nodes[1..])
  }

  // ---------------------------------------------------------------------------------------------
  // The lines of a rendered tree

  lemma {:induction false} LinesTextAppend(a: seq<TagLine>, b: seq<TagLine>)
    ensures LinesText(a + b) == LinesText(a) + LinesText(b)
  {
    if a == [] {
      assert a + b == b;
    } else {
      assert (a + b)[0] == a[0] && (a + b)[1..] == a[1..] + b;
      LinesTextAppend(a[1..], b);
      Assoc(LineOf(a[0]), LinesText(a[1..]), LinesText(b));
    }
  }

  lemma OneLineText(l: TagLine)
    ensures LinesText([l]) == LineOf(l)
  {
    assert [l][1..] == [];
    assert LineOf(l) + [] == LineOf(l);
  }

  /** The open line and the close line of an aggregate are the lines Render writes. */
  lemma TagLineTexts(name: string, value: string)
    ensures LineOf(TagLine(false, name, value)) == Line("<" + name + ">" + value)
    ensures LineOf(TagLine(false, name, "")) == Line("<" + name + ">")
    ensures LineOf(TagLine(true, name, "")) == Line("</" + name + ">")
  {
    assert "<" + "" == "<" && "<" + "/" == "</";
    assert "<" + name + ">" + "" == "<" + name + ">";
    assert "</" + name + ">" + "" == "</" + name + ">";
  }

  /** The text of a tree is the text of its lines. */
  lemma {:induction false} RenderLines(n: Node)
    ensures Render(n) == LinesText(Lines(n))
    decreases n, 1
  {
    match n
    case Content(name, value) =>
      TagLineTexts(name, value);
      OneLineText(TagLine(false, name, value));
    case Aggregate(name, children) =>
      var o := TagLine(false, name, "");
      var c := TagLine(true, name, "");
      TagLineTexts(name, "");
      RenderAllLines(children);
      LinesTextAppend([o] + AllLines(children), [c]);
      LinesTextAppend([o], AllLines(children));
      OneLineText(o);
      OneLineText(c);
  }

  lemma {:induction false} RenderAllLines(nodes: seq<Node>)
    ensures RenderAll(nodes) == LinesText(AllLines(nodes))
    decreases nodes, 0
  {
    if nodes != [] {
      RenderLines(nodes[0]);
      RenderAllLines(nodes[1..]);
      LinesTextAppend(Lines(nodes[0]), AllLines(nodes[1..]));
    }
  }

  /** The lines of a printable tree are good lines. */
  lemma {:induction false} PrintableLines(n: Node)
    requires Printable(n)
    ensures forall l | l in Lines(n) :: GoodLine(l)
    decreases n, 1
  {
    if n.Aggregate? {
      PrintableAllLines(n.children);
      assert AllIn("", ValueChar);
    }
  }

  lemma {:induction false} PrintableAllLines(nodes: seq<Node>)
    requires AllPrintable(nodes)
    ensures forall l | l in AllLines(nodes) :: GoodLine(l)
    decreases nodes, 0
  {
    if nodes != [] {
      PrintableLines(nodes[0]);
      PrintableAllLines(nodes[1..]);
    }
  }

  // ---------------------------------------------------------------------------------------------
  // A pass over lines that the pattern spares

  /** A good line starts with `<`, holds no other `<`, and no line feed but the last character. */
  lemma LineLtFirst(l: TagLine)
    requires GoodLine(l)
    ensures LineOf(l)[0] == '<'
    ensures forall j | 0 < j < |LineOf(l)| :: LineOf(l)[j] != '<'
    ensures forall j | 0 <= j < |LineOf(l)| - 1 :: LineOf(l)[j] != '\n'
  {
    var d := SlashOf(l.close);
    var N := l.name;
    var v := l.value;
    var L := LineOf(l);
    assert L == "<" + d + N + ">" + v + "\n";
    forall j | 0 < j < |L| ensures L[j] != '<' && (j < |L| - 1 ==> L[j] != '\n') {
      if j <= |d| {
        assert L[j] == d[j - 1];
      } else if j <= |d| + |N| {
        assert L[j] == N[j - 1 - |d|];
      } else if |d| + |N| + 1 < j < |L| - 1 {
        assert L[j] == v[j - 2 - |d| - |N|];
      }
    }
  }

  /** A good line where the pattern does not match is copied whole: no other match starts in it. */
  lemma LineKept(p: Pattern, l: TagLine, b: string)
    requires StartsWithLt(p) && GoodLine(l) && Matcher(p)(LineOf(l) + b).None?
    ensures Rewrite(LineOf(l) + b, p) == LineOf(l) + Rewrite(b, p)
  {
    var L := LineOf(l);
    LineLtFirst(l);
    forall j | 0 <= j < |L| ensures Matcher(p)((L + b)[j..]).None? {
      if j > 0 {
        assert (L + b)[j..][0] == L[j];
        NoHitWithoutLt(p, (L + b)[j..]);
      }
    }
    ScanSkip(L, b, Matcher(p));
  }

  /** A literal of the form `<NAME>` or `</NAME>`. */
  predicate IsTagLiteral(t: string) {
    |t| >= 3 && t[0] == '<' && t[|t| - 1] == '>' &&
    ValidName(t[1 + (if t[1] == '/' then 1 else 0)..|t| - 1])
  }

  /** The lines that pattern `p` spares, whatever follows them. */
  predicate Spared(p: Pattern, l: TagLine) {
    match p
    case InlineClose => false
    case BadTag(n) => ValidName(n) && l.name != n
    case BadTagWithValue(n) => ValidName(n) && l.name != n
    case EmptyTag(n) =>
      ValidName(n) && (l.close || l.name != n || (l.value != [] && (IsWordChar(l.value[0]) || l.value[0] == '+')))
    case Literal(t, _) => IsTagLiteral(t) && t != TagOf(l)
  }

  /** The text of a line followed by more, regrouped as the repair lemmas state it. */
  lemma LineRegroup(l: TagLine, b: string)
    ensures LineOf(l) + b == "<" + SlashOf(l.close) + l.name + ">" + l.value + ("\n" + b)
  {
    Assoc(TagOf(l) + l.value, "\n", b);
  }

  /** A literal tag is `<` + an optional slash + a name + `>`. */
  lemma TagLiteralParts(t: string)
    requires IsTagLiteral(t)
    ensures var e := if t[1] == '/' then "/" else "";
      t == "<" + e + t[1 + |e|..|t| - 1] + ">"
  {
  }

  /** A pattern does not match at the start of a line that it spares. */
  lemma SparedNoHit(p: Pattern, l: TagLine, b: string)
    requires GoodLine(l) && Spared(p, l)
    ensures Matcher(p)(LineOf(l) + b).None?
  {
    var d := SlashOf(l.close);
    LineRegroup(l, b);
    match p
    case BadTag(n) =>
      BadTagLine(n, d, l.name, l.value, "\n" + b);
    case BadTagWithValue(n) =>
      BadTagLine(n, d, l.name, l.value, "\n" + b);
    case EmptyTag(n) =>
      EmptyTagLine(n, d, l.name, l.value, "\n" + b);
    case Literal(t, r) =>
      var e := if t[1] == '/' then "/" else "";
      TagLiteralParts(t);
      LiteralTagLine(e, t[1 + |e|..|t| - 1], r, d, l.name, l.value, "\n" + b);
  }

  /** A pass over lines that the pattern spares copies them. */
  lemma {:induction false} LinesKept(p: Pattern, ls: seq<TagLine>, b: string)
    requires StartsWithLt(p) && forall l | l in ls :: GoodLine(l) && Spared(p, l)
    ensures Rewrite(LinesText(ls) + b, p) == LinesText(ls) + Rewrite(b, p)
  {
    if ls == [] {
      assert LinesText(ls) + b == b;
    } else {
      var l := ls[0];
      var rest := LinesText(ls[1..]);
      Assoc(LineOf(l), rest, b);
      SparedNoHit(p, l, rest + b);
      LineKept(p, l, rest + b);
      LinesKept(p, ls[1..], b);
      Assoc(LineOf(l), rest, Rewrite(b, p));
    }
  }

  /** A text of lines that the pattern spares is left as it is. */
  lemma LinesUnchanged(p: Pattern, ls: seq<TagLine>)
    requires StartsWithLt(p) && forall l | l in ls :: GoodLine(l) && Spared(p, l)
    ensures Rewrite(LinesText(ls), p) == LinesText(ls)
  {
    LinesKept(p, ls, []);
    assert LinesText(ls) + [] == LinesText(ls);
  }

  // ---------------------------------------------------------------------------------------------
  // remove_inline_closing_tags over good lines

  /** A line whose only `<` is its first character has no closing tag after a word character. */
  lemma FixLineLtFirst(t: string)
    requires forall j | 0 < j < |t| :: t[j] != '<'
    ensures FixLine(t) == t
  {
    match LastCloseBelow(t, |t|)
    case None =>
    case Some(q) =>
      assert q == 0;
  }

  /** The substitution leaves a good line as it is. */
  lemma InlineLineAlone(l: TagLine)
    requires GoodLine(l)
    ensures RemoveInlineClosingTags(LineOf(l)) == LineOf(l)
  {
    var L := LineOf(l);
    var k := |L| - 1;
    LineLtFirst(l);
    RunEndIs(L, 0, Dot, k);
    FixLineLtFirst(L[..k]);
    assert L[k + 1..] == [] && LineByLine(L[k + 1..]) == [];
    assert L[..k] + "\n" + [] == L;
    RemoveInlineByLines(L);
  }

  /** The substitution leaves a good line as it is, whatever follows it. */
  lemma InlineLineKept(l: TagLine, b: string)
    requires GoodLine(l)
    ensures Rewrite(LineOf(l) + b, InlineClose) == LineOf(l) + Rewrite(b, InlineClose)
  {
    InlineLineAlone(l);
    RemoveInlineSplitsAtLines(LineOf(l), b);
  }

  lemma {:induction false} InlineLinesKept(ls: seq<TagLine>)
    requires forall l | l in ls :: GoodLine(l)
    ensures RemoveInlineClosingTags(LinesText(ls)) == LinesText(ls)
  {
    if ls != [] {
      InlineLineKept(ls[0], LinesText(ls[1..]));
      InlineLinesKept(ls[1..]);
    }
  }

  /** A printable tree, written one tag per line, has no inline closing tag to remove. */
  lemma RemoveInlineRendered(n: Node)
    requires Printable(n)
    ensures RemoveInlineClosingTags(Render(n)) == Render(n)
  {
    RenderLines(n);
    PrintableLines(n);
    InlineLinesKept(Lines(n));
  }

  // ---------------------------------------------------------------------------------------------
  // _remove_bad_tags and _fill_dummy_tags over a rendered tree

  /** A printable tree without a TRNRS or CLTID node is left as it is by _remove_bad_tags. */
  lemma RemoveBadTagsRendered(n: Node)
    requires Printable(n)
    requires forall l | l in Lines(n) :: l.name != "TRNRS" && l.name != "CLTID"
    ensures RemoveBadTags(Render(n)) == Render(n)
  {
    RenderLines(n);
    PrintableLines(n);
    assert ValidName("TRNRS") && ValidName("CLTID");
    LinesUnchanged(BadTag("TRNRS"), Lines(n));
    LinesUnchanged(BadTagWithValue("CLTID"), Lines(n));
  }

  /** A pass of `(<NAME>)[^\w+]` leaves lines as they are when each NAME line is a value that starts with a word character or `+`. */
  lemma FillPassKept(ls: seq<TagLine>, name: string)
    requires ValidName(name)
    requires forall l | l in ls :: GoodLine(l)
    requires forall l | l in ls && l.name == name :: l.close || (l.value != [] && (IsWordChar(l.value[0]) || l.value[0] == '+'))
    ensures Rewrite(LinesText(ls), EmptyTag(name)) == LinesText(ls)
  {
    LinesUnchanged(EmptyTag(name), ls);
  }

  /**
   * A printable tree in which every FITID and CHKNUM node is a content element whose value starts
   * with a word character or `+` is left as it is by _fill_dummy_tags.
   */
  lemma FillDummyTagsRendered(n: Node)
    requires Printable(n)
    requires forall l | l in Lines(n) && (l.name == "FITID" || l.name == "CHKNUM") ::
      l.close || (l.value != [] && (IsWordChar(l.value[0]) || l.value[0] == '+'))
    ensures FillDummyTags(Render(n)) == Render(n)
  {
    RenderLines(n);
    PrintableLines(n);
    assert ValidName("FITID") && ValidName("CHKNUM");
    FillPassKept(Lines(n), "FITID");
    FillPassKept(Lines(n), "CHKNUM");
  }

  /** `(<NAME>)[^\w+]` on an open line of NAME without a value: the line gets the value `0`. */
  lemma EmptyLineFilled(name: string, b: string)
    ensures Rewrite(LineOf(TagLine(false, name, "")) + b, EmptyTag(name)) ==
      LineOf(TagLine(false, name, "0")) + Rewrite(b, EmptyTag(name))
  {
    var u := "<" + name + ">" + ['\n'] + b;
    var x := "<" + name + ">0\n";
    var r := Rewrite(b, EmptyTag(name));
    EmptyLineTexts(name);
    assert [] + u == u;
    EmptyTagFilled([], name, '\n', b);
    assert [] + (x + r) == x + r;
  }

  /** The texts of an open line without a value and of one with the value `0`. */
  lemma EmptyLineTexts(name: string)
    ensures LineOf(TagLine(false, name, "")) == "<" + name + ">" + ['\n']
    ensures LineOf(TagLine(false, name, "0")) == "<" + name + ">0\n"
  {
    var t := "<" + name + ">";
    assert "<" + SlashOf(false) == "<";
    assert TagOf(TagLine(false, name, "0")) == t;
    Assoc(t, "0", "\n");
    assert "0" + "\n" == "0\n";
    Assoc("<" + name, ">", "0\n");
  }

  /**
   * A pass of `(<NAME>)[^\w+]` over lines with one open line of NAME without a value, among lines
   * that the pattern spares: that line, and only it, gets the value `0`.
   */
  lemma FillEmptyLine(ls1: seq<TagLine>, name: string, ls2: seq<TagLine>)
    requires ValidName(name)
    requires forall l | l in ls1 + ls2 :: GoodLine(l) && (l.close || l.name != name)
    ensures Rewrite(LinesText(ls1 + [TagLine(false, name, "")] + ls2), EmptyTag(name)) ==
      LinesText(ls1 + [TagLine(false, name, "0")] + ls2)
  {
    var p := EmptyTag(name);
    var e := TagLine(false, name, "");
    var f := TagLine(false, name, "0");
    var b := LinesText(ls2);
    assert forall l | l in ls1 :: l in ls1 + ls2;
    assert forall l | l in ls2 :: l in ls1 + ls2;
    LinesTextAppend(ls1 + [e], ls2);
    LinesTextAppend(ls1, [e]);
    OneLineText(e);
    LinesTextAppend(ls1 + [f], ls2);
    LinesTextAppend(ls1, [f]);
    OneLineText(f);
    Assoc(LinesText(ls1), LineOf(e), b);
    Assoc(LinesText(ls1), LineOf(f), b);
    LinesKept(p, ls1, LineOf(e) + b);
    EmptyLineFilled(name, b);
    LinesUnchanged(p, ls2);
  }

  // ---------------------------------------------------------------------------------------------
  // _inject_tags over a rendered OFC document

  /** A tag names its line: its slash and its name. */
  lemma TagOfParts(l: TagLine)
    requires ValidName(l.name)
    ensures (TagOf(l)[1] == '/') == l.close
    ensures TagOf(l)[1 + |SlashOf(l.close)|..|TagOf(l)| - 1] == l.name
  {
    var T := TagOf(l);
    var d := SlashOf(l.close);
    assert T == "<" + d + l.name + ">";
    if !l.close {
      assert T[1] == l.name[0];
    }
    assert T[1 + |d|..|T| - 1] == l.name;
  }

  /** Two lines with the same tag are both open or both close lines, of the same name. */
  lemma TagOfSame(l: TagLine, m: TagLine)
    requires ValidName(l.name) && ValidName(m.name) && TagOf(l) == TagOf(m)
    ensures l.close == m.close && l.name == m.name
  {
    TagOfParts(l);
    TagOfParts(m);
  }

  /** Text without `<` is copied by a pattern whose matches start with `<`. */
  lemma CopiedWithoutLt(a: string, b: string, p: Pattern)
    requires StartsWithLt(p) && forall m | 0 <= m < |a| :: a[m] != '<'
    ensures Rewrite(a + b, p) == a + Rewrite(b, p)
  {
    forall j | 0 <= j < |a| ensures Matcher(p)((a + b)[j..]).None? {
      assert (a + b)[j..][0] == a[j];
      NoHitWithoutLt(p, (a + b)[j..]);
    }
    ScanSkip(a, b, Matcher(p));
  }

  /** At the start of a good line, `str.replace` of its tag finds the tag. */
  lemma MatchedLineHit(l: TagLine, r: string, b: string)
    ensures Matcher(Literal(TagOf(l), r))(LineOf(l) + b) == Some(Hit(|TagOf(l)|, r))
    ensures (LineOf(l) + b)[|TagOf(l)|..] == (l.value + "\n") + b
  {
    var T := TagOf(l);
    var u := LineOf(l) + b;
    assert u == T + ((l.value + "\n") + b);
    assert u[..|T|] == T;
    OccursAtSlice(u, T, 0);
  }

  /** `str.replace` of the tag of a good line replaces that tag and copies the rest of the line. */
  lemma MatchedLine(l: TagLine, r: string, b: string)
    requires GoodLine(l)
    ensures Rewrite(LineOf(l) + b, Literal(TagOf(l), r)) == r + ((l.value + "\n") + Rewrite(b, Literal(TagOf(l), r)))
  {
    var p := Literal(TagOf(l), r);
    var a := l.value + "\n";
    MatchedLineHit(l, r, b);
    assert Rewrite(LineOf(l) + b, p) == r + Rewrite(a + b, p);
    forall m | 0 <= m < |a| ensures a[m] != '<' {
      if m < |l.value| {
        assert a[m] == l.value[m];
      }
    }
    CopiedWithoutLt(a, b, p);
  }

  /** The lines of the text `_inject_tags` puts in place of `<OFC>`. */
  function WrapperLines(): seq<TagLine> {
    [TagLine(false, "OFC", ""), TagLine(false, "ACCTSTMT", ""), TagLine(false, "ACCTFROM", ""),
     TagLine(false, "BANKID", "0"), TagLine(false, "ACCTID", "0"), TagLine(false, "ACCTTYPE", "0"),
     TagLine(true, "ACCTFROM", "")]
  }

  /** The first line of a suffix of lines. */
  lemma LinesTextFrom(ls: seq<TagLine>, k: nat)
    requires k < |ls|
    ensures LinesText(ls[k..]) == LineOf(ls[k]) + LinesText(ls[k + 1..])
  {
    assert ls[k..][1..] == ls[k + 1..];
  }

  /** The texts of the seven lines of the wrapper. */
  lemma WrapperLineTexts()
    ensures LineOf(WrapperLines()[0]) == "<OFC>\n" && LineOf(WrapperLines()[1]) == "<ACCTSTMT>\n"
    ensures LineOf(WrapperLines()[2]) == "<ACCTFROM>\n" && LineOf(WrapperLines()[3]) == "<BANKID>0\n"
    ensures LineOf(WrapperLines()[4]) == "<ACCTID>0\n" && LineOf(WrapperLines()[5]) == "<ACCTTYPE>0\n"
    ensures LineOf(WrapperLines()[6]) == "</ACCTFROM>\n"
  {
  }

  lemma WrapperIsLines()
    ensures LinesText(WrapperLines()) == Wrapper
  {
    var ls := WrapperLines();
    var t0, t1, t2, t3 := LineOf(ls[0]), LineOf(ls[1]), LineOf(ls[2]), LineOf(ls[3]);
    var t4, t5, t6 := LineOf(ls[4]), LineOf(ls[5]), LineOf(ls[6]);
    LinesTextFrom(ls, 0);
    LinesTextFrom(ls, 1);
    LinesTextFrom(ls, 2);
    LinesTextFrom(ls, 3);
    LinesTextFrom(ls, 4);
    LinesTextFrom(ls, 5);
    LinesTextFrom(ls, 6);
    assert ls[7..] == [] && ls[0..] == ls;
    assert t6 + [] == t6;
    Assoc(t0, t1, t2 + (t3 + (t4 + (t5 + t6))));
    Assoc(t0 + t1, t2, t3 + (t4 + (t5 + t6)));
    Assoc(t0 + t1 + t2, t3, t4 + (t5 + t6));
    Assoc(t0 + t1 + t2 + t3, t4, t5 + t6);
    Assoc(t0 + t1 + t2 + t3 + t4, t5, t6);
    WrapperLineTexts();
  }

  /** The open and the close line of the OFC aggregate. */
  function OfcOpen(): TagLine {
    TagLine(false, "OFC", "")
  }

  function OfcClose(): TagLine {
    TagLine(true, "OFC", "")
  }

  lemma OfcTags()
    ensures TagOf(OfcOpen()) == "<OFC>" && TagOf(OfcClose()) == "</OFC>"
    ensures GoodLine(OfcOpen()) && GoodLine(OfcClose())
    ensures IsTagLiteral("<OFC>") && IsTagLiteral("</OFC>")
  {
    assert AllIn("", ValueChar);
  }

  /** Both literals of _inject_tags spare every good line that is not an OFC line. */
  lemma OfcLiteralsSpare(ls: seq<TagLine>, r: string, r2: string)
    requires forall l | l in ls :: GoodLine(l) && l.name != "OFC"
    ensures forall l | l in ls :: Spared(Literal("<OFC>", r), l) && Spared(Literal("</OFC>", r2), l)
  {
    OfcTags();
    forall l | l in ls ensures "<OFC>" != TagOf(l) && "</OFC>" != TagOf(l) {
      if "<OFC>" == TagOf(l) {
        TagOfSame(l, OfcOpen());
      }
      if "</OFC>" == TagOf(l) {
        TagOfSame(l, OfcClose());
      }
    }
  }

  /** The first pass of _inject_tags over an OFC document: its `<OFC>` is replaced by `w`. */
  lemma OpenOfcReplaced(ls: seq<TagLine>, w: string)
    requires forall l | l in ls :: GoodLine(l) && l.name != "OFC"
    ensures Rewrite(LineOf(OfcOpen()) + LinesText(ls + [OfcClose()]), Literal("<OFC>", w)) ==
      w + ("\n" + LinesText(ls + [OfcClose()]))
  {
    var p := Literal("<OFC>", w);
    OfcTags();
    MatchedLine(OfcOpen(), w, LinesText(ls + [OfcClose()]));
    assert "" + "\n" == "\n";
    OfcLiteralsSpare(ls, w, CloseWrapper);
    LinesUnchanged(p, ls + [OfcClose()]);
  }

  /** `</OFC>` spares good lines other than the close line of OFC. */
  lemma CloseOfcSpares(ls: seq<TagLine>, cw: string)
    requires forall l | l in ls :: GoodLine(l) && (l == OfcOpen() || l.name != "OFC")
    ensures forall l | l in ls :: Spared(Literal("</OFC>", cw), l)
  {
    OfcTags();
    forall l | l in ls ensures "</OFC>" != TagOf(l) {
      if "</OFC>" == TagOf(l) {
        TagOfSame(l, OfcClose());
      }
    }
  }

  /** The second pass of _inject_tags: `</OFC>` closing the document is replaced by `cw`. */
  lemma CloseOfcReplaced(wl: seq<TagLine>, ls: seq<TagLine>, cw: string)
    requires forall l | l in wl :: GoodLine(l) && (l == OfcOpen() || l.name != "OFC")
    requires forall l | l in ls :: GoodLine(l) && l.name != "OFC"
    ensures Rewrite(LinesText(wl) + ("\n" + LinesText(ls + [OfcClose()])), Literal("</OFC>", cw)) ==
      LinesText(wl) + ("\n" + (LinesText(ls) + (cw + "\n")))
  {
    var p := Literal("</OFC>", cw);
    var c := OfcClose();
    OfcTags();
    CloseOfcSpares(wl, cw);
    LinesKept(p, wl, "\n" + LinesText(ls + [c]));
    CopiedWithoutLt("\n", LinesText(ls + [c]), p);
    LinesTextAppend(ls, [c]);
    OneLineText(c);
    CloseOfcSpares(ls, cw);
    LinesKept(p, ls, LineOf(c));
    MatchedLine(c, cw, []);
    assert LineOf(c) + [] == LineOf(c) && "" + "\n" == "\n" && "\n" + [] == "\n";
  }

  /** The tag names of the wrapper are names of the grammar. */
  lemma WrapperNamesValid()
    ensures ValidName("OFC") && ValidName("ACCTSTMT") && ValidName("ACCTFROM")
    ensures ValidName("BANKID") && ValidName("ACCTID") && ValidName("ACCTTYPE")
  {
  }

  /** The tag names the repairs look for are names of the grammar. */
  lemma RepairNamesValid()
    ensures ValidName("TRNRS") && ValidName("CLTID") && ValidName("FITID") && ValidName("CHKNUM")
  {
  }

  /** The lines of the wrapper are good, and only the first is an OFC line. */
  lemma WrapperLinesGood()
    ensures forall l | l in WrapperLines() :: GoodLine(l) && (l == OfcOpen() || l.name != "OFC")
  {
    assert AllIn("", ValueChar) && AllIn("0", ValueChar);
    WrapperNamesValid();
  }

  /** Below the open line of OFC, a document of good lines has no `<OFC>` anywhere. */
  lemma OfcOnlyOpen(ls: seq<TagLine>, R: string)
    requires forall l | l in ls :: GoodLine(l) && l.name != "OFC"
    requires R == LinesText(ls + [OfcClose()])
    ensures forall j | 0 <= j <= |R| :: !OccursAt(R, "<OFC>", j)
  {
    var p := Literal("<OFC>", "<OFC><OFC>");
    OfcTags();
    OfcLiteralsSpare(ls, "<OFC><OFC>", "");
    LinesUnchanged(p, ls + [OfcClose()]);
    RewriteUnchangedIff(R, p);
    LiteralNowhere(R, "<OFC>", "<OFC><OFC>");
  }

  /** A literal that matches nowhere in a text does not occur in it. */
  lemma LiteralNowhere(s: string, t: string, r: string)
    requires t != [] && forall j | 0 <= j < |s| :: Matcher(Literal(t, r))(s[j..]).None?
    ensures forall j | 0 <= j <= |s| :: !OccursAt(s, t, j)
  {
    forall j | 0 <= j <= |s| ensures !OccursAt(s, t, j) {
      if j < |s| {
        assert LiteralHit(t, r, s[j..]).None?;
        OccursDrop(s, t, j);
      }
    }
  }

  /** After the line `<OFC>`, the injection pattern matches at the start exactly when the next line opens ACCTSTMT. */
  lemma AcctStmtAtOpen(R: string)
    requires |R| > 0 && R[0] == '<'
    ensures AcctStmtAt("<OFC>\n" + R) <==> OccursAt(R, "<ACCTSTMT>", 0)
  {
    var T := "<OFC>\n" + R;
    assert T[5] == '\n' && T[6] == R[0];
    assert RunEnd(T, 5, WordChar) == 5;
    assert RunEnd(T, 6, RegexSpace) == 6;
    assert RunEnd(T, 5, RegexSpace) == 6;
    assert OccursAt(T, "<OFC>", 0);
    assert forall m | 0 <= m < |R| :: T[6 + m] == R[m];
  }

  /** A good line does not start with the tag of another line. */
  lemma OtherTagAbsent(l: TagLine, m: TagLine, b: string)
    requires GoodLine(l) && ValidName(m.name) && (l.close != m.close || l.name != m.name)
    ensures !OccursAt(LineOf(l) + b, TagOf(m), 0)
  {
    var t := TagOf(m);
    TagOfParts(m);
    if TagOf(l) == t {
      TagOfSame(l, m);
    }
    SparedNoHit(Literal(t, ""), l, b);
  }

  /** A good line other than the open line of ACCTSTMT does not start with `<ACCTSTMT>`. */
  lemma NotAcctStmtLine(l: TagLine, b: string)
    requires GoodLine(l) && (l.close || l.name != "ACCTSTMT")
    ensures !OccursAt(LineOf(l) + b, "<ACCTSTMT>", 0)
  {
    var a := TagLine(false, "ACCTSTMT", "");
    WrapperNamesValid();
    assert TagOf(a) == "<ACCTSTMT>";
    OtherTagAbsent(l, a, b);
  }

  /** An occurrence past a prefix is an occurrence in what follows the prefix. */
  lemma OccursPast(a: string, R: string, w: string, j: nat)
    requires |a| <= j && OccursAt(a + R, w, j)
    ensures OccursAt(R, w, j - |a|)
  {
    forall m | 0 <= m < |w| ensures R[j - |a| + m] == w[m] {
      assert (a + R)[j + m] == R[j - |a| + m];
    }
  }

  /**
   * After the line `<OFC>`, the injection pattern can only match at the start, and only when the
   * next line opens ACCTSTMT.
   */
  lemma NoAcctStmtAfterOpen(R: string)
    requires |R| > 0 && R[0] == '<' && !OccursAt(R, "<ACCTSTMT>", 0)
    requires forall j | 0 <= j <= |R| :: !OccursAt(R, "<OFC>", j)
    ensures !HasAcctStmt("<OFC>\n" + R)
  {
    var o := "<OFC>\n";
    var T := o + R;
    AcctStmtAtOpen(R);
    forall j | 0 <= j < |T| ensures !AcctStmtAt(T[j..]) {
      if AcctStmtAt(T[j..]) {
        AcctStmtOccurs(T, j);
        if 0 < j < 6 {
          NoOccurrenceAt(T, "<OFC>", j);
        } else if j >= 6 {
          OccursPast(o, R, "<OFC>", j);
        }
      }
    }
  }

  /** An OFC aggregate whose first child is not ACCTSTMT has no match of the injection pattern. */
  lemma NoAcctStmtRendered(ls: seq<TagLine>)
    requires forall l | l in ls :: GoodLine(l) && l.name != "OFC"
    requires ls == [] || ls[0].name != "ACCTSTMT"
    ensures !HasAcctStmt(LineOf(OfcOpen()) + LinesText(ls + [OfcClose()]))
  {
    var c := OfcClose();
    var R := LinesText(ls + [c]);
    OfcTags();
    assert LineOf(OfcOpen()) == "<OFC>\n";
    var l0 := (ls + [c])[0];
    var rest := LinesText((ls + [c])[1..]);
    assert l0 in ls + [c];
    assert R == LineOf(l0) + rest;
    LineLtFirst(l0);
    assert R[0] == '<';
    NotAcctStmtLine(l0, rest);
    assert !OccursAt(R, "<ACCTSTMT>", 0);
    OfcOnlyOpen(ls, R);
    NoAcctStmtAfterOpen(R);
  }

  /** The text of an OFC aggregate: its open line, then the lines of its children and its close line. */
  lemma OfcRenderedLines(kids: seq<Node>)
    ensures Render(Aggregate("OFC", kids)) == LineOf(OfcOpen()) + LinesText(AllLines(kids) + [OfcClose()])
    ensures Lines(Aggregate("OFC", kids)) == [OfcOpen()] + AllLines(kids) + [OfcClose()]
  {
    var ls := AllLines(kids);
    RenderLines(Aggregate("OFC", kids));
    assert [OfcOpen()] + ls + [OfcClose()] == [OfcOpen()] + (ls + [OfcClose()]);
    LinesTextAppend([OfcOpen()], ls + [OfcClose()]);
    OneLineText(OfcOpen());
  }

  /** _inject_tags on the lines of an OFC document whose first child does not open ACCTSTMT. */
  lemma InjectTagsLines(ls: seq<TagLine>)
    requires forall l | l in ls :: GoodLine(l) && l.name != "OFC"
    requires ls == [] || ls[0].name != "ACCTSTMT"
    ensures InjectTags(LineOf(OfcOpen()) + LinesText(ls + [OfcClose()])) ==
      Some(Wrapper + ("\n" + (LinesText(ls) + (CloseWrapper + "\n"))))
  {
    NoAcctStmtRendered(ls);
    OpenOfcReplaced(ls, Wrapper);
    WrapperLinesGood();
    CloseOfcReplaced(WrapperLines(), ls, CloseWrapper);
    WrapperIsLines();
  }

  /**
   * _inject_tags on a printable OFC document whose first child is not ACCTSTMT, and with no other
   * OFC tag: the wrapper is put in place of `<OFC>`, and `</ACCTSTMT>` before `</OFC>`.
   */
  lemma InjectTagsRendered(kids: seq<Node>)
    requires Printable(Aggregate("OFC", kids))
    requires forall l | l in AllLines(kids) :: l.name != "OFC"
    requires kids[0].name != "ACCTSTMT"
    ensures InjectTags(Render(Aggregate("OFC", kids))) ==
      Some(Wrapper + ("\n" + (RenderAll(kids) + (CloseWrapper + "\n"))))
  {
    var n := Aggregate("OFC", kids);
    var ls := AllLines(kids);
    OfcRenderedLines(kids);
    PrintableLines(n);
    assert forall l | l in ls :: l in Lines(n);
    assert ls[0] == Lines(kids[0])[0];
    InjectTagsLines(ls);
    RenderAllLines(kids);
  }
}
