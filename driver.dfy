/**
 * OfcParser.parse: inline closing tags are removed, the grammar is tried once, and when it fails
 * the repaired text is tried once more.
 */
module OfcParser {
  import opened Wrappers
  import opened Text
  import opened Substitution
  import opened OfcGrammar
  import opened InlineClosingTags
  import opened Repair
  import opened Rendering
  import opened TagLines

  /** Why parse raises. */
  datatype ParseError =
    | SyntaxError  // the grammar rejects the repaired text (ParseException)
    | NotText      // _inject_tags gave None, which the grammar cannot be run on

  /** The grammar's two attempts: on the normalised text, then on its repair. */
  function Parse(s: string): (r: Result<Node, ParseError>)
    ensures r.Ok? ==> r.value.Aggregate? && ValidNode(r.value)
    ensures ParseString(RemoveInlineClosingTags(s)).Some? ==>
      r == Ok(ParseString(RemoveInlineClosingTags(s)).value)
    ensures ParseString(RemoveInlineClosingTags(s)).None? && FixOfc(RemoveInlineClosingTags(s)).Some? ==>
      (r == Err(SyntaxError) <==> ParseString(FixOfc(RemoveInlineClosingTags(s)).value).None?)
    ensures (ParseString(RemoveInlineClosingTags(s)).None? && FixOfc(RemoveInlineClosingTags(s)).Some? &&
             ParseString(FixOfc(RemoveInlineClosingTags(s)).value).Some?) ==>
      r == Ok(ParseString(FixOfc(RemoveInlineClosingTags(s)).value).value)
    ensures r == Err(NotText) <==>
      ParseString(RemoveInlineClosingTags(s)).None? &&
      HasAcctStmt(FillDummyTags(RemoveBadTags(RemoveInlineClosingTags(s))))
  {
    var t := RemoveInlineClosingTags(s);
    match ParseString(t)
    case Some(n) => Ok(n)
    case None =>
      match FixOfc(t)
      case None => Err(NotText)
      case Some(f) =>
        match ParseString(f)
        case Some(n) => Ok(n)
        case None => Err(SyntaxError)
  }

  /** The two attempts with the injection as evidently intended: a failure is always a syntax error. */
  function ParseIntended(s: string): (r: Result<Node, ParseError>)
    ensures r.Ok? ==> r.value.Aggregate? && ValidNode(r.value)
    ensures r != Err(NotText)
    ensures Parse(s) != Err(NotText) ==> r == Parse(s)
  {
    var t := RemoveInlineClosingTags(s);
    match ParseString(t)
    case Some(n) => Ok(n)
    case None =>
      match ParseString(FixOfcIntended(t))
      case Some(n) => Ok(n)
      case None => Err(SyntaxError)
  }

  /** A printable aggregate, written one tag per line, is parsed back by the first attempt. */
  lemma ParseRendered(n: Node)
    requires n.Aggregate? && Printable(n)
    ensures Parse(Render(n)) == Ok(n) && ParseIntended(Render(n)) == Ok(n)
  {
    RemoveInlineRendered(n);
    ParseStringRendered(n, []);
    assert Render(n) + [] == Render(n);
  }

  /** A text without `<` is left as it is by every repair, and both attempts reject it. */
  lemma ParseWithoutTags(s: string)
    requires forall m | 0 <= m < |s| :: s[m] != '<'
    ensures Parse(s) == Err(SyntaxError) && ParseIntended(s) == Err(SyntaxError)
  {
    assert RemoveInlineClosingTags(s) == s by {
      NoClosingTagUnchanged(s);
    }
    assert ParseString(s).None? by {
      NoOpenTagAtText(s, 0);
    }
    FixOfcWithoutLt(s);
  }

  /** Every repair leaves a text without `<` as it is. */
  lemma FixOfcWithoutLt(s: string)
    requires forall m | 0 <= m < |s| :: s[m] != '<'
    ensures FixOfc(s) == Some(s) && FixOfcIntended(s) == s
  {
    assert RemoveBadTags(s) == s by {
      RewriteWithoutLt(s, BadTag("TRNRS"));
      RewriteWithoutLt(s, BadTagWithValue("CLTID"));
    }
    assert FillDummyTags(s) == s by {
      RewriteWithoutLt(s, EmptyTag("FITID"));
      RewriteWithoutLt(s, EmptyTag("CHKNUM"));
    }
    assert InjectTags(s) == Some(s) by {
      forall k: nat | k <= |s| ensures !OccursAt(s, "<OFC>", k) && !OccursAt(s, "</OFC>", k) {
        NoOccurrenceAt(s, "<OFC>", k);
        NoOccurrenceAt(s, "</OFC>", k);
      }
      InjectTagsNoOfc(s);
    }
  }

  // ---------------------------------------------------------------------------------------------
  // The missing `else` of _inject_tags

  /** An OFC document whose ACCTSTMT holds a FITID without a value, one tag per line. */
  function MissingValueLines(): seq<TagLine> {
    [OfcOpen(), TagLine(false, "ACCTSTMT", ""), TagLine(false, "FITID", ""), TagLine(true, "ACCTSTMT", ""), OfcClose()]
  }

  /** The document once its FITID has the value `0`. */
  function FilledTree(): Node {
    Aggregate("OFC", [Aggregate("ACCTSTMT", [Content("FITID", "0")])])
  }

  lemma MissingValueLinesGood()
    ensures forall l | l in MissingValueLines() :: GoodLine(l) && l.name != "TRNRS" && l.name != "CLTID"
  {
    assert ValidName("OFC") && ValidName("ACCTSTMT") && ValidName("FITID");
    assert AllIn("", ValueChar);
  }

  /** The document's text. */
  const MissingValueInput := "<OFC>\n" + ("<ACCTSTMT>\n" + ("<FITID>\n" + ("</ACCTSTMT>\n" + "</OFC>\n")))

  lemma MissingValueLineTexts()
    ensures LineOf(MissingValueLines()[0]) == "<OFC>\n" && LineOf(MissingValueLines()[1]) == "<ACCTSTMT>\n"
    ensures LineOf(MissingValueLines()[2]) == "<FITID>\n" && LineOf(MissingValueLines()[3]) == "</ACCTSTMT>\n"
    ensures LineOf(MissingValueLines()[4]) == "</OFC>\n"
  {
  }

  lemma MissingValueText()
    ensures LinesText(MissingValueLines()) == MissingValueInput
  {
    var ls := MissingValueLines();
    LinesTextFrom(ls, 0);
    LinesTextFrom(ls, 1);
    LinesTextFrom(ls, 2);
    LinesTextFrom(ls, 3);
    LinesTextFrom(ls, 4);
    assert ls[5..] == [] && ls[0..] == ls;
    assert LineOf(ls[4]) + [] == LineOf(ls[4]);
    MissingValueLineTexts();
  }

  /** The document's lines, each spelt as the grammar's open tag. */
  lemma MissingValueSpelled()
    ensures MissingValueInput ==
      ("<" + "OFC" + ">" + "\n") + (("<" + "ACCTSTMT" + ">" + "\n") + (("<" + "FITID" + ">" + "\n") + ("</" + "ACCTSTMT>\n</OFC>\n")))
  {
    OpenLinesSpelled();
  }

  lemma OpenLinesSpelled()
    ensures "<" + "OFC" + ">" + "\n" == "<OFC>\n"
    ensures "<" + "ACCTSTMT" + ">" + "\n" == "<ACCTSTMT>\n"
    ensures "<" + "FITID" + ">" + "\n" == "<FITID>\n"
    ensures "</" + "ACCTSTMT>\n</OFC>\n" == "</ACCTSTMT>\n" + "</OFC>\n"
  {
  }

  /** The grammar rejects the document: FITID has no value and no child, so no aggregate above it closes. */
  lemma MissingValueRejected()
    ensures ParseString(MissingValueInput).None?
  {
    MissingValueSpelled();
    assert ValidName("OFC") && ValidName("ACCTSTMT") && ValidName("FITID");
    BareTagDocument("OFC", "ACCTSTMT", "FITID", "ACCTSTMT>\n</OFC>\n");
  }

  /** The lines of the document once its FITID has the value `0`. */
  function FilledLines(): seq<TagLine> {
    [OfcOpen(), TagLine(false, "ACCTSTMT", ""), TagLine(false, "FITID", "0"), TagLine(true, "ACCTSTMT", ""), OfcClose()]
  }

  lemma FilledTreeLines()
    ensures Render(FilledTree()) == LinesText(FilledLines())
  {
    RenderLines(FilledTree());
    assert Lines(FilledTree()) == FilledLines();
  }

  /** _remove_bad_tags leaves the document as it is. */
  lemma MissingValueNoBadTags()
    ensures RemoveBadTags(LinesText(MissingValueLines())) == LinesText(MissingValueLines())
  {
    var ls := MissingValueLines();
    MissingValueLinesGood();
    RepairNamesValid();
    LinesUnchanged(BadTag("TRNRS"), ls);
    LinesUnchanged(BadTagWithValue("CLTID"), ls);
  }

  /** The FITID pass of _fill_dummy_tags gives the FITID the value `0`. */
  lemma MissingValueFitidFilled()
    ensures Rewrite(LinesText(MissingValueLines()), EmptyTag("FITID")) == LinesText(FilledLines())
  {
    var ls := MissingValueLines();
    var o, a, c, z := ls[0], ls[1], ls[3], ls[4];
    MissingValueLinesGood();
    assert ls == [o, a] + [TagLine(false, "FITID", "")] + [c, z];
    assert FilledLines() == [o, a] + [TagLine(false, "FITID", "0")] + [c, z];
    assert forall l | l in [o, a] + [c, z] :: l in ls;
    RepairNamesValid();
    FillEmptyLine([o, a], "FITID", [c, z]);
  }

  lemma FilledLinesGood()
    ensures forall l | l in FilledLines() :: GoodLine(l) && l.name != "CHKNUM"
  {
    assert ValidName("OFC") && ValidName("ACCTSTMT") && ValidName("FITID");
    assert AllIn("", ValueChar) && AllIn("0", ValueChar);
  }

  /** _fill_dummy_tags gives the FITID the value `0`; there is no CHKNUM to fill. */
  lemma MissingValueFilled()
    ensures FillDummyTags(LinesText(MissingValueLines())) == LinesText(FilledLines())
  {
    MissingValueFitidFilled();
    FilledLinesGood();
    RepairNamesValid();
    FillPassKept(FilledLines(), "CHKNUM");
  }

  /** The repairs before the injection give the value `0` to the FITID and change nothing else. */
  lemma MissingValueRepaired()
    ensures FillDummyTags(RemoveBadTags(LinesText(MissingValueLines()))) == Render(FilledTree())
  {
    MissingValueNoBadTags();
    MissingValueFilled();
    FilledTreeLines();
  }

  /** The repaired document already has ACCTSTMT right after OFC, so the injection pattern is found. */
  lemma FilledHasAcctStmt()
    ensures HasAcctStmt(Render(FilledTree()))
  {
    var kids := FilledTree().children;
    var ls := AllLines(kids) + [OfcClose()];
    var a := ls[0];
    var R := LinesText(ls);
    OfcRenderedLines(kids);
    OfcTags();
    assert LineOf(OfcOpen()) == "<OFC>\n";
    assert a == TagLine(false, "ACCTSTMT", "");
    assert R == LineOf(a) + LinesText(ls[1..]);
    assert R[..10] == "<ACCTSTMT>";
    OccursAtSlice(R, "<ACCTSTMT>", 0);
    AcctStmtAtOpen(R);
    var T := Render(FilledTree());
    assert T[0..] == T;
  }

  /** The document is a text of good lines, so it has no inline closing tag to remove. */
  lemma MissingValueNormalised()
    ensures RemoveInlineClosingTags(MissingValueInput) == MissingValueInput
  {
    MissingValueText();
    MissingValueLinesGood();
    InlineLinesKept(MissingValueLines());
  }

  /**
   * The document is rejected by the first attempt, and after the repairs the injection finds
   * ACCTSTMT and gives no text: parse fails with an error that is not a syntax error.
   */
  lemma MissingElse()
    ensures Parse(MissingValueInput) == Err(NotText)
  {
    MissingValueNormalised();
    MissingValueRejected();
    MissingValueText();
    MissingValueRepaired();
    FilledHasAcctStmt();
  }

  /** With the injection as evidently intended, the repaired document is parsed. */
  lemma MissingElseCorrected()
    ensures ParseIntended(MissingValueInput) == Ok(FilledTree())
  {
    MissingValueNormalised();
    MissingValueRejected();
    MissingValueText();
    MissingValueRepaired();
    FilledHasAcctStmt();
    FilledTreeParsed();
  }

  lemma FilledTreeParsed()
    ensures ParseString(Render(FilledTree())) == Some(FilledTree())
  {
    assert Printable(FilledTree()) by {
      assert ValidName("OFC") && ValidName("ACCTSTMT") && ValidName("FITID") && ValidValue("0");
      assert !IsBlank("0"[0]);
    }
    ParseStringRendered(FilledTree(), []);
    assert Render(FilledTree()) + [] == Render(FilledTree());
  }
}
