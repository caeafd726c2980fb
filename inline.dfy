/**
 * OfcParser.remove_inline_closing_tags: `re.sub(r'(\w+.*)<\/\w+>', r'\1', text)`.
 *
 * `.` never crosses a line feed, so every match lies within one line; the greedy `.*` makes a
 * match end at the LAST closing tag of its line. The result, proved below, is that each line is
 * treated on its own: its last closing tag is deleted when a word character stands before it.
 */
module InlineClosingTags {
  import opened Wrappers
  import opened Text
  import opened Scanning
  import opened Substitution

  /**
   * OfcParser.remove_inline_closing_tags. The substitution only removes characters, never a line
   * feed, so every line stays where it was; the text is left as it is exactly when the pattern
   * matches nowhere in it.
   */
  function RemoveInlineClosingTags(s: string): (r: string)
    ensures DropsOnly(r, s) && Count(r, '\n') == Count(s, '\n') && |r| <= |s|
  {
    DeletingMatcher(InlineClose);
    ScanDrops(s, Matcher(InlineClose));
    DropsOnlyLines(Scan(s, Matcher(InlineClose)), s);
    Rewrite(s, InlineClose)
  }

  /** The text is left as it is exactly when the pattern matches nowhere in it. */
  lemma RemoveInlineUnchangedIff(s: string)
    ensures RemoveInlineClosingTags(s) == s <==> forall j | 0 <= j < |s| :: InlineHit(s[j..]).None?
  {
    RewriteUnchangedIff(s, InlineClose);
  }

  /** One line after the substitution: its last closing tag goes when a word character precedes it. */
  function FixLine(l: string): string {
    match LastCloseBelow(l, |l|)
    case None => l
    case Some(q) =>
      if exists k | 0 <= k < q :: IsWordChar(l[k]) then l[..q] + l[CloseTokenEnd(l, q)..] else l
  }

  /** The text with FixLine applied to each of its lines. */
  function LineByLine(s: string): string
    decreases |s|
  {
    var e := LineEnd(s);
    if e == |s| then FixLine(s) else FixLine(s[..e]) + "\n" + LineByLine(s[e + 1..])
  }

  // ---------------------------------------------------------------------------------------------
  // Each line on its own

  /** The first word character in `s[from..hi]`. */
  function FirstWordChar(s: string, from: nat, hi: nat): (r: Option<nat>)
    requires from <= hi <= |s|
    ensures r.Some? ==> from <= r.value < hi && IsWordChar(s[r.value])
    ensures r.Some? ==> forall k | from <= k < r.value :: !IsWordChar(s[k])
    ensures r.None? ==> forall k | from <= k < hi :: !IsWordChar(s[k])
    decreases hi - from
  {
    if from == hi then None
    else if IsWordChar(s[from]) then Some(from)
    else FirstWordChar(s, from + 1, hi)
  }

  /**
   * Closing tags are local to their line: cut the text at `j` and anywhere after the end `e` of
   * the line, and a closing tag before `e` is still one, with the same end.
   */
  lemma CloseTokenWindow(s: string, j: nat, e: nat, k: nat, x: nat)
    requires j + x < e <= k <= |s| && (e == |s| || s[e] == '\n')
    ensures CloseTokenAt(s[j..k], x) <==> CloseTokenAt(s, j + x)
    ensures CloseTokenAt(s, j + x) ==> CloseTokenEnd(s[j..k], x) + j == CloseTokenEnd(s, j + x)
  {
    var w := s[j..k];
    if j + x + 2 <= e {
      var r := RunEnd(s, j + x + 2, WordChar);
      RunEndAll(s, j + x + 2, WordChar);
      assert r <= e;
      RunEndIs(w, x + 2, WordChar, r - j);
    }
  }

  /** Seen from `w`, the closing tags of the text are the same, shifted. */
  lemma CloseTokenShift(s: string, w: nat, x: nat)
    requires w <= |s|
    ensures CloseTokenAt(s[w..], x) <==> CloseTokenAt(s, w + x)
    ensures CloseTokenAt(s, w + x) ==> CloseTokenEnd(s[w..], x) + w == CloseTokenEnd(s, w + x)
  {
    if w + x + 2 <= |s| {
      RunEndAll(s, w + x + 2, WordChar);
      RunEndIs(s[w..], x + 2, WordChar, RunEnd(s, w + x + 2, WordChar) - w);
    }
  }

  /** All closing tags seen from `w`. */
  lemma CloseTokensShift(s: string, w: nat)
    requires w <= |s|
    ensures forall x {:trigger CloseTokenAt(s[w..], x)} :: CloseTokenAt(s[w..], x) <==> CloseTokenAt(s, w + x)
  {
    forall x ensures CloseTokenAt(s[w..], x) <==> CloseTokenAt(s, w + x) {
      CloseTokenShift(s, w, x);
    }
  }

  /** Seen from `j`, the first line ends at the same place. */
  lemma LineEndFrom(s: string, j: nat)
    requires j <= LineEnd(s)
    ensures LineEnd(s[j..]) == LineEnd(s) - j
  {
    RunEndIs(s[j..], 0, Dot, LineEnd(s) - j);
  }

  /** No match starts at `j` when `s[j]` is not a word character or no closing tag follows on its line. */
  lemma NoInlineHit(s: string, j: nat)
    requires j < LineEnd(s)
    requires !IsWordChar(s[j]) || forall x | j <= x < LineEnd(s) :: !CloseTokenAt(s, x)
    ensures InlineHit(s[j..]).None?
  {
    var e := LineEnd(s);
    if IsWordChar(s[j]) {
      LineEndFrom(s, j);
      CloseTokensShift(s, j);
    }
    RemoveInlineUnchangedIff(s);
  }

  /** Where no match starts between `from` and the end `e` of the first line, that stretch is copied. */
  lemma CopyToLineEnd(s: string, from: nat)
    requires from <= LineEnd(s)
    requires forall j | from <= j < LineEnd(s) :: InlineHit(s[j..]).None?
    ensures var e := LineEnd(s);
      Rewrite(s[from..], InlineClose) == s[from..e] + Rewrite(s[e..], InlineClose)
  {
    var e := LineEnd(s);
    var a, b := s[from..e], s[e..];
    assert s[from..] == a + b;
    forall j | 0 <= j < |a| ensures Matcher(InlineClose)((a + b)[j..]).None? {
      assert (a + b)[j..] == s[from + j..];
    }
    ScanSkip(a, b, Matcher(InlineClose));
  }

  /** The closing tags of the first line are those of the text before its end. */
  lemma LineCloseTokens(s: string)
    ensures var e := LineEnd(s);
      forall x | 0 <= x < e :: (CloseTokenAt(s[..e], x) <==> CloseTokenAt(s, x)) &&
        (CloseTokenAt(s, x) ==> CloseTokenEnd(s[..e], x) == CloseTokenEnd(s, x))
  {
    var e := LineEnd(s);
    assert s[0..e] == s[..e];
    forall x | 0 <= x < e
      ensures (CloseTokenAt(s[..e], x) <==> CloseTokenAt(s, x)) &&
        (CloseTokenAt(s, x) ==> CloseTokenEnd(s[..e], x) == CloseTokenEnd(s, x))
    {
      CloseTokenWindow(s, 0, e, e, x);
    }
  }

  /** A first line without a match is copied, and FixLine leaves it as it is. */
  lemma LineScanCopy(s: string, w: nat)
    requires w <= LineEnd(s)
    requires forall k | 0 <= k < w :: !IsWordChar(s[k])
    requires forall y | w <= y < LineEnd(s) :: !CloseTokenAt(s, y)
    ensures var e := LineEnd(s);
      Rewrite(s, InlineClose) == FixLine(s[..e]) + Rewrite(s[e..], InlineClose)
  {
    var e := LineEnd(s);
    forall j | 0 <= j < e ensures InlineHit(s[j..]).None? {
      NoInlineHit(s, j);
    }
    CopyToLineEnd(s, 0);
    assert s[0..] == s && s[0..e] == s[..e];
    LineCloseTokens(s);
    assert FixLine(s[..e]) == s[..e];
  }

  /** Seen from `w`, the last closing tag of the line is still the one at `q`. */
  lemma LastCloseFrom(s: string, w: nat, q: nat)
    requires w <= q < LineEnd(s) && CloseTokenAt(s, q)
    requires forall y | q < y < LineEnd(s) :: !CloseTokenAt(s, y)
    ensures LineEnd(s[w..]) == LineEnd(s) - w
    ensures LastCloseBelow(s[w..], LineEnd(s) - w) == Some(q - w)
    ensures CloseTokenEnd(s[w..], q - w) + w == CloseTokenEnd(s, q)
  {
    var e := LineEnd(s);
    LineEndFrom(s, w);
    CloseTokenShift(s, w, q - w);
    CloseTokensShift(s, w);
    LastCloseBelowIs(s[w..], e - w, q - w);
  }

  /** The match at `w`: from there to the line's last closing tag, at `q`, the tag included. */
  lemma InlineHitTo(s: string, w: nat, q: nat)
    requires w < q < LineEnd(s) && IsWordChar(s[w]) && CloseTokenAt(s, q)
    requires forall y | q < y < LineEnd(s) :: !CloseTokenAt(s, y)
    ensures CloseTokenEnd(s, q) <= LineEnd(s)
    ensures InlineHit(s[w..]) == Some(Hit(CloseTokenEnd(s, q) - w, s[w..q]))
  {
    LastCloseFrom(s, w, q);
    assert s[w..][..q - w] == s[w..q];
  }

  /** FixLine removes from the line the closing tag at `q`, the last one, preceded by the word character at `w`. */
  lemma FixLineRemoves(s: string, w: nat, q: nat)
    requires w < q < LineEnd(s) && IsWordChar(s[w]) && CloseTokenAt(s, q)
    requires forall y | q < y < LineEnd(s) :: !CloseTokenAt(s, y)
    ensures CloseTokenEnd(s, q) <= LineEnd(s)
    ensures FixLine(s[..LineEnd(s)]) == s[..q] + s[CloseTokenEnd(s, q)..LineEnd(s)]
  {
    var e := LineEnd(s);
    var l := s[..e];
    LineCloseTokens(s);
    LastCloseBelowIs(l, e, q);
    assert IsWordChar(l[w]);
  }

  /** The first match of the text removes the line's last closing tag, at `q`. */
  lemma RewriteFirstMatch(s: string, w: nat, q: nat)
    requires w < q < LineEnd(s) && IsWordChar(s[w]) && CloseTokenAt(s, q)
    requires forall k | 0 <= k < w :: !IsWordChar(s[k])
    requires forall y | q < y < LineEnd(s) :: !CloseTokenAt(s, y)
    ensures CloseTokenEnd(s, q) <= LineEnd(s)
    ensures Rewrite(s, InlineClose) == s[..q] + Rewrite(s[CloseTokenEnd(s, q)..], InlineClose)
  {
    forall j | 0 <= j < w ensures Matcher(InlineClose)(s[j..]).None? {
      NoInlineHit(s, j);
    }
    var m := Matcher(InlineClose);
    var c := CloseTokenEnd(s, q);
    InlineHitTo(s, w, q);
    ScanMatchAt(s, m, w, c, s[w..q]);
    SliceJoin(s, w, q);
  }

  /** A first line whose last closing tag, at `q`, follows its first word character, at `w`. */
  lemma LineScanMatch(s: string, w: nat, q: nat)
    requires w < q < LineEnd(s) && IsWordChar(s[w]) && CloseTokenAt(s, q)
    requires forall k | 0 <= k < w :: !IsWordChar(s[k])
    requires forall y | q < y < LineEnd(s) :: !CloseTokenAt(s, y)
    ensures var e := LineEnd(s);
      Rewrite(s, InlineClose) == FixLine(s[..e]) + Rewrite(s[e..], InlineClose)
  {
    var e := LineEnd(s);
    var c := CloseTokenEnd(s, q);
    RewriteFirstMatch(s, w, q);
    forall j | c <= j < e ensures InlineHit(s[j..]).None? {
      NoInlineHit(s, j);
    }
    CopyToLineEnd(s, c);
    FixLineRemoves(s, w, q);
    Assoc(s[..q], s[c..e], Rewrite(s[e..], InlineClose));
  }

  /** The substitution over the first line of a text is FixLine of that line. */
  lemma LineScan(s: string)
    ensures var e := LineEnd(s);
      Rewrite(s, InlineClose) == FixLine(s[..e]) + Rewrite(s[e..], InlineClose)
  {
    var e := LineEnd(s);
    match FirstWordChar(s, 0, e)
    case None =>
      LineScanCopy(s, e);
    case Some(w) =>
      match LastCloseBelow(s, e)
      case Some(q) =>
        if q > w {
          LineScanMatch(s, w, q);
        } else {
          LineScanCopy(s, w);
        }
      case None =>
        LineScanCopy(s, w);
  }

  /** A line feed never starts a match: it is copied. */
  lemma ScanLineFeed(t: string)
    requires t != [] && t[0] == '\n'
    ensures Rewrite(t, InlineClose) == "\n" + Rewrite(t[1..], InlineClose)
  {
  }

  /** The substitution fixes each line on its own. */
  lemma RemoveInlineByLines(s: string)
    ensures RemoveInlineClosingTags(s) == LineByLine(s)
  {
    RewriteByLines(s);
  }

  lemma {:induction false} RewriteByLines(s: string)
    ensures Rewrite(s, InlineClose) == LineByLine(s)
    decreases |s|
  {
    var e := LineEnd(s);
    LineScan(s);
    if e == |s| {
      assert s[..e] == s && s[e..] == [];
    } else {
      ScanLineFeed(s[e..]);
      assert s[e..][1..] == s[e + 1..];
      RewriteByLines(s[e + 1..]);
    }
  }

  /** The first line of a text that holds a line feed is the first line of any text that extends it. */
  lemma LineEndPrefix(a: string, b: string)
    requires LineEnd(a) < |a|
    ensures LineEnd(a + b) == LineEnd(a)
  {
    var e := LineEnd(a);
    forall m | 0 <= m < e ensures InClass((a + b)[m], Dot) {
      assert (a + b)[m] == a[m];
    }
    assert (a + b)[e] == a[e];
    RunEndIs(a + b, 0, Dot, e);
  }

  /** Cutting `a + b` inside `a`, after the line feed at `e`. */
  lemma CutAfterLineFeed(a: string, b: string, e: nat)
    requires e < |a|
    ensures (a + b)[..e] == a[..e]
    ensures a[e..][1..] == a[e + 1..]
    ensures (a + b)[e..][1..] == a[e + 1..] + b
    ensures (a + b)[e + 1..] == a[e + 1..] + b
    ensures (a + b)[e..] != [] && (a + b)[e..][0] == a[e]
  {
  }

  /** Line by line, whole lines followed by more text split there. */
  lemma {:induction false} LinesSplit(a: string, b: string)
    requires a != [] && a[|a| - 1] == '\n'
    ensures LineByLine(a + b) == LineByLine(a) + LineByLine(b)
    decreases |a|
  {
    var e := LineEnd(a);
    var t := a[e + 1..];
    assert e < |a|;
    LineEndPrefix(a, b);
    CutAfterLineFeed(a, b, e);
    var f := FixLine(a[..e]);
    assert LineByLine(t + b) == LineByLine(t) + LineByLine(b) by {
      if t == [] {
        assert t + b == b;
      } else {
        LinesSplit(t, b);
      }
    }
    Assoc(f + "\n", LineByLine(t), LineByLine(b));
  }

  /** Lines are independent: the substitution over whole lines followed by more text splits there. */
  lemma RemoveInlineSplitsAtLines(a: string, b: string)
    requires a != [] && a[|a| - 1] == '\n'
    ensures Rewrite(a + b, InlineClose) == Rewrite(a, InlineClose) + Rewrite(b, InlineClose)
  {
    RemoveInlineByLines(a + b);
    RemoveInlineByLines(a);
    RemoveInlineByLines(b);
    LinesSplit(a, b);
  }

  // ---------------------------------------------------------------------------------------------
  // What the substitution does to particular texts

  /** Text without `</` has no closing tag and is left as it is. */
  lemma NoClosingTagUnchanged(s: string)
    requires forall k | 0 <= k < |s| - 1 :: !(s[k] == '<' && s[k + 1] == '/')
    ensures RemoveInlineClosingTags(s) == s
  {
    forall j | 0 <= j < |s| ensures InlineHit(s[j..]).None? {
      CloseTokensShift(s, j);
    }
    RemoveInlineUnchangedIff(s);
  }

  /** A text of one line is one FixLine. */
  lemma OneLine(s: string)
    requires forall m | 0 <= m < |s| :: s[m] != '\n'
    ensures RemoveInlineClosingTags(s) == FixLine(s)
  {
    RunEndIs(s, 0, Dot, |s|);
    LineScan(s);
    assert s[..|s|] == s;
  }

  /** FixLine removes the last closing tag, at `q`, when the word character at `w` precedes it. */
  lemma FixLineAt(l: string, w: nat, q: nat)
    requires w < q < |l| && IsWordChar(l[w]) && CloseTokenAt(l, q)
    requires forall y | q < y < |l| :: !CloseTokenAt(l, y)
    ensures FixLine(l) == l[..q] + l[CloseTokenEnd(l, q)..]
  {
    LastCloseBelowIs(l, |l|, q);
  }

  /** The line `<T>value</T>` holds no line feed. */
  lemma ValueLineOneLine(t: string, v: string)
    requires AllIn(t, WordChar) && AllIn(v, ValueChar)
    ensures AllIn("<" + t + ">" + v + "</" + t + ">", Dot)
  {
    AllInWiden(t, WordChar, Dot);
    AllInWiden(v, ValueChar, Dot);
    AllInConcat("<", t, Dot);
    AllInConcat("<" + t, ">", Dot);
    AllInConcat("<" + t + ">", v, Dot);
    AllInConcat("<" + t + ">" + v, "</", Dot);
    AllInConcat("<" + t + ">" + v + "</", t, Dot);
    AllInConcat("<" + t + ">" + v + "</" + t, ">", Dot);
  }

  /** The closing tag `</T>` on its own. */
  lemma CloseTagAlone(t: string)
    requires |t| > 0 && AllIn(t, WordChar)
    ensures var b := "</" + t + ">";
      CloseTokenAt(b, 0) && CloseTokenEnd(b, 0) == |b| && forall y | 0 < y < |b| :: b[y] != '<'
  {
    var b := "</" + t + ">";
    assert b[2..2 + |t|] == t;
    RunEndOver(b, 2, t, WordChar);
    forall y | 2 <= y < 2 + |t| ensures b[y] != '<' {
      assert b[y] == t[y - 2];
    }
  }

  /** The only closing tag of the line `<T>value</T>` ends it. */
  lemma ValueLineClose(t: string, v: string)
    requires |t| > 0 && AllIn(t, WordChar)
    ensures var s := "<" + t + ">" + v + "</" + t + ">";
      var q := |t| + 2 + |v|;
      q < |s| && s[..q] == "<" + t + ">" + v && CloseTokenAt(s, q) && CloseTokenEnd(s, q) == |s| &&
      (forall y | q < y < |s| :: !CloseTokenAt(s, y))
  {
    var a := "<" + t + ">" + v;
    var b := "</" + t + ">";
    var s := a + b;
    var q := |a|;
    assert s == "<" + t + ">" + v + "</" + t + ">";
    assert s[q..] == b && s[..q] == a;
    CloseTagAlone(t);
    CloseTokenShift(s, q, 0);
    forall y | q < y < |s| ensures s[y] != '<' {
      assert s[y] == b[y - q];
    }
  }

  /** A one-line text whose last closing tag, at `q`, ends it and follows a word character loses that tag. */
  lemma OneLineDropsTail(s: string, w: nat, q: nat)
    requires AllIn(s, Dot) && w < q < |s| && IsWordChar(s[w])
    requires CloseTokenAt(s, q) && CloseTokenEnd(s, q) == |s| && forall y | q < y < |s| :: !CloseTokenAt(s, y)
    ensures RemoveInlineClosingTags(s) == s[..q]
  {
    OneLine(s);
    FixLineAt(s, w, q);
    assert s[|s|..] == [];
  }

  /** The line `<T>value</T>` becomes `<T>value`, for a tag name of word characters. */
  lemma ValueCloseTagRemoved(t: string, v: string)
    requires |t| > 0 && AllIn(t, WordChar) && AllIn(v, ValueChar)
    ensures RemoveInlineClosingTags("<" + t + ">" + v + "</" + t + ">") == "<" + t + ">" + v
  {
    var s := "<" + t + ">" + v + "</" + t + ">";
    ValueLineOneLine(t, v);
    ValueLineClose(t, v);
    assert IsWordChar(s[1]) by {
      assert s[1] == t[0];
    }
    OneLineDropsTail(s, 1, |t| + 2 + |v|);
  }

  /** Each pass removes only the last closing tag of a line. */
  lemma RemoveInlineLastOnly(s: string)
    requires s == "a</X></Y>"
    ensures RemoveInlineClosingTags(s) == "a</X>"
  {
    RunEndIs(s, 7, WordChar, 8);
    OneLine(s);
    FixLineAt(s, 0, 5);
  }

  /** The second pass over the same line removes the next closing tag. */
  lemma RemoveInlineSecondPass(s: string)
    requires s == "a</X>"
    ensures RemoveInlineClosingTags(s) == "a"
  {
    RunEndIs(s, 3, WordChar, 4);
    OneLine(s);
    FixLineAt(s, 0, 1);
  }

  /** The substitution is not idempotent: a line with two closing tags loses one per pass. */
  lemma RemoveInlineNotIdempotent(s: string)
    requires s == "a</X></Y>"
    ensures RemoveInlineClosingTags(RemoveInlineClosingTags(s)) != RemoveInlineClosingTags(s)
  {
    RemoveInlineLastOnly(s);
    RemoveInlineSecondPass("a</X>");
  }
}
