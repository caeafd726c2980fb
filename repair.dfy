/**
 * The repairs that OfcParser.fix_ofc applies, in order, to a text the grammar rejected:
 * `_remove_bad_tags`, `_fill_dummy_tags` and `_inject_tags`.
 */
module Repair {
  import opened Wrappers
  import opened Text
  import opened Scanning
  import opened Substitution
  import opened OfcGrammar

  // ---------------------------------------------------------------------------------------------
  // _remove_bad_tags

  /**
   * Every `<TRNRS>` tag (any number of slashes) deleted, then every `<CLTID>` tag with the word
   * after it. Both passes only delete, and never a line feed, so the lines of the text stay where
   * they were; the text is left as it is exactly when neither pattern matches anywhere in it.
   */
  function RemoveBadTags(s: string): (r: string)
    ensures DropsOnly(r, s) && Count(r, '\n') == Count(s, '\n') && |r| <= |s|
  {
    var t := Rewrite(s, BadTag("TRNRS"));
    var r := Rewrite(t, BadTagWithValue("CLTID"));
    BadTagsDelete();
    RewriteDrops(s, BadTag("TRNRS"));
    RewriteDrops(t, BadTagWithValue("CLTID"));
    DropsOnlyTrans(r, t, s);
    DropsOnlyLines(r, s);
    DropsOnlyLines(t, s);
    DropsOnlyLines(r, t);
    r
  }

  /** The text is left as it is exactly when neither pattern matches anywhere in it. */
  lemma RemoveBadTagsUnchangedIff(s: string)
    ensures RemoveBadTags(s) == s <==>
      forall j | 0 <= j < |s| :: BadTagHit("TRNRS", s[j..]).None? && BadTagWithValueHit("CLTID", s[j..]).None?
  {
    BadTagsDelete();
    TwoPassUnchangedIff(s, BadTag("TRNRS"), BadTagWithValue("CLTID"));
  }

  /** The two patterns delete. */
  lemma BadTagsDelete()
    ensures Deletes(BadTag("TRNRS")) && Deletes(BadTagWithValue("CLTID"))
  {
    assert AllIn("TRNRS", Dot) && AllIn("CLTID", Dot);
  }

  /** A match of a bad tag at the start of `t` is an occurrence of the tag's name and `>`. */
  lemma BadTagHitOccurs(n: string, s: string, j: nat)
    requires j < |s| && (BadTagHit(n, s[j..]).Some? || BadTagWithValueHit(n, s[j..]).Some?)
    ensures Occurs(s, n + ">")
  {
    var t := s[j..];
    var k := RunEnd(t, 1, Slash);
    assert OccursAt(t, n + ">", k);
    assert s[j + k..j + k + |n + ">"|] == t[k..k + |n + ">"|];
    assert OccursAt(s, n + ">", j + k);
  }

  /** Text that names neither tag is left as it is. */
  lemma NoBadTagNamesUnchanged(s: string)
    requires !Occurs(s, "TRNRS>") && !Occurs(s, "CLTID>")
    ensures RemoveBadTags(s) == s
  {
    assert "TRNRS" + ">" == "TRNRS>" && "CLTID" + ">" == "CLTID>";
    forall j | 0 <= j < |s|
      ensures BadTagHit("TRNRS", s[j..]).None? && BadTagWithValueHit("CLTID", s[j..]).None?
    {
      if BadTagHit("TRNRS", s[j..]).Some? {
        BadTagHitOccurs("TRNRS", s, j);
      }
      if BadTagWithValueHit("CLTID", s[j..]).Some? {
        BadTagHitOccurs("CLTID", s, j);
      }
    }
    RemoveBadTagsUnchangedIff(s);
  }

  /** The slashes and the name of a tag `<` + `d` + `n` + `>` at the start of `t`. */
  lemma BadTagShape(n: string, d: string, t: string)
    requires |n| > 0 && n[0] != '/' && AllIn(d, Slash)
    requires OccursAt(t, "<" + d + n + ">", 0)
    ensures t[0] == '<' && RunEnd(t, 1, Slash) == 1 + |d|
    ensures OccursAt(t, n + ">", 1 + |d|)
  {
    var w := "<" + d + n + ">";
    assert t[..|w|] == w;
    assert w[0] == '<' && w[1 + |d|] == n[0];
    forall m | 0 <= m < |d| ensures t[1..1 + |d|][m] == d[m] {
      assert t[1 + m] == w[1 + m];
    }
    assert t[1 + |d|] == w[1 + |d|];
    RunEndOver(t, 1, d, Slash);
    forall m | 0 <= m < |n| + 1 ensures t[1 + |d|..1 + |d| + |n| + 1][m] == (n + ">")[m] {
      assert t[1 + |d| + m] == w[1 + |d| + m];
    }
  }

  /** `<[/]*NAME>` matches a tag with any number of slashes. */
  lemma BadTagAt(n: string, d: string, b: string)
    requires |n| > 0 && n[0] != '/' && AllIn(d, Slash)
    ensures BadTagHit(n, "<" + d + n + ">" + b) == Some(Hit(|d| + |n| + 2, ""))
  {
    var u := "<" + d + n + ">" + b;
    assert u[..|d| + |n| + 2] == "<" + d + n + ">";
    BadTagShape(n, d, u);
  }

  /** `<[/]*NAME>\w+` matches a tag followed by a whole word. */
  lemma BadTagWithValueAt(n: string, d: string, v: string, b: string)
    requires |n| > 0 && n[0] != '/' && AllIn(d, Slash)
    requires |v| > 0 && AllIn(v, WordChar) && (b == [] || !IsWordChar(b[0]))
    ensures BadTagWithValueHit(n, "<" + d + n + ">" + v + b) == Some(Hit(|d| + |n| + 2 + |v|, ""))
  {
    var tag := "<" + d + n + ">";
    var u := tag + v + b;
    assert u[..|tag|] == tag;
    BadTagShape(n, d, u);
    assert u[|tag|..|tag| + |v|] == v;
    if b != [] {
      assert u[|tag| + |v|] == b[0];
    }
    RunEndOver(u, |tag|, v, WordChar);
  }

  /** Every `<[/]*NAME>` tag is deleted where the scan meets it: the open tag, the close tag, any number of slashes. */
  lemma BadTagDeleted(a: string, d: string, n: string, b: string)
    requires |n| > 0 && n[0] != '/' && AllIn(d, Slash)
    requires forall j | 0 <= j < |a| :: BadTagHit(n, (a + ("<" + d + n + ">" + b))[j..]).None?
    ensures Rewrite(a + ("<" + d + n + ">" + b), BadTag(n)) == a + Rewrite(b, BadTag(n))
  {
    var u := "<" + d + n + ">" + b;
    var r := Rewrite(b, BadTag(n));
    BadTagAt(n, d, b);
    assert Matcher(BadTag(n))(u) == Some(Hit(|d| + |n| + 2, ""));
    assert u[|d| + |n| + 2..] == b;
    RewriteAt(a, u, BadTag(n));
    assert "" + r == r;
  }

  /** Every `<[/]*NAME>` tag followed by a word is deleted with the word where the scan meets it. */
  lemma BadTagWithValueDeleted(a: string, d: string, n: string, v: string, b: string)
    requires |n| > 0 && n[0] != '/' && AllIn(d, Slash)
    requires |v| > 0 && AllIn(v, WordChar) && (b == [] || !IsWordChar(b[0]))
    requires forall j | 0 <= j < |a| :: BadTagWithValueHit(n, (a + ("<" + d + n + ">" + v + b))[j..]).None?
    ensures Rewrite(a + ("<" + d + n + ">" + v + b), BadTagWithValue(n)) == a + Rewrite(b, BadTagWithValue(n))
  {
    var u := "<" + d + n + ">" + v + b;
    var r := Rewrite(b, BadTagWithValue(n));
    BadTagWithValueAt(n, d, v, b);
    assert Matcher(BadTagWithValue(n))(u) == Some(Hit(|d| + |n| + 2 + |v|, ""));
    assert u[|d| + |n| + 2 + |v|..] == b;
    RewriteAt(a, u, BadTagWithValue(n));
    assert "" + r == r;
  }

  /**
   * One pass does not remove every bad tag: deleting the inner tag of `<<TRNRS>TRNRS>` joins
   * its two halves into a new one, which the scan has already passed.
   */
  lemma BadTagRejoined(n: string)
    requires ValidName(n)
    ensures Rewrite("<" + ("<" + "" + n + ">" + (n + ">")), BadTag(n)) == "<" + n + ">"
  {
    var s := "<" + ("<" + "" + n + ">" + (n + ">"));
    assert BadTagHit(n, s).None? by {
      assert s[1] == '<';
      RunEndIs(s, 1, Slash, 1);
      assert n[0] != '<';
    }
    assert AllIn("", Slash);
    BadTagDeleted("<", "", n, n + ">");
    assert Rewrite(n + ">", BadTag(n)) == n + ">" by {
      forall m | 0 <= m < |n + ">"| ensures (n + ">")[m] != '<' {
        if m < |n| {
          assert (n + ">")[m] == n[m];
        }
      }
      RewriteWithoutLt(n + ">", BadTag(n));
    }
  }

  /** So `<<TRNRS>TRNRS>` keeps a TRNRS tag through both passes. */
  lemma TrnrsTagSurvives(n: string, s: string)
    requires n == "TRNRS" && s == "<<" + n + ">" + n + ">"
    ensures RemoveBadTags(s) == "<" + n + ">"
  {
    var t := "<" + n + ">";
    assert ValidName(n) && ValidName("CLTID");
    assert s == "<" + ("<" + "" + n + ">" + (n + ">"));
    assert Rewrite(s, BadTag(n)) == t by {
      BadTagRejoined(n);
    }
    OpenTagKept(BadTagWithValue("CLTID"), "CLTID", n);
  }

  /** A lone open tag of another name is left as it is by either bad-tag pattern. */
  lemma OpenTagKept(p: Pattern, c: string, n: string)
    requires p == BadTag(c) || p == BadTagWithValue(c)
    requires ValidName(c) && ValidName(n) && c != n
    ensures Rewrite("<" + n + ">", p) == "<" + n + ">"
  {
    var t := "<" + n + ">";
    assert t == "<" + "" + n + ">" + "" + "";
    BadTagLine(c, "", n, "", "");
    TagLineKept(p, "", n, "", "");
  }

  // ---------------------------------------------------------------------------------------------
  // Tags on a line of their own

  /** A name followed by `>` is the whole run of name characters there. */
  lemma NameAt(t: string, k: nat, n: string)
    requires ValidName(n) && OccursAt(t, n + ">", k)
    ensures RunEnd(t, k, TagChar) == k + |n| && t[k..k + |n|] == n
  {
    OccursSplit(t, n, ">", k);
    OccursAtFirst(t, ">", k + |n|);
    OccursAtSlice(t, n, k);
    RunEndOver(t, k, n, TagChar);
  }

  /** Two names each followed by `>` at the same place are the same name. */
  lemma NameUnique(t: string, k: nat, n: string, n2: string)
    requires ValidName(n) && ValidName(n2) && OccursAt(t, n2 + ">", k)
    ensures OccursAt(t, n + ">", k) ==> n == n2
  {
    if OccursAt(t, n + ">", k) {
      NameAt(t, k, n);
      NameAt(t, k, n2);
    }
  }

  /** The tag `<` + `d` + `N` + `>` that starts a line, where `d` is empty or one slash. */
  predicate TagStart(t: string, d: string, N: string) {
    (d == "" || d == "/") && ValidName(N) && OccursAt(t, "<" + d + N + ">", 0)
  }

  lemma TagStartShape(t: string, d: string, N: string)
    requires TagStart(t, d, N)
    ensures t[0] == '<' && (d == "/" <==> t[1] == '/')
    ensures RunEnd(t, 1, Slash) == 1 + |d| && OccursAt(t, N + ">", 1 + |d|)
  {
    BadTagShape(N, d, t);
    var w := "<" + d + N + ">";
    assert t[..|w|] == w;
    assert t[1] == w[1];
  }

  /** After its first character a tag line holds no `<`. */
  lemma TagLineChars(d: string, N: string, v: string)
    requires (d == "" || d == "/") && ValidName(N) && forall m | 0 <= m < |v| :: v[m] != '<'
    ensures var L := "<" + d + N + ">" + v; forall j | 0 < j < |L| :: L[j] != '<'
  {
    var L := "<" + d + N + ">" + v;
    forall j | 0 < j < |L| ensures L[j] != '<' {
      if j <= |d| {
        assert L[j] == d[j - 1];
      } else if j <= |d| + |N| {
        assert L[j] == N[j - 1 - |d|];
      } else if j > |d| + |N| + 1 {
        assert L[j] == v[j - 2 - |d| - |N|];
      }
    }
  }

  /** A tag line that a pattern does not match at its start is copied whole: no other match starts in it. */
  lemma TagLineKept(p: Pattern, d: string, N: string, v: string, b: string)
    requires StartsWithLt(p) && (d == "" || d == "/") && ValidName(N) && forall m | 0 <= m < |v| :: v[m] != '<'
    requires Matcher(p)("<" + d + N + ">" + v + b).None?
    ensures Rewrite("<" + d + N + ">" + v + b, p) == "<" + d + N + ">" + v + Rewrite(b, p)
  {
    var L := "<" + d + N + ">" + v;
    TagLineChars(d, N, v);
    forall j | 0 <= j < |L| ensures Matcher(p)((L + b)[j..]).None? {
      if j > 0 {
        assert (L + b)[j..][0] == L[j];
        NoHitWithoutLt(p, (L + b)[j..]);
      }
    }
    ScanSkip(L, b, Matcher(p));
  }

  /** Neither bad-tag pattern matches a tag of another name. */
  lemma BadTagLine(n: string, d: string, N: string, v: string, rest: string)
    requires ValidName(n) && (d == "" || d == "/") && ValidName(N) && n != N
    ensures BadTagHit(n, "<" + d + N + ">" + v + rest).None?
    ensures BadTagWithValueHit(n, "<" + d + N + ">" + v + rest).None?
  {
    var t := "<" + d + N + ">" + v + rest;
    assert t[..|d| + |N| + 2] == "<" + d + N + ">";
    TagStartShape(t, d, N);
    NameUnique(t, 1 + |d|, n, N);
  }

  /** The empty-tag pattern matches the open tag of its own name only, and only when no word or `+` follows. */
  lemma EmptyTagLine(n: string, d: string, N: string, v: string, rest: string)
    requires ValidName(n) && (d == "" || d == "/") && ValidName(N)
    requires d == "/" || n != N || (v != [] && (IsWordChar(v[0]) || v[0] == '+'))
    ensures EmptyTagHit(n, "<" + d + N + ">" + v + rest).None?
  {
    var t := "<" + d + N + ">" + v + rest;
    assert t[..|d| + |N| + 2] == "<" + d + N + ">";
    TagStartShape(t, d, N);
    if OccursAt(t, "<" + n + ">", 0) {
      assert OccursAt(t, n + ">", 1) && t[1] == n[0] by {
        assert "<" + n + ">" == "<" + (n + ">");
        OccursSplit(t, "<", n + ">", 0);
        OccursAtFirst(t, n + ">", 1);
      }
      NameUnique(t, 1 + |d|, n, N);
      if v != [] {
        assert t[|n| + 2] == v[0];
      }
    }
  }

  /** A literal tag `<` + `e` + `X` + `>` is found only at a tag of the same form. */
  lemma LiteralTagLine(e: string, X: string, r: string, d: string, N: string, v: string, rest: string)
    requires (e == "" || e == "/") && ValidName(X) && (d == "" || d == "/") && ValidName(N)
    requires e != d || X != N
    ensures LiteralHit("<" + e + X + ">", r, "<" + d + N + ">" + v + rest).None?
  {
    var t := "<" + d + N + ">" + v + rest;
    assert t[..|d| + |N| + 2] == "<" + d + N + ">";
    TagStartShape(t, d, N);
    if OccursAt(t, "<" + e + X + ">", 0) {
      TagStartShape(t, e, X);
      NameUnique(t, 1 + |d|, X, N);
    }
  }

  // ---------------------------------------------------------------------------------------------
  // _fill_dummy_tags

  /**
   * Every `<FITID>` without a value given the value `0`, then every `<CHKNUM>` likewise. Filling
   * never shortens the text, and leaves it as it is exactly when neither tag lacks a value.
   */
  function FillDummyTags(s: string): (r: string)
    ensures |r| >= |s|
  {
    var t := Rewrite(s, EmptyTag("FITID"));
    RewriteGrowsLength(s, EmptyTag("FITID"));
    RewriteGrowsLength(t, EmptyTag("CHKNUM"));
    Rewrite(t, EmptyTag("CHKNUM"))
  }

  /** The text is left as it is exactly when neither tag lacks a value anywhere in it. */
  lemma FillDummyTagsUnchangedIff(s: string)
    ensures FillDummyTags(s) == s <==>
      forall j | 0 <= j < |s| :: EmptyTagHit("FITID", s[j..]).None? && EmptyTagHit("CHKNUM", s[j..]).None?
  {
    TwoPassUnchangedIff(s, EmptyTag("FITID"), EmptyTag("CHKNUM"));
  }

  /** `(<NAME>)[^\w+]` matches a tag followed by a character that is neither a word character nor `+`. */
  lemma EmptyTagAt(n: string, c: char, b: string)
    requires !IsWordChar(c) && c != '+'
    ensures EmptyTagHit(n, "<" + n + ">" + [c] + b) == Some(Hit(|n| + 3, "<" + n + ">0\n"))
  {
    var tag := "<" + n + ">";
    var u := tag + [c] + b;
    assert u[..|tag|] == tag && u[|tag|] == c;
    assert tag + "0\n" == "<" + n + ">0\n";
  }

  /** A tag followed by a character that is neither a word character nor `+` gets the value `0` and a line feed. */
  lemma EmptyTagFilled(a: string, n: string, c: char, b: string)
    requires !IsWordChar(c) && c != '+'
    requires forall j | 0 <= j < |a| :: EmptyTagHit(n, (a + ("<" + n + ">" + [c] + b))[j..]).None?
    ensures Rewrite(a + ("<" + n + ">" + [c] + b), EmptyTag(n)) ==
      a + ("<" + n + ">0\n" + Rewrite(b, EmptyTag(n)))
  {
    var u := "<" + n + ">" + [c] + b;
    EmptyTagAt(n, c, b);
    RewriteAt(a, u, EmptyTag(n));
    assert u[|n| + 3..] == b;
  }

  /** A tag followed by a word character or `+`, or ending the text, is not a match. */
  lemma EmptyTagKept(n: string, b: string)
    requires b == [] || IsWordChar(b[0]) || b[0] == '+'
    ensures EmptyTagHit(n, "<" + n + ">" + b).None?
  {
    var t := "<" + n + ">";
    if b != [] {
      assert (t + b)[|t|] == b[0];
    }
  }

  // ---------------------------------------------------------------------------------------------
  // _inject_tags

  /** What replaces each `<OFC>`: an ACCTSTMT aggregate opened, with an ACCTFROM of dummy values. */
  const Wrapper := "<OFC>\n" + "<ACCTSTMT>\n" + "<ACCTFROM>\n" + "<BANKID>0\n" + "<ACCTID>0\n" + "<ACCTTYPE>0\n" + "</ACCTFROM>\n"

  /** What replaces each `</OFC>`: the ACCTSTMT aggregate closed first. */
  const CloseWrapper := "</ACCTSTMT>\n</OFC>"

  /** A match of `<OFC>\w*\s*<ACCTSTMT>` at the start of `t`; the runs are taken whole since neither class holds `<`. */
  predicate AcctStmtAt(t: string) {
    OccursAt(t, "<OFC>", 0) &&
    var w := RunEnd(t, 5, WordChar);
    var x := RunEnd(t, w, RegexSpace);
    OccursAt(t, "<ACCTSTMT>", x)
  }

  /** The search of `re.findall`: the pattern matches somewhere in the text. */
  predicate HasAcctStmt(s: string) {
    exists j | 0 <= j < |s| :: AcctStmtAt(s[j..])
  }

  /**
   * The wrapper injected around the body of the OFC aggregate, when the text does not already
   * have one. The function has no `else` branch: when the pattern is found it returns nothing.
   * The injection never shortens the text, and changes it exactly when `<OFC>` or `</OFC>` occurs.
   */
  function InjectTags(s: string): (r: Option<string>)
    ensures r.None? <==> HasAcctStmt(s)
    ensures r.Some? ==> |r.value| >= |s|
    ensures r.Some? ==> (r.value == s <==> !Occurs(s, "<OFC>") && !Occurs(s, "</OFC>"))
  {
    if !HasAcctStmt(s) then
      var t := Rewrite(s, Literal("<OFC>", Wrapper));
      var u := Rewrite(t, Literal("</OFC>", CloseWrapper));
      LiteralUnchanged(s, "<OFC>", Wrapper);
      LiteralUnchanged(t, "</OFC>", CloseWrapper);
      assert u == s ==> t == s;
      Some(u)
    else None
  }

  /**
   * The injection as evidently intended: a text that already has the ACCTSTMT aggregate is
   * returned as it is.
   */
  function InjectTagsIntended(s: string): (r: string)
    ensures HasAcctStmt(s) ==> r == s
    ensures InjectTags(s).Some? ==> r == InjectTags(s).value
  {
    if !HasAcctStmt(s) then
      Rewrite(Rewrite(s, Literal("<OFC>", Wrapper)), Literal("</OFC>", CloseWrapper))
    else s
  }

  /** An injection pattern that matches at `j` is an occurrence of `<OFC>` there. */
  lemma AcctStmtOccurs(s: string, j: nat)
    requires j < |s| && AcctStmtAt(s[j..])
    ensures OccursAt(s, "<OFC>", j)
  {
    assert s[j..][..5] == s[j..j + 5];
  }

  /** Text without `<OFC>` and `</OFC>` is returned as it is. */
  lemma InjectTagsNoOfc(s: string)
    requires !Occurs(s, "<OFC>") && !Occurs(s, "</OFC>")
    ensures InjectTags(s) == Some(s)
  {
    forall j | 0 <= j < |s| ensures !AcctStmtAt(s[j..]) {
      if AcctStmtAt(s[j..]) {
        AcctStmtOccurs(s, j);
      }
    }
    LiteralUnchanged(s, "<OFC>", Wrapper);
    LiteralUnchanged(s, "</OFC>", CloseWrapper);
  }

  /**
   * `str.replace` with a longer replacement never shortens the text, and leaves it as it is
   * exactly when the target does not occur in it.
   */
  lemma LiteralUnchanged(s: string, target: string, replacement: string)
    requires target != [] && |replacement| > |target|
    ensures |Rewrite(s, Literal(target, replacement))| >= |s|
    ensures Rewrite(s, Literal(target, replacement)) != s ==> |Rewrite(s, Literal(target, replacement))| > |s|
    ensures Rewrite(s, Literal(target, replacement)) == s <==> !Occurs(s, target)
  {
    var p := Literal(target, replacement);
    RewriteGrowsLength(s, p);
    RewriteUnchangedIff(s, p);
    forall j | 0 <= j < |s| ensures Matcher(p)(s[j..]).None? <==> !OccursAt(s, target, j) {
      OccursDrop(s, target, j);
    }
    if Occurs(s, target) {
      var k: nat :| k <= |s| && OccursAt(s, target, k);
      assert k < |s|;
    }
  }

  /** When the pattern is found the injection gives no text at all. */
  lemma InjectTagsFound(s: string, j: nat)
    requires j < |s| && AcctStmtAt(s[j..])
    ensures InjectTags(s).None?
  {
  }

  // ---------------------------------------------------------------------------------------------
  // fix_ofc

  /**
   * The three repairs, in order; the last may give no text. On a text where no bad tag and no
   * tag without a value is found, the first two steps change nothing and only the injection acts.
   */
  function FixOfc(s: string): (r: Option<string>)
    ensures (forall j | 0 <= j < |s| ::
               BadTagHit("TRNRS", s[j..]).None? && BadTagWithValueHit("CLTID", s[j..]).None? &&
               EmptyTagHit("FITID", s[j..]).None? && EmptyTagHit("CHKNUM", s[j..]).None?) ==>
      r == InjectTags(s)
  {
    RepairsSpare(s);
    InjectTags(FillDummyTags(RemoveBadTags(s)))
  }

  /** Where neither step finds its pattern, the first two repairs give the text back. */
  lemma RepairsSpare(s: string)
    ensures (forall j | 0 <= j < |s| ::
               BadTagHit("TRNRS", s[j..]).None? && BadTagWithValueHit("CLTID", s[j..]).None? &&
               EmptyTagHit("FITID", s[j..]).None? && EmptyTagHit("CHKNUM", s[j..]).None?) ==>
      FillDummyTags(RemoveBadTags(s)) == s
  {
    if forall j | 0 <= j < |s| ::
         BadTagHit("TRNRS", s[j..]).None? && BadTagWithValueHit("CLTID", s[j..]).None? &&
         EmptyTagHit("FITID", s[j..]).None? && EmptyTagHit("CHKNUM", s[j..]).None? {
      RemoveBadTagsUnchangedIff(s);
      FillDummyTagsUnchangedIff(s);
    }
  }

  /** The three repairs, with the injection as evidently intended: they always give a text. */
  function FixOfcIntended(s: string): (r: string)
    ensures FixOfc(s).Some? ==> r == FixOfc(s).value
    ensures FixOfc(s).None? ==> r == FillDummyTags(RemoveBadTags(s))
  {
    InjectTagsIntended(FillDummyTags(RemoveBadTags(s)))
  }
}
