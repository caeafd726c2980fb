/**
 * The scan of `re.sub` and `str.replace`, for any matcher: where the matcher matches, its output
 * replaces the match and the scan resumes after it; elsewhere one character is copied.
 */
module Scanning {
  import opened Wrappers
  import opened Text

  /** A match at the start of a text: its length and what replaces it. */
  datatype Hit = Hit(len: nat, output: string)

  /** A matcher never reports an empty match, nor one longer than the text. */
  ghost predicate Advances(m: string -> Option<Hit>) {
    forall t :: m(t).Some? ==> 0 < m(t).value.len <= |t|
  }

  /**
   * The scan of `re.sub` and `str.replace` for any matcher `m`: where `m` matches, its output
   * replaces the match and the scan resumes after it; elsewhere one character is copied.
   */
  function Scan(s: string, m: string -> Option<Hit>): string
    requires Advances(m)
    decreases |s|
  {
    if s == [] then []
    else
      match m(s)
      case Some(h) => h.output + Scan(s[h.len..], m)
      case None => [s[0]] + Scan(s[1..], m)
  }

  /** Where the matcher matches nowhere, the scan copies the whole text. */
  lemma {:induction false} ScanNoHit(s: string, m: string -> Option<Hit>)
    requires Advances(m)
    requires forall j | 0 <= j < |s| :: m(s[j..]).None?
    ensures Scan(s, m) == s
    decreases |s|
  {
    if s != [] {
      assert m(s).None? by {
        assert s[0..] == s;
      }
      forall j | 0 <= j < |s[1..]| ensures m(s[1..][j..]).None? {
        assert s[1..][j..] == s[j + 1..];
      }
      ScanNoHit(s[1..], m);
      assert [s[0]] + s[1..] == s;
    }
  }

  // ---------------------------------------------------------------------------------------------
  // The scan replaces the leftmost match, then goes on after it

  /** No match starts in `a`: the scan copies `a` and goes on with `b`. */
  lemma {:induction false} ScanSkip(a: string, b: string, m: string -> Option<Hit>)
    requires Advances(m)
    requires forall j | 0 <= j < |a| :: m((a + b)[j..]).None?
    ensures Scan(a + b, m) == a + Scan(b, m)
  {
    if a == [] {
      assert a + b == b;
    } else {
      var s := a + b;
      assert m(s).None? by {
        assert s[0..] == s;
      }
      assert s[1..] == a[1..] + b;
      forall j | 0 <= j < |a[1..]| ensures m((a[1..] + b)[j..]).None? {
        assert (a[1..] + b)[j..] == s[j + 1..];
      }
      calc {
        Scan(s, m);
        [s[0]] + Scan(s[1..], m);
        { ScanSkip(a[1..], b, m); }
        [a[0]] + (a[1..] + Scan(b, m));
        { assert [a[0]] + a[1..] == a; }
        a + Scan(b, m);
      }
    }
  }

  /** The scan replaces the leftmost match, at `k`, ending at `e` and replaced by `out`, and resumes right after it. */
  lemma ScanMatchAt(s: string, m: string -> Option<Hit>, k: nat, e: nat, out: string)
    requires Advances(m)
    requires k < e <= |s| && m(s[k..]).Some? && m(s[k..]).value.len == e - k && m(s[k..]).value.output == out
    requires forall j | 0 <= j < k :: m(s[j..]).None?
    ensures Scan(s, m) == s[..k] + out + Scan(s[e..], m)
  {
    var a, b := s[..k], s[k..];
    assert s == a + b;
    forall j | 0 <= j < |a| ensures m((a + b)[j..]).None? {
      assert (a + b)[j..] == s[j..];
    }
    ScanSkip(a, b, m);
    assert b[e - k..] == s[e..];
    assert Scan(b, m) == out + Scan(s[e..], m);
    Assoc(a, out, Scan(s[e..], m));
  }

  /** The leftmost match at or after `from`, if there is one. */
  function FirstHit(s: string, m: string -> Option<Hit>, from: nat): (r: Option<nat>)
    requires from <= |s|
    ensures r.Some? ==> from <= r.value < |s| && m(s[r.value..]).Some?
    ensures r.Some? ==> forall j | from <= j < r.value :: m(s[j..]).None?
    ensures r.None? ==> forall j | from <= j < |s| :: m(s[j..]).None?
    decreases |s| - from
  {
    if from == |s| then None
    else if m(s[from..]).Some? then Some(from)
    else FirstHit(s, m, from + 1)
  }

  // ---------------------------------------------------------------------------------------------
  // Deleting and growing matchers

  /** A match of a deleting pattern keeps a prefix of itself and removes the rest, which holds no line feed. */
  predicate DeletingMatch(h: Hit, s: string) {
    |h.output| < h.len <= |s| && h.output == s[..|h.output|] && Count(s[|h.output|..h.len], '\n') == 0
  }

  ghost predicate OnlyDeletes(m: string -> Option<Hit>) {
    forall t :: m(t).Some? ==> DeletingMatch(m(t).value, t)
  }

  /** Each match is replaced by something longer. */
  ghost predicate OnlyGrows(m: string -> Option<Hit>) {
    forall t :: m(t).Some? ==> |m(t).value.output| > m(t).value.len
  }

  /** `r` is `s` with some characters removed, none of them a line feed. */
  predicate DropsOnly(r: string, s: string)
    decreases |s|
  {
    if s == [] then r == []
    else (r != [] && r[0] == s[0] && DropsOnly(r[1..], s[1..])) || (s[0] != '\n' && DropsOnly(r, s[1..]))
  }

  lemma {:induction false} DropsOnlyKeep(a: string, r: string, s: string)
    requires DropsOnly(r, s)
    ensures DropsOnly(a + r, a + s)
  {
    if a != [] {
      DropsOnlyKeep(a[1..], r, s);
      assert (a + r)[1..] == a[1..] + r && (a + s)[1..] == a[1..] + s;
    } else {
      assert a + r == r && a + s == s;
    }
  }

  lemma {:induction false} DropsOnlyDrop(d: string, r: string, s: string)
    requires DropsOnly(r, s) && Count(d, '\n') == 0
    ensures DropsOnly(r, d + s)
  {
    if d != [] {
      DropsOnlyDrop(d[1..], r, s);
      assert (d + s)[1..] == d[1..] + s;
    } else {
      assert d + s == s;
    }
  }

  /** Dropping characters other than line feeds keeps every line feed and never lengthens. */
  lemma {:induction false} DropsOnlyLines(r: string, s: string)
    requires DropsOnly(r, s)
    ensures Count(r, '\n') == Count(s, '\n') && |r| <= |s|
    decreases |s|
  {
    if s != [] {
      if r != [] && r[0] == s[0] && DropsOnly(r[1..], s[1..]) {
        DropsOnlyLines(r[1..], s[1..]);
      } else {
        DropsOnlyLines(r, s[1..]);
      }
    }
  }

  /** Dropping characters twice is dropping characters once. */
  lemma {:induction false} DropsOnlyTrans(r: string, m: string, s: string)
    requires DropsOnly(r, m) && DropsOnly(m, s)
    ensures DropsOnly(r, s)
    decreases |s|
  {
    if s != [] {
      if m != [] && m[0] == s[0] && DropsOnly(m[1..], s[1..]) {
        if r != [] && r[0] == m[0] && DropsOnly(r[1..], m[1..]) {
          DropsOnlyTrans(r[1..], m[1..], s[1..]);
        } else {
          DropsOnlyTrans(r, m[1..], s[1..]);
        }
      } else {
        DropsOnlyTrans(r, m, s[1..]);
      }
    }
  }

  /** A deleting scan only drops characters, and never a line feed. */
  lemma {:induction false} ScanDrops(s: string, m: string -> Option<Hit>)
    requires Advances(m) && OnlyDeletes(m)
    ensures DropsOnly(Scan(s, m), s)
    decreases |s|, 1
  {
    if s != [] {
      if m(s).Some? {
        ScanDropsAtMatch(s, m);
      } else {
        var r := Scan(s[1..], m);
        assert Scan(s, m) == [s[0]] + r;
        assert s == [s[0]] + s[1..];
        assert DropsOnly(r, s[1..]) by {
          ScanDrops(s[1..], m);
        }
        DropsOnlyKeep([s[0]], r, s[1..]);
      }
    }
  }

  /** The step of ScanDrops where a match starts the text. */
  lemma {:induction false} ScanDropsAtMatch(s: string, m: string -> Option<Hit>)
    requires Advances(m) && OnlyDeletes(m) && s != [] && m(s).Some?
    ensures DropsOnly(Scan(s, m), s)
    decreases |s|, 0
  {
    var h := m(s).value;
    assert DeletingMatch(h, s);
    ScanDrops(s[h.len..], m);
    DropsAround(s, |h.output|, h.len, Scan(s[h.len..], m));
  }

  /** Keeping `s[..q]`, dropping `s[q..e]` (no line feed there) and dropping from the rest only drops. */
  lemma DropsAround(s: string, q: nat, e: nat, r: string)
    requires q <= e <= |s| && Count(s[q..e], '\n') == 0 && DropsOnly(r, s[e..])
    ensures DropsOnly(s[..q] + r, s)
  {
    assert s == s[..q] + (s[q..e] + s[e..]);
    DropsOnlyDrop(s[q..e], r, s[e..]);
    DropsOnlyKeep(s[..q], r, s[q..e] + s[e..]);
  }

  /** A growing scan never shortens. */
  lemma {:induction false} ScanGrowsLength(s: string, m: string -> Option<Hit>)
    requires Advances(m) && OnlyGrows(m)
    ensures |Scan(s, m)| >= |s|
    decreases |s|
  {
    if s != [] {
      match m(s)
      case Some(h) => ScanGrowsLength(s[h.len..], m);
      case None => ScanGrowsLength(s[1..], m);
    }
  }

  /** A deleting scan shortens any text in which the matcher matches somewhere. */
  lemma {:induction false} ScanShrinks(s: string, m: string -> Option<Hit>, k: nat)
    requires Advances(m) && OnlyDeletes(m)
    requires k < |s| && m(s[k..]).Some?
    ensures |Scan(s, m)| < |s|
    decreases k
  {
    match m(s)
    case Some(h) =>
      DeletingShorter(m, s);
      ScanDeletesLength(s[h.len..], m);
    case None =>
      assert s[0..] == s;
      assert s[1..][k - 1..] == s[k..];
      ScanShrinks(s[1..], m, k - 1);
  }

  /** A match of a deleting matcher is replaced by something shorter. */
  lemma DeletingShorter(m: string -> Option<Hit>, t: string)
    requires OnlyDeletes(m) && m(t).Some?
    ensures |m(t).value.output| < m(t).value.len
  {
    assert DeletingMatch(m(t).value, t);
  }

  /** A deleting scan never lengthens. */
  lemma ScanDeletesLength(s: string, m: string -> Option<Hit>)
    requires Advances(m) && OnlyDeletes(m)
    ensures |Scan(s, m)| <= |s|
  {
    ScanDrops(s, m);
    DropsOnlyLines(Scan(s, m), s);
  }

  /** A growing scan lengthens any text in which the matcher matches somewhere. */
  lemma {:induction false} ScanGrows(s: string, m: string -> Option<Hit>, k: nat)
    requires Advances(m) && OnlyGrows(m)
    requires k < |s| && m(s[k..]).Some?
    ensures |Scan(s, m)| > |s|
    decreases k
  {
    match m(s)
    case Some(h) =>
      ScanGrowsLength(s[h.len..], m);
    case None =>
      assert s[0..] == s;
      assert s[1..][k - 1..] == s[k..];
      ScanGrows(s[1..], m, k - 1);
  }

  /** A deleting or growing scan leaves the text as it is exactly when the matcher matches nowhere in it. */
  lemma ScanUnchangedIff(s: string, m: string -> Option<Hit>)
    requires Advances(m) && (OnlyDeletes(m) || OnlyGrows(m))
    ensures Scan(s, m) == s <==> forall j | 0 <= j < |s| :: m(s[j..]).None?
    ensures Scan(s, m) != s ==> |Scan(s, m)| != |s|
  {
    match FirstHit(s, m, 0)
    case None =>
      ScanNoHit(s, m);
    case Some(k) =>
      if OnlyDeletes(m) {
        ScanShrinks(s, m, k);
      } else {
        ScanGrows(s, m, k);
      }
  }
}

/**
 * The substitutions of the repair pipeline. Each `re.sub(pattern, replacement, text)` and each
 * `text.replace(old, new)` scans the text from left to right: where the pattern matches, the match
 * is replaced and the scan resumes after it; elsewhere one character is copied. None of the
 * patterns looks behind its start, so a match at position `k` is decided by `s[k..]` alone.
 */
module Substitution {
  import opened Wrappers
  import opened Text
  import opened Scanning

  /** The patterns of the repairs. */
  datatype Pattern =
    | InlineClose                     // (\w+.*)<\/\w+>  replaced by group 1
    | BadTag(name: string)            // <[/]*NAME>      deleted
    | BadTagWithValue(name: string)   // <[/]*NAME>\w+   deleted
    | EmptyTag(name: string)          // (<NAME>)[^\w+]  replaced by <NAME>0\n
    | Literal(target: string, replacement: string)  // text.replace(target, replacement)

  /** The patterns whose replacement is a prefix of the match and whose removed part holds no line feed. */
  predicate Deletes(p: Pattern) {
    match p
    case InlineClose => true
    case BadTag(n) => AllIn(n, Dot)
    case BadTagWithValue(n) => AllIn(n, Dot)
    case EmptyTag(_) => false
    case Literal(_, _) => false
  }

  // ---------------------------------------------------------------------------------------------
  // `(\w+.*)<\/\w+>`

  /** The end of the first line of `s`: the index of its first line feed, or `|s|`. */
  function LineEnd(s: string): (e: nat)
    ensures e <= |s| && (e == |s| || s[e] == '\n')
    ensures forall m | 0 <= m < e :: s[m] != '\n'
  {
    RunEndAll(s, 0, Dot);
    RunEnd(s, 0, Dot)
  }

  /** A closing tag `</WORD>` starts at `q`, its name the longest run of word characters after `</`. */
  predicate CloseTokenAt(s: string, q: nat) {
    q + 2 < |s| && s[q] == '<' && s[q + 1] == '/' &&
    var e := RunEnd(s, q + 2, WordChar);
    q + 2 < e < |s| && s[e] == '>'
  }

  /** The position just after the closing tag that starts at `q`. */
  function CloseTokenEnd(s: string, q: nat): (e: nat)
    requires CloseTokenAt(s, q)
    ensures q + 3 < e <= |s|
    ensures forall m | q <= m < e :: s[m] != '\n'
  {
    RunEndAll(s, q + 2, WordChar);
    RunEnd(s, q + 2, WordChar) + 1
  }

  /** The last closing tag that starts below `hi`. */
  function LastCloseBelow(s: string, hi: nat): (r: Option<nat>)
    requires hi <= |s|
    ensures r.Some? ==> r.value < hi && CloseTokenAt(s, r.value)
    ensures r.Some? ==> forall q | r.value < q < hi :: !CloseTokenAt(s, q)
    ensures r.None? ==> forall q | 0 <= q < hi :: !CloseTokenAt(s, q)
  {
    if hi == 0 then None
    else if CloseTokenAt(s, hi - 1) then Some(hi - 1)
    else LastCloseBelow(s, hi - 1)
  }

  /** The last closing tag below `hi` is the one at `q` when none follows it below `hi`. */
  lemma {:induction false} LastCloseBelowIs(s: string, hi: nat, q: nat)
    requires q < hi <= |s| && CloseTokenAt(s, q)
    requires forall y | q < y < hi :: !CloseTokenAt(s, y)
    ensures LastCloseBelow(s, hi) == Some(q)
    decreases hi
  {
    if q < hi - 1 {
      LastCloseBelowIs(s, hi - 1, q);
    }
  }

  /**
   * What the regular expression `(\w+.*)<\/\w+>` requires of a match at the start of `s` whose
   * group 1 is `s[..q]`: a word character first, no line feed before `q`, and a closing tag at `q`.
   */
  predicate InlineMatches(s: string, q: nat) {
    CloseTokenAt(s, q) && 0 < q && IsWordChar(s[0]) && forall m | 0 <= m < q :: s[m] != '\n'
  }

  // ---------------------------------------------------------------------------------------------
  // Matching and scanning

  /** The match of `(\w+.*)<\/\w+>` at the start of `s`: group 1 is kept, the closing tag goes. */
  function InlineHit(s: string): (r: Option<Hit>)
    ensures r.Some? ==> 0 < r.value.len <= |s|
    ensures r.Some? ==>
      var q := |r.value.output|;
      q <= |s| && r.value.output == s[..q] && InlineMatches(s, q) && r.value.len == CloseTokenEnd(s, q) &&
      forall q' | q < q' < |s| :: !InlineMatches(s, q')
    ensures r.None? ==> forall q | 0 <= q < |s| :: !InlineMatches(s, q)
  {
    if s != [] && IsWordChar(s[0]) then
      match LastCloseBelow(s, LineEnd(s))
      case None => None
      case Some(q) => Some(Hit(CloseTokenEnd(s, q), s[..q]))
    else None
  }

  /** The match of `<[/]*NAME>` at the start of `s`, deleted. */
  function BadTagHit(n: string, s: string): (r: Option<Hit>)
    ensures r.Some? ==> 0 < r.value.len <= |s|
    ensures r.Some? ==> var k := r.value.len - |n| - 1;
      r.value.output == [] && 0 < k && s[0] == '<' && (forall m | 1 <= m < k :: s[m] == '/') && OccursAt(s, n + ">", k)
  {
    if s != [] && s[0] == '<' then
      var k := RunEnd(s, 1, Slash);
      RunEndAll(s, 1, Slash);
      if OccursAt(s, n + ">", k) then Some(Hit(k + |n| + 1, "")) else None
    else None
  }

  /** The match of `<[/]*NAME>\w+` at the start of `s`, deleted; `\w+` takes the whole run of word characters. */
  function BadTagWithValueHit(n: string, s: string): (r: Option<Hit>)
    ensures r.Some? ==> 0 < r.value.len <= |s|
    ensures r.Some? ==> BadTagHit(n, s).Some? && var b := BadTagHit(n, s).value.len;
      r.value.output == [] && b < r.value.len && (forall m | b <= m < r.value.len :: IsWordChar(s[m])) &&
      (r.value.len == |s| || !IsWordChar(s[r.value.len]))
  {
    if s != [] && s[0] == '<' then
      var k := RunEnd(s, 1, Slash);
      if OccursAt(s, n + ">", k) then
        var w := RunEnd(s, k + |n| + 1, WordChar);
        RunEndAll(s, k + |n| + 1, WordChar);
        if k + |n| + 1 < w then Some(Hit(w, "")) else None
      else None
    else None
  }

  /**
   * The match of `(<NAME>)[^\w+]` at the start of `s`: the tag and the one character after it, which
   * is neither a word character nor `+`, are replaced by `<NAME>0` and a line feed.
   */
  function EmptyTagHit(n: string, s: string): (r: Option<Hit>)
    ensures r.Some? ==> 0 < r.value.len <= |s|
    ensures r.Some? ==> var e := r.value.len - 1;
      e == |n| + 2 && OccursAt(s, "<" + n + ">", 0) && !IsWordChar(s[e]) && s[e] != '+' &&
      r.value.output == s[..e] + "0\n"
  {
    var t := "<" + n + ">";
    if OccursAt(s, t, 0) && |t| < |s| && !IsWordChar(s[|t|]) && s[|t|] != '+' then
      Some(Hit(|t| + 1, t + "0\n"))
    else None
  }

  /** An occurrence of `target` at the start of `s`, replaced by `replacement`. */
  function LiteralHit(target: string, replacement: string, s: string): (r: Option<Hit>)
    ensures r.Some? ==> 0 < r.value.len <= |s|
    ensures r.Some? <==> target != [] && OccursAt(s, target, 0)
    ensures r.Some? ==> s[..r.value.len] == target && r.value.output == replacement
  {
    if target != [] && OccursAt(s, target, 0) then Some(Hit(|target|, replacement)) else None
  }

  /** The matcher of pattern `p`. */
  function Matcher(p: Pattern): (m: string -> Option<Hit>)
    ensures Advances(m)
  {
    match p
    case InlineClose => t => InlineHit(t)
    case BadTag(n) => t => BadTagHit(n, t)
    case BadTagWithValue(n) => t => BadTagWithValueHit(n, t)
    case EmptyTag(n) => t => EmptyTagHit(n, t)
    case Literal(target, replacement) => t => LiteralHit(target, replacement, t)
  }

  /** Every match of `p` in `s`, taken from left to right without overlap, replaced. */
  function Rewrite(s: string, p: Pattern): string {
    Scan(s, Matcher(p))
  }

  /** The patterns whose replacement is longer than what it replaces. */
  predicate Grows(p: Pattern) {
    p.EmptyTag? || (p.Literal? && |p.replacement| > |p.target|)
  }

  lemma GrowingMatcher(p: Pattern)
    requires Grows(p)
    ensures OnlyGrows(Matcher(p))
  {
  }

  /** A deleting pattern only drops characters, never a line feed. */
  lemma RewriteDrops(s: string, p: Pattern)
    requires Deletes(p)
    ensures DropsOnly(Rewrite(s, p), s)
  {
    DeletingMatcher(p);
    ScanDrops(s, Matcher(p));
  }

  /** A growing pattern never shortens the text. */
  lemma RewriteGrowsLength(s: string, p: Pattern)
    requires Grows(p)
    ensures |Rewrite(s, p)| >= |s|
  {
    GrowingMatcher(p);
    ScanGrowsLength(s, Matcher(p));
  }

  /** A deleting or growing pattern leaves the text as it is exactly when it matches nowhere in it. */
  lemma RewriteUnchangedIff(s: string, p: Pattern)
    requires Deletes(p) || Grows(p)
    ensures Rewrite(s, p) == s <==> forall j | 0 <= j < |s| :: Matcher(p)(s[j..]).None?
    ensures Rewrite(s, p) != s ==> |Rewrite(s, p)| != |s|
  {
    if Deletes(p) {
      DeletingMatcher(p);
    } else {
      GrowingMatcher(p);
    }
    ScanUnchangedIff(s, Matcher(p));
  }

  /**
   * Two passes that both delete, or both lengthen, leave a text as it is exactly when neither
   * pattern matches anywhere in it.
   */
  lemma TwoPassUnchangedIff(s: string, p: Pattern, q: Pattern)
    requires (Deletes(p) && Deletes(q)) || (Grows(p) && Grows(q))
    ensures Rewrite(Rewrite(s, p), q) == s <==>
      forall j | 0 <= j < |s| :: Matcher(p)(s[j..]).None? && Matcher(q)(s[j..]).None?
  {
    var t := Rewrite(s, p);
    RewriteUnchangedIff(s, p);
    RewriteUnchangedIff(t, q);
    if Deletes(p) {
      RewriteDrops(s, p);
      RewriteDrops(t, q);
      DropsOnlyLines(t, s);
      DropsOnlyLines(Rewrite(t, q), t);
    } else {
      RewriteGrowsLength(s, p);
      RewriteGrowsLength(t, q);
    }
  }

  /** The patterns whose every match starts with `<`. */
  predicate StartsWithLt(p: Pattern) {
    match p
    case InlineClose => false
    case BadTag(_) => true
    case BadTagWithValue(_) => true
    case EmptyTag(_) => true
    case Literal(target, _) => |target| > 0 && target[0] == '<'
  }

  lemma NoHitWithoutLt(p: Pattern, t: string)
    requires StartsWithLt(p) && (t == [] || t[0] != '<')
    ensures Matcher(p)(t).None?
  {
    match p
    case EmptyTag(n) => NoOccurrenceAt(t, "<" + n + ">", 0);
    case Literal(target, _) => if target != [] { NoOccurrenceAt(t, target, 0); }
    case _ =>
  }

  /** A pattern whose matches start with `<` leaves a text without `<` as it is. */
  lemma RewriteWithoutLt(s: string, p: Pattern)
    requires StartsWithLt(p) && forall m | 0 <= m < |s| :: s[m] != '<'
    ensures Rewrite(s, p) == s
  {
    forall j | 0 <= j < |s| ensures Matcher(p)(s[j..]).None? {
      assert s[j] == s[j..][0];
      NoHitWithoutLt(p, s[j..]);
    }
    ScanNoHit(s, Matcher(p));
  }

  /** Where no match starts in `a` and one starts right after it, the scan copies `a` and replaces that match. */
  lemma RewriteAt(a: string, u: string, p: Pattern)
    requires Matcher(p)(u).Some?
    requires forall j | 0 <= j < |a| :: Matcher(p)((a + u)[j..]).None?
    ensures var h := Matcher(p)(u).value;
      Rewrite(a + u, p) == a + (h.output + Rewrite(u[h.len..], p))
  {
    ScanSkip(a, u, Matcher(p));
  }

  lemma DeletingBadTagHit(n: string, s: string)
    requires AllIn(n, Dot) && BadTagHit(n, s).Some?
    ensures DeletingMatch(BadTagHit(n, s).value, s)
  {
    var k := RunEnd(s, 1, Slash);
    RunEndAll(s, 1, Slash);
    OccursInClass(s, n + ">", k, Dot);
    CountAbsent(s, 0, k + |n| + 1, '\n');
  }

  lemma DeletingBadTagWithValueHit(n: string, s: string)
    requires AllIn(n, Dot) && BadTagWithValueHit(n, s).Some?
    ensures DeletingMatch(BadTagWithValueHit(n, s).value, s)
  {
    var k := RunEnd(s, 1, Slash);
    RunEndAll(s, 1, Slash);
    OccursInClass(s, n + ">", k, Dot);
    RunEndAll(s, k + |n| + 1, WordChar);
    CountAbsent(s, 0, RunEnd(s, k + |n| + 1, WordChar), '\n');
  }

  /** The characters of an occurrence of a word whose characters are all in one class. */
  lemma OccursInClass(s: string, w: string, k: nat, c: CharClass)
    requires OccursAt(s, w, k) && AllIn(w, c)
    ensures forall m | k <= m < k + |w| :: InClass(s[m], c)
  {
    OccursChars(s, w, k);
    forall m | k <= m < k + |w| ensures InClass(s[m], c) {
      assert s[k + (m - k)] == w[m - k];
    }
  }

  lemma DeletingInlineHit(s: string)
    requires InlineHit(s).Some?
    ensures DeletingMatch(InlineHit(s).value, s)
  {
    var q := LastCloseBelow(s, LineEnd(s)).value;
    CountAbsent(s, q, CloseTokenEnd(s, q), '\n');
  }

  lemma DeletingMatcher(p: Pattern)
    requires Deletes(p)
    ensures OnlyDeletes(Matcher(p))
  {
    forall t | Matcher(p)(t).Some? ensures DeletingMatch(Matcher(p)(t).value, t) {
      match p
      case InlineClose => DeletingInlineHit(t);
      case BadTag(n) => DeletingBadTagHit(n, t);
      case BadTagWithValue(n) => DeletingBadTagWithValueHit(n, t);
    }
  }
}
