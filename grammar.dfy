/**
 * The OFC tag grammar of OfcParser.__init__ and OfcParser._tag, as a recursive-descent
 * recogniser over (text, position).
 *
 * The parsing library's behaviour that the grammar relies on is written out:
 *  - before every tag token (`<`, the name, `>`, `</`) the blank characters " \t\r\n" are skipped;
 *  - before a content value (CharsNotIn) nothing is skipped;
 *  - `aggregate | content` tries the aggregate first and falls back to content at the same position;
 *  - one-or-more repetition takes as many children as match and never gives one back;
 *  - parsing a whole text matches a prefix of it: whatever follows the top aggregate is ignored.
 */
module OfcGrammar {
  import opened Wrappers
  import opened Text

  /** A node of the document tree. */
  datatype Node =
    | Content(name: string, value: string)
    | Aggregate(name: string, children: seq<Node>)

  /** A node recognised at some position, and the position just after it. */
  datatype Parsed = Parsed(node: Node, next: nat)

  /** The children recognised by a repetition, and the position where the repetition stopped. */
  datatype Children = Children(nodes: seq<Node>, next: nat)

  /** An open tag `<NAME>`: the name and the position just after `>`. */
  datatype Tag = Tag(name: string, next: nat)

  /** Tag names are non-empty strings over [A-Za-z0-9.]. */
  predicate ValidName(n: string) {
    |n| > 0 && AllIn(n, TagChar)
  }

  /** Content values are non-empty and hold no `<`, carriage return or line feed. */
  predicate ValidValue(v: string) {
    |v| > 0 && AllIn(v, ValueChar)
  }

  /** The shape of every tree the grammar produces: valid names, valid values, no empty aggregate. */
  predicate ValidNode(n: Node) {
    match n
    case Content(name, value) => ValidName(name) && ValidValue(value)
    case Aggregate(name, children) =>
      ValidName(name) && |children| > 0 && forall k | 0 <= k < |children| :: ValidNode(children[k])
  }

  /** The position of the first non-blank character at or after `i`. */
  function SkipBlanks(s: string, i: nat): (j: nat)
    requires i <= |s|
    ensures i <= j <= |s|
  {
    RunEnd(s, i, Blank)
  }

  /** `< NAME >`, each of the three tokens preceded by optional blanks. */
  function OpenTag(s: string, i: nat): (r: Option<Tag>)
    requires i <= |s|
    ensures r.Some? ==> i < r.value.next <= |s| && ValidName(r.value.name)
  {
    var a := SkipBlanks(s, i);
    if a < |s| && s[a] == '<' then
      var b := SkipBlanks(s, a + 1);
      var c := RunEnd(s, b, TagChar);
      var d := SkipBlanks(s, c);
      RunEndAll(s, b, TagChar);
      if b < c && d < |s| && s[d] == '>' then Some(Tag(s[b..c], d + 1)) else None
    else None
  }

  /**
   * `</ NAME >` followed by any blanks, which are consumed. The name is read and then dropped:
   * nothing compares it with the name of the aggregate being closed.
   */
  function CloseTag(s: string, i: nat): (r: Option<nat>)
    requires i <= |s|
    ensures r.Some? ==> i < r.value <= |s|
  {
    var a := SkipBlanks(s, i);
    if a + 1 < |s| && s[a] == '<' && s[a + 1] == '/' then
      var b := SkipBlanks(s, a + 2);
      var c := RunEnd(s, b, TagChar);
      var d := SkipBlanks(s, c);
      if b < c && d < |s| && s[d] == '>' then Some(SkipBlanks(s, d + 1)) else None
    else None
  }

  /** content ::= open tag, then the value: the longest non-empty run without `<`, CR or LF. */
  function ContentAt(s: string, i: nat): (r: Option<Parsed>)
    requires i <= |s|
    ensures r.Some? ==> r.value.node.Content? && ValidNode(r.value.node) && i < r.value.next <= |s|
    ensures r.Some? ==> r.value.next == |s| || !InClass(s[r.value.next], ValueChar)
  {
    match OpenTag(s, i)
    case None => None
    case Some(t) =>
      var e := RunEnd(s, t.next, ValueChar);
      RunEndAll(s, t.next, ValueChar);
      if t.next < e then Some(Parsed(Content(t.name, s[t.next..e]), e)) else None
  }

  /** aggregate ::= open tag, one or more children, close tag (of any name). */
  function AggregateAt(s: string, i: nat): (r: Option<Parsed>)
    requires i <= |s|
    ensures r.Some? ==> r.value.node.Aggregate? && ValidNode(r.value.node) && i < r.value.next <= |s|
    decreases |s| - i, 0
  {
    match OpenTag(s, i)
    case None => None
    case Some(t) =>
      var kids := ChildrenAt(s, t.next);
      if kids.nodes == [] then None
      else
        match CloseTag(s, kids.next)
        case None => None
        case Some(e) => Some(Parsed(Aggregate(t.name, kids.nodes), e))
  }

  /** aggregate | content: the aggregate is tried first. */
  function ElementAt(s: string, i: nat): (r: Option<Parsed>)
    requires i <= |s|
    ensures r.Some? ==> ValidNode(r.value.node) && i < r.value.next <= |s|
    decreases |s| - i, 1
  {
    var a := AggregateAt(s, i);
    if a.Some? then a else ContentAt(s, i)
  }

  /** As many elements as match one after another, starting at `i`. */
  function ChildrenAt(s: string, i: nat): (r: Children)
    requires i <= |s|
    ensures i <= r.next <= |s|
    ensures r.nodes == [] ==> r.next == i
    ensures forall k | 0 <= k < |r.nodes| :: ValidNode(r.nodes[k])
    decreases |s| - i, 2
  {
    match ElementAt(s, i)
    case None => Children([], i)
    case Some(p) =>
      var rest := ChildrenAt(s, p.next);
      Children([p.node] + rest.nodes, rest.next)
  }

  /** The parser's single attempt on a text: one aggregate at the start; the rest of the text is ignored. */
  function ParseString(s: string): (r: Option<Node>)
    ensures r.Some? ==> r.value.Aggregate? && ValidNode(r.value)
  {
    match AggregateAt(s, 0)
    case None => None
    case Some(p) => Some(p.node)
  }

  // ---------------------------------------------------------------------------------------------
  // Recognising the tokens of a known text

  /** The characters of an occurrence of `<n>`. */
  lemma OpenTagChars(s: string, i: nat, n: string)
    requires OccursAt(s, "<" + n + ">", i)
    ensures s[i] == '<' && s[i + 1..i + 1 + |n|] == n && s[i + 1 + |n|] == '>'
  {
    var w := "<" + n + ">";
    assert s[i..i + |w|] == w;
    assert w[0] == '<' && w[1 + |n|] == '>' && w[1..1 + |n|] == n;
    assert s[i] == w[0] && s[i + 1 + |n|] == w[1 + |n|];
    forall m | 0 <= m < |n| ensures s[i + 1..i + 1 + |n|][m] == n[m] {
      assert s[i + 1 + m] == w[1 + m];
    }
  }

  /** The characters of an occurrence of `</n>`. */
  lemma CloseTagChars(s: string, i: nat, n: string)
    requires OccursAt(s, "</" + n + ">", i)
    ensures s[i] == '<' && s[i + 1] == '/' && s[i + 2..i + 2 + |n|] == n && s[i + 2 + |n|] == '>'
  {
    var w := "</" + n + ">";
    assert s[i..i + |w|] == w;
    assert w[0] == '<' && w[1] == '/' && w[2 + |n|] == '>' && w[2..2 + |n|] == n;
    assert s[i] == w[0] && s[i + 1] == w[1] && s[i + 2 + |n|] == w[2 + |n|];
    forall m | 0 <= m < |n| ensures s[i + 2..i + 2 + |n|][m] == n[m] {
      assert s[i + 2 + m] == w[2 + m];
    }
  }

  /** The text at `i` is exactly the open tag `<n>`. */
  lemma OpenTagOver(s: string, i: nat, n: string)
    requires ValidName(n) && OccursAt(s, "<" + n + ">", i)
    ensures OpenTag(s, i) == Some(Tag(n, i + |n| + 2))
  {
    OpenTagChars(s, i, n);
    assert SkipBlanks(s, i) == i by { RunEndIs(s, i, Blank, i); }
    assert SkipBlanks(s, i + 1) == i + 1 by { RunEndIs(s, i + 1, Blank, i + 1); }
    assert RunEnd(s, i + 1, TagChar) == i + 1 + |n| by { RunEndOver(s, i + 1, n, TagChar); }
    assert SkipBlanks(s, i + 1 + |n|) == i + 1 + |n| by { RunEndIs(s, i + 1 + |n|, Blank, i + 1 + |n|); }
  }

  /** The text at `i` is a close tag `</n>`, whatever `n` is. */
  lemma CloseTagOver(s: string, i: nat, n: string)
    requires ValidName(n) && OccursAt(s, "</" + n + ">", i)
    ensures CloseTag(s, i) == Some(SkipBlanks(s, i + |n| + 3))
  {
    CloseTagChars(s, i, n);
    assert SkipBlanks(s, i) == i by { RunEndIs(s, i, Blank, i); }
    assert SkipBlanks(s, i + 2) == i + 2 by { RunEndIs(s, i + 2, Blank, i + 2); }
    assert RunEnd(s, i + 2, TagChar) == i + 2 + |n| by { RunEndOver(s, i + 2, n, TagChar); }
    assert SkipBlanks(s, i + 2 + |n|) == i + 2 + |n| by { RunEndIs(s, i + 2 + |n|, Blank, i + 2 + |n|); }
  }

  /** The text at `i` is the content element `<n>v`, and the value stops where `v` does. */
  lemma ContentOver(s: string, i: nat, n: string, v: string)
    requires ValidName(n) && ValidValue(v) && OccursAt(s, "<" + n + ">" + v, i)
    requires var e := i + |n| + 2 + |v|; e == |s| || !InClass(s[e], ValueChar)
    ensures ContentAt(s, i) == Some(Parsed(Content(n, v), i + |n| + 2 + |v|))
  {
    var t := i + |n| + 2;
    OccursSplit(s, "<" + n + ">", v, i);
    OccursAtSlice(s, v, t);
    assert OpenTag(s, i) == Some(Tag(n, t)) by { OpenTagOver(s, i, n); }
    assert RunEnd(s, t, ValueChar) == t + |v| by { RunEndOver(s, t, v, ValueChar); }
  }

  /** Where no open tag starts, no element starts and a repetition takes nothing. */
  lemma NoChildrenWithoutOpenTag(s: string, i: nat)
    requires i <= |s| && OpenTag(s, i).None?
    ensures ElementAt(s, i).None? && ChildrenAt(s, i) == Children([], i)
  {
  }

  /** Where the next non-blank text is `</`, there is no open tag. */
  lemma NoOpenTagAtClose(s: string, i: nat)
    requires i <= |s|
    requires SkipBlanks(s, i) + 1 < |s| && s[SkipBlanks(s, i)] == '<' && s[SkipBlanks(s, i) + 1] == '/'
    ensures OpenTag(s, i).None?
  {
    var a := SkipBlanks(s, i);
    RunEndIs(s, a + 1, Blank, a + 1);
    RunEndIs(s, a + 1, TagChar, a + 1);
  }

  /** Where the next non-blank character is not `<`, there is no open tag. */
  lemma NoOpenTagAtText(s: string, i: nat)
    requires i <= |s|
    requires SkipBlanks(s, i) == |s| || s[SkipBlanks(s, i)] != '<'
    ensures OpenTag(s, i).None?
  {
  }

  /**
   * An open tag followed by no value and by nothing that starts an element is neither an
   * aggregate (it has no child) nor a content element (its value would be empty).
   */
  lemma BareOpenTag(s: string, i: nat, n: string)
    requires ValidName(n) && OccursAt(s, "<" + n + ">", i)
    requires var j := i + |n| + 2; j <= |s| && (j == |s| || !InClass(s[j], ValueChar))
    requires ElementAt(s, i + |n| + 2).None?
    ensures ElementAt(s, i).None?
  {
    var j := i + |n| + 2;
    OpenTagOver(s, i, n);
    assert ChildrenAt(s, j) == Children([], j);
    assert AggregateAt(s, i).None?;
    RunEndIs(s, j, ValueChar, j);
    assert ContentAt(s, i).None?;
  }

  /**
   * A content element followed by `</`: the aggregate is tried first and fails, because the
   * blanks the value may start with are skipped onto text or onto the close tag, where no open
   * tag starts.
   */
  lemma ContentElement(s: string, i: nat, b: string, v: string)
    requires ValidName(b) && ValidValue(v) && OccursAt(s, "<" + b + ">" + v, i)
    requires var e := i + |b| + 2 + |v|; e + 1 < |s| && s[e] == '<' && s[e + 1] == '/'
    ensures ElementAt(s, i) == Some(Parsed(Content(b, v), i + |b| + 2 + |v|))
  {
    var t := i + |b| + 2;
    var e := t + |v|;
    OccursSplit(s, "<" + b + ">", v, i);
    assert AggregateAt(s, i).None? by {
      NoOpenTagInValue(s, t, v);
      NoChildrenWithoutOpenTag(s, t);
      OpenTagOver(s, i, b);
    }
    ContentOver(s, i, b, v);
  }

  /** No open tag starts in a value followed by `</`: blanks are skipped onto text or onto the `</`. */
  lemma NoOpenTagInValue(s: string, t: nat, v: string)
    requires ValidValue(v) && OccursAt(s, v, t)
    requires t + |v| + 1 < |s| && s[t + |v|] == '<' && s[t + |v| + 1] == '/'
    ensures OpenTag(s, t).None?
  {
    var e := t + |v|;
    OccursChars(s, v, t);
    var a := SkipBlanks(s, t);
    RunEndAll(s, t, Blank);
    assert !IsBlank(s[e]);
    if a < e {
      assert s[a] == v[a - t];
      NoOpenTagAtText(s, t);
    } else {
      NoOpenTagAtClose(s, t);
    }
  }

  /** At a close tag a repetition stops, and the close tag is taken whatever its name. */
  lemma CloseAfter(s: string, e: nat, c: string)
    requires ValidName(c) && OccursAt(s, "</" + c + ">", e)
    ensures ChildrenAt(s, e) == Children([], e) && CloseTag(s, e) == Some(SkipBlanks(s, e + |c| + 3))
  {
    CloseTagChars(s, e, c);
    RunEndIs(s, e, Blank, e);
    NoOpenTagAtClose(s, e);
    NoChildrenWithoutOpenTag(s, e);
    CloseTagOver(s, e, c);
  }

  /**
   * A close tag's name is not compared with the open tag it ends: `</c>` closes the aggregate
   * opened by `<a>` whatever `c` is, a content element needs no close tag of its own, and the
   * text after the top aggregate is ignored.
   */
  lemma LooseClose(a: string, b: string, v: string, c: string, rest: string)
    requires ValidName(a) && ValidName(b) && ValidName(c) && ValidValue(v)
    ensures ParseString(("<" + a + ">") + (("<" + b + ">" + v) + ("</" + c + ">" + rest)))
         == Some(Aggregate(a, [Content(b, v)]))
  {
    var wa, wb, wc := "<" + a + ">", "<" + b + ">" + v, "</" + c + ">" + rest;
    var s := wa + (wb + wc);
    assert [] + s == s;
    OccursPlaced([], wa, wb + wc);
    OccursPlaced(wa, wb, wc);
    Assoc(wa, wb, wc);
    OccursPlaced(wa + wb, "</" + c + ">", rest);
    LooseCloseAt(s, a, b, v, c);
  }

  lemma LooseCloseAt(s: string, a: string, b: string, v: string, c: string)
    requires ValidName(a) && ValidName(b) && ValidName(c) && ValidValue(v)
    requires OccursAt(s, "<" + a + ">", 0) && OccursAt(s, "<" + b + ">" + v, |a| + 2)
    requires OccursAt(s, "</" + c + ">", |a| + |b| + 4 + |v|)
    ensures ParseString(s) == Some(Aggregate(a, [Content(b, v)]))
  {
    var i := |a| + 2;
    var e := i + |b| + 2 + |v|;
    assert ChildrenAt(s, i) == Children([Content(b, v)], e) by {
      CloseTagChars(s, e, c);
      ContentElement(s, i, b, v);
      CloseAfter(s, e, c);
    }
    assert CloseTag(s, e) == Some(SkipBlanks(s, e + |c| + 3)) by {
      CloseAfter(s, e, c);
    }
    assert OpenTag(s, 0) == Some(Tag(a, i)) by {
      OpenTagOver(s, 0, a);
    }
    assert AggregateAt(s, 0) == Some(Parsed(Aggregate(a, [Content(b, v)]), SkipBlanks(s, e + |c| + 3)));
  }
}
