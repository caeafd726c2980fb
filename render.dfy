/**
 * The layout of an OFC document with one tag per line, and the grammar read back on it: every
 * content element is `<NAME>value` on its own line, every aggregate is `<NAME>` on a line, its
 * children, and `</NAME>` on a line.
 */
module Rendering {
  import opened Wrappers
  import opened Text
  import opened OfcGrammar

  /** A line of text: `w` and a line feed. */
  function Line(w: string): (r: string)
    ensures |r| == |w| + 1 && r[|w|] == '\n'
  {
    w + "\n"
  }

  /** The text of a tree, one tag per line. */
  function Render(n: Node): (r: string)
    ensures |r| > 0 && r[0] == '<'
  {
    match n
    case Content(name, value) => Line("<" + name + ">" + value)
    case Aggregate(name, children) => Line("<" + name + ">") + RenderAll(children) + Line("</" + name + ">")
  }

  /** The texts of a sequence of trees, one after the other. */
  function RenderAll(nodes: seq<Node>): (r: string)
    ensures nodes != [] ==> |r| > 0 && r[0] == '<'
  {
    if nodes == [] then [] else Render(nodes[0]) + RenderAll(nodes[1..])
  }

  /**
   * The trees whose text reads back as themselves: the grammar's shape, and no value made of
   * blanks only, since the grammar skips blanks before an open tag and can read the lines after
   * such a value as the children of an aggregate.
   */
  predicate Printable(n: Node) {
    match n
    case Content(name, value) => ValidName(name) && ValidValue(value) && !AllIn(value, Blank)
    case Aggregate(name, children) => ValidName(name) && |children| > 0 && AllPrintable(children)
  }

  predicate AllPrintable(nodes: seq<Node>) {
    nodes == [] || (Printable(nodes[0]) && AllPrintable(nodes[1..]))
  }

  /** What may follow a rendered tree for it to read back: nothing, or another tag. */
  predicate Follows(s: string, k: nat) {
    k == |s| || (k < |s| && s[k] == '<')
  }

  // ---------------------------------------------------------------------------------------------
  // The grammar at a position after blanks

  lemma SkipBlanksTwice(s: string, i: nat)
    requires i <= |s|
    ensures SkipBlanks(s, SkipBlanks(s, i)) == SkipBlanks(s, i)
  {
    var j := SkipBlanks(s, i);
    RunEndIs(s, j, Blank, j);
  }

  /** Blanks before a close tag change nothing: the rule starts by skipping them. */
  lemma CloseTagAfterBlanks(s: string, i: nat)
    requires i <= |s|
    ensures CloseTag(s, i) == CloseTag(s, SkipBlanks(s, i))
  {
    SkipBlanksTwice(s, i);
  }

  /** Blanks before an element change nothing: both of its rules start with an open tag. */
  lemma ElementAfterBlanks(s: string, i: nat)
    requires i <= |s|
    ensures ElementAt(s, i) == ElementAt(s, SkipBlanks(s, i))
  {
    var j := SkipBlanks(s, i);
    assert OpenTag(s, i) == OpenTag(s, j) by {
      SkipBlanksTwice(s, i);
    }
    assert AggregateAt(s, i) == AggregateAt(s, j);
    assert ContentAt(s, i) == ContentAt(s, j);
  }

  /** A line's occurrence is one of its text followed by a line feed. */
  lemma LineText(s: string, i: nat, w: string)
    requires OccursAt(s, Line(w), i)
    ensures OccursAt(s, w, i) && s[i + |w|] == '\n'
  {
    OccursSplit(s, w, "\n", i);
    assert s[i + |w|] == s[i + |w|..i + |w| + 1][0];
  }

  /** No blank at `i`: skipping blanks stays there. */
  lemma NoBlankAt(s: string, i: nat)
    requires i <= |s| && (i == |s| || !IsBlank(s[i]))
    ensures SkipBlanks(s, i) == i
  {
    RunEndIs(s, i, Blank, i);
  }

  /** One blank at `i` and none after it: skipping blanks moves one character. */
  lemma OneBlankAt(s: string, i: nat)
    requires i < |s| && IsBlank(s[i]) && (i + 1 == |s| || !IsBlank(s[i + 1]))
    ensures SkipBlanks(s, i) == i + 1
  {
    RunEndIs(s, i, Blank, i + 1);
  }

  // ---------------------------------------------------------------------------------------------
  // A tree laid out at a position of a text, described by offsets

  /** The length of a tree's text. */
  function Width(n: Node): (w: nat)
    ensures w >= 3
  {
    match n
    case Content(name, value) => |name| + |value| + 3
    case Aggregate(name, children) => 2 * |name| + 7 + AllWidth(children)
  }

  function AllWidth(nodes: seq<Node>): nat {
    if nodes == [] then 0 else Width(nodes[0]) + AllWidth(nodes[1..])
  }

  /**
   * The text at `i` holds the lines of printable tree `n`: the same text as `Render(n)`, stated
   * position by position so that the grammar can be followed along it.
   */
  predicate LaidOut(s: string, i: nat, n: Node)
    decreases n
  {
    match n
    case Content(name, value) =>
      ValidName(name) && ValidValue(value) && !AllIn(value, Blank) &&
      OccursAt(s, "<" + name + ">" + value, i) &&
      i + |name| + |value| + 2 < |s| && s[i + |name| + |value| + 2] == '\n'
    case Aggregate(name, children) =>
      ValidName(name) && |children| > 0 &&
      OccursAt(s, "<" + name + ">", i) && i + |name| + 2 < |s| && s[i + |name| + 2] == '\n' &&
      AllLaidOut(s, i + |name| + 3, children) &&
      OccursAt(s, "</" + name + ">", i + |name| + 3 + AllWidth(children)) &&
      i + 2 * |name| + 6 + AllWidth(children) < |s| && s[i + 2 * |name| + 6 + AllWidth(children)] == '\n'
  }

  predicate AllLaidOut(s: string, i: nat, nodes: seq<Node>)
    decreases nodes
  {
    nodes == [] || (LaidOut(s, i, nodes[0]) && AllLaidOut(s, i + Width(nodes[0]), nodes[1..]))
  }

  /** A close tag starts with `</`. */
  lemma CloseTagPrefix(s: string, c: nat, name: string)
    requires OccursAt(s, "</" + name + ">", c)
    ensures OccursAt(s, "</", c)
  {
    var w := "</" + name + ">";
    assert s[c] == w[0] && s[c + 1] == w[1];
  }

  /** The first character of an occurrence of `</`. */
  lemma CloseTagStart(s: string, c: nat)
    requires OccursAt(s, "</", c)
    ensures c + 1 < |s| && s[c] == '<' && s[c + 1] == '/'
  {
    assert s[c + 0] == "</"[0] && s[c + 1] == "</"[1];
  }

  /** Splitting a non-empty sequence of trees into the first and the rest. */
  lemma FirstAndRest(nodes: seq<Node>)
    requires nodes != []
    ensures [nodes[0]] + nodes[1..] == nodes
  {
  }

  /** A laid-out tree starts with `<`. */
  lemma LaidOutStart(s: string, i: nat, n: Node)
    requires LaidOut(s, i, n)
    ensures i < |s| && s[i] == '<'
  {
    if n.Aggregate? {
      OccursAtFirst(s, "<" + n.name + ">", i);
    } else {
      OccursAtFirst(s, "<" + n.name + ">" + n.value, i);
    }
  }

  /** The text of a printable tree is laid out wherever it occurs, over its whole length. */
  lemma {:induction false} RenderLaidOut(s: string, i: nat, n: Node)
    requires Printable(n) && OccursAt(s, Render(n), i)
    ensures LaidOut(s, i, n) && Width(n) == |Render(n)|
    decreases n
  {
    match n
    case Content(name, value) =>
      LineText(s, i, "<" + name + ">" + value);
    case Aggregate(name, children) =>
      var open := Line("<" + name + ">");
      var body := RenderAll(children);
      OccursSplit(s, open + body, Line("</" + name + ">"), i);
      OccursSplit(s, open, body, i);
      LineText(s, i, "<" + name + ">");
      LineText(s, i + |open| + |body|, "</" + name + ">");
      RenderAllLaidOut(s, i + |open|, children);
  }

  lemma {:induction false} RenderAllLaidOut(s: string, i: nat, nodes: seq<Node>)
    requires AllPrintable(nodes) && OccursAt(s, RenderAll(nodes), i)
    ensures AllLaidOut(s, i, nodes) && AllWidth(nodes) == |RenderAll(nodes)|
    decreases nodes
  {
    if nodes != [] {
      OccursSplit(s, Render(nodes[0]), RenderAll(nodes[1..]), i);
      RenderLaidOut(s, i, nodes[0]);
      RenderAllLaidOut(s, i + |Render(nodes[0])|, nodes[1..]);
    }
  }

  // ---------------------------------------------------------------------------------------------
  // Reading a laid-out tree back

  /** An open tag alone on its line, with a tag on the next line. */
  lemma OpenLineAt(s: string, i: nat, name: string)
    requires ValidName(name) && OccursAt(s, "<" + name + ">", i)
    requires i + |name| + 3 < |s| && s[i + |name| + 2] == '\n' && s[i + |name| + 3] == '<'
    ensures OpenTag(s, i) == Some(Tag(name, i + |name| + 2))
    ensures SkipBlanks(s, i + |name| + 2) == i + |name| + 3
  {
    OpenTagOver(s, i, name);
    OneBlankAt(s, i + |name| + 2);
  }

  /** A close tag alone on its line, followed by nothing or by a tag: the line feed is consumed with it. */
  lemma CloseLineAt(s: string, c: nat, name: string)
    requires ValidName(name) && OccursAt(s, "</" + name + ">", c)
    requires c + |name| + 3 < |s| && s[c + |name| + 3] == '\n' && Follows(s, c + |name| + 4)
    ensures CloseTag(s, c) == Some(c + |name| + 4)
  {
    CloseTagOver(s, c, name);
    OneBlankAt(s, c + |name| + 3);
  }

  /** The three parts of the aggregate rule put together. */
  lemma AggregateFrom(s: string, i: nat, t: nat, q: nat, n: Node, e: nat)
    requires i <= |s| && t <= |s| && n.Aggregate? && n.children != []
    requires OpenTag(s, i) == Some(Tag(n.name, t))
    requires ChildrenAt(s, t).nodes == n.children && ChildrenAt(s, t).next == q
    requires CloseTag(s, q) == Some(e)
    ensures AggregateAt(s, i) == Some(Parsed(n, e))
  {
  }

  /** The open and the close line of an aggregate, one tag each, with a tag after the open line. */
  lemma AggregateLines(s: string, i: nat, name: string, c: nat)
    requires ValidName(name) && OccursAt(s, "<" + name + ">", i)
    requires i + |name| + 3 < |s| && s[i + |name| + 2] == '\n' && s[i + |name| + 3] == '<'
    requires OccursAt(s, "</" + name + ">", c)
    requires c + |name| + 3 < |s| && s[c + |name| + 3] == '\n' && Follows(s, c + |name| + 4)
    ensures OpenTag(s, i) == Some(Tag(name, i + |name| + 2))
    ensures SkipBlanks(s, i + |name| + 2) == i + |name| + 3
    ensures OccursAt(s, "</", c)
    ensures CloseTag(s, c) == Some(c + |name| + 4)
  {
    OpenLineAt(s, i, name);
    CloseTagPrefix(s, c, name);
    CloseLineAt(s, c, name);
  }

  /**
   * A laid-out aggregate, given by the parts of its layout with its close tag at `c`, reads back
   * as itself, and its close tag takes the line feed after it.
   */
  lemma {:induction false} AggregateOver(s: string, i: nat, name: string, kids: seq<Node>, c: nat)
    requires ValidName(name) && kids != []
    requires OccursAt(s, "<" + name + ">", i) && i + |name| + 2 < |s| && s[i + |name| + 2] == '\n'
    requires AllLaidOut(s, i + |name| + 3, kids) && c == i + |name| + 3 + AllWidth(kids)
    requires OccursAt(s, "</" + name + ">", c) && c + |name| + 3 < |s| && s[c + |name| + 3] == '\n'
    requires Follows(s, c + |name| + 4)
    ensures AggregateAt(s, i) == Some(Parsed(Aggregate(name, kids), c + |name| + 4))
    decreases Width(Aggregate(name, kids)), 0
  {
    var t := i + |name| + 2;
    assert s[i + |name| + 3] == '<' by {
      LaidOutStart(s, i + |name| + 3, kids[0]);
    }
    OneBlankAt(s, t);
    CloseTagPrefix(s, c, name);
    ChildrenOver(s, t, i + |name| + 3, kids);
    AggregateTail(s, i, name, kids, c);
  }

  /** The open and close lines of an aggregate around children known to read back. */
  lemma AggregateTail(s: string, i: nat, name: string, kids: seq<Node>, c: nat)
    requires ValidName(name) && kids != [] && OccursAt(s, "<" + name + ">", i)
    requires i + |name| + 3 < |s| && s[i + |name| + 2] == '\n' && s[i + |name| + 3] == '<'
    requires OccursAt(s, "</" + name + ">", c)
    requires c + |name| + 3 < |s| && s[c + |name| + 3] == '\n' && Follows(s, c + |name| + 4)
    requires ChildrenAt(s, i + |name| + 2).nodes == kids
    requires SkipBlanks(s, ChildrenAt(s, i + |name| + 2).next) == c
    ensures AggregateAt(s, i) == Some(Parsed(Aggregate(name, kids), c + |name| + 4))
  {
    AggregateLines(s, i, name, c);
    AggregateJoin(s, i, Aggregate(name, kids), i + |name| + 2, c, c + |name| + 4);
  }

  /** An aggregate whose open tag, children and close tag are each known to read back. */
  lemma AggregateJoin(s: string, i: nat, n: Node, t: nat, c: nat, e: nat)
    requires i <= |s| && t <= |s| && c <= |s| && n.Aggregate? && n.children != []
    requires OpenTag(s, i) == Some(Tag(n.name, t))
    requires ChildrenAt(s, t).nodes == n.children && SkipBlanks(s, ChildrenAt(s, t).next) == c
    requires CloseTag(s, c) == Some(e)
    ensures AggregateAt(s, i) == Some(Parsed(n, e))
  {
    var q := ChildrenAt(s, t).next;
    CloseTagAfterBlanks(s, q);
    AggregateFrom(s, i, t, q, n, e);
  }

  /** A laid-out content element reads back as itself, up to its line feed: the aggregate rule fails on it first. */
  lemma ContentElementOver(s: string, i: nat, n: Node)
    requires n.Content? && LaidOut(s, i, n)
    ensures ElementAt(s, i) == Some(Parsed(n, i + Width(n) - 1))
  {
    var name := n.name;
    var v := n.value;
    var t := i + |name| + 2;
    OccursSplit(s, "<" + name + ">", v, i);
    assert OpenTag(s, i) == Some(Tag(name, t)) by {
      OpenTagOver(s, i, name);
    }
    assert AggregateAt(s, i).None? by {
      var k :| 0 <= k < |v| && !IsBlank(v[k]);
      OccursChars(s, v, t);
      RunEndAll(s, t, Blank);
      var a := SkipBlanks(s, t);
      assert !InClass(s[t + k], Blank);
      assert s[a] == v[a - t];
      NoOpenTagAtText(s, t);
      NoChildrenWithoutOpenTag(s, t);
    }
    ContentOver(s, i, name, v);
  }

  /** A laid-out content element, after any blanks, and the line feed after it. */
  lemma ContentOverBlanks(s: string, i0: nat, i: nat, n: Node)
    requires i0 <= |s| && SkipBlanks(s, i0) == i
    requires n.Content? && LaidOut(s, i, n) && Follows(s, i + Width(n))
    ensures ElementAt(s, i0) == Some(Parsed(n, i + Width(n) - 1))
    ensures SkipBlanks(s, i + Width(n) - 1) == i + Width(n)
  {
    ElementAfterBlanks(s, i0);
    ContentElementOver(s, i, n);
    ContentLineEnd(s, i, n);
  }

  /** The line feed after a laid-out content element is the only blank before what follows. */
  lemma ContentLineEnd(s: string, i: nat, n: Node)
    requires n.Content? && LaidOut(s, i, n) && Follows(s, i + Width(n))
    ensures SkipBlanks(s, i + Width(n) - 1) == i + Width(n)
  {
    OneBlankAt(s, i + |n.name| + |n.value| + 2);
  }

  /** An aggregate read after blanks is the element read where the blanks begin. */
  lemma ElementFromAggregate(s: string, i0: nat, i: nat, p: Parsed)
    requires i0 <= |s| && SkipBlanks(s, i0) == i && AggregateAt(s, i) == Some(p)
    ensures ElementAt(s, i0) == Some(p)
  {
    ElementAfterBlanks(s, i0);
  }

  /** A repetition that reads one element and then the rest. */
  lemma ChildrenFrom(s: string, i: nat, p: Parsed, rest: Children)
    requires i <= |s| && ElementAt(s, i) == Some(p) && p.next <= |s| && ChildrenAt(s, p.next) == rest
    ensures ChildrenAt(s, i) == Children([p.node] + rest.nodes, rest.next)
  {
  }

  /** A repetition that meets a close tag reads nothing. */
  lemma ChildrenAtClose(s: string, i0: nat, i: nat)
    requires i0 <= |s| && SkipBlanks(s, i0) == i && OccursAt(s, "</", i)
    ensures ChildrenAt(s, i0) == Children([], i0)
  {
    CloseTagStart(s, i);
    NoOpenTagAtClose(s, i0);
    NoChildrenWithoutOpenTag(s, i0);
  }

  /** Any laid-out tree reads back, wherever the blanks before it begin. */
  lemma {:induction false} ElementOver(s: string, i0: nat, i: nat, n: Node)
    requires i0 <= |s| && SkipBlanks(s, i0) == i
    requires LaidOut(s, i, n) && Follows(s, i + Width(n))
    ensures ElementAt(s, i0).Some? && ElementAt(s, i0).value.node == n
    ensures SkipBlanks(s, ElementAt(s, i0).value.next) == i + Width(n)
    decreases Width(n), 1
  {
    if n.Aggregate? {
      var e := i + Width(n);
      AggregateOver(s, i, n.name, n.children, i + |n.name| + 3 + AllWidth(n.children));
      ElementFromAggregate(s, i0, i, Parsed(n, e));
      NoBlankAt(s, e);
    } else {
      ContentOverBlanks(s, i0, i, n);
    }
  }

  /** Laid-out trees, followed by a close tag, read back as the children of an aggregate. */
  lemma {:induction false} ChildrenOver(s: string, i0: nat, i: nat, nodes: seq<Node>)
    requires i0 <= |s| && SkipBlanks(s, i0) == i
    requires AllLaidOut(s, i, nodes) && OccursAt(s, "</", i + AllWidth(nodes))
    ensures ChildrenAt(s, i0).nodes == nodes
    ensures SkipBlanks(s, ChildrenAt(s, i0).next) == i + AllWidth(nodes)
    decreases AllWidth(nodes), 2
  {
    if nodes == [] {
      ChildrenAtClose(s, i0, i);
    } else {
      var j := i + Width(nodes[0]);
      assert Follows(s, j) by {
        if nodes[1..] == [] {
          CloseTagStart(s, j);
        } else {
          LaidOutStart(s, j, nodes[1]);
        }
      }
      ElementOver(s, i0, i, nodes[0]);
      var p := ElementAt(s, i0).value;
      ChildrenOver(s, p.next, j, nodes[1..]);
      ChildrenFrom(s, i0, p, ChildrenAt(s, p.next));
      FirstAndRest(nodes);
    }
  }

  /** The round trip of the grammar: the text of an aggregate, followed by nothing or by another tag, parses as it. */
  lemma ParseStringRendered(n: Node, rest: string)
    requires n.Aggregate? && Printable(n) && (rest == [] || rest[0] == '<')
    ensures ParseString(Render(n) + rest) == Some(n)
  {
    var s := Render(n) + rest;
    assert OccursAt(s, Render(n), 0) by {
      assert s[..|Render(n)|] == Render(n);
    }
    RenderLaidOut(s, 0, n);
    if rest != [] {
      assert s[|Render(n)|] == rest[0];
    }
    AggregateOver(s, 0, n.name, n.children, |n.name| + 3 + AllWidth(n.children));
  }

  /**
   * A line holding only an open tag, followed by a line that starts no element: the tag is
   * neither an aggregate nor a content element.
   */
  lemma BareOpenLine(s: string, i: nat, n: string)
    requires ValidName(n) && OccursAt(s, "<" + n + ">" + "\n", i)
    requires var j := i + |n| + 3; j == |s| || (j < |s| && !IsBlank(s[j]))
    requires ElementAt(s, i + |n| + 3).None?
    ensures ElementAt(s, i).None?
  {
    var j := i + |n| + 2;
    OccursSplit(s, "<" + n + ">", "\n", i);
    OccursAtFirst(s, "\n", j);
    OneBlankAt(s, j);
    ElementAfterBlanks(s, j);
    BareOpenTag(s, i, n);
  }

  /**
   * Three lines that each hold only an open tag, then a close tag: the innermost tag has neither a
   * value nor a child, so none of the three is an element and the text is rejected.
   */
  lemma BareTagLines(s: string, a: string, b: string, c: string)
    requires ValidName(a) && ValidName(b) && ValidName(c)
    requires OccursAt(s, "<" + a + ">" + "\n", 0)
    requires OccursAt(s, "<" + b + ">" + "\n", |a| + 3)
    requires OccursAt(s, "<" + c + ">" + "\n", |a| + |b| + 6)
    requires var k := |a| + |b| + |c| + 9; k + 1 < |s| && s[k] == '<' && s[k + 1] == '/'
    ensures ParseString(s).None?
  {
    var i1, i2, k := |a| + 3, |a| + |b| + 6, |a| + |b| + |c| + 9;
    NoBlankAt(s, k);
    NoOpenTagAtClose(s, k);
    NoChildrenWithoutOpenTag(s, k);
    BareOpenLine(s, i2, c);
    OccursAtFirst(s, "<" + c + ">" + "\n", i2);
    BareOpenLine(s, i1, b);
    OccursAtFirst(s, "<" + b + ">" + "\n", i1);
    BareOpenLine(s, 0, a);
  }

  /** A document of three bare open tags followed by a close tag is rejected. */
  lemma BareTagDocument(a: string, b: string, c: string, rest: string)
    requires ValidName(a) && ValidName(b) && ValidName(c)
    ensures ParseString(("<" + a + ">" + "\n") + (("<" + b + ">" + "\n") + (("<" + c + ">" + "\n") + ("</" + rest)))).None?
  {
    var l0, l1, l2 := "<" + a + ">" + "\n", "<" + b + ">" + "\n", "<" + c + ">" + "\n";
    var s := l0 + (l1 + (l2 + ("</" + rest)));
    OccursFour(l0, l1, l2, "</" + rest);
    OccursSplit(s, "</", rest, |l0| + |l1| + |l2|);
    OccursChars(s, "</", |l0| + |l1| + |l2|);
    BareTagLines(s, a, b, c);
  }
}
