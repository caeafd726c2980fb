/** Optional values and results, used for the grammar's failures and the parser's errors. */
module Wrappers {
  datatype Option<+T> = None | Some(value: T)

  datatype Result<+T, +E> = Ok(value: T) | Err(error: E)
}

/** Character classes and small facts about runs of characters, shared by the grammar and the repairs. */
module Text {

  /** The character classes that the grammar and the regular expressions of the repairs use. */
  datatype CharClass =
    | Blank      // pyparsing's default whitespace, skipped before tokens and matched by White(): " \t\r\n"
    | TagChar    // the body of a tag name, Word(alphanums + "."): [A-Za-z0-9.]
    | ValueChar  // the characters of a content value, CharsNotIn("<\r\n")
    | WordChar   // the regular expression class \w, taken as ASCII [A-Za-z0-9_]
    | RegexSpace // the regular expression class \s: [ \t\n\r\f\v]
    | Slash      // the class [/]
    | Dot        // the regular expression `.`: any character but a line feed

  predicate IsLetterOrDigit(c: char) {
    ('a' <= c <= 'z') || ('A' <= c <= 'Z') || ('0' <= c <= '9')
  }

  predicate IsWordChar(c: char) {
    IsLetterOrDigit(c) || c == '_'
  }

  predicate IsBlank(c: char) {
    c == ' ' || c == '\t' || c == '\r' || c == '\n'
  }

  predicate InClass(c: char, k: CharClass) {
    match k
    case Blank => IsBlank(c)
    case TagChar => IsLetterOrDigit(c) || c == '.'
    case ValueChar => c != '<' && c != '\r' && c != '\n'
    case WordChar => IsWordChar(c)
    case RegexSpace => IsBlank(c) || c == '\U{C}' || c == '\U{B}'
    case Slash => c == '/'
    case Dot => c != '\n'
  }

  /** True when every character of `s` is in class `k`. */
  predicate AllIn(s: string, k: CharClass) {
    forall m | 0 <= m < |s| :: InClass(s[m], k)
  }

  /** The end of the longest run of class-`k` characters that starts at `i`. */
  function RunEnd(s: string, i: nat, k: CharClass): (j: nat)
    requires i <= |s|
    ensures i <= j <= |s|
    ensures j == |s| || !InClass(s[j], k)
    decreases |s| - i
  {
    if i < |s| && InClass(s[i], k) then RunEnd(s, i + 1, k) else i
  }

  /** Every character of a run is in the class. */
  lemma {:induction false} RunEndAll(s: string, i: nat, k: CharClass)
    requires i <= |s|
    ensures forall m | i <= m < RunEnd(s, i, k) :: InClass(s[m], k)
    decreases |s| - i
  {
    if i < |s| && InClass(s[i], k) {
      RunEndAll(s, i + 1, k);
    }
  }

  /** A run is determined by where it stops: any `j` with the run's two properties is its end. */
  lemma {:induction false} RunEndIs(s: string, i: nat, k: CharClass, j: nat)
    requires i <= j <= |s|
    requires forall m | i <= m < j :: InClass(s[m], k)
    requires j == |s| || !InClass(s[j], k)
    ensures RunEnd(s, i, k) == j
    decreases j - i
  {
    if i < j {
      RunEndIs(s, i + 1, k, j);
    }
  }

  /** A run that starts at a known word `w` of class-`k` characters, followed by a character outside `k`. */
  lemma RunEndOver(s: string, i: nat, w: string, k: CharClass)
    requires i + |w| <= |s| && s[i..i + |w|] == w && AllIn(w, k)
    requires i + |w| == |s| || !InClass(s[i + |w|], k)
    ensures RunEnd(s, i, k) == i + |w|
  {
    forall m | i <= m < i + |w| ensures InClass(s[m], k) {
      assert s[m] == w[m - i];
    }
    RunEndIs(s, i, k, i + |w|);
  }

  /** A concatenation is in a class when both parts are. */
  lemma AllInConcat(a: string, b: string, k: CharClass)
    requires AllIn(a, k) && AllIn(b, k)
    ensures AllIn(a + b, k)
  {
    forall m | 0 <= m < |a + b| ensures InClass((a + b)[m], k) {
      if m >= |a| {
        assert (a + b)[m] == b[m - |a|];
      }
    }
  }

  /** Every character of class `k` is also of class `k2`. */
  lemma AllInWiden(s: string, k: CharClass, k2: CharClass)
    requires AllIn(s, k) && forall c: char :: InClass(c, k) ==> InClass(c, k2)
    ensures AllIn(s, k2)
  {
  }

  /** `w` occurs in `s` at index `k`. */
  predicate OccursAt(s: string, w: string, k: nat) {
    k + |w| <= |s| && forall m | 0 <= m < |w| :: s[k + m] == w[m]
  }

  /** An occurrence is a slice equal to the word. */
  lemma OccursAtSlice(s: string, w: string, k: nat)
    requires k + |w| <= |s|
    ensures OccursAt(s, w, k) <==> s[k..k + |w|] == w
  {
    if OccursAt(s, w, k) {
      assert forall m | 0 <= m < |w| :: s[k..k + |w|][m] == w[m];
    }
  }

  /** An occurrence of `a + b` is an occurrence of `a` followed by one of `b`. */
  lemma OccursSplit(s: string, a: string, b: string, k: nat)
    requires OccursAt(s, a + b, k)
    ensures OccursAt(s, a, k) && OccursAt(s, b, k + |a|)
  {
    forall m | 0 <= m < |a| ensures s[k + m] == a[m] {
      assert (a + b)[m] == a[m];
    }
    forall m | 0 <= m < |b| ensures s[k + |a| + m] == b[m] {
      assert (a + b)[|a| + m] == b[m];
    }
  }

  /** An occurrence at `j` is an occurrence at the start of the suffix from `j`. */
  lemma OccursDrop(s: string, w: string, j: nat)
    requires j <= |s|
    ensures OccursAt(s[j..], w, 0) <==> OccursAt(s, w, j)
  {
    assert forall m | 0 <= m < |s| - j :: s[j..][m] == s[j + m];
  }

  /** A word occurs where it is put. */
  lemma OccursPlaced(a: string, w: string, b: string)
    ensures OccursAt(a + (w + b), w, |a|)
  {
    forall m | 0 <= m < |w| ensures (a + (w + b))[|a| + m] == w[m] {
      assert (w + b)[m] == w[m];
    }
  }

  /** Each of four concatenated words occurs where it is put. */
  lemma OccursFour(w0: string, w1: string, w2: string, w3: string)
    ensures var s := w0 + (w1 + (w2 + w3));
      OccursAt(s, w0, 0) && OccursAt(s, w1, |w0|) && OccursAt(s, w2, |w0| + |w1|) && OccursAt(s, w3, |w0| + |w1| + |w2|)
  {
    var s := w0 + (w1 + (w2 + w3));
    assert [] + s == s;
    OccursPlaced([], w0, w1 + (w2 + w3));
    OccursPlaced(w0, w1, w2 + w3);
    Assoc(w0, w1, w2 + w3);
    OccursPlaced(w0 + w1, w2, w3);
    Assoc(w0 + w1, w2, w3);
    assert s == w0 + w1 + w2 + (w3 + []);
    OccursPlaced(w0 + w1 + w2, w3, []);
  }

  /** The first character of an occurrence. */
  lemma OccursAtFirst(s: string, w: string, k: nat)
    requires OccursAt(s, w, k) && |w| > 0
    ensures k < |s| && s[k] == w[0]
  {
    assert s[k + 0] == w[0];
  }

  /** A word does not occur where its first character is missing. */
  lemma NoOccurrenceAt(s: string, w: string, k: nat)
    requires |w| > 0 && (k >= |s| || s[k] != w[0])
    ensures !OccursAt(s, w, k)
  {
    if OccursAt(s, w, k) {
      OccursAtFirst(s, w, k);
    }
  }

  /** The characters of an occurrence. */
  lemma OccursChars(s: string, w: string, k: nat)
    requires OccursAt(s, w, k)
    ensures forall m | 0 <= m < |w| :: s[k + m] == w[m]
  {
  }

  /** Two adjacent slices make one. */
  lemma SliceJoin(s: string, i: nat, j: nat)
    requires i <= j <= |s|
    ensures s[..i] + s[i..j] == s[..j]
  {
  }

  lemma Assoc(a: string, b: string, c: string)
    ensures a + (b + c) == a + b + c
  {
  }

  predicate Occurs(s: string, w: string) {
    exists k: nat | k <= |s| :: OccursAt(s, w, k)
  }

  /** The number of occurrences of character `c` in `s`. */
  function Count(s: string, c: char): nat {
    if s == [] then 0 else (if s[0] == c then 1 else 0) + Count(s[1..], c)
  }

  /** A text in which `c` never appears counts none of it. */
  lemma {:induction false} CountAbsent(s: string, a: nat, b: nat, c: char)
    requires a <= b <= |s| && forall m | a <= m < b :: s[m] != c
    ensures Count(s[a..b], c) == 0
    decreases b - a
  {
    if a < b {
      assert s[a..b][0] == s[a] && s[a..b][1..] == s[a + 1..b];
      CountAbsent(s, a + 1, b, c);
    }
  }

  lemma {:induction false} CountAppend(a: string, b: string, c: char)
    ensures Count(a + b, c) == Count(a, c) + Count(b, c)
  {
    if a == [] {
      assert a + b == b;
    } else {
      assert (a + b)[0] == a[0] && (a + b)[1..] == a[1..] + b;
      CountAppend(a[1..], b, c);
    }
  }
}
