# OfcParser, modelled in Dafny

This project models `OfcParser` of the fixofx `ofxtools` package. OfcParser reads OFC documents: SGML-like
financial statements whose content tags have no close tag. It covers:

- the tag grammar built in `__init__` and `_tag`;
- `parse`, which makes two attempts;
- the normalisation `remove_inline_closing_tags`;
- the repair `fix_ofc` and its three steps `_remove_bad_tags`, `_fill_dummy_tags` and `_inject_tags`.

Everything in the source is text in and text or tree out, so the model is made of datatypes, functions
and lemmas.

- `text.dfy` (`Wrappers`, `Text`): `Option`, `Result`, and the character classes used by the
  grammar and the regular expressions:
  - the parsing library's blanks `" \t\r\n"`;
  - `[A-Za-z0-9.]` for tag names;
  - `CharsNotIn("<\r\n")` for values;
  - `\w` (ASCII), `\s` and `.`;
  - runs of such characters and occurrences of words.
- `grammar.dfy` (`OfcGrammar`): the grammar as a recursive-descent recogniser over (text, position).
  - `ContentAt`, `AggregateAt`, `ElementAt` and `ChildrenAt` follow `content`, `aggregate`,
    `aggregate | content` and `OneOrMore`.
  - `ParseString` is `parseString`. It matches a prefix of the text and ignores the rest.
  - Blanks are skipped before every tag token and never before a value.
  - A close tag's name is read but never compared with its open tag's name.
- `rewrite.dfy` (`Scanning`, `Substitution`):
  - `Scan` is the left-to-right scan shared by `re.sub` and `str.replace`;
  - the matchers of the five patterns the core uses;
  - `Rewrite(s, p)`, with general facts about deleting and growing patterns.
- `inline.dfy` (`InlineClosingTags`): the substitution `(\w+.*)<\/\w+>` → `\1`, and its
  line-by-line characterisation.
- `repair.dfy` (`Repair`): `_remove_bad_tags`, `_fill_dummy_tags`, `_inject_tags` and `fix_ofc`.
  `_inject_tags` gives `None` when its pattern is found (see Findings).
- `render.dfy` (`Rendering`): the layout of a tree with one tag per line. The round trip is that the
  grammar reads such a text back as the same tree.
- `lines.dfy` (`TagLines`): a rendered document as a sequence of tag lines. Each normalisation and
  repair is shown to act line by line on such a document.
- `driver.dfy` (`OfcParser`): `parse` and its two attempts, with the finding's counterexample.

`parse` raises in two ways, and the model returns them as values of `ParseError`:

- `SyntaxError` stands for the `ParseException` of the second attempt.
- `NotText` stands for the error raised when `_inject_tags` has returned `None` and the grammar is run
  on it.

The `Rewrite` patterns are:

| pattern | source | regular expression or literal |
|---|---|---|
| `InlineClose` | line 67 | `(\w+.*)<\/\w+>` → `\1` |
| `BadTag("TRNRS")` | line 78 | `<[/]*TRNRS>` → `` |
| `BadTagWithValue("CLTID")` | line 79 | `<[/]*CLTID>\w+` → `` |
| `EmptyTag(n)` | lines 82-85 | `(<n>)[^\w+]` → `<n>0\n` |
| `Literal(t, r)` | line 92 | `str.replace(t, r)` |

Two properties of the repairs that a reader might expect do not hold, and the model proves both:

- The normalisation is not idempotent. `a</X></Y>` becomes `a</X>`, because the greedy `.*` keeps all
  but the last closing tag of a line. A second pass then gives `a` (`InlineClosingTags.RemoveInlineNotIdempotent`).
- One pass of `_remove_bad_tags` can leave a `TRNRS` tag: `<<TRNRS>TRNRS>` becomes `<TRNRS>`
  (`Repair.TrnrsTagSurvives`).

## Model

| member | source | states |
|---|---|---|
| OfcGrammar.OpenTag | lib/ofxtools/ofc_parser.py:45-46 | a recognised open tag yields a valid name (non-empty, over `[A-Za-z0-9.]`) and moves forward |
| OfcGrammar.CloseTag | lib/ofxtools/ofc_parser.py:48 | a recognised close tag moves forward (CloseTagOver states what it consumes) |
| OfcGrammar.ContentAt | lib/ofxtools/ofc_parser.py:31-32 | content is a node with a valid name and a non-empty value free of `<`, CR and LF; the value takes the whole run up to the next such character |
| OfcGrammar.AggregateAt | lib/ofxtools/ofc_parser.py:33-35 | an aggregate is a node with a valid name and at least one child, each child valid |
| OfcGrammar.ElementAt | lib/ofxtools/ofc_parser.py:34 | `aggregate \| content` yields a valid node and moves forward |
| OfcGrammar.ChildrenAt | lib/ofxtools/ofc_parser.py:34 | the repetition yields valid nodes; when it takes none it stays in place |
| OfcGrammar.ParseString | lib/ofxtools/ofc_parser.py:29-37 | a successful parse yields one aggregate, and every node of the tree is valid |
| OfcGrammar.OpenTagOver | lib/ofxtools/ofc_parser.py:45-46 | the text `<n>` with a valid `n` is read as the open tag `n` and nothing more |
| OfcGrammar.CloseTagOver | lib/ofxtools/ofc_parser.py:48 | the text `</n>` is read as a close tag whatever `n` is, with the blanks after it |
| OfcGrammar.ContentOver | lib/ofxtools/ofc_parser.py:32 | `<n>v`, followed by a character outside the value class, is read as the content element (n, v) |
| OfcGrammar.BareOpenTag | lib/ofxtools/ofc_parser.py:32-35 | an open tag followed by no value and no element is neither an aggregate nor a content element |
| OfcGrammar.ContentElement | lib/ofxtools/ofc_parser.py:33-34 | at `<n>v</`, the aggregate is tried and fails, and the content element (n, v) is taken, whatever blanks `v` starts with |
| OfcGrammar.CloseAfter | lib/ofxtools/ofc_parser.py:34-35 | at a close tag the repetition stops, and the close tag is taken whatever its name |
| OfcGrammar.LooseClose | lib/ofxtools/ofc_parser.py:48 | `<a><b>v</c>rest` parses as aggregate a holding content (b, v) for any valid a, b, c and value v: close-tag names are not checked and trailing text is ignored |
| Scanning.ScanNoHit | lib/ofxtools/ofc_parser.py:67 | where the matcher matches at no position, `re.sub` and `str.replace` give the text back |
| Scanning.ScanMatchAt | lib/ofxtools/ofc_parser.py:67 | the scan keeps the text before the leftmost match, puts the replacement in place of the match and goes on right after it |
| Scanning.ScanDrops | lib/ofxtools/ofc_parser.py:67 | a scan whose every match is replaced by a prefix of itself, with no line feed in the rest, only drops characters, never a line feed |
| Scanning.ScanUnchangedIff | lib/ofxtools/ofc_parser.py:67 | a scan that only deletes or only lengthens matches changes the text exactly when the matcher matches somewhere, and then changes its length |
| Substitution.InlineHit | lib/ofxtools/ofc_parser.py:67 | a match of `(\w+.*)<\/\w+>` keeps, as group 1, the text up to the last closing tag on the line that starts with a word character, and removes that tag; with no match, no position qualifies |
| Substitution.BadTagHit | lib/ofxtools/ofc_parser.py:78 | a match of `<[/]*n>` is `<`, a run of slashes, then `n>`, and it is deleted |
| Substitution.BadTagWithValueHit | lib/ofxtools/ofc_parser.py:79 | a match of `<[/]*n>\w+` is a bad-tag match followed by the whole run (at least one) of word characters after it, and it is deleted |
| Substitution.EmptyTagHit | lib/ofxtools/ofc_parser.py:82-85 | a match of `(<n>)[^\w+]` is `<n>` followed by one character outside `\w` and `+`; the tag and that character are replaced by `<n>0` and a line feed |
| Substitution.LiteralHit | lib/ofxtools/ofc_parser.py:92 | `str.replace` matches exactly where a non-empty target occurs, and puts the replacement in its place |
| Rendering.ParseStringRendered | lib/ofxtools/ofc_parser.py:29-37 | a printable aggregate written one tag per line, followed by nothing or another tag, parses back to the same tree |
| Rendering.BareTagDocument | lib/ofxtools/ofc_parser.py:32-35 | three lines holding bare open tags followed by a close tag are rejected |
| InlineClosingTags.RemoveInlineClosingTags | lib/ofxtools/ofc_parser.py:67 | normalisation only deletes characters, never a line feed, so it keeps the line count and never lengthens |
| InlineClosingTags.RemoveInlineUnchangedIff | lib/ofxtools/ofc_parser.py:67 | the text is left unchanged exactly when the pattern matches at no position |
| InlineClosingTags.RemoveInlineByLines | lib/ofxtools/ofc_parser.py:67 | normalisation equals applying the one-line fix to every line separately |
| InlineClosingTags.RemoveInlineSplitsAtLines | lib/ofxtools/ofc_parser.py:67 | normalising a text cut after a line feed is normalising both parts |
| InlineClosingTags.OneLine | lib/ofxtools/ofc_parser.py:67 | on a text without a line feed, normalisation is the one-line fix |
| InlineClosingTags.NoClosingTagUnchanged | lib/ofxtools/ofc_parser.py:67 | a text with no `</` is left unchanged |
| InlineClosingTags.ValueCloseTagRemoved | lib/ofxtools/ofc_parser.py:67 | `<t>v</t>` on one line becomes `<t>v` |
| InlineClosingTags.RemoveInlineNotIdempotent | lib/ofxtools/ofc_parser.py:67 | on `a</X></Y>` a second pass changes the text again |
| Repair.RemoveBadTags | lib/ofxtools/ofc_parser.py:77-79 | removing bad tags only deletes characters, never a line feed, so it keeps the line count and never lengthens |
| Repair.RemoveBadTagsUnchangedIff | lib/ofxtools/ofc_parser.py:77-79 | the text is left unchanged exactly when neither pattern matches anywhere |
| Repair.NoBadTagNamesUnchanged | lib/ofxtools/ofc_parser.py:78-79 | a text that never contains `TRNRS>` or `CLTID>` is left unchanged |
| Repair.BadTagAt | lib/ofxtools/ofc_parser.py:78 | `<[/]*n>` matches an open or close tag of n with any number of slashes, and deletes all of it |
| Repair.BadTagWithValueAt | lib/ofxtools/ofc_parser.py:79 | `<[/]*n>\w+` deletes the tag and the whole run of word characters after it |
| Repair.BadTagDeleted | lib/ofxtools/ofc_parser.py:78 | the first match in a text is deleted, and the text before it is kept |
| Repair.BadTagWithValueDeleted | lib/ofxtools/ofc_parser.py:79 | the first match in a text is deleted with its value, and the text before it is kept |
| Repair.OpenTagKept | lib/ofxtools/ofc_parser.py:78-79 | a tag with another name is untouched by either pattern |
| Repair.TrnrsTagSurvives | lib/ofxtools/ofc_parser.py:78 | `<<TRNRS>TRNRS>` becomes `<TRNRS>`: one pass can build a new TRNRS tag |
| Repair.FillDummyTags | lib/ofxtools/ofc_parser.py:81-87 | filling never shortens the text |
| Repair.FillDummyTagsUnchangedIff | lib/ofxtools/ofc_parser.py:81-87 | filling leaves the text unchanged exactly when no FITID or CHKNUM tag is followed by a character outside `\w` and `+` |
| Repair.EmptyTagAt | lib/ofxtools/ofc_parser.py:82-84 | `<n>` followed by a character outside `\w` and `+` is replaced, with that character, by `<n>0\n` |
| Repair.EmptyTagFilled | lib/ofxtools/ofc_parser.py:82-85 | the first such match in a text is filled, and the text before it is kept |
| Repair.EmptyTagKept | lib/ofxtools/ofc_parser.py:82 | `<n>` at the end of the text, or followed by a word character or `+`, is not matched |
| Repair.InjectTags | lib/ofxtools/ofc_parser.py:89-92 | the injection gives no text exactly when `<OFC>\w*\s*<ACCTSTMT>` is found; a text it gives is no shorter, and equals the input exactly when neither `<OFC>` nor `</OFC>` occurs |
| Repair.LiteralUnchanged | lib/ofxtools/ofc_parser.py:92 | `str.replace` with a longer replacement never shortens the text, and leaves it unchanged exactly when the target does not occur |
| Repair.AcctStmtOccurs | lib/ofxtools/ofc_parser.py:91 | a match of `<OFC>\w*\s*<ACCTSTMT>` starts with an occurrence of `<OFC>` |
| TagLines.AcctStmtAtOpen | lib/ofxtools/ofc_parser.py:91 | after `<OFC>` and a line feed, before text that starts with `<`, the pattern matches exactly when `<ACCTSTMT>` comes next |
| Repair.InjectTagsNoOfc | lib/ofxtools/ofc_parser.py:89-92 | a text with no `<OFC>` and no `</OFC>` is given back unchanged |
| Repair.InjectTagsFound | lib/ofxtools/ofc_parser.py:91 | when `<OFC>\w*\s*<ACCTSTMT>` occurs anywhere, the function gives no text |
| Repair.InjectTagsIntended | lib/ofxtools/ofc_parser.py:89-92 | the corrected injection returns the text itself when the pattern occurs, and otherwise agrees with the code |
| Repair.FixOfc | lib/ofxtools/ofc_parser.py:69-75 | on a text where no bad tag and no FITID or CHKNUM tag without a value is found, the repair is the injection alone |
| OfcParser.FixOfcWithoutLt | lib/ofxtools/ofc_parser.py:69-75 | every repair step, the corrected one included, leaves a text without `<` unchanged |
| Repair.FixOfcIntended | lib/ofxtools/ofc_parser.py:69-75 | the corrected repair agrees with `fix_ofc` whenever `fix_ofc` gives a text; otherwise it gives the text after the first two steps |
| TagLines.RemoveInlineRendered | lib/ofxtools/ofc_parser.py:67 | a printable tree written one tag per line has nothing for the normalisation to remove |
| TagLines.RemoveBadTagsRendered | lib/ofxtools/ofc_parser.py:77-79 | such a document without TRNRS or CLTID tags is left unchanged by the bad-tag removal |
| TagLines.FillDummyTagsRendered | lib/ofxtools/ofc_parser.py:81-87 | such a document is left unchanged by filling when every FITID and CHKNUM value starts with a word character or `+` |
| TagLines.FillEmptyLine | lib/ofxtools/ofc_parser.py:82-85 | in a document of tag lines, a line holding only `<n>` gets the value `0`, and every other line is kept |
| TagLines.NoAcctStmtRendered | lib/ofxtools/ofc_parser.py:91 | the injection pattern is not found in an OFC document whose first child is not ACCTSTMT |
| TagLines.InjectTagsLines | lib/ofxtools/ofc_parser.py:90-92 | on such a document of tag lines, `<OFC>` becomes the wrapper lines and `</OFC>` becomes `</ACCTSTMT>` then `</OFC>` |
| TagLines.InjectTagsRendered | lib/ofxtools/ofc_parser.py:89-92 | for a printable OFC tree whose first child is not ACCTSTMT, the injection gives the wrapper, the children's text and the new close lines |
| OfcParser.Parse | lib/ofxtools/ofc_parser.py:53-61 | a parse gives a valid aggregate; when the grammar accepts the normalised text its tree is the result; the no-text error happens exactly when the first attempt fails and the text after the first two repairs contains the injection pattern; otherwise the result is the grammar's tree on the repaired text, or a syntax error exactly when the grammar rejects it |
| OfcParser.ParseIntended | lib/ofxtools/ofc_parser.py:53-61 | with the corrected injection a parse never gives the no-text error, and it agrees with `parse` wherever `parse` does not give that error |
| OfcParser.ParseRendered | lib/ofxtools/ofc_parser.py:53-58 | a printable aggregate written one tag per line parses back to itself |
| OfcParser.ParseWithoutTags | lib/ofxtools/ofc_parser.py:53-61 | a text without `<` passes through every repair unchanged and fails with a syntax error |
| OfcParser.MissingValueRejected | lib/ofxtools/ofc_parser.py:29-37 | the grammar rejects the document whose FITID has no value |
| OfcParser.MissingValueRepaired | lib/ofxtools/ofc_parser.py:73-74 | the first two repair steps give that FITID the value `0` and change nothing else |
| OfcParser.MissingElse | lib/ofxtools/ofc_parser.py:89-92 | `parse` of that document ends in the no-text error |
| OfcParser.MissingElseCorrected | lib/ofxtools/ofc_parser.py:89-92 | with the corrected injection, that document parses as OFC › ACCTSTMT › FITID = `0` |

## Left out

- The debug actions set up in `__init__` (lines 38-41) are output only and are not modelled.
- The conversion of the result with `asDict()` (lines 58 and 61) is not modelled. `Parse` returns the tree.
  `Dict`, `Group` and the result names only shape that dictionary.
- The kinds of exception raised by `parse` are reduced to the two values of `ParseError`. Their messages
  and locations are not modelled.
- `re.UNICODE` on line 67 makes `\w` match non-ASCII letters and digits. The model takes `\w` as
  `[A-Za-z0-9_]` everywhere, so it does not capture line 67's behaviour on non-ASCII text.
- `parseString` first expands tabs. The model does not, so values that contain a tab are not modelled as
  the parsing library sees them.
- The strings of the source are Python 2 byte strings. They are modelled as sequences of characters,
  with no encoding.
- OfcParser.Parse: no lemma describes the tree the second attempt gives on an injected text in general. The
  injection opens a new ACCTSTMT aggregate after `<OFC>` and closes it before `</OFC>`, so the original
  children move one level down: the expected tree is OFC › ACCTSTMT › [ACCTFROM › (BANKID, ACCTID,
  ACCTTYPE all `0`), the original children]. The blank line the wrapper leaves after `</ACCTFROM>` is not
  covered by the rendering round trip, so only the document in the finding is followed through the second
  attempt.
- Rendering.ParseStringRendered: a content value made only of blanks is not covered. When such a value is
  written on its own line before another tag, the grammar first tries to read the following tags as the
  children of an aggregate, and it can succeed. Such a tree then does not read back as itself.
- Recursion-depth limits of the parsing library and of Python are not modelled.
- `test/ofc_parser.py` runs the parser on a fixture file that is not part of this model.

## Findings

| source | as written | input that shows it | evidently intended | confidence | as-written member | corrected member |
|---|---|---|---|---|---|---|
| lib/ofxtools/ofc_parser.py:89-92 | `_inject_tags` returns a value only when its pattern is absent. When the text already holds `<OFC>` followed by `<ACCTSTMT>`, it falls off the end and returns `None`. `parse` then hands `None` to the grammar, which raises an error that is not a `ParseException`. | `"<OFC>\n<ACCTSTMT>\n<FITID>\n</ACCTSTMT>\n</OFC>\n"`: the FITID has no value, so the first attempt fails. The repair gives the FITID the value `0`, and the injection finds ACCTSTMT. | When the wrapper is already present, return the repaired text unchanged, so that the second attempt parses it as OFC › ACCTSTMT › FITID = `0`. | not executed | OfcParser.MissingElse | OfcParser.MissingElseCorrected |
