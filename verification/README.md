# string-parsing-tools in Dafny

This project models the core of the `string-parsing-tools` JavaScript
library and proves properties of that model. The core has three parts.

- **The parsing context** (`Context.js`), modelled in module `Matcher`. It is
  an immutable text and an index that only moves forward. It supports
  literal matching (`matchString`), anchored matching with a sticky regular
  expression (`match`), repeated anchored matching (`matchMany`) and an end
  test (`atEnd`). A context object is modelled as a `Cursor` value, and every
  operation returns the cursor it leaves behind. The regular-expression
  engine is not modelled. A `RegExp` carries its sticky flag and an `exec`
  oracle, which says where an anchored match ends and what its capture
  groups hold.
- **The ABNF compiler** (`ABNF.js`). The `ABNF` template tag turns a grammar
  written in ABNF (RFC 5234) into one regular-expression source per rule.
  It is split into seven modules:
  - `AbnfLexer`: the token expressions, written out as scanners.
  - `AbnfFormat`: escaping, case-insensitive literals, quantifiers and code
    points.
  - `AbnfCompiler`: elements, concatenations, alternations and the rule
    list.
  - `AbnfTemplate`: splicing strings, string lists and regular expressions
    into the template text.
  - `AbnfShapes`: one lemma per branch of the compiler. Each says what one
    step of the recursive descent reads and returns, including the error
    branches.
  - `AbnfSyntax`: an independent account of a rule body. It is a syntax
    tree (alternation, concatenation, repetition and element, as in
    section 4 of RFC 5234), a printer that writes the tree as grammar text,
    and `Translate`, which gives the pattern each production stands for.
    `AbnfSyntax.AlternationRoundTrip` shows that the compiler reads every
    well-formed printed tree back as exactly that pattern and consumes the
    whole text.
  - `AbnfFacts`: properties that span many steps: the keys of the rule
    table, the white-space scanner against `matchMany`, placeholder
    numbering, the quote rewriting and the `year` fixture.
- **The JSON reader** (`examples/parseJSON.js`). It is a recursive-descent
  parser written on top of the context. It is split into four modules:
  - `JsonReader`: the parser. Each parsing function takes the text and a
    position, and returns the value read and the position where it stopped.
    A thrown `Error` is a `Failure`.
  - `JsonWriter`: an independent printer of JSON documents, used as the
    reference the reader is checked against.
  - `JsonRoundTrip`: a printed document reads back as its meaning.
  - `JsonFacts`: whole documents, error cases and duplicate names.

`Wrappers` holds `Option` and `Result`. `Numerals` holds digit strings in a
radix, `toString(10)`, hexadecimal and `padStart`.

The ABNF and JSON parsers pass a position over a fixed text instead of a
`Cursor` value. The lemma `AbnfFacts.SkipWspIsMatchMany` ties one scanner
to the context: the hand-written folding-white-space scanner, seen as a
sticky expression through `Matcher.Sticky`, is what `matchMany(C_WSP_RE)`
runs. `JsonReader.LiteralMatchesString` does the same for `matchString`.

Where the code and the design description differ, the model follows the
code:

- The core rules are not given their RFC 5234 meaning with CRLF line ends.
  A line end is a bare line feed in `C_NL_RE` and `C_WSP_RE`, and `LWSP` is
  `[ \t\n]*` (`ABNF.js:8-27`, `ABNF.js:31-32`).
- An incremental definition `name =/ alts` stores `old|new` without
  wrapping either side in a group (`ABNF.js:341-342`). In a pattern, `|`
  then binds loosest, so the stored text still means "old or new". Inlined
  into a longer concatenation, though, it does not act as a group.
- `BASE_MAP` has only the lower-case base letters. The num-val expressions
  are case-insensitive, so `%X41` gets an undefined radix. `parseInt` then
  reads a decimal prefix or gives NaN, and `formatCodePoint` prints NaN as
  `\xNaN`. `AbnfLexer.NumValue` and `AbnfFormat.FormatCodePoint` model that
  behaviour.
- `ABNF.js:353` can never throw. The rule-list loop breaks only when the
  context is at the end, and every other exit throws.

## Model

| member | source | states |
|---|---|---|
| Matcher.NewCursor | Context.js:15-31 | A context can be built exactly when 0 <= index <= length. Otherwise the result is a RangeError. A built context holds the text and index given. |
| Matcher.AtEnd | Context.js:37-39 | True exactly when nothing of the text is left after the index. |
| Matcher.MatchString | Context.js:47-55 | Succeeds exactly when `s` is a prefix of the unread text. It then returns `s` and moves past it. On failure the cursor is unchanged. The index always stays within the text. |
| Matcher.EmptyStringMatches | Context.js:47-55 | The empty string always matches: it is returned and the cursor does not move. |
| Matcher.Match | Context.js:63-88 | Fails with a "not sticky" error exactly when the expression lacks the `y` flag. It returns no match exactly when `exec` finds none, and the cursor stays put. On a match: the cursor moves to the match end, key 0 holds the matched text, and the map has a numbered or named key for exactly the groups that took part. |
| Matcher.NumberedGroups | Context.js:76-79 | The numbered keys are exactly the participating capture indices, each holding its capture. |
| Matcher.MatchMany | Context.js:96-117 | Fails exactly when the expression is not sticky. Otherwise it stops where repeated anchored matching stops (`ManyEnd`). It returns null exactly when the first match fails. Otherwise it returns the concatenated matches, which are the text the cursor moved over. |
| AbnfLexer.RuleNameEnd | ABNF.js:29 | A rule name is found exactly when a letter is at the position. It is a well-formed name, and the character after it cannot continue a name (longest match). |
| AbnfLexer.CommentEnd | ABNF.js:31-32 | An optional comment is read exactly when `;` is at the position. It covers only comment characters and stops at the first other one. |
| AbnfLexer.CNl | ABNF.js:32 | A match ends just after a line feed. |
| AbnfLexer.CWspFolds | ABNF.js:31 | The folding white-space expression matches exactly folding white space: one blank; or a line feed then a blank, the line feed possibly after a `;` comment. Where it matches, there is exactly one match end. |
| AbnfLexer.SkipWsp | ABNF.js:31 | Stops where no further folding white space matches, and moves past a blank at the start. |
| AbnfFacts.SkipWspIsMatchMany | ABNF.js:31 | The folding white-space scanner, used as a sticky expression, always advances. `matchMany` with it ends exactly where `SkipWsp` does. |
| AbnfLexer.DefinedAs | ABNF.js:30 | Matches exactly when `=` is at the position. The definition is incremental exactly when `/` follows, and the match ends after `=` or `=/`. |
| AbnfLexer.ScanRepeat | ABNF.js:33 | A repeat prefix is absent exactly when neither a digit nor `*` is at the position. A present one is non-empty. `min*max` (either side optional) is read as those bounds, and a digit run not followed by `*` as an exact count, each ending where the text of the prefix ends. |
| AbnfLexer.CharValEnd | ABNF.js:34 | A quoted string runs from one double quote to the next, with only printable non-quote characters inside. Conversely, wherever such a quoted string starts at the position, it is found, with its end. |
| AbnfLexer.ProseValEnd | ABNF.js:37 | A prose value runs from `<` to `>`, with only prose characters inside. Conversely, wherever such a prose value starts at the position, it is found, with its end. |
| AbnfLexer.NumRangeToken | ABNF.js:35 | A range token is `%`, a base letter, digits of that base, `-` and digits of that base again. It is found exactly when such a token is at the position (longest digit runs), and it returns the base letter and the two digit groups. |
| AbnfLexer.NumSeqToken | ABNF.js:36 | A num-val token is found exactly when `%`, a base letter and a digit of that base are at the position. Its groups hold only digits of that base, and joined with `.` they are exactly the text after the base letter. The token ends where neither another digit nor a dot and a digit follows, so every group is read to its end. |
| AbnfFormat.EscapeForRegExp | ABNF.js:61-62 | Reading the escaped text back, with a backslash before each special character, gives the original string (a round trip). |
| AbnfFormat.MakeCaseInsensitiveAppend | ABNF.js:64-71 | Making text case-insensitive works character by character, so it distributes over concatenation. |
| AbnfFormat.LiteralPatternIsCaseInsensitive | ABNF.js:155-160 | The pattern compiled for a printable quoted string matches exactly the words equal to it up to ASCII case. |
| AbnfFormat.FormatRepeat | ABNF.js:77-107 | Fails exactly for a range whose minimum exceeds its maximum. Gives the empty quantifier exactly when there is no repeat prefix. |
| AbnfFormat.FormatRepeatMeansBounds | ABNF.js:77-107 | The quantifier written reads back as the repeat's occurrence bounds: minimum and optional maximum. |
| AbnfFormat.FormatCodePoint | ABNF.js:113-118 | Gives `\xhh` up to 0xff, `\uhhhh` up to 0xffff and `\u{h...}` with no leading zero above, in lower-case hexadecimal whose digits parse back to the value. NaN gives `\xNaN`. |
| AbnfFormat.CodePointHasNoDash | ABNF.js:162-178 | No code-point escape contains `-`, so the only dash in a compiled range class is the one between its two bounds. |
| AbnfCompiler.CoreRuleNames | ABNF.js:8-27 | Every core rule name is a lower-case rule name, so a reference in any letter case reaches it once lowered. Every core pattern is non-empty, so a core reference always counts as an element. |
| AbnfCompiler.Reference | ABNF.js:127-135 | A core rule wins over a defined rule of the same name. A rule not yet defined is an UndefinedRule error for that name. |
| AbnfCompiler.RangePatternReadsBack | ABNF.js:162-178 | A range that compiles gives a character class that reads back as its two code points, the first below the second. With a NaN bound the class reads back as nothing. |
| AbnfCompiler.RepeatAt | ABNF.js:209-210 | Fails exactly when the repeat prefix scanned is a range whose minimum exceeds its maximum. Otherwise the quantifier reads back as the bounds of the prefix scanned, or as exactly once when there is none, and the position moves to the end of the prefix. |
| AbnfCompiler.TerminalElement | ABNF.js:155-198 | The only error is a range whose bounds do not increase, and then no quoted string but a range token is at the position. A terminal that consumes nothing is the empty pattern. |
| AbnfCompiler.Element | ABNF.js:125-199 | An element that consumes nothing is the empty pattern. A failing rule reference is an UndefinedRule error naming the lower-cased name read. |
| AbnfShapes.EmptyElementExactly | ABNF.js:125-199 | The element is the empty pattern with nothing consumed exactly when no rule name, `(`, `[`, quoted string, range, num-val or prose value starts at the position; the same holds for the terminals alone. |
| AbnfCompiler.Concatenation | ABNF.js:205-229 | A concatenation read gives a non-empty pattern and ends within the text. |
| AbnfCompiler.ConcatFrom | ABNF.js:205-229 | A concatenation read from its first element yields at least one piece, and every piece has a non-empty element. |
| AbnfCompiler.Alternatives | ABNF.js:236-251 | There is at least one alternative, and none is empty. |
| AbnfCompiler.Alternation | ABNF.js:236-251 | An alternation read gives a non-empty pattern and ends within the text. |
| AbnfCompiler.Define | ABNF.js:341-345 | The table gains the name. `=` sets the rule, `=/` stores the old pattern, a vertical bar and the new one. Every other rule is unchanged. |
| AbnfCompiler.RuleList | ABNF.js:312-351 | A rule list read keeps every rule of the table it starts from. |
| AbnfCompiler.Compile | ABNF.js:307-364 | A compiled grammar holds no placeholder rule, and keeps every other rule of the table it started from. It fails exactly when the rule list fails. |
| AbnfCompiler.StripPlaceholders | ABNF.js:355-363 | The result keeps exactly the non-placeholder rules, with their patterns. |
| AbnfShapes.NoElementAt | ABNF.js:198 | Where no element can start, the element is the empty pattern and nothing is consumed. |
| AbnfShapes.CoreReferenceFirst | ABNF.js:127-130 | A reference to a core rule inlines the core pattern, whatever the table holds. |
| AbnfShapes.DefinedReferenceInlined | ABNF.js:131-134 | A reference to a rule defined above inlines its pattern. |
| AbnfShapes.UndefinedReference | ABNF.js:131-132 | A reference to a rule neither core nor defined above is an UndefinedRule error. |
| AbnfShapes.GroupAddsNoWrapper | ABNF.js:137-144 | A parenthesised group gives its alternation's pattern as it is. |
| AbnfShapes.OptionWraps | ABNF.js:146-153 | An option gives `(?:p)?` for its alternation's pattern `p`. |
| AbnfShapes.UnclosedGroup | ABNF.js:137-153 | A group or option without its closing delimiter is an error naming that delimiter. |
| AbnfShapes.CharValElement | ABNF.js:155-160 | A quoted string compiles to the escaped, case-insensitive pattern of the text between its quotes. |
| AbnfShapes.RangeElement | ABNF.js:162-178 | A value range compiles to the class between its two code points, or fails when they are not increasing. |
| AbnfShapes.SequenceElement | ABNF.js:180-189 | A dotted num-val compiles to the escapes of its code points. |
| AbnfShapes.SequencePatternAppend | ABNF.js:184-188 | The escapes of a dotted value's code points are written in the order of the groups. |
| AbnfShapes.SequencePatternSingle | ABNF.js:187 | One group is written as the escape of its code point. |
| AbnfShapes.ProseElement | ABNF.js:191-196 | A prose value compiles like a quoted string, from the text between `<` and `>`. |
| AbnfShapes.RepeatWithoutElement | ABNF.js:209-216 | A repeat prefix with no element after it is an "expected element" error. |
| AbnfShapes.MissingFirstElement | ABNF.js:209-216 | A concatenation that starts with neither a repeat nor an element is an "expected element" error. |
| AbnfShapes.LastPiece | ABNF.js:218-226 | An element followed by white space and then nothing that starts an element ends the concatenation, as one unquantified piece. |
| AbnfShapes.ConcatStep | ABNF.js:209-226 | A repeat prefix, a non-empty element and white space after it add one piece, with the element's pattern and the prefix's quantifier, in front of the pieces read after the white space. |
| AbnfShapes.ConcatSingle | ABNF.js:209-226 | A non-empty element with no white space after it is the last piece, and the loop stops right after it. |
| AbnfShapes.EmptyTail | ABNF.js:209-213 | After white space, where neither a repeat nor an element starts, the loop adds nothing and stops where it is. |
| AbnfShapes.ConcatTailFails | ABNF.js:209-226 | An error in the rest of a concatenation, after the white space that follows a piece, is the error of the whole concatenation. |
| AbnfShapes.ConcatRendersPieces | ABNF.js:218-228 | A concatenation returns its pieces written out in order: a bare element without a quantifier, otherwise `(?:element)` followed by the quantifier. |
| AbnfShapes.AlternativesStep | ABNF.js:239-248 | A `/` after a concatenation and its white space starts the next alternative, read after the white space that follows the slash. |
| AbnfShapes.AlternativesLast | ABNF.js:245-248 | Without a `/` after a concatenation and its white space, that concatenation is the last alternative, and the loop stops after the white space. |
| AbnfFacts.RenderPiecesAppend | ABNF.js:220-225 | The pattern of a concatenation is the pattern of its first pieces followed by that of the rest. |
| AbnfShapes.OneAlternative | ABNF.js:250 | A single alternative is returned without a group around it. |
| AbnfShapes.SeveralAlternatives | ABNF.js:239-250 | Several alternatives are joined by vertical bars inside `(?:...)`. |
| AbnfSyntax.RuleRefRead | ABNF.js:127-135 | A printed rule name, followed by a blank, a closing bracket or the end, is read as the referenced rule's pattern, up to the end of the name. |
| AbnfSyntax.CharValRead | ABNF.js:155-160 | A printed quoted string is read as the case-insensitive literal pattern of its text, up to the closing quote. |
| AbnfSyntax.ProseRead | ABNF.js:191-196 | A printed prose value is read as the case-insensitive literal pattern of its text, up to the `>`. |
| AbnfSyntax.NumRangeRead | ABNF.js:162-178 | A printed increasing range `%b lo-hi` is read as the character class between its two code points. |
| AbnfSyntax.NumSeqRead | ABNF.js:180-189 | A printed dotted value is read as the escapes of its code points, in order. |
| AbnfSyntax.GroupRead | ABNF.js:137-144 | A printed group `(alternation)` is read as its alternation's pattern, up to and including `)`. |
| AbnfSyntax.OptionRead | ABNF.js:146-153 | A printed option `[alternation]` is read as `(?:p)?` for its alternation's pattern `p`, up to and including `]`. |
| AbnfSyntax.ElemRead | ABNF.js:125-199 | Every well-formed printed element, followed by what may follow an element, is read as the pattern it stands for and consumed exactly. |
| AbnfSyntax.ScanRead | ABNF.js:33 | A printed repeat prefix, not followed by a digit or `*`, is scanned back as that prefix, up to its end. |
| AbnfSyntax.RepeatRead | ABNF.js:209-210 | A printed repeat prefix that `formatRepeat` accepts compiles to that prefix's quantifier, and the element is read right after it. |
| AbnfSyntax.RepetitionRead | ABNF.js:209-211 | A printed repetition is read as its quantifier followed by its element's non-empty pattern. |
| AbnfSyntax.ConcatRead | ABNF.js:205-229 | Printed repetitions separated by single blanks are read as their pieces, in order. The loop stops at the end of the alternation, or after the blank before a `/`. |
| AbnfSyntax.AltsRead | ABNF.js:239-248 | Printed concatenations separated by ` / ` are read as their patterns, in order, up to the end of the alternation. |
| AbnfSyntax.AltRead | ABNF.js:236-251 | A printed alternation followed by the end of the text or a closing bracket is read as the pattern it stands for: one alternative as it is, several joined by vertical bars inside `(?:...)`. |
| AbnfSyntax.AlternationRoundTrip | ABNF.js:125-251 | For every well-formed syntax tree, the compiler reads the printed tree as exactly the pattern the tree stands for, and consumes the whole text. |
| AbnfShapes.CoreRuleRedefinition | ABNF.js:322-324 | Defining a rule with a core rule's name is an error, whatever follows. |
| AbnfShapes.MissingDefinedAs | ABNF.js:326-328 | A rule name not followed by `=` or `=/` is an error. |
| AbnfShapes.IncrementOfUndefined | ABNF.js:330-334 | `=/` on a rule not yet defined is an error naming the rule. |
| AbnfShapes.UnreadInput | ABNF.js:347-350 | A definition followed by anything other than a line end or the end of the text is an "expected new line" error. |
| AbnfShapes.DefinitionStored | ABNF.js:336-351 | After a definition and its line end, the rule list carries on from the next line with the rule stored. |
| AbnfFacts.LastDefinition | ABNF.js:336-347 | A final `=` definition followed only by white space yields the table with that rule set. |
| AbnfFacts.RuleListKeys | ABNF.js:312-351 | The rule list only adds to the table it starts from, and never adds a core rule name. |
| AbnfFacts.CompiledNamesAreNotCore | ABNF.js:322-324 | No compiled grammar defines a rule under a core rule's name. |
| AbnfFacts.CompileYear | examples/parseHTTPDate.js:15 | The `year` rule of the HTTP-date grammar, `4*DIGIT`, compiles to `(?:[0-9]){4,}` and is the only rule in the table. |
| AbnfTemplate.StringToAbnfTrimmed | ABNF.js:44-55 | The ABNF text of a string neither starts nor ends with white space, and the empty string gives empty text. |
| AbnfTemplate.TrimTrimmed | ABNF.js:54 | Trimming gives text that neither starts nor ends with white space, no longer than the input, and leaves such text as it is. |
| AbnfFacts.QuoteFreeLiteral | ABNF.js:44-55 | A non-empty string with no double quote becomes exactly that string between quotes. |
| AbnfFacts.QuoteAlone | ABNF.js:47-48 | A lone double quote becomes a bare `DQUOTE` reference: the empty literals around it are removed. |
| AbnfShapes.QuoteRunAlone | ABNF.js:47-54 | A run of n >= 2 double quotes becomes the repetition `n(DQUOTE)`. |
| AbnfShapes.QuoteRunBetween | ABNF.js:44-55 | A run of double quotes between two quote-free texts splits the literal in two. Between them goes `DQUOTE` for one quote, or `n(DQUOTE)` for n quotes, with single blanks around it. |
| AbnfTemplate.SpliceValue | ABNF.js:268-296 | Empty strings and lists of only empty strings leave the text unchanged. A RegExp seen before reuses its placeholder. A new RegExp gets placeholder number `count`, its source is stored under that name, and the count goes up by one. Only RegExps touch the table. |
| AbnfFacts.PlaceholderNameInjective | ABNF.js:272-273 | Different placeholder numbers give different placeholder names. |
| AbnfFacts.SpliceValueNumbered | ABNF.js:268-281 | Splicing a value keeps the bookkeeping: the table holds exactly placeholders 0 to count-1, and each RegExp owns a placeholder of its own. |
| AbnfFacts.SpliceNumbered | ABNF.js:259-297 | The whole splicing loop keeps that bookkeeping. |
| AbnfFacts.TemplatePlaceholders | ABNF.js:259-300 | The rules a template yields are exactly the placeholders numbered from 0 to the number of distinct RegExps minus one. |
| AbnfTemplate.TrimStart | ABNF.js:299 | Leaves a suffix. Everything removed is white space, and the result does not start with white space. A string that does not start with white space is unchanged. |
| AbnfTemplate.TrimEnd | ABNF.js:299 | Leaves a prefix. Everything removed is white space, and the result does not end with white space. A string that does not end with white space is unchanged. |
| AbnfTemplate.NonEmpty | ABNF.js:292 | Keeps every non-empty string as often as it occurs (as a multiset) and no empty one. |
| AbnfTemplate.NonEmptyAppend | ABNF.js:292 | Filtering keeps the order: filtering two lists joined is the two filtered lists joined. |
| AbnfTemplate.TaggedTemplate | ABNF.js:259-300 | The grammar text handed on neither starts nor ends with white space, and every rule of the table handed on is a placeholder. |
| AbnfTemplate.SpliceUpToPlaceholders | ABNF.js:268-281 | The splicing loop only ever adds placeholder rules. |
| AbnfTemplate.Abnf | ABNF.js:355-363 | No placeholder rule is in the table returned. |
| JsonReader.LiteralMatchesString | examples/parseJSON.js:93-95 | The reader's literal test is the context's `matchString`: it succeeds on the same texts and stops at the same position. |
| JsonReader.SkipSpace | examples/parseJSON.js:6 | Stops at the first character that is not JSON white space. |
| JsonReader.NumberEnd | examples/parseJSON.js:7 | A number is matched exactly when a digit follows an optional minus sign, and the match is non-empty. |
| JsonWriter.NumberTextRead | examples/parseJSON.js:7 | A valid number as written, followed by nothing that could extend it, is matched exactly to its end. |
| JsonFacts.NumberMatchIsNumber | examples/parseJSON.js:7 | Whatever the number expression matches is a valid JSON number (no leading zero, non-empty fraction and exponent digits), and the text matched is exactly that number's text. |
| JsonReader.StringContent | examples/parseJSON.js:8 | A raw match is one character that is not a quote, a backslash or a control character. An escape match is a backslash and its escape group. Each escape group is a mapped character or `u` and four hex digits. Nothing matches at a quote. |
| JsonReader.EscapeUnit | examples/parseJSON.js:9-20 | Exactly the eight escape characters of the map have a code unit. `"`, `\\` and `/` stand for themselves; `b`, `f`, `n`, `r` and `t` stand for control characters. |
| JsonReader.EscapeUnitInjective | examples/parseJSON.js:9-20 | No two escape characters stand for the same code unit. |
| JsonReader.ContentUnits | examples/parseJSON.js:75 | A `\uXXXX` escape adds the single code unit its hex digits denote. |
| JsonWriter.UnitsRead | examples/parseJSON.js:67-80 | The content loop reads written code units back exactly, and stops at the closing quote. |
| JsonReader.StringBodyStops | examples/parseJSON.js:67 | The content loop stops only where no content matches. |
| JsonReader.ParseString | examples/parseJSON.js:63-84 | Returns null exactly when no quote is at the position, and then consumes nothing. Otherwise it ends just after a closing quote. The only error is a missing closing quote. |
| JsonWriter.QuoteRead | examples/parseJSON.js:63-84 | A string literal as written reads back as its code units, up to its end. |
| JsonReader.ParseArray | examples/parseJSON.js:46-61 | Returns null exactly when no `[` is at the position, and then consumes nothing. Otherwise it yields an array. |
| JsonReader.ArrayItems | examples/parseJSON.js:53-57 | The item loop reads at least one item. |
| JsonReader.ParseObject | examples/parseJSON.js:22-44 | Returns null exactly when no `{` is at the position, and then consumes nothing. Otherwise it yields an object. |
| JsonReader.ParseValue | examples/parseJSON.js:92-110 | A value read consumes at least one character and ends within the text. At the end of the text the result is "Expected value". |
| JsonReader.ParseDocument | examples/parseJSON.js:112-124 | A document of only white space fails with "Expected value". |
| JsonRoundTrip.ArrayEmptyRead | examples/parseJSON.js:49-51 | An empty array with white space inside reads as the empty array. |
| JsonRoundTrip.ObjectEmptyRead | examples/parseJSON.js:25-27 | An empty object with white space inside reads as the empty object. |
| JsonRoundTrip.ItemsRead | examples/parseJSON.js:53-57 | The item loop reads printed items back, in order, as their meanings. |
| JsonRoundTrip.MembersRead | examples/parseJSON.js:29-40 | The member loop reads printed members back into the dictionary that the members mean. |
| JsonRoundTrip.ArrayRead | examples/parseJSON.js:46-61 | A printed array reads back as its meaning, up to its end. |
| JsonRoundTrip.ObjectRead | examples/parseJSON.js:22-44 | A printed object reads back as its meaning, up to its end. |
| JsonRoundTrip.ValueRead | examples/parseJSON.js:92-110 | Any printed value, with any white space between tokens, reads back as its meaning, up to its end. |
| JsonFacts.DocumentRoundTrip | examples/parseJSON.js:112-124 | A printed document with white space before and after it reads back as its meaning. |
| JsonFacts.TrailingTextRejected | examples/parseJSON.js:120-122 | Text after the value that is neither white space nor part of a number makes the document invalid. |
| JsonFacts.NoValueHere | examples/parseJSON.js:92-109 | At the end of the text, or at a character no value starts with, reading a value fails with "Expected value". |
| JsonFacts.ValueKindFromFirstChar | examples/parseJSON.js:92-110 | The kind of value read is fixed by its first character, so one kind never reads another's text. |
| JsonFacts.TrailingCommaInArray | examples/parseJSON.js:53-57 | A comma followed by `]` is an "Expected value" error. |
| JsonFacts.TrailingCommaInObject | examples/parseJSON.js:29-32 | A comma followed by `}` is an "Expected object key" error. |
| JsonFacts.UnterminatedString | examples/parseJSON.js:82 | A string with no later double quote is a missing-quote error. |
| JsonFacts.BadStringContent | examples/parseJSON.js:67-82 | A raw control character, or a backslash before a character that starts no escape, anywhere the content loop reaches is a missing-quote error. |
| JsonFacts.ParsedStringHasNoControl | examples/parseJSON.js:63-84 | A string that is read holds no control character anywhere between its quotes. |
| JsonFacts.ParsedEscapeValid | examples/parseJSON.js:63-84 | In a string that is read, every backslash the content loop reaches starts a mapped escape or `u` and four hexadecimal digits. |
| JsonFacts.MemberKeys | examples/parseJSON.js:29-40 | The object's names are exactly the names of its members. |
| JsonFacts.LastMemberWins | examples/parseJSON.js:38 | With duplicate names, the object keeps the value of the last member with that name. |

## Left out

- The regular-expression engine is an oracle. The model does not show that the emitted pattern sources are valid expressions or what they match. The exception is the case-insensitive literal, whose matching is defined in the model (`AbnfFormat.LiteralPatternMatches`).
- Matcher.MatchMany requires every anchored match from the start to move forward. With a zero-width match the source loops forever, which a terminating function cannot express.
- Matcher.Match requires the oracle to answer like `exec`: a match that starts at the index, with capture 0 equal to the matched text.
- Mutable context objects and `lastIndex` are replaced by cursor values. Sharing one context between callers is not modelled.
- AbnfCompiler.ConcatFrom states in its own contract only positions and the non-emptiness of the pieces. Each step of its loop is stated by `AbnfShapes.ConcatStep`, `AbnfShapes.ConcatSingle`, `AbnfShapes.EmptyTail` and `AbnfShapes.ConcatTailFails`, and the pieces of a printed concatenation by `AbnfSyntax.ConcatRead`.
- AbnfCompiler.Alternatives states in its own contract only positions and the non-emptiness of the alternatives. Each step of its loop is stated by `AbnfShapes.AlternativesStep` and `AbnfShapes.AlternativesLast`, and the alternatives of a printed alternation by `AbnfSyntax.AltsRead`.
- AbnfCompiler.TerminalElement states in its own contract only positions, error kinds and that consuming nothing means the empty pattern (exactly when no terminal starts there, `AbnfShapes.EmptyElementExactly`). The pattern of each terminal is stated by `AbnfShapes.CharValElement`, `AbnfShapes.RangeElement`, `AbnfShapes.SequenceElement` and `AbnfShapes.ProseElement`.
- AbnfCompiler.Element states in its own contract only positions, the error of a failing reference and that consuming nothing means the empty pattern (exactly when no element starts there, `AbnfShapes.EmptyElementExactly`). The pattern of each branch is stated by the `AbnfShapes` element lemmas, and that of every printed element by `AbnfSyntax.ElemRead`.
- AbnfSyntax.AlternationRoundTrip covers well-formed trees printed in one layout only: single blanks between repetitions, ` / ` between alternatives, no comments or line breaks, no blanks inside brackets, no empty literals, increasing ranges, and references to rules whose pattern is non-empty. Other layouts of the same grammar are covered branch by branch by the `AbnfShapes` lemmas only.
- AbnfFormat.FormatRepeatMeansBounds reads the quantifier with the model's own `ReadQuantifier`, not with the ECMAScript grammar. For `*m` the compiler writes `{,m}` (`ABNF.js:96`), which ECMAScript does not read as a quantifier: without the `u` flag it matches the literal text `{,m}`, and with it the pattern is a syntax error. The model keeps the code as written and does not claim the pattern means "at most m".
- JsonReader.ParseValue states in its own contract only that a value read consumes at least one character and ends within the text. The value read from printed text is stated by `JsonRoundTrip.ValueRead`, and the error cases by the `JsonFacts` lemmas.
- JsonReader.ParseArray states in its own contract only when it answers null, where it stops and that the value is an array. The items read from printed text are stated by `JsonRoundTrip.ArrayRead`.
- JsonReader.ParseObject states in its own contract only when it answers null, where it stops and that the value is an object. The members read from printed text are stated by `JsonRoundTrip.ObjectRead`, and duplicate names by `JsonFacts.LastMemberWins`.
- JsonReader.ArrayItems states only that at least one item is read. The items themselves are stated by `JsonRoundTrip.ItemsRead`.
- AbnfCompiler.Concatenation states in its own contract only that the pattern is non-empty and where it ends. The pattern is stated by `AbnfShapes.ConcatRendersPieces`, and in full for printed syntax trees by `AbnfSyntax.ConcatRead` and `AbnfSyntax.AlternationRoundTrip`.
- AbnfCompiler.Alternation states in its own contract only that the pattern is non-empty and where it ends. The joining is stated by `AbnfShapes.OneAlternative` and `AbnfShapes.SeveralAlternatives`, and in full by `AbnfSyntax.AltRead` and `AbnfSyntax.AlternationRoundTrip`.
- AbnfCompiler.RuleList states in its own contract only that no starting rule is lost. That no core rule name is added is `AbnfFacts.RuleListKeys`; the single steps are the `AbnfShapes` rule-list lemmas.
- JsonReader.ParseDocument states in its own contract only the blank document. Documents that are read are stated by `JsonFacts.DocumentRoundTrip`, trailing text by `JsonFacts.TrailingTextRejected`.
- AbnfTemplate.StringToAbnf has no contract of its own. Its output is stated by `AbnfTemplate.StringToAbnfTrimmed` and, for the shapes of input that occur, by `AbnfFacts.QuoteFreeLiteral`, `AbnfFacts.QuoteAlone`, `AbnfShapes.QuoteRunAlone` and `AbnfShapes.QuoteRunBetween`. Strings with several separate quote runs are not covered.
- AbnfLexer.CWsp states in its own contract only that a match advances and that a blank is one match. The full match is `AbnfLexer.CWspFolds`, kept as a lemma so that the many proofs that skip white space do not carry it.
- AbnfLexer.CNl states only that a match ends after a line feed, not that the text before it is a comment.
- AbnfTemplate.Abnf states only the absence of placeholders. Which placeholders existed is stated by `AbnfFacts.TemplatePlaceholders`.
- Case mapping covers ASCII letters only. `toLowerCase` on rule names and the case-insensitive literals can only meet ASCII, because the token expressions admit nothing else.
- `parseInt` and `parseFloat` precision: integers are unbounded, and a JSON number is kept as the text `parseFloat` would read. Rounding to a double is not modelled.
- `Map` and object insertion order: rule tables and JSON objects are Dafny maps.
- Template strings are taken as the `raw` strings the source reads, and a RegExp is its identity and `.source`. `instanceof` and the other dynamic type checks are replaced by the `TemplateValue` datatype.
- Positions count characters, not UTF-16 code units. Inside JSON strings, astral characters are turned into surrogate pairs (`JsonReader.Utf16`).
- Of `examples/parseHTTPDate.js`, only the `year` rule is compiled in the model, written as `year = 4*DIGIT` with single spaces. The other rules and the final `RegExp` construction are not proved.
- `examples/readmeContextExample.js` and the package entry point are not part of this model.
- The throw at `ABNF.js:353` is unreachable and is not modelled separately.
