# Wiki article parser and mirror cleanser, in Dafny

The bot serves wiki articles from Markdown-like documents. `parse_article` reads one
document line by line. Three kinds of line have special meaning:

- HTML comments are directives, such as `<!-- title -->`, `<!-- field -->`,
  `<!-- inline field -->`, `<!-- footer -->`, `<!-- user author -->`, `<!-- no embed -->`
  and `<!-- alias a, b -->`.
- Headings name the title and the fields.
- Fenced code blocks switch off both of the above.

Every other line is appended to the body, to the value of the last field, or to the
footer. At the end of the document the parser checks that the article is complete.
It returns the article together with its set of aliases, or it fails at the first rule
the document breaks.

The model is a pure state machine. `Wiki.ParseLine` is one step. `Wiki.Run` folds it
over the lines and stops at the first failure. `Wiki.Finalize` runs the end-of-document
checks, and `Wiki.ParseArticle` composes the three. Each failing assertion of the parser
is a constructor of `Wiki.ParseError`. A parser is either `Scanning` or `Done`, so the
accessors `article` and `article_aliases` can answer only once parsing has finished.

The mirror tool `cleanse.py` blanks a sensitive file before it goes to the public mirror.
It keeps one empty comment per original line, then lays a fixed notice over the first
lines. `Cleanse.EmplaceOver` models `emplace_over`. `Cleanse.CleansedText` models the
text written back, given the number of lines the file had.

Modules, one file each:

- `wrappers.dfy` (`Wrappers`): `Option` and `Result`.
- `strings.dfy` (`Strings`): the string operations the parser relies on.
  - JavaScript's `trim`, with its whitespace and line-terminator sets.
  - `split` on a character, `join`, and `split(/\r?\n/)`.
- `markup.dfy` (`Markup`): line-level syntax.
  - The heading level (`line.search(/[^#]/)`).
  - The directive regex `/^<!--+(.*?)-+->$/`, as a declarative capture predicate plus an executable capture.
  - Line classification and the hard-line-break rule.
- `wiki.dfy` (`Wiki`): the article types, the parser state, every parser operation, and an imperative rendering of `parse` as a loop.
- `wiki_lemmas.dfy` (`WikiLemmas`): the parser's rules stated over single lines and over whole runs.
- `wiki_roundtrip.dfy` (`WikiRoundTrip`): writes an article out in minimal directive syntax and proves that parsing the text gives the article back.
- `cleanse.dfy` (`Cleanse`): `emplace_over`, the cleansed text, and the file list of `main`.

## Model

| member | source | states |
|---|---|---|
| Strings.Trim | src/components/wiki.ts:89 | The trimmed text has no whitespace at either end and is no longer than the input. It is empty exactly when the input is all whitespace. |
| Strings.TrimPadded | src/components/wiki.ts:96 | Trimming removes any whitespace padding around a trimmed text and gives that text back. |
| Strings.Split | src/components/wiki.ts:149 | Splitting on a character gives at least one part, and no part contains the separator. Joining the parts with the separator gives the input back. |
| Strings.SplitCount | src/components/wiki.ts:149 | There is one more part than there are separators in the text. |
| Strings.SplitJoin | src/components/wiki.ts:149 | Splitting the join of separator-free parts gives back exactly those parts. |
| Strings.SplitAtFirstSeparator | src/components/wiki.ts:149 | A separator-free part, the separator, then the rest splits into that part followed by the split of the rest. |
| Strings.SplitLines | src/components/wiki.ts:61 | `split(/\r?\n/)` gives at least one line, and no line contains a line feed. |
| Strings.SplitLinesJoin | src/components/wiki.ts:61 | Lines joined with `\n` split back into the same lines, provided no line holds a line feed and no line but the last ends in `\r`. |
| Strings.SplitLinesJoinCrLf | src/components/wiki.ts:61 | Lines joined with `\r\n` split back into the same lines, provided no line holds a line feed. A line may itself end in `\r`. |
| Strings.SplitLinesRejoin | src/components/wiki.ts:61 | Splitting loses nothing, whatever mix of `\n` and `\r\n` the text uses: the lines put back together, each with the line ending it had, are the text. |
| Strings.RejoinSplitLines | src/components/wiki.ts:61 | Lines put together with any mix of `\n` and `\r\n` split back into the same lines with the same endings, provided no line holds a line feed and no line before a plain `\n` ends in a carriage return. |
| Markup.HeadingLevel | src/components/wiki.ts:108 | The index of the first character that is not `#`. All characters before it are `#`. The result is -1 exactly when the line consists only of `#`. |
| Markup.CommentCapture | src/components/wiki.ts:96 | A capture that is found is a capture of the directive regex that neither starts nor ends with a dash. When nothing is found, no capture exists. |
| Markup.LeftmostCaptureIsBetweenRuns | src/components/wiki.ts:96 | The regex capture is the text between the dash run after `<!-` and the dash run before `>`, or empty when the two runs meet. |
| Markup.LeftmostCaptureUnique | src/components/wiki.ts:96 | Any two such captures of one line are the same text, so the regex's answer is determined. |
| Markup.DirectivePayload | src/components/wiki.ts:95-96 | A payload exists exactly when the regex matches. It is then the trim of the capture the regex engine returns: the text between the dash run after `<!-` and the dash run before `>`, neither starting nor ending with a dash. The payload is trimmed. |
| Markup.DirectiveTextCapture | src/components/wiki.ts:96 | On `<!-- payload -->` with a payload free of line terminators, the regex captures exactly the payload with one space on each side. |
| Markup.LooksNumberedMatches | src/components/wiki.ts:164 | The executable test "starts with a digit and has no line terminator" agrees with `/^\d+.*$/` in both directions. |
| Markup.HeadingClassified | src/components/wiki.ts:93 | Outside a fence, a line whose first character is `#` is a heading line, whatever follows it. |
| Markup.HeadingRoundTrip | src/components/wiki.ts:107-113 | A heading written as `level` marks (at least one), a space and an already trimmed text is classified as a heading and has that level. The text after the marks, trimmed, is the text it was written with. |
| Markup.DirectiveRoundTrip | src/components/wiki.ts:95-96 | For a payload that is already trimmed and free of line terminators, the directive written as `<!-- payload -->` is itself trimmed and is classified as a directive. The regex gives back exactly the payload. |
| Wiki.JoinedSpec | src/components/wiki.ts:168 | The joined text keeps the accumulator and ends with the new piece. Exactly one space ends the part before the piece: the accumulator's own trailing space, or an inserted one. |
| Wiki.AppendContent | src/components/wiki.ts:158-177 | A content line succeeds exactly outside the two awaiting-heading states, which fail. Only the accumulator of the current mode changes: the body in body mode, the last field's value in field mode, the footer in footer mode. The other two accumulators and every earlier field are kept, and so are the number, names and kinds of the fields. |
| Wiki.ParseHeading | src/components/wiki.ts:107-123 | A successful heading leaves the fence flag, the aliases and the number of fields as they were, and keeps the state invariant. |
| Wiki.AddAliases | src/components/wiki.ts:151-154 | Adding succeeds exactly when the names are pairwise distinct and none is already known. On success the set gains exactly the names. A failure names one of the aliases as the duplicate. |
| Wiki.ParseDirective | src/components/wiki.ts:130-156 | A directive never shrinks the alias set or the field list, leaves the fence flag unchanged, and keeps the state invariant. |
| Wiki.ParseLine | src/components/wiki.ts:88-101 | A successful step flips the fence flag exactly on fence lines. It keeps the state invariant and never loses aliases or fields. |
| Wiki.Run | src/components/wiki.ts:61-63 | A successful run keeps the state invariant and never loses aliases or fields. |
| Wiki.Finalize | src/components/wiki.ts:64-85 | Finalising succeeds exactly when the fence is closed, no heading is awaited and the title is non-empty. In `no embed` mode it also needs a non-blank body, an empty or absent footer, and no fields. The article then has the trimmed body (absent when blank), the trimmed footer, the fields and the flags. The first three failures are reported in the source's order. |
| Wiki.Article | src/components/wiki.ts:184-194 | The article is available exactly when parsing is done. Otherwise the result is the not-done error. |
| Wiki.ArticleAliases | src/components/wiki.ts:196-199 | The aliases are available exactly when parsing is done. Otherwise the result is the not-done error. |
| Wiki.ParseArticle | src/components/wiki.ts:203-207 | A parsed article has these properties:<br>• its title is non-empty;<br>• its body, when present, is non-empty and trimmed;<br>• its footer is trimmed;<br>• in `no embed` mode it has a body, no footer text and no fields. |
| Wiki.ParseDocument | src/components/wiki.ts:59-86 | The loop form of `parse` stops at the first failing line. It returns what the functional fold and finalisation return. |
| WikiLemmas.TitleDirectiveRule | src/components/wiki.ts:131-133 | A `title` directive moves from body to awaiting-title. In any other state it fails. |
| WikiLemmas.FieldDirectiveRule | src/components/wiki.ts:134-139 | A `field` or `inline field` directive appends exactly one empty field of that kind and waits for its name. It does this in every state. |
| WikiLemmas.AliasDirectiveRule | src/components/wiki.ts:146-155 | An `alias` directive listing names, each with any whitespace before and after it, succeeds exactly when no name repeats and none is already known. It then adds exactly the names without their whitespace. |
| WikiLemmas.AliasNamesOfList | src/components/wiki.ts:147-150 | Splitting the text after `alias ` on commas and trimming each part gives back the listed names, with the whitespace written around each name removed. |
| WikiLemmas.AliasListExample | src/components/wiki.ts:146-155 | `alias foo, bar` adds the two aliases `foo` and `bar`. The blank after the comma is trimmed away. |
| WikiLemmas.UnknownDirectiveIgnored | src/components/wiki.ts:130-156 | A directive outside the vocabulary leaves the whole state unchanged. |
| WikiLemmas.MalformedDirectiveFails | src/components/wiki.ts:95-96 | A comment-shaped line that the regex does not match fails the parse. |
| WikiLemmas.ShortCommentFails | src/components/wiki.ts:95-96 | `<!-->` starts with `<!--` and ends with `-->`, yet it fails. |
| WikiLemmas.TitleHeadingRule | src/components/wiki.ts:111-114 | While a title is awaited, a heading succeeds exactly when it has level 1. It then sets the title to the trimmed text after the first character and returns to body. Higher levels fail. |
| WikiLemmas.FieldNameRule | src/components/wiki.ts:115-119 | While a field name is awaited, a heading succeeds exactly when it has level 2. It then names only the last field and moves to field. The earlier fields are unchanged. Other levels fail. |
| WikiLemmas.HashOnlyHeadingFails | src/components/wiki.ts:108-109 | A heading line made only of `#` fails. |
| WikiLemmas.HeadingInContentMode | src/components/wiki.ts:120-122 | In a content state, a heading is appended to the current accumulator as content with a hard break. The mode stays, and nothing but that accumulator changes. |
| WikiLemmas.AwaitingHeadingRejectsContent | src/components/wiki.ts:158-177 | While a heading is awaited, any content or fence line fails, blank lines included. |
| WikiLemmas.FenceSuppressesSyntax | src/components/wiki.ts:88-101 | Inside an open fence, every line but a fence marker is plain content, even if it looks like a heading or a directive. |
| WikiLemmas.FenceToggles | src/components/wiki.ts:90-92 | A fence line flips the flag and is then appended as content. |
| WikiLemmas.ContentLineRule | src/components/wiki.ts:159-174 | A content line is appended after one space, which is omitted when the accumulator ends in a space. It carries `\n` exactly when the line-break rule holds, judged with the fence flag after the line. Nothing but the current accumulator and the fence flag changes. |
| WikiLemmas.LinesInFenceKeepBreaks | src/components/wiki.ts:159-165 | Inside a fence, every line keeps its hard break. |
| WikiLemmas.AppendAccumulates | src/components/wiki.ts:167-177 | In a content state a content line always succeeds. It keeps the mode and the fence flag, and extends the current accumulator with the joiner. |
| WikiLemmas.BodyContentStep | src/components/wiki.ts:167-168 | In body mode a content line is joined onto the body, and nothing else changes. |
| WikiLemmas.FieldContentStep | src/components/wiki.ts:169-171 | In field mode a content line is joined onto the last field's value, and nothing else changes. |
| WikiLemmas.FooterContentStep | src/components/wiki.ts:172-174 | In footer mode a content line is joined onto the footer. An absent footer starts from the empty text. |
| WikiLemmas.ProseReflow | src/components/wiki.ts:165-168 | Consecutive prose lines are joined into the body with single spaces, as one reflowed paragraph. |
| WikiLemmas.HardBreakLines | src/components/wiki.ts:159-168 | Lines that keep a hard break, such as list items, each end up preceded by a space and followed by `\n`. |
| WikiLemmas.RunAppend | src/components/wiki.ts:61-63 | Running two blocks of lines is running the first block, then running the second from where it stopped. |
| WikiLemmas.FenceFlips | src/components/wiki.ts:90-91 | After a successful run, the fence flag is the starting flag exclusive-or whether the lines hold an odd number of fences. |
| WikiLemmas.FenceParity | src/components/wiki.ts:90-91 | After a successful run, the fence flag is the starting flag flipped once per fence line. |
| WikiLemmas.UnclosedFenceFails | src/components/wiki.ts:64 | A document with an odd number of fence lines never parses. When every line is accepted, the error is the unclosed code block. |
| WikiLemmas.RunKeepsEarlierFields | src/components/wiki.ts:115-139 | Over a whole run, every field before the last stays exactly as it was, and no field changes its kind. |
| WikiLemmas.StepKeepsEarlierFields | src/components/wiki.ts:88-101 | One accepted line changes no field but the last, and changes no field's kind. |
| WikiLemmas.ParseArticleRule | src/components/wiki.ts:203-207 | `parse_article` succeeds exactly when every line is accepted and finalisation passes. The results are then the finalised article and the collected aliases. |
| WikiLemmas.TrailingDirectiveFails | src/components/wiki.ts:65-66 | A dangling title or field directive at the end fails, with the matching error. |
| WikiLemmas.NoEmbedFooterRule | src/components/wiki.ts:76-83 | In `no embed` mode, a footer with text fails. A footer that trims to nothing is kept as an empty footer. |
| WikiLemmas.AccessorsAnswer | src/components/wiki.ts:180-199 | For a finished parser the accessors give back exactly the stored article and alias set. For a parser still scanning both report the not-done error. |
| WikiRoundTrip.SerializeSplits | src/components/wiki.ts:61 | The written lines, joined with `\n`, split back into the same lines. |
| WikiRoundTrip.FieldsRun | src/components/wiki.ts:115-139 | Reading written field directives and name headings appends exactly those fields, in order, for fields whose values are empty and whose names are trimmed, starting outside a fence in a content state. |
| WikiRoundTrip.AliasRun | src/components/wiki.ts:146-155 | Starting outside a fence with no aliases yet, reading one written `alias` directive of distinct names gives exactly the set of those names. Each name must be non-empty, trimmed, and free of commas and line terminators. |
| WikiRoundTrip.SerializeRun | src/components/wiki.ts:61-63 | Reading all written lines from the start state succeeds and reaches the scan that finalises to the article. |
| WikiRoundTrip.FinalizeWritten | src/components/wiki.ts:64-85 | The scan that results from reading a written article finalises to exactly that article and its alias set. |
| WikiRoundTrip.SerializeParse | src/components/wiki.ts:59-207 | Parsing the written form of a writable article gives back that article and the set of its aliases. |
| Cleanse.EmplaceOver | mirror_tools/cleanse.py:14-15 | The result has the length of the longer input. It starts with `a`, and past `a` it is `b`. When `b` is no longer than `a`, the result is `a`. |
| Cleanse.EmplaceOverIsOverlay | mirror_tools/cleanse.py:14-15 | The slicing definition equals an element-wise overlay: position `i` comes from `a` where `a` reaches, else from `b`. |
| Cleanse.EmplaceOverEmpty | mirror_tools/cleanse.py:14-15 | The empty sequence is an identity on both sides. |
| Cleanse.EmplaceOverIdempotent | mirror_tools/cleanse.py:14-15 | Laying the same prefix on twice is laying it on once. |
| Cleanse.EmplaceOverAssociative | mirror_tools/cleanse.py:14-15 | Overlays compose associatively. |
| Cleanse.CleansedLines | mirror_tools/cleanse.py:20-21 | A cleansed file has as many lines as the notice or the original, whichever is more. It starts with the notice, and every later line is `/**/`. |
| Cleanse.CleansedTextSplits | mirror_tools/cleanse.py:22-23 | The written text splits on line feeds into the cleansed lines plus one empty remainder. |
| Cleanse.CleansedLineCount | mirror_tools/cleanse.py:20-23 | Reading the written file again yields `max(notice length, original line count)` lines. |
| Cleanse.CleanseIdempotent | mirror_tools/cleanse.py:17-23 | Cleansing an already cleansed file writes the same text again. |
| Cleanse.MissingComma | mirror_tools/cleanse.py:35-36 | As written, the list has eight entries, and neither `message_purge.ts` nor `pasta.ts` is among them. |
| Cleanse.AllFilesListed | mirror_tools/cleanse.py:29-39 | The intended list has nine distinct entries, and both modules are among them. |

## Left out

- The `Wiki` class (src/components/wiki.ts from line 214 on) is not part of this model. It loads article files, registers the commands, swaps the alias map at line 274, and looks up and renders the articles. All of this is Discord and file-system plumbing.
- `walk_dir` (src/components/wiki.ts:15-24) is directory traversal.
- src/components/speedrun.ts (a ban-event handler) and src/pasta.ts (an interaction logger) do not use the parser. src/infra/guild-command-manager.ts only sends the registered commands, the wiki commands among them, over REST. None of them is part of this model.
- `cleanse` takes the number of lines as a parameter. The model leaves out opening, reading and writing the file, the existence test and the messages it prints (mirror_tools/cleanse.py:18-26).
- `main` (mirror_tools/cleanse.py:28-42) is modelled only as its list of files. The calls to `cleanse` are not modelled.
- Strings are sequences of Unicode scalar values. JavaScript strings are UTF-16 code units, and the difference shows only for characters outside the Basic Multilingual Plane. Every character the parser looks for is in that plane, so the difference changes no result.
- Wiki.ParseHeading, Wiki.ParseDirective, Wiki.ParseLine and Wiki.Run: their own contracts state only what every step preserves. The rules of each heading, directive and content line are stated about them by the WikiLemmas rows above.
- WikiRoundTrip.SerializeParse: stated only for articles that have these properties:
  - every field value is empty;
  - the body and footer are single plain lines;
  - the alias names contain no comma.
  The reason is that the parser never trims field values: content added to a field keeps the separating space in front, so a field value only reads back when it starts with that space.
- WikiLemmas.ProseReflow and WikiLemmas.HardBreakLines: stated for the body. The field value and footer accumulators follow the same rule, stated one line at a time by WikiLemmas.ContentLineRule.

Where the code and its written description disagree, the model follows the code:

- A bullet or numbered line gets its `\n` after the item, not before it.
- The fence rule itself adds no `\n` to the closing fence line, because the flag is already off when the line-break rule is evaluated. The line still gets one from the other rules, for example when it ends in two spaces.
- A footer that trims to `""` stays present as an empty footer. Only the body is turned into absent when empty.
- The end-of-document checks run in the code's order: the fence first, then the dangling directives, and only then the title.
- `/^\d+.*$/` also rejects a trimmed line that contains a carriage return or a Unicode line or paragraph separator, because `.` does not match those.

## Findings

| source | as written | input that shows it | evidently intended | confidence | as-written member | corrected member |
|---|---|---|---|---|---|---|
| mirror_tools/cleanse.py:35-36 | There is no comma after `"message_purge.ts"`, so Python concatenates it with `"pasta.ts"` into the single entry `"message_purge.tspasta.ts"`. | `main` calls `cleanse("src/message_purge.tspasta.ts")`. That file does not exist, so neither module is cleansed. | Each of the two modules is a separate entry and is cleansed. | high (not executed) | Cleanse.MissingComma | Cleanse.AllFilesListed |
