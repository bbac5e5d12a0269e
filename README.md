# libphutil cores in Dafny

This project models three classes of libphutil (2011):

- **`XHPASTTree`**: the indexed syntax tree that libphutil builds from the output of the external XHPAST parser.
  - The parser's resolved run `(err, stdout, stderr)` is classified as a tree, a syntax error carrying its line, or a failure.
  - The constructor slices the source into tokens at a running byte offset.
  - `buildTree` fills an arena of nodes. Every sibling batch gets consecutive ids before its children are built and linked.
  - `getOffsetToLineNumberMap` computes the offset-to-line map once and keeps it.
  - `renderAsText` prints one indented line per node.
  - `evalStaticString` wraps a fragment before parsing it.
- **`PhutilMySQLDatabaseConnection`**: the string escaping for SQL and the query retry loop.
  - The escaping covers column names, multi-line comments and the LIKE rewrite.
  - The error-number classification of `throwQueryException`.
  - `executeRawQuery` makes up to three passes; only a lost connection outside a transaction is retried.
- **`AphrontRequest`**: request parameters read with a default fallback.
  - The typed getters test `isset` (present and not null).
  - `getExists` tests `array_key_exists` (present, null included).

Modules:

| file | module | contents |
|---|---|---|
| `php.dfy` | `Php` | The PHP builtins the classes use, with their properties: `str_replace` with one pair (`ReplaceAll`), `substr`, `rtrim` with one character, `str_repeat`, decimal formatting of an integer; plus `Option` and `Result`. |
| `xhpast_parse.dfy` | `XhpastParse` | The parser-result classifier, the syntax-error pattern and the wrapping of `evalStaticString`. |
| `xhpast_tokens.dfy` | `XhpastTokens` | The token stream as a function of the raw `[type, length]` pairs. |
| `xhpast_build.dfy` | `XhpastBuild` | `buildTree` as functions over an arena of node records that refer to each other by id, and the shape of the tree it builds. |
| `xhpast_lines.dfy` | `XhpastLines` | The offset-to-line map. |
| `xhpast_render.dfy` | `XhpastRender` | The text `renderAsText` produces. |
| `xhpast_tree.dfy` | `XhpastTree` | The class `XHPASTTree`, whose methods update the arena, the token stream and the line-map cache in place. Each method is proved against the functions above. |
| `mysql_escape.dfy` | `MysqlEscape` | `escapeColumnName`, `escapeMultilineComment` and the LIKE rewrite. |
| `mysql_connection.dfy` | `MysqlConnection` | `throwQueryException`, `establishConnection`, the retry loop as a function `Retry`, and the class whose `ExecuteRawQuery` loop is proved equal to it. |
| `aphront_request.dfy` | `AphrontRequestModel` | The class `AphrontRequest`. |

The MySQL server's replies are parameters:
- `ConnectReply` is what `mysql_connect` and `mysql_select_db` answer.
- `QueryReply` is what `mysql_query` answers.
- `server(k)` gives the replies that pass `k` of the retry loop receives.

The external parser is also a parameter:
- Its output arrives already decoded, as `Decoded`.
- `evalStaticString` receives the parser, `selectDescendantsOfType('n_STATEMENT')` and `evalStatic` as functions.

Strings are sequences of bytes, written as `char`.

## Model

| member | source | states |
|---|---|---|
| Php.ReplaceAllRemovesChar | src/storage/connection/mysql/PhutilMySQLDatabaseConnection.php:54-57 | After `str_replace` of a one-byte needle by a text without that byte, the byte does not occur. |
| Php.ReplaceAllRemovesPair | src/storage/connection/mysql/PhutilMySQLDatabaseConnection.php:54-57 | After `str_replace` of a two-byte needle `ab`, with a replacement that holds neither byte, no `a` is directly followed by `b`. |
| Php.ReplaceAllKeepsNoPair | src/storage/connection/mysql/PhutilMySQLDatabaseConnection.php:54-57 | A later replacement whose text holds neither byte of a pair cannot create that pair again. |
| Php.ReplaceAll | src/storage/connection/mysql/PhutilMySQLDatabaseConnection.php:36 | Defined as PHP's `str_replace` with one needle: left to right, non-overlapping, the replacement text never searched again. Its properties are the three `ReplaceAll` lemmas below. |
| Php.Substr | src/parser/xhpast/api/tree/XHPASTTree.php:72 | A slice that fits is exactly `s[start..start+len]`. A slice that starts inside the string but runs past its end is the rest of the string, `s[start..]`. The result is never longer than `len`, and is empty from an offset at or past the end. |
| Php.RTrim | src/parser/xhpast/api/tree/XHPASTTree.php:146 | The result is a prefix of the input that does not end with the trimmed byte, and only that byte was removed. |
| Php.Decimal | src/parser/xhpast/api/tree/XHPASTTree.php:53 | The text is nonempty and holds no colon; `DecimalRoundTrip` reads it back. |
| Php.CodeAndTextRoundTrip | src/storage/connection/mysql/PhutilMySQLDatabaseConnection.php:176 | The text `errno: error` reads back as the error number and the error text, negative numbers included. |
| Php.DecimalRoundTrip | src/parser/xhpast/api/tree/XHPASTTree.php:53 | The decimal text of an integer reads back as that integer. |
| XhpastParse.LastMarker | src/parser/xhpast/api/tree/XHPASTTree.php:45-48 | The greedy `(.*)` of the pattern picks the last position where ` on line <digit>` can match on the first line, and no later position matches. |
| XhpastParse.DigitRun | src/parser/xhpast/api/tree/XHPASTTree.php:46 | `(\d+)` captures the longest run of digits: a slice of the input, all digits, and not followed by a digit. |
| XhpastParse.SyntaxErrorLine | src/parser/xhpast/api/tree/XHPASTTree.php:44-50 | Defined as the pattern `/^XHPAST Parse Error: (.*) on line (\d+)/` applied to stderr, giving the second group. `SyntaxErrorLineMatches` and `SyntaxErrorRoundTrip` state what it captures. |
| XhpastParse.SyntaxErrorLineMatches | src/parser/xhpast/api/tree/XHPASTTree.php:44-50 | A line is captured exactly when stderr starts with `XHPAST Parse Error: ` and the tail matches somewhere. It is then the nonempty digit run after the last match. |
| XhpastParse.SyntaxErrorRoundTrip | src/parser/xhpast/api/tree/XHPASTTree.php:45-50 | The parser's own message `XHPAST Parse Error: <m> on line <n>` gives back the line `n` for any one-line `m`. |
| XhpastParse.Classify | src/parser/xhpast/api/tree/XHPASTTree.php:41-61 | Every outcome is pinned to its inputs. A syntax error occurs exactly when `err == 1` and the pattern matches, and carries the captured line and stderr. Any other nonzero `err` fails with the message `XHPAST failed to parse file data <err>: <stderr>`. `err == 0` with undecodable output fails with `XHPAST: failed to decode tree.`. `err == 0` with `tree` or `stream` missing, and only that, is the type-hint failure. A tree is built exactly when both are present, from those two values. |
| XhpastParse.FailureMessageRoundTrip | src/parser/xhpast/api/tree/XHPASTTree.php:53 | The failure message carries the exit code and the error output recoverably. |
| XhpastParse.WrapFragment | src/parser/xhpast/api/tree/XHPASTTree.php:146 | Defined as `<?php ` + `rtrim(s, ';')` + `;`. `WrapShape` and `WrapIgnoresSemicolons` state what it yields. |
| XhpastParse.WrapShape | src/parser/xhpast/api/tree/XHPASTTree.php:146 | The wrapped fragment is `<?php `, then the fragment without its trailing semicolons, then exactly one semicolon. |
| XhpastParse.WrapIgnoresSemicolons | src/parser/xhpast/api/tree/XHPASTTree.php:146 | Fragments that differ only in trailing semicolons wrap identically. |
| XhpastParse.EvalStaticString | src/parser/xhpast/api/tree/XHPASTTree.php:145-156 | A value results exactly when the wrapped fragment parses to exactly one statement, and it is that statement's value. A parse failure is passed on. A parse that succeeds with any other number of statements gives the `NotOneStatement` error, as the source throws at line 150. |
| XhpastParse.EvalIgnoresSemicolons | src/parser/xhpast/api/tree/XHPASTTree.php:145-156 | Trailing semicolons never change what `evalStaticString` gives. |
| XhpastTokens.Tokens | src/parser/xhpast/api/tree/XHPASTTree.php:68-77 | Defined as token `i` built at the running offset. `OffsetStep`, `TokenShape`, `TextsPrefix` and `Reassembly` state its properties; the constructor's loop is proved equal to it. |
| XhpastTokens.OffsetStep | src/parser/xhpast/api/tree/XHPASTTree.php:75 | Each token's offset is the previous offset plus the previous token's length. |
| XhpastTokens.OffsetMonotone | src/parser/xhpast/api/tree/XHPASTTree.php:66-76 | Offsets never decrease along the stream. |
| XhpastTokens.TokenShape | src/parser/xhpast/api/tree/XHPASTTree.php:68-77 | Token `i` has id `i` and the reported type. Its offset is the sum of the lengths before it. Its text is `substr(source, offset, len)`: the exact slice when it fits, the rest of the source when the token starts inside it but runs past its end, and empty from an offset at or past the end. |
| XhpastTokens.TextsPrefix | src/parser/xhpast/api/tree/XHPASTTree.php:68-77 | While the lengths fit the source, the texts of the first `j` tokens spell out the source up to token `j`'s offset. |
| XhpastTokens.Reassembly | src/parser/xhpast/api/tree/XHPASTTree.php:68-77 | When the lengths add up to the source length, the token texts concatenate back to the source. |
| XhpastLines.LineMap | src/parser/xhpast/api/tree/XHPASTTree.php:158-173 | Defined as one plus the number of newlines before each byte. `LineMapShape` proves that this is what the counting loop produces step by step. |
| XhpastLines.LineMapShape | src/parser/xhpast/api/tree/XHPASTTree.php:158-173 | One entry per byte; the first byte is on line 1; the line steps up by one exactly after a newline and stays the same otherwise. |
| XhpastLines.LineMapMonotone | src/parser/xhpast/api/tree/XHPASTTree.php:158-173 | Line numbers never decrease along the source. |
| XhpastBuild.Allocate | src/parser/xhpast/api/tree/XHPASTTree.php:99-105 | The first loop's records: one fresh node per description, with consecutive ids, no parent and no children yet. Properties in `BuildShape`. |
| XhpastBuild.SetParents | src/parser/xhpast/api/tree/XHPASTTree.php:109-111 | Exactly the listed children get the parent `p`; every other record and the length stay as they were. |
| XhpastBuild.Link | src/parser/xhpast/api/tree/XHPASTTree.php:109-112 | Sets the children's parent, then the parent's children list. `LinkAt` states the result. |
| XhpastBuild.Adopt | src/parser/xhpast/api/tree/XHPASTTree.php:107-113 | The arena grows by exactly the nodes nested in the description. `AdoptShape` states the rest. |
| XhpastBuild.Descend | src/parser/xhpast/api/tree/XHPASTTree.php:106-114 | The arena grows by exactly the nodes nested below the batch and never shrinks. `DescendShape` states the rest. |
| XhpastBuild.Build | src/parser/xhpast/api/tree/XHPASTTree.php:98-122 | The arena grows by the number of descriptions, nested ones included, and the returned ids are the consecutive ids from the old arena size. `BuildShape` states the rest. |
| XhpastBuild.DescendStep | src/parser/xhpast/api/tree/XHPASTTree.php:106-114 | The second loop handles the first node of the batch, then the rest of the batch. |
| XhpastBuild.BuildInArena | src/parser/xhpast/api/tree/XHPASTTree.php:108-121 | The ids returned for a children batch lie inside the arena. |
| XhpastBuild.LinkAt | src/parser/xhpast/api/tree/XHPASTTree.php:109-112 | Linking fresh ids below a parent sets each child's parent to it and gives the parent exactly those children, in order. Nothing else changes. |
| XhpastBuild.AdoptShape | src/parser/xhpast/api/tree/XHPASTTree.php:107-113 | Giving one node its children only adds wired records below it and sets that node's children list. |
| XhpastBuild.RelinkedShape | src/parser/xhpast/api/tree/XHPASTTree.php:106-114 | A linked children batch keeps older records, wires each child to its description and hangs it below the parent. |
| XhpastBuild.DescendShape | src/parser/xhpast/api/tree/XHPASTTree.php:106-114 | The second phase leaves older records as they were. The batch nodes only gain their children lists. Every added node is wired and hangs below a batch node. |
| XhpastBuild.BuildShape | src/parser/xhpast/api/tree/XHPASTTree.php:98-122 | `buildTree` leaves the old records untouched and places the batch at consecutive ids from the arena size, unlinked. Every added record is wired; the ones after the batch hang below it. |
| XhpastBuild.ArenaIsTree | src/parser/xhpast/api/tree/XHPASTTree.php:80 | The arena built from the one root has exactly one record per node description, nested ones included. The root is id 0 and the arena is a well-formed tree. |
| XhpastBuild.ChildIffParent | src/parser/xhpast/api/tree/XHPASTTree.php:109-112 | In a well-formed tree, `c` is among `p`'s children exactly when `c`'s parent is `p`. |
| XhpastBuild.ParentBelow | src/parser/xhpast/api/tree/XHPASTTree.php:99-110 | Every node but the root has a parent with a smaller id. |
| XhpastBuild.PathToRoot | src/parser/xhpast/api/tree/XHPASTTree.php:110 | Following parents from any node reaches the root through strictly decreasing ids. |
| XhpastRender.ChildrenMadeFrom | src/parser/xhpast/api/tree/XHPASTTree.php:106-113 | A node's children are made from its nested descriptions, in order, with ids above its own. |
| XhpastRender.TreeChildrenAbove | src/parser/xhpast/api/tree/XHPASTTree.php:99-112 | In a well-formed tree, every child id is greater than its parent's id. |
| XhpastRender.RenderNode | src/parser/xhpast/api/tree/XHPASTTree.php:134-140 | Defined as one iteration of the render loop. `RenderNodeSplit` and `RenderNodeLines` state what it yields. |
| XhpastRender.RenderList | src/parser/xhpast/api/tree/XHPASTTree.php:132-142 | Defined as `executeRenderAsText` over a list of ids. `RenderStep`, `RenderListLines` and `RenderArenaLines` state what it yields. |
| XhpastRender.RenderNodeSplit | src/parser/xhpast/api/tree/XHPASTTree.php:134-140 | A node renders as its indented description line followed by its children, one level deeper. |
| XhpastRender.RenderStep | src/parser/xhpast/api/tree/XHPASTTree.php:134-140 | One iteration of the render loop moves the rendering on by exactly one node. |
| XhpastRender.RenderListLines | src/parser/xhpast/api/tree/XHPASTTree.php:132-142 | With one-line descriptions, a list of nodes renders to one line per description, nested ones included. |
| XhpastRender.RenderNodeLines | src/parser/xhpast/api/tree/XHPASTTree.php:132-142 | A node renders to one line per description in its subtree. |
| XhpastRender.RenderArenaLines | src/parser/xhpast/api/tree/XHPASTTree.php:128-142 | Rendering from the root gives exactly one line per node of the arena. |
| XhpastTree.XHPASTTree.constructor | src/parser/xhpast/api/tree/XHPASTTree.php:64-81 | The token loop yields the token stream specified by `Tokens`, and the arena is the one built from the single root. |
| XhpastTree.XHPASTTree.BuildTree | src/parser/xhpast/api/tree/XHPASTTree.php:98-122 | The recursive method changes the arena and returns the ids exactly as `Build` specifies. |
| XhpastTree.XHPASTTree.AllocateBatch | src/parser/xhpast/api/tree/XHPASTTree.php:99-105 | The first loop appends one fresh record per description, with consecutive ids. |
| XhpastTree.XHPASTTree.AdoptBatch | src/parser/xhpast/api/tree/XHPASTTree.php:106-114 | The second loop gives each batch node its children, in order, as `Descend` specifies. |
| XhpastTree.XHPASTTree.AdoptChildren | src/parser/xhpast/api/tree/XHPASTTree.php:107-113 | A node with a children field gets its batch built and linked; a node without one is left alone. |
| XhpastTree.XHPASTTree.LinkChildren | src/parser/xhpast/api/tree/XHPASTTree.php:109-112 | Sets each child's parent, then the parent's children list. |
| XhpastTree.XHPASTTree.Dispose | src/parser/xhpast/api/tree/XHPASTTree.php:89-92 | The arena and the stream are gone; the class invariant still holds. |
| XhpastTree.XHPASTTree.GetRootNode | src/parser/xhpast/api/tree/XHPASTTree.php:94-96 | Gives exactly the record `tree[0]`: node 0, made from the root description and without a parent. Gives nothing once disposed. |
| XhpastTree.XHPASTTree.GetRawTokenStream | src/parser/xhpast/api/tree/XHPASTTree.php:124-126 | Gives the specified token stream; nothing once disposed. |
| XhpastTree.XHPASTTree.GetOffsetToLineNumberMap | src/parser/xhpast/api/tree/XHPASTTree.php:158-173 | Gives the line map of the source. It is computed on the first call, and a stored map is returned unchanged. |
| XhpastTree.ComputeLineMap | src/parser/xhpast/api/tree/XHPASTTree.php:160-170 | The counting loop yields exactly the specified line map. |
| XhpastTree.XHPASTTree.RenderAsText | src/parser/xhpast/api/tree/XHPASTTree.php:128-130 | Renders from the root of a live tree. |
| XhpastTree.XHPASTTree.ExecuteRenderAsText | src/parser/xhpast/api/tree/XHPASTTree.php:132-142 | The recursive loop yields exactly the specified rendering of the list at the given depth. |
| XhpastTree.XHPASTTree.NewFromDataAndResolvedExecFuture | src/parser/xhpast/api/tree/XHPASTTree.php:37-62 | Gives the classified error, or a fresh valid tree built from the decoded `tree` and `stream`. |
| MysqlEscape.ReplaceCharEscapes | src/storage/connection/mysql/PhutilMySQLDatabaseConnection.php:36 | After replacing `c` by `ec`, every `c` is preceded by `e`, and the text does not start with `c`. |
| MysqlEscape.EscapeColumnName | src/storage/connection/mysql/PhutilMySQLDatabaseConnection.php:35-37 | Defined as the name with each backtick replaced by backslash-backtick, between two backticks. `EscapeColumnNameShape` and `UnescapeColumnName` state its properties. |
| MysqlEscape.EscapeColumnNameShape | src/storage/connection/mysql/PhutilMySQLDatabaseConnection.php:35-37 | The result is the name between two backticks, one byte longer per backtick. Every inner backtick follows a backslash. |
| MysqlEscape.UnescapeColumnName | src/storage/connection/mysql/PhutilMySQLDatabaseConnection.php:35-37 | Dropping the outer backticks and turning each backslash-backtick back into a backtick gives back the name: no two names escape to the same text. |
| MysqlEscape.UnescapeEscaped | src/storage/connection/mysql/PhutilMySQLDatabaseConnection.php:36 | Replacing backslash-backtick by backtick undoes replacing backtick by backslash-backtick, for every text. |
| MysqlEscape.EscapeColumnNameMisread | src/storage/connection/mysql/PhutilMySQLDatabaseConnection.php:35-37 | The name ``a`b``, escaped as written, is read by MySQL as the identifier `a\` followed by the text ``b` ``, not as the name. |
| MysqlEscape.QuotedBodyRoundTrip | src/storage/connection/mysql/PhutilMySQLDatabaseConnection.php:35-37 | A name with its backticks doubled, then a closing backtick, reads back as the name and what follows. |
| MysqlEscape.QuoteIdentifierRoundTrip | src/storage/connection/mysql/PhutilMySQLDatabaseConnection.php:35-37 | The corrected quoting reads back as exactly the name, whatever bytes it holds, and leaves the following text unread. |
| MysqlEscape.Collapse | src/storage/connection/mysql/PhutilMySQLDatabaseConnection.php:61 | Defined as `preg_replace('/[^\x20-\x7F]+/', ' ', s)`. The `Collapse` lemmas below state its properties. |
| MysqlEscape.DropRun | src/storage/connection/mysql/PhutilMySQLDatabaseConnection.php:61 | Dropping a run of non-printable bytes leaves a suffix that starts with a printable byte, or nothing. |
| MysqlEscape.CollapseHead | src/storage/connection/mysql/PhutilMySQLDatabaseConnection.php:61 | A nonempty text collapses to a nonempty text starting with its first byte or a space. |
| MysqlEscape.CollapsePrintable | src/storage/connection/mysql/PhutilMySQLDatabaseConnection.php:61 | Every byte after the collapse lies in 0x20-0x7F. |
| MysqlEscape.CollapseKeepsPrintable | src/storage/connection/mysql/PhutilMySQLDatabaseConnection.php:61 | A fully printable text is left unchanged. |
| MysqlEscape.CollapseIdempotent | src/storage/connection/mysql/PhutilMySQLDatabaseConnection.php:61 | Collapsing twice is collapsing once. |
| MysqlEscape.CollapseRun | src/storage/connection/mysql/PhutilMySQLDatabaseConnection.php:61 | A maximal run of non-printable bytes becomes exactly one space. |
| MysqlEscape.CollapseKeepsAbsent | src/storage/connection/mysql/PhutilMySQLDatabaseConnection.php:61 | The collapse introduces no byte other than space. |
| MysqlEscape.CollapseKeepsNoPair | src/storage/connection/mysql/PhutilMySQLDatabaseConnection.php:61 | The collapse creates no adjacent pair of non-space bytes that was absent. |
| MysqlEscape.ReplacePairMarkersSafe | src/storage/connection/mysql/PhutilMySQLDatabaseConnection.php:45-57 | After the first three replacements, no `--`, `*/` or `//` is left. |
| MysqlEscape.ReplaceCharMarkersSafe | src/storage/connection/mysql/PhutilMySQLDatabaseConnection.php:45-57 | The last three replacements remove `#`, `!` and `;` and bring back no pair. |
| MysqlEscape.KeepPairs | src/storage/connection/mysql/PhutilMySQLDatabaseConnection.php:45-57 | A replacement text free of `-`, `*` and `/` keeps each absent pair absent. |
| MysqlEscape.ReplaceCommentMarkersSafe | src/storage/connection/mysql/PhutilMySQLDatabaseConnection.php:45-57 | After all six replacements, none of `--`, `*/`, `//`, `#`, `!`, `;` occurs. |
| MysqlEscape.CommentBodySafe | src/storage/connection/mysql/PhutilMySQLDatabaseConnection.php:45-61 | The comment body is free of all six markers and entirely printable. |
| MysqlEscape.WrapKeepsNoPair | src/storage/connection/mysql/PhutilMySQLDatabaseConnection.php:63 | Wrapping in `/* ` and ` */` adds no `--` or `//`. |
| MysqlEscape.WrapOpenEnd | src/storage/connection/mysql/PhutilMySQLDatabaseConnection.php:63 | No `*/` occurs before the closing one. |
| MysqlEscape.WrapKeepsAbsent | src/storage/connection/mysql/PhutilMySQLDatabaseConnection.php:63 | Wrapping adds no `#`, `!` or `;`. |
| MysqlEscape.EscapeMultilineComment | src/storage/connection/mysql/PhutilMySQLDatabaseConnection.php:39-64 | Defined as the six replacements in order, the collapse, and the `/* ` ... ` */` wrapping. `EscapeMultilineCommentCloses` states its properties. |
| MysqlEscape.EscapeMultilineCommentCloses | src/storage/connection/mysql/PhutilMySQLDatabaseConnection.php:39-64 | The result starts with `/* ` and ends with ` */`. Its only `*/` is the final one. It holds no `--`, `//`, `#`, `!` or `;`. |
| MysqlEscape.EscapeForLike | src/storage/connection/mysql/PhutilMySQLDatabaseConnection.php:70-79 | Defined as the four replacements of `escapeStringForLikeClause`, applied one after the other. `EscapeForLikeIsReference` and `EscapeForLikeWildcards` state its properties. |
| MysqlEscape.UnquoteDoubled | src/storage/connection/mysql/PhutilMySQLDatabaseConnection.php:70-79 | The first two replacements together double every backslash except one directly before a quote. |
| MysqlEscape.EscapeWildcards | src/storage/connection/mysql/PhutilMySQLDatabaseConnection.php:70-79 | The last two replacements turn that result into the one-pass reference rewrite. |
| MysqlEscape.EscapeForLikeIsReference | src/storage/connection/mysql/PhutilMySQLDatabaseConnection.php:70-79 | The four sequential replacements equal the one-pass rewrite, byte by byte: a backslash is doubled unless a quote follows, `_` and `%` gain a backslash, and every other byte stays. |
| MysqlEscape.LikeReferenceEscapes | src/storage/connection/mysql/PhutilMySQLDatabaseConnection.php:70-79 | In the rewrite, every `_` and `%` is preceded by a backslash. |
| MysqlEscape.LikeReferenceCounts | src/storage/connection/mysql/PhutilMySQLDatabaseConnection.php:70-79 | The rewrite keeps the number of `_` and of `%`. |
| MysqlEscape.EscapeForLikeWildcards | src/storage/connection/mysql/PhutilMySQLDatabaseConnection.php:70-79 | In the output of the LIKE rewrite, every `_` and `%` is preceded by a backslash, and their counts are unchanged. |
| MysqlConnection.ThrowQueryException | src/storage/connection/mysql/PhutilMySQLDatabaseConnection.php:169-186 | Defined as the switch on the error number, with the message `#<errno>: <error>`. `ThrowQueryExceptionKinds` states its properties. |
| MysqlConnection.Establish | src/storage/connection/mysql/PhutilMySQLDatabaseConnection.php:87-107 | Defined as: no link and a connect exception when connecting fails; no link and the query exception when selecting the database fails; the new link otherwise. `EstablishConnection` is proved against it. |
| MysqlConnection.Try | src/storage/connection/mysql/PhutilMySQLDatabaseConnection.php:144-156 | Defined as one pass of the loop body: connect when no link is held, then query, then keep the result or throw. |
| MysqlConnection.Retry | src/storage/connection/mysql/PhutilMySQLDatabaseConnection.php:140-166 | Defined as the retry loop over passes. `RetryEnds`, `RetryOnlyLost` and `RetryLastPass` state its properties, and `ExecuteRawQuery` is proved equal to it. |
| MysqlConnection.ThrowQueryExceptionKinds | src/storage/connection/mysql/PhutilMySQLDatabaseConnection.php:169-186 | Always throws; the class is decided by the error number, in both directions. Connection-lost is exactly 2013 and 2006. Recoverable is exactly 1213 and 1205. Generic is every other number. The message is `#` followed by text that reads back as the number and the error. |
| MysqlConnection.RetryEnds | src/storage/connection/mysql/PhutilMySQLDatabaseConnection.php:140-166 | The loop makes between one and three passes, and only one inside a transaction. It ends with exactly one of a stored result and a thrown exception. |
| MysqlConnection.RetryOnlyLost | src/storage/connection/mysql/PhutilMySQLDatabaseConnection.php:157-165 | Every pass before the last threw a lost connection: nothing else is retried. |
| MysqlConnection.RetryLastPass | src/storage/connection/mysql/PhutilMySQLDatabaseConnection.php:143-166 | The last pass decides the end. A result is kept with its link. An exception is thrown with the link then held. A lost connection is thrown only when no pass is left or a transaction is open. |
| MysqlConnection.PhutilMySQLDatabaseConnection.constructor | src/storage/connection/mysql/PhutilMySQLDatabaseConnection.php:24-26 | Stores the configuration; no link and no result yet. |
| MysqlConnection.PhutilMySQLDatabaseConnection.EstablishConnection | src/storage/connection/mysql/PhutilMySQLDatabaseConnection.php:87-107 | The old link is dropped. A new link is kept only when connecting and selecting the database both succeed. A refused connection throws the connection exception; a failed select throws what `throwQueryException` picks. |
| MysqlConnection.PhutilMySQLDatabaseConnection.RequireConnection | src/storage/connection/mysql/PhutilMySQLDatabaseConnection.php:121-126 | Gives the link exactly when one is held, otherwise the error `Connection is required.`. |
| MysqlConnection.PhutilMySQLDatabaseConnection.EscapeString | src/storage/connection/mysql/PhutilMySQLDatabaseConnection.php:28-33 | Connects first when no link is held and passes a connect failure on; then escapes with the server's function. |
| MysqlConnection.PhutilMySQLDatabaseConnection.EscapeStringForLikeClause | src/storage/connection/mysql/PhutilMySQLDatabaseConnection.php:66-81 | The server-escaped value, then the LIKE rewrite; a connect failure is passed on. |
| MysqlConnection.PhutilMySQLDatabaseConnection.ExecuteRawQuery | src/storage/connection/mysql/PhutilMySQLDatabaseConnection.php:140-166 | The loop leaves the link, the last result and the thrown exception exactly as `Retry` from pass 0 with three passes. It never returns without a result or an exception. |
| AphrontRequestModel.AphrontRequest.constructor | src/aphront/request/AphrontRequest.php:27-30 | `getHost` and `getPath` give back the arguments; no request data yet. |
| AphrontRequestModel.AphrontRequest.SetRequestData | src/aphront/request/AphrontRequest.php:32-35 | Replaces the whole data map and returns the request itself. Host and path stay. |
| AphrontRequestModel.AphrontRequest.GetInt | src/aphront/request/AphrontRequest.php:45-51 | The cast value when the key is set (present and not null), otherwise the default. |
| AphrontRequestModel.AphrontRequest.GetStr | src/aphront/request/AphrontRequest.php:53-59 | The cast value when the key is set, otherwise the default. |
| AphrontRequestModel.AphrontRequest.GetArr | src/aphront/request/AphrontRequest.php:61-68 | The stored array exactly when the key is set and holds an array, otherwise the default. |
| AphrontRequestModel.AphrontRequest.GetExists | src/aphront/request/AphrontRequest.php:70-72 | True exactly when the key is present, null values included. |
| AphrontRequestModel.AphrontRequest.IsAjax | src/aphront/request/AphrontRequest.php:74-76 | True exactly when the key `__ajax__` exists, whatever its value. |
| AphrontRequestModel.NullIsNotSet | src/aphront/request/AphrontRequest.php:45-72 | A key present with a null value exists for `getExists`, yet every typed getter gives its default. |
| AphrontRequestModel.TypedGettersNeedKey | src/aphront/request/AphrontRequest.php:45-68 | A typed getter that does not answer with its default found the key present and set. |
| AphrontRequestModel.GettersAgree | src/aphront/request/AphrontRequest.php:45-68 | `getInt` and `getStr` find a value for the same keys. `getArr` finds one only for some of them. |
| AphrontRequestModel.NoDataYet | src/aphront/request/AphrontRequest.php:45-76 | Before `setRequestData`, no key exists, the request is not an Ajax request, and every getter gives its default. |

## Left out

- The parser run itself (`newFromData`, `xhpast_get_parser_future`, `resolve`) and `json_decode`: external process and foreign decoding. The decoded output is the `Decoded` parameter, with `None` for output that is not an array.
- XHPASTNode and XHPASTToken internals (`getDescription`, `getChildren` beyond the ids, `selectDescendantsOfType`, `evalStatic`): their classes are not part of this model. They are function parameters, and a node is a record of id, description, parent id and child ids.
- Object identity and aliasing of nodes: the arena holds node records by value, and a child refers to its parent by id rather than by reference.
- `dispose`: PHP's `unset` makes the fields unreadable. The model empties them and sets a `disposed` flag, after which the getters give nothing.
- Token text past the end of the source: PHP 5's `substr` returns `false` for an offset past the end. The model gives the empty text, which is what that token's text reads as in a string context.
- All `mysql_*` calls (connect, select_db, query, errno, error, fetch, insert_id, affected_rows, real_escape_string): database I/O. They are reply parameters, and `mysql_real_escape_string` is the `realEscape` function parameter.
- `selectAllResults`, `getInsertID`, `getAffectedRows`, `getTransactionKey`: each only hands the link or the result to a `mysql_*` call.
- `getConfiguration` and the `host`, `user`, `pass` and `database` entries: they only feed `mysql_connect` and `mysql_select_db`, whose answers are parameters. The constructor stores the map in `configuration`, as the code does. The declared field `$config` is never used.
- The parent class `PhutilDatabaseConnection`: its transaction bookkeeping is not part of this model. `isInsideTransaction()` is the field `insideTransaction`.
- The exception classes are not part of this model. The connect failure `PhutilQueryConnectionException` is taken not to be a `PhutilQueryConnectionLostException`, so it is never retried.
- The query text of `executeRawQuery` is not modelled; what the server answers to each pass is the `server` parameter.
- AphrontRequestModel.AphrontRequest.GetInt: the default is typed `Option<int>`, while PHP's `$default` may be any value, so a default of another type is not modelled.
- AphrontRequestModel.AphrontRequest.GetStr: the default is typed `Option<string>`, while PHP's `$default` may be any value.
- AphrontRequestModel.AphrontRequest.GetArr: the default is typed `Option<map<string, Value>>`, while PHP's `$default` may be any value.
- XhpastTree.XHPASTTree.RenderAsText: requires a tree that is not disposed. In PHP, rendering after `dispose` reads an unset field and ends in a fatal error, which the model does not represent.
- The casts of `getInt` and `getStr`: PHP's `(int)` cast is the `toInt` parameter and `(string)` is the `toStr` parameter of `GetStr`. Stored values are abstract.
- `getExists` before `setRequestData`, PHP's `array_key_exists` on null warns and answers false. The model answers false.
- PHP arrays are modelled with string keys only; integer keys are not distinguished.
- PhutilErrorHandler, ConduitClient, the web entry point, the application configuration, the default controller and the remarkup list rule: logging, RPC and bootstrapping around the modelled classes.

## Findings

| source | as written | input that shows it | evidently intended | confidence | as-written member | corrected member |
|---|---|---|---|---|---|---|
| src/storage/connection/mysql/PhutilMySQLDatabaseConnection.php:35-37 | `escapeColumnName` writes a backtick inside the name as backslash-backtick. In a MySQL quoted identifier a backslash is an ordinary byte and a backtick is written by doubling it. | The name ``a`b`` becomes `` `a\`b` ``, which MySQL reads as the identifier `a\` followed by the text ``b` ``. | Double every backtick, so the quoted text reads back as exactly the name. | not executed | MysqlEscape.EscapeColumnNameMisread | MysqlEscape.QuoteIdentifierRoundTrip |
