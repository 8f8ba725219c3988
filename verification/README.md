# d9s: a verified model

This project models the logic of d9s, a terminal and MCP client for PostgreSQL,
ClickHouse and Redis, and proves what that logic promises. It covers the SQL and
Redis lexers and the statement splitter that every front end runs on, the printers
whose output those lexers must read back, the editor's highlighting of a bounded
window, the paging cursor, the script run and its message channel, the write gate
of the MCP server, the redactor, the bounded rendering of tool responses, the
comment-preserving config writer, and the shared-resource protocols: schema cache,
SSH tunnel and session pool.

Run `dafny verify dfyconfig.toml` to check everything.

## How it is laid out

| files | what they hold |
|---|---|
| `Bytes`, `Utf8`, `Printing` | byte classes and searches, UTF-8 by section 4 of RFC 3629, small printers |
| `GoSpace`, `GoFields` | what Go takes for whitespace: trimming and fields, and the form of what they read |
| `Lexer`, `LexerWindow`, `Elements` | the SQL lexer, its stability under cutting, the form of what it reads |
| `Splitter`, `Sections` | the splitter, the form of what it cuts |
| `Resplit`, `Lossless`, `Concat`, `Unclosed`, `GoTrim` | splitting again, splitting without loss, splitting joined scripts and exactly when that works, which bytes are trimmed |
| `RedisLexer`, `RedisElements`, `RedisCommand`, `RedisArgs` | the Redis lexer and argument splitter, and the forms of what they read |
| `Engines`, `SqlVerdict`, `RedisVerdict` | the engine-level entry points, the destructive verdict from the tokens of a statement, and what it is worth on Redis |
| `Highlight`, `Colours`, `Lookback`, `EditorRow`, `SchemaTemplate`, `Meta`, `MetaFaults`, `EditDistance` | the editor's colours, when its look-back is enough, its rows, the inserted templates, backslash commands and why they are rejected |
| `Cursor`, `ScriptRun`, `McpQuery` | the paging cursor, the script run, the gated MCP run |
| `Redact`, `Format`, `Grid`, `Notices`, `Guard` | scrubbing, rendering, what a reader sees of a table and its notices, and the last cap of MCP responses |
| `ConfigMerge`, `ConfigRead`, `ConfigLines` | merging a record into a mapping, reading it back by its keys, editing the lines of the file |
| `SchemaCache`, `Tunnel`, `Pool` | shared resources as state machines |

Loops of the program are loops here, proved against functions; the functions carry
the theorems. What a scanner or a splitter computes is stated a second time without
scanning, as the form of the texts it reads, and every text is shown to have it. An object the program mutates is a class whose methods take the steps
of a pure step function, and the theorems are about every sequence of steps. Go
strings are sequences of bytes, a byte a `char` of that code; statements hold for
all byte strings unless well-formed UTF-8 is asked for. A mutex that is held for a
whole operation makes that operation one step.

## Where the program does not do what it says

Each of these is a lemma: an input for which the promise fails, the exact condition
under which it holds, or both.

- A quoted name with a doubled backtick does not read back on ClickHouse: `SchemaTemplate.TemplateRoundTrip` is an if-and-only-if.
- A key prefix with a newline prints a template that is cut in two: `RedisCommand.ScanIsOneCommand`.
- A script with a literal or comment left open cannot be joined to others: `Unclosed.ClosedExactly` is an if-and-only-if.
- A statement with a vertical tab, a form feed or a Unicode space at an end can be trimmed to text that splits otherwise, in two or to nothing: `GoTrim.VerticalTabResplits`, `GoTrim.VerticalTabVanishes`; `GoTrim.ResplitsExactly` says which texts do.
- A short literal across the start of the look-back miscolours the window: `Highlight.ShortLiteralMiscolours`; `Lookback.OpenExactly` is an if-and-only-if.
- A Redis command that is refused when it is written plainly passes the write gate with its name in quotes: `RedisVerdict.QuotedNameRuns`; `RedisVerdict.FlaggedExactly` and `McpQuery.ShutGateExactly` are if-and-only-ifs.
- A drain cancelled between two pages reports success with part of the rows: `Cursor.CancelledDrainLooksWhole`, exactly when `Cursor.ExecuteViaCursor` says.
- A cursor calls itself truncated with no row left to bring, when it was closed or the result is just as long as the cap: `Cursor.ClosedStaysTruncated`, `Cursor.FullCapLooksTruncated`; `Cursor.TruncatedHasMore` is an if-and-only-if.
- Removing a connection can take comment lines out of the entry above it: `ConfigLines.RemoveTakesNote`, exactly when `ConfigLines.RemoveReachesUp` says.
- An item added to a list does not line up with the others unless one space follows the first one's dash: `ConfigLines.RenderedLinesUp` is an if-and-only-if.
- A refresh of the schema cache can be followed by names older than it: `SchemaCache.RefreshCanStoreStale`, exactly when `SchemaCache.FreshAfterRefresh` says.
- A secret that overlaps the marker, or the words a cut response ends with, can get out: `Redact.ClearExactly`, `Guard.TailExactly` and `Guard.GuardExactly` are if-and-only-ifs.
- A beginning of a secret stays in sight where a long value is cut inside it, as values are cut before they are scrubbed: `Guard.HeadStaysExactly` is an if-and-only-if.

## Model

| member | source | states |
|---|---|---|
| Bytes.ByteClasses | internal/db/split.go:300-310 | Whitespace, digits, tag bytes and word bytes by their ASCII codes; every byte from 128 on belongs to a word |
| Lexer.TokenizeSQL | internal/db/split.go:97-131 | The token loop returns the tokens of `Spans`, texts included: one element after another from the start, whitespace dropped |
| Lexer.SqlConsume | internal/db/split.go:228-281 | The byte loops end each element where `ElementAt` says, with its kind; `Elements.StepExactly` says what that is without scanning |
| Lexer.NumberEnd | internal/db/split.go:137-151 | Fraction and signed exponent are taken as the code takes them, so `1e--x` opens no comment |
| Lexer.DollarQuoteEnd | internal/db/split.go:285-298 | A dollar quote is recognised exactly when its tag closes, and ends after the first repeat of the delimiter or at the end of the script |
| LexerWindow.TokensTiled | internal/db/split.go:97-131 | Tokens are non-empty, in order and disjoint, begin on no space, and only whitespace stands between them, from any starting point |
| LexerWindow.TiledCovers | internal/db/split.go:97-131 | Every byte that is in no token is whitespace: lexing loses nothing |
| LexerWindow.StepWindow | internal/db/split.go:228-281 | One lexing step depends only on the text from its start on: inside a window it finds the same element, cut at the window's end |
| LexerWindow.TokensFrom | internal/db/split.go:97-131 | A position that no token straddles is one the lexer visits, and what follows it lexes as on its own |
| LexerWindow.Window | internal/db/split.go:97-131 | Lexing any window whose ends no token straddles, or whose end is a safe cut, gives the whole script's tokens clipped to it |
| Elements.FitsReads | internal/db/split.go:228-281 | An element written out is one token ending where its form ends, in any text around it: strings of bytes, backslash escapes and doubled quotes, quoted names, backtick names, dollar quotes, both comments, numbers, words, punctuation |
| Elements.StepExactly | internal/db/split.go:228-281 | The lexer finds a token of a kind up to a position if and only if such an element stands there, or a quote or comment is opened that no element's form closes and the token runs to the end |
| Elements.LayoutReads | internal/db/split.go:97-131 | A text laid out from elements and whitespace has exactly those elements as its tokens, in their places, with anything behind them |
| RedisLexer.TokenizeRedis | internal/db/split.go:156-188 | The Redis token loop returns the tokens of `RedisSpans` |
| RedisLexer.RedisArgEnd | internal/db/split.go:194-213 | A quoted argument ends at its closing quote, escapes honoured, or before its line's end; a bare one at whitespace |
| RedisLexer.RedisTiled | internal/db/split.go:156-188 | Redis tokens are in order and disjoint with only whitespace between them |
| RedisLexer.RedisFrom | internal/db/split.go:156-188 | At a line start inside no token the Redis lexer is back in its first state |
| RedisLexer.RedisWindowed | internal/db/split.go:156-188 | Lexing a Redis window from such a line start gives the whole script's tokens clipped to it |
| RedisElements.ScriptExactly | internal/db/split.go:156-213 | Every Redis script is written as blanks, comment lines and quoted or bare arguments, and however it is told apart its tokens are theirs: the first argument of a line its command, a quoted one up to its quote, its line's end or the end |
| RedisLexer.SplitRedis | internal/db/split.go:30-41 | The line loop returns the trimmed non-empty lines that are not comments, trimmed of every space Go knows |
| GoFields.TrimReads | internal/db/split.go:33 | Trimming takes all spaces of any kind from both ends, and nothing else |
| RedisLexer.CommandIsLine | internal/db/split.go:30-41 | Each command is one line without spaces at its ends, and no comment |
| RedisLexer.RedisResplitIsIdentity | internal/db/split.go:30-41 | Every Redis command splits to itself |
| RedisLexer.RedisSplitConcat | internal/db/split.go:30-41 | Two Redis scripts joined by a newline split to the commands of the one and then of the other |
| Splitter.SplitSQL | internal/db/split.go:317-358 | The splitting loop, semicolons and backslash commands both, returns exactly `StatementTexts` |
| Splitter.ReadMeta | internal/db/split.go:328-346 | The inner loop takes into a backslash command the tokens up to a line end between tokens or a semicolon token |
| Splitter.StatementsWellCut | internal/db/split.go:317-358 | Statements are non-empty, trimmed, disjoint and in script order |
| Sections.SplitExactly | internal/db/split.go:317-358 | The tokens of every script make stretches up to a semicolon and backslash commands up to a newline between two of their tokens, a semicolon or the end; the statements are those of the sections, trimmed, one for each that is not all comments |
| Lossless.SplittingLosesNothing | internal/db/split.go:317-358 | Every token but comments and semicolons lies in a statement, up to the trimmed tail of an unterminated literal, and no statement holds a semicolon token |
| Lossless.HoldsOnce | internal/db/split.go:317-358 | The statement that holds a token is the only one that does |
| Lossless.TokensInOrder | internal/db/split.go:317-358 | Tokens keep their order: of two, the later is in no earlier statement |
| Resplit.ResplitIsIdentity | internal/db/split.go:317-358 | Splitting any statement of any script again gives that statement, backslash commands and trimmed unterminated literals and comments included |
| Concat.SplitConcat | internal/db/split.go:317-358 | If the appended semicolon is a token of its own, a script joined to any other by it splits to the statements of both |
| Unclosed.OpenFails | internal/db/split.go:317-358 | For any script that is not closed there is one that, joined to it by a semicolon, makes it split otherwise |
| Unclosed.ClosedExactly | internal/db/split.go:317-358 | A script can be joined to every other without changing the statements of either if and only if the appended semicolon is a token of its own |
| GoTrim.SameExactly | internal/db/split.go:320-324 | Trimming as Go does leaves the statements of a script as the lexer's whitespace leaves them if and only if none has a vertical tab, a form feed or a Unicode space at an end |
| GoTrim.BareResplits | internal/db/split.go:317-358 | A statement without such a space at an end is one of the program's, whatever the rest of the script holds, and splits to itself |
| GoTrim.ResplitsExactly | internal/db/split.go:317-358 | A statement as the program trims it splits to itself if and only if its own tokens make one statement: code without a semicolon that does not begin with a backslash, or a backslash command that takes all of it in |
| GoTrim.VerticalTabResplits | internal/db/split.go:317-346 | Some statement that begins with a vertical tab is trimmed to text that splits in two: the lexer and the trim disagree on what a space is |
| GoTrim.VerticalTabVanishes | internal/db/split.go:317-346 | Another, a vertical tab and a comment, is trimmed to text that splits to nothing |
| GoFields.FieldsExactly | internal/db/split.go:383 | Every text is fields and spaces of one to three bytes, no space beginning inside a field, and its fields are those, however it is told apart |
| Engines.RunSplit | internal/db/split.go:11-16 | Split picks the splitter of the engine |
| Engines.Tokenize | internal/db/split.go:86-91 | Tokenize picks the lexer of the engine |
| Engines.TopLevelSQLWords | internal/db/split.go:363-377 | The depth-counting loop returns the upper-cased words outside parentheses |
| Engines.TopLevelWordsExactly | internal/db/split.go:363-377 | A word is reported if and only if it is a word token at depth 0, so none written in a string, comment, quoted name or subquery is |
| SqlVerdict.VerdictFromTokens | internal/db/split.go:381-411 | A SQL statement is flagged if and only if its first word token outside counted parentheses spells DROP, TRUNCATE or ALTER in any case, or DELETE or UPDATE with no later such token that spells WHERE |
| SqlVerdict.DeleteAllIsFlagged | internal/db/split.go:381-411 | DELETE FROM any printed table name is flagged |
| SqlVerdict.DeleteWhereIsNot | internal/db/split.go:381-411 | With WHERE and anything behind it, it is not |
| Engines.CheckDestructive | internal/db/split.go:381-411 | The verdict for each engine is `IsDestructive`; `SqlVerdict.VerdictFromTokens` and `RedisVerdict.VerdictFromFields` say what that is |
| Engines.FindDestructive | internal/db/split.go:20-28 | The flagged statements are collected in order |
| Engines.DestructiveExactly | internal/db/split.go:20-28 | A statement is flagged if and only if it is in the list and destructive |
| Engines.ResplitIsIdentity | internal/db/split.go:11-16 | On every engine each statement of a script splits to itself |
| Engines.SplitConcat | internal/db/split.go:11-28 | Splitting, and the destructive verdict, distribute over closed scripts on every engine |
| Engines.FlaggedAnywhere | internal/db/split.go:18-28 | A statement flagged alone is flagged wherever it stands in a script |
| RedisVerdict.VerdictFromFields | internal/db/split.go:380-392 | A Redis command is flagged if and only if its first field spells FLUSHALL, FLUSHDB, DEL or SHUTDOWN letter by letter in any case, or CONFIG with a second that spells SET; the letters that have I and S for their upper case count |
| RedisVerdict.FlaggedExactly | internal/db/split.go:380-392 | Of the Redis commands that run as FLUSHALL, FLUSHDB, DEL, SHUTDOWN or CONFIG SET the verdict flags exactly those whose fields it looks at, the first and behind CONFIG the second, hold no quote and no backslash |
| RedisVerdict.FirstArg | internal/db/redis.go:373-453 | The first argument of a command, when it is a word of letters, is its first field if that is plain, and the other fields and arguments come from the same rest |
| RedisVerdict.QuotedNameRuns | internal/db/redis.go:313-323 | A command whose name is written in quotes is one command of a script, runs as that name, and is not flagged |
| RedisVerdict.QuotePasses | internal/db/split.go:380-392 | No command that begins with a quote or a backslash is flagged |
| Highlight.SpansIn | internal/ui/highlight.go:162-193 | The runs tile [from, to) with no gap, no overlap and no two neighbours of one kind, and paint every byte in the colour its token gives it |
| Highlight.TokenizeWindow | internal/ui/highlight.go:143-153 | The bounds are clamped, the look-back begins at a line start, and offsets are shifted back to the buffer's |
| Highlight.LooksBack | internal/ui/highlight.go:27-31 | The look-back begins at the last line start that is at least 8192 bytes before the window |
| Highlight.TilesPaintsOnce | internal/ui/highlight.go:160-193 | In a tiling each byte has one colour |
| Highlight.WindowColours | internal/ui/highlight.go:139-153 | When no token straddles the look-back start, the window's tokens colour every byte as a lex of the whole buffer does |
| Highlight.HighlightWindow | internal/ui/highlight.go:139-193 | Both calls together: the visible runs tile the window and show every byte as a lex of the whole buffer would |
| Colours.ItemColours | internal/ui/highlight.go:198-214 | Wherever an element stands in a SQL script its bytes are drawn by its form: strings and dollar quotes, numbers, comments, words that are keywords in any case, and the rest plain |
| Colours.RedisColours | internal/ui/highlight.go:198-214 | In a Redis script the first argument of a line is drawn as a keyword, later ones as the strings, numbers and keywords they are, comments as comments |
| Highlight.ShortLiteralMiscolours | internal/ui/highlight.go:27-31 | Contrary to the comment, a three-byte literal that straddles the look-back start is enough to show code as a string |
| Lookback.OpenExactly | internal/ui/highlight.go:27-31 | On every engine, what is typed before the look-back starts is enough for every later window in every continuation if and only if it leaves no token open there |
| EditorRow.RowKinds | internal/ui/highlight.go:242-255 | Each character gets the kind of the run at the offset the loop has reached |
| EditorRow.OffsetsExactly | internal/ui/highlight.go:242-255 | That offset is where the character is exactly when all characters before the last are well-formed UTF-8 |
| EditorRow.RowIsPainted | internal/ui/highlight.go:242-255 | In a well-formed line each character has the colour its first byte is painted with |
| EditorRow.GroupRuns | internal/ui/highlight.go:261-277 | The runs draw every character once, in order and in its kind, the cursor's on its own, and no two neighbours could be one |
| EditorRow.StatementAt | internal/ui/highlight.go:38-52 | The tokens between the semicolons around the cursor |
| EditorRow.AroundIsOne | internal/ui/highlight.go:36-52 | There is one such stretch, and it holds the token the cursor is in |
| SchemaTemplate.SchemaTemplate | internal/ui/schema.go:387-405 | The printing loop returns the template for any table and columns, and nothing for no table |
| SchemaTemplate.CollapseDouble | internal/db/split.go:217-224 | Reading a doubled quote undoes printing it |
| SchemaTemplate.SelectReads | internal/ui/schema.go:387-425 | The tokens of the template, for any names: printed names lex piece by piece, with any text after them |
| SchemaTemplate.TemplateIsOneStatement | internal/ui/schema.go:387-425 | For any names the template splits to exactly one statement, and not a destructive one |
| SchemaTemplate.TemplateRoundTrip | internal/ui/schema.go:387-425 | It reads back as SELECT, the column names in order or `*`, FROM, the table's parts, LIMIT 100 if and only if no name holds a backtick on ClickHouse |
| RedisCommand.SplitCommandLine | internal/db/redis.go:373-453 | The argument loop, with its flush, its escapes and both errors, returns `CommandLine`; `RedisArgs.LineExactly` says what that is |
| RedisArgs.LineReads | internal/db/redis.go:373-453 | Words written as double-quoted text with its escapes, single-quoted text, bare bytes and escaped bytes, set apart by blanks, split to exactly their texts, and to the right error when the line ends inside a quote |
| RedisArgs.LineExactly | internal/db/redis.go:373-453 | Every text is such a line, and splitting succeeds if and only if no quote stays open |
| RedisCommand.PatternRoundTrip | internal/ui/schema.go:444-450 | The printed pattern of any key prefix parses to the prefix and an asterisk |
| RedisCommand.ScanRoundTrip | internal/ui/schema.go:391-393 | The whole template parses to SCAN, 0, MATCH, the pattern, COUNT, 100 for any prefix |
| RedisCommand.ScanIsOneCommand | internal/ui/schema.go:391-393 | It is one command of a script if and only if the prefix holds no newline, which the quoting leaves raw |
| EditDistance.ComputeDistance | internal/meta/meta.go:158-176 | The two-row loop returns the least number of insertions, deletions and substitutions turning one text into the other |
| EditDistance.LevIsDistance | internal/meta/meta.go:158-176 | The recurrence the rows fill in is that least number, which no other number is |
| EditDistance.DistanceIsMetric | internal/meta/meta.go:158-176 | Least edit counts are symmetric, zero only on equal texts, and obey the triangle inequality |
| EditDistance.UnknownVerb | internal/meta/meta.go:144-155 | The suggestion is the first of the nearest verbs, none when all are further than two edits |
| EditDistance.SuggestsNear | internal/meta/meta.go:144-155 | A suggestion is made exactly when some verb lies within two edits |
| Meta.ReadArg | internal/meta/meta.go:91-117 | The argument loop returns `ArgOf`, an unterminated quote included |
| Meta.Parse | internal/meta/meta.go:49-87 | The parsing loop returns `ParseText` of the trimmed statement, with a suggestion for an unknown verb |
| Meta.ParseExactly | internal/meta/meta.go:46-87 | A text parses to a command if and only if it spells it: backslash, a listed verb, +, a blank and the argument written bare or quoted |
| MetaFaults.NoVerbExactly | internal/meta/meta.go:51-64 | A text is no backslash command if and only if it does not begin with a backslash, and incomplete if and only if no verb follows that |
| MetaFaults.HeadExactly | internal/meta/meta.go:54-70 | Every other text has one head: a backslash, a whole verb, a + if there is one, and the rest |
| MetaFaults.RejectedExactly | internal/meta/meta.go:66-117 | By its head a text is rejected for the first thing wrong: an unknown verb; then something other than a blank behind it; then a quote that stays open; then something behind the argument, which is named |
| Meta.DescribeRoundTrip | internal/meta/meta.go:49-117 | `\d` with any quoted name is one statement of a script and parses back to that name |
| Cursor.Cursor.NextPage | internal/db/cursor.go:152-180 | A page takes the step of `Step`: cap, exhaustion, error and close as the code has them, asking the source for no more than the cap leaves |
| Cursor.AskedIsMost | internal/db/cursor.go:161-169 | What the source is asked for is the most rows that keep to the page, 200 unless the caller says otherwise, and to the cap |
| Cursor.Cursor.Cancel | internal/db/cursor.go:124-131 | Cancelling keeps the first error and closes |
| Cursor.Cursor.CloseLocked | internal/db/cursor.go:223-232 | Closing releases the source the first time only, and that time reports what the release does |
| Cursor.Source.Fetch | internal/db/cursor.go:81-91 | Any source, paging or with its rows in memory: the next rows, at most as many as asked unless they are in memory; none without an error only at the end; exhausted without an error only there, with one perhaps earlier |
| Cursor.Source.Count | internal/db/cursor.go:49-52 | The count of changed rows is settled once the result has ended or is released, and may be anything before that |
| Cursor.SliceSource.Fetch | internal/db/cursor.go:240-246 | Rows in memory come all at once, whatever is asked, which is what a source of that kind may answer |
| Cursor.RunKeeps | internal/db/cursor.go:100-112 | Every reachable state has released its source exactly once if closed and never if not, is closed if it holds an error, and counts the rows handed over |
| Cursor.ReleasedOnce | internal/db/cursor.go:223-232 | In every interleaving from a new cursor the source is released once, and exactly when the cursor closed |
| Cursor.PulledIsDelivered | internal/db/cursor.go:152-180 | Every row handed over was delivered, in order, but for rows a failing fetch sent along |
| Cursor.PagesAreFirstRows | internal/db/cursor.go:152-180 | Pages of a run without a failing fetch are exactly the first `loaded` rows of the source |
| Cursor.OverCapOnlyByLowering | internal/db/cursor.go:161-206 | In any run of a paging source more is loaded than the cap in force only if the cap was set below what was loaded by then, and nothing was loaded since |
| Cursor.NeverPastCap | internal/db/cursor.go:161-206 | However the cap moves below a limit, no run of a paging source loads past the limit |
| Cursor.Quiet | internal/db/cursor.go:152-160 | After close, exhaustion or error nothing is fetched and nothing delivered |
| Cursor.ErrorsStick | internal/db/cursor.go:155-157 | The first error is what every later NextPage reports |
| Cursor.TruncatedHasMore | internal/db/cursor.go:43-49 | After any run a truncated cursor can still bring rows if and only if it is open and fewer were loaded than the source has |
| Cursor.FullCapLooksTruncated | internal/db/cursor.go:43-49 | A result exactly as long as the cap is truncated and open, and raising the cap brings nothing, against the comment |
| Cursor.ClosedStaysTruncated | internal/db/cursor.go:43-48 | A capped cursor stays Truncated when closed, though then no cap brings rows back, against the interface's comment |
| Cursor.PageSizesDoNotMatter | internal/db/cursor.go:152-180 | Once the source is exhausted a reader has every row, whatever its page sizes and caps were |
| Cursor.BufferedGivesAll | internal/db/cursor.go:67-79 | Stream's fallback serves the rows Execute returned, whatever the page sizes and caps |
| Cursor.ExecuteViaCursor | internal/db/cursor.go:256-291 | Draining returns all rows exactly when no cancellation closed the cursor with rows unread; the count is the settled one, read after the release; what the release reports is an error of the result, unless a cancellation closed the cursor; it terminates |
| Cursor.CancelledDrainLooksWhole | internal/db/cursor.go:268-291 | A cancellation between two pages ends the drain with the rows so far and no error |
| Cursor.EmptyPagesNeverEnd | internal/ui/query.go:518-528 | Empty pages from a source that never says it has ended leave a cursor as it was, so a loop that looks only at Done goes on for ever |
| ScriptRun.StatementFolds | internal/ui/query.go:496-538 | A statement's messages fold to one result holding its pages in one piece and how it ended |
| ScriptRun.QuitExactly | internal/ui/query.go:474-490 | A statement quits if and only if it spells `\q`, with or without a + and an argument; no other spelled command does |
| ScriptRun.QuitAlone | internal/ui/query.go:474-490 | `\q` alone quits, whatever space is around it |
| ScriptRun.RunScript | internal/ui/query.go:441-470 | The goroutine's loop sends the messages of `Messages`, for any answers of the engine and any moment of cancellation |
| ScriptRun.Query.HandleExec | internal/ui/query.go:550-580 | Each message changes the results as `FoldOne` says |
| ScriptRun.StreamStatement | internal/ui/query.go:496-538 | Over an open cursor of any kind, cancelled at any point: the pages sent are in one piece the rows read, all of them without error, cap or cancellation; the count is the settled one unless the cap ended the pages |
| ScriptRun.RunLeaves | internal/ui/query.go:441-470 | Every run leaves the results of what ran and then, unless it met a \q, of what was skipped |
| ScriptRun.RunWithoutQuit | internal/ui/query.go:441-470 | Without \q: one result per statement in order, an executed prefix then a skipped suffix, an error on the last executed one at most; a statement runs exactly when none before it failed and no cancellation came first |
| ScriptRun.RunToQuit | internal/ui/query.go:452-460 | With \q the results are those of the statements before it, without errors |
| ScriptRun.SeenIsPrefix | internal/ui/query.go:550-580 | At any moment the results shown are a beginning of the final ones, only the last still growing |
| ScriptRun.StepsRunOut | internal/ui/query.go:436-548 | Every send and every receive uses up part of what is left, so no interleaving goes on for ever |
| ScriptRun.InterleavingsAgree | internal/ui/query.go:436-548 | However sending and receiving interleave over the bounded channel, the end is the fold of all messages, and until then one side can move |
| McpQuery.Server.Query | internal/mcp/tools.go:201-237 | What reaches the engine is a beginning of the script and nothing when refused; unless both switches are on nothing reaches it that is flagged, or that runs as a destructive statement and is written plainly where the verdict looks; every statement is reported once, in order |
| McpQuery.RunStatement | internal/mcp/tools.go:250-273 | With a cancellation possible before every operation: a page holds the first rows, more than 200 only if they were in memory and then all; a full page says that more remain also when the result is just that long; its text shows at most 200 and says what it leaves out; the result is always released, the count read after that, and what the release reports is an error unless a cancellation closed the cursor first |
| McpQuery.NoNoticeIsAll | internal/mcp/tools.go:250-273 | A page without a notice shows every row the engine has, unless the engine's one answer came short |
| McpQuery.GateExactly | internal/mcp/tools.go:214-219 | A script passes if and only if both switches are on or none of its statements is flagged |
| McpQuery.ShutGateExactly | internal/mcp/tools.go:90-93 | A script that passes a shut gate runs something destructive if and only if it holds a Redis command that is destructive as it runs but not written plainly where the verdict looks |
| McpQuery.GateSeesEveryStatement | internal/mcp/tools.go:201-219 | The verdict on a script is that on its statements sent one by one: none is judged as part of another |
| Redact.Redactor.Add | internal/mcp/redact.go:31-43 | Short and known values are ignored, others appended |
| Redact.Redactor.Scrub | internal/mcp/redact.go:48-55 | The loop replaces every value in turn; none that is clear of the marker is left |
| Redact.ScrubIsCut | internal/mcp/redact.go:48-55 | The result is the text with registered secrets cut out, a marker for each, and everything else kept in order |
| Redact.ScrubRemoves | internal/mcp/redact.go:45-55 | A secret that shares no byte with the marker is never left, whatever else is registered and in whatever order |
| Redact.ClearExactly | internal/mcp/redact.go:31-55 | A secret long enough to be kept is removed from every text in every registry if and only if it does not overlap the marker |
| Redact.MarkerHoldsSecret | internal/mcp/redact.go:12-13 | A secret that is part of the marker is still in every text it was in |
| Redact.MarkerEndsInSecret | internal/mcp/redact.go:12-55 | A secret that begins with an end of the marker is put back in some text |
| Redact.MarkerCompletes | internal/mcp/redact.go:12-55 | A secret that ends with a beginning of the marker, or holds it, is put together when another secret stands in the marker's place |
| Format.CutBytes | internal/mcp/format.go:154-167 | The boundary loop returns `Cut` and whether it cut |
| Format.CutKeeps | internal/mcp/format.go:150-167 | The limit holds for any bytes; well-formed UTF-8 stays so; at most three bytes more than needed are given up |
| Format.WriteLine | internal/mcp/format.go:125-140 | One row, padded but for its last cell |
| Format.WriteRule | internal/mcp/format.go:143-149 | The divider for the widths |
| Format.Aligned | internal/mcp/format.go:123-140 | In every line the separators, and so the cells, stand in the same places |
| Grid.CellStands | internal/mcp/format.go:123-140 | Every cell stands in its line, padded on the right up to its column and set off by a bar; where the cells fit, each begins in the same character column in every line |
| Grid.RuleReads | internal/mcp/format.go:142-149 | The divider is dashes, with a crossing exactly under every bar of the header |
| Grid.WidthsTight | internal/mcp/format.go:71-82 | A column is as wide as its name or its widest cell, no wider and no narrower |
| Grid.CutTotalCounts | internal/mcp/format.go:58-69 | The count of cut values is the number of values over the cell cap |
| Format.WidthsFit | internal/mcp/format.go:71-82 | The widths computed fit the header and every row shown |
| Format.RenderGrid | internal/mcp/format.go:46-121 | The text is the header, the lines that fit, and the notices, cut to MaxBytes; it is never longer |
| Format.ShownUnique | internal/mcp/format.go:90-99 | The number of rows shown is determined: those fit the budget and one more would not |
| Format.NoticesSurvive | internal/mcp/format.go:102-121 | With a header inside the budget the notices come out whole, whatever the rows hold |
| Format.NothingHidden | internal/mcp/format.go:102-113 | No truncation notice means every row was shown and none remains |
| Notices.TruncatedSays | internal/mcp/format.go:99-113 | The numbers in the truncation notice are the caps that fired, then the rows shown, then the total when it is known |
| Notices.CutSays | internal/mcp/format.go:114-116 | The numbers in the other notice are the cell cap and how many values were cut |
| Format.TableValid | internal/mcp/format.go:46-121 | A table of well-formed values is well formed, cut or not |
| Format.CapText | internal/mcp/server.go:194-197 | The last cap keeps any tool's text within MaxBytes and well formed, and leaves shorter text alone |
| Guard.Answer | internal/mcp/server.go:181-199 | Every text and every error is scrubbed, a text then capped; no registered secret that overlaps neither the marker nor the words a cut adds is in either |
| Guard.GuardExactly | internal/mcp/server.go:181-199 | A registered secret leaves the server in no answer and no error, in any registry, if and only if it overlaps neither the marker nor those words |
| Guard.TailExactly | internal/mcp/server.go:193-197 | Cutting never makes up a secret the text does not hold if and only if the secret is not in those words and cannot be hooked on their beginning |
| Guard.TailCompletesSecret | internal/mcp/server.go:193-197 | One that ends with a beginning of those words is put together by the cut of some text |
| Guard.TailHoldsSecret | internal/mcp/server.go:194-197 | A secret that is part of those words is in the cut of some text that does not hold it |
| Guard.HeadStaysExactly | internal/mcp/format.go:58-69 | A value is cut for its cell before it is scrubbed: when the cut goes through a secret, any beginning of it that fits the cell and ends where a character can begin stays in sight, and no other |
| ConfigMerge.NodeEqualExactly | internal/config/write.go:586-605 | nodeEqual is equality of the values two nodes encode, comments aside |
| ConfigMerge.MappingNode.MapEntry | internal/config/write.go:555-562 | The first entry under a key, or -1 |
| ConfigMerge.MappingNode.Set | internal/config/write.go:566-577 | The entry's value is replaced under its own comments, or appended |
| ConfigMerge.MappingNode.Remove | internal/config/write.go:580-584 | The key and its value are dropped |
| ConfigMerge.MappingNode.MergeFields | internal/config/write.go:620-636 | The field loop with nested blocks merged in place returns `Merge` |
| ConfigMerge.MergeExactly | internal/config/write.go:618-636 | Key by key: an unchanged field keeps its entry, an empty one loses it, a block is merged, any other gets the new value; unlisted keys are untouched |
| ConfigMerge.CommentsKept | internal/config/write.go:564-577 | A key that is there before and after keeps the comments of key and value |
| ConfigMerge.OrderKept | internal/config/write.go:618-636 | Keys that stay keep their relative order, new ones follow in field order |
| ConfigMerge.BlockIsMerge | internal/config/write.go:687-697 | Merging into an empty mapping writes exactly the built fields |
| ConfigMerge.MergeStores | internal/config/write.go:618-636 | A mapping that stores the old record stores the new one afterwards, nested blocks included |
| ConfigMerge.UpdateStores | internal/config/write.go:699-759 | So for the fields of a connection with its ssh and tls blocks; result_cap and other unlisted keys keep their entries; `ConfigRead.MergeReads` says which key holds what |
| ConfigRead.MergeReads | internal/config/write.go:618-759 | Read key by key, without the table of fields: a mapping that reads as the old connection reads as the new one after the merge, blocks, numbers, lists and the Boolean included; a new entry reads as the new one whatever it held. A block with nothing in it is none |
| ConfigRead.BuiltReads | internal/config/write.go:639-697 | A freshly built entry reads back as the connection it was built from |
| ConfigRead.WrittenTags | internal/config/write.go:648-684 | Every value built is tagged for its key: ports as numbers, allow_write as a Boolean, everything else as text |
| ConfigLines.File.ItemSpan | internal/config/write.go:320-342 | The line loop returns the item's span, none for a line outside the file |
| ConfigLines.SpanIs | internal/config/write.go:317-342 | A span ends on the item's last deeper line, before blanks and a line that is not deeper |
| ConfigLines.SpanUnique | internal/config/write.go:317-342 | That description fits one end only |
| ConfigLines.SpansDisjoint | internal/config/write.go:320-342 | Spans of items at one dash indent are in order and disjoint |
| ConfigLines.File.FindHead | internal/config/write.go:346-355 | The first of the comment lines right above the item |
| ConfigLines.RenderedIsItem | internal/config/write.go:370-390 | Whatever the encoder wrote, the rendered lines are one item at the indent they are given |
| ConfigLines.RenderedReads | internal/config/write.go:370-390 | Without the dash and the indent the rendered lines are the encoder's, all beginning in one column |
| ConfigLines.RenderedLinesUp | internal/config/write.go:393-404 | That is the indent of the list's dashes if and only if one space follows the dash of its first item |
| ConfigLines.File.Update | internal/config/write.go:140-145 | Only the span is replaced, and only when the result validates |
| ConfigLines.UpdateKeepsItems | internal/config/write.go:140-145 | After an update the new item's span is its block and every other item keeps its lines and its span |
| ConfigLines.File.Remove | internal/config/write.go:160-167 | Head comments and span are cut and the gap closed, only when the result validates |
| ConfigLines.RemoveIsSurgical | internal/config/write.go:160-167 | Removal takes the span, the comment lines right above, and one blank line exactly when it would be left doubled or last |
| ConfigLines.RemoveKeepsItems | internal/config/write.go:160-167 | Every other item keeps its lines and span, if the comments taken along do not reach into it |
| ConfigLines.RemoveKeepsExactly | internal/config/write.go:160-167 | The item above keeps its lines and span if and only if the comment lines taken along begin below its span |
| ConfigLines.RemoveReachesUp | internal/config/write.go:344-355 | They begin inside it exactly when the first of them is indented deeper than the dashes with nothing but that item above it |
| ConfigLines.RemoveTakesNote | internal/config/write.go:160-167 | In a file of two items an indented note under the first is removed with the second |
| ConfigLines.File.Add | internal/config/write.go:408-432 | A new item goes after the last one, in place of an empty list's key, or at the end with its key, only when the result validates |
| ConfigLines.AddKeepsItems | internal/config/write.go:413-423 | Adding keeps every line and every span, and the block is the span of the new item |
| ConfigLines.SeparatedExactly | internal/config/write.go:434-440 | The blank line in front of an added item is put exactly when one stands above the last item, comment lines between aside |
| ConfigLines.AddAtEnd | internal/config/write.go:430-431 | Without the key, every line up to the last that is not blank stays in place, the key line follows, and the rest is the block, the span of the one item |
| ConfigLines.AddAtKey | internal/config/write.go:425-429 | At an empty list every line but the key's stays, in order, the key line stands where it was with the block right below it, and the block is the item's span if and only if what follows does not go on deeper than the dash |
| ConfigLines.LinesRoundTrip | internal/config/write.go:496-512 | Lines written and read again are the same but for blank ones at the end |
| ConfigLines.CrlfReads | internal/config/write.go:494-503 | A file with CR LF line ends is read as its lines |
| ConfigLines.UntouchedFileIsSame | internal/config/write.go:496-512 | A file without CR that ends in one newline after a line that is not blank is written back byte for byte |
| SchemaCache.Cache.ClaimTables | internal/schema/cache.go:105-113 | A claim is granted exactly when the listing is neither cached nor loading, and then no load of it is outstanding |
| SchemaCache.Cache.ClaimColumns | internal/schema/cache.go:117-126 | The same for the columns of a table under its folded name |
| SchemaCache.Cache.StoreTables | internal/schema/cache.go:136-147 | A finished load stores its names or its failure |
| SchemaCache.Cache.StoreColumns | internal/schema/cache.go:158-170 | The same for columns |
| SchemaCache.Cache.Refresh | internal/schema/cache.go:192-203 | Everything but claims is dropped |
| SchemaCache.RunKeeps | internal/schema/cache.go:36-53 | Every run keeps: Loading exactly when a load for the key is outstanding, names only when Ready |
| SchemaCache.LoadingExactly | internal/schema/cache.go:173-187 | In every run from a new cache an entry is Loading iff its one load is outstanding, and Loading() says whether any is |
| SchemaCache.GrantIsExclusive | internal/schema/cache.go:102-126 | A granted claim never meets an outstanding load of its key |
| SchemaCache.GrantedExactly | internal/schema/cache.go:102-126 | In every run the caller is told to load if and only if no load of the key is outstanding and no names were brought since the last refresh, so a failed load is tried again |
| SchemaCache.ClaimLasts | internal/schema/cache.go:189-203 | A load stays outstanding over any steps but its own store, refreshes included, and its key is granted to nobody meanwhile |
| SchemaCache.NamesAreAnswers | internal/schema/cache.go:128-171 | Ready names are what the last query for the key answered, stored after it with no refresh since |
| SchemaCache.FailedExactly | internal/schema/cache.go:128-171 | In every run an entry shows a failure if and only if the last query for it failed and there was neither a refresh nor a claim since that was stored |
| SchemaCache.RefreshCanStoreStale | internal/schema/cache.go:189-203 | A load that had its answer before a refresh stores that answer after it, against the comment |
| SchemaCache.FreshAfterRefresh | internal/schema/cache.go:189-203 | Names that are ready after a refresh come from a query made after it if and only if at the refresh no load of the key held an answer with names |
| SchemaCache.Cache.ResolveName | internal/schema/cache.go:81-100 | The two loops return `Resolve` of a loaded listing, nothing before it is loaded |
| SchemaCache.ResolveFinds | internal/schema/cache.go:77-100 | The first listed name that matches as written comes back; when none does, the first that matches without what stands before its first dot; nothing exactly when there is none of those |
| SchemaCache.QualifiedFinds | internal/schema/cache.go:210-216 | A name qualified with a schema finds a listed name without one |
| SchemaCache.ResolveIdempotent | internal/schema/cache.go:81-100 | A resolved name resolves to itself |
| Tunnel.SshTunnel.DialThrough | internal/sshtunnel/tunnel.go:50-74 | Dial reuses the client, connects when there is none, and refuses once closed |
| Tunnel.SshTunnel.CloseTunnel | internal/sshtunnel/tunnel.go:77-87 | Close drops the client for good |
| Tunnel.SshTunnel.EndMonitor | internal/sshtunnel/tunnel.go:181-189 | A monitor clears the client only if it is still its own |
| Tunnel.RunKeeps | internal/sshtunnel/tunnel.go:33-40 | Every interleaving keeps: a live client is the tunnel's, the tunnel's is watched, a closed tunnel has none |
| Tunnel.NoLeakedClient | internal/sshtunnel/tunnel.go:50-87 | In every run at most one client is live and it is the tunnel's |
| Tunnel.ClientStaysExactly | internal/sshtunnel/tunnel.go:50-87 | Over any interleaving, late monitors of other clients included, a client stays the tunnel's and every Dial goes through it until the tunnel is closed or its own monitor ends, and no longer |
| Tunnel.ClosedIsFinal | internal/sshtunnel/tunnel.go:52-55 | Once closed no client is made again and every Dial is refused |
| Tunnel.DroppedReconnects | internal/sshtunnel/tunnel.go:56-71 | After a client died and its monitor ended a Dial makes a new one, or reports the drop |
| Pool.SessionPool.GetSession | internal/mcp/session.go:61-77 | get reuses the session of a key, opens on first use, and forgets failures |
| Pool.SessionPool.CloseAll | internal/mcp/session.go:81-96 | close empties the pool, session by session in any order, then closes the connector, and returns the first error |
| Pool.RunKeeps | internal/mcp/session.go:48-53 | Every run keeps: no key opened twice, no session closed twice, and the log orders opens, closes, connector |
| Pool.OneSessionPerKey | internal/mcp/session.go:36-47 | No run opens a key twice |
| Pool.ClosedOnceInOrder | internal/mcp/session.go:79-96 | After a close each session opened is closed once, after all opens and before the connector |
| Pool.ClosedIsFinal | internal/mcp/session.go:65-67 | A closed pool opens nothing and hands out nothing |
| Pool.KeyKeepsSession | internal/mcp/session.go:59-77 | After any run every get of a pooled key answers the same session, whatever a connect would come to, if and only if the pool was not closed in it |
| Pool.PooledExactly | internal/mcp/session.go:59-77 | Before any close the keys pooled are exactly those with a get that connected: failed connects leave no trace |
| Pool.KeysDiffer | internal/mcp/session.go:61-62 | Different connection and database pairs have different keys, for names without a zero byte |

## Left out

- Engine drivers, the network, TLS, the secret resolver and everything they do: a driver is an arbitrary source of rows, or of errors.
- Parsing and encoding of YAML: the line each list item starts on, the node tree, and the encoder's lines are inputs, and whether an edited file validates is a Boolean.
- Reloading an edited config: defaults that Load fills in are not recomputed here, so nothing is said of a reloaded default port.
- Transaction control, query plans, the completion popup, grid sorting, history, snippets, exports, the connection form, views and key handling.
- Column types, timings, progress counters and server logs, and the column names of a script's results, which are carried along unchanged.
- What `statementBounds`, `lineStarts` and `rowOfOffset` make of the tokens and lines for the gutter mark.
- Messages about the transaction state in the run's channel, which do not touch results.
- Splitter.TrimSpace: trims the whitespace the lexer knows; `GoTrim` says what changes with the wider set of strings.TrimSpace, for the SQL splitter. Meta and ConfigLines use the narrow set throughout; Redis scripts and fields use the wide one.
- RedisVerdict.FlaggedExactly: that Redis reads the names of commands without regard to ASCII case, and what a command then does, is not in the program and taken as known.
- Engines.ToUpper: gives the ASCII result of strings.ToUpper, which is what keywords are compared with; how other letters are folded does not matter to any comparison.
- ConfigMerge.MappingNode.MergeFields: nodes are values inside a mapping object, so aliasing between YAML anchors and the entries that share them is not modelled; a `ssh` or `tls` key whose value is not a mapping is read as an empty one, and the theorem that merge stores the new record asks for mappings there.
- ConfigLines.UpdateKeepsItems: is about a block at the indent of the dashes; a list whose first dash is followed by more than one space gets a block at another, and what becomes of such an edit is left to the validation.
- ConfigLines.SpansDisjoint: asks for item start lines at one indent, which leaves out a dash on a line of its own.
- ConfigRead.MergeReads: asks for keys that do not repeat in a mapping or a block, which a YAML parser rejects; an empty block counts as none, because none is written.
- Format.NoticesSurvive: asks for counts below 2^63, which is what a Go int holds.
- McpQuery.RunStatement: the text is that of the rows; the heading of a block and the sentence for a statement without columns are not modelled.
- The wording of error messages, but for the notices of rendered responses.
- ScriptRun.StreamStatement: asks for a source with its rows in memory, or one that says it is exhausted when it gives an empty page, without which the loop of the program does not end, as `Cursor.EmptyPagesNeverEnd` shows.
- Cursor.Source.Fetch: the rows of an engine result, and what releasing it reports, are fixed beforehand; sources over moving data are not modelled.
- SchemaCache.Cache.AskDriver: the driver call is a step of its own that changes only the ghost record of outstanding loads.
- Tunnel: the handshake, the agent and host-key checks are one outcome, success or failure, and keepalives only make a client die.
- Pool: opening a session is an outcome; the liveOpener that shares tunnels between sessions is not modelled.
- Concurrency finer than one operation under its mutex, and the memory model of Go.
