# Verified model of the SQLite shell's text code, the logger and the broadcast ring

The repository is a small monitoring server with a vendored SQLite command-line shell. This project models its most
intricate parts in Dafny and proves what they promise. `dafny verify dfyconfig.toml` checks everything.

| module | models |
|---|---|
| `CText`, `Options` | C strings, character classes of the C locale, pointers that may be NULL |
| `Glob`, `GlobComment`, `GlobReference` | the backtracking matcher `testcase_glob`, when it decides what its comment describes, and what that is, element by element |
| `Csv`, `CsvTermination`, `CsvRoundTrip`, `CsvReference`, `CsvFiles` | the CSV printer, the field reader, the `.import` loops, when they end, when what is written is read back, what a field is on every input, and what files of any shape import as |
| `CStrings`, `CStringRoundTrip`, `TokenLaws` | C string literals, the in-place decoder and the in-place tokenizer of command lines |
| `Pretty`, `PrettyReference` | the two in-place passes of the pretty schema printer, the white space they keep, and where they break lines |
| `Quoting` | SQL quoting, `appendText`, `set_table_name`, HTML escaping |
| `Statements`, `BlankText`, `StatementLaws`, `StatementOutcome`, `ProcessInput` | the statement accumulator: as a function on lines, what counts as blank, its laws, where it stops and what it returns, and the loop over stream and buffer |
| `GetLine` | `local_getline` over a stream that is read in chunks |
| `Explain`, `ExplainReference`, `Tables` | the indentation of EXPLAIN listings, what it means for programs made of loops, the `.tables` layout |
| `Lists` | the head/tail list over heap nodes |
| `LoggerProtocol`, `LoggerOrder`, `LoggerLaws`, `Loggers` | the logger as a state machine over all interleavings, its order properties, its laws from outside, and its code as a class whose methods are steps of that machine |
| `Ring`, `WebInterface` | the ring of ten broadcast messages as a value, and the code with its C heap blocks |

How the pieces fit: each imperative method is proved against a function or a step of a state machine, and the laws are
proved about that function or about every run of that machine. Text is a `string` or, where the code rewrites it in
place, an `array<char>`; `At` lets a read reach the terminating NUL and no further, so memory safety is part of every
proof. CSV bytes are numbers, as `fgetc` delivers them; plain `char` is taken as signed where its sign matters
(character ranges in patterns, separators of 128 and more).

Findings, each with the lemmas that prove it:

* After a run that starts with a star, `testcase_glob` does not treat white space and `#` as its comment says. The model
  follows the code; `GlobComment.CommentHolds` says for which patterns this makes no difference, and
  `GlobComment.Disagreements` gives a pattern for which it does.
* In a bracket list a byte of 128 or more cannot start a span (`GlobReference.HighSpan`).
* CSV files do not come back for a separator that is LF and, from two columns on, for the quote and for bytes of 128 and
  more; CR works (`CsvRoundTrip.RoundTrip`). With byte 255 the import never ends (`CsvTermination.ImportNever`).
* The line counter misses the opening quotes of fields when the row separator itself is a quote, counts the end of the
  file when it is byte 255, and is exact otherwise (`Csv.LineCountExact`, `Csv.LineCountMisses`).
* `resolve_backslashes` has no case for `\s`, although its comment lists it (`CStrings.DecodedAsDocumented`,
  `CStrings.BackslashS`).
* Log order can be lost only by a forced flush that prints while a worker still has entries, and then it is
  (`LoggerOrder.PrintedInOrder`, `LoggerOrder.OvertakingRun`). A worker is handed an empty list only by a log call with a
  NULL message (`LoggerOrder.NoEmptyHandOver`, `LoggerOrder.NullMessageRun`).
* Quotes do not protect text from line breaks in the pretty printer: a comma in a quoted name breaks it
  (`PrettyReference.QuotesIgnored`, `PrettyReference.QuotedUnbroken`, `PrettyReference.QuotedComma`).
* The blank check on left-over text at the end of the input can never suppress the error
  (`ProcessInput.LeftoverNotBlank`).
* `broadcast_report` copies as many bytes as a pointer has, 8, whatever the length of the report
  (`WebInterface.MessageCarries`).

## Model

| member | source | states |
|---|---|---|
| Glob.TestcaseGlob | libs/sqlite/shell.c:3116-3188 | returns 1 exactly when the text splits into pieces that the tokens of the pattern, as the code reads them, may stand for, with only white space left over; no read passes either NUL; terminates on what is left of pattern, then text |
| Glob.AfterStar | libs/sqlite/shell.c:3126-3145 | after a star and a run of stars and question marks the search succeeds exactly when some split exists: the backtracking is complete |
| Glob.MatchBracket | libs/sqlite/shell.c:3148-3176 | a bracket list accepts a character exactly when it is closed and the character is in it or, negated, is not; a leading closing bracket is a member |
| Glob.SkipNumber | libs/sqlite/shell.c:3177-3181 | a number takes the longest optional sign and digits, and fails only where none starts |
| CText.CharClasses | libs/sqlite/shell.c:135-137 | the character classes of the C locale, by their codes |
| CText.SignedByte | libs/sqlite/shell.c:3149-3175 | a plain char keeps the bits of its byte |
| Glob.TakesOnce | libs/sqlite/shell.c:3096-3114 | every element except the star can stand for at most one prefix of a text, so that only stars need backtracking |
| Glob.StarAny | libs/sqlite/shell.c:3127-3129 | in a run, a question mark after a star consumes one character first without losing a match |
| GlobReference.GlobDecides | libs/sqlite/shell.c:3093-3188 | for a pattern written from literals, white space, stars, question marks, number signs and bracket lists, without a span after a run: the function accepts exactly the texts that can be cut into one piece for each element, with only white space left over |
| GlobReference.DescribedFits | libs/sqlite/shell.c:3093-3115 | what the comment describes, element by element: white space and numbers whole, a number a sign or none and decimal digits, a list one of its members, a negated one any other character |
| GlobReference.ListRead | libs/sqlite/shell.c:3153-3175 | a written list of single characters and spans, with a leading closing bracket and a trailing minus, is read as its members |
| GlobReference.HighSpan | libs/sqlite/shell.c:3164-3172 | a byte of 128 or more starts no span: it, the minus and what follows are members |
| GlobReference.NumberLaw | libs/sqlite/shell.c:3177-3181 | a number takes plus, minus or no sign and one decimal digit or more, and no digit follows |
| GlobReference.SpaceLaw | libs/sqlite/shell.c:3122-3125 | white space takes one character or more of the six of the C locale, and none follows |
| GlobReference.OneCharLaw | libs/sqlite/shell.c:3146-3176 | a question mark takes any one character, a list one that it accepts |
| GlobComment.CodedIsDescribed | libs/sqlite/shell.c:3096-3145 | the code reads a pattern as its comment describes it, token by token, exactly when no run that starts with a star is followed by white space or a number sign |
| GlobComment.CommentHolds | libs/sqlite/shell.c:3096-3145 | on every text the function decides what its comment describes exactly when the pattern has no such run, or can match nothing as the code reads it: an unclosed or empty list, or a number directly in front of a digit |
| GlobComment.NoListsTame | libs/sqlite/shell.c:3096-3145 | every pattern without bracket lists satisfies the precondition of that theorem |
| GlobComment.DeadMatchesNothing | libs/sqlite/shell.c:3121-3183 | a pattern with an unclosed or empty list, or a number directly in front of a digit, matches no text |
| GlobComment.SpanRejects | libs/sqlite/shell.c:3138-3145 | whatever its lists, a pattern with such a run rejects, of the texts without a certain character, all that its comment accepts |
| GlobComment.Disagreements | libs/sqlite/shell.c:3138-3145 | the pattern of a star and a number sign rejects 5, which the comment accepts, and accepts a number sign, which it rejects |
| Csv.OutputCsv | libs/sqlite/shell.c:857-886 | a field is written in quotes with its quotes doubled when it is empty or holds a character that asks for it, as it is otherwise; NULL as the null text; the separator on request |
| Csv.OutputRow | libs/sqlite/shell.c:1184-1200 | one result row is its fields with separators between them and the row separator at the end |
| Csv.ImportCtx.AppendChar | libs/sqlite/shell.c:2617-2627 | appends one byte and leaves one byte free for the terminator, whatever the size before |
| Csv.ImportCtx.CutAtQuote | libs/sqlite/shell.c:2671 | the backward scan stops at the last quote, at an index of at least 0 |
| Csv.ImportCtx.QuotedChar | libs/sqlite/shell.c:2666-2687 | the closing test with two characters of look-back: the buffer ends in the quote that the scan will find |
| Csv.ImportCtx.ReadOneField | libs/sqlite/shell.c:2642-2702 | on any input the field, its terminator and the input left are those of the reading function; the terminator is written in bounds; the line counter is kept at 1 plus the row separators read, but for opening quotes where these are row separators and the end of the input where EOF is |
| CsvReference.FieldIs | libs/sqlite/shell.c:2642-2702 | what a field is on every input, well formed or not: a quoted one ends at the first separator or end of input behind an odd number of quotes, with one carriage return allowed before the row separator, and loses every second quote of a run; a bare one ends at the first separator and loses a carriage return in front of the row separator |
| CsvReference.BareWhen | libs/sqlite/shell.c:832-886 | a field is written bare exactly when it is not empty, has only bytes of a list given by number, and neither holds a separator of one byte nor starts with a longer one |
| Csv.BindColumns | libs/sqlite/shell.c:3749-3770 | the column loop binds the cells that are read and sets the missing ones to NULL, whatever the row before left bound; it stops at end of file without a row |
| Csv.FillNulls | libs/sqlite/shell.c:3767-3768 | every column after a short row is bound to NULL |
| Csv.DropExtras | libs/sqlite/shell.c:3771-3775 | fields beyond the last column are read and dropped up to the end of the row |
| Csv.DropOne | libs/sqlite/shell.c:3772-3775 | one round of that loop reads one field; at the end of the input it leaves position and line counter alone and the terminator at EOF |
| Csv.ImportRows | libs/sqlite/shell.c:3747-3788 | the rows inserted are exactly those of the file, none added at end of file, and the line counter at the end is known for every row separator |
| Csv.LineCountExact | libs/sqlite/shell.c:2659-2697 | that counter is 1 plus the number of row separators exactly when no field starts with a quote, should the quote be the row separator, and the end of the file ends no field, should EOF be |
| Csv.LineCountMisses | libs/sqlite/shell.c:2652-2659 | quote, A, quote with the quote as row separator: two row separators, counter 2 |
| CsvTermination.EndsExactly | libs/sqlite/shell.c:3747-3788 | the import loops end on a file exactly when the column separator, as a signed char, is not EOF |
| CsvTermination.ImportNever | libs/sqlite/shell.c:3771-3775 | with a column separator that equals EOF no number of rounds ends the import, whatever the file |
| CsvTermination.EndsWithRows | libs/sqlite/shell.c:3747-3788 | whenever the loops end, they have given the rows of the file |
| CsvRoundTrip.ReadDoubled | libs/sqlite/shell.c:2657-2688 | a field in quotes with doubled quotes is read up to its closing quote as the field itself |
| CsvRoundTrip.ReadInner | libs/sqlite/shell.c:857-886 | a field followed by the separator is read back, with the separator as its terminator |
| CsvRoundTrip.ReadLast | libs/sqlite/shell.c:2689-2699 | a field at the end of a row is read back; with CR as separator it ends one character early |
| CsvRoundTrip.ReadEnd | libs/sqlite/shell.c:2666-2673 | a field at the end of the file, without a line end, is read back |
| CsvRoundTrip.OpenFileReadsBack | libs/sqlite/shell.c:3747-3788 | a file whose last line end is missing imports as the same rows, none added, for every separator that works |
| CsvRoundTrip.OpenFileIs | libs/sqlite/shell.c:1184-1200 | that file is the written one without its last two bytes |
| CsvFiles.CellRead | libs/sqlite/shell.c:2642-2702 | every field and the text for NULL is read back in front of a separator, an LF, a CRLF or the end of the file |
| CsvFiles.FileImports | libs/sqlite/shell.c:3747-3788 | a file of rows of any length, with NULLs, with LF or CRLF line ends, with or without the last one, imports as those rows: missing fields become NULL, fields too many are dropped, NULLs come back as their text |
| CsvFiles.LineIsRow | libs/sqlite/shell.c:1192-1199 | a row as CSV mode writes it is such a row |
| CsvRoundTrip.FileReadsBack | libs/sqlite/shell.c:3747-3788 | a whole file written in CSV mode with CRLF row ends imports as the same rows |
| CsvRoundTrip.FileLost | libs/sqlite/shell.c:3674-3675 | for every other separator some table does not come back |
| CsvRoundTrip.RoundTrip | libs/sqlite/shell.c:857-886 | the import of every table of n columns of NUL-free text ends with the rows as they were exactly when the separator is neither LF nor byte 255 and, from two columns on, is a 7-bit character other than the quote |
| CStrings.OutputCString | libs/sqlite/shell.c:765-791 | the text is written as a literal: escapes for quote, backslash, tab and line ends, three octal digits for what cannot be printed |
| CStrings.DecodeEscaped | libs/sqlite/shell.c:2417-2459 | decoding undoes the quoting of every byte string: three octal digits meet the greedy decoder even where a digit follows |
| CStrings.DecodedAsDocumented | libs/sqlite/shell.c:2401-2459 | decoding agrees with the table of escapes in the comment, given by character codes and octal values, exactly when no backslash that is read as the begin of an escape is followed by s |
| CStrings.BackslashS | libs/sqlite/shell.c:2411 | a backslash and s decode to s, where the comment promises a blank |
| CStrings.ResolveBackslashes | libs/sqlite/shell.c:2417-2459 | the text in the buffer is replaced by its decoding and a terminator; nothing outside it is changed |
| CStrings.DecodeDigits | libs/sqlite/shell.c:2444-2454 | up to three octal digits are taken, and their value is that of a char |
| CStrings.TakeToken | libs/sqlite/shell.c:3233-3251 | one token is terminated and decoded in place, without touching what is unread or what was taken before |
| CStrings.Tokenize | libs/sqlite/shell.c:3232-3252 | the arguments in the buffer are the tokens of the line, in order, as many as there is room for |
| CStringRoundTrip.LiteralToken | libs/sqlite/shell.c:3235-3245 | a literal is one token and decodes to the text it was made from |
| CStringRoundTrip.CommandLine | libs/sqlite/shell.c:3232-3252 | a command word and any byte strings written as literals are split into exactly the word and the strings |
| CStringRoundTrip.LineNulFree | libs/sqlite/shell.c:765-791 | such a line holds no NUL, so it is a C string |
| TokenLaws.EscapedAs | libs/sqlite/shell.c:765-791 | how each byte is written in a literal, by its code |
| TokenLaws.SingleQuoted | libs/sqlite/shell.c:3235-3244 | text in single quotes is one token and is not decoded |
| TokenLaws.SingleOpen | libs/sqlite/shell.c:3238-3244 | a single quote that is not closed reaches to the end of the line |
| TokenLaws.DoubleOpen | libs/sqlite/shell.c:3238-3245 | so does a double quote, and the text is decoded |
| TokenLaws.BareWord | libs/sqlite/shell.c:3246-3250 | a word ends at white space and is decoded as documented |
| TokenLaws.BlanksSkipped | libs/sqlite/shell.c:3233 | white space in front of a token does not matter |
| TokenLaws.TokensFit | libs/sqlite/shell.c:3228-3232 | with too little room the first tokens are taken and the rest of the line is not looked at |
| Pretty.CompactInPlace | libs/sqlite/shell.c:1083-1095 | the first pass leaves the compacted text and a terminator in the buffer; it never writes past what it has read and never reads before the buffer |
| Pretty.CompactLaws | libs/sqlite/shell.c:1083-1095 | the compacted text has the same characters that are not white space, no white space that is doubled, next to the inside of a parenthesis, before one or at an end, and compacting again changes nothing |
| PrettyReference.CompactSpaced | libs/sqlite/shell.c:1083-1095 | the words of any text stay, and between two of them the first white-space character there, but none behind an opening and none in front of any parenthesis |
| Pretty.LayoutInPlace | libs/sqlite/shell.c:1096-1122 | the second pass prints the layout of the text while it overwrites the buffer it reads from |
| Pretty.LayoutInk | libs/sqlite/shell.c:1096-1122 | the layout prints every character that is not white space once and in order |
| PrettyReference.ListLayout | libs/sqlite/shell.c:1096-1122 | a text with one list in parentheses is laid out as what is in front, each item on a line of its own behind two blanks with its comma, and the closing parenthesis with the rest on the last line |
| PrettyReference.QuotesIgnored | libs/sqlite/shell.c:1098-1103 | where lines are broken does not depend on quotes |
| PrettyReference.QuotedUnbroken | libs/sqlite/shell.c:1096-1122 | a quoted part of an item stays on its line exactly when it holds no comma and no newline |
| PrettyReference.QuotedComma | libs/sqlite/shell.c:1096-1122 | a quoted name with a comma is broken in two |
| PrettyReference.PrintedWidth | libs/sqlite/shell.c:1076-1096 | texts of up to 78 characters stay on one line, longer ones are laid out, views and triggers are printed as they are |
| Pretty.PrettyPrint | libs/sqlite/shell.c:1068-1126 | what is printed for a schema text: as it is for views and triggers, compacted below 79 characters, laid out from there on |
| Pretty.PrintedInk | libs/sqlite/shell.c:1068-1126 | whatever case is taken, the printed characters that are not white space are those of the text and one semicolon |
| Quoting.OutputQuotedString | libs/sqlite/shell.c:733-760 | the chunked loop writes the literal in which each single quote is doubled |
| Quoting.QuotedReads | libs/sqlite/shell.c:730-760 | a reader of literals recovers every text from its literal and stops behind it |
| Quoting.QuotedInjective | libs/sqlite/shell.c:730-760 | two texts with the same literal are equal |
| Quoting.CountQuotes | libs/sqlite/shell.c:1323-1325 | the counting loop gives exactly how much longer the doubled text is |
| Quoting.AppendText | libs/sqlite/shell.c:1314-1349 | the old text, the new one quoted on request and a terminator fill the new buffer exactly |
| Quoting.AppendedReads | libs/sqlite/shell.c:1314-1349 | what is appended reads as one literal when quoted, and is the text itself otherwise |
| Quoting.SetTableName | libs/sqlite/shell.c:1273-1304 | the name, in quotes when it is not an identifier, and a terminator fill the new buffer exactly |
| Quoting.TableNameReads | libs/sqlite/shell.c:1273-1304 | the name can be read back, quoted or not |
| Quoting.BareName | libs/sqlite/shell.c:1283-1289 | exactly the names of ASCII letters, digits and underscores that do not start with a digit are set without quotes |
| Quoting.OutputHtmlString | libs/sqlite/shell.c:797-826 | the chunked loop writes the per-character escape |
| Quoting.HtmlReads | libs/sqlite/shell.c:797-826 | a reader of the five entities recovers every text |
| Quoting.HtmlSafe | libs/sqlite/shell.c:797-826 | no angle bracket and no quote is left, and every ampersand begins an entity |
| Quoting.HtmlUnchanged | libs/sqlite/shell.c:797-826 | text without the five characters is left as it is |
| Statements.AllWhitespace | libs/sqlite/shell.c:5033-5052 | true exactly for what the blankness function accepts |
| BlankText.AllBlankIs | libs/sqlite/shell.c:5030-5052 | that function accepts exactly the texts that split into white space, block comments up to their first end, and line comments, of which only the last may lack its newline |
| Statements.LineIsCommandTerminator | libs/sqlite/shell.c:5059-5069 | true exactly for a slash or the word go in any case, besides white space and comments |
| BlankText.TerminatorIs | libs/sqlite/shell.c:5054-5069 | a terminator line is white space, a slash or the word go in any case, and white space and comments |
| StatementLaws.RunAccounts | libs/sqlite/shell.c:5094-5206 | every consumed line is in exactly one event or in the unfinished statement, in input order |
| StatementLaws.StepGood | libs/sqlite/shell.c:5109-5197 | every line keeps the invariant: the events are valid, and the accumulated text is that of the unfinished lines |
| StatementLaws.TextIsJoined | libs/sqlite/shell.c:5134-5158 | the text of a statement is its lines joined by newlines, the first without its leading white space, a terminator line standing for a semicolon where the text before it could end |
| StatementLaws.SentIs | libs/sqlite/shell.c:5163-5165 | what is executed is the text, or its decoding as documented up to the first NUL |
| StatementLaws.EndsWhen | libs/sqlite/shell.c:5159-5160 | a line ends the statement exactly when, as it is kept, it has a semicolon, and the lines joined so far are complete |
| StatementLaws.RunGroups | libs/sqlite/shell.c:5094-5206 | the consumed lines are grouped into blank lines, meta-commands, statements that end at the first line that can end them, discarded comments and one unfinished statement |
| StatementLaws.GroupingUnique | libs/sqlite/shell.c:5094-5206 | no other grouping of the same lines satisfies this |
| ProcessInput.Accumulator.LineIsComplete | libs/sqlite/shell.c:5075-5083 | the two bytes behind the text are inside the buffer, and the text is the same afterwards |
| ProcessInput.Accumulator.Append | libs/sqlite/shell.c:5134-5158 | both copies stay in the buffer and leave room for two more bytes; the text grows by the line |
| ProcessInput.FinishLine | libs/sqlite/shell.c:5159-5196 | the statement is submitted, discarded or kept, depending on the semicolon in the new part, completeness and blankness |
| ProcessInput.ProcessInput | libs/sqlite/shell.c:5094-5206 | on every stream the loop does what the run of the statement function does on the lines of the stream; its events, its unfinished statement and the number of lines taken are the only ones possible, and it reports an error exactly when an event failed or a statement is left over |
| StatementOutcome.Outcome | libs/sqlite/shell.c:5107-5205 | by the events alone: reading stops after the first line whose meta-command asks to exit, or with an error so far and the bail setting on unless interactive; an error is reported exactly when a statement failed or a meta-command neither succeeded nor asked to exit |
| StatementOutcome.ReadsOnce | libs/sqlite/shell.c:5094-5206 | there is only one way to cut the lines into events and an unfinished statement and to stop, that satisfies all of this |
| ProcessInput.LeftoverNotBlank | libs/sqlite/shell.c:5197-5202 | the check for blank left-over text at the end of the input always reports |
| GetLine.Stream.Fgets | libs/sqlite/shell.c:509 | reads up to a newline or to the size given, and terminates |
| GetLine.LocalGetline | libs/sqlite/shell.c:499-523 | the next line, whatever chunks it is read in, with at most one CR in front of the newline removed; at least 100 bytes are free before each read |
| GetLine.ReadAll | libs/sqlite/shell.c:499-523 | successive calls give exactly the newline-split lines of the stream |
| GetLine.LinesRoundTrip | libs/sqlite/shell.c:517-523 | lines written with LF or CRLF ends are read back as they were |
| GetLine.LastLineReads | libs/sqlite/shell.c:509-516 | a last line without a line end is read as it is |
| Explain.IndentLoop | libs/sqlite/shell.c:1735-1742 | one instruction indents exactly the rows from its target up to itself, if it is selected |
| Explain.ExplainDataPrepare | libs/sqlite/shell.c:1698-1743 | each row is indented by twice the number of selected jumps around it; all accesses are in the grown arrays |
| ExplainReference.DepthIsNesting | libs/sqlite/shell.c:1657-1743 | in a listing of programs made of loops, closed by the seven advancing instructions or by a jump back, each program with addresses of its own, that number is how many loops there are around the row |
| Explain.DepthsAreBodies | libs/sqlite/shell.c:1657-1670 | the depths of all rows add up to the lengths of all loop bodies |
| Tables.PrintTables | libs/sqlite/shell.c:4662-4682 | each printed row holds the names of its column-major places, padded to the longest |
| Tables.ColumnsAndRows | libs/sqlite/shell.c:4671-4673 | as many columns as fit in 80 characters, at least one, and as few rows as that allows |
| Tables.RowBlanks | libs/sqlite/shell.c:4674-4681 | every other character of a row is a blank |
| Tables.EveryNameOnce | libs/sqlite/shell.c:4674-4681 | every name is printed in exactly one row and column |
| Tables.LinesFit | libs/sqlite/shell.c:4666-4677 | no row has more names than there are columns, and none is wider than 80 when no name is longer than 78 |
| Tables.ColumnsLineUp | libs/sqlite/shell.c:4674-4679 | each name stands at the offset of its column, the same in every row |
| Lists.List.constructor | src/list.c:6-9 | an empty list |
| Lists.List.Append | src/list.c:12-28 | the list stays acyclic with its tail last, and the element is added at the end; NULL is ignored |
| Lists.List.Foreach | src/list.c:44-55 | the callback sees each element once, in insertion order |
| Lists.FoldVisits | src/list.c:44-55 | a recording callback ends up with the elements in order |
| Lists.List.Contains | src/list.c:57-71 | true exactly when some element satisfies the predicate |
| Lists.List.Free | src/list.c:31-42 | every node and then the list is released once; no node is read after its release |
| LoggerProtocol.StepKeeps | src/logger.c:89-154 | every step of loop thread, worker and forced flush keeps the invariant: submitted entries are the printed, in-flight and waiting ones, and the same for released ones; at most one flush is outstanding, exactly while the flag is set |
| LoggerProtocol.RunKeeps | src/logger.c:89-154 | the same over every interleaving |
| LoggerProtocol.OnceEach | src/logger.c:80-110 | no entry is printed or released twice, none that was not submitted, and none is held after its release |
| LoggerLaws.Submissions | src/logger.c:132-198 | the entries are the calls that find the logger on and have a message, with their levels and texts, in order |
| LoggerLaws.ReleasedArePrinted | src/logger.c:89-95 | at no point of a run has an entry been released and not printed |
| LoggerLaws.WhatCanHappen | src/logger.c:97-154 | no step waits for another but for the lock: calls and the done callback wait for a forced flush, the worker for nothing |
| LoggerLaws.CanDrain | src/logger.c:89-233 | from every state there is a way on after which exactly the submitted entries are printed and released |
| LoggerProtocol.AllPrinted | src/logger.c:89-154 | with nothing outstanding and nothing queued, exactly the submitted entries are printed and released |
| LoggerProtocol.WorkIsRun | src/logger.c:97-100 | a worker that runs alone prints all entries in list order and then releases them |
| LoggerProtocol.ForceIsRun | src/logger.c:224-233 | a forced flush alone prints and releases the whole queue |
| LoggerOrder.PrintedInOrder | src/logger.c:97-154 | entries are printed in the order of the log calls exactly when no forced flush prints one while the worker still has some |
| LoggerOrder.OvertakingRun | src/logger.c:97-154 | a run of five steps in which that happens and the order is lost |
| LoggerOrder.GlobalOrder | src/logger.c:97-154 | where no flush is forced during another, printed, in-flight and queued entries in this order are the submitted ones |
| LoggerOrder.Stranded | src/logger.c:102-154 | entries that are left when a flush completes stay queued, whatever happens next, until the first log call or forced flush that finds the logger on, which gets them in one batch |
| LoggerOrder.StepHoldsSome | src/logger.c:132-154 | a step hands over an empty list exactly when it logs a NULL message with nothing queued and no flush outstanding |
| LoggerOrder.NoEmptyHandOver | src/logger.c:132-154 | over every run, no worker gets an empty list exactly when no such call is made |
| LoggerOrder.NullMessageRun | src/logger.c:132-154 | such a call is possible right after the start |
| Loggers.Logger.Log | src/logger.c:146-154 | a log call is the Log step of the protocol |
| Loggers.Logger.QueueLogGeneric | src/logger.c:132-144 | one numbered entry is appended, none for a NULL message; a list in the worker's hands is untouched |
| Loggers.Logger.ScheduleFlush | src/logger.c:112-123 | the whole queue is handed over and none is left |
| Loggers.Logger.FlushLogData | src/logger.c:89-95 | all entries are printed in order, and only then all released, as the trace of the calls shows, then nodes and list, each once |
| Loggers.Logger.OnFlushingThread | src/logger.c:97-100 | the worker does its whole job |
| Loggers.Logger.OnFlushingThreadDone | src/logger.c:102-110 | the done callback is the Done step |
| Loggers.Logger.ForceLogFlush | src/logger.c:224-233 | the waiting entries are printed and released and the queue is gone |
| Loggers.Logger.ShutdownLogger | src/logger.c:255-260 | what is queued is flushed first, then logging is off |
| Ring.RingHoldsLastTen | src/web_interface.c:274-289 | over every run, n broadcasts after the last cleanup the index is n mod 10, and exactly the last ten of them are in the ring, each in its own slot |
| Ring.RunAccounts | src/web_interface.c:236-289 | over every run the slots and the released buffers together hold every buffer once |
| Ring.LiveOrFreedOnce | src/web_interface.c:236-289 | over every run a buffer is live in one slot or was freed once, never both |
| Ring.ReleasedAll | src/web_interface.c:236-245 | releasing the slots one after the other is the cleanup |
| WebInterface.Broadcaster.constructor | src/web_interface.c:39-40 | the empty ring |
| WebInterface.Broadcaster.GeneratePadded | src/web_interface.c:102-108 | a new block that carries the first bytes of the message between two paddings, and a pointer past the first |
| WebInterface.Broadcaster.FreePadded | src/web_interface.c:110-117 | the block is released at the address that was allocated; NULL is ignored |
| WebInterface.Broadcaster.BroadcastReport | src/web_interface.c:274-289 | the next slot's old message is freed and replaced by the first 8 bytes found at the report's address, and every message still carries its bytes |
| WebInterface.MessageCarries | src/web_interface.c:276-278 | a message carries the whole report and nothing else exactly when the report has 8 bytes; a longer one is cut off, a shorter one is followed by bytes from beyond its end |
| WebInterface.Broadcaster.CleanupRing | src/web_interface.c:236-245 | every message in the ring is freed, every slot is NULL, the index is 0 |

## Left out

- GlobComment.CommentHolds: leaves out patterns with a bracket list whose members besides digits are all white space or `#`; for them, and for all others, GlobComment.SpanRejects states the direction that does not depend on the lists.
- Csv.ImportRows: needs a column separator other than byte 255, since otherwise it does not end (CsvTermination.EndsExactly); `seenInterrupt`, the warnings on stderr, ASCII mode, table creation from the first line and SQLite's INSERT errors are not modelled.
- CsvRoundTrip.RoundTrip: covers separators of one byte, since the import refuses an empty one and longer ones; with a longer one `output_csv` compares only the begin of a field, which `Csv.OutputCsv` models. NULL cells and line ends other than CRLF are in CsvFiles.FileImports; the header row is not modelled.
- Csv.ImportCtx.ReadOneField: the growing buffer `z` is a sequence field instead of a reallocated block, so that aliasing of an old block is not captured; the same holds for `zSql` and `zLine` below.
- CStrings.Tokenize: the number of arguments is a parameter, 50 in the shell; only the tokens are modelled, not the commands they select.
- PrettyReference.ListLayout: texts with more than one list outside all parentheses are covered by the layout function and by the characters printed, not by a form of their own.
- GlobReference.GlobDecides: lists are of 7-bit members other than the bracket, the minus and the caret, which have their places.
- ExplainReference.DepthIsNesting: instructions that jump back without closing a loop are covered by Explain.ExplainDataPrepare only.
- CsvFiles.FileImports: the text for NULL must itself be a bare field, and a file without its last line end must not end in an empty one, which would import as NULL.
- ProcessInput.ProcessInput: completeness, the outcome of meta-commands and of statements, and the bail setting after each line are parameters; echo, prompts, interrupts, timers and messages are left out, and decoding before submission is the function that `CStrings.ResolveBackslashes` is proved to compute.
- GetLine.LocalGetline: NUL bytes in the stream and the Windows branch are left out.
- Explain.ExplainDataPrepare: starts after the statement is known to be an EXPLAIN, and needs jump targets of at least 0, as the code does.
- Tables.PrintTables: takes the names that the query returned.
- Loggers.Logger.Log: queueing and scheduling are one step of the loop thread, since `flush_ongoing` is read outside the lock; the class runs whole flushes, while `LoggerProtocol` interleaves them entry by entry.
- Loggers.Logger.OnFlushingThreadDone: the message that a failed request would print is left out, as are `log_synchronous`, zlog and its levels, and formatting of arguments.
- WebInterface.Broadcaster.BroadcastReport: takes what can be read from the report's address on, 8 bytes at least, which C does not promise for a shorter report; the report itself, which the code never releases, and the notification of clients are left out.
- The drain loop of the websocket callback, which never advances its position, serialization, the database and `main` are not part of this model.
- Allocation failure, integer overflow of sizes, locales other than C and signal handlers.
- SQLite itself and the rest of the shell.
