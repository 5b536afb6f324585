# Verified models of nextgen and the code it vendors

nextgen is a fuzzer that carries a copy of the SQLite shell and of the Capstone
disassembler. This project models the parts of that code with the most state and
branching, in Dafny, and proves what they promise.

- **CSV** (`CsvFormat`, `CsvRoundTrip`, `CsvShell`, `CsvImport`): the field writer,
  the character-level reader with its two characters of history, and the `.import`
  row loop over a statement whose parameters stay bound from row to row. Writing
  follows the quoting rules in section 2 of RFC 4180.
- **Dot-commands** (`CommandLine`, `Tokenizer`): C-string output, the in-place
  backslash decoder and the in-place tokenizer.
- **Schema printing** (`Pretty`, `PrettyFixed`, `PrettyTable`): the two in-place
  passes of `.schema --indent`, which texts they leave alone, and what they make
  of a statement of the usual shape.
- **Input loop** (`InputText`, `ProcessInput`, `InputLaws`): how lines become SQL
  batches.
- **EXPLAIN** (`ExplainIndent`) and **SQL quoting** (`SqlQuote`).
- **Disassembly drivers** (`DisasmSpec`, `Disasm`): `cs_disasm` with its growing
  array and error unwinding, over a heap whose every allocation may fail, against
  the iterator `cs_disasm_iter`.
- **CAS loops** (`CasLoop`): the retry loops as a step system of any number of
  calls under any interleaving.
- **Helpers**: differential register lists (`RegisterLists`), bit arithmetic
  (`BitMath`) and the lazily built id index (`IdIndex`). `Bytes` holds what the
  shell modules share.

## How to read the model

Bytes are integers from 0 to 255; a C string is a sequence of bytes without 0.
Buffers that the code reallocates are sequence fields, with every index inside
them proved in range; buffers rewritten in place are arrays. Memory obtained from
malloc or realloc holds arbitrary values. Methods follow the loops of the C code;
each is tied to a function on values, and the laws are proved about that function.
The members named `...Exactly` write a rule out in characters and numbers, apart
from the function that models it.

Library calls are parameters of the model: `sqlite3_complete`, the results of
dot-commands and of executing a batch, the per-architecture decoder and printer,
and which allocations succeed. A decoder that succeeds is taken to consume at
least one byte and no more than it is given.

Where the code and its comments differ, the model follows the code:

- The comment on the backslash decoder lists `\s` for a space; the code has no
  such case, so `\s` decodes to `s` (`BackslashS`).
- `insn_find` is described as returning 0 when nothing is found. It does so only
  above the largest id; below it the slots of absent ids are never written
  (`FindsExactly`, `AbsentIdAnswered`).
- `fill_insn` stores at most 16 bytes, so the stored sizes add up to the bytes
  consumed exactly when no step is longer (`SizesTile`). The x86 decoder refuses
  instructions of more than 15 bytes, so there nothing is cut (`X86LosesNothing`).
- The pretty-printer tracks quotes but does not use them: parentheses and commas
  inside quoted text count like any others (`QuotesIgnored`), and white space
  inside quoted text is squeezed like any other (`QuotedSpacesSqueezed`); what it
  leaves alone is stated exactly (`PrettyUnchanged`).
- A CSV file that ends right after a separator gives a NULL, not an empty text,
  for the last column (`TrailingSeparatorIsNull`).

## Model

| member | source | states |
|---|---|---|
| `CsvRoundTrip.TableRoundTrip` | deps/sqlite/shell.c:829-883 | every table of texts and NULLs, written as CSV with LF or CRLF row ends and any ASCII separator but quote, CR and LF, and read with LF as row separator, comes back field by field in order, a NULL as the text that stands for it; each field ends with the separator inside a row, with LF at its end, and end of file follows the last row |
| `CsvRoundTrip.RowRoundTrip` | deps/sqlite/shell.c:1187-1192 | a written row followed by anything reads back as one record with the same fields, ended by LF, leaving what follows |
| `CsvRoundTrip.LastRowRoundTrip` | deps/sqlite/shell.c:2663-2671 | the last row of a file reads back the same without its row end, unless its last value is written as nothing |
| `CsvRoundTrip.BareExactly` | deps/sqlite/shell.c:829-883 | with a one-byte separator a text is written as it is exactly when it is not empty and all its bytes are visible ASCII other than both quotes and the separator; otherwise it starts with a quote |
| `CsvRoundTrip.BareWithLongSeparator` | deps/sqlite/shell.c:858-868 | a longer separator forces quotes only on a text that starts with it |
| `CsvRoundTrip.QuotedThen` | deps/sqlite/shell.c:2639-2646 | a quoted text ends at the quote before a separator, a line feed or the end of the file |
| `CsvRoundTrip.UnclosedQuote` | deps/sqlite/shell.c:2652-2657 | a quote that is never closed takes the text up to the end of the file |
| `CsvRoundTrip.StrayQuote` | deps/sqlite/shell.c:2648-2660 | inside quotes, a quote before an ordinary character is text |
| `CsvFormat.PlainFieldText` | deps/sqlite/shell.c:2663-2671 | on every byte stream: an unquoted field is the bytes up to the first separator of either kind or the end, without the CR before a row separator and without any other byte removed |
| `CsvRoundTrip.FieldRoundTrip` | deps/sqlite/shell.c:854-883 | a written field reads back unchanged before a separator, before CRLF, before a bare LF and at the end of the file, and the line count grows by the line feeds inside it (and the one that ends the row) |
| `CsvRoundTrip.NullReadsBack` | deps/sqlite/shell.c:856-857 | the text that stands for NULL, which is written unquoted, comes back exactly when it starts with no quote and holds neither the separator nor a line feed; before a bare LF it must also not end in CR, and at the end of the file not be empty |
| `CsvFormat.TrailingSeparatorIsNull` | deps/sqlite/shell.c:2615-2675 | on every byte stream: a record holds a NULL only in its last place, and exactly when the separator that ended the field before it is the last byte of the input; without quotes, exactly when input read to its end has the separator as its last byte |
| `CsvRoundTrip.TrailingSeparatorExample` | deps/sqlite/shell.c:2619-2622 | one letter, a separator and end of file: two fields, the second NULL |
| `CsvFormat.ReadConsumes` | deps/sqlite/shell.c:2615-2675 | on every byte stream: a field is read unless the input is empty, the unread input is a proper suffix, the terminator is the last byte consumed or end of file, and the line count grows by exactly the row separators consumed, except that an opening quote which is the row separator is not counted |
| `CsvFormat.ReadQuotedTallied` | deps/sqlite/shell.c:2625-2661 | inside quotes, whatever the two characters of history: the field ends at a separator or at end of file, and every row separator consumed is counted |
| `CsvRoundTrip.ReadDoubled` | deps/sqlite/shell.c:2630-2661 | text with doubled quotes never takes the reader out of the quoted field, and is stored undoubled |
| `CsvShell.OutputCsv` | deps/sqlite/shell.c:854-883 | the field writer, for every separator: a null value, the bare text, or the text quoted with its quotes doubled when it is empty or a character forces quotes; then the separator if asked |
| `CsvShell.WriteRow` | deps/sqlite/shell.c:1182-1192 | the loop over the columns in CSV mode, for values, NULLs and headers: separated, ended by the row separator, for every style |
| `CsvShell.CsvOutput.Row` | deps/sqlite/shell.c:1179-1195 | one result row in CSV mode: counted, preceded by the column names (missing ones as empty texts) if it is the first and a header is wanted, nothing written for a row without columns |
| `CsvShell.ImportCtx.AppendChar` | deps/sqlite/shell.c:2590-2600 | appends one byte; the buffer always has room for the terminator that may follow |
| `CsvShell.ImportCtx.StripBack` | deps/sqlite/shell.c:2644 | the strip-back loop stops inside the field, at its last quote |
| `CsvShell.ImportCtx.ReadQuotedField` | deps/sqlite/shell.c:2625-2661 | the quoted branch, character by character, refines the reader's specification; the history is always the last bytes stored |
| `CsvShell.ImportCtx.ReadPlainField` | deps/sqlite/shell.c:2663-2671 | the unquoted branch refines the specification, with the CR before a row separator removed |
| `CsvShell.ImportCtx.ReadOneField` | deps/sqlite/shell.c:2615-2675 | the whole reader: text, terminator, line count and unread input as specified; the terminating NUL is stored inside the allocation; a null result at end of file or when nothing was ever allocated |
| `CsvImport.FillWithNull` | deps/sqlite/shell.c:3600-3601 | the parameters from the first missing column to the last are bound to NULL, none skipped |
| `CsvImport.BindColumn` | deps/sqlite/shell.c:3595-3602 | binding one column keeps the columns bound before it; if the record ends here the rest is bound to NULL |
| `CsvImport.BindColumns` | deps/sqlite/shell.c:3582-3603 | after the column loop the bound values are the fields read so far cut or padded to nCol, whatever was bound before |
| `CsvImport.ImportRow` | deps/sqlite/shell.c:3580-3621 | one turn of the row loop: no insert at end of file, otherwise exactly one, holding the next record cut or NULL-padded to nCol values |
| `CsvImport.Import` | deps/sqlite/shell.c:3580-3621 | the row loop makes one insert per record of the stream, in order, each cut or padded to nCol; no value of an earlier row survives |
| `CsvImport.RecordsOfTable` | deps/sqlite/shell.c:1179-1195 | the records of a written table are its rows, with NULL as the text that stands for it |
| `CsvImport.RaggedImport` | deps/sqlite/shell.c:3580-3621 | rows of any widths, written and imported into a table of any width: columns past the width are dropped, missing ones are NULL, texts are cut at a NUL |
| `CsvImport.ExportImport` | deps/sqlite/shell.c:3580-3621 | a written table of C strings and NULLs, imported into a table of the same width, yields its rows with NULL replaced by the text that stands for it; a row comes back unchanged exactly when it holds no NULL |
| `CsvImport.ExportThenImport` | deps/sqlite/shell.c:3580-3621 | the same for the shell's own writer, reader and row loop run one after the other, with or without a header, for any earlier bindings |
| `CsvImport.Export` | deps/sqlite/shell.c:1179-1195 | the rows written in turn make up the written table, with the column names before it if a header is wanted and there is any row |
| `CommandLine.OutputCString` | deps/sqlite/shell.c:762-788 | C-string output: quotes, backslashes, tab, newline and CR escaped, other unprintable bytes as three octal digits |
| `CommandLine.EscapeExactly` | deps/sqlite/shell.c:762-788 | printable characters other than the quote and the backslash print as themselves, five characters have two-character escapes, all others are three octal digits of their number |
| `CommandLine.EscapePrintable` | deps/sqlite/shell.c:762-788 | what is printed is printable ASCII, and is the text itself exactly when every character prints as itself |
| `CommandLine.DecodeUndoesEscape` | deps/sqlite/shell.c:2390-2432 | resolving backslashes undoes the escapes of C-string output, for every byte string |
| `CommandLine.BackslashS` | deps/sqlite/shell.c:2380-2427 | a backslash before s decodes to s, not to a space |
| `CommandLine.DecodeLetter` | deps/sqlite/shell.c:2395-2416 | a backslash before a character that is no octal digit: the seven letters, and any other character as itself; a backslash at the end stays |
| `CommandLine.DecodeOctal` | deps/sqlite/shell.c:2417-2427 | one to three octal digits after a backslash are the character with that number modulo 256 |
| `CommandLine.DecodeEscapeAt` | deps/sqlite/shell.c:2396-2427 | one escape: the letters, the quotes, one to three octal digits modulo 256, any other character as itself; reads no further than the NUL |
| `CommandLine.ResolveBackslashes` | deps/sqlite/shell.c:2390-2432 | in place, the decoded text replaces the text it came from and is NUL-terminated; nothing outside that text changes |
| `Tokenizer.EscapeHides` | deps/sqlite/shell.c:3098-3101 | the end of a double-quoted argument is not mistaken for an escaped quote inside it |
| `Tokenizer.FirstArgOfCString` | deps/sqlite/shell.c:3095-3105 | a printed argument followed by anything tokenizes to that argument and leaves what follows |
| `Tokenizer.FirstArgOfWord` | deps/sqlite/shell.c:3106-3110 | a bare argument ends at white space or with the line and has its backslashes resolved; without any it is taken as it is |
| `Tokenizer.FirstArgOfSingleQuoted` | deps/sqlite/shell.c:3095-3104 | a single-quoted argument is taken as it is, backslashes and spaces included; the closing quote may be missing at the end of the line |
| `Tokenizer.ArgsRoundTrip` | deps/sqlite/shell.c:3092-3112 | tokenizing a printed list of NUL-free byte strings gives the list back, cut to fifty arguments in all |
| `Tokenizer.CommandRoundTrip` | deps/sqlite/shell.c:3092-3112 | the same for a whole dot-command line: the arguments back, the first fifty of them |
| `Tokenizer.TypedCommand` | deps/sqlite/shell.c:3092-3112 | a command line that mixes bare, single-quoted and escaped arguments tokenizes to their texts, the first fifty of them |
| `Tokenizer.Finish` | deps/sqlite/shell.c:3102-3110 | terminating and decoding an argument leaves the line after it, and everything before it, as it was |
| `Tokenizer.NextArg` | deps/sqlite/shell.c:3093-3111 | one turn of the tokenizer: the argument is a C string in the buffer and the rest of the line is untouched |
| `Tokenizer.Tokenize` | deps/sqlite/shell.c:3092-3112 | the in-place tokenizer: each argument pointer leads to the C string of the specified argument, at most fifty, none damaged by a later one |
| `Tokenizer.PrintThenTokenize` | deps/sqlite/shell.c:3092-3112 | the shell's own printer and tokenizer run one after the other: every list of C strings comes back, each at its pointer in the buffer, the first fifty of them |
| `Tokenizer.PrintArgsNulFree` | deps/sqlite/shell.c:762-788 | what C-string output prints never contains a NUL, whatever bytes it is given |
| `Pretty.FirstPassNormalises` | deps/sqlite/shell.c:1079-1090 | the first pass reaches a normal form (single white space, none at the ends, none after an opening or before any parenthesis), keeps the other characters, never lengthens the text, changes nothing exactly on texts in normal form, and is idempotent |
| `Pretty.PutSqueezed` | deps/sqlite/shell.c:1082-1087 | one character of the first pass: stored, dropped, or stored over the white space before it; nothing behind the write position changes |
| `Pretty.CopySqueezed` | deps/sqlite/shell.c:1081-1088 | the copying loop, with the write index never past the read index |
| `Pretty.SqueezeInPlace` | deps/sqlite/shell.c:1079-1090 | the first pass on the buffer gives the specified text, NUL-terminated |
| `Pretty.LayoutKeepsSolid` | deps/sqlite/shell.c:1092-1116 | breaking into lines keeps every character that is not white space, in order |
| `Pretty.LayOutOne` | deps/sqlite/shell.c:1092-1116 | one turn of the second pass prints and carries over what the layout says, with the write index never past the read index |
| `Pretty.BreakLines` | deps/sqlite/shell.c:1091-1119 | the second pass in place prints the layout of the text |
| `Pretty.PrettyPrint` | deps/sqlite/shell.c:1063-1122 | the whole mode: nothing for NULL, views and triggers unchanged, short statements squeezed, long ones laid out, a semicolon at the end |
| `Pretty.OnlyWhiteSpaceChanges` | deps/sqlite/shell.c:1063-1122 | for every schema text the characters printed, white space apart, are those of the input followed by a semicolon |
| `PrettyFixed.CompactIsFirstPass` | deps/sqlite/shell.c:1079-1090 | the first pass is a left-to-right scan that keeps the first character of each run of white space unless it stands at an end, after an opening or before any parenthesis |
| `PrettyFixed.LinesIsLayout` | deps/sqlite/shell.c:1092-1119 | the second pass depends only on the depth, whether a line was broken and whether the line is empty |
| `PrettyFixed.QuotesIgnored` | deps/sqlite/shell.c:1093-1099 | what the second pass prints does not depend on the quote it is looking for |
| `PrettyFixed.QuotedSpacesSqueezed` | deps/sqlite/shell.c:1081-1088 | two spaces inside a quoted text are printed as one |
| `PrettyFixed.FixedScan` | deps/sqlite/shell.c:1079-1119 | the texts that squeezing and laying out leave unchanged, from any point of the scan on, are exactly those already laid out |
| `PrettyFixed.PrettyUnchanged` | deps/sqlite/shell.c:1063-1122 | exactly when a text is printed as it is: views and triggers always, a text of under 79 squeezed characters when it is in normal form, a longer one when it is laid out |
| `PrettyFixed.PrettyIdempotent` | deps/sqlite/shell.c:1063-1122 | printing what was printed, its semicolon apart, prints the same again |
| `PrettyTable.StatementLayout` | deps/sqlite/shell.c:1091-1119 | a head, a list in parentheses and a tail are laid out with the opening parenthesis ending the first line, one indented line for each item, nested parentheses and their commas untouched, and the closing parenthesis in front of the last line |
| `PrettyTable.StatementPrinted` | deps/sqlite/shell.c:1063-1122 | that layout and a semicolon are printed of every such statement of 79 characters or more with no white space to spare |
| `PrettyTable.SpaceBetween` | deps/sqlite/shell.c:1081-1088 | of a run of white space between two texts the first character is kept, unless an opening parenthesis stands before it or any parenthesis after it |
| `PrettyTable.SpaceAround` | deps/sqlite/shell.c:1080-1090 | white space at the ends is dropped |
| `PrettyTable.VerbatimExactly` | deps/sqlite/shell.c:1072-1077 | the statements printed as they are, are exactly those that start with CREATE VIEW or CREATE TRIG in any case |
| `InputText.IsAllWhitespace` | deps/sqlite/shell.c:4829-4848 | the loop over white space and comments decides the recursive definition; an unfinished block comment does not count, an unfinished line comment does |
| `InputLaws.BlankExactly` | deps/sqlite/shell.c:4829-4848 | a text is blank exactly when it is a sequence of white-space characters, closed block comments and line comments, the last of which may lack its line feed |
| `InputText.WhitespaceLineJoins` | deps/sqlite/shell.c:4829-4848 | if a is all white space, then a, a line feed and b together are so exactly when b is |
| `InputText.LineIsTerminator` | deps/sqlite/shell.c:4855-4865 | a line is a terminator when, white space and comments apart, it is a slash or go in any case |
| `InputLaws.TerminatorExactly` | deps/sqlite/shell.c:4855-4865 | a terminator is exactly a slash or one of the four spellings of go, with white space before it and white space and comments after it |
| `InputLaws.BatchIsLines` | deps/sqlite/shell.c:4942-4954 | without terminators the text of a batch is its lines as read, line feeds between them, from the first character on that is not white space |
| `InputLaws.TerminatorAdds` | deps/sqlite/shell.c:4930-4933 | a terminator puts a semicolon in its place where the text before it would be complete with one, and is text like any other line elsewhere |
| `ProcessInput.Shell.LineIsComplete` | deps/sqlite/shell.c:4871-4879 | a missing buffer is complete; otherwise the text with a semicolon is asked about; both stores lie inside the allocation and the text is restored |
| `ProcessInput.Shell.EnsureRoom` | deps/sqlite/shell.c:4934-4941 | after growing there is room for the line, a line feed and a terminator, and the text is kept |
| `ProcessInput.Shell.AppendText` | deps/sqlite/shell.c:4942-4954 | the first line goes in left-trimmed, later ones behind a line feed; room for a semicolon and a NUL remains |
| `ProcessInput.Shell.Accumulate` | deps/sqlite/shell.c:4930-4954 | with one more line the buffer holds the text of its lines, terminators replaced, and startline is the first one's number |
| `ProcessInput.Shell.Settle` | deps/sqlite/shell.c:4955-4991 | a batch is executed when its last line brought a semicolon and it is complete, dropped when it is all white space, kept otherwise; its lines are accounted for either way |
| `ProcessInput.Shell.TakeLine` | deps/sqlite/shell.c:4911-4991 | one turn of the loop adds exactly the line read to the lines accounted for, and asks to exit only for a dot-command that returned 2 |
| `ProcessInput.Shell.Leftover` | deps/sqlite/shell.c:4993-5001 | text left in the buffer is never blank and always an error |
| `ProcessInput.Shell.ProcessInput` | deps/sqlite/shell.c:4890-5002 | every line read is, once and in order, a skipped blank, a dot-command, part of one executed batch, part of one dropped batch, or left over; each executed text is that of its lines, with its first line's number; reading stops early only on exit or on an error with bail set; the result is whether there was an error |
| `ProcessInput.OneLogPerInput` | deps/sqlite/shell.c:4903-4992 | the lines read determine all of this: two accounts of the same lines that meet the contract are equal |
| `InputLaws.ExecutedWhenComplete` | deps/sqlite/shell.c:4955-4992 | on every account of the lines read: a batch is executed at its first line that brings a semicolon and makes the text complete, dropped at its first line that leaves it blank, and no start of what is left over has done either |
| `InputLaws.EventByFirstLine` | deps/sqlite/shell.c:4911-4929 | with no batch open, a line of nothing but white space and comments is skipped, another that starts with a dot is a dot-command, and any other starts a batch |
| `InputLaws.ErrorsExactly` | deps/sqlite/shell.c:4921-4928 | an error is a dot-command that returned something other than 0 and 2, or a batch that failed |
| `ExplainIndent.ShellState.Raise` | deps/sqlite/shell.c:1731 | the indenting loop adds two to the opcodes from the target up to the closing one, and to no other |
| `ExplainIndent.ShellState.AddOp` | deps/sqlite/shell.c:1726-1737 | one opcode adds an entry of zero and indents exactly the opcodes of the loop it closes, if it closes one |
| `ExplainIndent.ShellState.ExplainDataPrepare` | deps/sqlite/shell.c:1693-1738 | every opcode ends up indented by two for each loop around it, for every stream whose jump targets are not negative |
| `ExplainIndent.EnclosingIsAll` | deps/sqlite/shell.c:1730-1737 | the loops around an opcode are listed completely, once each and in order |
| `ExplainIndent.EnclosingIsDepth` | deps/sqlite/shell.c:1655-1664 | when loops nest, the loops around an opcode form a tower, each inside the next, and no tower is higher: the indent is twice the nesting depth |
| `ExplainIndent.EnclosesExactly` | deps/sqlite/shell.c:1671-1675 | the rule written out: an opcode is indented by the seven Next-like opcodes, by a Goto with p1 set and by a Goto to one of the five Yield-like opcodes, each from its target up to itself |
| `ExplainIndent.OtherGotosIndentNothing` | deps/sqlite/shell.c:1733-1737 | a Goto without p1 to any other opcode indents nothing |
| `SqlQuote.OutputQuotedString` | deps/sqlite/shell.c:730-757 | run by run, the string comes out quoted as if each quote had been doubled on its own |
| `SqlQuote.PutDoubled` | deps/sqlite/shell.c:1293-1296 | writing with doubled quotes uses up exactly one byte per character and one per quote |
| `SqlQuote.AppendText` | deps/sqlite/shell.c:1309-1344 | the text appended, quoted if asked; the length computed first is exactly what is written |
| `SqlQuote.SetTableName` | deps/sqlite/shell.c:1268-1299 | an identifier is kept as it is, any other name is quoted; the length computed first is exactly what is written |
| `SqlQuote.TableNameExactly` | deps/sqlite/shell.c:1278-1299 | a name stays bare exactly when it is letters, digits and underscores and does not start with a digit; any other is quoted and reads back |
| `SqlQuote.DumpSelect` | deps/sqlite/shell.c:2052-2080 | the whole query that dumps a table, built a column at a time; none when there are no columns or reading them failed |
| `SqlQuote.LexUndoesQuote` | deps/sqlite/shell.c:1328-1337 | reading a quoted token back gives the text and leaves what follows, unless a quote follows |
| `SqlQuote.ColumnsRecovered` | deps/sqlite/shell.c:2062-2073 | the column list of the query parses back to the columns in order |
| `SqlQuote.DumpRecovered` | deps/sqlite/shell.c:2052-2080 | the query parses back to the table inserted into, all its columns in order and the table read from, whatever quotes, commas and parentheses their names hold |
| `DisasmSpec.Tiling` | deps/capstone-3.0.4/cs.c:463-579 | each entry's address is the start address plus the steps before it modulo 2^64, and its bytes are the last ones of its step |
| `DisasmSpec.EntriesReport` | deps/capstone-3.0.4/cs.c:484-538 | every entry says what stands at its place in the buffer: the decoder's id, mnemonic, operands and step and the last 16 bytes of it at most, or, where the decoder fails, id 0, the data mnemonic and operands that read back to the bytes skipped; its address is the start plus the steps before it modulo 2^64 |
| `DisasmSpec.OperandsReadBack` | deps/capstone-3.0.4/cs.c:392-410 | the operands of a data entry parse back to its bytes |
| `DisasmSpec.TraceEnds` | deps/capstone-3.0.4/cs.c:501-514 | after the last entry the decoder fails, and SKIPDATA is off or wants more bytes than are left |
| `DisasmSpec.StopsWhereStuck` | deps/capstone-3.0.4/cs.c:501-525 | disassembly stops only where the decoder fails and SKIPDATA is off or too little is left |
| `DisasmSpec.SkipdataCovers` | deps/capstone-3.0.4/cs.c:309-341 | with SKIPDATA on, fewer than skipdata_size bytes stay uncovered, and none on x86 |
| `DisasmSpec.UncoveredBytes` | deps/capstone-3.0.4/cs.c:309-341 | with SKIPDATA on nothing stays uncovered on x86, at most one byte on SystemZ and XCore, at most three elsewhere |
| `DisasmSpec.EntriesAligned` | deps/capstone-3.0.4/cs.c:309-341 | skipping data never takes the entries off the alignment of the architecture, if the decoder keeps to it |
| `DisasmSpec.SizesTile` | deps/capstone-3.0.4/cs.c:265-270 | over the whole trace, the stored sizes add up to at most the bytes consumed, and to exactly those when no step is longer than the bytes field |
| `DisasmSpec.BytesReassemble` | deps/capstone-3.0.4/cs.c:265-270 | the stored bytes, put together, are the bytes consumed exactly when no step is longer than the bytes field |
| `DisasmSpec.X86LosesNothing` | deps/capstone-3.0.4/cs.c:309-341 | on x86 with SKIPDATA, for decoders of at most 15 bytes, the stored bytes put together are the whole buffer |
| `Disasm.Handle.SetSkipdata` | deps/capstone-3.0.4/cs.c:373-381 | switching SKIPDATA on installs the default size once; a handle with SKIPDATA on never has size 0 |
| `Disasm.Cursor.Iter` | deps/capstone-3.0.4/cs.c:660-743 | one iterator step: the entry at the front, saying what the decoder or SKIPDATA makes of it, and the advanced buffer and address; or nothing changed |
| `Disasm.IterateAll` | deps/capstone-3.0.4/cs.c:660-743 | stepping the iterator to its end yields the whole trace of the buffer |
| `Disasm.NextSlot` | deps/capstone-3.0.4/cs.c:464-538 | one decode attempt of cs_disasm: an entry with its detail block, or the detail block given back |
| `Disasm.FreeDetails` | deps/capstone-3.0.4/cs.c:555-559 | the unwinding loop frees each detail block of the first n entries exactly once |
| `Disasm.CsFree` | deps/capstone-3.0.4/cs.c:619-629 | frees the detail blocks of the first count entries and the array, and nothing else |
| `Disasm.Resize` | deps/capstone-3.0.4/cs.c:585-603 | reallocating keeps the entries in use; if it is denied everything is unwound |
| `Disasm.TakeTurn` | deps/capstone-3.0.4/cs.c:463-579 | one turn of the decode loop keeps capacity equal to c - f + cache_size with the next slot inside it, or ends with the entries asked for, or unwinds |
| `Disasm.DecodeLoop` | deps/capstone-3.0.4/cs.c:453-579 | the decode loop ends with exactly the entries asked for in the first c slots, or with everything unwound |
| `Disasm.CsDisasm` | deps/capstone-3.0.4/cs.c:415-609 | for every pattern of allocation failures: an array of exactly c entries, the first count of the trace, with the live blocks being those it owns; or CS_ERR_MEM, 0, and the heap as it was; a denied detail block alone is no error |
| `Disasm.DisasmThenFree` | deps/capstone-3.0.4/cs.c:415-629 | disassembling and freeing leaves the heap as it was, whichever allocations fail, and frees nothing twice |
| `Disasm.DriversAgree` | deps/capstone-3.0.4/cs.c:415-743 | without a denied allocation cs_disasm returns what stepping the iterator to its end returns, or its first count entries |
| `CasLoop.Target.CasLoop` | src/concurrent/concurrent.c:30-46 | one call's loop, for any stores by others before each load and between each load and its swap: it fails exactly in the rounds up to the first whose swap finds the value loaded, ends, and leaves its value |
| `CasLoop.NextKeepsInv` | src/concurrent/concurrent.c:30-46 | every atomic step of every call keeps the protocol invariant |
| `CasLoop.Linearizable` | src/concurrent/concurrent.c:30-46 | after any interleaving of any number of calls the target holds what an atomic store per completed call, in completion order, leaves; calls take effect once, when they finish |
| `CasLoop.FailureMeansInterference` | src/concurrent/concurrent.c:30-46 | a failed swap means that another call completed since this call's load |
| `CasLoop.FailureBound` | src/concurrent/concurrent.c:49-65 | N calls that are the only writers fail at most N(N-1)/2 swaps, in any run |
| `CasLoop.StepBound` | src/concurrent/concurrent.c:49-65 | every run of N calls has at most N(N+1) steps |
| `CasLoop.BoundsAreTight` | src/concurrent/concurrent.c:49-65 | for every N some run of N calls, all finishing, reaches both bounds exactly |
| `RegisterLists.WalkUndoesEncode` | deps/capstone-3.0.4/MCRegisterInfo.c:53-84 | walking an encoded list gives the registers back, wherever it lies and whatever follows it |
| `RegisterLists.EncodableIffNoRepeat` | deps/capstone-3.0.4/MCRegisterInfo.c:64-79 | a list of registers survives encoding exactly when no register follows itself; otherwise the walk stops early |
| `RegisterLists.DiffListIterator.Next` | deps/capstone-3.0.4/MCRegisterInfo.c:64-79 | moves to the next register of the list, or ends the iteration for good |
| `RegisterLists.SubRegAtIsFirst` | deps/capstone-3.0.4/MCRegisterInfo.c:116-123 | the sub-register found is the one paired with the first matching index, and 0 means no index matched before the end of the list |
| `RegisterLists.SubRegFromTable` | deps/capstone-3.0.4/MCRegisterInfo.c:108-124 | a table built from lists of sub-registers answers an index with the sub-register it belongs to |
| `RegisterLists.SuperRegsFromTable` | deps/capstone-3.0.4/MCRegisterInfo.c:94-95 | the super-registers searched are those whose list the table holds |
| `RegisterLists.ContainsExactly` | deps/capstone-3.0.4/MCRegisterInfo.c:134-143 | a class holds exactly the registers its bit set was made from, as far as the bit set reaches |
| `RegisterLists.GetSubReg` | deps/capstone-3.0.4/MCRegisterInfo.c:108-124 | the iterator loop computes that sub-register |
| `RegisterLists.FirstMatch` | deps/capstone-3.0.4/MCRegisterInfo.c:97-105 | the first register in the class that maps back to the given one, or 0 only if there is none |
| `RegisterLists.GetMatchingSuperReg` | deps/capstone-3.0.4/MCRegisterInfo.c:86-106 | the nested search computes the first matching super-register, and 0 for numbers that are no register |
| `BitMath.Bisect` | deps/capstone-3.0.4/MathExtras.h:107-115 | the bisection loop counts the leading zeros of a word of any power-of-two width |
| `BitMath.CountLeadingZeros32` | deps/capstone-3.0.4/MathExtras.h:95-118 | 32 minus the bit length, and 32 for zero |
| `BitMath.CountLeadingZeros64` | deps/capstone-3.0.4/MathExtras.h:132-176 | 64 minus the bit length on both paths, and 64 for zero |
| `BitMath.BitLengthBounds` | deps/capstone-3.0.4/MathExtras.h:91-118 | a number lies between the powers of two around its bit length |
| `BitMath.Log2` | deps/capstone-3.0.4/MathExtras.h:277-281 | 2^r <= value < 2^(r+1); for 0, the unsigned -1 |
| `BitMath.Log2Ceil` | deps/capstone-3.0.4/MathExtras.h:290-294 | the least k with value <= 2^k; for 0, 64 |
| `BitMath.Smear` | deps/capstone-3.0.4/MathExtras.h:369-374 | one smearing step doubles the run of ones at the top of the number |
| `BitMath.NextPowerOf2` | deps/capstone-3.0.4/MathExtras.h:366-376 | the smear gives 2 to the bit length, and 0 exactly when the argument is 2^63 or more and that power does not fit |
| `BitMath.NextPowerIsLeast` | deps/capstone-3.0.4/MathExtras.h:366-376 | 2 to the bit length is above the argument, and no power of two above it is smaller |
| `IdIndex.LastRowIsLast` | deps/capstone-3.0.4/utils.c:22-23 | the row an id is indexed under is the last one from row 1 on that has it |
| `IdIndex.MakeId2Insn` | deps/capstone-3.0.4/utils.c:14-26 | every id that occurs from row 1 on is mapped to its last row, and every other slot keeps what malloc returned |
| `IdIndex.Finder.InsnFind` | deps/capstone-3.0.4/utils.c:30-39 | answers 0 above the largest id, the last row of an id that has one, and what malloc returned for any other; builds the index at most once and then only reads it |
| `IdIndex.Finder.FindAll` | deps/capstone-3.0.4/utils.c:30-39 | any sequence of lookups sharing one index answers each id as a single lookup would |
| `IdIndex.FindsExactly` | deps/capstone-3.0.4/utils.c:28-39 | the promised answer, the row or 0 if not found, is given whatever malloc returned exactly for ids above the largest and ids that have a row |
| `IdIndex.AbsentIdAnswered` | deps/capstone-3.0.4/utils.c:28-39 | in the table 0, 1, 3 the absent id 2 is answered with whatever malloc returned |

## Left out

- CsvRoundTrip.TableRoundTrip: rows that hold a NULL are covered when the text for NULL is one that reads back (`NullReadsBack` says which do); single-character separators only; `.import` refuses longer ones, and on platforms with signed characters the byte 0xFF would compare equal to end of file.
- CsvImport.Import: ASCII mode, the CREATE TABLE made from a header row, and the warnings about row width are not modelled.
- CsvShell.ImportCtx.ReadOneField: a pending interrupt and the messages on standard error are not modelled.
- ProcessInput.Shell.ProcessInput: interrupts, prompts, echo, timers and the option that resolves backslashes in SQL text are not modelled; lines are read without their line ends.
- Disasm.CsDisasm: the skipdata callback is not modelled, because the two drivers pass it different arguments; the array is counted in entries, and the 32-bit wrap-around of `cache_size * 8`, which needs about 1.9 billion entries, is not modelled.
- CasLoop.Linearizable: load and compare-and-swap are atomic steps; memory orders weaker than sequential consistency are not modelled.
- SqlQuote.DumpSelect: the repetition of the query with a descending order on a corrupt table is not modelled.
- SqlQuote.AppendText: the null result when memory runs out is not modelled.
- IdIndex.MakeId2Insn: assumes memory is granted and, as the source does, that the largest id is in the last row.
- RegisterLists.GetSubReg: as in the source, the register number is not checked against the table.
- Splitting a printed instruction into mnemonic and operands, and post-printers.
- The compiler builtins and floating-point casts of MathExtras.h.
- The per-architecture decoders, the rest of the shell's commands, and nextgen's own start-up, ELF and epoch code, which are calls into libraries.
