# Models of six hand-written algorithms

Each part models one component and proves what it is for. Code that changes things step by step is modelled by
classes and methods over arrays; what it must compute is given by functions on sequences, about which the
further results are proved. Wherever the code reads, the model reads from a `Reader`: an arbitrary finite sequence
of non-empty pieces followed by the end of input. Contracts speak of the whole input only, so every one of them says
that the pieces do not matter.

* **`tr`** (GNU, C locale). `TrParse` reads a specification into a list of constructs, `TrSpec` walks it with the
  generator whose position is packed into one counter, `TrAlign` and `TrValidate` check and pad two lists,
  `TrTable` and `TrTranslate` build the translation table, `TrExact` compares it with the zip, `TrFilter` deletes,
  translates and squeezes, and `Tr` puts a whole run together. `TrSpelling` has the grammar of specifications in
  characters, `TrAlignLaws` says which case classes line up, and `TrLaws` what runs write. The syntax is that of the
  `tr` utility in the XCU volume of POSIX.1, "EXTENDED DESCRIPTION".
* **`cat`** (GNU). `CatCounter` is the line counter kept as digits, `CatSpec` the byte transducer and its description
  line by line, `Cat` the automaton over buffers with a sentinel newline, `CatLaws` the output byte by byte in
  characters.
* **`wgetopt`** (fish shell). `GetoptExchange` is the in-place exchange, `GetoptSpec` says in one pass what a scan
  finds, `Getopt` is the scanner that permutes its argument array, `GetoptLaws` the grammar of argument lists.
  Guideline 10 in section 12.2 of the XBD volume of POSIX.1 is about the `--` element.
* **mini-redis store**. `RedisDb` keeps keys and an index of deadlines, `RedisPurge` interleaves setters, shutdown,
  notifications, the clock and the purge task. Both say what is answered by the history of operations alone.
* **mini-redis frames**. `RespSpec` says where frames end and what they hold, `Resp` is the cursor and the
  connection, `RespEncode` and `RespRoundTrip` are about writing and reading back, `RespLaws` has the protocol in
  characters.
* **hexyl**. `Hexyl` is the row squeezer of `print_all`, and the decoder that shows it to be lossless; `HexylLaws`
  says which rows a dump may consist of.

`Streams` and `Decimal` serve several parts. The modules named `...Laws` and `TrSpelling` describe behaviour a second
time, in characters and without the functions that the methods are proved against, and prove the two descriptions
equal, or the second from the first.

Some results need a condition; each is stated with both directions or with a counterexample. Reading back a frame
works if and only if its simple and error strings contain no CR LF (`RespRoundTrip.RoundTrip`). The bound on the output
buffer of `cat` is within the allocated size, for all option sets and inputs, if and only if line numbers have at most
ten digits (`Cat.BufferSuffices`); this is the worst case over option sets, and for the options that need most room
`Cat.BoundIsTight` gives an input for every longer last number for which the allocated size does not suffice.
The class shortcut of `tr` equals the zip of the two expansions if every case class of set 2 is paired with the
opposite one (`TrTranslate.TablesAgree`). For a pair of equal classes only the first letter is written;
`TrTranslate.SameCaseDiffers` shows two sets where that makes a difference, and `TrExact.ShortcutIsZipExactly` says
for all accepted sets exactly when it does not. An argument may be joined to its option or follow it for every option
character but `-` (`GetoptLaws.JoinedIsApart`).

Where comments and code of the sources differ, the model follows the code. The comment on the size of the output
buffer of `cat` says that a line number seldom needs more room than the counter buffer has; one read can be followed by
two labels, and the bound proved accounts for that. The comment in `tr` that a repeat count may be as large as
BEGIN_STATE is confirmed by `TrSpec.CounterMeetsSentinel`.

## Model

| member | source | states |
|---|---|---|
| TrFilter.SqueezeFilter | 02-coreutils/tr/original-c/tr.c:1513-1596 | For every squeeze set, reader, buffer size and cutting of the input: the output is the input without each byte that is in the set and equals its predecessor, although the scan looks at every other byte only while nothing is being squeezed |
| TrFilter.Scan | 02-coreutils/tr/original-c/tr.c:1536-1576 | The step-by-two scan stops only where a squeezed run begins or the buffer ends; every byte it passes to the output is one to keep, also the ones it did not look at |
| TrFilter.SkipRun | 02-coreutils/tr/original-c/tr.c:1582-1594 | What is skipped in a new buffer is exactly the rest of the run being squeezed |
| TrFilter.Advance | 02-coreutils/tr/original-c/tr.c:1534-1595 | One turn of the loop makes progress and keeps output plus squeezed remainder equal to the squeezed whole input |
| TrFilter.Input.ReadAndDelete | 02-coreutils/tr/original-c/tr.c:1613-1645 | Delivers the input without the bytes of the delete set, never an empty piece before the end |
| TrFilter.Input.Compact | 02-coreutils/tr/original-c/tr.c:1628-1640 | In-place compaction of a buffer leaves exactly the bytes to keep, in order, at its front |
| TrFilter.Input.ReadAndXlate | 02-coreutils/tr/original-c/tr.c:1651-1660 | Delivers the input with every byte mapped through the table |
| TrFilter.Input.Read | 02-coreutils/tr/original-c/tr.c:1598-1660 | Any of the three readers hands out a prefix of what is to be delivered, empty only at the end |
| TrFilter.SqueezedHasNoRepeats | 02-coreutils/tr/original-c/tr.c:1505-1511 | What is written contains no two equal neighbours from the set, also across the point where a scan is resumed |
| TrFilter.SqueezedIsIdempotent | 02-coreutils/tr/original-c/tr.c:1505-1511 | Squeezing a second time changes nothing |
| TrFilter.DeletedAppend | 02-coreutils/tr/original-c/tr.c:1613-1645 | Deleting from a stream cut in two is deleting from both parts |
| TrFilter.SqueezeOperation.Translate | 02-coreutils/tr/rust-rewrite/operation.rs:707-720 | The one-byte form drops a byte exactly if it is in the set and equals the byte before it, dropped or not |
| TrFilter.TranslateInput | 02-coreutils/tr/rust-rewrite/operation.rs:722-760 | The one-byte-at-a-time form writes the same squeezed input as the step-by-two filter |
| TrSpec.SpecList.GetNext | 02-coreutils/tr/original-c/tr.c:1021-1138 | From any saved state, the next call returns the next byte of the expansion (with its case class) and leaves the rest to come; at the end it returns the end marker and stays there |
| TrSpec.SpecList.NextOfRange | 02-coreutils/tr/original-c/tr.c:1049-1060 | Resuming a range from the byte saved in the counter yields the bytes ascending up to the last |
| TrSpec.SpecList.NextOfRepeat | 02-coreutils/tr/original-c/tr.c:1109-1131 | Counting copies in the saved state yields exactly the repeat count, and no state reached equals a sentinel by accident |
| TrSpec.SpecList.NextOfClass | 02-coreutils/tr/original-c/tr.c:1062-1096 | The search for the next member yields all members of the class ascending |
| TrSpec.SpecList.SkipConstruct | 02-coreutils/tr/original-c/tr.c:1000-1005 | Skips what is left of the current construct and nothing else |
| TrSpec.SpecList.Append | 02-coreutils/tr/original-c/tr.c:651-751 | Appending while building adds one construct at the end of the list |
| TrSpec.WalkIsExpansion | 02-coreutils/tr/original-c/tr.c:1007-1138 | Calling the generator until its end marker gives exactly the flattened expansion |
| TrSpec.NextChars | 02-coreutils/tr/original-c/tr.c:1021-1138 | Each step takes exactly the first byte off what is left, and the end marker comes exactly when nothing is left |
| TrSpec.NextAtEnd | 02-coreutils/tr/original-c/tr.c:1037-1039 | Behind the last construct the generator answers with the end marker and does not move, so it does so for ever |
| TrSpec.CounterMeetsSentinel | 02-coreutils/tr/original-c/tr.c:48-64 | A saved repeat counter can equal a sentinel only for counts above the maximum: for the maximum itself the last value saved is one below BEGIN_STATE |
| TrSpec.ClassIsNotEmpty | 02-coreutils/tr/original-c/tr.c:1076-1083 | Every character class has a member, so the affirmation in the walk holds |
| TrSpec.ExpandAppend | 02-coreutils/tr/original-c/tr.c:651-751 | The expansion of a list is the expansions of its parts one after the other |
| TrAlign.ValidateCaseClasses | 02-coreutils/tr/original-c/tr.c:1170-1229 | Accepts exactly the pairs of lists whose case classes in set 2 are met in step with case classes in set 1, subtracts the letters that the shortcut will skip from both lengths equally, and restores both walks |
| TrAlign.PairStep | 02-coreutils/tr/original-c/tr.c:1204-1219 | Where both walks enter a case class, the walk continues behind both classes, 26 letters further on in each expansion |
| TrAlign.CaseMembers | 02-coreutils/tr/original-c/tr.c:1062-1096 | In the C locale the members of upper and lower are the 26 letters in order |
| TrAlign.AlignOne | 02-coreutils/tr/original-c/tr.c:1197-1223 | One turn of the checking loop agrees with one step of the alignment |
| TrValidate.GetSpecStats | 02-coreutils/tr/original-c/tr.c:1244-1314 | The length computed construct by construct is the length of the expansion, the flags say which constructs occur, and the check fails exactly if the length exceeds the maximum repeat count |
| TrValidate.CountMembers | 02-coreutils/tr/original-c/tr.c:1268-1272 | The members counted for a class are those that the walk returns |
| TrValidate.CardOfComplement | 02-coreutils/tr/original-c/tr.c:1145-1159 | Counts the bytes that do not occur in the expansion |
| TrValidate.ComplementSize | 02-coreutils/tr/original-c/tr.c:1145-1159 | Set and complement together have 256 members |
| TrValidate.GetS1SpecStats | 02-coreutils/tr/original-c/tr.c:1316-1322 | The length of set 1 is that of its expansion, or of its complement |
| TrValidate.GetS2SpecStats | 02-coreutils/tr/original-c/tr.c:1324-1334 | The one indefinite repeat of set 2, if any, is stretched so that set 2 is as long as set 1 |
| TrValidate.ResolvedLength | 02-coreutils/tr/original-c/tr.c:1324-1334 | Stretching gives set 2 exactly the length of set 1 unless it was longer before |
| TrValidate.String2Extend | 02-coreutils/tr/original-c/tr.c:1368-1411 | Succeeds unless set 2 ends with a class, and then has appended as many copies of the last byte as make the lengths equal |
| TrValidate.PreparedExpansion | 02-coreutils/tr/original-c/tr.c:1368-1411 | The expansion of the set 2 used for translation is that of the stretched one continued by its own last byte |
| TrValidate.HomogeneousSpecList | 02-coreutils/tr/original-c/tr.c:1417-1432 | Tells whether an expansion has a byte and only one distinct byte |
| TrValidate.Validate | 02-coreutils/tr/original-c/tr.c:1442-1503 | Accepts two sets exactly under the stated condition on their expansions, lengths, classes and alignment, and leaves set 2 prepared |
| TrValidate.ValidateOne | 02-coreutils/tr/original-c/tr.c:1442-1449 | Accepts set 1 exactly if it is not too long and has no indefinite repeat |
| TrAlignLaws.AlignedExactly | 02-coreutils/tr/original-c/tr.c:1170-1229 | The walk of both lists accepts if and only if every case class of set 2 that set 1 reaches begins as many bytes into its expansion as some case class of set 1 begins in the other |
| TrLaws.SetsAccepted | 02-coreutils/tr/original-c/tr.c:1442-1503 | For all lists: accepted for translation if and only if set 1 has no indefinite repeat and set 2 at most one, neither is too long, set 2 has no equivalence class and no class but case classes that begin where those of set 1 do, has a last byte to be continued by if it is shorter, and consists of one byte value if classes are complemented |
| TrLaws.PlainSetsAccepted | 02-coreutils/tr/original-c/tr.c:1442-1503 | The same for sets without case classes, without stretching set 2 |
| TrLaws.StretchedRepeat | 02-coreutils/tr/original-c/tr.c:1324-1334 | The one `[c*]` of set 2 stands for as many copies of c as set 1 is longer than the rest of set 2 |
| TrTable.BuildPlain | 02-coreutils/tr/original-c/tr.c:1840-1883 | The translating loop pairs bytes and case classes in step, builds the specified table, and its closing affirmation holds for all accepted sets |
| TrTable.BuildComplement | 02-coreutils/tr/original-c/tr.c:1816-1839 | Maps the bytes outside set 1, ascending, to set 2; the affirmation that set 2 does not run out early holds |
| TrTable.SetInitialize | 02-coreutils/tr/original-c/tr.c:1668-1679 | Marks exactly the bytes of the expansion, or exactly the others |
| TrTable.TableLoopIsZip | 02-coreutils/tr/original-c/tr.c:1850-1881 | If every case class of set 2 is paired with the opposite one, converting whole classes and skipping both constructs builds the table of zipping the two full expansions |
| TrTable.AssignLetters | 02-coreutils/tr/original-c/tr.c:1855-1866 | Zipping a class with the opposite class converts the case of every letter and touches nothing else |
| TrTable.AssignLastWins | 02-coreutils/tr/rust-rewrite/operation.rs:645-667 | In a zip the last write for a byte wins, and bytes not in string 1 keep their value |
| TrTable.AlignExtended | 02-coreutils/tr/original-c/tr.c:1368-1411 | The appended padding does not disturb the alignment of case classes that was checked before |
| TrTable.TranslateOperationNew | 02-coreutils/tr/rust-rewrite/operation.rs:645-667 | The Rust construction yields the zip of string 1 with string 2 continued by its last byte; it fails exactly if string 2 alone is empty |
| TrTranslate.SetTwoLastsLongEnough | 02-coreutils/tr/original-c/tr.c:1814-1883 | For all accepted sets without truncation, complemented or not, the prepared set 2 is at least as long as set 1, despite discounts and padding |
| TrTranslate.PreparedAligns | 02-coreutils/tr/original-c/tr.c:1463-1484 | Accepted lists stay aligned after set 2 has been stretched and padded |
| TrTranslate.BuildTable | 02-coreutils/tr/original-c/tr.c:1442-1503 | Checking and building together: accepts exactly the acceptable sets and yields their table with all affirmations holding |
| TrTranslate.TablesAgree | 02-coreutils/tr/original-c/tr.c:1814-1883 | For all accepted sets whose case classes pair opposite cases (in particular all without classes in set 2), the C table equals the one the Rust code builds from the two expansions |
| TrTranslate.TruncatedTable | 02-coreutils/tr/original-c/tr.c:1814-1883 | With --truncate-set1, complemented or not, and case classes that pair opposite cases, the table is the plain zip up to the end of the shorter string; TrExact.ShortcutIsZipExactly has the exact condition |
| TrExact.ShortcutIsZipExactly | 02-coreutils/tr/original-c/tr.c:1840-1883 | For all accepted sets, with and without --truncate-set1: shortcut table and zip of the expansions are equal if and only if no byte that an earlier pair changes comes last as a later letter of a class paired with the same class |
| TrExact.LoopKeepsZipWrites | 02-coreutils/tr/original-c/tr.c:1850-1881 | The translating loop makes exactly those writes of the zip that are not later letters of a class paired with the same class |
| TrExact.ZipIsAllWrites | 02-coreutils/tr/rust-rewrite/operation.rs:645-667 | The zip of the two expansions is all writes along the two walks |
| TrExact.TablesEqual | 02-coreutils/tr/original-c/tr.c:1875-1880 | Dropping writes that map bytes to themselves changes a table exactly if one of them would have undone an earlier change |
| TrTranslate.SameCaseDiffers | 02-coreutils/tr/original-c/tr.c:1875-1880 | A concrete pair of sets that the checks accept, with a pair of equal case classes, for which shortcut table and zip differ: only the first letter is written |
| TrParse.Unquote | 02-coreutils/tr/original-c/tr.c:443-549 | Resolves escapes: the marked bytes it stores are those of the specification, for every string |
| TrParse.LookUpCharClass | 02-coreutils/tr/original-c/tr.c:555-563 | Finds the class of exactly that name, if there is one |
| TrParse.FindClosingDelim | 02-coreutils/tr/original-c/tr.c:759-771 | Finds the first unescaped delimiter followed by an unescaped bracket |
| TrParse.FindBracketedRepeat | 02-coreutils/tr/original-c/tr.c:783-829 | Reads a repeat construct with an octal or decimal count, which may stand behind blanks and a plus sign; an overflow or a stray character is an error |
| TrParse.CountInDecimal | 02-coreutils/tr/original-c/tr.c:806-813 | Every decimal count up to the maximum is read as what it is, also behind blanks and a plus sign |
| TrParse.StarDigitsClosebracket | 02-coreutils/tr/original-c/tr.c:836-846 | Tells whether a star, digits and a closing bracket follow |
| TrParse.BuildSpecList | 02-coreutils/tr/original-c/tr.c:860-996 | Appends the constructs of the whole string, and fails exactly if the specified parse fails |
| TrParse.ParseStr | 02-coreutils/tr/original-c/tr.c:1350-1357 | Both passes together give the specified list of constructs |
| TrParse.ParseInvertsWriting | 02-coreutils/tr/original-c/tr.c:860-996 | Any list of constructs, written with its literal bytes escaped, is parsed back to the same list |
| TrParse.UnquoteInvertsSource | 02-coreutils/tr/original-c/tr.c:443-549 | Source text made of three-digit octal escapes and plain syntax is unquoted to what it was made from |
| TrParse.ParseSource | 02-coreutils/tr/original-c/tr.c:443-996 | Every valid list of constructs has a source text that parses to it |
| TrParse.OctalRoundTrip | 02-coreutils/tr/original-c/tr.c:443-549 | Any byte string written as three-digit octal escapes parses to a list that expands to it: escaped bytes never act as brackets, dashes or stars |
| TrSpelling.UnquoteText | 02-coreutils/tr/original-c/tr.c:443-549 | In characters: a row of texts, each an unescaped character, a backslash with one of the letters abtnvfr, with one to three octal digits of a number below 256, or with any other character, or a final backslash, is unquoted to what the texts stand for |
| TrSpelling.UnquotedIsDenoted | 02-coreutils/tr/original-c/tr.c:443-549 | ... and every specification is such a row, so that is all there is to unquoting |
| TrSpelling.CountExactly | 02-coreutils/tr/original-c/tr.c:783-829 | A repeat count is read as n if and only if it is an octal numeral behind a zero or a decimal one behind blanks and perhaps a plus sign, with the value n, below the largest machine word |
| TrSpelling.ParseIsSpelling | 02-coreutils/tr/original-c/tr.c:860-996 | For every string of escaped and plain bytes and every list: the list is parsed if and only if it is valid and the bytes spell its constructs one after the other in the documented syntax, where a literal byte may be escaped or plain and a plain one must be no syntax where it stands |
| TrLaws.ClassesInCharacters | 02-coreutils/tr/original-c/tr.c:378-440 | Which bytes belong to which class, in characters of the C locale |
| TrLaws.ConstructsExpand | 02-coreutils/tr/original-c/tr.c:1021-1138 | A range expands to its bytes ascending, a class to its members ascending, a repeat to its copies |
| TrLaws.ComplementAscends | 02-coreutils/tr/original-c/tr.c:1816-1839 | The complement of a set consists of all other bytes, ascending |
| Tr.Run | 02-coreutils/tr/original-c/tr.c:1768-1906 | A whole run from operands and input: parse, check, build, filter. The output, or the rejection, is a function of the operands and the whole input, whatever the reads and the buffer size |
| Tr.RunOne | 02-coreutils/tr/original-c/tr.c:1790-1807 | One operand: the input squeezed, or deleted from, by the set or its complement |
| Tr.RunDeleteSqueeze | 02-coreutils/tr/original-c/tr.c:1808-1813 | Two operands without translation: the input is deleted from by the first set, then squeezed by the second |
| Tr.RunTranslate | 02-coreutils/tr/original-c/tr.c:1814-1900 | Translation, and squeezing by the prepared set 2 if asked for |
| Tr.TranslationIsBytewise | 02-coreutils/tr/original-c/tr.c:1814-1900 | For accepted sets with opposite case pairs each input byte is replaced by its image: the last occurrence in string 1 decides, and string 2 is continued by its last byte |
| Tr.OctalOperands | 02-coreutils/tr/original-c/tr.c:1768-1906 | End to end: operands written in octal escapes translate every input by the two byte strings they were written from |
| TrLaws.OperandCount | 02-coreutils/tr/original-c/tr.c:1738-1765 | Which numbers of operands a run takes: one more than one if both or neither of deleting and squeezing are asked for, two at most, one for deleting alone |
| TrLaws.OneOperand | 02-coreutils/tr/original-c/tr.c:1790-1807 | With one operand the output is the bytes of the input outside the set or its complement, or the bytes that do not repeat a member of it; rejected exactly if set 1 has an indefinite repeat or is too long |
| TrLaws.DeleteAndSqueeze | 02-coreutils/tr/original-c/tr.c:1808-1813 | With both, what deleting leaves is squeezed by the second set: position by position, in terms of the two expansions |
| TrLaws.TranslateAndSqueeze | 02-coreutils/tr/original-c/tr.c:1814-1900 | Translating with -s writes what translating without it writes, less the repeats of members of set 2 |
| TrLaws.SmallToCapital | 02-coreutils/tr/original-c/tr.c:1768-1906 | From the operand text on: `tr a-z A-Z` writes every input with its small letters made capital |
| TrLaws.LowerToUpper | 02-coreutils/tr/original-c/tr.c:1768-1906 | ... and so does `tr [:lower:] [:upper:]` |
| Cat.CatAll | 02-coreutils/cat/original-c/cat.c:744-823 | For every option set and every cutting into files and reads, the output is that of one transducer run, and of the line-by-line description, on the concatenated input; the output buffer of every file, each file with its own block size, stays within its bound for the last number of the run |
| Cat.CatFiles | 02-coreutils/cat/original-c/cat.c:681-817 | Files in turn, each with buffers for its own block size, continue one transducer run; no buffer is filled beyond its bound |
| Cat.Program.CatFile | 02-coreutils/cat/original-c/cat.c:225-511 | One file, from the state that survives files: written bytes and new state are those of the transducer, and the position in the output buffer of this file never exceeds the bound for the numbers reached |
| Cat.Program.Turn | 02-coreutils/cat/original-c/cat.c:259-402 | One newline, real or sentinel, with what follows it: the sentinel never shows, progress is made, and the growth of the output is bounded |
| Cat.Program.RealNewline | 02-coreutils/cat/original-c/cat.c:350-399 | A real newline: limit at two, squeezing, numbering of blank lines, and the end mark including a carriage return pending from the buffer before |
| Cat.Program.BeginText | 02-coreutils/cat/original-c/cat.c:404-418 | The first byte of a text: the pending carriage return is flushed before the line number |
| Cat.Program.ScanQuoted | 02-coreutils/cat/original-c/cat.c:426-475 | The quoting loop displays bytes up to the next newline, sentinel or not |
| Cat.Program.ScanPlain | 02-coreutils/cat/original-c/cat.c:476-509 | The plain loop decides CR LF with one byte of look-ahead, across the end of the buffer by the pending flag |
| Cat.Program.QuoteByte | 02-coreutils/cat/original-c/cat.c:430-471 | Writes the display of a byte, which CatLaws.DisplayIsReadBack reads back |
| Cat.Program.FlushBlocks | 02-coreutils/cat/original-c/cat.c:263-283 | Writing whole blocks and moving the remainder keeps what has been written plus what is buffered |
| Cat.Program.ReadBlock | 02-coreutils/cat/original-c/cat.c:325-348 | A read puts the sentinel newline behind the bytes read and nowhere else |
| Cat.SimpleCat | 02-coreutils/cat/original-c/cat.c:169-195 | Without formatting options the input is copied |
| Cat.PlainRunCopies | 02-coreutils/cat/original-c/cat.c:747-767 | ... which is what the transducer does without options |
| Cat.EarlyCr | 02-coreutils/cat/original-c/cat.c:488-497 | Showing ^M as soon as the newline is seen equals waiting for it |
| Cat.LoneCr | 02-coreutils/cat/original-c/cat.c:488-499 | A carriage return not followed by a newline is written as itself |
| Cat.BufferSuffices | 02-coreutils/cat/original-c/cat.c:770-799 | The bound proved for any run is within the allocated 4 * insize + outsize + 19 if and only if line numbers have at most ten digits |
| Cat.AlmostBlock | 02-coreutils/cat/original-c/cat.c:263-283 | For those options, every outsize and every number of lines there is an input whose output leaves outsize - 1 bytes over when whole blocks of it are written, at the start of a line |
| Cat.BoundIsTight | 02-coreutils/cat/original-c/cat.c:770-799 | For the options that need most room, every insize above 1 and every number of eleven or more digits there is an input that ends with that number and whose last read does not fit into the allocated size on top of what whole blocks leave over: ten digits are the exact limit in the worst case |
| CatSpec.TransducerIsLines | 02-coreutils/cat/original-c/cat.c:225-511 | The byte transducer writes, line by line: number, displayed text, end mark; blank lines numbered and squeezed by the run of newlines before them |
| CatSpec.RunIsVisible | 02-coreutils/cat/original-c/cat.c:426-475 | With -v every run, on any input and from any state, writes nothing but printable characters, newlines, and tabs that are not converted or stand behind a number |
| CatSpec.RunAppend | 02-coreutils/cat/original-c/cat.c:233-238 | Running on two inputs one after the other, the state carried over, is running on their concatenation |
| CatSpec.RunWaiting | 02-coreutils/cat/original-c/cat.c:488-497 | A carriage return that waits is shown as ^M before a newline and as itself otherwise, in any position |
| CatCounter.LineCounter.NextLineNum | 02-coreutils/cat/original-c/cat.c:145-163 | After n increments the buffer shows n right-justified; the print position moves left from the seventh digit on |
| CatCounter.LineCounter.Widen | 02-coreutils/cat/original-c/cat.c:157-162 | After a carry through all digits a one is put in front, or the overflow mark into a full buffer, and the print position follows the first digit |
| CatCounter.LineCounter.AddOne | 02-coreutils/cat/original-c/cat.c:148-156 | The carry runs through trailing nines and stops at the first other digit |
| CatCounter.LabelMeaning | 02-coreutils/cat/original-c/cat.c:55-74 | A label is the number right-justified to at least six columns and a tab: its decimal digits while it is below 10^18, and at most eleven bytes in all exactly while it has at most ten digits |
| CatCounter.FieldStep | 02-coreutils/cat/original-c/cat.c:145-163 | Adding one digit by digit gives the field of the next number: carried, widened, or with the overflow mark |
| Decimal.DigitsRoundTrip | 02-coreutils/cat/original-c/cat.c:145-163 | Reading decimal digits back gives the number |
| Decimal.DigitsLength | 02-coreutils/cat/original-c/cat.c:55-59 | A number has at most k digits exactly if it is below the k-th power of ten |
| CatLaws.DisplayIsReadBack | 02-coreutils/cat/original-c/cat.c:430-481 | The notation can be read back by a decoder of its own (M- adds 128, ^? is 127, ^x is x - 64): with -v every byte comes back from its display, which is printable, and only a tab may be left as it is |
| CatLaws.DigitsInCharacters | 02-coreutils/cat/original-c/cat.c:55-74 | Digits are the characters 0 to 9 |
| CatLaws.LabelLayout | 02-coreutils/cat/original-c/cat.c:55-74 | Below 10^18: spaces, then the digits right-justified in at least six columns, then a tab |
| CatLaws.LabelOverflows | 02-coreutils/cat/original-c/cat.c:157-160 | From 10^18 on: the character >, the last 17 digits and a tab |
| CatLaws.OutputIsPieces | 02-coreutils/cat/original-c/cat.c:225-511 | For every input and option set the output is what each byte adds by its neighbours alone: nothing for a blank line behind a blank line with -s; the number of lines numbered so far where a numbered line begins; then $ and newline for a newline with -E, ^M for a carriage return just before it without -v, and the display of any other byte |
| GetoptExchange.BlockSwap | 04-fish-shell/original-cpp/wgetopt/wgetopt.cpp:68-111 | For every bottom <= middle <= top the loop of block swaps terminates, leaves everything outside untouched, and yields the left rotation by middle - bottom |
| GetoptExchange.SwapStretches | 04-fish-shell/original-cpp/wgetopt/wgetopt.cpp:84-103 | Swapping element by element exchanges two stretches of equal length |
| GetoptExchange.RotatedIsExchange | 04-fish-shell/rust-rewrite/wgetopt/wgetopt.rs:189-207 | The rotation makes the two neighbouring stretches change places, each in its order |
| Getopt.WGetopter.Exchange | 04-fish-shell/rust-rewrite/wgetopt/wgetopt.rs:196-207 | Rotates the skipped non-options behind the options scanned since, and moves both indices along |
| Getopt.WGetopter.Initialize | 04-fish-shell/rust-rewrite/wgetopt/wgetopt.rs:210-237 | Strips the ordering and colon markers and starts behind the program name |
| Getopt.WGetopter.Rearrange | 04-fish-shell/rust-rewrite/wgetopt/wgetopt.rs:243-251 | Permuting leaves consumed elements, skipped non-options and the rest the same, each in order |
| Getopt.WGetopter.SkipNonOptions | 04-fish-shell/rust-rewrite/wgetopt/wgetopt.rs:253-262 | Skipping non-options keeps the plan of the whole run and stops at an option or the end |
| Getopt.WGetopter.EndOfOptions | 04-fish-shell/rust-rewrite/wgetopt/wgetopt.rs:265-279 | A `--` is consumed, all behind it are non-options in order |
| Getopt.WGetopter.NextArgv | 04-fish-shell/rust-rewrite/wgetopt/wgetopt.rs:240-314 | Advances to the next element without changing what the run will find; at the end the array holds the program name, the consumed elements and the others, with the index at the first of the others |
| Getopt.WGetopter.HandleShortOpt | 04-fish-shell/rust-rewrite/wgetopt/wgetopt.rs:317-375 | A short option: flag, optional or required argument, or error, by the text left and the next element; indices stay in order also after an error |
| Getopt.WGetopter.UpdateLongOpt | 04-fish-shell/rust-rewrite/wgetopt/wgetopt.rs:377-407 | A long option with its argument behind `=` or in the next element, or the error for a superfluous or missing one |
| Getopt.WGetopter.FindMatchingLongOpt | 04-fish-shell/rust-rewrite/wgetopt/wgetopt.rs:410-449 | Finds the one right answer: an exact match, the only abbreviation, ambiguity, or none |
| Getopt.WGetopter.HandleLongOpt | 04-fish-shell/rust-rewrite/wgetopt/wgetopt.rs:453-490 | A long option, its error, or the fallback to a short one |
| Getopt.WGetopter.NextOpt | 04-fish-shell/rust-rewrite/wgetopt/wgetopt.rs:503-539 | Each call takes exactly one event off the plan of the run; errors are the planned ones, and up to the first error 1 <= first_nonopt <= last_nonopt <= wopt_index <= argc |
| Getopt.WGetopter.ScanAll | 04-fish-shell/rust-rewrite/wgetopt/wgetopt.rs:240-539 | A whole run terminates and finds the options of the one-pass specification; without an error argv ends as argv[0], consumed elements in order, others in order, with the index at the first of the others |
| Getopt.ScanTwice | 04-fish-shell/rust-rewrite/wgetopt/wgetopt.rs:240-539 | After an error-free run, starting again on the permuted argv is error-free, returns the same options and arguments, leaves argv unchanged and stops at the same index |
| GetoptSpec.MatchIsUnique | 04-fish-shell/rust-rewrite/wgetopt/wgetopt.rs:88-101 | There is exactly one answer to what a long name stands for |
| GetoptSpec.ScanPartitions | 04-fish-shell/rust-rewrite/wgetopt/wgetopt.rs:189-314 | Consumed elements and others are a stable partition of the arguments |
| GetoptSpec.OthersAreInert | 04-fish-shell/rust-rewrite/wgetopt/wgetopt.rs:240-314 | After an error-free scan without `--` the others contain nothing that a scan would take |
| GetoptSpec.Rescan | 04-fish-shell/rust-rewrite/wgetopt/wgetopt.rs:240-539 | Whatever inert elements follow the consumed ones, a scan of them finds the same options |
| GetoptSpec.ScanIsStable | 04-fish-shell/rust-rewrite/wgetopt/wgetopt.rs:240-539 | A scan of consumed elements followed by the others has the same outcome |
| GetoptSpec.CallIsLocal | 04-fish-shell/rust-rewrite/wgetopt/wgetopt.rs:317-490 | Decoding looks at no element beyond those it finishes |
| GetoptLaws.Markers | 04-fish-shell/rust-rewrite/wgetopt/wgetopt.rs:219-234 | The characters in front of the option string: - and + choose the order, : the answer to a missing argument |
| GetoptLaws.ShortByKind | 04-fish-shell/rust-rewrite/wgetopt/wgetopt.rs:317-375 | What is found for a short option is decided by its first place in the option string and the colons behind it |
| GetoptLaws.NamesExactly | 04-fish-shell/rust-rewrite/wgetopt/wgetopt.rs:410-449 | A name stands for an option exactly if the name of the option begins with it and, wherever another name does too, equals it and is the first to |
| GetoptLaws.ItemIsFound | 04-fish-shell/rust-rewrite/wgetopt/wgetopt.rs:240-539 | Each item written in front of any arguments is found, with exactly its argument, and the rest is scanned as if it stood alone |
| GetoptLaws.ScanIsLine | 04-fish-shell/rust-rewrite/wgetopt/wgetopt.rs:240-539 | For all arguments: they are scanned without error if and only if they consist of legal items (operands; clusters of flags with perhaps one option behind, its argument joined or apart; long options by full name or unique abbreviation, their argument behind = or apart) and a legal end, and events, consumed elements and others are what those stand for |
| GetoptLaws.JoinedIsApart | 04-fish-shell/rust-rewrite/wgetopt/wgetopt.rs:351-371 | An option that requires an argument finds the same one joined to it and in the next element, with the same events after it, unless the option is - itself: then -- ends the options |
| GetoptLaws.EqualsIsNext | 04-fish-shell/rust-rewrite/wgetopt/wgetopt.rs:377-407 | The same for a long option, under any name that stands for it: behind = or in the next element |
| GetoptLaws.ShortErrors | 04-fish-shell/rust-rewrite/wgetopt/wgetopt.rs:339-371 | Behind any flags, an unknown character is the error ?, a missing argument : or ? as the option string asks |
| GetoptLaws.LongErrors | 04-fish-shell/rust-rewrite/wgetopt/wgetopt.rs:377-490 | An unknown or ambiguous long name, a superfluous argument, and a missing one are errors |
| RedisDb.Db.Set | 03-mini-redis/original-rust/src/db.rs:158-219 | Replaces entry and index pair of the key; notifies exactly if the new deadline is earlier than every tracked one |
| RedisDb.Db.Get | 03-mini-redis/original-rust/src/db.rs:145-152 | Returns the data of the key, if any |
| RedisDb.Db.PurgeExpiredKeys | 03-mini-redis/original-rust/src/db.rs:290-322 | Drops exactly the keys due by now and returns the earliest remaining deadline; does nothing once shut down |
| RedisDb.Db.NextExpiration | 03-mini-redis/original-rust/src/db.rs:333-340 | The first pair of the index is the earliest deadline of any entry |
| RedisDb.Db.ShutdownPurgeTask | 03-mini-redis/original-rust/src/db.rs:273-284 | Sets the flag and leaves the keys |
| RedisDb.Db.Execute | 03-mini-redis/original-rust/src/db.rs:120-340 | Any sequence of operations: the index always holds exactly the deadlines of the entries, every answer is that of a store without an index, and is explained by the history alone: a get answers the data of the set that stands or nothing, a set notifies exactly if its end is before the ends of all sets that stand, a purge answers the first end left |
| RedisDb.IndexWith | 03-mini-redis/original-rust/src/db.rs:183-207 | Removing the old pair before inserting the new one keeps the index exact, also when both are equal |
| RedisDb.EarliestIsUnique | 03-mini-redis/original-rust/src/db.rs:333-340 | The earliest deadline is determined by the entries |
| RedisDb.HistoryOfKey | 03-mini-redis/original-rust/src/db.rs:145-322 | For every history: a key has the value of its last set unless a purge came at or after the deadline of that set, and no value otherwise |
| RedisDb.ReplyExplained | 03-mini-redis/original-rust/src/db.rs:145-322 | The answers by history, deadlines being instants of setting plus durations |
| RedisDb.ShutdownStays | 03-mini-redis/original-rust/src/db.rs:273-284 | A store is shut down exactly if a shutdown is in its history |
| RedisPurge.NoLostWakeUp | 03-mini-redis/original-rust/src/db.rs:346-369 | In every run of setters, shutdown, notifications, time and the task: when the task waits with no permit stored and no notify in flight, shutdown is unset and its deadline is no later than every tracked expiry, or nothing expires |
| RedisPurge.InvKept | 03-mini-redis/original-rust/src/db.rs:158-219 | Every step of every party keeps the invariant behind that |
| RedisPurge.SetCovered | 03-mini-redis/original-rust/src/db.rs:168-181 | A set that does not notify sets no deadline before the one the task waits for, even if it removes the earliest |
| RedisPurge.TaskGetsBlocked | 03-mini-redis/original-rust/src/db.rs:346-369 | The task takes at most six steps by itself before it has to wait |
| RedisPurge.TaskCatchesUp | 03-mini-redis/original-rust/src/db.rs:346-369 | Left alone with all notifications delivered, the task then has exited if shut down, and otherwise has dropped exactly the keys due and sleeps |
| RedisPurge.BlockedIsDone | 03-mini-redis/original-rust/src/db.rs:346-369 | A task that cannot move has exited exactly if shut down, and sleeps through no key that is due |
| RedisPurge.StoreOfRun | 03-mini-redis/original-rust/src/db.rs:158-322 | The store of an interleaved run is what its operations make of it in their order |
| RedisPurge.KeysOfRun | 03-mini-redis/original-rust/src/db.rs:158-322 | In every run no key disappears before its deadline, and every key keeps the value last set until then |
| RedisPurge.WakingOfRun | 03-mini-redis/original-rust/src/db.rs:158-369 | In every run, by its history alone: a set notifies exactly if it ends before all sets that stand, and after a purge the task waits for the first end left and nothing else |
| RespSpec.CheckStable | 03-mini-redis/original-rust/src/frame.rs:66-102 | An answer of check other than Incomplete stays the same when bytes are appended, and a frame found within a prefix is found in the prefix |
| RespSpec.ParseStable | 03-mini-redis/original-rust/src/frame.rs:106-168 | The same for parse |
| RespSpec.LineStable | 03-mini-redis/original-rust/src/frame.rs:250-267 | The same for lines |
| RespSpec.ParsedIsChecked | 03-mini-redis/original-rust/src/frame.rs:106-168 | A successful parse ends where check did |
| RespSpec.OnlyNullLacksBytes | 03-mini-redis/original-rust/src/frame.rs:130-138 | After check was satisfied, parse lacks bytes only inside a null whose line does not end |
| RespSpec.ReadFromPrefix | 03-mini-redis/original-rust/src/connection.rs:87-146 | What is read from a buffer whose check gives an answer is what is read from the whole stream |
| Resp.Cursor.GetLine | 03-mini-redis/original-rust/src/frame.rs:250-267 | Finds the first CR LF from the cursor on and moves behind it |
| Resp.Cursor.GetDecimal | 03-mini-redis/original-rust/src/frame.rs:241-247 | The number of the line, or a malformed message |
| Resp.Cursor.Check | 03-mini-redis/original-rust/src/frame.rs:66-102 | Moves the cursor to the end of the frame, elements of arrays included, or says that bytes are missing or wrong |
| Resp.Cursor.CheckMany | 03-mini-redis/original-rust/src/frame.rs:92-100 | The loop over array elements checks as many frames as announced |
| Resp.Cursor.Parse | 03-mini-redis/original-rust/src/frame.rs:106-168 | Reads the frame that check has found; the branch left unimplemented is never reached |
| Resp.Cursor.ParseBulk | 03-mini-redis/original-rust/src/frame.rs:130-155 | Null only as `-1`, otherwise exactly the announced number of bytes |
| Resp.Cursor.ParseMany | 03-mini-redis/original-rust/src/frame.rs:156-165 | The loop collects the elements in order |
| Resp.Cursor.Skip | 03-mini-redis/original-rust/src/frame.rs:231-238 | Moves by n bytes or reports that they are not there |
| Resp.Connection.ParseFrame | 03-mini-redis/original-rust/src/connection.rs:87-146 | Takes a complete frame off the buffer, leaves an incomplete one alone, and treats every failure of parse as an error |
| Resp.Connection.ReadFrame | 03-mini-redis/original-rust/src/connection.rs:56-80 | The next frame, the clean end or the error is a function of the stream alone, however it is cut into reads |
| Resp.Connection.ReadAll | 03-mini-redis/original-rust/src/connection.rs:56-80 | Repeated reading yields the same frames and the same kind of ending for every cutting, malformed streams included |
| Resp.Connection.WriteDecimal | 03-mini-redis/original-rust/src/connection.rs:222-235 | Every u64 fits the buffer of 20 bytes and is written in decimal with CR LF |
| Resp.Connection.WriteValue | 03-mini-redis/original-rust/src/connection.rs:184-219 | Appends the encoding of a literal |
| Resp.Connection.WriteFrame | 03-mini-redis/original-rust/src/connection.rs:156-181 | Appends the encoding of a literal or of an array of literals |
| RespEncode.U64HasTwentyDigits | 03-mini-redis/original-rust/src/connection.rs:222-235 | No u64 has more than twenty decimal digits |
| RespRoundTrip.RoundTrip | 03-mini-redis/original-rust/src/connection.rs:156-235 | Parsing an encoded frame, whatever follows, gives the frame and consumes exactly its encoding if and only if no simple or error string in it contains CR LF |
| RespRoundTrip.PrefixIsIncomplete | 03-mini-redis/original-rust/src/frame.rs:66-102 | Every proper prefix of an encoded frame makes check answer Incomplete |
| RespRoundTrip.StreamRoundTrip | 03-mini-redis/original-rust/src/connection.rs:56-235 | A stream of encoded frames is read as exactly those frames and a clean end |
| RespRoundTrip.LineRoundTrip | 03-mini-redis/original-rust/src/frame.rs:250-267 | A text and CR LF is read back as a line if it contains no CR LF, and as a shorter line otherwise |
| RespRoundTrip.LeadingDigitsReadDecimals | 03-mini-redis/original-rust/src/frame.rs:241-247 | Reading the leading digits of a line reads every u64 in decimal as what it is |
| RespRoundTrip.EncodeFirst | 03-mini-redis/original-rust/src/connection.rs:156-181 | The items of an array are written in their order |
| RespLaws.WireFormat | 03-mini-redis/original-rust/src/connection.rs:184-235 | In characters: what is written for each kind of literal frame |
| RespLaws.ArrayFormat | 03-mini-redis/original-rust/src/connection.rs:156-181 | ... and for an array: a star, the length, CR LF, the items |
| RespLaws.FirstAndLast | 03-mini-redis/original-rust/src/connection.rs:156-235 | Every encoding begins with the character of its kind and ends with CR LF |
| RespLaws.ParseIsDenoting | 03-mini-redis/original-rust/src/frame.rs:106-168 | In characters, for all bytes: a frame is read from p to q if and only if the bytes there denote it, arrays item by item |
| RespLaws.ReadOneIsFrame | 03-mini-redis/original-rust/src/connection.rs:56-80 | A stream yields a frame and a rest if and only if it begins with bytes that denote the frame, and is cleanly at its end exactly if it is empty |
| RespLaws.Malformations | 03-mini-redis/original-rust/src/frame.rs:66-102 | A byte that is none of + - : $ *, or a length or number that is none, is malformed for check and for parse |
| Hexyl.Printer.PrintAll | 01-hexyl/original-rust/src/lib.rs:676-852 | For every input, panel count and cutting into reads: the rows are exactly those of the description (a row unless it repeats a uniform row, one star per run of repetitions, a bare offset after a squeezed end) |
| Hexyl.Printer.PrintLine | 01-hexyl/original-rust/src/lib.rs:754-804 | The four-state squeezer decides row, star or nothing for a whole line as the neighbouring rows demand |
| Hexyl.Printer.CheckSqueeze | 01-hexyl/original-rust/src/lib.rs:754-769 | The line repeats the row before exactly if all its machine words equal the remembered one |
| Hexyl.Printer.StartSqueeze | 01-hexyl/original-rust/src/lib.rs:792-804 | Squeezing is armed exactly by a uniform line |
| Hexyl.Printer.SameWords | 01-hexyl/original-rust/src/lib.rs:756-763 | Comparing machine words, of either byte order and of 4 or 8 bytes, with a repeated byte is comparing all bytes |
| Hexyl.Printer.FillLine | 01-hexyl/original-rust/src/lib.rs:713-752 | Reads are joined until the line is full or the input ends |
| Hexyl.Printer.PrintLines | 01-hexyl/original-rust/src/lib.rs:713-805 | Whole lines are dealt with in order; what is left over is shown if it is a partial line or the end was squeezed |
| Hexyl.Printer.PrintEnding | 01-hexyl/original-rust/src/lib.rs:807-845 | The special ending: the notice for no input, the partial line, or the bare offset |
| Hexyl.DumpIsLossless | 01-hexyl/original-rust/src/lib.rs:713-845 | Filling every star with bytes like those before it up to the next printed offset gives back exactly the input |
| HexylLaws.DumpIsCanonical | 01-hexyl/original-rust/src/lib.rs:713-845 | Said of the rows alone: only whole rows are followed; offsets go on row by row; a star stands behind a uniform row, only when squeezing, never last, and the row behind it differs or is cut short; no row repeats a uniform one; a bare offset stands only behind a star |
| Hexyl.RepeatedLittleEndian | 01-hexyl/original-rust/src/lib.rs:792-800 | A little-endian word equals a byte times 01..01 exactly if all its bytes are that byte |
| Hexyl.RepeatedBigEndian | 01-hexyl/original-rust/src/lib.rs:792-800 | ... and so does a big-endian word |
| Hexyl.MaxWordOver255 | 01-hexyl/original-rust/src/lib.rs:795 | The largest word divided by 255 is 01..01 |

## Left out

- TrParse.FindBracketedRepeat: xstrtoumax is not part of the repository; it is read as strtoumax of the C standard without a minus sign, so blanks and one plus sign may stand before the digits.
- TrTranslate.TablesAgree: needs opposite case pairs, because the code writes only the first letter of a class paired with the same class (TrTranslate.SameCaseDiffers).
- TrTable.TableLoopIsZip: needs opposite case pairs for the same reason; TrExact.ShortcutIsZipExactly has the exact condition.
- TrTranslate.TruncatedTable: needs opposite case pairs as well; TrExact.ShortcutIsZipExactly covers both.
- Tr.TranslationIsBytewise: stated for runs without --truncate-set1 and without squeezing; `TrTranslate.TruncatedTable` and `Tr.Run` cover those.
- Cat.Program.CatFile: the output buffer is a growing sequence with its highest fill recorded, not memory of the allocated size, and the terminating null that stpcpy writes is not stored.
- Cat.BoundIsTight: speaks of the output that a read adds and of what writing whole blocks leaves over, which is how the loop writes while more input is reported pending; the loop itself is bounded from above only.
- Cat.CatAll: read and write errors, files that cannot be opened, and the copying shortcuts of the operating system.
- Getopt.WGetopter.ScanAll: a run ends at the first error, because after an unknown option inside a cluster the code moves on but keeps the rest of the text; argv is never empty.
- GetoptExchange.BlockSwap: the C++ scanner around the exchange is not modelled, only the exchange.
- RedisDb.Db.Set: the publish and subscribe channels kept under the same lock.
- RedisDb.Db.PurgeExpiredKeys: among pairs of the same instant any may come first, where the program orders them by key.
- RedisPurge.NoLostWakeUp: Tokio's Notify is one stored permit, and a wake-up by timer or by permit is any step that is enabled.
- Resp.Cursor.GetDecimal: the atoi crate and the UTF-8 check are parameters; the round trip asks of the former only that it reads decimals, as reading the leading digits does (signs are not part of this model).
- Resp.Cursor.Check: lengths are natural numbers, so adding 2 to a length near the word limit does not wrap or fail.
- Resp.Cursor.ParseMany: allocation of the announced number of elements.
- Resp.Connection.WriteFrame: nested arrays, which the program declares unreachable, are excluded from its callers; reading them is modelled.
- Hexyl.Printer.PrintAll: borders, colours, character panel, digits per byte, byte order of groups, the include style, and hiding the offsets.
- Hexyl.Printer.PrintRow: offsets are natural numbers and do not wrap at 64 bits.
- `tr` in locales other than C, and the messages of its diagnostics: a rejection is one answer.
- The Rust and C++ rewrites of `tr` and `cat` as a whole: only the squeezing and table forms of the Rust `tr` are compared.
- The timers and sockets of the C++ mini-redis port.
- `echo`, command-line set-up, help texts, completion and configuration: they would add only easy members.
