# SCPI library: error texts, streaming parser, printers and status registers

This project models the SCPI instrument-control library that the application runs on bare metal, the line reader that
feeds it, and the word-aligned copy to and from memory-mapped registers, and proves what they keep over all inputs and
over whole runs.

- **Error texts and error queue** (`InfoHeap`, `Fifo`, `ErrorQueue`, `Errors`). Texts live in a ring of bytes whose only
  bookkeeping is that free bytes are zero. `InfoHeap` proves the ring; `Errors` couples it to the ring buffer of error
  entries, step by step equal to the abstract queue of `ErrorQueue`, where the run invariants are proved.
- **Status registers** (`Status`, `StatusRuns`). The cascade of register writes, the summary and service bits over all
  runs, and the latching of events.
- **Commands** (`Patterns`, `PatternLanguage`, `CommandMatch`). The headers a pattern stands for, and when the greedy
  matcher decides that language.
- **Streaming parser** (`Lexer`, `Scanner`, `Spans`, `Extension`, `Messages`, `LineParser`, `HeaderPaths`, `LineEndings`,
  `Chunks`, `Framing`, `Parser`, `Limits`). Recognisers, units, messages, composition of headers in place, input in
  chunks. `HeaderPaths` decides exactly when composing headers in place keeps to the header-path rule, `Framing` and
  `Chunks` exactly when a stream may be cut anywhere. `Limits` holds the inputs on which the code does not do what one
  would expect. `Reports` leads what the parser reports into the error queue.
- **What a controller writes** (`Grammar`, `Items`, `Syntax`, `Conversations`, `IntParameters`, `ItemReading`). The texts
  of IEEE 488.2 as data: numbers, units, words, strings, blocks, expressions, parameters, headers, units and messages.
  Each is recognised as exactly what it was written as, and whole conversations are executed as they were written.
- **Parameters** (`Reader`, `Cutting`, `Shifting`, `Parameters`). The reader lexes the data of a unit a second time, from
  a buffer that may have been cut short; when it finds what the scanner found is decided exactly.
- **Printers and what reads them back** (`IntegerText`, `Quoting`, `Results`, `Numbers`, `Joining`, `IntArrays`, `Texts`,
  `Blocks`, `Expressions`, `ListErrors`). `ErrorReports` reads the answer to `SYSTem:ERRor?` back.
- **Way in** (`LineDecoder`, `EndToEnd`). The escaping line reader, and a block on its way through all of it to the data
  command of the application's table.
- **Register copy** (`Mmio`). `Base`, `Arith` and `ErrorCodes` hold shared definitions and facts.

## How it is modelled

- A byte is a `char`, a C string a `string`, a pointer an offset into one buffer. The C locale and little-endian byte
  order are fixed; `long` has 32 bits.
- Code that works on a pointer into a buffer is a class over that buffer or array; each method is proved equal to a
  function of the old state, and the theorems are about those functions. Registers are sets of bit numbers below 16.
- The configuration is the one with device-dependent error texts and no memory allocation (`utils.c:767`); the error
  list is the short one, and there are no user-defined registers.
- The callback that writes output appends to a sequence. A command callback is an event with the header and the program
  data it would read; what it does with them is not modelled.
- A newline character is a carriage return or a line feed. A stream is steady when no message of it has a beginning in
  which a message ends earlier (a line feed that a cut takes off its carriage return does not count), and plain when no
  string token found in it holds a newline.
- For the header-path rule a `Walk` reads the line on an untouched copy; it knows where the previous header stands and
  whether the bytes of its path have been overwritten there.
- In `Scanner`, `ParseData` and `ScanUnit` are chosen as whatever their definitions say at a place that a proof asks for;
  `ParseDataIs` and `ScanUnitIs` give those definitions. In the same way the readers of `Reader`, `IntArrays` and
  `Expressions` are functions that a predicate ties to the recognisers.

## What the proofs found

- The queue bit is set exactly when the queue is not empty only if the queue has room for at least one error.
- The greedy matcher goes wrong exactly when an optional keyword shares a spelling with the next mandatory one; two
  optional keywords may share one.
- The blanks that the scanner takes behind an unsuffixed decimal without counting them cut the program data short. The
  reader still agrees exactly when as many blanks end the last parameter.
- After an undefined header the previous header is not refreshed although its bytes may have been overwritten. With `h`
  the place of the undefined header, `i` the length of the path moved in front of it and `prev` the place of the previous
  header, the bytes from offset `m = h - i - prev` on are overlaid with the header's first bytes. The path survives
  exactly when the overlaid path bytes are the same and no colon lands behind them: always for `m` from the header's
  length on, exactly for `m >= i` when the path has one colon. A line is resolved as the rule says exactly when no header
  continues a path that has not survived, and then all its events are right exactly when no undefined header that takes
  over a path has a blank in front of it, because the path is moved over the text that is reported.
- `SCPI_Input` takes the newline of a string that is not yet closed for a message end. Every way to cut a stream into
  chunks with bytes that fit the buffer hands the same lines to `SCPI_Parse` exactly when the stream is steady, and it is
  steady exactly when no cut breaks a string behind a newline that, with the inside of the string read as units, ends a
  message. A plain stream is steady, so block payloads and quotes do no harm. Streams whose events report no invalid character cause the same events in every cut exactly when
  they are steady; a message that is wrong itself can hide that it ended too early.
- Writing an enable register leaves the summary bit as it was, so the summary bit follows the enable register of the
  event's last change; it is right after such a write exactly when that does not change whether an enabled event is
  pending.
- The row of the error table for positive codes is compared with the bounds the wrong way round and never matches.
- A text is recovered by a buffer of its encoded length less one; a text that ends in a quote needs one byte fewer.
- An integer parameter is read up to its decimal point: `1e3` gives 1, `1.9` gives 1, and `.5` gives no value and no
  error. Behind a base prefix a value above 2^32 - 1 counts as 2^32 - 1, which is read as -1.
- Blanks behind a header without parameters count as minus one parameters.

## Model

| member | source | states |
|---|---|---|
| `InfoHeap.Heap.constructor` | sw/riscv/apps/tflite_scpi/libscpi/utils.c:775-779 | an initialised heap of any size, zero included, is valid and holds no text |
| `InfoHeap.Heap.StrNDup` | sw/riscv/apps/tflite_scpi/libscpi/utils.c:792-832 | a text is accepted exactly when it is not empty and fits with its NUL into the free bytes; then it becomes the newest live text at the returned address, no other text moves, and the layout invariant holds: live texts contiguous round the ring up to `wr`, `count` plus their sizes equals the size, all other bytes zero, `wr == 0` when no text is live |
| `InfoHeap.Heap.WriteRound` | sw/riscv/apps/tflite_scpi/libscpi/utils.c:809-830 | at most two copies write exactly the text and a NUL round the end of the ring and no other byte |
| `InfoHeap.Heap.GetParts` | sw/riscv/apps/tflite_scpi/libscpi/utils.c:843-864 | for the address of a live text the two parts put together are that text, the second part present exactly when the text runs over the end |
| `InfoHeap.Heap.Free` | sw/riscv/apps/tflite_scpi/libscpi/utils.c:873-902 | freeing the oldest text, or the newest one on rollback, removes exactly that text from the live list, zeroes exactly its bytes and keeps the invariant; `wr` returns to 0 with the last one |
| `InfoHeap.PartsAreText` | sw/riscv/apps/tflite_scpi/libscpi/utils.c:852-862 | measuring up to the first NUL, and again from cell 0 after running into the end, finds the whole stored text |
| `InfoHeap.LayoutPush` | sw/riscv/apps/tflite_scpi/libscpi/utils.c:813-830 | writing a text and its NUL into the first free cells gives the layout of the longer list of texts |
| `InfoHeap.ErasedLayout` | sw/riscv/apps/tflite_scpi/libscpi/utils.c:873-902 | zeroing the cells of the oldest or the newest text gives the layout of the shorter list |
| `Fifo.Fifo.Add` | sw/riscv/apps/tflite_scpi/libscpi/fifo.c:78-91 | appends at the newest end exactly when there is room, and changes nothing otherwise |
| `Fifo.Fifo.Remove` | sw/riscv/apps/tflite_scpi/libscpi/fifo.c:99-113 | takes out the oldest element, and reports an empty buffer |
| `Fifo.Fifo.RemoveLast` | sw/riscv/apps/tflite_scpi/libscpi/fifo.c:121-135 | takes out the newest element, the others staying in order |
| `Fifo.Fifo.IsEmpty` | sw/riscv/apps/tflite_scpi/libscpi/fifo.c:58-60 | true exactly when the buffer holds nothing |
| `Fifo.Fifo.IsFull` | sw/riscv/apps/tflite_scpi/libscpi/fifo.c:67-69 | true exactly when the buffer holds as many elements as the array has cells |
| `Errors.ErrorContext.AddInternal` | sw/riscv/apps/tflite_scpi/libscpi/error.c:131-150 | the new error is queued, or on a full queue the newest entry is replaced by -350 and every older one keeps its place; the text is kept exactly when it fits, and is freed with the entry that is dropped |
| `Errors.ErrorContext.ErrorPushEx` | sw/riscv/apps/tflite_scpi/libscpi/error.c:179-201 | queue, heap, registers and error flag after a push are those of the abstract step; the heap texts stay the texts of the queue, in queue order |
| `Errors.ErrorContext.ErrorPush` | sw/riscv/apps/tflite_scpi/libscpi/error.c:208-211 | a push without a text is the abstract push |
| `Errors.ErrorContext.ErrorPop` | sw/riscv/apps/tflite_scpi/libscpi/error.c:108-116 | takes out the oldest error with its text still readable, or code 0 from an empty queue, and lowers the queue bit exactly when the queue is empty after that |
| `Errors.ErrorContext.ErrorClear` | sw/riscv/apps/tflite_scpi/libscpi/error.c:90-100 | empties the queue and the heap and lowers the queue bit |
| `Errors.ErrorContext.ErrorEmit` | sw/riscv/apps/tflite_scpi/libscpi/error.c:78-84 | raises the queue bit of the status byte through the register cascade |
| `Errors.ErrorContext.ErrorEmitEmpty` | sw/riscv/apps/tflite_scpi/libscpi/error.c:63-72 | lowers the queue bit exactly when the queue is empty and the bit is set |
| `Errors.ErrorContext.ErrorCount` | sw/riscv/apps/tflite_scpi/libscpi/error.c:123-129 | the number of queued errors |
| `Errors.ErrorContext.SetEsrBits` | sw/riscv/apps/tflite_scpi/libscpi/error.c:154-196 | sets the event status bit of the row of the error table that holds the code; the row for positive codes never matches |
| `ErrorQueue.PushAdds` | sw/riscv/apps/tflite_scpi/libscpi/error.c:154-196 | the bit a push adds to the event status register, for each of the nine classes of error, and none for the other codes |
| `Errors.ErrorContext.SystemErrorNextQ` | sw/riscv/apps/tflite_scpi/libscpi/minimal.c:81-89 | reports the oldest error with exactly the text that was pushed with it, wherever that lies in the ring, and then frees it |
| `Errors.ErrorContext.CoreCls` | sw/riscv/apps/tflite_scpi/libscpi/ieee488.c:266-276 | the status clear command is the abstract one: errors cleared, then the three event registers set to zero |
| `Errors.ErrorContext.WriteRegister` | sw/riscv/apps/tflite_scpi/libscpi/ieee488.c:147-240 | a register write outside the status byte leaves queue and heap alone |
| `ErrorQueue.EnqueueKeeps` | sw/riscv/apps/tflite_scpi/libscpi/error.c:131-150 | the abstract queue never exceeds its size, its texts never exceed the heap, and every older error keeps code, text and place: all of them while there is room, all but the newest when the queue is full |
| `ErrorQueue.PushedComesOut` | sw/riscv/apps/tflite_scpi/libscpi/error.c:108-150 | a pushed error comes out behind the errors before it, with its code, and with its text exactly when that is not empty and fits with its NUL |
| `ErrorQueue.OverflowComesOut` | sw/riscv/apps/tflite_scpi/libscpi/error.c:131-150 | pushed to a full queue it turns the newest error into -350 and leaves the others |
| `ErrorQueue.ApplyKeeps` | sw/riscv/apps/tflite_scpi/libscpi/error.c:90-208 | every push, pop, clear and allowed register write keeps the combined invariant of queue, heap budget and status registers |
| `ErrorQueue.RunKeeps` | sw/riscv/apps/tflite_scpi/libscpi/error.c:90-208 | so does every sequence of such steps |
| `ErrorQueue.ReachableInv` | sw/riscv/apps/tflite_scpi/libscpi/error.c:55-208 | in every state reached from initialisation the service bit, the summary bits and the queue bit say what they should, and texts and NULs fit the heap |
| `ErrorQueue.ClsClears` | sw/riscv/apps/tflite_scpi/libscpi/ieee488.c:266-276 | after the status clear command, from any reachable state, the status byte is 0 and the queue is empty |
| `ErrorQueue.NoQueueBreaksTheBit` | sw/riscv/apps/tflite_scpi/libscpi/error.c:179-201 | with a queue of size 0 a push leaves the queue bit set over an empty queue, so the invariant needs a queue |
| `ErrorQueue.EnableWriteLags` | sw/riscv/apps/tflite_scpi/libscpi/ieee488.c:160-238 | two runs from initialisation after which the summary bit is set without an enabled event, and clear with one, because the enable register was written behind the error |
| `Status.SetOne` | sw/riscv/apps/tflite_scpi/libscpi/ieee488.c:160-238 | one turn of the cascade stores the value and names the write that follows it |
| `Status.Registers.Set` | sw/riscv/apps/tflite_scpi/libscpi/ieee488.c:147-240 | the do-while cascade ends, because it descends condition, event, status byte, and leaves the registers of the recursive specification |
| `Status.Registers.SetBits` | sw/riscv/apps/tflite_scpi/libscpi/ieee488.c:247-249 | the same with the given bits added |
| `Status.Registers.ClearBits` | sw/riscv/apps/tflite_scpi/libscpi/ieee488.c:256-258 | the same with the given bits removed |
| `Status.ServiceRequest` | sw/riscv/apps/tflite_scpi/libscpi/ieee488.c:173-185 | the service bit of the status byte is put right from the enabled bits |
| `StatusRuns.ServiceBitKept` | sw/riscv/apps/tflite_scpi/libscpi/ieee488.c:147-240 | after every register write the service bit is set exactly when an enabled other bit of the status byte is |
| `StatusRuns.WriteStores` | sw/riscv/apps/tflite_scpi/libscpi/ieee488.c:147-240 | a register write stores the value, in the status byte up to bit 6; besides, a condition write changes only its event register and the status byte, an event write or one of the request enable register only the status byte, an enable write nothing |
| `StatusRuns.SummaryNumber` | sw/riscv/apps/tflite_scpi/libscpi/ieee488.c:187-206 | an event write that changes the register puts bit 5, 7 or 3 of the status byte as the enable register of the event status, operation or questionable register says, and leaves the others but bit 6 |
| `StatusRuns.ServiceNumber` | sw/riscv/apps/tflite_scpi/libscpi/ieee488.c:173-185 | that the service bit is right means: bit 6 is set exactly when another bit is set and enabled |
| `StatusRuns.EventWriteKeeps` | sw/riscv/apps/tflite_scpi/libscpi/ieee488.c:187-206 | an event write sets its summary bit from the enable register of that moment and no other |
| `StatusRuns.WriteKeeps` | sw/riscv/apps/tflite_scpi/libscpi/ieee488.c:147-240 | every write but one of the status byte keeps all summary bits equal to event and enable as it stood at that event's last change |
| `StatusRuns.EnableWriteExact` | sw/riscv/apps/tflite_scpi/libscpi/ieee488.c:187-206 | in any consistent state a write of an enable register leaves its summary bit right exactly when it does not change whether an enabled event is pending |
| `StatusRuns.QueueBitKeeps` | sw/riscv/apps/tflite_scpi/libscpi/error.c:63-84 | raising or lowering the queue bit disturbs nothing else |
| `StatusRuns.EventLatching` | sw/riscv/apps/tflite_scpi/libscpi/ieee488.c:187-233 | over any run of writes that leaves the event register alone, it gains exactly the bits that rose from 0 to 1 in the condition register |
| `IntegerText.UInt32ToStrBaseSign` | sw/riscv/apps/tflite_scpi/libscpi/utils.c:80-132 | writes the canonical text of the number in the base, cut to the buffer, NUL-terminated when there is room, and touches nothing else |
| `IntegerText.DigitsValue` | sw/riscv/apps/tflite_scpi/libscpi/utils.c:113-125 | the printed digits have the number as their value |
| `IntegerText.DigitsCanonical` | sw/riscv/apps/tflite_scpi/libscpi/utils.c:113-125 | they are capital digits of the base without a leading zero |
| `IntegerText.CanonicalUnique` | sw/riscv/apps/tflite_scpi/libscpi/utils.c:113-125 | there is only one such text for a number |
| `IntegerText.IntTextLength` | sw/riscv/apps/tflite_scpi/libscpi/parser.c:399-415 | 33 bytes hold every 32-bit number in every base |
| `Results.Results.ResultUInt32BaseSign` | sw/riscv/apps/tflite_scpi/libscpi/parser.c:399-415 | writes delimiter, prefix and number, counts one result and returns the number of bytes written |
| `Results.Results.ResultText` | sw/riscv/apps/tflite_scpi/libscpi/parser.c:522-538 | writes the quote-doubled text between quotes and returns the number of bytes written |
| `Results.Results.ResultError` | sw/riscv/apps/tflite_scpi/libscpi/parser.c:551-608 | writes the code and, between quotes, the doubled form of the longest prefix of description and information that keeps within 255 characters, for a text in one piece or two, and returns the number of bytes written |
| `ErrorReports.ReportBack` | sw/riscv/apps/tflite_scpi/libscpi/parser.c:551-608 | what an error report appends behind the delimiter of an earlier result reads back as exactly two parameters: the code, and the longest prefix of description and text whose quoted form keeps within 255 characters, exactly when that is 7-bit |
| `ErrorReports.NextErrorBack` | sw/riscv/apps/tflite_scpi/libscpi/minimal.c:81-89 | the answer to the error query reads back as the code of the oldest error, with its description and the text pushed with it |
| `ErrorReports.NamedAnswer` | sw/riscv/apps/tflite_scpi/libscpi/error.c:218-236 | the answer for each error of the minimal list, character by character |
| `ErrorReports.NoErrorAnswer` | sw/riscv/apps/tflite_scpi/libscpi/error.c:218-236 | the answer when there is no error |
| `Results.DescriptionLongest` | sw/riscv/apps/tflite_scpi/libscpi/parser.c:551-608 | that prefix is the longest one: every shorter prefix keeps within the limit and every longer one exceeds it, so no doubled quote is split |
| `Results.Results.WritePart` | sw/riscv/apps/tflite_scpi/libscpi/parser.c:577-604 | one part is written up to the budget, the budget never goes below zero, and the bytes written are counted |
| `Quoting.FitLongest` | sw/riscv/apps/tflite_scpi/libscpi/parser.c:577-604 | counting characters one by one finds the longest prefix whose doubled form fits |
| `PatternLanguage.MatchExact` | sw/riscv/apps/tflite_scpi/libscpi/utils.c:504-668 | the matcher decides the language of a pattern for all headers exactly when no optional keyword shares a spelling with the next mandatory one |
| `Patterns.ShortFormEnds` | sw/riscv/apps/tflite_scpi/libscpi/utils.c:426-435 | the short form of a keyword ends at the first of the letters a to z |
| `Patterns.CaseExact` | sw/riscv/apps/tflite_scpi/libscpi/utils.c:347-357 | two texts match exactly when they differ in nothing but the case of the 26 letters |
| `Patterns.SpellsAnyCase` | sw/riscv/apps/tflite_scpi/libscpi/utils.c:478-495 | changing the case of letters in a word does not change the keywords it spells |
| `PatternLanguage.MatchSound` | sw/riscv/apps/tflite_scpi/libscpi/utils.c:504-668 | whatever the matcher accepts is in the language, shadowed keywords or not |
| `PatternLanguage.ShadowedHeader` | sw/riscv/apps/tflite_scpi/libscpi/utils.c:504-668 | a shadowed keyword always has a header of the language that the matcher refuses |
| `CommandMatch.MatchCommand` | sw/riscv/apps/tflite_scpi/libscpi/utils.c:504-668 | the pointer-advancing loop terminates and answers as the declarative matcher |
| `CommandMatch.SkipOptionalRest` | sw/riscv/apps/tflite_scpi/libscpi/utils.c:584-613 | where every turn finds a separator, the inner loop over the rest of a pattern ends and stops where counting brackets says; it has no exit for a missing separator |
| `CommandMatch.SkipBehind` | sw/riscv/apps/tflite_scpi/libscpi/utils.c:584-613 | behind any keyword of a well-formed pattern every turn of that loop finds a separator, and it stops at the end exactly when all keywords behind are optional |
| `CommandMatch.MatchPatternSpells` | sw/riscv/apps/tflite_scpi/libscpi/utils.c:478-496 | the comparison functions accept exactly the long and short spellings, in any case, with or without number |
| `Lexer.LexState.SkipRun` | sw/riscv/apps/tflite_scpi/libscpi/lexer.c:171-242 | the skipping loops stop at the first character outside their class and count what they passed |
| `Lexer.LexState.ProgramHeader` | sw/riscv/apps/tflite_scpi/libscpi/lexer.c:406-438 | position and token are those of the header grammar, in range |
| `Lexer.LexState.CharacterProgramData` | sw/riscv/apps/tflite_scpi/libscpi/lexer.c:452-465 | position and token of a mnemonic |
| `Lexer.LexState.DecimalNumericProgramData` | sw/riscv/apps/tflite_scpi/libscpi/lexer.c:509-526 | position and token of a decimal number with optional exponent; rolled back when there is none |
| `Grammar.DecimalIsToken` | sw/riscv/apps/tflite_scpi/libscpi/lexer.c:446-531 | a sign, digits with or without a point, and an exponent written with either mark and any blanks inside it, before a separator, are one decimal token of exactly that span, wherever they stand |
| `Grammar.ExponentGivenBack` | sw/riscv/apps/tflite_scpi/libscpi/lexer.c:487-526 | behind a number what looks like an exponent is part of the token exactly when it has a digit |
| `Grammar.SuffixIsToken` | sw/riscv/apps/tflite_scpi/libscpi/parser.c:1368-1380 | a number, blanks and a unit of letters, minus signs, digits, slashes and points are one token with suffix, wherever they stand; only `E` and a digit behind a number without exponent are its exponent |
| `Items.ItemElement` | sw/riscv/apps/tflite_scpi/libscpi/parser.c:1360-1391 | every element as IEEE 488.2 writes it, decimal with or without unit, based number, word, text in either quotes, block, expression, is recognised as one token of its kind with exactly its span |
| `Syntax.EntriesAreData` | sw/riscv/apps/tflite_scpi/libscpi/parser.c:1399-1429 | a list of such elements, with any blanks round them and commas between them, is program data to its end, with that many parameters and all bytes counted but the blanks behind unsuffixed decimals |
| `Syntax.EntriesAreTokens` | sw/riscv/apps/tflite_scpi/libscpi/parser.c:1399-1429 | the tokens the scan passes over are those of the elements, in order |
| `Syntax.HeaderIsToken` | sw/riscv/apps/tflite_scpi/libscpi/lexer.c:354-440 | a common header, or words with colons between them, with or without a leading colon and a question mark, is one header token of its kind with exactly its span |
| `Syntax.UnitIsScanned` | sw/riscv/apps/tflite_scpi/libscpi/parser.c:1438-1489 | of a unit written as blanks, header, blanks, parameters and an end, the scanner finds the header, the data, the number of parameters, the kind of end and the length, whatever follows |
| `Syntax.StrangeUnit` | sw/riscv/apps/tflite_scpi/libscpi/parser.c:1471-1478 | a character that can neither go on a header nor follow it makes the unit invalid and ends it |
| `Syntax.StrangeStart` | sw/riscv/apps/tflite_scpi/libscpi/parser.c:1471-1478 | so does a character that begins no header: anything but a letter, a star, a colon, a blank, a newline character and a semicolon |
| `Syntax.IncompleteHeader` | sw/riscv/apps/tflite_scpi/libscpi/lexer.c:376-399 | a compound header that breaks off behind a colon is one incomplete token of exactly its span |
| `Syntax.NoWordHeader` | sw/riscv/apps/tflite_scpi/libscpi/lexer.c:354-399 | so is a star or a colon without a word |
| `Syntax.ParametersAreRead` | sw/riscv/apps/tflite_scpi/libscpi/parser.c:699-749 | a command that reads all its parameters gets the tokens of what was written, in order, and then misses the next one |
| `Conversations.UnitsAreFound` | sw/riscv/apps/tflite_scpi/libscpi/parser.c:195-262 | the units found in a message are the units it was written from, none more and none fewer |
| `Conversations.EndIsFound` | sw/riscv/apps/tflite_scpi/libscpi/parser.c:336-355 | the end of a message is found at its newline and nowhere before, whatever follows and whatever bytes its blocks hold |
| `Conversations.LineIsPerformed` | sw/riscv/apps/tflite_scpi/libscpi/parser.c:195-262 | parsing a message in place executes its units one by one, each header in the path of the one before and each with its own parameters, when all headers are found |
| `Conversations.ConversationExact` | sw/riscv/apps/tflite_scpi/libscpi/parser.c:316-359 | any sequence of messages so written, without newlines in quoted texts, is executed exactly as it was written, however the bytes are cut into chunks that fit the buffer |
| `Conversations.Converse` | sw/riscv/apps/tflite_scpi/libscpi/parser.c:316-359 | the same of the parser working in place on its buffer: the log grows by exactly the commands written |
| `Lexer.LexState.SuffixProgramData` | sw/riscv/apps/tflite_scpi/libscpi/lexer.c:534-561 | position and token of a unit suffix |
| `Lexer.LexState.NondecimalNumericData` | sw/riscv/apps/tflite_scpi/libscpi/lexer.c:597-624 | position and token of a based number, without its prefix |
| `Lexer.LexState.StringProgramData` | sw/riscv/apps/tflite_scpi/libscpi/lexer.c:666-701 | position and token of a quoted string, with its quotes |
| `Lexer.LexState.ArbitraryBlockProgramData` | sw/riscv/apps/tflite_scpi/libscpi/lexer.c:718-774 | position and token of a definite-length block; a block the buffer cuts off takes all of it |
| `Lexer.LexState.ProgramExpression` | sw/riscv/apps/tflite_scpi/libscpi/lexer.c:806-827 | position and token of an expression, for a token of length zero on entry |
| `Lexer.LexState.NewLine` | sw/riscv/apps/tflite_scpi/libscpi/lexer.c:918-935 | position and token of a newline, one or two characters |
| `Scanner.ParseProgramData` | sw/riscv/apps/tflite_scpi/libscpi/parser.c:1360-1391 | one element: token, position and the returned length, which leaves out the blanks behind an unsuffixed decimal |
| `Scanner.ParseAllProgramData` | sw/riscv/apps/tflite_scpi/libscpi/parser.c:1399-1428 | the elements of a unit, their number and counted length |
| `Scanner.DetectProgramMessageUnit` | sw/riscv/apps/tflite_scpi/libscpi/parser.c:1438-1482 | header, data, parameter count, terminator and length of the unit at the start of the buffer |
| `Spans.UnitSpans` | sw/riscv/apps/tflite_scpi/libscpi/parser.c:1438-1482 | header and data lie within the unit in this order |
| `Spans.AllDataSpan` | sw/riscv/apps/tflite_scpi/libscpi/parser.c:1399-1428 | the counted length of program data never exceeds the text they take |
| `Messages.Progress` | sw/riscv/apps/tflite_scpi/libscpi/parser.c:1438-1482 | every unit takes at least one byte when any remain |
| `Messages.UnitsTile` | sw/riscv/apps/tflite_scpi/libscpi/parser.c:209-247 | the units of a line partition it exactly |
| `Extension.UnitExt` | sw/riscv/apps/tflite_scpi/libscpi/parser.c:1438-1482 | with more bytes behind it a buffer has the same first unit, or a line feed joins its carriage return, or the unit was incomplete and no newline was left behind, or its last quote is doubled, or a string that holds a newline was open and is closed: then the shorter scan stops at its quote |
| `Messages.MessageEndExt` | sw/riscv/apps/tflite_scpi/libscpi/parser.c:341-355 | more bytes behind a buffer leave the end of its first message where it was, except for the line feed that joins a carriage return, when no string token of the longer buffer holds a newline; without a message in the buffer the end lies behind it unless a closing quote is doubled |
| `Messages.MessageAlone` | sw/riscv/apps/tflite_scpi/libscpi/parser.c:341-355 | a message cut out of the stream is the same message |
| `Messages.PlainSteady` | sw/riscv/apps/tflite_scpi/libscpi/parser.c:341-355 | in a stream without a newline in any string token no message has a beginning that ends too early |
| `Messages.BreaksExact` | sw/riscv/apps/tflite_scpi/libscpi/parser.c:341-355 | a first message is lost to an earlier end exactly when the cut breaks one of its strings and what has arrived of that string, read as units, ends a message |
| `Messages.SteadyExact` | sw/riscv/apps/tflite_scpi/libscpi/parser.c:341-355 | a stream is steady exactly when no cut of any of its messages does that |
| `Messages.NoQuotesPlain` | sw/riscv/apps/tflite_scpi/libscpi/lexer.c:666-701 | a stream without quote characters is such a stream |
| `LineParser.ComposeResolves` | sw/riscv/apps/tflite_scpi/libscpi/utils.c:678-712 | the header composed in place is the one the header-path rule gives |
| `LineParser.ResolveExact` | sw/riscv/apps/tflite_scpi/libscpi/utils.c:678-712 | the path rule on texts: a header goes on behind the last colon of the one before, unless either is a common header or the new one begins with a colon |
| `LineParser.ComposeKeeps` | sw/riscv/apps/tflite_scpi/libscpi/utils.c:706-711 | composition writes only bytes between the previous header and the current one, which have been parsed |
| `LineParser.FindsFirst` | sw/riscv/apps/tflite_scpi/libscpi/parser.c:174-185 | the lookup gives the first command whose pattern the matcher accepts |
| `LineParser.TrimExact` | sw/riscv/apps/tflite_scpi/libscpi/parser.c:230-236 | the reported text is cut of all carriage returns and line feeds at its end and of nothing else |
| `HeaderPaths.LineExact` | sw/riscv/apps/tflite_scpi/libscpi/parser.c:195-253 | for every line and command table: the headers looked up are those of the header-path rule on an untouched copy exactly when none continues a path that an undefined header before it overwrote; then the same commands run with the same headers and data, and all events are equal exactly when no reported text was overwritten |
| `HeaderPaths.PathsExact` | sw/riscv/apps/tflite_scpi/libscpi/parser.c:209-247 | the same from any point of a line on, for any cursor and walk that agree |
| `HeaderPaths.UndefinedSpares` | sw/riscv/apps/tflite_scpi/libscpi/utils.c:696-711 | per unit: an undefined header leaves the path of the previous header exactly when the overlaid path bytes are the same and no colon is written behind them |
| `HeaderPaths.PrevAfter` | sw/riscv/apps/tflite_scpi/libscpi/utils.c:706-711 | the bytes of the previous header after that are the old ones overlaid with their own beginning |
| `HeaderPaths.OneColonSpoils` | sw/riscv/apps/tflite_scpi/libscpi/utils.c:696-711 | a path with one colon is spoilt exactly when the moved path starts less than its own length behind the previous header |
| `HeaderPaths.SeveralColons` | sw/riscv/apps/tflite_scpi/libscpi/utils.c:696-711 | with several colons that distance is neither enough nor needed: one header each |
| `HeaderPaths.StepBehind` | sw/riscv/apps/tflite_scpi/libscpi/parser.c:209-247 | at least a terminator stands between the previous header and every later unit |
| `HeaderPaths.DistanceKeepsPaths` | sw/riscv/apps/tflite_scpi/libscpi/utils.c:696-711 | a line whose undefined headers all stand so far behind that the moved path does not reach the previous header keeps its paths |
| `HeaderPaths.ReportExact` | sw/riscv/apps/tflite_scpi/libscpi/parser.c:230-236 | the text reported for an undefined header is the received one exactly when no path was moved or no blank stands in front of the header |
| `HeaderPaths.ParseLineRefines` | sw/riscv/apps/tflite_scpi/libscpi/parser.c:195-253 | as a special case, on every line whose headers are all found parsing in place does what a parser on an untouched copy does |
| `Limits.UndefinedHeaderSpoilsPath` | sw/riscv/apps/tflite_scpi/libscpi/parser.c:217-236 | after an undefined header the next one can be resolved against overwritten bytes: a concrete line on which the two parsers differ |
| `Parser.Parser.FindCommandHeader` | sw/riscv/apps/tflite_scpi/libscpi/parser.c:174-185 | the command loop is that lookup |
| `Parser.Parser.ComposeUnit` | sw/riscv/apps/tflite_scpi/libscpi/utils.c:678-712 | the memory move in the buffer gives the composed header and leaves every byte behind the unit alone |
| `Parser.Parser.Parse` | sw/riscv/apps/tflite_scpi/libscpi/parser.c:195-253 | the events logged for the first bytes of the buffer are those of the line parser, and the bytes behind them stay |
| `Parser.Parser.Input` | sw/riscv/apps/tflite_scpi/libscpi/parser.c:316-359 | buffer and events after any input, overrun and flush included, are those of the chunk specification, and the position stays below the length |
| `Parser.Parser.InputAll` | sw/riscv/apps/tflite_scpi/libscpi/parser.c:316-359 | any sequence of inputs leaves the buffer and events of the chunk specification; a steady stream cut to fit an empty buffer causes the events of the whole stream |
| `LineEndings.ParseLonger` | sw/riscv/apps/tflite_scpi/libscpi/parser.c:195-253 | every message is executed the same with one more line feed behind it |
| `LineEndings.EmptyMessage` | sw/riscv/apps/tflite_scpi/libscpi/parser.c:195-253 | a lone line feed executes nothing |
| `Chunks.PositionBelowLength` | sw/riscv/apps/tflite_scpi/libscpi/parser.c:316-334 | the pending bytes stay fewer than the buffer length over any sequence of inputs |
| `Chunks.ExecutedSplit` | sw/riscv/apps/tflite_scpi/libscpi/parser.c:316-359 | complete messages of a steady stream can be executed before the rest arrives |
| `Chunks.ChunkingInvariant` | sw/riscv/apps/tflite_scpi/libscpi/parser.c:316-359 | for every steady stream and every way to cut it that never overruns, the executed events and the bytes kept are those of the whole stream |
| `Chunks.SameStream` | sw/riscv/apps/tflite_scpi/libscpi/parser.c:316-359 | two ways to cut one steady stream execute the same |
| `Chunks.ChunkingExact` | sw/riscv/apps/tflite_scpi/libscpi/parser.c:316-359 | for every stream whose events report no invalid character: all ways to cut it agree exactly when it is steady |
| `Chunks.BadCut` | sw/riscv/apps/tflite_scpi/libscpi/parser.c:341-355 | for such a stream that is not steady, a way to cut it into a buffer of any sufficient size that changes the events |
| `Framing.FramingExact` | sw/riscv/apps/tflite_scpi/libscpi/parser.c:316-359 | for every stream: from an empty buffer of any size all ways to cut it that never overrun hand the same lines to the parser, a split line feed put back, exactly when it is steady |
| `Framing.BadLines` | sw/riscv/apps/tflite_scpi/libscpi/parser.c:341-355 | for a stream that is not steady, a way to cut it into a buffer of any sufficient size that hands over other lines |
| `Framing.FedEvents` | sw/riscv/apps/tflite_scpi/libscpi/parser.c:316-359 | for any sequence of inputs, flushes and overruns included, the events are those of the lines handed over, but for the overruns; without overruns and flushes they are exactly those |
| `Framing.LinesExecuted` | sw/riscv/apps/tflite_scpi/libscpi/parser.c:336-355 | the events of the complete messages of a buffer are those of its lines, one after the other |
| `Limits.QuotedNewline` | sw/riscv/apps/tflite_scpi/libscpi/parser.c:341-355 | a chunk boundary inside a string that holds a newline changes what is executed: a concrete stream and two ways to cut it |
| `Limits.HiddenCut` | sw/riscv/apps/tflite_scpi/libscpi/parser.c:341-355 | a stream that is not steady and a cut at an early end that causes the same events, because the whole message is wrong itself |
| `Reports.Report` | sw/riscv/apps/tflite_scpi/libscpi/parser.c:216-236 | each event makes the error call of the source: -101, -113 with the reported text up to its first NUL, or -363, as the matching abstract push of queue, heap and registers |
| `Reports.ReportsHaveText` | sw/riscv/apps/tflite_scpi/libscpi/parser.c:230-236 | the text reported for an undefined header is never empty, so its length is never taken for an automatic one |
| `Reports.InputKeeps` | sw/riscv/apps/tflite_scpi/libscpi/parser.c:216-331 | after any sequence of inputs the combined invariant of queue, heap budget and status registers still holds |
| `Reports.InputQueue` | sw/riscv/apps/tflite_scpi/libscpi/error.c:131-201 | from initialisation the queue then holds the codes reported, in order, the last place taken by -350 exactly when they were more than the queue has places |
| `Reports.RunCapped` | sw/riscv/apps/tflite_scpi/libscpi/error.c:131-201 | the same for any pushes from any queue |
| `Reports.RunKeepsAll` | sw/riscv/apps/tflite_scpi/libscpi/error.c:131-201 | while queue and heap have room every error is kept with its text, in order |
| `Parameters.ScannerReaderAgree` | sw/riscv/apps/tflite_scpi/libscpi/parser.c:699-749 | the parameters of a scanned unit are read back with the same types and spans, and then one is missing, exactly when the blanks left out of the length lie behind the last token |
| `Parameters.AgreeWithoutBlanks` | sw/riscv/apps/tflite_scpi/libscpi/parser.c:699-749 | this holds whenever no unsuffixed decimal is followed by a blank |
| `Limits.ShortData` | sw/riscv/apps/tflite_scpi/libscpi/parser.c:699-749 | the data `1 ,2` take four bytes and count for three; the second parameter read from these is malformed |
| `Limits.ShortDataDisagree` | sw/riscv/apps/tflite_scpi/libscpi/parser.c:699-749 | on these data the condition for agreement fails, and scanner and reader disagree |
| `Parameters.ParameterList.Parameter` | sw/riscv/apps/tflite_scpi/libscpi/parser.c:699-749 | token, position, count and reported error of one parameter read, whether it succeeds or not: -109 for a missing parameter, -103 for a missing comma, -151 for malformed data |
| `Cutting.ParseDataCut` | sw/riscv/apps/tflite_scpi/libscpi/parser.c:1360-1391 | an element whose token lies within a cut buffer is found there too |
| `Shifting.ParseDataShift` | sw/riscv/apps/tflite_scpi/libscpi/parser.c:1360-1391 | an element is the same wherever it stands |
| `Numbers.UnsignedRoundTrip` | sw/riscv/apps/tflite_scpi/libscpi/parser.c:399-415 | a 32-bit number printed in base 2, 8, 10 or 16 is one token of the right type without leading zeros, and reads back |
| `Numbers.SignedRoundTrip` | sw/riscv/apps/tflite_scpi/libscpi/parser.c:449-451 | a signed number is one decimal token and reads back, the least one included |
| `IntArrays.ResultArrayInt32` | sw/riscv/apps/tflite_scpi/libscpi/parser.c:1611-1626 | the ASCII output is the numbers separated by commas behind whatever results stood before, the binary output one block in which bytes 4k to 4k + 3, read with the first as the most significant in the normal format and with the last in the swapped one, are number k; the number of bytes written is returned |
| `IntArrays.MemoryValue` | sw/riscv/apps/tflite_scpi/libscpi/parser.c:1554-1608 | the four bytes of an item determine the number |
| `IntArrays.ArrayRoundTrip` | sw/riscv/apps/tflite_scpi/libscpi/parser.c:1747-1769 | every non-empty array is read back as it was printed, without an error |
| `IntArrays.ReadsUntil` | sw/riscv/apps/tflite_scpi/libscpi/parser.c:1747-1769 | reading on to a parameter that is no number keeps the numbers before it, reports its error, and succeeds exactly when there was a number or none was mandatory |
| `IntArrays.ParamInt32` | sw/riscv/apps/tflite_scpi/libscpi/parser.c:1019-1041 | value and reported error of one integer parameter, and position and count behind it, whether it succeeds or not |
| `IntParameters.NumberBack` | sw/riscv/apps/tflite_scpi/libscpi/parser.c:779-805 | a 32-bit word printed in base 2, 8, 10 or 16 and read as a parameter gives its signed value, whatever separator follows in memory; only without a sign in base 10 a word above 2^31 - 1 comes back as 2^31 - 1 |
| `IntParameters.BasedParameter` | sw/riscv/apps/tflite_scpi/libscpi/parser.c:779-805 | any digits behind a base letter in either case give their value in that base, at most 2^32 - 1, as a signed word |
| `IntParameters.DecimalParameter` | sw/riscv/apps/tflite_scpi/libscpi/parser.c:779-805 | a decimal parameter gives the digits in front of its point, cut to 32 bits, and fails without an error when there are none; fraction and exponent are passed over |
| `IntParameters.ExponentNotSeen` | sw/riscv/apps/tflite_scpi/libscpi/parser.c:779-805 | `1e3` and `1.9` are read as 1, and `.5` as no number |
| `ItemReading.IntFrom` | sw/riscv/apps/tflite_scpi/libscpi/parser.c:1019-1041 | the integer reader on every kind of element: its value, -138 for a number with a unit, -104 for anything that is no number |
| `IntArrays.ParamArrayInt32` | sw/riscv/apps/tflite_scpi/libscpi/parser.c:1747-1769 | in ASCII the array loop stores the numbers read, in order, and tells whether it succeeds; other formats are refused and change nothing |
| `IntArrays.ArrayBack` | sw/riscv/apps/tflite_scpi/libscpi/parser.c:1747-1769 | printing a non-empty array and reading it succeeds with exactly that array |
| `Texts.TextToken` | sw/riscv/apps/tflite_scpi/libscpi/lexer.c:634-701 | a written text is one string token exactly when all its characters are 7-bit |
| `Texts.TextRoundTrip` | sw/riscv/apps/tflite_scpi/libscpi/parser.c:1187-1228 | the copied text is the original exactly when the buffer reaches its last character; one less than the encoded length is enough |
| `Texts.ParamCopyText` | sw/riscv/apps/tflite_scpi/libscpi/parser.c:1187-1228 | what the buffer holds after the call, its terminator, position and count behind the parameter, and the error for a missing or malformed one or one that is no string |
| `Texts.EncodedParameter` | sw/riscv/apps/tflite_scpi/libscpi/parser.c:699-749 | a printed text is the one parameter of its data exactly when it is 7-bit, and malformed data otherwise |
| `Texts.CopyBack` | sw/riscv/apps/tflite_scpi/libscpi/parser.c:1187-1228 | printing a text and copying the parameter succeeds exactly for 7-bit texts, and then gives the text exactly when the buffer reaches its last character |
| `ItemReading.TextFrom` | sw/riscv/apps/tflite_scpi/libscpi/parser.c:1187-1228 | the text reader on every kind of element: a text in either quotes is copied without them, anything else is -104 |
| `ItemReading.BlockFrom` | sw/riscv/apps/tflite_scpi/libscpi/parser.c:1164-1185 | the block reader on every kind of element: a block gives its payload, anything else is -104 |
| `Blocks.BlockRoundTrip` | sw/riscv/apps/tflite_scpi/libscpi/lexer.c:718-774 | a block of any bytes is one element whose token is the payload, whatever follows |
| `ItemReading.CutBlockData` | sw/riscv/apps/tflite_scpi/libscpi/lexer.c:718-774 | of a block whose end has not arrived, wherever it is cut, all is taken and nothing is found |
| `ItemReading.PrintedBlock` | sw/riscv/apps/tflite_scpi/libscpi/parser.c:616-633 | a printed block is a number sign, the number of length digits, the decimal length and the payload |
| `Blocks.ResultArbitraryBlockHeader` | sw/riscv/apps/tflite_scpi/libscpi/parser.c:616-633 | writes the header of the length, expects that many bytes and returns the number of bytes written |
| `Blocks.HeaderTerminated` | sw/riscv/apps/tflite_scpi/libscpi/parser.c:616-633 | the ten bytes for the decimal length have room for its NUL exactly when the length is below 10^9 |
| `Blocks.ResultArbitraryBlockData` | sw/riscv/apps/tflite_scpi/libscpi/parser.c:639-653 | accepts data that still fit, counts the result with the last byte, refuses more with an error, and returns the number of bytes written |
| `Blocks.ResultArbitraryBlockPieces` | sw/riscv/apps/tflite_scpi/libscpi/parser.c:639-653 | over any data calls the bytes accepted and those still missing add up to the declared length |
| `Blocks.BlockConserved` | sw/riscv/apps/tflite_scpi/libscpi/parser.c:616-667 | no more than the declared length is accepted, pieces that fit are accepted whole, and a block that came to its end reads back as them |
| `Blocks.ProduceResultArrayBinary` | sw/riscv/apps/tflite_scpi/libscpi/parser.c:1554-1608 | an array of items of 1, 2, 4 or 8 bytes in either byte order always completes its block without an error |
| `Blocks.ReversedAt` | sw/riscv/apps/tflite_scpi/libscpi/utils.c:1121-1126 | in the other byte order byte i of an item is its byte i from the end |
| `Blocks.ArrayBlockRoundTrip` | sw/riscv/apps/tflite_scpi/libscpi/parser.c:1554-1608 | and reads back as exactly these bytes |
| `LineDecoder.LineReader.ReadInto` | sw/riscv/apps/tflite_scpi/main.c:130-163 | buffer, position and escape flag after reading a line are those of the decoder specification, with a NUL behind a line that ended |
| `LineDecoder.LineRoundTrip` | sw/riscv/apps/tflite_scpi/main.c:130-163 | an escaped line of fewer bytes than the limit is read as it was, whatever its bytes |
| `LineDecoder.LineOfKeys` | sw/riscv/apps/tflite_scpi/main.c:130-163 | a line typed with any backslashes it needs, and any more, is read without them |
| `LineDecoder.FullLine` | sw/riscv/apps/tflite_scpi/main.c:130-163 | a line that fills the buffer ends there and takes no newline |
| `EndToEnd.ParamArbitraryBlock` | sw/riscv/apps/tflite_scpi/libscpi/parser.c:1164-1185 | the block token, position and count behind it, and the error for a missing or malformed parameter or one of another type |
| `EndToEnd.BlockTransparency` | sw/riscv/apps/tflite_scpi/main.c:130-175 | a payload of any bytes sent as an escaped block reaches the parameter reader of its command unchanged |
| `EndToEnd.InferMatches` | sw/riscv/apps/tflite_scpi/main.c:85 | the header used is matched by the pattern of that command |
| `EndToEnd.CommandFound` | sw/riscv/apps/tflite_scpi/main.c:83-88 | the command table of the application finds that header in its second entry |
| `EndToEnd.CommandsRendered` | sw/riscv/apps/tflite_scpi/main.c:83-88 | the patterns of that table are well formed and written as there |
| `EndToEnd.DataCommand` | sw/riscv/apps/tflite_scpi/main.c:120-175 | with that table a payload of any bytes is executed once, as the block of the data command, however line and terminator are cut on their way in |
| `Mmio.Region.Memcpy32` | sw/riscv/lib/base/mmio.c:34-108 | byte j of the range, which is byte j % 4 from the least significant of word j / 4, is transferred, for every j of the range and no other; every access is to an aligned word of the range, and reads number at most len/4 + 2, at most 2 when writing |
| `Mmio.Region.WriteThenRead` | sw/riscv/lib/base/mmio.c:110-123 | a write followed by a read of the same range returns the source |
| `Mmio.OverwriteInWord` | sw/riscv/lib/base/mmio.c:44-104 | reading, changing and writing back part of a word changes exactly that part of the region |
| `Expressions.NumericListAccess` | sw/riscv/apps/tflite_scpi/libscpi/expression.c:84-119 | entry k of a printed list of numbers and ranges is found for k < n with its exact spans, and there is no more for every k >= n |
| `Expressions.ChannelListAccess` | sw/riscv/apps/tflite_scpi/libscpi/expression.c:267-316 | the same for lists of channels of any dimensions, with their values |
| `Expressions.ExpressionToken` | sw/riscv/apps/tflite_scpi/libscpi/lexer.c:806-827 | a text of expression characters in parentheses is one expression token, wherever it stands, and the text is inside |
| `Items.BrokenExpression` | sw/riscv/apps/tflite_scpi/libscpi/lexer.c:806-827 | without its closing parenthesis, or with a quote, a number sign, a parenthesis, a semicolon or a character that is not printable inside, it is none |
| `Expressions.NumericListToken` | sw/riscv/apps/tflite_scpi/libscpi/lexer.c:806-827 | a printed numeric list in parentheses is one expression parameter with that list inside |
| `Expressions.ChannelListToken` | sw/riscv/apps/tflite_scpi/libscpi/lexer.c:806-827 | the same for a printed channel list |
| `Expressions.ReadNumericRange` | sw/riscv/apps/tflite_scpi/libscpi/expression.c:53-69 | one number or range, its tokens and where it ends |
| `Expressions.ExprNumericListEntry` | sw/riscv/apps/tflite_scpi/libscpi/expression.c:84-119 | the loop gives the indexed entry, the end of the list or an error, which is reported; an index below zero succeeds and leaves the result as it was |
| `Expressions.ReadChannelSpec` | sw/riscv/apps/tflite_scpi/libscpi/expression.c:192-215 | the numbers of a channel, the first of them stored |
| `Expressions.ReadChannelRange` | sw/riscv/apps/tflite_scpi/libscpi/expression.c:226-252 | a channel or a range of equal dimensions |
| `Expressions.ExprChannelListEntry` | sw/riscv/apps/tflite_scpi/libscpi/expression.c:267-316 | the loop gives the indexed entry with its values stored, the end of the list or a reported error; an index below zero succeeds and leaves everything as it was |
| `Expressions.NumericBack` | sw/riscv/apps/tflite_scpi/libscpi/expression.c:84-119 | entry k of a printed numeric list, read from its parameter, is that entry for k < n and no more behind, never an error |
| `Expressions.ChannelBack` | sw/riscv/apps/tflite_scpi/libscpi/expression.c:267-316 | the same for printed channel lists, with the numbers in the arrays |
| `ListErrors.BrokenNumericList` | sw/riscv/apps/tflite_scpi/libscpi/expression.c:53-119 | of a numeric list whose last range has no second number every entry before it is found at its index, and every later index is an error |
| `ListErrors.TrailingNumericList` | sw/riscv/apps/tflite_scpi/libscpi/expression.c:84-119 | with something but a comma behind its last entry that entry is still found, and every later index is an error |
| `ListErrors.BrokenChannelList` | sw/riscv/apps/tflite_scpi/libscpi/expression.c:192-316 | the same of a channel list whose last entry is empty, lacks a number, or is a range of channels of unequal dimension |

## Left out

- Blocks.ResultArbitraryBlockHeader: lengths of 10^9 and more are excluded, because the ten-byte number buffer then holds no terminator (`Blocks.HeaderTerminated`) and the C code reads past it.
- Blocks.ProduceResultArrayBinary: arrays of 10^9 bytes and more, for the same reason.
- Parser.Parser.Parse: the boolean result, which depends on what command callbacks do, and the line ending and flush behind a response.
- Parser.Parser.Input: the boolean result.
- Grammar.SuffixIsToken: a slash behind a number that no letter follows, which the code takes for a suffix too.
- Conversations.LineIsPerformed: messages with a header that is not found; `HeaderPaths.LineExact` decides when they keep to the header-path rule.
- Conversations.ConversationExact: quoted texts that hold a newline; `Framing.FramingExact` decides when streams with them may be cut.
- ItemReading.TextFrom: buffers shorter than the element; `Texts.TextRoundTrip` gives what they hold.
- CommandMatch.MatchCommand: the numbers that the matcher can extract from numbered keywords are not returned.
- Chunks.ChunkingExact: streams whose events report an invalid character are not covered in the direction from events to the stream, which is false for some of them (`Limits.HiddenCut`); `Framing.FramingExact` covers them in terms of lines.
- InfoHeap.Heap.StrNDup: a length of zero with a text that is not empty; `SCPI_ErrorPushEx`, its only way in, measures the text in place of a zero length.
- Errors.ErrorContext.ErrorEmit: the error callback of the interface.
- Errors.ErrorContext.ErrorEmitEmpty: the error callback of the interface.
- Status.SetOne: the control callback, which the application does not install (main.c:115), and the transition filters and registers of a user.
- Status.Registers.Set: the same callback, filters and registers.
- Status.ServiceRequest: the same callback.
- Texts.ParamCopyText: the null checks of its arguments are not modelled, here and in the other functions with out-parameters.
- IntArrays.ResultArrayInt32: binary arrays of 10^9 bytes and more, as for blocks.
- LineDecoder.LineReader.ReadInto: echo and the supervisor calls around the loop are not modelled.
- What a command callback does, the errors it pushes, and the errors reported after it for a failed callback or for parameters it left unread.
- Floating point printing and parsing, unit multipliers: they depend on rounding and on library code that is not visible.
- The 64-bit printer: the same code as the 32-bit one with other constants.
- The counters of the queue and of results are unbounded numbers.
- Commands of the application, trap entry, UART, SPI, DMA and GPIO code, and the second copy of the library in `tflite_scpi_m`.
- Boolean, choice and mnemonic parameters: table lookups that would only add easy members.
