# Verification of the JSON library, the INI store and the ring buffer

This Dafny project models three components of the library and proves what they promise.

**JSON (`libjson.c`).** `JsonText` is the accepted grammar, `JsonPrint` the printed text, `JsonMinify` the
minified text, each as functions; what these say about the characters of a text is spelled out in `JsonNumber`,
`JsonLayout` and `JsonMinifyLaws`. Around them: the print/parse round trip (`JsonRoundTrip`), meaning kept by the
minifier (`JsonMinifyParse`), minifying formatted output (`JsonMinifyPrint`), and the `\u` escapes against
section 7 of RFC 8259 and section 3 of RFC 3629 (`JsonUnicode`). The running code refines these functions:
the parser's loops (`JsonLiteral`, `JsonParser`), the in-place minifier on one array (`JsonMinifier`), the joining
printer with its size computations (`JsonPrinter`), the growing print buffer (`JsonBuffer`, `JsonGrowth`), the doubly
linked child list (`JsonList`) and the recursive copy (`JsonDuplicate`). `JsonOverrun` and `JsonReached` say when the
parser leaves its text.

**INI store (`cfgfile.c`).** `IniText` is the line grammar, spelled out in `IniLines`; `IniParsed`, `IniOutput`,
`IniLayout` and `IniRoundTrip` relate it to the two printers. `IniStore` and `IniExact` give lookup, write and delete
on a list of entries with their interaction laws; `IniConfig` is the handle with its growing entry array, cursor and
in-place moves; `IniPool` bounds the cost of growth and says when an insertion leaves the pool; `IniRuntime` holds the
scanning and printing loops; `IniFile` composes everything into reads, writes and removals on a whole file, and
`IniKept` says what these leave alone.

**Ring buffer (`ringbuf.c`).** `Ring` is the circular array with a NULL read position for "empty"; `RingQueue` the
non-blocking calls, as a class and over whole runs; `RingProtocol` the calls of any number of threads as an
interleaved step relation with one mutex, two condition variables and spurious wake-ups; `RingCounter` what its item
counter is worth.

The code is modelled as it is, also where it departs from its comments or from a standard:

- The JSON parser accepts an unterminated literal at the end of the text, unknown escapes and numbers such as `01`;
  nothing here claims conformance to RFC 8259. On a literal that is left open behind an unpaired backslash the scan
  reads past the terminator; the model gives this its own outcome (`Overrun`, `RanOff`), and
  `JsonReached.ParseOverruns` says exactly when it happens. The minifier has no result (`None`) for an unterminated
  literal or block comment, where the code also reads past the terminator.
- A NUL byte inside an INI file stops `_cfg_getline` without being passed, so the parse never returns:
  `IniText.LoopEndsExactly`, `IniFile.NulFileHangs`. The outcome is explicit (`Hangs`).
- An INI line that starts with `#` is not a comment: it is a key if it has an equals sign and is dropped otherwise.
- An empty comment counts as a block comment, because the white-space test is true for the terminator.
- `_cfg_output` prints continuations without indentation, so they do not come back: `IniRoundTrip.CompactExact`.
- `cfg_find` compares keys without their quotes and `cfg_write` compares them as written, so an entry with a quoted
  spelling can hide a written key: `IniStore.ReadYourWrite` says exactly when.
- Insertion before a following section keeps a pointer across a reallocation and moves one entry too many. It is
  right exactly with two spare slots, and a file of 102 entries does not have them: `IniPool.InsertStaysExactly`,
  `IniFile.NoRoom`. On text level the failing case is an explicit outcome: `IniFile.WriteStrEntries`.
- Deleting a section scans upwards over comments and reads in front of the array if nothing else stands above, which
  is so for the section a file starts with: `IniStore.DeleteStaysExactly`, `IniStore.FirstSectionStrays`. Deleting a
  key has no such case: the section header stops the scan.
- The blocking dequeue decrements `num` after it has released the mutex, so the counter can lag, and its updates and
  those inside the lock can be lost: `RingCounter.RightIffUndisturbed`, `RingCounter.LostUpdate`,
  `RingCounter.SwallowedDecrement`.
- In formatted buffered output `print_object` reuses its start index as a loop counter, so the pointer that nested
  calls return is not the start of their text; at depth zero it is: `JsonBuffer.PrintBuffered`.

## Model

| member | source | states |
|---|---|---|
| `JsonRoundTrip.ValueRoundTrip` | libjson.c:338-384 | for every tree of null, booleans, int32 numbers, NUL-free strings, arrays and objects, at every depth and in both formats, parsing the printed text followed by any `rest` gives the tree back and stops at `rest`, if and only if the tree is not a number that `rest` extends |
| `JsonRoundTrip.PrintParse` | libjson.c:305-325 | `cJSON_ParseWithOpts` with the terminator required accepts the whole printed text and returns the tree |
| `JsonRoundTrip.StringRoundTrip` | libjson.c:171-289 | the literal printed for any NUL-free string parses back to the string and ends at the closing quote, whatever follows |
| `JsonRoundTrip.NumberRoundTrip` | libjson.c:74-93 | a printed integer is read back up to its last digit exactly when the text behind cannot extend it (a digit, except a zero behind zero; a point with a digit; an exponent letter) |
| `JsonRoundTrip.IntRoundTrip` | libjson.c:125-140 | a number that is an int32, whatever its exponent, is printed as that integer and read back as it, exactly when the text behind cannot extend it |
| `JsonNumber.NumberValue` | libjson.c:74-93 | the value of every number text: sign, whole part (which may be missing or have a zero in front), fraction and exponent with either letter and any sign give the place value of all digits with the decimal places taken off the exponent, whatever follows that cannot extend it |
| `JsonNumber.DigitsPlace` | libjson.c:80-84 | the accumulating loops compute the place value of the digits read so far |
| `JsonNumber.PointZerosPrinted` | libjson.c:86-140 | an int32 with any number of zeros behind a point is printed as the integer |
| `JsonNumber.PowerPrinted` | libjson.c:86-140 | an integer with a power of ten is printed with that many zeros, as long as it is an int32 |
| `JsonNumber.FractionPrinted` | libjson.c:135-151 | a number with a digit other than zero behind its point is printed as a floating-point number |
| `JsonNumber.RangePrinted` | libjson.c:135-140 | an integer is printed as itself exactly from -2147483648 to 2147483647 |
| `JsonRoundTrip.ItemsRoundTrip` | libjson.c:387-449 | the items of an array, from any position on, come back in order behind the ones already read |
| `JsonRoundTrip.MembersRoundTrip` | libjson.c:495-588 | the members of an object come back in order, through line breaks and tabs |
| `JsonMinifyParse.MinifyPreservesParse` | libjson.c:717-732 | an accepted text (terminator required) can be minified exactly when it is not an unterminated top-level literal, and then the minified text is accepted with the same tree |
| `JsonMinifyParse.OpenLiteral` | libjson.c:228-228 | an unterminated literal that the parser accepts and the minifier cannot handle: the excluded case of the line above is real |
| `JsonMinifyParse.ValueMinified` | libjson.c:338-350 | any accepted value followed by something that ends a value: minifying it gives the same value and the minified rest |
| `JsonMinifyParse.NumberMinified` | libjson.c:74-93 | minifying neither joins a number with what follows nor splits it |
| `JsonMinifyParse.StringMinified` | libjson.c:171-230 | a closed literal survives minifying unchanged |
| `JsonMinifyPrint.MinifyPrint` | libjson.c:324-325 | minifying the formatted output of a tree gives exactly its unformatted output |
| `JsonMinifyPrint.MinifyText` | libjson.c:415-639 | the same for every depth and with any text behind |
| `JsonMinifyLaws.PlainMinified` | libjson.c:720-729 | of a text without quote and slash exactly the characters other than blank, tab, carriage return and line feed are left |
| `JsonMinifyLaws.BlankDropped` | libjson.c:722-725 | in front of any text each of the four is dropped |
| `JsonMinifyLaws.LineCommentDropped` | libjson.c:726-726 | a line comment is dropped up to its line break, or to the end of the text |
| `JsonMinifyLaws.BlockCommentDropped` | libjson.c:727-727 | a block comment is dropped with its first star and slash; without one there is no result |
| `JsonMinifyLaws.MinifyTwice` | libjson.c:717-732 | minifying the minified text of an accepted text changes nothing |
| `JsonMinifier.MinifyInPlace` | libjson.c:717-732 | the in-place loop leaves the minified text and its terminator, which characters that are is stated by `JsonMinifyLaws`; the write position never passes the read position, and nothing behind the old terminator changes |
| `JsonMinifier.CopyLiteral` | libjson.c:728-728 | a closed literal with its escapes is copied down whole and only its target cells change |
| `JsonUnicode.Utf8RoundTrip` | libjson.c:212-220 | the stored bytes are the one well-formed UTF-8 sequence of the code point: a decoder that refuses overlong forms, surrogates and values above U+10FFFF gives the code point back |
| `JsonUnicode.UnitDenotes` | libjson.c:197-221 | a `\u` escape, in either letter case, becomes the UTF-8 bytes of its code point, whatever follows |
| `JsonUnicode.PairDenotes` | libjson.c:203-210 | a surrogate pair becomes the UTF-8 bytes of the code point whose halves it names |
| `JsonUnicode.PairOfHalves` | libjson.c:209-209 | the pair formula inverts the split into halves |
| `JsonUnicode.EscapeRefused` | libjson.c:198-208 | an escape is refused if and only if its value is zero or unreadable, a low surrogate, or a high surrogate that no low surrogate follows |
| `JsonUnicode.BadDigitsRefused` | libjson.c:156-169 | an escape without four hexadecimal digits is refused |
| `JsonUnicode.DecodedNulFree` | libjson.c:182-227 | a decoded literal never contains a terminator |
| `JsonUnicode.ValueNulFree` | libjson.c:338-350 | every string in a parsed tree is a C string, so a parsed tree can be printed |
| `JsonLiteral.EscapeFits` | libjson.c:176-220 | the bytes of an escape take no more room than the scan counted for it |
| `JsonLiteral.ScanEnd` | libjson.c:176-176 | the scan finds the end of the literal and the counted length, or runs off the text behind a lone backslash |
| `JsonLiteral.UnicodeAt` | libjson.c:197-210 | the pointer checks of the escape branch accept and refuse exactly what the escape rules say, also where the digits would reach past the closing quote |
| `JsonLiteral.StoreUtf8` | libjson.c:212-220 | the backward fall-through stores put the UTF-8 bytes in place and touch nothing else |
| `JsonLiteral.DecodeInto` | libjson.c:184-227 | decoding fits the counted buffer including the terminator, ends at the scanned end, and fails exactly where the literal has no meaning |
| `JsonLiteral.ParseStringAt` | libjson.c:171-230 | `parse_string` returns the denoted text and the position behind the literal, or the error position |
| `JsonParser.SkipAt` | libjson.c:302-302 | `skip` stops at the first character above space |
| `JsonParser.ParseNumberAt` | libjson.c:74-93 | the loops of `parse_number` compute mantissa, exponent and end of the number, whose value is stated by `JsonNumber.NumberValue` |
| `JsonParser.ParseValueAt` | libjson.c:338-350 | `parse_value` computes the grammar function: same value and stop on success, same error position on failure |
| `JsonParser.ParseArrayAt` | libjson.c:387-412 | the array loop computes the grammar's array |
| `JsonParser.ParseMemberAt` | libjson.c:505-511 | name, colon and value of one member, with the error positions of each part |
| `JsonParser.ParseObjectAt` | libjson.c:495-528 | the object loop computes the grammar's object |
| `JsonParser.ParseWithOpts` | libjson.c:305-319 | `cJSON_ParseWithOpts`: leading and trailing white space, trailing garbage refused where the terminator is required |
| `JsonLayout.SpacedTextParses` | libjson.c:302-319 | whatever control characters and blanks stand around and between its tokens, a text means the same tree |
| `JsonLayout.WideParses` | libjson.c:338-350 | the same for a value with any text behind that does not extend it |
| `JsonLayout.EscapeMeans` | libjson.c:190-222 | what every one-letter escape stands for; unknown letters stand for themselves |
| `JsonLayout.HexSpelled` | libjson.c:156-169 | the sixteen digits in either case, and the lower case in which they are printed |
| `JsonLayout.ValueRefused` | libjson.c:338-350 | anything else than the start of a value is refused at its place |
| `JsonLayout.ErrorPlaces` | libjson.c:387-412 | the error position is at the token that was not expected |
| `JsonLayout.TrailingCommaRefused` | libjson.c:402-411 | a comma that no item or member follows is refused at the bracket |
| `JsonOverrun.ScanOverruns` | libjson.c:176-176 | the scan runs off a literal's body if and only if every quote in it has an odd number of backslashes in front and the body ends in an odd number of them |
| `JsonOverrun.LiteralOverruns` | libjson.c:171-180 | `parse_string` reads past the terminator exactly on a literal that is left open behind an unpaired backslash |
| `JsonOverrun.ValueContained` | libjson.c:338-350 | a value in a text without a quote, or ending in an even number of backslashes, is parsed inside the text, and the rest is such a text again |
| `JsonOverrun.ParseContained` | libjson.c:305-319 | the parser never reads past the terminator of such a text, whatever it contains |
| `JsonReached.ParseOverruns` | libjson.c:305-319 | the parser reads past the terminator if and only if it reaches a literal that is left open behind an unpaired backslash; it reaches a literal exactly if, with an empty literal in its place and nothing behind, the parse comes to the end of the text |
| `JsonReached.ReplacedContained` | libjson.c:305-319 | the text of that test is never overrun itself, so a caller can make it |
| `JsonReached.ValueAgrees` | libjson.c:338-350 | in front of an open literal the parser does the same as in front of an empty one, unless it runs off or is blocked |
| `JsonSuffix.ValueEnd` | libjson.c:338-350 | what is left behind a parsed value is the end of the text it was parsed from |
| `JsonOverrun.LoneBackslash` | libjson.c:176-176 | a quote and one backslash overrun; with two backslashes the text is accepted as a literal |
| `JsonPrinter.PrintString` | libjson.c:233-289 | the literal with its terminator fills the allocated `len+3` bytes exactly |
| `JsonLayout.EscapePrinted` | libjson.c:270-285 | how every character is printed: as itself, by a letter, or by its code |
| `JsonPrinter.PrintNumber` | libjson.c:125-154 | zero takes 2 bytes, any number that is an int32 takes 21, whatever its exponent, everything else 64; text and terminator fit |
| `JsonPrinter.IntTextLength` | libjson.c:135-140 | eleven characters are enough for every int32 |
| `JsonPrinter.ItemsFit` | libjson.c:458-489 | the size added up for an array's items is that of their text and one more for each item and for the last separator |
| `JsonPrinter.MembersFit` | libjson.c:599-636 | the size added up for an object's members is that of their text and one more |
| `JsonPrinter.PrintValue` | libjson.c:353-384 | the joining printer leaves the specified text, every write inside its allocation |
| `JsonPrinter.PrintArray` | libjson.c:450-491 | the items are joined with commas, the terminators behind each comma included, inside an allocation that exceeds the text by a stated amount |
| `JsonPrinter.PrintObject` | libjson.c:589-638 | names and values are joined with colons, commas and tabs, the terminators behind each value and line included, inside an allocation that exceeds the text by six bytes, or by one for an empty object |
| `JsonLayout.ArrayPrinted` | libjson.c:479-489 | arrays are printed on one line, with a blank behind each comma in formatted output |
| `JsonLayout.ObjectPrinted` | libjson.c:621-636 | objects are printed with each member on its line, a tab for each level and behind the colon |
| `JsonLayout.ObjectPrintedFlat` | libjson.c:621-636 | without formatting there is no white space |
| `JsonPrinter.TextNulFree` | libjson.c:353-384 | a printed text has no terminator inside, so its C length is its length |
| `JsonGrowth.GrowthFits` | libjson.c:95-95 | `pow2gt` of a need up to 2^30 is a power of two, at least the need, less than twice the need, and at most 2^30 |
| `JsonBuffer.PrintBuffer.Ensure` | libjson.c:99-114 | room is made, the new size is `pow2gt` of the need, and everything written is kept |
| `JsonBuffer.PrintBuffer.Update` | libjson.c:116-122 | the offset moves to the end of the text that was just written |
| `JsonBuffer.PrintBuffer.PrintValue` | libjson.c:353-370 | the buffered printer appends exactly the text of the joining printer, across all reallocations, as long as what it reserves stays within 2^30 |
| `JsonBuffer.PrintBuffer.PrintArray` | libjson.c:434-449 | brackets, items and commas are appended; the returned pointer is the start of the array's text |
| `JsonBuffer.PrintBuffer.PrintObject` | libjson.c:551-588 | braces, members and tabs are appended; in formatted output the returned pointer is the depth, not the start |
| `JsonBuffer.PrintBuffered` | libjson.c:327-334 | from any prebuffer of at least one byte, for every tree whose reservations stay within 2^30, the result starts the buffer and is the unbuffered text |
| `JsonBuffer.NeedBounds` | libjson.c:125-154 | what is reserved for a tree ends at least one and at most 64 bytes behind its text |
| `JsonBuffer.NeedWithoutNumbers` | libjson.c:353-370 | for a tree without numbers it is exactly the text and its terminator |
| `JsonList.Node.Walk` | libjson.c:643-643 | the child at the index, negative counting as zero; nothing past the end |
| `JsonList.Node.Append` | libjson.c:653-653 | the children become the old sequence with the item behind it, still doubly linked and distinct, whatever `prev` the item had if there were children |
| `JsonList.Node.Insert` | libjson.c:666-667 | the item is inserted in front of the clamped index whatever its old links are, or appended if it has none |
| `JsonList.Node.Detach` | libjson.c:659-660 | the indexed child leaves the sequence and has no links; without one nothing changes |
| `JsonList.Node.Replace` | libjson.c:668-670 | the item takes the indexed place and the old child loses its links |
| `JsonList.InsertedLinks` | libjson.c:666-667 | the rewritten pointers are the links of the sequence with the item inserted |
| `JsonList.RemovedLinks` | libjson.c:659-660 | the rewritten pointers are the links of the sequence without the child |
| `JsonList.ReplacedLinks` | libjson.c:668-670 | the rewritten pointers are the links of the updated sequence |
| `JsonDuplicate.Duplicate` | libjson.c:690-715 | the copy holds an equal tree, reference flags cleared, made of new nodes only, no node used twice, its root without siblings; without recursion only the root is copied |
| `JsonDuplicate.KidAt` | libjson.c:704-713 | walking the `next` chain visits the subtrees in order |
| `JsonDuplicate.FlagCleared` | libjson.c:699-699 | the flag that is cleared is 256; the type and the flag of 512 are kept |
| `Ring.FullIsCapacity` | ringbuf.c:72-80 | the pointer test for a full ring holds exactly when it stores its capacity: one less than its size, but one for size one |
| `Ring.PushAppends` | ringbuf.c:81-90 | a store into a ring that is not full appends to the contents |
| `Ring.PopTakesOldest` | ringbuf.c:171-190 | a read takes the oldest item off the contents |
| `Ring.OverwriteDropsOldest` | ringbuf.c:72-90 | a store into a full ring drops the oldest item, appends the new one and leaves the ring full |
| `RingQueue.EnqueuedItems` | ringbuf.c:60-106 | enqueue returns -1 exactly when the ring stores its capacity, and then drops exactly the oldest item; otherwise it returns 0 |
| `RingQueue.RingBuffer.constructor` | ringbuf.c:13-19 | an initialised ring is empty with a NULL read position |
| `RingQueue.RingBuffer.Enqueue` | ringbuf.c:60-106 | the pointer updates append to the contents, dropping the oldest item exactly on overflow |
| `RingQueue.RingBuffer.Dequeue` | ringbuf.c:160-205 | the oldest item is returned and removed; underflow exactly when empty |
| `RingQueue.StepMatches` | ringbuf.c:60-106 | each operation keeps the ring in step with a bounded queue, results included |
| `RingQueue.RingRun` | ringbuf.c:160-205 | after every run from an initialised ring the contents, the dequeued items and the number of overflows are those of the bounded queue |
| `RingQueue.FifoConserves` | ringbuf.c:60-205 | in every run the enqueued items are the removed ones followed by the stored ones, and each removed one was dequeued or dropped |
| `RingQueue.RunConserves` | ringbuf.c:13-205 | for every run of the ring: enqueued = dequeued + dropped + stored, in order |
| `RingProtocol.StepKeepsInv` | ringbuf.c:109-157 | every step of every thread keeps mutual exclusion, conservation, readiness, the exact counter and watched sleepers |
| `RingProtocol.RunKeepsInv` | ringbuf.c:208-254 | the invariant holds after every interleaving of any number of threads, spurious wake-ups included |
| `RingProtocol.CallEffect` | ringbuf.c:133-143 | what the critical section does to contents and history once its wait is over, and by how much the counter then has to change |
| `RingProtocol.NothingLost` | ringbuf.c:109-254 | in every reachable state the items enqueued, in critical-section order, are the removed items followed by the stored ones, and at most one thread is inside |
| `RingProtocol.NoLostWakeup` | ringbuf.c:120-147 | with the mutex free, a thread waiting for room implies a full ring, one waiting for an item an empty ring, and both kinds never wait at once |
| `RingProtocol.StuckOnlyWaiting` | ringbuf.c:109-254 | when no thread can move on, the mutex is free and every thread is idle or asleep, all producers at a full ring or all consumers at an empty one |
| `RingCounter.CounterExact` | ringbuf.c:241-253 | with undisturbed updates `num` plus the update due inside the lock is stored items plus consumers that have not decremented it; it is never negative, and with no update due it equals the contents length exactly when no consumer is pending |
| `RingCounter.CounterAccount` | ringbuf.c:79-252 | with every update of `num`, inside the lock and after it, as a load and a store, in every run `num` is off by exactly the updates that stores have overwritten |
| `RingCounter.RightIffUndisturbed` | ringbuf.c:79-252 | the counter is right throughout a run if and only if at every store it still is what the storing thread has loaded |
| `RingCounter.AtomicUndisturbed` | ringbuf.c:79-252 | runs whose updates are single steps are undisturbed |
| `RingCounter.CounterLags` | ringbuf.c:241-252 | a run to a state with an empty ring and a counter of one |
| `RingCounter.LostUpdate` | ringbuf.c:143-252 | a run in which a put between load and store is lost: all threads idle, one item stored, the counter zero |
| `RingCounter.SwallowedDecrement` | ringbuf.c:143-252 | a run in which a late decrement, even in one step, is swallowed by a put that is counting inside the lock: all threads idle, one item stored, the counter two |
| `RingProtocol.BlockingDelivers` | ringbuf.c:208-254 | as long as nobody calls the dropping enqueue, every removed item was delivered by a dequeue |
| `RingProtocol.ExclusiveKept` | ringbuf.c:113-154 | mutual exclusion: the owner is exactly the thread inside |
| `RingProtocol.WatchedKept` | ringbuf.c:120-147 | every sleeper's condition still holds, or the thread inside is about to broadcast to it |
| `RingProtocol.BroadcastWakes` | ringbuf.c:145-147 | a broadcast wakes all the threads that wait for it, and no others |
| `RingProtocol.CountedKept` | ringbuf.c:241-253 | every step keeps the account of the counter: `num` plus the overwritten updates plus the update due inside the lock is stored items plus pending decrements, with every update in one step or torn into load and store |
| `RingProtocol.StoredKept` | ringbuf.c:81-90 | a put that has not been counted yet still has its item in the ring |
| `IniParsed.LineParsed` | cfgfile.c:564-670 | every entry stored for an ended line is well-formed, and a continuation comes from an indented line only |
| `IniLines.KeyLineCommented` | cfgfile.c:614-658 | a key, an equals sign, a value, white space and a comment behind a semicolon or hash, with any white space around: the entry of the four |
| `IniLines.KeyLinePlain` | cfgfile.c:614-651 | the same without a comment |
| `IniLines.ContinuationMeans` | cfgfile.c:590-651 | an indented line continues the value above it, with or without a comment |
| `IniLines.BlankLine` | cfgfile.c:590-651 | white space alone, on a last line without line end, is an empty continuation |
| `IniLines.SectionLineCommented` | cfgfile.c:601-658 | a section, indented or not, with blanks inside its brackets and a comment behind either mark |
| `IniLines.SectionLinePlain` | cfgfile.c:601-613 | anything else behind the bracket is ignored |
| `IniLines.NamelessDropped` | cfgfile.c:603-611 | brackets without a name and an open bracket are dropped |
| `IniLines.SemicolonLine` | cfgfile.c:614-658 | a semicolon starts a comment line, indented or not |
| `IniLines.HashLine` | cfgfile.c:614-628 | a line that starts with a hash is a key if it has an equals sign, and is dropped otherwise |
| `IniLines.NoEquals` | cfgfile.c:620-625 | a line that is none of these and has no equals sign is dropped |
| `IniLines.ValueSpelled` | cfgfile.c:631-651 | which values without quotes end in front of a comment: no mark in them follows white space |
| `IniLines.QuotedValue` | cfgfile.c:636-642 | between quotes of either kind everything belongs to the value |
| `IniLines.IdSpelled` | cfgfile.c:623-627 | which keys are read as they are written |
| `IniLines.SectionSpelled` | cfgfile.c:603-607 | which section names are read as they are written |
| `IniLines.OneLineSpelled` | cfgfile.c:507-507 | a line has none of line feed, carriage return, U+001A and NUL |
| `IniLines.LineRead` | cfgfile.c:518-543 | a line ends at a line feed, a carriage return, both, or U+001A, white space at its end is dropped, and the parse goes on behind it |
| `IniLines.LastLineRead` | cfgfile.c:529-542 | a last line without line end is taken as it is |
| `IniLines.CommentedKeyRead` | cfgfile.c:1739-1754 | a key with a comment behind either mark, in a file with any of the line ends, reads as its value |
| `IniText.LoopEndsExactly` | cfgfile.c:523-583 | the parse of an image returns if and only if there is no NUL byte inside it |
| `IniText.NeverEnds` | cfgfile.c:580-583 | at a NUL byte the loop stands still for any number of rounds |
| `IniOutput.ValueBack` | cfgfile.c:631-658 | a printed value with its comment is read back, quotes and an empty value included |
| `IniOutput.KeySplit` | cfgfile.c:1251-1259 | the width and precision of the aligned key never cut a key and only pad it with blanks |
| `IniOutput.LineBack` | cfgfile.c:1104-1317 | the line printed for an entry is read back as that entry, in both styles |
| `IniLayout.KeyPrinted` | cfgfile.c:1140-1148 | a compact key has no blanks around the equals sign, an aligned one is padded to the width |
| `IniLayout.SectionPrinted` | cfgfile.c:1120-1122 | a header in brackets, with a tab and a semicolon in front of its comment |
| `IniLayout.ContinuationPrinted` | cfgfile.c:1152-1157 | a continuation is indented by two blanks in aligned output only |
| `IniLayout.CommentPrinted` | cfgfile.c:1312-1312 | a comment line starts with a semicolon |
| `IniLayout.WidthIsLongest` | cfgfile.c:1235-1243 | the width is the length of the section's longest key |
| `IniLayout.HeaderPrinted` | cfgfile.c:1226-1247 | an empty line in front of a header if a section was printed since the last empty line |
| `IniLayout.ValuesPrinted` | cfgfile.c:1251-1268 | none in front of keys and continuations |
| `IniLayout.BlockPrinted` | cfgfile.c:1270-1313 | one in front of the comment lines that go with the section below, and none between them and its header |
| `IniLayout.NotePrinted` | cfgfile.c:1281-1286 | none in front of other comment lines |
| `IniRoundTrip.OutputParses` | cfgfile.c:1104-1317 | parsing the printed list gives the list back, blank lines and key widths included, when each entry can be shown in the style |
| `IniRoundTrip.OutputReturns` | cfgfile.c:1104-1317 | the parse of a printed file returns |
| `IniRoundTrip.CompactExact` | cfgfile.c:1104-1206 | well-formed entries survive `_cfg_output` and a reparse, which returns, if and only if there is no continuation among them |
| `IniRoundTrip.ContinuationLost` | cfgfile.c:1152-1157 | a continuation that does not survive the compact printer |
| `IniRoundTrip.AlignedExact` | cfgfile.c:1215-1317 | well-formed entries, continuations included, survive `_cfg_outputformatted` and a reparse, which returns, if and only if no key and no continuation is empty |
| `IniRoundTrip.EmptyKeyLost` | cfgfile.c:1251-1259 | an entry with an empty key that does not survive the aligned printer |
| `IniRoundTrip.AlignedShown` | cfgfile.c:1235-1259 | the width computed for a section fits each of its keys |
| `IniStore.ReadYourWrite` | cfgfile.c:864-982 | after a write of a quote-free key, lookup gives the written value, unless an earlier entry of the section spells the key with quotes; then exactly that entry's value |
| `IniStore.QuotedKeyHides` | cfgfile.c:820-831 | a file in which a write is not read back, because the section already spells the key with quotes |
| `IniStore.WriteFrame` | cfgfile.c:864-982 | every other lookup is as before the write, whether it updated, inserted, appended or created the section |
| `IniExact.WriteUpdates` | cfgfile.c:960-974 | the first entry with exactly that key gets the value and keeps its comment; nothing else changes |
| `IniExact.WriteAdds` | cfgfile.c:937-982 | a new key becomes the last entry of the section, without a comment |
| `IniExact.WriteCreates` | cfgfile.c:914-928 | a new section comes last, with its key |
| `IniExact.LookupFinds` | cfgfile.c:807-848 | lookup gives the first value under the key in the first section of the name |
| `IniExact.LookupMisses` | cfgfile.c:807-848 | and nothing if that section has none, whatever later sections hold |
| `IniExact.QuotesRemoved` | cfgfile.c:193-211 | a key is what stands between its leading quotes and the next quote |
| `IniStore.PlainKeyKept` | cfgfile.c:193-211 | removing quotes leaves a quote-free key alone |
| `IniStore.DeleteKeyFrame` | cfgfile.c:983-1053 | deleting a key with the block comments above it changes no other lookup |
| `IniStore.DeletedKeyGone` | cfgfile.c:983-1053 | the deleted key is gone if and only if its section did not define it a second time |
| `IniExact.DeleteTakes` | cfgfile.c:983-1053 | the first entry with exactly that key goes with the comment lines directly above it, and nothing else |
| `IniStore.SecondKeyStays` | cfgfile.c:994-1000 | a key defined twice is still found after its deletion |
| `IniStore.DeleteSectionFrame` | cfgfile.c:1006-1054 | deleting a section changes no lookup in another section |
| `IniStore.DeletedSectionGone` | cfgfile.c:1006-1054 | after a deletion the name means the next section of that name, or nothing |
| `IniExact.DropTakes` | cfgfile.c:1006-1054 | a section goes with its comment lines, header and entries; the comment lines of the next section stay |
| `IniStore.ScanUpExact` | cfgfile.c:1031-1036 | the upward scan stays in the array if and only if some entry above is no block comment, and then it stops at the last such entry |
| `IniStore.DeleteStaysExactly` | cfgfile.c:1021-1036 | deleting a section stays in the array if and only if some entry above the section is no block comment |
| `IniStore.FirstSectionStrays` | cfgfile.c:1031-1032 | deleting the section that a file starts with always reads in front of the array |
| `IniStore.CommentedSectionStrays` | cfgfile.c:1031-1036 | a comment above the section does not help, a key does |
| `IniPool.CopiedBound` | cfgfile.c:711-737 | all reallocations together copy at most three entries for each entry allocated |
| `IniPool.InsertStaysExactly` | cfgfile.c:944-948 | an insertion stays inside the pool if and only if there are two free slots, wherever it happens |
| `IniPool.TightSizes` | cfgfile.c:711-737 | among pools filled entry by entry, exactly those that are full or have one free slot cannot take an insertion: one of the sizes of the growth sequence, or one less |
| `IniPool.FirstBoundaries` | cfgfile.c:718-720 | the growth sequence starts 103, 155, 233 |
| `IniConfig.Config.PoolAlloc` | cfgfile.c:711-737 | the pool grows as computed; earlier entries keep value and order |
| `IniConfig.Config.StoreEntry` | cfgfile.c:673-708 | the entry is appended |
| `IniConfig.Config.NextEntry` | cfgfile.c:767-805 | the cursor stops at the next section or value and shows it; at the end only silent entries were passed |
| `IniConfig.Config.FindKey` | cfgfile.c:807-848 | the cursor loop finds exactly what the lookup gives, and leaves its value on the handle |
| `IniConfig.Config.InsertAt` | cfgfile.c:941-958 | the insertion stays inside the pool exactly if the pointer taken before the allocation is still alive and the moved block ends inside the array, and then all other entries move by one; otherwise the model stops |
| `IniConfig.Config.WriteKey` | cfgfile.c:914-982 | the loops and moves of a write compute the specified list, or leave the pool exactly where an insertion does |
| `IniConfig.Config.DeleteEntry` | cfgfile.c:983-1053 | the key and its block comments are cut out, all indices in range, and the handle is dirty exactly if something went |
| `IniConfig.Config.RemoveSection` | cfgfile.c:1006-1054 | the section and its block comments are cut out and the next section's comments stay, or an upward scan leaves the array and nothing is done |
| `IniConfig.Config.Change` | cfgfile.c:864-1057 | which change a write makes, when it leaves the pool, and that every lookup in another section or of another key is as before |
| `IniConfig.ChangedFrame` | cfgfile.c:864-1057 | no write or deletion changes a lookup in another section or of another key |
| `IniRuntime.GetLineAt` | cfgfile.c:518-543 | the line loop returns the next trimmed line, and advances exactly if it is not at the end or at a NUL byte |
| `IniRuntime.CutAt` | cfgfile.c:631-651 | the value loop stops at the first comment mark behind white space and outside quotes |
| `IniRuntime.ScanLine` | cfgfile.c:585-658 | the branches of the line scanner store the specified entry |
| `IniRuntime.LoadImage` | cfgfile.c:564-670 | the parse fills the handle with the specified entries, by single allocations, and comes to a round that does not get on exactly if it would never return |
| `IniRuntime.PrintEntries` | cfgfile.c:1104-1317 | both printers produce the specified text |
| `IniRuntime.WriteFile` | cfgfile.c:1866-1879 | the loops from parsing to printing compute the file after `Cfg_WriteStr`, or the outcomes of leaving the pool and of not returning |
| `IniRuntime.RemoveFile` | cfgfile.c:2085-2093 | the file after `Cfg_RemoveKey`, left as it is when the key is not there (`IniKept.RemoveAbsent`), or the outcome of not returning |
| `IniRuntime.DropFile` | cfgfile.c:1866-1879 | the file after a write with neither key nor value, left as it is when the section is not there (`IniKept.DropAbsent`), or the outcomes of leaving the array and of not returning |
| `IniRuntime.ReadFile` | cfgfile.c:1739-1754 | the value read from the file, or the default, or the outcome of not returning |
| `IniFile.ParsedOk` | cfgfile.c:564-670 | every ended file without NUL bytes parses to well-formed entries |
| `IniFile.HangsExactly` | cfgfile.c:1739-1879 | reading, writing and removing do not return if and only if there is a NUL byte in the file |
| `IniFile.NulFileHangs` | cfgfile.c:580-583 | a file with a NUL byte on a line of its own, of which nothing can be read or written |
| `IniFile.WriteStrEntries` | cfgfile.c:1866-1879 | a write to a good file returns, and leaves the pool exactly where it inserts and the number of entries, or that number plus one, is in the growth sequence; otherwise the new file parses to exactly the written entries and is again ended, free of NUL bytes and of continuations |
| `IniFile.RoomBySize` | cfgfile.c:941-958 | for every number of entries from two on there is a well-formed file of two sections; adding a key to the first fails exactly at the sizes of the growth sequence and one less |
| `IniFile.NoRoom` | cfgfile.c:941-958 | such files of 102, 103, 154, 155, 232 and 233 entries, in which the write fails |
| `IniFile.WriteThenRead` | cfgfile.c:1739-1879 | end to end on the text: the value reads back (up to a quoted spelling in front of it) and every other section and key reads as before |
| `IniFile.WritesThenRead` | cfgfile.c:1739-1879 | over any sequence of writes to a file without quoted keys, each with its slots, no call hangs and every key reads as its last write, or as in the original file |
| `IniFile.RemoveThenRead` | cfgfile.c:2085-2093 | removing a key from a file: exactly the remaining entries are in the new file, the key is gone if and only if it was defined once, every other key reads as before |
| `IniFile.DropThenRead` | cfgfile.c:1866-1879 | removing a section from a file fails exactly if it is there with nothing but block comments above it; otherwise other sections read as before and the name means the next section of that name |
| `IniKept.RemoveAbsent` | cfgfile.c:983-1004 | for every file whose parse returns: without that key in the first section of that name the file is left as it is; with it fewer entries are read from the new file |
| `IniKept.DropAbsent` | cfgfile.c:914-919 | the same for a section |
| `IniKept.NoteKept` | cfgfile.c:1400-1404 | a line that the parser drops survives the removal of a key that is not there |
| `IniKept.LineAdded` | cfgfile.c:1866-1879 | the exact text of a small file after a key was added |

## Left out

- Floating point: a parsed number is kept as its decimal mantissa and exponent, `pow`, rounding and negative zero are not modelled; the printer takes the text of a number that is not an int32 as a parameter (a decimal fraction that rounding would turn into an integer counts as none), and overflow of the exponent counter is not modelled.
- JsonRoundTrip.ValueRoundTrip: number leaves are int32 values with exponent zero, the form the parser gives them; `JsonRoundTrip.IntRoundTrip` covers other exponents, and the text of other numbers is floating-point formatting.
- JsonMinifyPrint.MinifyPrint: the texts of floating-point numbers are assumed to contain no white space, quote or slash, which `%e`, `%f` and `null` satisfy.
- JsonPrinter.PrintValue: strings in the tree have no terminator inside and floating-point texts fit 64 bytes; a NULL string, printed as an empty literal, is the empty string here.
- JsonBuffer.PrintBuffered: what is reserved stays within 2^30, the range in which `pow2gt` stays in 32 bits.
- JSON trees are values in parser and printers; the linked nodes they are stored in are modelled in `JsonList` and `JsonDuplicate` only.
- JsonList.Node.Append: the new item is required to have no `next`, and as the first child no `prev`, since the code does not clear them.
- Overflow of 32-bit lengths and counts outside the print buffer, for texts, trees and files beyond 2^31; `isspace` is that of the C locale.
- Allocation failure, memory hooks, freeing, items that share the children of another (beyond clearing their flag in a copy) and constant names.
- Object members by name, which compares without case, and the array constructors: thin layers over the list.
- `osPackageJsonStr` and `osJsonParseMsg`: splitting with `strtok`, not a JSON parser.
- Errors of the pthread calls, `ringbuf_fini` and `ringbuf_dump`. The update of the ring's positions and data inside a critical section is one step, since nobody looks at them outside.
- `cfg_write` and `cfg_find` with a NULL section, and with them `ini_setstr` and `ini_getstr`: the second search starts from a count of -1 and lookup passes the first entry, so there is no contract to state. `cfg_find` without a key.
- IniConfig.Config.InsertAt: what the code does to memory after it has left the pool is not modelled.
- IniConfig.Config.RemoveSection: what the code reads and removes after its scan has left the array is not modelled.
- IniConfig.Config.StoreEntry: ownership flags are not modelled, nor the branch that copies the value in place of the comment, which no caller reaches with a comment.
- IniFile.WriteThenRead: section, key and value are well-formed: no line ends, a key without quotes and equals sign, a value with balanced quotes that no comment mark cuts; the file ends with a line end and has no NUL bytes and no continuation lines.
- IniRuntime.LoadImage: the image is a text value; cutting it in place by terminators is not modelled, the entries hold the cut pieces.
- IniPool.CopiedBound: entries take 40 bytes, as on a 64-bit machine.
- File opening, locks, modification times and the cache, `cfg_commit` beyond the printed text, the numeric and formatted wrappers, and the lists of sections and keys.
- All other files of the library: thin layers over operating-system calls.
