# kotlin-csv reading core in Dafny

This project models the part of kotlin-csv's `CsvReader` that turns lines of text into
CSV rows, and the terminator-keeping line reader `BufferedLineReader`:

- **Row assembly (`readNext`).** Lines are pulled one at a time and handed to the row
  parser, each followed by the platform line separator. When the parser says a quoted
  field is still open (it returns null), the text read so far is carried over as a
  *leftover* into the next attempt. At the end of the input, an empty leftover means
  there are no more rows. A non-empty one is a malformed-CSV error.
- **The row sequence.** `read` pulls `readNext` repeatedly until it reports the end.
- **`readWithHeader`.** The first row is the header, and a header name that occurs twice
  is rejected (`findDuplicate`). Every later row must have as many fields as the header
  and becomes a map from header name to field.
- **`BufferedLineReader.readLineWithTerminator`.** Returns the next line together with
  its terminator. A terminator is LF, CR LF, CR, U+2028, U+2029 or U+0085.

Files:

- `text.dfy` (module `Text`): Kotlin's nullable values (`Option`) and joined text (`Concat`).
- `line_reader.dfy` (module `LineReading`):
  - the line split as a function (`Lines`) and its properties;
  - the class `BufferedLineReader`, whose method hands out the same lines one call at a
    time over a cursor into the text;
  - the six reader tests, each as a method that builds a reader and calls it three times.
- `row_assembly.dfy` (module `RowAssembly`):
  - `readNext` as written (`NextRow`) and with its retry corrected (`NextRowRetained`);
  - a characterization of each;
  - the row sequence (`AllRows`) and its relation to the successive pulls (`PullRows`).
- `header_rules.dfy` (module `HeaderRules`):
  - `findDuplicate` as a function;
  - the zip into a map;
  - `readWithHeader` in two forms: rows checked as they are pulled (`WithHeader`) and
    rows checked after all of them are read (`Validate`), proved equal whenever every
    row can be read;
  - its duplicate-header and size-mismatch errors, for every input.
- `csv_reader.dfy` (module `CsvReading`):
  - the class `LineInput`, for the buffered reader's `readLine`;
  - the class `CsvReader`, whose methods are the source's loops. Each method is proved
    against the functions above.

How the model represents the source:

- **The parser.** `CsvParser.parseRow` is not part of this model. It is the function-typed
  field `parser` of `ReaderSettings`. Every property holds for every parser.
- **The separator.** `System.lineSeparator()` is the field `lineSeparator`.
- **Which readNext.** The row sequence and `readWithHeader` take an `Assembler`:
  - `AsWritten` pulls rows with readNext exactly as the source does;
  - `Retained` pulls them with the retry corrected (see Findings).

  Every property of the row sequence and of `readWithHeader` is proved for both. The two
  differ whenever a read ends inside an open quoted field. For the single line `"abc`, the
  code as written reports the leftover `"abc`, and the corrected one reports `"abc`
  followed by the separator. They also differ on quoted fields spanning three or more lines.
- **Exceptions.** A thrown `MalformedCSVException` becomes a `Fail` result. Its kind and
  its data are the `CsvError` constructors:
  - `MalformedLeftOver` (CsvReader.kt line 85);
  - `DuplicatedHeader` (line 71);
  - `FieldCountMismatch` (line 75).

## Model

| member | source | states |
|---|---|---|
| LineReading.LineEnd | src/test/kotlin/com/github/doyaaaaaken/kotlincsv/client/BufferedLineReaderTest.kt:11-63 | a line starting inside the text ends after at least one character and no later than the end of the text |
| LineReading.LinesFrom | src/test/kotlin/com/github/doyaaaaaken/kotlincsv/client/BufferedLineReaderTest.kt:11-63 | the lines still to be read from a position: there are no more of them than characters left, and none exactly when the position is at the end. `LinesRoundTrip`, `LinesWellSplit` and `WellSplitUnique` pin the split down completely |
| LineReading.Lines | src/test/kotlin/com/github/doyaaaaaken/kotlincsv/client/BufferedLineReaderTest.kt:11-63 | the lines of a whole text: no more of them than characters, and none exactly for the empty text |
| LineReading.LinesRoundTrip | src/test/kotlin/com/github/doyaaaaaken/kotlincsv/client/BufferedLineReaderTest.kt:11-63 | joining the lines read from any position gives back exactly the rest of the text: nothing is dropped, added or reordered |
| LineReading.LinesWellSplit | src/test/kotlin/com/github/doyaaaaaken/kotlincsv/client/BufferedLineReaderTest.kt:11-63 | every line is non-empty, and every line but the last ends in exactly one terminator and holds no other break. The last line does the same or holds no break at all, so a trailing fragment comes back as it is. A CR LF is never split across two lines |
| LineReading.WellSplitUnique | src/test/kotlin/com/github/doyaaaaaken/kotlincsv/client/BufferedLineReaderTest.kt:11-63 | any split into lines of that shape that joins back to the text is the reader's split, so the shape and the round trip together specify the reader completely |
| LineReading.SplitAtTerminator | src/test/kotlin/com/github/doyaaaaaken/kotlincsv/client/BufferedLineReaderTest.kt:11-63 | a break-free line, any one terminator and a non-empty break-free fragment read as exactly two lines: the line with its terminator, then the fragment |
| LineReading.ReadThreeTimes | src/test/kotlin/com/github/doyaaaaaken/kotlincsv/client/BufferedLineReaderTest.kt:11-63 | the shape of every test: a new reader over a break-free line, any one terminator and a non-empty break-free fragment returns the line with its terminator, then the fragment, then null |
| LineReading.LfTest | src/test/kotlin/com/github/doyaaaaaken/kotlincsv/client/BufferedLineReaderTest.kt:11-18 | a reader over `a,b,c\nd,e,f` returns `a,b,c\n`, then `d,e,f`, then null |
| LineReading.CrLfTest | src/test/kotlin/com/github/doyaaaaaken/kotlincsv/client/BufferedLineReaderTest.kt:20-27 | a reader over `a,b,c\r\nd,e,f` returns `a,b,c\r\n` (CR LF kept together), then `d,e,f`, then null |
| LineReading.CrTest | src/test/kotlin/com/github/doyaaaaaken/kotlincsv/client/BufferedLineReaderTest.kt:29-36 | a reader over `a,b,c\rd,e,f` returns `a,b,c\r`, then `d,e,f`, then null |
| LineReading.LineSeparatorTest | src/test/kotlin/com/github/doyaaaaaken/kotlincsv/client/BufferedLineReaderTest.kt:38-45 | with U+2028 as terminator: `a,b,c` plus U+2028, then `d,e,f`, then null |
| LineReading.ParagraphSeparatorTest | src/test/kotlin/com/github/doyaaaaaken/kotlincsv/client/BufferedLineReaderTest.kt:47-54 | with U+2029 as terminator: `a,b,c` plus U+2029, then `d,e,f`, then null |
| LineReading.NextLineTest | src/test/kotlin/com/github/doyaaaaaken/kotlincsv/client/BufferedLineReaderTest.kt:56-63 | with U+0085 as terminator: `a,b,c` plus U+0085, then `d,e,f`, then null |
| LineReading.BufferedLineReader.constructor | src/test/kotlin/com/github/doyaaaaaken/kotlincsv/client/BufferedLineReaderTest.kt:12-14 | a new reader has all the lines of its text still to hand out |
| LineReading.BufferedLineReader.ReadLineWithTerminator | src/test/kotlin/com/github/doyaaaaaken/kotlincsv/client/BufferedLineReaderTest.kt:11-63 | gives null and leaves the cursor alone once the text is used up. Otherwise it returns the next line of the split, which is exactly the characters between the old and new cursor, and removes that line from the ones still to come |
| RowAssembly.ParserInput | src/main/kotlin/com/github/doyaaaaaken/kotlincsv/client/CsvReader.kt:90-94 | the text handed to the parser starts with the leftover, when there is one, and ends with the new line followed by the separator |
| RowAssembly.NextRow | src/main/kotlin/com/github/doyaaaaaken/kotlincsv/client/CsvReader.kt:81-102 | readNext as written: it consumes at most the lines there are. A row costs at least one line. No row means every line was consumed |
| RowAssembly.NextRowCharacterized | src/main/kotlin/com/github/doyaaaaaken/kotlincsv/client/CsvReader.kt:81-102 | readNext returns the row the parser gives on the first attempt it accepts, after consuming exactly the lines up to it; the parser said null on every earlier attempt. Each attempt sees the leftover glued to the earlier lines, then the separator, the line and the separator. If no attempt is accepted: null when the final leftover is empty, a malformed-leftover error carrying it otherwise |
| RowAssembly.EndOfInput | src/main/kotlin/com/github/doyaaaaaken/kotlincsv/client/CsvReader.kt:82-88 | with no line left, the result is null for an empty leftover and a malformed-leftover error carrying the leftover otherwise, and no line is consumed |
| RowAssembly.NextRowRetained | src/main/kotlin/com/github/doyaaaaaken/kotlincsv/client/CsvReader.kt:81-102 | readNext with the retry corrected: the same bounds on the lines consumed as the code as written |
| RowAssembly.NextRowRetainedCharacterized | src/main/kotlin/com/github/doyaaaaaken/kotlincsv/client/CsvReader.kt:81-102 | the corrected readNext hands the parser, on the attempt for line k, the leftover followed by lines 0..k each with its separator. It returns the row of the first attempt accepted, all earlier attempts having been refused. Otherwise it gives null or a malformed-leftover error carrying all the gathered text |
| RowAssembly.RetainedKeepsLineBreaks | src/main/kotlin/com/github/doyaaaaaken/kotlincsv/client/CsvReader.kt:90-97 | starting from an empty leftover, the text that yields a row is exactly the consumed lines, each followed by one separator. The read fails exactly when input remained but no row closed, and the error carries all the lines read |
| RowAssembly.LineBreakLostAsWritten | src/main/kotlin/com/github/doyaaaaaken/kotlincsv/client/CsvReader.kt:93-97 | for lines `"a`, `b`, `c"` the code as written hands the parser `"ab` + separator + `c"` + separator on its third attempt, which differs from the three lines each with its separator. The result is that parse, or a malformed-leftover error carrying `"abc"` |
| RowAssembly.ReadRow | src/main/kotlin/com/github/doyaaaaaken/kotlincsv/client/CsvReader.kt:81-102 | one readNext call from an empty leftover, as written or corrected. It consumes at most the lines there are, and a row costs at least one line |
| RowAssembly.AllRows | src/main/kotlin/com/github/doyaaaaaken/kotlincsv/client/CsvReader.kt:64-66 | the rows of `generateSequence { readNext(br) }`: a successful read yields no more rows than the input has lines |
| RowAssembly.PullRows | src/main/kotlin/com/github/doyaaaaaken/kotlincsv/client/CsvReader.kt:65 | the first n pulls, when each yields a row: exactly n rows, and no more lines left than there were |
| RowAssembly.AllRowsComplete | src/main/kotlin/com/github/doyaaaaaken/kotlincsv/client/CsvReader.kt:64-66 | the read succeeds with n rows exactly when the first n pulls each yield a row and the pull after them reports the end |
| RowAssembly.AllRowsArePulls | src/main/kotlin/com/github/doyaaaaaken/kotlincsv/client/CsvReader.kt:64-66 | the rows of a successful read are the rows of the successive pulls, in order |
| HeaderRules.FirstDuplicate | src/main/kotlin/com/github/doyaaaaaken/kotlincsv/client/CsvReader.kt:104-114 | a name it returns occurs at least twice among the headers |
| HeaderRules.FirstDuplicateSpec | src/main/kotlin/com/github/doyaaaaaken/kotlincsv/client/CsvReader.kt:104-114 | findDuplicate gives null exactly when all names are pairwise distinct. Otherwise a first repeated position exists, and the result is the name at that position |
| HeaderRules.FirstDuplicateExtends | src/main/kotlin/com/github/doyaaaaaken/kotlincsv/client/CsvReader.kt:106-108 | stopping at the first name already seen is sound: a duplicate found in a prefix is the duplicate of the whole list |
| HeaderRules.ZipToMap | src/main/kotlin/com/github/doyaaaaaken/kotlincsv/client/CsvReader.kt:77 | for as many fields as names, the map's keys are exactly the header names |
| HeaderRules.ZipToMapSpec | src/main/kotlin/com/github/doyaaaaaken/kotlincsv/client/CsvReader.kt:77 | for distinct names and as many fields as names, the map has exactly the names as keys and as many entries as names, and it maps the name at position j to field j |
| HeaderRules.ZipRows | src/main/kotlin/com/github/doyaaaaaken/kotlincsv/client/CsvReader.kt:73-78 | the data rows as they are pulled and checked: on success, every map is keyed by exactly the header names |
| HeaderRules.ZipRowsReadsAll | src/main/kotlin/com/github/doyaaaaaken/kotlincsv/client/CsvReader.kt:73-78 | a successful data-row read has read every row, one map per row |
| HeaderRules.ZipRowsMismatch | src/main/kotlin/com/github/doyaaaaaken/kotlincsv/client/CsvReader.kt:73-78 | when the first k+1 data pulls yield rows and row k is the first of the wrong size, the data rows fail with that row's size and the header's, whatever the lines after it hold |
| HeaderRules.ZipRowsConsumed | src/main/kotlin/com/github/doyaaaaaken/kotlincsv/client/CsvReader.kt:73-78 | the number of lines the data-row read takes before it stops, which is at most the lines there are |
| HeaderRules.ZipRowsStopsOnMismatch | src/main/kotlin/com/github/doyaaaaaken/kotlincsv/client/CsvReader.kt:73-78 | the data-row read leaves lines unread only when it fails on a row of the wrong size |
| HeaderRules.ZipRowsStopsAfterMismatch | src/main/kotlin/com/github/doyaaaaaken/kotlincsv/client/CsvReader.kt:73-78 | when row k is the first data row of the wrong size, the read stops right after it: the lines left are exactly those after the first k+1 pulls |
| HeaderRules.WithHeader | src/main/kotlin/com/github/doyaaaaaken/kotlincsv/client/CsvReader.kt:68-79 | readWithHeader: when it succeeds on an input with a header, the header names are distinct and every map is keyed by exactly them |
| HeaderRules.WithHeaderConsumed | src/main/kotlin/com/github/doyaaaaaken/kotlincsv/client/CsvReader.kt:68-79 | the number of lines readWithHeader takes before it stops, which is at most the lines there are |
| HeaderRules.WithHeaderStopsOnFailure | src/main/kotlin/com/github/doyaaaaaken/kotlincsv/client/CsvReader.kt:68-79 | readWithHeader leaves lines unread only when it fails on a repeated header name or on a data row of the wrong size |
| HeaderRules.WithHeaderReadsAll | src/main/kotlin/com/github/doyaaaaaken/kotlincsv/client/CsvReader.kt:68-79 | a successful readWithHeader has read every row: no maps for an input without rows, otherwise one map per row after the header |
| HeaderRules.WithHeaderDuplicate | src/main/kotlin/com/github/doyaaaaaken/kotlincsv/client/CsvReader.kt:69-71 | when the first pull yields a header whose names repeat, the read fails with the first repeated name, whatever follows, and stops right after the header without pulling any data row |
| HeaderRules.WithHeaderMismatch | src/main/kotlin/com/github/doyaaaaaken/kotlincsv/client/CsvReader.kt:68-79 | with a header of distinct names, the read fails on the first data row of the wrong size with that row's size and the header's, whatever the lines after it hold, and stops right after that row |
| HeaderRules.CheckRowsSpec | src/main/kotlin/com/github/doyaaaaaken/kotlincsv/client/CsvReader.kt:73-78 | the size check succeeds exactly when every row has as many fields as the header, then giving one map per row, in order. Otherwise it fails on the first row of the wrong size, with that row's size and the header's |
| HeaderRules.ZipRowsStaged | src/main/kotlin/com/github/doyaaaaaken/kotlincsv/client/CsvReader.kt:73-78 | checking data rows as they are pulled gives the same result as reading them all and then checking them |
| HeaderRules.WithHeaderStaged | src/main/kotlin/com/github/doyaaaaaken/kotlincsv/client/CsvReader.kt:68-79 | readWithHeader equals the header check followed by the size checks on the fully read rows, whenever all rows can be read |
| HeaderRules.ReadWithHeaderSpec | src/main/kotlin/com/github/doyaaaaaken/kotlincsv/client/CsvReader.kt:68-79 | for an input whose rows are `header` then `data`: success exactly when the header names are distinct and every data row has the header's size. Then there is one map per data row, keyed by exactly the header names, with name j mapped to field j. Otherwise: a duplicated-header error with the first repeated name, or a mismatch error for the first row of the wrong size |
| HeaderRules.ReadWithHeaderEmpty | src/main/kotlin/com/github/doyaaaaaken/kotlincsv/client/CsvReader.kt:69-73 | an input without rows (null header) gives no maps and no error |
| CsvReading.LineInput.constructor | src/main/kotlin/com/github/doyaaaaaken/kotlincsv/client/CsvReader.kt:50 | a new line source starts before its first line |
| CsvReading.LineInput.ReadLine | src/main/kotlin/com/github/doyaaaaaken/kotlincsv/client/CsvReader.kt:82 | readLine gives the next unread line and advances past it, or null at the end without moving |
| CsvReading.CsvReader.constructor | src/main/kotlin/com/github/doyaaaaaken/kotlincsv/client/CsvReader.kt:16-20 | the reader keeps the settings it is built with |
| CsvReading.CsvReader.ReadNext | src/main/kotlin/com/github/doyaaaaaken/kotlincsv/client/CsvReader.kt:81-102 | the loop returns what `NextRow` specifies for the unread lines from an empty leftover, and advances the line source by exactly the lines `NextRow` consumes |
| CsvReading.CsvReader.ReadNextRetained | src/main/kotlin/com/github/doyaaaaaken/kotlincsv/client/CsvReader.kt:81-102 | the corrected loop returns what `NextRowRetained` specifies, and advances the line source by exactly the lines it consumes |
| CsvReading.CsvReader.PullRow | src/main/kotlin/com/github/doyaaaaaken/kotlincsv/client/CsvReader.kt:65 | one readNext call with the chosen assembler: the result `ReadRow` specifies, with the line source advanced by the lines it consumes |
| CsvReading.CsvReader.ReadAll | src/main/kotlin/com/github/doyaaaaaken/kotlincsv/client/CsvReader.kt:64-66 | pulling rows until the end gives `AllRows` of the unread lines, and the read uses up the input whether it succeeds or fails |
| CsvReading.CsvReader.ReadWithHeader | src/main/kotlin/com/github/doyaaaaaken/kotlincsv/client/CsvReader.kt:68-79 | the method's result is `WithHeader` of the unread lines, whose properties `ReadWithHeaderSpec`, `WithHeaderDuplicate` and `WithHeaderMismatch` state, and the line source advances by exactly `WithHeaderConsumed` lines |
| CsvReading.CsvReader.ReadDataRows | src/main/kotlin/com/github/doyaaaaaken/kotlincsv/client/CsvReader.kt:73-78 | the data-row loop gives `ZipRows` for the header and the unread lines, and the line source advances by exactly `ZipRowsConsumed` lines |
| CsvReading.CsvReader.FindDuplicate | src/main/kotlin/com/github/doyaaaaaken/kotlincsv/client/CsvReader.kt:104-114 | the set-based scan returns the first name that repeats an earlier one, and null exactly when all names are distinct |

## Left out

- The overloads that open a `String`, `File` or `InputStream` with a charset (CsvReader.kt lines 22-62), and the JVM `CsvReader` with `open`, `openAsync` and `CsvFileReader`: these are I/O and resource handling. The model starts from the lines of an already opened input.
- `CsvParser.parseRow` is not part of this model. It is an arbitrary function in `ReaderSettings`, so no property depends on how rows are parsed.
- `System.lineSeparator()` is a platform query. It is a field of `ReaderSettings`.
- `BufferedReader.readLine` is modelled by `LineInput` over the sequence of lines it would return. How Java's reader splits text and drops terminators is not modelled.
- The `BufferedLineReader` source is not part of this model. Its behaviour is modelled from its tests (BufferedLineReaderTest.kt) over a whole string with a cursor, instead of a character stream read one character at a time.
- Kotlin sequences are lazy (`generateSequence`, `map`). The model builds the lists that `toList()` produces. The order of checks is kept: each data row is size-checked before the next is pulled, so the error reported is the one the source throws first.
- `toMap()` builds an insertion-ordered `LinkedHashMap`. The model's `map` is unordered, so key order is not modelled. Values and keys are.
- The `ICsvReaderContext` settings other than the three parser characters (quote, delimiter, escape), such as `charset`, are not modelled.
- Exception messages are not modelled. Each error is its `CsvError` constructor with the data the message interpolates.

## Findings

| source | as written | input that shows it | evidently intended | confidence | as-written member | corrected member |
|---|---|---|---|---|---|---|
| src/main/kotlin/com/github/doyaaaaaken/kotlincsv/client/CsvReader.kt:97 | after a null from the parser, the retry's leftover is the old leftover and the line glued together with no separator, so the separator after the first line of a quoted field is lost from the third attempt on | lines `"a`, `b`, `c"` with a parser that keeps a quoted field open until its closing quote: the third attempt hands the parser `"ab` + separator + `c"` + separator | every attempt sees all lines read so far, each followed by its separator (`"a` + separator + `b` + separator + `c"` + separator) | not executed | RowAssembly.LineBreakLostAsWritten | RowAssembly.RetainedKeepsLineBreaks |
