# devutils in Dafny

A model of the algorithms inside five small command-line tools, with proofs
about them:

- **cloc** counts lines of code, comments and blank lines per language.
- **countfile** counts lines, words, characters and bytes, like `wc`.
- **checksum** computes CRC-32, Adler-32 or the BSD 16-bit sum.
- **diff** compares two files line by line.
- **hexdump** prints bytes as canonical hex lines, one-byte hex or two-byte decimal.

Each tool is a pure algorithm over bytes or lines wrapped in file and
directory I/O. The model keeps the algorithms and turns the I/O into
parameters:

- file contents are strings or byte sequences;
- a file that cannot be opened is `None`;
- a stream that `read`/`fread` delivers in pieces is a sequence of chunks, plus a flag for a read error at the end;
- a directory is a tree of `Node`s.

Modules:

| file | module | what it models |
|---|---|---|
| `base.dfy` | `Base` | `Option`, `byte`, the C-locale `isspace`/`isprint`, C strings (the bytes before the first NUL), newline counting, concatenation of chunks |
| `bitwise.dfy` | `Bitwise` | exclusive or on naturals, defined bit by bit, with its algebra |
| `cloc_scanner.dfy` | `ClocScanner` | `count_lines`, the per-byte classifier state machine |
| `cloc_languages.dfy` | `ClocLanguages` | the language table, `cpp_keywords`, `is_cpp_file`, `detect_language` |
| `cloc_stats.dfy` | `ClocStats` | per-file and per-language records, `update_stats_callback`, `print_stats` numbers, `get_language_stats`, `get_supported_languages`, `cloc_strerror` |
| `cloc_walker.dfy` | `ClocWalker` | `process_file` and `process_directory` over an in-memory tree |
| `countfile.dfy` | `CountFile` | `count_buffer`, the read and mapped paths, `count_file`, `count_strerror`, the rows and totals of `main` |
| `checksum.dfy` | `Checksum` | the CRC-32 table and update, Adler-32, the BSD sum, dispatch, the streaming loop of `checksum_file` |
| `diff.dfy` | `Diff` | `getline` splitting, `normalize_line`, `strcmp`, the records and status of `compare_files` |
| `hex_format.dfy` | `HexFormat` | `printf` numerals (`%02x`, `%08lx`, `%05u`), `print_hex_line`, `print_one_byte_hex`, `print_two_byte_decimal` |
| `hexdump.dfy` | `Hexdump` | option parsing and format selection in `main`, the clipping read loop of `hexdump_file`, the status over all files |

Integer widths:

- `uint32_t` checksum words are naturals below 2^32. Xor is arithmetic, `>> 1` is `/ 2` and `& 1` is `% 2`.
- Adler-32 and the BSD sum reduce explicitly, exactly where the C code does.
- The casts in the cloc report are modelled: `(unsigned)` per row and 64-bit sums in the footer.
- The line, word and byte counters are unbounded (see "Left out").

Where the header files' prose and the code disagree, the model follows the
code. Examples:

- A capacity failure inside a directory walk surfaces as `CLOC_ERROR_ARG`, not `CLOC_ERROR_LIMIT`.
- The `-o` option of hexdump renders canonical lines, although its help text promises two-byte octal.

## Model

| member | source | states |
|---|---|---|
| Base.CString | src/diff.c:65 | the C string a buffer denotes: the prefix before the first NUL, with no NUL inside, followed by a NUL when shorter than the buffer |
| ClocScanner.Classify | src/cloc.c:128-143 | at a line end exactly one counter grows by one and the other two keep their values: comment iff a line or block comment is open, code iff neither is and code was seen, blank otherwise |
| ClocScanner.Step | src/cloc.c:127-200 | one pass of the loop always advances and adds one classified line exactly when the byte ends a line; a string never coexists with a comment |
| ClocScanner.CountLines | src/cloc.c:115-205 | for a non-empty buffer, code+comment+blank equals the newlines when it ends in '\n', and is the newlines or one more otherwise |
| ClocScanner.ScanTotal | src/cloc.c:127-204 | the scan from any position adds one line per remaining line end, less one only when a token swallows a last byte that is not '\n'; a scan ending in code has not counted its last line |
| ClocScanner.CountLinesSettled | src/cloc.c:202-204 | the post-loop code line fires only when the scan ends with code pending; otherwise the counts are the loop's own |
| ClocScanner.LineEndStep | src/cloc.c:128-143 | a line end classifies the line, resets the line-comment and code flags, and carries block-comment and string state to the next line |
| ClocScanner.QuoteOpensString | src/cloc.c:151-157 | outside comments a quote opens a string, remembers its quote character and marks the line as code |
| ClocScanner.StringMasksComments | src/cloc.c:162-165 | inside a string every byte but the unescaped closing quote is skipped: no comment token is recognised and no flag changes |
| ClocScanner.QuoteClosesString | src/cloc.c:158-160 | the same quote not preceded by a backslash closes the string, and the scan goes on with the comment and code rules |
| ClocScanner.WhitespaceIsBlank | src/cloc.c:145-149 | a buffer of whitespace only is one blank line per physical line |
| ClocScanner.UnterminatedBlockIsComment | src/cloc.c:167-182 | a buffer that starts with the block-comment opener, where that opener does not begin with a quote, and never closes the comment has no code and no blank lines |
| ClocScanner.PlainTextByLines | src/cloc.c:115-205 | on text with no quote and no comment token, the classifier agrees with a line-by-line reference: a line is code iff it holds a non-whitespace byte, else blank |
| ClocLanguages.TableShape | src/cloc.c:41-51 | seven named rows with well-formed tokens and identifier index+1, closed by a nameless sentinel |
| ClocLanguages.NamesDistinct | src/cloc.c:41-51 | the table's names are pairwise distinct, so comparing names is comparing rows |
| ClocLanguages.ExtensionsDisjoint | src/cloc.c:41-51 | no extension is listed by two rows |
| ClocLanguages.LastDot | src/cloc.c:90 | `strrchr`: absent iff the path has no '.', otherwise the position of a '.' with none after it |
| ClocLanguages.FindExtension | src/cloc.c:94-111 | the first row in table order that lists the extension, or none when no row does |
| ClocLanguages.Probe | src/cloc.c:102-103 | the probe is the prefix of the file of exactly min(size, 4096) bytes, the whole file when it is that short |
| ClocLanguages.IsCppFileSpec | src/cloc.c:70-87 | `is_cpp_file` holds iff some keyword occurs in the probe before its first NUL |
| ClocLanguages.DetectLanguage | src/cloc.c:89-113 | a path with no '.' yields no language; any result is a real row |
| ClocLanguages.DetectByExtension | src/cloc.c:89-111 | for an extension other than ".h", the result is row i iff row i lists exactly that extension |
| ClocLanguages.DetectUnknown | src/cloc.c:112 | an extension no row lists yields no language |
| ClocLanguages.DetectHeader | src/cloc.c:98-106 | ".h" yields C++ iff the file opens and its probe contains a keyword before the first NUL, and C otherwise |
| ClocLanguages.DetectDottedDirectory | src/cloc.c:90 | the extension comes from the last '.' of the whole path: "a.b/tool.py" is Python |
| ClocLanguages.DetectUnknownExtension | src/cloc.c:90-112 | "pkg.tar.gz" has extension ".gz" and yields no language |
| ClocLanguages.AggregateKeyIsOffByOne | src/cloc.c:313 | indexing the table by identifier lands one row further on: C at "C++", JavaScript at the sentinel |
| ClocStats.AddFile | src/cloc.c:328-332 | the update adds one file and the file's code, comment, blank and size to the row, and keeps its name |
| ClocStats.KeyOf | src/cloc.c:313 | as written the key is the name of the table row at the identifier; as intended it is the name of the row carrying that identifier |
| ClocStats.KeyAsWrittenMisfiles | src/cloc.c:313 | as written a C file is keyed "C++" and a JavaScript file by the null name |
| ClocStats.KeyOfDetectedRow | src/cloc.c:313 | a file detected as row i is keyed, as intended, by row i's own name, and as written by row i+1's |
| ClocStats.FirstCFileRow | src/cloc.c:323-324 | the first C file creates a row named "C++" as written, and "C" as intended |
| ClocStats.FindRow | src/cloc.c:312-317 | the first row carrying the key, or none when no row carries it |
| ClocStats.UpdateRow | src/cloc.c:307-335 | fails with the limit code iff the table holds at least 128 rows and none has the key; a failure changes nothing |
| ClocStats.UpdateStats | src/cloc.c:307-335 | fails with the limit code iff the table holds at least 128 rows and none carries the file's key; a failure changes nothing; a success adds exactly the file's contribution to the column sums |
| ClocStats.UpdateRowLookup | src/cloc.c:311-333 | a successful update changes only the keyed row, adding the file to it; other rows, the names' order and their distinctness stay; a row is appended only for a new key |
| ClocStats.UpdateRowTotals | src/cloc.c:328-332 | a successful update adds exactly the file's contribution to the column sums |
| ClocStats.AggregateNames | src/cloc.c:307-335 | after any run of files, the rows' names are distinct and are exactly the files' keys; no update ever reaches the capacity limit |
| ClocStats.AggregateRows | src/cloc.c:307-335 | each row equals a reference summary computed straight from the files with its key |
| ClocStats.AggregateTotals | src/cloc.c:307-335 | the column sums of the aggregate are the sums over the files: no file is lost or counted twice |
| ClocStats.AggregateRowPresent | src/cloc.c:319-325 | a row exists for a name iff some file has that key |
| ClocStats.KeyedAggregateIsSmall | src/include/cloc.h:37 | an aggregate keyed by table names has at most eight rows, below the capacity of 128 |
| ClocStats.GetLanguageStats | src/cloc.c:386-395 | -1 iff there is no buffer or the maximum is zero; otherwise the first min(count, max) rows |
| ClocStats.GetSupportedLanguages | src/cloc.c:398-410 | -1 iff there is no buffer or the maximum is zero; otherwise the first min(7, max) named rows of the table |
| ClocStats.ClocStrerror | src/cloc.c:412-427 | "Unknown error" iff the code is not one of the five known codes |
| ClocStats.StrerrorInjective | src/cloc.c:412-427 | distinct known codes have distinct messages |
| ClocStats.ReportRow | src/cloc.c:362-370 | each printed cell is its field, or the row's code+comment+blank total, cut to 32 bits: below 2^32, equal to it modulo 2^32, and the value itself when it fits |
| ClocStats.ReportFooter | src/cloc.c:372-381 | each footer cell is a column sum, or the sum of the three line columns, cut to 64 bits: below 2^64, equal to it modulo 2^64, and the value itself when it fits |
| ClocStats.FooterMatchesRows | src/cloc.c:361-381 | when no cast truncates, the footer's total is the sum of the rows' printed totals and of its own three line columns |
| ClocStats.PrintedTotalsIsSum | src/cloc.c:368-375 | when no row's total overflows 32 bits, the printed totals add up to the code, comment and blank column sums |
| ClocWalker.StoredPath | src/cloc.c:214-215 | the stored path is the C string of the argument, cut to at most 4095 bytes |
| ClocWalker.ProcessFile | src/cloc.c:207-256 | no language gives the argument error; an unopenable file gives the I/O error; otherwise success, with the size of the content, the row's identifier as language, and the counts `count_lines` gives with the detected row's tokens (zero for an empty file) |
| ClocWalker.ProcessDirectory | src/cloc.c:268-271 | an unreadable directory gives the I/O error and leaves the aggregate as it was |
| ClocWalker.WalkEntries | src/cloc.c:273-301 | the walk over a listing ends in success, the I/O error or the argument error, never another code; what it aggregates is stated by ClocWalker.WalkIsAggregate |
| ClocWalker.WalkIsAggregate | src/cloc.c:273-301 | the walk feeds the callback exactly the files of a reference traversal, in order, and stops with the I/O error iff it meets an unreadable subdirectory |
| ClocWalker.WalkReadableTree | src/cloc.c:258-305 | on a tree whose directories are all readable the walk succeeds, and its aggregate summarises every delivered file exactly |
| ClocWalker.SkippedEntry | src/cloc.c:275-282 | hidden entries and entries whose joined path would be too long are passed over without effect |
| ClocWalker.UnreadableSubdirectoryStops | src/cloc.c:290-292 | an unreadable subdirectory ends its parent's walk with the I/O error; later siblings are not visited |
| ClocWalker.FailedFileSkipped | src/cloc.c:294 | a file whose processing fails is not delivered to the callback |
| ClocWalker.CallbackFailureIsArg | src/cloc.c:295-297 | a callback failure ends the walk with the argument error and leaves the table unchanged |
| CountFile.IsWordSeparator | src/countfile.c:63-65 | a separator is exactly one of space, tab, newline, vertical tab, form feed and carriage return |
| CountFile.CountBuffer | src/countfile.c:67-83 | bytes and chars grow by the length, lines by the newlines, words by the word starts; the flag leaves as "last byte not whitespace" |
| CountFile.CountBufferAppend | src/countfile.c:67-83 | counting two pieces with the flag threaded through equals counting their concatenation |
| CountFile.CountChunksIsOneShot | src/countfile.c:105-114 | counting chunk by chunk equals counting the whole content in one call, so the read and mapped paths agree |
| CountFile.CountBufferLoop | src/countfile.c:67-83 | the byte loop computes the recursive definition |
| CountFile.CountRead | src/countfile.c:105-114 | the read loop with a fresh flag gives the one-shot counts of all chunks |
| CountFile.InitStats | src/countfile.c:54-61 | the reset record has no name, size 0, the success code (whose message is "Success") and the counts of an empty buffer, all zero |
| CountFile.CountFd | src/countfile.c:85-135 | the I/O error iff the map or a read fails; the record's name is cleared and its error stays at success; a successful count is the one-shot count of the content |
| CountFile.CountFile | src/countfile.c:137-161 | success iff the file opens and the transfer succeeds, with lines, words, chars and bytes of the content; only an open failure keeps the name and records the error |
| CountFile.ReadFailureReportsSuccess | src/countfile.c:200-202 | as written, a file that opens but fails to read is reported with the message "Success" |
| CountFile.CountFileCorrected | src/countfile.c:137-161 | the intended `count_file`: same code and counts, the name kept, and the error field holding the code returned |
| CountFile.CorrectedErrorMatchesCode | src/countfile.c:200-202 | corrected, a failure is never reported as "Success" |
| CountFile.RowsUnnamed | src/countfile.c:123 | as written, no row printed for a named file carries the file's name |
| CountFile.RowsNamed | src/countfile.c:168-174 | corrected, every row carries the name of the file whose counts it shows |
| CountFile.CountStrerror | src/countfile.c:39-52 | "Unknown error" iff the code is outside -3..0, positives included; "Success" iff the code is 0 |
| CountFile.StrerrorInjective | src/countfile.c:39-52 | distinct known codes have distinct messages |
| CountFile.MainReport | src/countfile.c:199-221 | a total row labelled "total", equal to the sum of the rows, iff more than one file succeeded; exit 1 iff some file failed |
| CountFile.RowsAreSuccesses | src/countfile.c:199-214 | there are as many rows as successful files, and row j is the row of the j-th successful file, in argument order |
| CountFile.TotalLinesAndBytes | src/countfile.c:209-212 | the total's lines, chars and bytes are those of the files' concatenated contents |
| CountFile.WordsRestartPerFile | src/countfile.c:106 | words are not additive across files: the flag starts fresh for each file |
| Checksum.MakeCrc32Table | src/checksum.c:62-78 | 256 entries, entry n being eight steps of "shift right, xor 0xEDB88320 when the low bit was set" from n |
| Checksum.UpdateCrcAppend | src/checksum.c:80-93 | updating with a and then with b equals updating with a followed by b |
| Checksum.UpdateCrc | src/checksum.c:80-93 | the table-driven CRC of any buffer equals the bit-at-a-time reflected CRC with polynomial 0xEDB88320; the empty buffer leaves the register as it was |
| Checksum.CrcBitsLinear | src/checksum.c:68-74 | the eight-step division is linear over GF(2), which is what lets one table entry stand for a byte |
| Checksum.Crc32 | src/checksum.c:95-97 | the empty input has CRC 0 |
| Checksum.AdlerUpdate | src/checksum.c:103-106 | after at least one byte both halves are below 65521 |
| Checksum.Adler32 | src/checksum.c:99-109 | a 32-bit value whose halves are below 65521; the empty input gives 1 |
| Checksum.AdlerMatchesDefinition | src/checksum.c:99-109 | the running pair is A = 1 + sum of bytes and B = sum of the successive A's, each mod 65521, as in section 2.2 of RFC 1950 |
| Checksum.AdlerUpdateAppend | src/checksum.c:171-174 | the Adler pair over a then b equals the pair over a followed by b |
| Checksum.RotateInverse | src/checksum.c:116 | the 16-bit right rotation is a permutation: rotating left undoes it and the other way round |
| Checksum.BsdSum | src/checksum.c:111-120 | always below 65536; the empty input gives 0 |
| Checksum.BsdSumSnoc | src/checksum.c:116 | one more byte: the old sum rotated right within 16 bits plus the byte, mod 2^16 |
| Checksum.BsdSumRecover | src/checksum.c:116 | the sum before a byte is recovered from the sum after it and the byte |
| Checksum.BsdUpdateAppend | src/checksum.c:176-179 | the BSD sum over a then b equals the sum over a followed by b |
| Checksum.CalculateChecksum | src/checksum.c:122-133 | dispatches to CRC-32, Adler-32 or the BSD sum by type, and gives 0 for an unknown type |
| Checksum.GetChecksumName | src/checksum.c:135-142 | "UNKNOWN" iff the type is unknown |
| Checksum.ChecksumNameInjective | src/checksum.c:135-142 | distinct known types have distinct names |
| Checksum.FinishIsOneShot | src/checksum.c:184-194 | finishing an accumulator for some data gives the one-shot checksum of that data |
| Checksum.ChecksumStream | src/checksum.c:165-194 | whatever the chunking, the streamed value is the one-shot checksum of the concatenated input |
| Checksum.ChecksumFile | src/checksum.c:144-214 | status 0 iff the file opens and no read error is flagged, and then the printed value is the checksum of its content; otherwise status 1 and nothing printed |
| Diff.LineLength | src/diff.c:108-109 | `getline` returns through the first '\n', or the rest when there is none |
| Diff.GetLines | src/diff.c:107-109 | the lines the repeated `getline` calls return, put back together, are the file |
| Diff.GetLinesShaped | src/diff.c:108-109 | every line is non-empty and holds '\n' only as its last character |
| Diff.GetLinesOfConcat | src/diff.c:108-109 | splitting the concatenation of line-shaped lines gives them back |
| Diff.FoldCase | src/diff.c:71-75 | only 'A'..'Z' change, each by adding 32 |
| Diff.Normalize | src/diff.c:55-83 | the normalised line is never longer than the line |
| Diff.NormalizeChars | src/diff.c:65-80 | the output is never longer than the input |
| Diff.NormalizeCString | src/diff.c:58-82 | `normalize_line` works on the C string of the line, up to its first NUL |
| Diff.NormalizeIdentity | src/diff.c:65-80 | with neither flag the line is copied unchanged |
| Diff.NormalizeContents | src/diff.c:65-80 | under -w no ' ' or '\t' is left, under -i no capital; without -w every position maps to its own, case-folded under -i |
| Diff.NormalizeIdempotent | src/diff.c:55-83 | normalising twice is normalising once |
| Diff.NormalizeAppend | src/diff.c:65-80 | normalisation distributes over concatenation |
| Diff.BlankIgnored | src/diff.c:66-69 | under -w, inserting a ' ' or '\t' anywhere changes nothing |
| Diff.CaseIgnored | src/diff.c:71-75 | under -i, a capital and its lower-case letter compare equal |
| Diff.StrEqualIff | src/diff.c:146 | on NUL-free strings `strcmp` reports 0 exactly for equal strings |
| Diff.SameIff | src/diff.c:135-146 | two lines match iff their normalised forms are equal |
| Diff.RecordAtShape | src/diff.c:115-154 | the pair at index i yields at most one record, present iff the pair differs, for line i+1 and of the right kind: "a" when file 1 has ended, "d" when file 2 has, "c" otherwise |
| Diff.RecordsCover | src/diff.c:107-159 | the records name exactly the line numbers whose pairs differ |
| Diff.RecordsOrdered | src/diff.c:107-159 | the records come in strictly increasing line order, each carrying its line's text up to the first NUL, as `%s` prints it; lines are never re-aligned |
| Diff.RecordText | src/diff.c:115-153 | every text of an added, deleted or changed record is what `%s` prints of its line: the whole line, newline included, when it has no NUL, and otherwise the part before its first NUL (so "x\0y\n" shows "x") |
| Diff.CollectRecords | src/diff.c:107-163 | the loop prints the records unless -q, and notes a difference iff any record exists |
| Diff.CompareFiles | src/diff.c:85-171 | status 2 iff a file cannot be opened; otherwise 1 iff any record exists; records printed unless -q; the "differ" line iff -q and a difference |
| Diff.StatusZeroIff | src/diff.c:170 | status 0 iff both files have the same number of lines and every pair normalises equal |
| Diff.SelfCompare | src/diff.c:85-171 | a file compared with itself has no differences under any options |
| HexFormat.Numeral | src/hexdump.c:71 | `%0<w>`: at least w characters, all digits of the base, the number's digits last and only '0' before them |
| HexFormat.NumeralRoundTrip | src/hexdump.c:71 | a printed numeral reads back as the number printed |
| HexFormat.NumeralWidth | src/hexdump.c:71 | a value below base^w fills exactly w characters |
| HexFormat.Hex2Value | src/hexdump.c:75 | `%02x` of a byte is two characters that read back as the byte |
| HexFormat.OffsetValue | src/hexdump.c:71 | `%08lx` reads back as the offset |
| HexFormat.SlotsWidth | src/hexdump.c:73-82 | the hex area is 41 characters wide whatever the length of the data |
| HexFormat.HexLine | src/hexdump.c:68-89 | for an offset below 2^32 a canonical line is 55 + min(len, 16) characters: the eight-digit offset first, `" |"` at columns 51-52, then the ASCII column, a bar and a newline |
| HexFormat.HexLineLayout | src/hexdump.c:68-89 | a canonical line is 55 + min(len, 16) characters: the offset, two spaces, each slot at its fixed position followed by a space after every odd slot and one more after slot 7, blank slots past the data, a space, the ASCII column between bars, and a newline |
| HexFormat.HexLineReadBack | src/hexdump.c:68-89 | the line determines the offset and each of the first min(len, 16) bytes |
| HexFormat.AsciiColumn | src/hexdump.c:84-88 | min(len, 16) characters, each printable byte itself and every other byte '.' |
| HexFormat.RowsPartition | src/hexdump.c:160-164 | a buffer is cut into rows that give it back: every row but the last holds 16 bytes, the last 1 to 16 |
| HexFormat.CanonicalFrom | src/hexdump.c:160-164 | the canonical loop prints one line per row of 16 bytes, the offset advancing by 16 |
| HexFormat.LoopIsRows | src/hexdump.c:94-122 | the per-byte loop with its "header every 16th byte, newline after every 16th and after the last" rule prints exactly one header, the cells and a newline per row of 16 |
| HexFormat.OneByteHex | src/hexdump.c:91-103 | one-byte hex prints, per row of 16 bytes, the offset, a space, " xx" per byte and a newline |
| HexFormat.PairValue | src/hexdump.c:113-118 | the value of a pair is little-endian, or the last byte alone when it has no partner |
| HexFormat.Dec5Value | src/hexdump.c:115 | `%05u` of a value below 65536 is five characters that read back as it |
| HexFormat.TwoByteDecimal | src/hexdump.c:105-124 | two-byte decimal prints, per row of 16 bytes, the offset, a space, " ddddd" per pair and a newline |
| Hexdump.FoldMeaning | src/hexdump.c:208-238 | after the options: -C is in force iff given and not followed by -x, -d or -o; each other flag iff given; the last -s and -n win |
| Hexdump.ParseOptions | src/hexdump.c:208-252 | the parse exits with the code of the first stopping option, if any; otherwise it runs with the options applied in order, canonical by default, and a skip and limit that are not negative |
| Hexdump.RejectsBadNumbers | src/hexdump.c:225-250 | a negative -s, a non-positive -n or an unknown option, with no earlier stop, exits with status 1 |
| Hexdump.LayoutOf | src/hexdump.c:158-176 | canonical lines when -C is in force, else one-byte hex when -x is set, else two-byte decimal when -d is set, else canonical lines |
| Hexdump.LayoutMeaning | src/hexdump.c:158-176 | one-byte hex iff -x is given and -C is not in force; two-byte decimal iff -d without -x and -C; canonical otherwise, so -o alone renders canonically |
| Hexdump.NumbersMeaning | src/hexdump.c:225-238 | in a run the skip is the last -s and never negative, and the limit is the last -n, 0 or positive |
| Hexdump.BuffersPrefix | src/hexdump.c:153-183 | the printed buffers, none empty, are exactly the first min(limit, available) bytes (all of them without a limit) |
| Hexdump.RenderAllAppend | src/hexdump.c:178 | each buffer is printed at the skip plus the bytes before it |
| Hexdump.HexdumpFile | src/hexdump.c:126-196 | an open or seek failure gives status 1 and no output; otherwise the clipped buffers are rendered at their offsets, and the status is 1 iff the stream reports an error |
| Hexdump.RegularFileDump | src/hexdump.c:144-183 | for a regular file the dump covers the bytes from the skip on, at most the limit of them |
| Hexdump.DumpAll | src/hexdump.c:258-266 | the output is each file's dump in turn, nothing for a file that cannot be opened or positioned; exit status 0 iff every file opens, seeks when a skip is given, and reads without error |
| Hexdump.Hexdump | src/hexdump.c:198-269 | a stopping option exits with its code and no output; otherwise the output is the dump of every named file, or of standard input when none is named, in the parsed layout with the parsed skip and limit, and the status is 0 iff every such input dumps cleanly |

## Left out

- File and directory I/O: `open`, `fstat`, `mmap`, `posix_madvise`, `opendir`, `readdir`, `lstat`, `fopen`, `fread`, `fseeko`, `getline` and standard input. Their results are parameters: contents, chunk sequences, failure flags and a `Node` tree.
- `lstat` failures and entries that are neither files nor directories: the `Other` node covers them, and the walk passes over them.
- `fstat` failing in `process_file` and `mmap` failing there: both fold into a content of `None`, which gives the I/O error.
- `ClocWalker.ProcessFile` sets the error field to `CLOC_ERROR_IO` on every I/O failure. The C code does so only when `open` fails (src/cloc.c:225-228); after a failing `fstat` or `mmap` (src/cloc.c:230-233, 241-244) the field stays 0. A file that fails is never delivered to the callback, so the field reaches no output.
- The text of the cloc and countfile reports: column widths, headers, the name column, and `%s` of the null name on the sentinel row. Only the numbers are modelled.
- The stderr messages of every tool. The countfile message's choice of text is kept, through `CountStrerror` of the error field.
- `main` of cloc, checksum and diff: argument loops, `getopt` and usage/version text. Of cloc's `main`, a plain-file argument feeds `update_stats_callback` and ignores its result; that call is `ClocStats.UpdateStats`.
- Of countfile's `main`, the argument loop is `CountFile.MainReport` over the results of `CountFile.CountFile`. Standard input, read when no file is named, is `CountFd` of that input.
- Of hexdump's `main`: the option list is taken after `strtoll`, as `Opt` values, `-v` is accepted and does nothing, and `--version`/`--help` only exit with 0.
- Global state: `global_stats`, `cloc_init`, `cloc_cleanup`, the static read buffer of countfile and the lazily computed CRC table. The model uses explicit values, and `CrcTable` is proved equal to what `make_crc32_table` fills.
- Allocation failures. `is_cpp_file` returning 0 when `malloc` fails is not modelled. Neither is diff's normalisation failure, which sets a result of 2 that the final `return differences ? 1 : 0` ignores.
- Locale: `isspace` and `isprint` are the C-locale sets.
- Unsigned overflow of the `uint32_t`/`uint64_t`/`size_t` counters in cloc and countfile, and of hexdump's `off_t` offset: counts are unbounded naturals. The casts in cloc's report are modelled.
- `ClocScanner.CountLines` requires a non-empty buffer, because `process_file` returns at src/cloc.c:235-238 before the call when the file is empty.
- `ClocWalker.StoredPath` and the other walker functions treat `CLOC_MAX_PATH` as a byte count over `char`s; multi-byte names are not distinguished.
- `CountFile.CountFd` records the size only for regular files; `fstat`'s size of a pipe or directory is not modelled, and it plays no part in any output.
- `Checksum.ChecksumFile` takes the chunks `fread` returns up to its first empty read; `readError` is `ferror` at src/checksum.c:196.
- The prototypes in src/include/checksum.h:47-52, src/include/hexdump.h:50 and src/include/diff.h:46-47 have no definitions to model.
- `four_byte_decimal`, which `-o` sets, has no renderer, so `-o` output is canonical. The help text's "two-byte octal" format does not exist in the code.

## Findings

| source | as written | input that shows it | evidently intended | confidence | as-written member | corrected member |
|---|---|---|---|---|---|---|
| src/cloc.c:313,324 | the aggregate keys a file by `languages[file_stats->language].name`, but identifiers start at 1 and the table at 0 | any C file: it is counted under "C++"; a JavaScript file is counted under the null name | key by the row whose identifier is the file's language | high (not executed) | ClocStats.KeyAsWrittenMisfiles, ClocStats.FirstCFileRow | ClocStats.KeyOfDetectedRow (keying `Intended`; every aggregate lemma is proved for both keyings) |
| src/countfile.c:113,200-202 | a failed read returns `COUNTFILE_ERROR_IO` but leaves `stats.error` at success, and `main` prints `count_strerror(stats.error)` | `countfile some_directory`: it opens, is not regular, and its first `read` fails; the message is "Success" | report the message of the code returned | high (not executed) | CountFile.ReadFailureReportsSuccess | CountFile.CorrectedErrorMatchesCode, CountFile.CountFileCorrected |
| src/countfile.c:123,145 | `count_file` stores the name, then `count_fd` calls `init_stats`, which sets it back to NULL | `countfile a.txt`: the row is printed without "a.txt" | print each file's row with its name, as the total row carries "total" | high (not executed) | CountFile.RowsUnnamed | CountFile.RowsNamed, CountFile.CountFileCorrected |
