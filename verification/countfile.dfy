/** The word/line/byte counter: the byte scanner that threads the in-word
    flag, its two drivers (one mapped buffer, or successive reads), the
    per-file result and the totals line. */
module CountFile {
  import opened Base

  /** Size of the read buffer; larger regular files are mapped instead. */
  const COUNTFILE_BUF_SIZE: nat := 16384

  /** Result codes. */
  const COUNTFILE_SUCCESS: int := 0
  const COUNTFILE_ERROR_IO: int := -1
  const COUNTFILE_ERROR_MEM: int := -2
  const COUNTFILE_ERROR_ARG: int := -3

  datatype Counts = Counts(lines: nat, words: nat, chars: nat, bytes: nat) {
    function Plus(o: Counts): Counts {
      Counts(lines + o.lines, words + o.words, chars + o.chars, bytes + o.bytes)
    }
  }

  const NoCounts := Counts(0, 0, 0, 0)

  /** Counts so far plus the `in_word` flag carried between buffers. */
  datatype Tally = Tally(counts: Counts, inWord: bool)

  const Fresh := Tally(NoCounts, false)

  /** `is_word_separator`: `isspace` in the C locale, which holds for
      exactly six characters: space, tab, newline, vertical tab, form feed
      and carriage return. */
  predicate IsWordSeparator(c: char): (sep: bool)
    ensures sep <==> c == ' ' || c == '\t' || c == '\n' || c == '\U{0B}' || c == '\U{0C}' || c == '\r'
  {
    IsSpace(c)
  }

  /** Reference for the word rule: a word starts at `i` when the byte there
      is not a separator and the byte before it is one, or, at the first
      byte, when no word was open on entry. */
  predicate StartsWord(buf: string, i: nat, inWord: bool)
    requires i < |buf|
  {
    !IsWordSeparator(buf[i]) && (if i == 0 then !inWord else IsWordSeparator(buf[i - 1]))
  }

  /** Number of word starts among the first `n` bytes. */
  function WordStarts(buf: string, inWord: bool, n: nat): nat
    requires n <= |buf|
  {
    if n == 0 then 0 else WordStarts(buf, inWord, n - 1) + (if StartsWord(buf, n - 1, inWord) then 1 else 0)
  }

  lemma {:induction false} WordStartsPrefix(buf: string, inWord: bool, m: nat, n: nat)
    requires n <= m <= |buf|
    ensures WordStarts(buf[..m], inWord, n) == WordStarts(buf, inWord, n)
  {
    if n > 0 {
      WordStartsPrefix(buf, inWord, m, n - 1);
      assert buf[..m][n - 1] == buf[n - 1];
      if n >= 2 { assert buf[..m][n - 2] == buf[n - 2]; }
    }
  }

  /** One iteration of the loop in `count_buffer`. */
  function CountByte(t: Tally, c: char): Tally {
    var k := t.counts;
    var k1 := k.(bytes := k.bytes + 1, chars := k.chars + 1,
                 lines := k.lines + (if c == '\n' then 1 else 0));
    if IsWordSeparator(c) then Tally(k1, false)
    else if !t.inWord then Tally(k1.(words := k1.words + 1), true)
    else Tally(k1, true)
  }

  /** `count_buffer`: bytes and characters grow by the buffer's length,
      lines by its newlines, words by its word starts; on exit the flag says
      whether the last byte was inside a word. */
  function CountBuffer(buf: string, t: Tally): (r: Tally)
    ensures r.counts.bytes == t.counts.bytes + |buf| && r.counts.chars == t.counts.chars + |buf|
    ensures r.counts.lines == t.counts.lines + Newlines(buf)
    ensures r.counts.words == t.counts.words + WordStarts(buf, t.inWord, |buf|)
    ensures r.inWord == if |buf| == 0 then t.inWord else !IsWordSeparator(buf[|buf| - 1])
  {
    if |buf| == 0 then t
    else
      var n := |buf| - 1;
      var pre := buf[..n];
      var r0 := CountBuffer(pre, t);
      OccurrencesAppend(pre, [buf[n]], '\n');
      assert pre + [buf[n]] == buf;
      WordStartsPrefix(buf, t.inWord, n, n);
      assert n > 0 ==> pre[n - 1] == buf[n - 1];
      CountByte(r0, buf[n])
  }

  /** One more byte is one more iteration of the loop. */
  lemma CountBufferSnoc(buf: string, x: char, t: Tally)
    ensures CountBuffer(buf + [x], t) == CountByte(CountBuffer(buf, t), x)
  {
    assert (buf + [x])[..|buf|] == buf;
  }

  /** Counting a buffer in two pieces, with the flag threaded through, is
      counting it in one. */
  lemma {:induction false} CountBufferAppend(a: string, b: string, t: Tally)
    ensures CountBuffer(a + b, t) == CountBuffer(b, CountBuffer(a, t))
    decreases |b|
  {
    if |b| == 0 {
      assert a + b == a;
    } else {
      var n := |b| - 1;
      var front, x := b[..n], b[n];
      assert b == front + [x];
      assert a + b == (a + front) + [x];
      CountBufferSnoc(a + front, x, t);
      CountBufferSnoc(front, x, CountBuffer(a, t));
      CountBufferAppend(a, front, t);
    }
  }

  /** The read loop: one call per chunk the reads deliver. */
  function CountChunks(chunks: seq<string>, t: Tally): Tally {
    if |chunks| == 0 then t else CountBuffer(chunks[|chunks| - 1], CountChunks(chunks[..|chunks| - 1], t))
  }

  /** Counting chunk by chunk equals counting their concatenation in one
      call, which is why the read path and the mapped path agree. */
  lemma {:induction false} CountChunksIsOneShot(chunks: seq<string>, t: Tally)
    ensures CountChunks(chunks, t) == CountBuffer(Concat(chunks), t)
  {
    if |chunks| > 0 {
      var n := |chunks| - 1;
      CountChunksIsOneShot(chunks[..n], t);
      CountBufferAppend(Concat(chunks[..n]), chunks[n], t);
    }
  }

  /** `count_buffer` as the loop it is. */
  method CountBufferLoop(buf: string, t: Tally) returns (r: Tally)
    ensures r == CountBuffer(buf, t)
  {
    r := t;
    var i := 0;
    while i < |buf|
      invariant 0 <= i <= |buf|
      invariant r == CountBuffer(buf[..i], t)
    {
      assert buf[..i + 1][..i] == buf[..i];
      r := CountByte(r, buf[i]);
      i := i + 1;
    }
    assert buf[..|buf|] == buf;
  }

  /** `count_read`: a fresh flag, then one `count_buffer` per chunk read. */
  method CountRead(chunks: seq<string>) returns (r: Tally)
    ensures r == CountBuffer(Concat(chunks), Fresh)
  {
    r := Fresh;
    var i := 0;
    while i < |chunks|
      invariant 0 <= i <= |chunks|
      invariant r == CountBuffer(Concat(chunks[..i]), Fresh)
    {
      assert chunks[..i + 1] == chunks[..i] + [chunks[i]];
      ConcatSnoc(chunks[..i], chunks[i]);
      CountBufferAppend(Concat(chunks[..i]), chunks[i], Fresh);
      r := CountBufferLoop(chunks[i], r);
      i := i + 1;
    }
    assert chunks[..|chunks|] == chunks;
  }

  /** An open descriptor: whether it is a regular file, the data successive
      reads deliver, and whether the transfer fails: for a mapped file the
      `mmap` call itself, for a file that is read a `read` after the data. */
  datatype Input = Input(regular: bool, chunks: seq<string>, fails: bool) {
    function Content(): string { Concat(chunks) }
  }

  /** The per-file record; without a name its row is printed without one. */
  datatype Stats = Stats(filename: Option<string>, size: nat, error: int, counts: Counts)

  /** `init_stats`: a record with no name, size 0, the success code and the
      counts of an empty buffer. */
  function InitStats(): (s: Stats)
    ensures s.filename == None && s.size == 0
    ensures s.error == COUNTFILE_SUCCESS && CountStrerror(s.error) == "Success"
    ensures s.counts == CountBuffer([], Fresh).counts
  {
    Stats(None, 0, COUNTFILE_SUCCESS, NoCounts)
  }

  datatype Outcome = Outcome(code: int, stats: Stats)

  /** Whether `count_fd` maps the file instead of reading it. */
  predicate UsesMmap(input: Input) {
    input.regular && |input.Content()| > COUNTFILE_BUF_SIZE
  }

  /** `count_fd`. It begins with `init_stats`, so the record loses whatever
      name it held; a failed transfer returns the I/O error but leaves the
      error field at success. A failed map counts nothing, a failed read
      keeps the counts of the data read before it. */
  function CountFd(input: Input): (o: Outcome)
    ensures o.code == COUNTFILE_SUCCESS || o.code == COUNTFILE_ERROR_IO
    ensures o.code == COUNTFILE_ERROR_IO <==> input.fails
    ensures o.stats.filename.None? && o.stats.error == COUNTFILE_SUCCESS
    ensures o.stats.counts ==
      if UsesMmap(input) && input.fails then NoCounts else CountBuffer(input.Content(), Fresh).counts
  {
    var s := InitStats().(size := if input.regular then |input.Content()| else 0);
    if UsesMmap(input) then
      if input.fails then Outcome(COUNTFILE_ERROR_IO, s)
      else Outcome(COUNTFILE_SUCCESS, s.(counts := CountBuffer(input.Content(), Fresh).counts))
    else
      CountChunksIsOneShot(input.chunks, Fresh);
      var t := CountChunks(input.chunks, Fresh);
      Outcome(if input.fails then COUNTFILE_ERROR_IO else COUNTFILE_SUCCESS, s.(counts := t.counts))
  }

  /** `count_file` for a named file as written; `input` is None when the
      open fails. Only that failure keeps the name and records its error:
      on every other path `count_fd` has reset both. */
  function CountFile(name: string, input: Option<Input>): (o: Outcome)
    ensures o.code == COUNTFILE_SUCCESS <==> input.Some? && !input.value.fails
    ensures o.code == COUNTFILE_SUCCESS ==>
      o.stats.counts.lines == Newlines(input.value.Content())
      && o.stats.counts.words == WordStarts(input.value.Content(), false, |input.value.Content()|)
      && o.stats.counts.bytes == o.stats.counts.chars == |input.value.Content()|
    ensures o.stats.filename == (if input.None? then Some(name) else None)
    ensures o.stats.error == (if input.None? then COUNTFILE_ERROR_IO else COUNTFILE_SUCCESS)
  {
    var s := InitStats().(filename := Some(name));
    if input.None? then Outcome(COUNTFILE_ERROR_IO, s.(error := COUNTFILE_ERROR_IO))
    else CountFd(input.value)
  }

  /** As written, a failed read is reported with the message of the error
      field, which still says success: a directory opens, is not regular,
      and its first read fails. */
  lemma ReadFailureReportsSuccess(name: string)
    ensures var o := CountFile(name, Some(Input(false, [], true)));
      o.code == COUNTFILE_ERROR_IO && CountStrerror(o.stats.error) == "Success"
  {
  }

  /** `count_file` as evidently intended: the name kept, and the error
      field holding the code returned. */
  function CountFileCorrected(name: string, input: Option<Input>): (o: Outcome)
    ensures o.code == CountFile(name, input).code
    ensures o.stats.counts == CountFile(name, input).stats.counts
    ensures o.stats.filename == Some(name) && o.stats.error == o.code
  {
    var o := CountFile(name, input);
    Outcome(o.code, o.stats.(filename := Some(name), error := o.code))
  }

  /** Corrected, the message printed for a failure is never "Success" and
      always describes the code returned. */
  lemma CorrectedErrorMatchesCode(name: string, input: Option<Input>)
    ensures var o := CountFileCorrected(name, input);
      o.stats.error == o.code && (o.code != COUNTFILE_SUCCESS ==> CountStrerror(o.stats.error) != "Success")
  {
  }

  /** `count_strerror`: the table of the four known codes, indexed by the
      negated code; anything outside it, positive codes included, is unknown. */
  function CountStrerror(code: int): (s: string)
    ensures s == "Unknown error" <==> !(-3 <= code <= 0)
    ensures s == "Success" <==> code == COUNTFILE_SUCCESS
  {
    var e := -code;
    if e < 0 || e >= 4 then "Unknown error"
    else [ "Success", "I/O error", "Memory allocation failed", "Invalid argument" ][e]
  }

  lemma StrerrorInjective(a: int, b: int)
    requires CountStrerror(a) == CountStrerror(b) && CountStrerror(a) != "Unknown error"
    ensures a == b
  {
  }

  /** One line of `print_stats`: the four counts, then the name if there is one. */
  datatype Row = Row(counts: Counts, name: Option<string>)

  function RowOf(s: Stats): Row {
    Row(s.counts, s.filename)
  }

  /** What `main` prints for its arguments: one row per file counted
      successfully, in order, a row labelled "total" iff more than one
      succeeded, and exit status 1 iff any failed. Standard input, read when
      no file is named, is the single result `CountFd` gives for it. */
  datatype Report = Report(rows: seq<Row>, total: Option<Row>, exit: int)

  function Sum(rows: seq<Row>): Counts {
    if |rows| == 0 then NoCounts else Sum(rows[..|rows| - 1]).Plus(rows[|rows| - 1].counts)
  }

  /** The loop of `main` over already counted files. */
  function Rows(results: seq<Outcome>): (rows: seq<Row>)
    ensures |rows| <= |results|
  {
    if |results| == 0 then []
    else
      var pre := Rows(results[..|results| - 1]);
      var o := results[|results| - 1];
      if o.code == COUNTFILE_SUCCESS then pre + [RowOf(o.stats)] else pre
  }

  function Failed(results: seq<Outcome>): bool {
    exists i | 0 <= i < |results| :: results[i].code != COUNTFILE_SUCCESS
  }

  function MainReport(results: seq<Outcome>): (r: Report)
    ensures r.total.Some? <==> |r.rows| > 1
    ensures r.total.Some? ==> r.total.value == Row(Sum(r.rows), Some("total"))
    ensures r.exit == 0 || r.exit == 1
    ensures r.exit == 1 <==> exists i | 0 <= i < |results| :: results[i].code != COUNTFILE_SUCCESS
  {
    var rows := Rows(results);
    Report(rows, if |rows| > 1 then Some(Row(Sum(rows), Some("total"))) else None, if Failed(results) then 1 else 0)
  }

  /** The indices of the successful results among the first `n`. */
  function Successes(results: seq<Outcome>, n: nat): set<nat>
    requires n <= |results|
  {
    set i | 0 <= i < n && results[i].code == COUNTFILE_SUCCESS
  }

  /** The successful results among the first `n + 1`: those among the first
      `n`, and `n` if it succeeded. */
  lemma SuccessesSnoc(results: seq<Outcome>, n: nat)
    requires n < |results|
    ensures Successes(results, n + 1)
      == Successes(results, n) + (if results[n].code == COUNTFILE_SUCCESS then {n} else {})
  {
  }

  /** A successful result's counts are a row of any longer run, and the
      rows hold nothing else. */
  ghost predicate RowsHold(results: seq<Outcome>, rows: seq<Row>) {
    forall c :: c in rows <==>
      exists i | 0 <= i < |results| :: results[i].code == COUNTFILE_SUCCESS && RowOf(results[i].stats) == c
  }

  /** Adding one result keeps the rows' membership exact. */
  lemma RowsHoldSnoc(results: seq<Outcome>, n: nat)
    requires n + 1 == |results| && RowsHold(results[..n], Rows(results[..n]))
    ensures RowsHold(results, Rows(results))
  {
    forall c ensures c in Rows(results) <==>
      exists i | 0 <= i < |results| :: results[i].code == COUNTFILE_SUCCESS && RowOf(results[i].stats) == c
    {
      if c in Rows(results[..n]) {
        var i :| 0 <= i < n && results[..n][i].code == COUNTFILE_SUCCESS && RowOf(results[..n][i].stats) == c;
        assert results[i] == results[..n][i];
      }
      if exists i | 0 <= i < |results| :: results[i].code == COUNTFILE_SUCCESS && RowOf(results[i].stats) == c {
        var i :| 0 <= i < |results| && results[i].code == COUNTFILE_SUCCESS && RowOf(results[i].stats) == c;
        if i < n {
          assert results[..n][i] == results[i];
        }
      }
    }
  }

  /** As many rows as successful results. */
  lemma {:induction false} RowsCount(results: seq<Outcome>)
    ensures |Rows(results)| == |Successes(results, |results|)|
  {
    if |results| > 0 {
      var n := |results| - 1;
      RowsCount(results[..n]);
      SuccessesSnoc(results, n);
      assert Successes(results[..n], n) == Successes(results, n);
    }
  }

  /** Reference: the positions of the successful results, in increasing
      order, each once. */
  function SuccessIndices(results: seq<Outcome>): (ix: seq<nat>)
    ensures forall j | 0 <= j < |ix| :: ix[j] < |results| && results[ix[j]].code == COUNTFILE_SUCCESS
    ensures forall j, k | 0 <= j < k < |ix| :: ix[j] < ix[k]
    ensures forall i | 0 <= i < |results| && results[i].code == COUNTFILE_SUCCESS :: i in ix
  {
    if |results| == 0 then []
    else
      var n := |results| - 1;
      var pre := SuccessIndices(results[..n]);
      assert forall j | 0 <= j < |pre| :: results[pre[j]] == results[..n][pre[j]];
      assert forall i | 0 <= i < n :: results[i] == results[..n][i];
      if results[n].code == COUNTFILE_SUCCESS then pre + [n] else pre
  }

  /** The rows are exactly the successful results' rows, in the order of
      the results and each once: row j is the row of the j-th success. */
  lemma {:induction false} RowsAreSuccesses(results: seq<Outcome>)
    ensures |Rows(results)| == |set i | 0 <= i < |results| && results[i].code == COUNTFILE_SUCCESS|
    ensures RowsHold(results, Rows(results))
    ensures var ix := SuccessIndices(results);
      |Rows(results)| == |ix| && forall j | 0 <= j < |ix| :: Rows(results)[j] == RowOf(results[ix[j]].stats)
  {
    RowsCount(results);
    if |results| > 0 {
      var n := |results| - 1;
      RowsAreSuccesses(results[..n]);
      RowsHoldSnoc(results, n);
      var pre := SuccessIndices(results[..n]);
      assert forall j | 0 <= j < |pre| :: results[pre[j]] == results[..n][pre[j]];
    }
  }


  /** As written, no row `main` prints for a named file carries the name:
      `count_fd` has erased it by the time the row is printed. */
  lemma RowsUnnamed(names: seq<string>, inputs: seq<Option<Input>>)
    requires |names| == |inputs|
    ensures var results := seq(|names|, i requires 0 <= i < |names| => CountFile(names[i], inputs[i]));
      forall r | r in Rows(results) :: r.name.None?
  {
    var results := seq(|names|, i requires 0 <= i < |names| => CountFile(names[i], inputs[i]));
    RowsAreSuccesses(results);
  }

  /** Corrected, every row carries the name of the file whose counts it shows. */
  lemma RowsNamed(names: seq<string>, inputs: seq<Option<Input>>)
    requires |names| == |inputs|
    ensures var results := seq(|names|, i requires 0 <= i < |names| => CountFileCorrected(names[i], inputs[i]));
      forall r | r in Rows(results) :: exists i | 0 <= i < |names| ::
        r == Row(CountFile(names[i], inputs[i]).stats.counts, Some(names[i]))
  {
    var results := seq(|names|, i requires 0 <= i < |names| => CountFileCorrected(names[i], inputs[i]));
    RowsAreSuccesses(results);
  }


  /** Over files counted in one call each, the total's lines and bytes are
      those of the files' concatenated contents. */
  lemma {:induction false} TotalLinesAndBytes(contents: seq<string>)
    ensures var rows := seq(|contents|, i requires 0 <= i < |contents| => Row(CountBuffer(contents[i], Fresh).counts, None));
      Sum(rows).lines == Newlines(Concat(contents)) && Sum(rows).bytes == |Concat(contents)|
      && Sum(rows).chars == |Concat(contents)|
  {
    var rows := seq(|contents|, i requires 0 <= i < |contents| => Row(CountBuffer(contents[i], Fresh).counts, None));
    if |contents| > 0 {
      var n := |contents| - 1;
      TotalLinesAndBytes(contents[..n]);
      var rows' := seq(n, i requires 0 <= i < n => Row(CountBuffer(contents[..n][i], Fresh).counts, None));
      assert rows[..n] == rows';
      var before, last := Concat(contents[..n]), contents[n];
      assert Concat(contents) == before + last;
      assert Sum(rows) == Sum(rows').Plus(rows[n].counts);
      assert rows[n].counts == CountBuffer(last, Fresh).counts;
      OccurrencesAppend(before, last, '\n');
    }
  }

  /** Words are not additive across files: the flag starts afresh for each
      file, so "a" and "b" count two words apart and one together. */
  lemma WordsRestartPerFile()
    ensures CountBuffer("a", Fresh).counts.words + CountBuffer("b", Fresh).counts.words == 2
    ensures CountBuffer("ab", Fresh).counts.words == 1
  {
    assert "ab"[..1] == "a";
  }
}
