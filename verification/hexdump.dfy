/** The dump tool's driver: option parsing and format selection, the read
    loop with its `-s` offset and `-n` limit, and the exit status over
    several files. The text of each buffer comes from HexFormat. */
module Hexdump {
  import opened Base
  import opened HexFormat

  // --------------------------------------------------------------- options

  /** One command-line option, its argument already converted by `strtoll`. */
  datatype Opt =
    | Canon          // -C
    | OneByte        // -x
    | TwoByte        // -d
    | Octal          // -o
    | Skip(n: int)   // -s OFFSET
    | Length(n: int) // -n LENGTH
    | Verbose        // -v
    | Help           // -h, --help
    | Version        // --version
    | Unknown        // anything getopt rejects

  /** The flags and numbers the options leave behind. */
  datatype Settings = Settings(
    canonical: bool, oneByteHex: bool, twoByteDecimal: bool, octal: bool,
    skip: int, limit: int)

  const Initial := Settings(false, false, false, false, 0, 0)

  /** Parsing ends either in a run with settings, or in an early exit. */
  datatype Parse = Run(settings: Settings) | Exit(code: int)

  /** Whether an option ends the parse, and with what status: a negative
      skip, a length that is not positive and an unknown option fail; help
      and version succeed. */
  function StopCode(o: Opt): Option<int> {
    match o
    case Skip(n) => if n < 0 then Some(1) else None
    case Length(n) => if n <= 0 then Some(1) else None
    case Help => Some(0)
    case Version => Some(0)
    case Unknown => Some(1)
    case _ => None
  }

  /** The effect of an option that does not stop the parse. */
  function Apply(s: Settings, o: Opt): Settings {
    match o
    case Canon => s.(canonical := true)
    case OneByte => s.(oneByteHex := true, canonical := false)
    case TwoByte => s.(twoByteDecimal := true, canonical := false)
    case Octal => s.(octal := true, canonical := false)
    case Skip(n) => s.(skip := n)
    case Length(n) => s.(limit := n)
    case _ => s
  }

  /** Without any format option the canonical format is chosen. */
  function Defaulted(s: Settings): (r: Settings)
    ensures r.canonical || r.oneByteHex || r.twoByteDecimal || r.octal
  {
    if !s.canonical && !s.oneByteHex && !s.twoByteDecimal && !s.octal then s.(canonical := true) else s
  }

  /** The getopt loop over `opts[i..]`, starting from `s`. */
  function ParseFrom(opts: seq<Opt>, i: nat, s: Settings): Parse
    decreases |opts| - i
  {
    if i >= |opts| then Run(Defaulted(s))
    else if StopCode(opts[i]).Some? then Exit(StopCode(opts[i]).value)
    else ParseFrom(opts, i + 1, Apply(s, opts[i]))
  }

  /** The getopt loop of `main`: it exits with the status of the first
      option that stops it, if any; otherwise it runs with the options
      applied in order and the canonical default. */
  function ParseOptions(opts: seq<Opt>): (r: Parse)
    ensures r ==
      match FirstStop(opts, 0)
      case Some(k) => Exit(StopCode(opts[k]).value)
      case None => Run(Defaulted(Fold(opts)))
    ensures r.Run? ==> r.settings.skip >= 0 && r.settings.limit >= 0
  {
    assert opts[..0] == [];
    ParseFromMeaning(opts, 0);
    if FirstStop(opts, 0).None? then
      FoldNumbers(opts);
      LastNumbersValid(opts);
      ParseFrom(opts, 0, Initial)
    else ParseFrom(opts, 0, Initial)
  }

  // --------------------------------------- what the options mean, declaratively

  /** The options applied in order, ignoring stops. */
  function Fold(opts: seq<Opt>): Settings {
    if |opts| == 0 then Initial else Apply(Fold(opts[..|opts| - 1]), opts[|opts| - 1])
  }

  /** The first option that stops the parse, if any. */
  function FirstStop(opts: seq<Opt>, i: nat): (r: Option<nat>)
    ensures r.Some? ==>
      (i <= r.value < |opts| && StopCode(opts[r.value]).Some? && forall k | i <= k < r.value :: StopCode(opts[k]).None?)
    ensures r.None? ==> forall k | i <= k < |opts| :: StopCode(opts[k]).None?
    decreases |opts| - i
  {
    if i >= |opts| then None
    else if StopCode(opts[i]).Some? then Some(i)
    else FirstStop(opts, i + 1)
  }

  predicate Has(opts: seq<Opt>, o: Opt) {
    exists k | 0 <= k < |opts| :: opts[k] == o
  }

  predicate ClearsCanonical(o: Opt) {
    o == OneByte || o == TwoByte || o == Octal
  }

  /** `-C` is in force when it is given and no -x, -d or -o comes after it. */
  predicate CanonLast(opts: seq<Opt>) {
    exists k | 0 <= k < |opts| :: opts[k] == Canon && forall m | k < m < |opts| :: !ClearsCanonical(opts[m])
  }

  /** The value of the last -s, or 0. */
  function LastSkip(opts: seq<Opt>): int {
    if |opts| == 0 then 0
    else if opts[|opts| - 1].Skip? then opts[|opts| - 1].n
    else LastSkip(opts[..|opts| - 1])
  }

  /** The value of the last -n, or 0. */
  function LastLength(opts: seq<Opt>): int {
    if |opts| == 0 then 0
    else if opts[|opts| - 1].Length? then opts[|opts| - 1].n
    else LastLength(opts[..|opts| - 1])
  }

  /** Applying the options in order leaves each flag as the declarative
      reading says: -x, -d and -o stick once given, -C holds only when
      nothing clears it afterwards, and the last -s and -n win. */
  lemma FoldMeaning(opts: seq<Opt>)
    ensures var s := Fold(opts);
      && s.canonical == CanonLast(opts)
      && s.oneByteHex == Has(opts, OneByte)
      && s.twoByteDecimal == Has(opts, TwoByte)
      && s.octal == Has(opts, Octal)
      && s.skip == LastSkip(opts)
      && s.limit == LastLength(opts)
  {
    FoldFlags(opts);
    FoldNumbers(opts);
  }

  /** The format flags after the options. */
  lemma {:induction false} FoldFlags(opts: seq<Opt>)
    ensures var s := Fold(opts);
      && s.canonical == CanonLast(opts)
      && s.oneByteHex == Has(opts, OneByte)
      && s.twoByteDecimal == Has(opts, TwoByte)
      && s.octal == Has(opts, Octal)
  {
    if |opts| > 0 {
      var n := |opts| - 1;
      var init, o := opts[..n], opts[n];
      FoldFlags(init);
      assert opts == init + [o];
      HasSnoc(init, o, OneByte);
      HasSnoc(init, o, TwoByte);
      HasSnoc(init, o, Octal);
      CanonLastSnoc(init, o);
    }
  }

  /** The skip and the limit after the options. */
  lemma {:induction false} FoldNumbers(opts: seq<Opt>)
    ensures Fold(opts).skip == LastSkip(opts) && Fold(opts).limit == LastLength(opts)
  {
    if |opts| > 0 {
      FoldNumbers(opts[..|opts| - 1]);
    }
  }

  lemma HasSnoc(init: seq<Opt>, o: Opt, x: Opt)
    ensures Has(init + [o], x) <==> Has(init, x) || o == x
  {
    var opts := init + [o];
    if Has(init, x) {
      var k :| 0 <= k < |init| && init[k] == x;
      assert opts[k] == x;
    }
    if o == x {
      assert opts[|init|] == x;
    }
    if Has(opts, x) {
      var k :| 0 <= k < |opts| && opts[k] == x;
      if k < |init| {
        assert init[k] == x;
      }
    }
  }

  lemma CanonLastSnoc(init: seq<Opt>, o: Opt)
    ensures CanonLast(init + [o]) <==>
      (o == Canon || (CanonLast(init) && !ClearsCanonical(o)))
  {
    var opts := init + [o];
    var n := |init|;
    if o == Canon {
      assert opts[n] == Canon;
    } else if CanonLast(init) && !ClearsCanonical(o) {
      var k :| 0 <= k < n && init[k] == Canon && forall m | k < m < n :: !ClearsCanonical(init[m]);
      assert opts[k] == Canon;
      assert forall m | k < m < |opts| :: !ClearsCanonical(opts[m]) by {
        forall m | k < m < |opts|
          ensures !ClearsCanonical(opts[m])
        {
          if m < n {
            assert opts[m] == init[m];
          }
        }
      }
    }
    if CanonLast(opts) {
      var k :| 0 <= k < |opts| && opts[k] == Canon && forall m | k < m < |opts| :: !ClearsCanonical(opts[m]);
      if k < n {
        assert !ClearsCanonical(opts[n]);
        assert init[k] == Canon;
        forall m | k < m < n
          ensures !ClearsCanonical(init[m])
        {
          assert opts[m] == init[m];
        }
      }
    }
  }

  /** The getopt loop stops at the first failing or informational option;
      otherwise it runs with the options applied in order and the
      canonical default. */
  lemma {:induction false} ParseFromMeaning(opts: seq<Opt>, i: nat)
    requires i <= |opts|
    ensures ParseFrom(opts, i, Fold(opts[..i])) ==
      match FirstStop(opts, i)
      case Some(k) => Exit(StopCode(opts[k]).value)
      case None => Run(Defaulted(Fold(opts)))
    decreases |opts| - i
  {
    if i == |opts| {
      assert opts[..i] == opts;
    } else if StopCode(opts[i]).None? {
      assert opts[..i + 1][..i] == opts[..i];
      ParseFromMeaning(opts, i + 1);
    }
  }

  /** A negative -s, a -n that is not positive or an unknown option, when
      nothing stopped the parse before it, ends the program with status 1. */
  lemma RejectsBadNumbers(opts: seq<Opt>, k: nat)
    requires k < |opts| && (forall m | 0 <= m < k :: StopCode(opts[m]).None?)
    requires (opts[k].Skip? && opts[k].n < 0) || (opts[k].Length? && opts[k].n <= 0) || opts[k] == Unknown
    ensures ParseOptions(opts) == Exit(1)
  {
    assert StopCode(opts[k]) == Some(1);
  }

  // ----------------------------------------------------- format selection

  datatype Layout = CanonicalLayout | OneByteLayout | TwoByteLayout

  /** The dispatch in the read loop: canonical first, then one-byte hex,
      then two-byte decimal; anything else (the -o flag alone) falls back
      to canonical lines. */
  function LayoutOf(s: Settings): (layout: Layout)
    ensures layout == OneByteLayout <==> !s.canonical && s.oneByteHex
    ensures layout == TwoByteLayout <==> !s.canonical && !s.oneByteHex && s.twoByteDecimal
    ensures layout == CanonicalLayout <==> s.canonical || (!s.oneByteHex && !s.twoByteDecimal)
  {
    if s.canonical then CanonicalLayout
    else if s.oneByteHex then OneByteLayout
    else if s.twoByteDecimal then TwoByteLayout
    else CanonicalLayout
  }

  /** The layout chosen by a run, in terms of the options given: -x wins
      unless a -C follows every -x, -d and -o; -d likewise, when there is no
      -x; everything else is canonical. */
  lemma LayoutMeaning(opts: seq<Opt>)
    requires ParseOptions(opts).Run?
    ensures var layout := LayoutOf(ParseOptions(opts).settings);
      && (layout == OneByteLayout <==> Has(opts, OneByte) && !CanonLast(opts))
      && (layout == TwoByteLayout <==> Has(opts, TwoByte) && !Has(opts, OneByte) && !CanonLast(opts))
      && (layout == CanonicalLayout <==> CanonLast(opts) || (!Has(opts, OneByte) && !Has(opts, TwoByte)))
  {
    FoldMeaning(opts);
  }

  /** The skip and limit of a run are the last -s and -n given; the skip is
      never negative and the limit is 0 (none) or positive. */
  lemma NumbersMeaning(opts: seq<Opt>)
    requires ParseOptions(opts).Run?
    ensures var s := ParseOptions(opts).settings;
      s.skip == LastSkip(opts) && s.limit == LastLength(opts) && s.skip >= 0 && s.limit >= 0
  {
    FoldMeaning(opts);
    LastNumbersValid(opts);
  }

  lemma {:induction false} LastNumbersValid(opts: seq<Opt>)
    requires forall k | 0 <= k < |opts| :: StopCode(opts[k]).None?
    ensures LastSkip(opts) >= 0 && LastLength(opts) >= 0
  {
    if |opts| > 0 {
      LastNumbersValid(opts[..|opts| - 1]);
    }
  }

  // ---------------------------------------------------------- the read loop

  /** What an input yields once opened: whether the seek to the skip
      offset succeeds, the successive chunks (`fread` results; an empty one
      ends the loop) and whether the stream reports an error at the end. */
  datatype Input = Input(seekOk: bool, chunks: seq<seq<byte>>, readError: bool)

  /** The bytes the chunks deliver before the first empty one. */
  function Available(chunks: seq<seq<byte>>): seq<byte> {
    if |chunks| == 0 || |chunks[0]| == 0 then [] else chunks[0] + Available(chunks[1..])
  }

  /** The buffers the loop prints, each clipped so that no more than
      `limit` bytes in all are printed (0: no limit), after `done` bytes. */
  function Buffers(chunks: seq<seq<byte>>, limit: nat, done: nat): seq<seq<byte>>
    decreases |chunks|
  {
    if |chunks| == 0 || |chunks[0]| == 0 || (limit > 0 && done >= limit) then []
    else
      var n := if limit > 0 && done + |chunks[0]| > limit then limit - done else |chunks[0]|;
      [chunks[0][..n]] + Buffers(chunks[1..], limit, done + n)
  }

  /** How many bytes a limit lets through, of `avail` remaining. */
  function Allowed(limit: nat, done: nat, avail: nat): (n: nat)
    ensures n <= avail
  {
    if limit == 0 then avail else if done >= limit then 0 else Min(limit - done, avail)
  }

  /** A prefix of a concatenation. */
  lemma PrefixOfAppend(r: seq<byte>, t: seq<byte>, a: nat)
    requires a <= |r| + |t|
    ensures a <= |r| ==> (r + t)[..a] == r[..a]
    ensures a >= |r| ==> (r + t)[..a] == r + t[..a - |r|]
  {
  }

  /** One step of the loop: the buffer is the first read, clipped to what
      the limit still allows. */
  lemma BuffersStep(chunks: seq<seq<byte>>, limit: nat, done: nat)
    requires |chunks| > 0 && |chunks[0]| > 0 && (limit == 0 || done < limit)
    ensures var n := Allowed(limit, done, |chunks[0]|);
      && 0 < n <= |chunks[0]|
      && Buffers(chunks, limit, done) == [chunks[0][..n]] + Buffers(chunks[1..], limit, done + n)
      && Available(chunks) == chunks[0] + Available(chunks[1..])
      && Allowed(limit, done, |Available(chunks)|)
         == n + (if n < |chunks[0]| then 0 else Allowed(limit, done + n, |Available(chunks[1..])|))
  {
  }

  /** The printed buffers are exactly the first min(limit, available)
      bytes of the input, none of them empty. */
  lemma {:induction false} BuffersPrefix(chunks: seq<seq<byte>>, limit: nat, done: nat)
    requires limit == 0 || done <= limit
    ensures Concat(Buffers(chunks, limit, done)) == Available(chunks)[..Allowed(limit, done, |Available(chunks)|)]
    ensures forall k | 0 <= k < |Buffers(chunks, limit, done)| :: |Buffers(chunks, limit, done)[k]| > 0
    decreases |chunks|
  {
    if |chunks| > 0 && |chunks[0]| > 0 && (limit == 0 || done < limit) {
      var r := chunks[0];
      var n := Allowed(limit, done, |r|);
      BuffersStep(chunks, limit, done);
      BuffersPrefix(chunks[1..], limit, done + n);
      var rest := Buffers(chunks[1..], limit, done + n);
      var tail := Available(chunks[1..]);
      if n < |r| {
        assert limit > 0 && done + n >= limit;
        assert rest == [];
      }
      PrefixJoin(r, n, rest, tail, Allowed(limit, done, |Available(chunks)|), Allowed(limit, done + n, |tail|));
    }
  }

  /** A first buffer, clipped or whole, followed by buffers that hold a
      prefix of the remaining input make up a prefix of the whole input. */
  lemma PrefixJoin(r: seq<byte>, n: nat, rest: seq<seq<byte>>, tail: seq<byte>, k: nat, k': nat)
    requires 0 < n <= |r| && k' <= |tail| && Concat(rest) == tail[..k']
    requires k == n + (if n < |r| then 0 else k')
    requires n < |r| ==> rest == []
    ensures Concat([r[..n]] + rest) == (r + tail)[..k]
  {
    ConcatCons(r[..n], rest);
    PrefixOfAppend(r, tail, k);
    if n < |r| {
      assert r[..n] + [] == r[..n];
    } else {
      assert r[..n] == r;
    }
  }

  /** The text of one buffer in the chosen layout. */
  function Render(layout: Layout, data: seq<byte>, offset: nat): string {
    match layout
    case CanonicalLayout => CanonicalFrom(data, offset, 0)
    case OneByteLayout => OneByteHex(data, offset)
    case TwoByteLayout => TwoByteDecimal(data, offset)
  }

  /** A buffer printer: a buffer and the offset of its first byte to text. */
  type Printer = (seq<byte>, nat) -> string

  function PrinterOf(layout: Layout): Printer {
    (data: seq<byte>, offset: nat) => Render(layout, data, offset)
  }

  /** One buffer's text at the offset of its first byte. */
  function Emit(show: Printer, data: seq<byte>, offset: nat): string {
    show(data, offset)
  }

  /** The buffers' texts, each at the offset of its first byte. */
  function RenderAll(show: Printer, buffers: seq<seq<byte>>, offset: nat): string {
    if |buffers| == 0 then []
    else Emit(show, buffers[0], offset) + RenderAll(show, buffers[1..], offset + |buffers[0]|)
  }

  /** Printing two runs of buffers one after the other: the second run
      starts at the offset just past every byte of the first, so each buffer
      is printed at the skip plus the bytes before it. */
  lemma {:induction false} RenderAllAppend(show: Printer, a: seq<seq<byte>>, b: seq<seq<byte>>, offset: nat)
    ensures RenderAll(show, a + b, offset)
      == RenderAll(show, a, offset) + RenderAll(show, b, offset + |Concat(a)|)
    decreases |a|
  {
    if |a| == 0 {
      assert a + b == b;
    } else {
      var a0, rest := a[0], a[1..];
      var next := offset + |a0|;
      assert (a + b)[0] == a0;
      assert (a + b)[1..] == rest + b;
      assert RenderAll(show, a + b, offset) == Emit(show, a0, offset) + RenderAll(show, rest + b, next);
      assert RenderAll(show, a, offset) == Emit(show, a0, offset) + RenderAll(show, rest, next);
      RenderAllAppend(show, rest, b, next);
      assert [a0] + rest == a;
      ConcatCons(a0, rest);
      assert next + |Concat(rest)| == offset + |Concat(a)|;
      AppendAssoc(Emit(show, a0, offset), RenderAll(show, rest, next),
        RenderAll(show, b, next + |Concat(rest)|));
    }
  }

  /** The loop's invariant survives one read: the printed text followed by
      what is still to print stays the whole output. */
  lemma LoopStep(show: Printer, text: string, chunks: seq<seq<byte>>, limit: nat, done: nat, skip: nat, n: nat, whole: string,
                  text': string, chunks': seq<seq<byte>>, done': nat)
    requires |chunks| > 0 && |chunks[0]| > 0 && (limit == 0 || done < limit)
    requires n == Allowed(limit, done, |chunks[0]|)
    requires text + RenderAll(show, Buffers(chunks, limit, done), skip + done) == whole
    requires text' == text + Emit(show, chunks[0][..n], skip + done)
    requires chunks' == chunks[1..] && done' == done + n
    ensures limit == 0 || done' <= limit
    ensures text' + RenderAll(show, Buffers(chunks', limit, done'), skip + done') == whole
  {
    RenderStep(show, chunks, limit, done, skip + done, n);
    AppendAssoc(text, Emit(show, chunks[0][..n], skip + done),
      RenderAll(show, Buffers(chunks[1..], limit, done + n), skip + done + n));
  }



  /** Once the input is exhausted or the limit reached, nothing more is
      printed. */
  lemma RenderDone(show: Printer, chunks: seq<seq<byte>>, limit: nat, done: nat, offset: nat)
    requires |chunks| == 0 || |chunks[0]| == 0 || (limit > 0 && done >= limit)
    ensures RenderAll(show, Buffers(chunks, limit, done), offset) == []
  {
  }

  /** One step of the loop's output: the clipped first buffer at the
      current offset, then the rest. */
  lemma RenderStep(show: Printer, chunks: seq<seq<byte>>, limit: nat, done: nat, offset: nat, n: nat)
    requires |chunks| > 0 && |chunks[0]| > 0 && (limit == 0 || done < limit)
    requires n == Allowed(limit, done, |chunks[0]|)
    ensures n <= |chunks[0]|
    ensures RenderAll(show, Buffers(chunks, limit, done), offset)
      == Emit(show, chunks[0][..n], offset) + RenderAll(show, Buffers(chunks[1..], limit, done + n), offset + n)
  {
    BuffersStep(chunks, limit, done);
  }


  /** What dumping one file gives: a status and the text printed. */
  datatype Dump = Dump(status: int, text: string)

  /** `hexdump_file` with the printer of the chosen layout: the read loop
      over an opened input (`None`: the open failed). */
  method HexdumpFile(input: Option<Input>, show: Printer, skip: nat, limit: nat) returns (d: Dump)
    ensures input.None? ==> d == Dump(1, [])
    ensures input.Some? && skip > 0 && !input.value.seekOk ==> d == Dump(1, [])
    ensures input.Some? && (skip == 0 || input.value.seekOk) ==>
      d.status == (if input.value.readError then 1 else 0)
      && d.text == RenderAll(show, Buffers(input.value.chunks, limit, 0), skip)
  {
    if input.None? {
      return Dump(1, []);
    }
    var src := input.value;
    if skip > 0 && !src.seekOk {
      return Dump(1, []);
    }
    var text: string := [];
    var done: nat := 0;
    var rest := src.chunks;
    ghost var whole := RenderAll(show, Buffers(rest, limit, 0), skip);
    assert text + whole == whole;
    while |rest| > 0 && |rest[0]| > 0 && (limit == 0 || done < limit)
      invariant limit == 0 || done <= limit
      invariant text + RenderAll(show, Buffers(rest, limit, done), skip + done) == whole
      decreases |rest|
    {
      var buf := rest[0];
      var n := |buf|;
      if limit > 0 && done + n > limit {
        n := limit - done;
      }
      assert n == Allowed(limit, done, |buf|);
      ghost var text0, rest0, done0 := text, rest, done;
      text := text + Emit(show, buf[..n], skip + done);
      done := done + n;
      rest := rest[1..];
      LoopStep(show, text0, rest0, limit, done0, skip, n, whole, text, rest, done);
    }
    RenderDone(show, rest, limit, done, skip + done);
    return Dump(if src.readError then 1 else 0, text);
  }

  // ------------------------------------------------------------ regular files

  /** The chunks of a regular file after seeking to `skip`: full 4096-byte
      buffers, then the rest. */
  function FileChunks(rest: seq<byte>): seq<seq<byte>>
    decreases |rest|
  {
    if |rest| == 0 then [] else if |rest| <= 4096 then [rest] else [rest[..4096]] + FileChunks(rest[4096..])
  }

  /** A regular file's chunks deliver exactly the bytes past the skip. */
  lemma {:induction false} FileChunksAvailable(rest: seq<byte>)
    ensures Available(FileChunks(rest)) == rest
    decreases |rest|
  {
    if |rest| > 4096 {
      FileChunksAvailable(rest[4096..]);
      assert FileChunks(rest)[1..] == FileChunks(rest[4096..]);
      assert rest[..4096] + rest[4096..] == rest;
    } else if |rest| > 0 {
      assert FileChunks(rest)[1..] == [];
    }
  }

  /** So for a regular file, the dump covers the bytes from the skip offset
      on, at most `limit` of them when a limit is given. */
  lemma RegularFileDump(content: seq<byte>, skip: nat, limit: nat)
    ensures var rest := if skip <= |content| then content[skip..] else [];
      Concat(Buffers(FileChunks(rest), limit, 0)) == rest[..Allowed(limit, 0, |rest|)]
  {
    var rest := if skip <= |content| then content[skip..] else [];
    FileChunksAvailable(rest);
    BuffersPrefix(FileChunks(rest), limit, 0);
  }

  // ------------------------------------------------------------------ main

  /** Reference for the output of one input: nothing when it cannot be
      opened or positioned, otherwise its clipped buffers rendered from the
      skip offset on. */
  function FileText(input: Option<Input>, show: Printer, skip: nat, limit: nat): string {
    if input.None? || (skip > 0 && !input.value.seekOk) then []
    else RenderAll(show, Buffers(input.value.chunks, limit, 0), skip)
  }

  /** Reference for the output over several inputs: each one's text in turn. */
  function DumpTexts(inputs: seq<Option<Input>>, show: Printer, skip: nat, limit: nat): string {
    if |inputs| == 0 then []
    else DumpTexts(inputs[..|inputs| - 1], show, skip, limit) + FileText(inputs[|inputs| - 1], show, skip, limit)
  }

  /** The loop over the files: the output is every file's dump in order, and
      the exit status is 1 as soon as any file fails. */
  method DumpAll(inputs: seq<Option<Input>>, show: Printer, skip: nat, limit: nat) returns (code: int, text: string)
    ensures code == 0 || code == 1
    ensures code == 0 <==> forall k | 0 <= k < |inputs| ::
      inputs[k].Some? && (skip == 0 || inputs[k].value.seekOk) && !inputs[k].value.readError
    ensures text == DumpTexts(inputs, show, skip, limit)
  {
    code := 0;
    text := [];
    var i := 0;
    while i < |inputs|
      invariant i <= |inputs|
      invariant code == 0 || code == 1
      invariant code == 0 <==> forall k | 0 <= k < i ::
        inputs[k].Some? && (skip == 0 || inputs[k].value.seekOk) && !inputs[k].value.readError
      invariant text == DumpTexts(inputs[..i], show, skip, limit)
    {
      var d := HexdumpFile(inputs[i], show, skip, limit);
      if d.status != 0 {
        code := 1;
      }
      text := text + d.text;
      assert inputs[..i + 1][..i] == inputs[..i];
      i := i + 1;
    }
    assert inputs[..i] == inputs;
  }

  /** `main`: parse the options, then dump every file in turn (standard
      input when no file is named). */
  method Hexdump(opts: seq<Opt>, files: seq<Option<Input>>, stdin: Input) returns (code: int, text: string)
    ensures ParseOptions(opts).Exit? ==> code == ParseOptions(opts).code && text == []
    ensures ParseOptions(opts).Run? ==> code == 0 || code == 1
    ensures ParseOptions(opts).Run? && |files| > 0 ==> (code == 0 <==> forall k | 0 <= k < |files| ::
      files[k].Some? && (ParseOptions(opts).settings.skip == 0 || files[k].value.seekOk) && !files[k].value.readError)
    ensures ParseOptions(opts).Run? && |files| == 0 ==>
      (code == 0 <==> (ParseOptions(opts).settings.skip == 0 || stdin.seekOk) && !stdin.readError)
    ensures ParseOptions(opts).Run? ==>
      var s := ParseOptions(opts).settings;
      text == DumpTexts(if |files| == 0 then [Some(stdin)] else files, PrinterOf(LayoutOf(s)), s.skip, s.limit)
  {
    var parse := ParseOptions(opts);
    if parse.Exit? {
      return parse.code, [];
    }
    var s := parse.settings;
    var layout := LayoutOf(s);
    var inputs := if |files| == 0 then [Some(stdin)] else files;
    code, text := DumpAll(inputs, PrinterOf(layout), s.skip, s.limit);
  }
}
