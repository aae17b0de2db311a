/** The line comparison tool: the `getline` split of each file, the
    normalisation applied under -i and -w, and the index-aligned pairing of
    lines that yields add, delete and change records and an exit status. */
module Diff {
  import opened Base

  // ------------------------------------------------------------ line split

  /** Length of the first line of `c`: through its first '\n', or all of
      `c` when there is none. */
  function LineLength(c: string): (n: nat)
    requires |c| > 0
    ensures 0 < n <= |c|
    ensures forall i | 0 <= i < n - 1 :: c[i] != '\n'
    ensures n < |c| ==> c[n - 1] == '\n'
    ensures n == |c| && c[n - 1] != '\n' ==> forall i | 0 <= i < |c| :: c[i] != '\n'
  {
    if c[0] == '\n' || |c| == 1 then 1 else 1 + LineLength(c[1..])
  }

  /** The lines successive `getline` calls return: each keeps its '\n',
      and a last line without one is returned as it is. Splitting loses
      nothing and adds nothing: the lines put back together are the file. */
  function GetLines(c: string): (lines: seq<string>)
    ensures Concat(lines) == c
    decreases |c|
  {
    if |c| == 0 then [] else
      var n := LineLength(c);
      ConcatCons(c[..n], GetLines(c[n..]));
      assert c[..n] + c[n..] == c;
      [c[..n]] + GetLines(c[n..])
  }

  /** Every line is non-empty, and '\n' occurs in a line only as its last
      character; every line but the last ends in one. */
  predicate LineShaped(lines: seq<string>) {
    (forall k | 0 <= k < |lines| :: |lines[k]| > 0)
    && (forall k, i | 0 <= k < |lines| && 0 <= i < |lines[k]| - 1 :: lines[k][i] != '\n')
    && (forall k | 0 <= k < |lines| - 1 :: lines[k][|lines[k]| - 1] == '\n')
  }

  /** A first line of the right shape in front of line-shaped lines. */
  lemma ShapedCons(first: string, rest: seq<string>)
    requires |first| > 0 && forall i | 0 <= i < |first| - 1 :: first[i] != '\n'
    requires |rest| > 0 ==> first[|first| - 1] == '\n'
    requires LineShaped(rest)
    ensures LineShaped([first] + rest)
  {
    var lines := [first] + rest;
    assert forall k | 1 <= k < |lines| :: lines[k] == rest[k - 1];
  }

  /** The lines have the shape `getline` gives. */
  lemma {:induction false} GetLinesShaped(c: string)
    ensures LineShaped(GetLines(c))
    decreases |c|
  {
    if |c| > 0 {
      var n := LineLength(c);
      var rest := GetLines(c[n..]);
      assert GetLines(c) == [c[..n]] + rest;
      GetLinesShaped(c[n..]);
      ShapedCons(c[..n], rest);
    }
  }

  /** Splitting a line-shaped sequence's concatenation gives it back. */
  lemma {:induction false} GetLinesOfConcat(lines: seq<string>)
    requires LineShaped(lines)
    ensures GetLines(Concat(lines)) == lines
    decreases |lines|
  {
    if |lines| > 0 {
      var first, rest := lines[0], lines[1..];
      assert lines == [first] + rest;
      ConcatCons(first, rest);
      assert LineShaped(rest) by {
        assert forall k | 0 <= k < |rest| :: rest[k] == lines[k + 1];
      }
      GetLinesOfConcat(rest);
      var c := Concat(lines);
      assert c[..|first|] == first;
      FirstLineLength(first, Concat(rest), |rest| > 0);
      assert c[|first|..] == Concat(rest);
    }
  }

  /** The first line of `line + tail` is `line` when `line` is the only
      stretch up to a '\n' (or runs to the end). */
  lemma FirstLineLength(line: string, tail: string, endsInNewline: bool)
    requires |line| > 0
    requires forall i | 0 <= i < |line| - 1 :: line[i] != '\n'
    requires endsInNewline ==> line[|line| - 1] == '\n'
    requires !endsInNewline ==> tail == []
    ensures LineLength(line + tail) == |line|
  {
    var c := line + tail;
    assert forall i | 0 <= i < |line| :: c[i] == line[i];
  }

  // --------------------------------------------------------- normalisation

  /** The two characters -w deletes. */
  predicate IsBlankChar(c: char) {
    c == ' ' || c == '\t'
  }

  predicate IsUpper(c: char) {
    'A' <= c <= 'Z'
  }

  /** -i: 'A'..'Z' become lower case by adding 32, everything else stays. */
  function FoldCase(c: char): (r: char)
    ensures IsUpper(c) ==> r as int == c as int + 32
    ensures !IsUpper(c) ==> r == c
  {
    if IsUpper(c) then (c as int + 32) as char else c
  }

  /** What normalisation makes of one character: nothing, if -w drops it;
      else the character, case-folded under -i. */
  function NormalizeChar(c: char, ic: bool, iw: bool): string {
    if iw && IsBlankChar(c) then [] else [if ic then FoldCase(c) else c]
  }

  /** The copy loop of `normalize_line`, over a NUL-free string. */
  function NormalizeChars(s: string, ic: bool, iw: bool): (r: string)
    ensures |r| <= |s|
  {
    if |s| == 0 then [] else NormalizeChar(s[0], ic, iw) + NormalizeChars(s[1..], ic, iw)
  }

  /** `normalize_line`: the copy loop runs until the first NUL and writes
      at most one character per character read, so the copy is never
      longer than the line. */
  function Normalize(line: string, ic: bool, iw: bool): (r: string)
    ensures |r| <= |line|
  {
    if |line| == 0 || line[0] == '\0' then []
    else NormalizeChar(line[0], ic, iw) + Normalize(line[1..], ic, iw)
  }

  /** `normalize_line` normalises the C string the line denotes. */
  lemma {:induction false} NormalizeCString(line: string, ic: bool, iw: bool)
    ensures Normalize(line, ic, iw) == NormalizeChars(CString(line), ic, iw)
    decreases |line|
  {
    if |line| > 0 && line[0] != '\0' {
      NormalizeCString(line[1..], ic, iw);
      assert CString(line) == [line[0]] + CString(line[1..]);
      assert ([line[0]] + CString(line[1..]))[1..] == CString(line[1..]);
    }
  }

  /** Normalising a concatenation normalises the pieces. */
  lemma {:induction false} NormalizeAppend(a: string, b: string, ic: bool, iw: bool)
    ensures NormalizeChars(a + b, ic, iw) == NormalizeChars(a, ic, iw) + NormalizeChars(b, ic, iw)
    decreases |a|
  {
    if |a| > 0 {
      assert (a + b)[0] == a[0];
      assert (a + b)[1..] == a[1..] + b;
      NormalizeAppend(a[1..], b, ic, iw);
      AppendAssoc(NormalizeChar(a[0], ic, iw), NormalizeChars(a[1..], ic, iw), NormalizeChars(b, ic, iw));
    } else {
      assert a + b == b;
    }
  }

  /** With neither flag the line is copied up to its first NUL. */
  lemma {:induction false} NormalizeIdentity(s: string)
    ensures NormalizeChars(s, false, false) == s
    decreases |s|
  {
    if |s| > 0 {
      NormalizeIdentity(s[1..]);
    }
  }

  /** The output is what the definition says character by character: under
      -w no ' ' or '\t' survives, under -i no upper-case letter survives, no
      NUL appears, and without -w every position maps to its own. */
  lemma {:induction false} NormalizeContents(s: string, ic: bool, iw: bool)
    requires forall i | 0 <= i < |s| :: s[i] != '\0'
    ensures var r := NormalizeChars(s, ic, iw);
      (forall i | 0 <= i < |r| :: r[i] != '\0')
      && (iw ==> forall i | 0 <= i < |r| :: !IsBlankChar(r[i]))
      && (ic ==> forall i | 0 <= i < |r| :: !IsUpper(r[i]))
      && (!iw ==> |r| == |s| && forall i | 0 <= i < |s| :: r[i] == (if ic then FoldCase(s[i]) else s[i]))
    decreases |s|
  {
    if |s| > 0 {
      NormalizeContents(s[1..], ic, iw);
    }
  }

  /** Normalising twice is normalising once. */
  lemma {:induction false} NormalizeIdempotent(s: string, ic: bool, iw: bool)
    ensures NormalizeChars(NormalizeChars(s, ic, iw), ic, iw) == NormalizeChars(s, ic, iw)
    decreases |s|
  {
    if |s| > 0 {
      var head, rest := NormalizeChar(s[0], ic, iw), NormalizeChars(s[1..], ic, iw);
      NormalizeIdempotent(s[1..], ic, iw);
      NormalizeAppend(head, rest, ic, iw);
      if |head| == 1 {
        assert head[1..] == [];
        assert NormalizeChars(head, ic, iw) == NormalizeChar(head[0], ic, iw);
      }
    }
  }

  /** Pieces that normalise alike can replace each other in any line. */
  lemma NormalizeSplice(a: string, m: string, m': string, b: string, ic: bool, iw: bool)
    requires NormalizeChars(m, ic, iw) == NormalizeChars(m', ic, iw)
    ensures NormalizeChars(a + m + b, ic, iw) == NormalizeChars(a + m' + b, ic, iw)
  {
    NormalizeAppend(a, m, ic, iw);
    NormalizeAppend(a, m', ic, iw);
    NormalizeAppend(a + m, b, ic, iw);
    NormalizeAppend(a + m', b, ic, iw);
  }

  /** A one-character piece normalises as its character does. */
  lemma NormalizeSingle(c: char, ic: bool, iw: bool)
    ensures NormalizeChars([c], ic, iw) == NormalizeChar(c, ic, iw)
  {
    assert [c][1..] == [];
  }

  /** Under -w a blank inserted anywhere makes no difference. */
  lemma BlankIgnored(a: string, b: string, c: char, ic: bool)
    requires IsBlankChar(c)
    ensures NormalizeChars(a + [c] + b, ic, true) == NormalizeChars(a + b, ic, true)
  {
    NormalizeSingle(c, ic, true);
    NormalizeSplice(a, [c], [], b, ic, true);
    assert a + [] + b == a + b;
  }

  /** Under -i a letter and its capital compare equal. */
  lemma CaseIgnored(a: string, b: string, c: char, iw: bool)
    requires IsUpper(c)
    ensures NormalizeChars(a + [c] + b, true, iw) == NormalizeChars(a + [FoldCase(c)] + b, true, iw)
  {
    var d := FoldCase(c);
    NormalizeSingle(c, true, iw);
    NormalizeSingle(d, true, iw);
    NormalizeSplice(a, [c], [d], b, true, iw);
  }

  // ------------------------------------------------------------ comparison

  /** The -i, -w and -q switches. */
  datatype Options = Options(ignoreCase: bool, ignoreWhitespace: bool, brief: bool)

  /** `strcmp(x, y) == 0` for NUL-free `x` and `y`: the bytes agree up to
      the end of the shorter, and both end there. */
  predicate StrEqual(x: string, y: string) {
    if |x| == 0 || |y| == 0 then |x| == |y| else x[0] == y[0] && StrEqual(x[1..], y[1..])
  }

  /** On NUL-free strings `strcmp` reports 0 exactly for equal strings. */
  lemma {:induction false} StrEqualIff(x: string, y: string)
    ensures StrEqual(x, y) <==> x == y
  {
    if |x| > 0 && |y| > 0 {
      StrEqualIff(x[1..], y[1..]);
      assert x == [x[0]] + x[1..] && y == [y[0]] + y[1..];
    }
  }

  /** The two lines compare equal after normalising. */
  predicate Same(l1: string, l2: string, o: Options) {
    StrEqual(Normalize(l1, o.ignoreCase, o.ignoreWhitespace), Normalize(l2, o.ignoreCase, o.ignoreWhitespace))
  }

  /** Lines compare equal exactly when their normalised forms are equal. */
  lemma SameIff(l1: string, l2: string, o: Options)
    ensures Same(l1, l2, o) <==> Normalize(l1, o.ignoreCase, o.ignoreWhitespace) == Normalize(l2, o.ignoreCase, o.ignoreWhitespace)
  {
    StrEqualIff(Normalize(l1, o.ignoreCase, o.ignoreWhitespace), Normalize(l2, o.ignoreCase, o.ignoreWhitespace));
  }

  /** One record, keyed by `line_num`. `Added(n, t)` is printed "n-1 a n"
      then "> t"; `Deleted(n, t)` is "n d n-1" then "< t"; `Changed(n, o,
      t)` is "n c n", "< o", "---", "> t". Each text is what `%s` prints of
      the line: its C string, so a line holding a NUL is cut there and
      loses its newline. */
  datatype Record =
    | Added(line: nat, text: string)
    | Deleted(line: nat, text: string)
    | Changed(line: nat, before: string, after: string)

  /** The record for the pair at index `i` (line number `i + 1`), if any:
      the loop pairs the i-th line of each file and never re-aligns. */
  function RecordAt(a: seq<string>, b: seq<string>, i: nat, o: Options): seq<Record> {
    if i >= |a| && i >= |b| then []
    else if i >= |a| then [Added(i + 1, CString(b[i]))]
    else if i >= |b| then [Deleted(i + 1, CString(a[i]))]
    else if Same(a[i], b[i], o) then []
    else [Changed(i + 1, CString(a[i]), CString(b[i]))]
  }

  /** The records for the first `n` pairs. */
  function RecordsUpTo(a: seq<string>, b: seq<string>, n: nat, o: Options): seq<Record>
    decreases n, 0
  {
    if n == 0 then [] else RecordsThrough(a, b, n - 1, o)
  }

  /** The records for the pairs up to and including index `i`. */
  function RecordsThrough(a: seq<string>, b: seq<string>, i: nat, o: Options): seq<Record>
    decreases i, 1
  {
    RecordsUpTo(a, b, i, o) + RecordAt(a, b, i, o)
  }

  /** One more pair: its records follow those of the pairs before it. */
  lemma RecordsStep(a: seq<string>, b: seq<string>, o: Options, i: nat)
    ensures var all, r := RecordsUpTo(a, b, i, o), RecordAt(a, b, i, o);
      RecordsUpTo(a, b, i + 1, o) == (if |r| > 0 then all + r else all)
      && (|RecordsUpTo(a, b, i + 1, o)| > 0 <==> |all| > 0 || |r| > 0)
  {
    var all, r := RecordsUpTo(a, b, i, o), RecordAt(a, b, i, o);
    assert RecordsUpTo(a, b, i + 1, o) == RecordsThrough(a, b, i, o) == all + r;
    if |r| == 0 {
      assert all + r == all;
    }
  }

  /** The records of the first `i + 1` pairs extend those of the first `i`
      by pair `i`'s. */
  lemma RecordsSnoc(a: seq<string>, b: seq<string>, o: Options, i: nat)
    ensures RecordsUpTo(a, b, i + 1, o) == RecordsUpTo(a, b, i, o) + RecordAt(a, b, i, o)
  {
    assert RecordsUpTo(a, b, i + 1, o) == RecordsThrough(a, b, i, o);
  }

  function MaxLen(a: seq<string>, b: seq<string>): nat {
    if |a| >= |b| then |a| else |b|
  }

  /** Whether pair `i` is a difference: one file has run out, or the lines
      differ after normalising. */
  predicate Differs(a: seq<string>, b: seq<string>, i: nat, o: Options) {
    i < MaxLen(a, b) && (i >= |a| || i >= |b| || !Same(a[i], b[i], o))
  }

  function LinesOf(recs: seq<Record>): set<nat> {
    set k | 0 <= k < |recs| :: recs[k].line
  }

  /** The line numbers of a concatenation of records. */
  lemma LinesOfAppend(p: seq<Record>, q: seq<Record>)
    ensures LinesOf(p + q) == LinesOf(p) + LinesOf(q)
  {
    var r := p + q;
    forall x | x in LinesOf(r) ensures x in LinesOf(p) + LinesOf(q) {
      var k :| 0 <= k < |r| && r[k].line == x;
      if k >= |p| {
        assert r[k] == q[k - |p|];
      }
    }
    forall x | x in LinesOf(p) ensures x in LinesOf(r) {
      var k :| 0 <= k < |p| && p[k].line == x;
      assert r[k] == p[k];
    }
    forall x | x in LinesOf(q) ensures x in LinesOf(r) {
      var k :| 0 <= k < |q| && q[k].line == x;
      assert r[|p| + k] == q[k];
    }
  }

  /** The record of pair `i`: at most one, there iff the pair is a
      difference, for line `i + 1` and of the right kind. */
  lemma RecordAtShape(a: seq<string>, b: seq<string>, i: nat, o: Options)
    ensures var r := RecordAt(a, b, i, o);
      |r| <= 1 && (|r| == 1 <==> Differs(a, b, i, o))
      && (|r| == 1 ==> r[0].line == i + 1 && RecordFits(a, b, r[0], o))
      && LinesOf(r) == if Differs(a, b, i, o) then {i + 1} else {}
  {
    var r := RecordAt(a, b, i, o);
    if |r| == 1 {
      assert r[0].line == i + 1;
    }
  }

  /** What `%s` prints of `line`: the whole line when it holds no NUL, and
      otherwise the part before its first NUL. */
  predicate Shows(t: string, line: string) {
    ((forall k | 0 <= k < |line| :: line[k] != '\0') ==> t == line)
    && (forall k | 0 <= k < |line| && line[k] == '\0' && (forall j | 0 <= j < k :: line[j] != '\0') :: t == line[..k])
  }

  /** The C string of a line is what `%s` prints of it. */
  lemma CStringShows(line: string)
    ensures Shows(CString(line), line)
  {
    var r := CString(line);
    if forall k | 0 <= k < |line| :: line[k] != '\0' {
      CStringNoNul(line);
    }
    forall k | 0 <= k < |line| && line[k] == '\0' && (forall j | 0 <= j < k :: line[j] != '\0')
      ensures r == line[..k]
    {
      assert |r| == k;
    }
  }

  /** Every text a record carries is what `%s` prints of its line. */
  predicate TextsShown(a: seq<string>, b: seq<string>, r: Record) {
    var i := r.line - 1;
    r.line >= 1 &&
    match r
    case Added(_, t) => i < |b| && Shows(t, b[i])
    case Deleted(_, t) => i < |a| && Shows(t, a[i])
    case Changed(_, p, q) => i < |a| && i < |b| && Shows(p, a[i]) && Shows(q, b[i])
  }

  /** The record at index `i`, when there is one, carries the C strings of
      its lines. */
  lemma RecordAtTexts(a: seq<string>, b: seq<string>, i: nat, o: Options)
    ensures |a| <= i < |b| ==> RecordAt(a, b, i, o) == [Added(i + 1, CString(b[i]))]
    ensures |b| <= i < |a| ==> RecordAt(a, b, i, o) == [Deleted(i + 1, CString(a[i]))]
    ensures i < |a| && i < |b| ==>
      RecordAt(a, b, i, o) == if Same(a[i], b[i], o) then [] else [Changed(i + 1, CString(a[i]), CString(b[i]))]
    ensures i >= |a| && i >= |b| ==> RecordAt(a, b, i, o) == []
  {
  }

  /** Every record, added, deleted or changed, shows a line without NUL
      whole, newline included, and a line holding a NUL only up to its first
      NUL, as `%s` stops there; so "x\0y\n" is shown as "x". */
  lemma RecordText(a: seq<string>, b: seq<string>, i: nat, o: Options)
    ensures forall r | r in RecordAt(a, b, i, o) :: r.line == i + 1 && TextsShown(a, b, r)
    ensures i < |a| && i >= |b| && a[i] == "x\0y\n" ==> RecordAt(a, b, i, o) == [Deleted(i + 1, "x")]
  {
    RecordAtTexts(a, b, i, o);
    var rs := RecordAt(a, b, i, o);
    if |a| <= i < |b| {
      ShownText(a, b, Added(i + 1, CString(b[i])));
    } else if |b| <= i < |a| {
      ShownText(a, b, Deleted(i + 1, CString(a[i])));
      if a[i] == "x\0y\n" {
        CutAtNul();
      }
    } else if |rs| > 0 {
      ShownText(a, b, Changed(i + 1, CString(a[i]), CString(b[i])));
    }
  }

  /** A record that carries the C strings of its lines shows them. */
  lemma ShownText(a: seq<string>, b: seq<string>, r: Record)
    requires r.line >= 1
    requires r.Added? ==> r.line - 1 < |b| && r.text == CString(b[r.line - 1])
    requires r.Deleted? ==> r.line - 1 < |a| && r.text == CString(a[r.line - 1])
    requires r.Changed? ==> r.line - 1 < |a| && r.line - 1 < |b| && r.before == CString(a[r.line - 1]) && r.after == CString(b[r.line - 1])
    ensures TextsShown(a, b, r)
  {
    var i := r.line - 1;
    if i < |a| {
      CStringShows(a[i]);
    }
    if i < |b| {
      CStringShows(b[i]);
    }
  }

  /** The C string of "x\0y\n" is "x". */
  lemma CutAtNul()
    ensures CString("x\0y\n") == "x"
  {
    assert "x\0y\n"[1..] == "\0y\n";
    assert CString("\0y\n") == [];
  }

  /** Sound and complete for the first `n` pairs: line `i + 1` is in `lines`
      iff pair `i` is a difference, and no other line is. */
  predicate Covers(a: seq<string>, b: seq<string>, lines: set<nat>, n: nat, o: Options) {
    (forall i | 0 <= i < n :: (i + 1 in lines <==> Differs(a, b, i, o)))
    && (forall x | x in lines :: 1 <= x <= n)
  }

  /** Adding line `n + 1` exactly when pair `n` differs extends the cover. */
  lemma CoversSnoc(a: seq<string>, b: seq<string>, lines: set<nat>, more: set<nat>, n: nat, o: Options)
    requires Covers(a, b, lines, n, o)
    requires more == if Differs(a, b, n, o) then {n + 1} else {}
    ensures Covers(a, b, lines + more, n + 1, o)
  {
  }

  /** The line a pair's record is for, if it has one. */
  lemma RecordAtLines(a: seq<string>, b: seq<string>, i: nat, o: Options)
    ensures LinesOf(RecordAt(a, b, i, o)) == if Differs(a, b, i, o) then {i + 1} else {}
  {
    RecordAtShape(a, b, i, o);
  }

  /** Appending the records of pair `n` to a cover of the first `n` pairs
      covers the first `n + 1`. */
  lemma CoversAppend(a: seq<string>, b: seq<string>, pre: seq<Record>, tail: seq<Record>, n: nat, o: Options)
    requires Covers(a, b, LinesOf(pre), n, o)
    requires LinesOf(tail) == if Differs(a, b, n, o) then {n + 1} else {}
    ensures Covers(a, b, LinesOf(pre + tail), n + 1, o)
  {
    LinesOfAppend(pre, tail);
    CoversSnoc(a, b, LinesOf(pre), LinesOf(tail), n, o);
  }

  /** The records of the first `n` pairs are for exactly the lines whose
      pairs differ. */
  lemma {:induction false} RecordsCover(a: seq<string>, b: seq<string>, n: nat, o: Options)
    ensures Covers(a, b, LinesOf(RecordsUpTo(a, b, n, o)), n, o)
    decreases n
  {
    if n > 0 {
      var pre, tail := RecordsUpTo(a, b, n - 1, o), RecordAt(a, b, n - 1, o);
      RecordsSnoc(a, b, o, n - 1);
      RecordsCover(a, b, n - 1, o);
      RecordAtLines(a, b, n - 1, o);
      CoversAppend(a, b, pre, tail, n - 1, o);
    }
  }

  /** Records in strictly increasing line order, each for a line in
      `1..n` and each the right kind for its line. */
  predicate WellOrdered(a: seq<string>, b: seq<string>, recs: seq<Record>, n: nat, o: Options) {
    (forall k | 0 <= k < |recs| :: 1 <= recs[k].line <= n && RecordFits(a, b, recs[k], o))
    && (forall k, j | 0 <= k < j < |recs| :: recs[k].line < recs[j].line)
  }

  /** A record for line `n + 1` may follow records well ordered up to `n`. */
  lemma WellOrderedSnoc(a: seq<string>, b: seq<string>, pre: seq<Record>, tail: seq<Record>, n: nat, o: Options)
    requires WellOrdered(a, b, pre, n, o) && |tail| <= 1
    requires |tail| == 1 ==> tail[0].line == n + 1 && RecordFits(a, b, tail[0], o)
    ensures WellOrdered(a, b, pre + tail, n + 1, o)
  {
    var recs := pre + tail;
    forall k | 0 <= k < |recs|
      ensures 1 <= recs[k].line <= n + 1 && RecordFits(a, b, recs[k], o)
    {
      if k < |pre| {
        assert recs[k] == pre[k];
      } else {
        assert recs[k] == tail[0];
      }
    }
    forall k, j | 0 <= k < j < |recs|
      ensures recs[k].line < recs[j].line
    {
      assert recs[k] == pre[k];
      if j < |pre| {
        assert recs[j] == pre[j];
      } else {
        assert recs[j] == tail[0];
      }
    }
  }

  /** The records come in line order, and each is the right kind for its
      line and carries the text of the lines involved: a line only in the
      second file is "added", only in the first "deleted", in both
      "changed". */
  lemma {:induction false} RecordsOrdered(a: seq<string>, b: seq<string>, n: nat, o: Options)
    ensures WellOrdered(a, b, RecordsUpTo(a, b, n, o), n, o)
    decreases n
  {
    if n > 0 {
      RecordsOrdered(a, b, n - 1, o);
      RecordAtShape(a, b, n - 1, o);
      assert RecordsUpTo(a, b, n, o) == RecordsThrough(a, b, n - 1, o);
      WellOrderedSnoc(a, b, RecordsUpTo(a, b, n - 1, o), RecordAt(a, b, n - 1, o), n - 1, o);
    }
  }

  /** A record is the right kind for its line and carries what `%s` prints
      of that line. */
  predicate RecordFits(a: seq<string>, b: seq<string>, r: Record, o: Options) {
    var i := r.line - 1;
    r.line >= 1 &&
    match r
    case Added(_, t) => |a| <= i < |b| && t == CString(b[i])
    case Deleted(_, t) => |b| <= i < |a| && t == CString(a[i])
    case Changed(_, p, q) => i < |a| && i < |b| && p == CString(a[i]) && q == CString(b[i]) && !Same(a[i], b[i], o)
  }

  /** The outcome of `compare_files`: the status, the records printed
      (none under -q), and whether the brief "Files ... differ" line is
      printed. */
  datatype DiffResult = DiffResult(status: int, records: seq<Record>, differLine: bool)

  /** The state the comparison loop keeps after the first `i` pairs: the
      records printed so far (none under -q) and whether any was found. */
  predicate Collected(a: seq<string>, b: seq<string>, o: Options, i: nat, printed: seq<Record>, differences: bool) {
    var recs := RecordsUpTo(a, b, i, o);
    printed == (if o.brief then [] else recs) && (differences <==> |recs| > 0)
  }

  /** One pass of the comparison loop: report pair `i` unless it matches. */
  method CollectOne(a: seq<string>, b: seq<string>, o: Options, i: nat, printed: seq<Record>, differences: bool)
      returns (printed': seq<Record>, differences': bool)
    requires Collected(a, b, o, i, printed, differences)
    ensures Collected(a, b, o, i + 1, printed', differences')
  {
    var r := RecordAt(a, b, i, o);
    RecordsStep(a, b, o, i);
    printed', differences' := printed, differences;
    if |r| > 0 {
      differences' := true;
      if !o.brief {
        printed' := printed + r;
      }
    }
  }

  /** The loop of `compare_files`: the records it prints and whether any
      pair differed. */
  method CollectRecords(a: seq<string>, b: seq<string>, o: Options)
      returns (printed: seq<Record>, differences: bool)
    ensures var recs := RecordsUpTo(a, b, MaxLen(a, b), o);
      printed == (if o.brief then [] else recs) && (differences <==> |recs| > 0)
  {
    var n := MaxLen(a, b);
    var lineNum := 1;
    printed := [];
    differences := false;
    while lineNum <= n
      invariant 1 <= lineNum <= n + 1
      invariant Collected(a, b, o, lineNum - 1, printed, differences)
    {
      printed, differences := CollectOne(a, b, o, lineNum - 1, printed, differences);
      lineNum := lineNum + 1;
    }
    assert lineNum - 1 == n;
  }

  /** `compare_files`. `f1` and `f2` are the files' contents, None when
      `fopen` fails. */
  method CompareFiles(f1: Option<string>, f2: Option<string>, o: Options) returns (res: DiffResult)
    ensures (f1.None? || f2.None?) <==> res.status == 2
    ensures res.status == 2 ==> res.records == [] && !res.differLine
    ensures res.status != 2 ==>
      var a, b := GetLines(f1.value), GetLines(f2.value);
      var recs := RecordsUpTo(a, b, MaxLen(a, b), o);
      res.status == (if |recs| > 0 then 1 else 0)
      && res.records == (if o.brief then [] else recs)
      && res.differLine == (o.brief && |recs| > 0)
    ensures res.status == 0 <==> f1.Some? && f2.Some? && SameFiles(GetLines(f1.value), GetLines(f2.value), o)
  {
    if f1.None? || f2.None? {
      return DiffResult(2, [], false);
    }
    var a, b := GetLines(f1.value), GetLines(f2.value);
    var printed, differences := CollectRecords(a, b, o);
    StatusZeroIff(a, b, o);
    return DiffResult(if differences then 1 else 0, printed, o.brief && differences);
  }

  /** Same number of lines, and every pair equal after normalising. */
  predicate SameFiles(a: seq<string>, b: seq<string>, o: Options) {
    |a| == |b| && forall i | 0 <= i < |a| :: Same(a[i], b[i], o)
  }

  /** The status is 0 exactly when both files have the same number of
      lines and every pair is equal after normalising, and 1 otherwise. */
  lemma StatusZeroIff(a: seq<string>, b: seq<string>, o: Options)
    ensures |RecordsUpTo(a, b, MaxLen(a, b), o)| == 0 <==> SameFiles(a, b, o)
  {
    var n := MaxLen(a, b);
    var recs := RecordsUpTo(a, b, n, o);
    RecordsCover(a, b, n, o);
    if |recs| == 0 {
      assert forall i | 0 <= i < n :: !Differs(a, b, i, o);
      assert n > 0 ==> (|a| != |b| <==> Differs(a, b, n - 1, o) && (n - 1 >= |a| || n - 1 >= |b|));
      forall i | 0 <= i < |a| ensures Same(a[i], b[i], o) {
        assert !Differs(a, b, i, o);
      }
    } else {
      var x := recs[0].line;
      assert x in LinesOf(recs);
      assert Differs(a, b, x - 1, o);
    }
  }

  /** A file compared with itself never differs, whatever the options. */
  lemma SelfCompare(c: string, o: Options)
    ensures |RecordsUpTo(GetLines(c), GetLines(c), |GetLines(c)|, o)| == 0
  {
    var a := GetLines(c);
    forall i | 0 <= i < |a| ensures Same(a[i], a[i], o) {
      SameIff(a[i], a[i], o);
    }
    StatusZeroIff(a, a, o);
  }
}
