/** The line classifier of the lines-of-code counter: a byte-level state
    machine that sorts every line of one file into code, comment or blank. */
module ClocScanner {
  import opened Base

  /** The comment tokens of one language. */
  datatype Syntax = Syntax(lineComment: string, blockStart: string, blockEnd: string)

  /** Every token of the table is non-empty and free of whitespace, so a token
      match always advances and never swallows a newline. */
  predicate ValidToken(t: string) {
    |t| > 0 && forall i | 0 <= i < |t| :: !IsSpace(t[i])
  }

  predicate WellFormed(syn: Syntax) {
    ValidToken(syn.lineComment) && ValidToken(syn.blockStart) && ValidToken(syn.blockEnd)
  }

  datatype LineCounts = LineCounts(code: nat, comment: nat, blank: nat) {
    function Plus(other: LineCounts): LineCounts {
      LineCounts(code + other.code, comment + other.comment, blank + other.blank)
    }
  }

  const NoLines := LineCounts(0, 0, 0)

  lemma PlusZero(l: LineCounts)
    ensures NoLines.Plus(l) == l && l.Plus(NoLines) == l
  {
  }

  lemma PlusAssoc(a: LineCounts, b: LineCounts, c: LineCounts)
    ensures a.Plus(b).Plus(c) == a.Plus(b.Plus(c))
  {
  }

  /** The flags `count_lines` keeps while it walks the buffer. */
  datatype ScanState = ScanState(inBlock: bool, inLine: bool, hasCode: bool, inString: bool, quote: char)

  const Start := ScanState(false, false, false, false, '\0')

  predicate IsQuote(c: char) {
    c == '"' || c == '\''
  }

  /** A string is never open together with a comment, and it remembers the
      quote that opened it. */
  predicate Consistent(st: ScanState) {
    st.inString ==> !st.inLine && !st.inBlock && IsQuote(st.quote)
  }

  /** A byte ends a line when it is '\n' or when it is the last byte of the
      buffer; in the latter case it is never examined. */
  predicate IsLineEnd(buf: string, p: nat)
    requires p < |buf|
  {
    buf[p] == '\n' || p == |buf| - 1
  }

  /** The priority rule applied at the end of every line: line comment, then
      block comment, then code, then blank. */
  function Classify(st: ScanState, acc: LineCounts): (r: LineCounts)
    ensures (r.code + r.comment + r.blank) == (acc.code + acc.comment + acc.blank) + 1
    ensures r.code >= acc.code && r.comment >= acc.comment && r.blank >= acc.blank
    ensures r.comment == acc.comment + 1 <==> st.inLine || st.inBlock
    ensures r.code == acc.code + 1 <==> !st.inLine && !st.inBlock && st.hasCode
    ensures r.blank == acc.blank + 1 <==> !st.inLine && !st.inBlock && !st.hasCode
  {
    if st.inLine then acc.(comment := acc.comment + 1)
    else if st.inBlock then acc.(comment := acc.comment + 1)
    else if st.hasCode then acc.(code := acc.code + 1)
    else acc.(blank := acc.blank + 1)
  }

  /** One pass of the loop body: where the scan resumes, the new flags and the
      counts after this position. */
  datatype Move = Move(next: nat, st: ScanState, counts: LineCounts)

  /** The string rule, which runs before any comment rule: outside comments an
      unescaped quote opens a string (and marks the line as code), and the same
      quote not preceded by a backslash closes it. */
  function StringRule(buf: string, p: nat, st: ScanState): ScanState
    requires p < |buf|
    requires p == 0 ==> !st.inString
  {
    var c := buf[p];
    if st.inLine || st.inBlock then st
    else if !st.inString && IsQuote(c) then st.(inString := true, quote := c, hasCode := true)
    else if st.inString && c == st.quote && buf[p - 1] != '\\' then st.(inString := false)
    else st
  }

  /** The comment and code rules, applied to a byte that is neither a line
      end nor whitespace, after the string rule has run. */
  function TokenRule(syn: Syntax, buf: string, p: nat, s: ScanState, acc: LineCounts): (m: Move)
    requires WellFormed(syn) && p < |buf|
    ensures p < m.next <= |buf|
    ensures m.counts == acc
    ensures Consistent(s) ==> Consistent(m.st)
  {
    if s.inString then
      Move(p + 1, s, acc)
    else if !s.inLine && !s.inBlock && OccursAt(buf, p, syn.blockStart) then
      Move(p + |syn.blockStart|, s.(inBlock := true), acc)
    else if s.inBlock && OccursAt(buf, p, syn.blockEnd) then
      Move(p + |syn.blockEnd|, s.(inBlock := false), acc)
    else if !s.inBlock && !s.inLine && OccursAt(buf, p, syn.lineComment) then
      Move(p + |syn.lineComment|, s.(inLine := true), acc)
    else if !s.inBlock && !s.inLine then
      Move(p + 1, s.(hasCode := true), acc)
    else
      Move(p + 1, s, acc)
  }

  function Step(syn: Syntax, buf: string, p: nat, st: ScanState, acc: LineCounts): (m: Move)
    requires WellFormed(syn) && p < |buf|
    requires p == 0 ==> !st.inString
    ensures p < m.next <= |buf|
    ensures (m.counts.code + m.counts.comment + m.counts.blank) == (acc.code + acc.comment + acc.blank) + (if IsLineEnd(buf, p) then 1 else 0)
    ensures Consistent(st) ==> Consistent(m.st)
  {
    if IsLineEnd(buf, p) then
      Move(p + 1, st.(inLine := false, hasCode := false), Classify(st, acc))
    else if IsSpace(buf[p]) then
      Move(p + 1, st, acc)
    else
      TokenRule(syn, buf, p, StringRule(buf, p, st), acc)
  }

  datatype ScanResult = ScanResult(counts: LineCounts, st: ScanState)

  /** The `while (p < end)` loop of `count_lines`, from position `p` on. */
  function Scan(syn: Syntax, buf: string, p: nat, st: ScanState, acc: LineCounts): ScanResult
    requires WellFormed(syn) && p <= |buf|
    requires p == 0 ==> !st.inString
    decreases |buf| - p, 1
  {
    if p == |buf| then ScanResult(acc, st) else ScanOn(syn, buf, p, st, acc)
  }

  /** One pass of the loop body at `p`, then the rest of the loop. */
  function ScanOn(syn: Syntax, buf: string, p: nat, st: ScanState, acc: LineCounts): ScanResult
    requires WellFormed(syn) && p < |buf|
    requires p == 0 ==> !st.inString
    decreases |buf| - p, 0
  {
    var m := Step(syn, buf, p, st, acc);
    Scan(syn, buf, m.next, m.st, m.counts)
  }

  /** Number of lines the classifier should report: one per newline, plus one
      for a final line that lacks its newline. */
  function PhysicalLines(buf: string): nat
    requires |buf| > 0
  {
    Newlines(buf) + (if buf[|buf| - 1] == '\n' then 0 else 1)
  }

  /** `count_lines`: scan the whole buffer, then commit one more code line when
      the scan ended inside code and the buffer lacks a final newline. The
      total equals the number of newlines when the buffer ends in one, and is
      at most one more otherwise (a trailing line swallowed by a comment
      token is not counted at all). */
  function CountLines(syn: Syntax, buf: string): (r: LineCounts)
    requires WellFormed(syn) && |buf| > 0
    ensures buf[|buf| - 1] == '\n' ==> (r.code + r.comment + r.blank) == Newlines(buf)
    ensures buf[|buf| - 1] != '\n' ==> Newlines(buf) <= (r.code + r.comment + r.blank) <= Newlines(buf) + 1
  {
    var res := Scan(syn, buf, 0, Start, NoLines);
    ScanTotal(syn, buf, 0, Start, NoLines);
    LastLineSplit(buf);
    if res.st.hasCode && buf[|buf| - 1] != '\n' then res.counts.(code := res.counts.code + 1)
    else res.counts
  }

  /** When the scan ends outside code the counts are the scan's own. */
  lemma CountLinesSettled(syn: Syntax, buf: string)
    requires WellFormed(syn) && |buf| > 0 && !Scan(syn, buf, 0, Start, NoLines).st.hasCode
    ensures CountLines(syn, buf) == Scan(syn, buf, 0, Start, NoLines).counts
  {
  }

  lemma LastLineSplit(buf: string)
    requires |buf| > 0
    ensures Newlines(buf) == Newlines(buf[..|buf| - 1]) + (if buf[|buf| - 1] == '\n' then 1 else 0)
  {
    assert buf == buf[..|buf| - 1] + [buf[|buf| - 1]];
    OccurrencesAppend(buf[..|buf| - 1], [buf[|buf| - 1]], '\n');
  }

  /** A matched token contains no newline, so jumping over it skips none. */
  lemma TokenNewlines(buf: string, p: nat, tok: string)
    requires ValidToken(tok) && OccursAt(buf, p, tok) && p + |tok| <= |buf| - 1
    ensures Newlines(buf[p..|buf| - 1]) == Newlines(buf[p + |tok|..|buf| - 1])
  {
    var q := p + |tok|;
    assert buf[p..|buf| - 1] == buf[p..q] + buf[q..|buf| - 1];
    OccurrencesAppend(buf[p..q], buf[q..|buf| - 1], '\n');
    assert forall i | 0 <= i < |buf[p..q]| :: buf[p..q][i] == tok[i];
    OccurrencesAbsent(buf[p..q], '\n');
  }

  /** A token that runs up to the end of the buffer hides the last byte: that
      byte is not '\n' and the remaining bytes hold no newline. */
  lemma TokenAtEnd(buf: string, p: nat, tok: string)
    requires ValidToken(tok) && OccursAt(buf, p, tok) && p + |tok| == |buf|
    ensures Newlines(buf[p..|buf| - 1]) == 0
    ensures buf[|buf| - 1] != '\n'
  {
    var rest := buf[p..|buf| - 1];
    assert buf[|buf| - 1] == tok[|tok| - 1];
    forall i | 0 <= i < |rest|
      ensures rest[i] != '\n'
    {
      assert rest[i] == tok[i] && !IsSpace(tok[i]);
    }
    OccurrencesAbsent(rest, '\n');
  }

  /** The scan has nothing left to do at the end of the buffer. */
  lemma ScanEnd(syn: Syntax, buf: string, st: ScanState, acc: LineCounts)
    requires WellFormed(syn) && |buf| > 0
    ensures Scan(syn, buf, |buf|, st, acc) == ScanResult(acc, st)
  {
  }

  /** One step of the scan, seen from the line count: a line end commits one
      line and clears `has_code`; any other step keeps the counts, and the
      newlines it jumps over (none, as tokens hold no whitespace) are
      accounted for; a token that runs to the end of the buffer hides its
      last byte. */
  lemma StepLines(syn: Syntax, buf: string, p: nat, st: ScanState, acc: LineCounts)
      returns (next: nat, st': ScanState, counts: LineCounts)
    requires WellFormed(syn) && p < |buf|
    requires p == 0 ==> !st.inString
    ensures p < next <= |buf|
    ensures Scan(syn, buf, p, st, acc) == Scan(syn, buf, next, st', counts)
    ensures IsLineEnd(buf, p) ==>
      (next == p + 1 && !st'.hasCode
       && (counts.code + counts.comment + counts.blank) == (acc.code + acc.comment + acc.blank) + 1)
    ensures IsLineEnd(buf, p) && next < |buf| ==> Newlines(buf[p..|buf| - 1]) == 1 + Newlines(buf[next..|buf| - 1])
    ensures IsLineEnd(buf, p) && next == |buf| ==> Newlines(buf[p..|buf| - 1]) == 0
    ensures !IsLineEnd(buf, p) ==> counts == acc
    ensures !IsLineEnd(buf, p) && next < |buf| ==> Newlines(buf[p..|buf| - 1]) == Newlines(buf[next..|buf| - 1])
    ensures !IsLineEnd(buf, p) && next == |buf| ==> Newlines(buf[p..|buf| - 1]) == 0 && buf[|buf| - 1] != '\n'
  {
    var m := Step(syn, buf, p, st, acc);
    next, st', counts := m.next, m.st, m.counts;
    var n := |buf|;
    if IsLineEnd(buf, p) {
      if p < n - 1 {
        assert buf[p..n - 1] == [buf[p]] + buf[p + 1..n - 1];
        OccurrencesAppend([buf[p]], buf[p + 1..n - 1], '\n');
      }
    } else if m.next == p + 1 {
      assert buf[p..n - 1] == [buf[p]] + buf[p + 1..n - 1];
      OccurrencesAppend([buf[p]], buf[p + 1..n - 1], '\n');
    } else {
      var s := StringRule(buf, p, st);
      assert m == TokenRule(syn, buf, p, s, acc);
      var tok :=
        if !s.inLine && !s.inBlock && OccursAt(buf, p, syn.blockStart) then syn.blockStart
        else if s.inBlock && OccursAt(buf, p, syn.blockEnd) then syn.blockEnd
        else syn.lineComment;
      assert OccursAt(buf, p, tok) && m.next == p + |tok|;
      if m.next == n {
        TokenAtEnd(buf, p, tok);
      } else {
        TokenNewlines(buf, p, tok);
      }
    }
  }

  /** The loop invariant behind the line-count theorem: scanning from `p` adds
      one line per newline before the last byte, plus one for the last byte
      unless a comment token swallowed it; and an open `has_code` at the end
      means it was swallowed. */
  lemma {:induction false} ScanTotal(syn: Syntax, buf: string, p: nat, st: ScanState, acc: LineCounts)
    requires WellFormed(syn) && p < |buf|
    requires p == 0 ==> !st.inString
    ensures var r := Scan(syn, buf, p, st, acc);
      var nl := Newlines(buf[p..|buf| - 1]);
      && ((r.counts.code + r.counts.comment + r.counts.blank) == (acc.code + acc.comment + acc.blank) + nl + 1
          || ((r.counts.code + r.counts.comment + r.counts.blank) == (acc.code + acc.comment + acc.blank) + nl && buf[|buf| - 1] != '\n'))
      && (r.st.hasCode ==> (r.counts.code + r.counts.comment + r.counts.blank) == (acc.code + acc.comment + acc.blank) + nl && buf[|buf| - 1] != '\n')
    decreases |buf| - p
  {
    var next, st', counts := StepLines(syn, buf, p, st, acc);
    if next < |buf| {
      ScanTotal(syn, buf, next, st', counts);
    } else {
      ScanEnd(syn, buf, st', counts);
    }
  }


  /** At a line end the line is classified by the priority rule; the
      line-comment flag and `has_code` reset, while block-comment and string
      state carry over to the next line. */
  lemma LineEndStep(syn: Syntax, buf: string, p: nat, st: ScanState, acc: LineCounts)
    requires WellFormed(syn) && p < |buf| && (p == 0 ==> !st.inString)
    requires IsLineEnd(buf, p)
    ensures var m := Step(syn, buf, p, st, acc);
      && m.next == p + 1
      && m.counts == Classify(st, acc)
      && !m.st.inLine && !m.st.hasCode
      && m.st.inBlock == st.inBlock && m.st.inString == st.inString && m.st.quote == st.quote
  {
  }

  /** Opening a quote outside comments starts a string and marks the line as code. */
  lemma QuoteOpensString(syn: Syntax, buf: string, p: nat, st: ScanState, acc: LineCounts)
    requires WellFormed(syn) && p < |buf| && !IsLineEnd(buf, p)
    requires !st.inString && !st.inLine && !st.inBlock && IsQuote(buf[p])
    ensures Step(syn, buf, p, st, acc) == Move(p + 1, st.(inString := true, quote := buf[p], hasCode := true), acc)
  {
  }

  /** Inside a string every byte other than its unescaped closing quote is
      skipped: no comment token is recognised and no flag changes. */
  lemma StringMasksComments(syn: Syntax, buf: string, p: nat, st: ScanState, acc: LineCounts)
    requires WellFormed(syn) && 0 < p < |buf| && !IsLineEnd(buf, p)
    requires Consistent(st) && st.inString
    requires buf[p] != st.quote || buf[p - 1] == '\\'
    ensures Step(syn, buf, p, st, acc) == Move(p + 1, st, acc)
  {
  }

  /** The same quote, not preceded by a backslash, closes the string; the
      byte is then subject to the comment rules at the same position, so it
      counts as code unless a comment token starts there. */
  lemma QuoteClosesString(syn: Syntax, buf: string, p: nat, st: ScanState, acc: LineCounts)
    requires WellFormed(syn) && 0 < p < |buf| && !IsLineEnd(buf, p)
    requires Consistent(st) && st.inString
    requires buf[p] == st.quote && buf[p - 1] != '\\'
    ensures !Step(syn, buf, p, st, acc).st.inString
    ensures !OccursAt(buf, p, syn.blockStart) && !OccursAt(buf, p, syn.lineComment) ==>
      Step(syn, buf, p, st, acc) == Move(p + 1, st.(inString := false, hasCode := true), acc)
  {
  }

  /** Scanning only whitespace from the initial state counts one blank line
      per line end and leaves the state untouched. */
  lemma {:induction false} ScanWhitespace(syn: Syntax, buf: string, p: nat, acc: LineCounts)
    requires WellFormed(syn) && p < |buf|
    requires forall i | 0 <= i < |buf| :: IsSpace(buf[i])
    ensures Scan(syn, buf, p, Start, acc)
      == ScanResult(acc.(blank := acc.blank + Newlines(buf[p..|buf| - 1]) + 1), Start)
    decreases |buf| - p
  {
    var n := |buf|;
    ScanOne(syn, buf, p, Start, acc);
    if p < n - 1 {
      ScanWhitespace(syn, buf, p + 1, if buf[p] == '\n' then acc.(blank := acc.blank + 1) else acc);
      assert buf[p..n - 1] == [buf[p]] + buf[p + 1..n - 1];
      OccurrencesAppend([buf[p]], buf[p + 1..n - 1], '\n');
    }
  }

  /** A file of whitespace and newlines only is all blank lines. */
  lemma WhitespaceIsBlank(syn: Syntax, buf: string)
    requires WellFormed(syn) && |buf| > 0
    requires forall i | 0 <= i < |buf| :: IsSpace(buf[i])
    ensures CountLines(syn, buf) == LineCounts(0, 0, PhysicalLines(buf))
  {
    var n := |buf|;
    var res := Scan(syn, buf, 0, Start, NoLines);
    assert res == ScanResult(LineCounts(0, 0, Newlines(buf[..n - 1]) + 1), Start) by {
      ScanWhitespace(syn, buf, 0, NoLines);
      assert buf[0..n - 1] == buf[..n - 1];
    }
    LastLineSplit(buf);
  }

  /** Inside a block comment that is never closed, every line end is a
      comment line and nothing else changes. */
  lemma {:induction false} ScanInBlock(syn: Syntax, buf: string, p: nat, acc: LineCounts)
    requires WellFormed(syn) && 0 < p <= |buf|
    requires forall j | p <= j < |buf| :: !OccursAt(buf, j, syn.blockEnd)
    ensures var r := Scan(syn, buf, p, Start.(inBlock := true), acc);
      r.counts.code == acc.code && r.counts.blank == acc.blank && r.st == Start.(inBlock := true)
    decreases |buf| - p
  {
    if p < |buf| {
      var m := Step(syn, buf, p, Start.(inBlock := true), acc);
      assert m.next == p + 1 && m.st == Start.(inBlock := true);
      ScanInBlock(syn, buf, p + 1, m.counts);
    }
  }

  /** A file that opens a block comment and never closes it has no code and
      no blank lines (the opener must not start with a quote, which the
      string rule would see first). */
  lemma UnterminatedBlockIsComment(syn: Syntax, buf: string)
    requires WellFormed(syn) && |buf| > |syn.blockStart|
    requires OccursAt(buf, 0, syn.blockStart) && !IsQuote(syn.blockStart[0])
    requires forall j | |syn.blockStart| <= j < |buf| :: !OccursAt(buf, j, syn.blockEnd)
    ensures CountLines(syn, buf).code == 0 && CountLines(syn, buf).blank == 0
  {
    var bs := syn.blockStart;
    var res := Scan(syn, buf, 0, Start, NoLines);
    assert res.counts.code == 0 && res.counts.blank == 0 && !res.st.hasCode by {
      assert Step(syn, buf, 0, Start, NoLines) == Move(|bs|, Start.(inBlock := true), NoLines) by {
        assert buf[0] == bs[0];
        assert buf[0] != '\n' && !IsSpace(buf[0]) && |buf| - 1 != 0;
        assert StringRule(buf, 0, Start) == Start;
      }
      ScanOne(syn, buf, 0, Start, NoLines);
      ScanInBlock(syn, buf, |bs|, NoLines);
    }
  }

  /** Text with no quote and no byte that starts a comment token. */
  predicate PlainText(syn: Syntax, buf: string)
    requires WellFormed(syn)
  {
    forall i | 0 <= i < |buf| ::
      !IsQuote(buf[i]) && buf[i] != syn.lineComment[0] && buf[i] != syn.blockStart[0]
  }

  /** Some byte in `buf[a..b]` is not whitespace. */
  predicate CodeBetween(buf: string, a: nat, b: nat)
    requires a <= b <= |buf|
  {
    exists i | a <= i < b :: !IsSpace(buf[i])
  }

  lemma CodeBetweenSnoc(buf: string, a: nat, b: nat)
    requires a <= b < |buf|
    ensures CodeBetween(buf, a, b + 1) == (CodeBetween(buf, a, b) || !IsSpace(buf[b]))
  {
  }

  /** The classification of the line `buf[a..b]` of plain text. */
  function LineKind(buf: string, a: nat, b: nat): (r: LineCounts)
    requires a <= b <= |buf|
    ensures (r.code + r.comment + r.blank) == 1 && r.comment == 0
    ensures r.code == 1 <==> CodeBetween(buf, a, b)
  {
    var code := CodeBetween(buf, a, b);
    LineCounts(if code then 1 else 0, 0, if code then 0 else 1)
  }

  /** The first line end at or after `p`. */
  function NextLineEnd(buf: string, p: nat): (e: nat)
    requires p < |buf|
    ensures p <= e < |buf| && IsLineEnd(buf, e)
    ensures forall j | p <= j < e :: !IsLineEnd(buf, j)
    decreases |buf| - p
  {
    if IsLineEnd(buf, p) then p else NextLineEnd(buf, p + 1)
  }

  /** Reference classification of plain text, one line at a time: a line is
      code when a non-whitespace byte precedes its end byte, blank otherwise.
      The end byte itself is never looked at, so a final line without a
      newline loses its last byte. */
  function PlainLines(buf: string, p: nat): LineCounts
    requires p <= |buf|
    decreases |buf| - p, 1
  {
    if p == |buf| then NoLines else PlainLinesOn(buf, p)
  }

  /** The line that starts at `p`, then the lines after it. */
  function PlainLinesOn(buf: string, p: nat): LineCounts
    requires p < |buf|
    decreases |buf| - p, 0
  {
    var e := NextLineEnd(buf, p);
    LineKind(buf, p, e).Plus(PlainLines(buf, e + 1))
  }

  /** The first line of the rest, then the lines after it. */
  lemma PlainLinesStep(buf: string, p: nat)
    requires p < |buf|
    ensures var e := NextLineEnd(buf, p);
      PlainLines(buf, p) == LineKind(buf, p, e).Plus(PlainLines(buf, e + 1))
  {
    assert PlainLines(buf, p) == PlainLinesOn(buf, p);
  }

  /** The scan from `p` is one step, then the scan from where it resumes. */
  lemma ScanOne(syn: Syntax, buf: string, p: nat, st: ScanState, acc: LineCounts)
    requires WellFormed(syn) && p < |buf| && (p == 0 ==> !st.inString)
    ensures var m := Step(syn, buf, p, st, acc);
      Scan(syn, buf, p, st, acc) == Scan(syn, buf, m.next, m.st, m.counts)
  {
  }

  /** A byte of plain text that does not end its line at most marks the
      line as code. */
  lemma PlainStep(syn: Syntax, buf: string, p: nat, code: bool, acc: LineCounts)
    requires WellFormed(syn) && PlainText(syn, buf) && p < |buf| && !IsLineEnd(buf, p)
    ensures Scan(syn, buf, p, Start.(hasCode := code), acc)
      == Scan(syn, buf, p + 1, Start.(hasCode := code || !IsSpace(buf[p])), acc)
  {
    var st := Start.(hasCode := code);
    ScanOne(syn, buf, p, st, acc);
    if !IsSpace(buf[p]) {
      assert !IsQuote(buf[p]);
      assert StringRule(buf, p, st) == st;
      assert !OccursAt(buf, p, syn.blockStart) && !OccursAt(buf, p, syn.lineComment);
    }
  }

  /** At the end of a line of plain text the scanner commits it as code or
      blank and starts afresh. */
  lemma PlainLineEnd(syn: Syntax, buf: string, ls: nat, e: nat, acc: LineCounts)
    requires WellFormed(syn) && ls <= e < |buf| && IsLineEnd(buf, e)
    ensures Scan(syn, buf, e, Start.(hasCode := CodeBetween(buf, ls, e)), acc)
      == Scan(syn, buf, e + 1, Start, acc.Plus(LineKind(buf, ls, e)))
  {
    var code := CodeBetween(buf, ls, e);
    var st := Start.(hasCode := code);
    ScanOne(syn, buf, e, st, acc);
    assert st.(inLine := false, hasCode := false) == Start;
    assert Classify(st, acc) == acc.Plus(LineKind(buf, ls, e)) by {
      if code {
        assert Classify(st, acc) == acc.(code := acc.code + 1);
      } else {
        assert Classify(st, acc) == acc.(blank := acc.blank + 1);
      }
    }
    assert Step(syn, buf, e, st, acc) == Move(e + 1, Start, acc.Plus(LineKind(buf, ls, e)));
  }

  /** Within one line of plain text the scanner only remembers whether a
      non-whitespace byte has been seen so far. */
  lemma {:induction false} ScanPlainLine(syn: Syntax, buf: string, ls: nat, p: nat, acc: LineCounts)
    requires WellFormed(syn) && PlainText(syn, buf) && ls <= p < |buf|
    requires p <= NextLineEnd(buf, ls)
    ensures var e := NextLineEnd(buf, ls);
      Scan(syn, buf, p, Start.(hasCode := CodeBetween(buf, ls, p)), acc)
        == Scan(syn, buf, e + 1, Start, acc.Plus(LineKind(buf, ls, e)))
    decreases |buf| - p
  {
    var e := NextLineEnd(buf, ls);
    if p < e {
      assert !IsLineEnd(buf, p);
      var code := CodeBetween(buf, ls, p);
      CodeBetweenSnoc(buf, ls, p);
      PlainStep(syn, buf, p, code, acc);
      ScanPlainLine(syn, buf, ls, p + 1, acc);
      assert Start.(hasCode := code || !IsSpace(buf[p])) == Start.(hasCode := CodeBetween(buf, ls, p + 1));
    } else {
      PlainLineEnd(syn, buf, ls, p, acc);
    }
  }

  /** The scan over the first line of plain text at `p` ends at the
      start of the next line with one more code or blank line. */
  lemma ScanFirstLine(syn: Syntax, buf: string, p: nat, acc: LineCounts)
    requires WellFormed(syn) && PlainText(syn, buf) && p < |buf|
    ensures var e := NextLineEnd(buf, p);
      Scan(syn, buf, p, Start, acc) == Scan(syn, buf, e + 1, Start, acc.Plus(LineKind(buf, p, e)))
  {
    assert Start.(hasCode := CodeBetween(buf, p, p)) == Start;
    ScanPlainLine(syn, buf, p, p, acc);
  }

  lemma {:induction false} ScanPlain(syn: Syntax, buf: string, p: nat, acc: LineCounts)
    requires WellFormed(syn) && PlainText(syn, buf) && p <= |buf|
    ensures Scan(syn, buf, p, Start, acc) == ScanResult(acc.Plus(PlainLines(buf, p)), Start)
    decreases |buf| - p
  {
    if p < |buf| {
      var e := NextLineEnd(buf, p);
      var line, rest := LineKind(buf, p, e), PlainLines(buf, e + 1);
      ScanFirstLine(syn, buf, p, acc);
      ScanPlain(syn, buf, e + 1, acc.Plus(line));
      PlainLinesStep(buf, p);
      PlusAssoc(acc, line, rest);
      assert Scan(syn, buf, p, Start, acc) == ScanResult(acc.Plus(line).Plus(rest), Start);
    } else {
      PlusZero(acc);
    }
  }

  /** On text free of quotes and comment tokens the byte-level scanner agrees
      with the line-by-line reference: no comments, and each line is code or
      blank according to whether it holds a non-whitespace byte. */
  lemma PlainTextByLines(syn: Syntax, buf: string)
    requires WellFormed(syn) && |buf| > 0 && PlainText(syn, buf)
    ensures CountLines(syn, buf) == PlainLines(buf, 0)
  {
    ScanPlain(syn, buf, 0, NoLines);
    CountLinesSettled(syn, buf);
    PlusZero(PlainLines(buf, 0));
  }
}
