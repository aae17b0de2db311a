/** The text the dump tool prints: zero-padded numerals (`%08lx`, `%02x`,
    `%05u`), the canonical hex-plus-ASCII line, and the one-byte hex and
    two-byte decimal formatters. */
module HexFormat {
  import opened Base

  // -------------------------------------------------------------- numerals

  /** A digit in base 10 or 16; `printf`'s `x` uses lower-case letters. */
  function DigitChar(d: nat): char
    requires d < 16
  {
    "0123456789abcdef"[d]
  }

  /** The value of a digit character; 0 for anything else. */
  function DigitValue(c: char): nat {
    if '0' <= c <= '9' then c as int - '0' as int
    else if 'a' <= c <= 'f' then c as int - 'a' as int + 10
    else 0
  }

  lemma DigitRoundTrip(d: nat)
    requires d < 16
    ensures DigitValue(DigitChar(d)) == d
  {
  }

  /** Bases the formats use. */
  predicate IsBase(base: nat) {
    base == 10 || base == 16
  }

  /** A character `printf` may use as a digit in `base`. */
  predicate IsDigitIn(c: char, base: nat)
    requires IsBase(base)
  {
    '0' <= c <= '9' || (base == 16 && 'a' <= c <= 'f')
  }

  /** The digits of `n` without leading zeros (a single "0" for zero). */
  function Digits(n: nat, base: nat): (s: string)
    requires IsBase(base)
    ensures |s| > 0 && forall i | 0 <= i < |s| :: IsDigitIn(s[i], base)
  {
    if n < base then [DigitChar(n)] else Digits(Quot(n, base), base) + [DigitChar(Rem(n, base))]
  }

  function Zeros(k: nat): (s: string)
    ensures |s| == k && forall i | 0 <= i < k :: s[i] == '0'
  {
    seq(k, _ => '0')
  }

  /** `%0<w>` conversion: the digits, padded on the left with zeros to at
      least `width` characters; a wider value is printed in full. */
  function Numeral(n: nat, base: nat, width: nat): (s: string)
    requires IsBase(base)
    ensures |s| == if |Digits(n, base)| < width then width else |Digits(n, base)|
    ensures forall i | 0 <= i < |s| :: IsDigitIn(s[i], base)
    ensures forall i | 0 <= i < |s| - |Digits(n, base)| :: s[i] == '0'
    ensures s[|s| - |Digits(n, base)|..] == Digits(n, base)
  {
    var d := Digits(n, base);
    var pad := if |d| < width then Zeros(width - |d|) else [];
    assert (pad + d)[|pad|..] == d;
    pad + d
  }

  /** Reading a numeral back, most significant digit first. */
  function NumeralValue(s: string, base: nat): nat
    requires IsBase(base)
  {
    if |s| == 0 then 0 else Shift(NumeralValue(s[..|s| - 1], base), base) + DigitValue(s[|s| - 1])
  }

  /** The quotient, remainder and product by a base, each with a literal
      divisor so that the arithmetic stays linear. */
  function Quot(n: nat, base: nat): nat
    requires IsBase(base)
  {
    if base == 10 then n / 10 else n / 16
  }

  function Rem(n: nat, base: nat): (r: nat)
    requires IsBase(base)
    ensures r < base
  {
    if base == 10 then n % 10 else n % 16
  }

  function Shift(v: nat, base: nat): nat
    requires IsBase(base)
  {
    if base == 10 then 10 * v else 16 * v
  }

  /** Division by either base splits a number into quotient and last digit. */
  lemma DivMod(n: nat, base: nat)
    requires IsBase(base)
    ensures Shift(Quot(n, base), base) + Rem(n, base) == n
  {
  }

  /** Reading back a numeral with one more digit. */
  lemma NumeralValueSnoc(s: string, c: char, base: nat)
    requires IsBase(base)
    ensures NumeralValue(s + [c], base) == Shift(NumeralValue(s, base), base) + DigitValue(c)
  {
    assert (s + [c])[..|s|] == s;
  }

  lemma {:induction false} DigitsValue(n: nat, base: nat)
    requires IsBase(base)
    ensures NumeralValue(Digits(n, base), base) == n
  {
    if n >= base {
      var q, r := Quot(n, base), Rem(n, base);
      DigitsValue(q, base);
      DivMod(n, base);
      assert Digits(n, base) == Digits(q, base) + [DigitChar(r)];
      NumeralValueSnoc(Digits(q, base), DigitChar(r), base);
      DigitRoundTrip(r);
    }
  }

  /** Leading zeros do not change the value. */
  lemma {:induction false} ZerosValue(k: nat, s: string, base: nat)
    requires IsBase(base)
    ensures NumeralValue(Zeros(k) + s, base) == NumeralValue(s, base)
    decreases |s|, k
  {
    if |s| == 0 {
      assert Zeros(k) + s == Zeros(k);
      if k > 0 {
        assert Zeros(k)[..k - 1] == Zeros(k - 1);
        ZerosValue(k - 1, [], base);
        assert Zeros(k - 1) + [] == Zeros(k - 1);
      }
    } else {
      var t := Zeros(k) + s;
      assert t[..|t| - 1] == Zeros(k) + s[..|s| - 1];
      ZerosValue(k, s[..|s| - 1], base);
    }
  }

  /** A printed numeral reads back as the number printed. */
  lemma NumeralRoundTrip(n: nat, base: nat, width: nat)
    requires IsBase(base)
    ensures NumeralValue(Numeral(n, base, width), base) == n
  {
    var d := Digits(n, base);
    var s := Numeral(n, base, width);
    var k := |s| - |d|;
    DigitsValue(n, base);
    assert s[..k] == Zeros(k);
    assert s == s[..k] + s[k..];
    ZerosValue(k, d, base);
  }

  /** A number below `base^k` has at most `k` digits. */
  lemma {:induction false} DigitsFit(n: nat, base: nat, k: nat)
    requires IsBase(base) && k > 0 && n < Power(base, k)
    ensures |Digits(n, base)| <= k
  {
    if n >= base {
      assert k > 1;
      DigitsFit(Quot(n, base), base, k - 1);
    }
  }

  function Power(base: nat, k: nat): nat
    requires IsBase(base)
  {
    if k == 0 then 1 else Shift(Power(base, k - 1), base)
  }

  /** So a value below `base^width` fills exactly `width` characters. */
  lemma NumeralWidth(n: nat, base: nat, width: nat)
    requires IsBase(base) && width > 0 && n < Power(base, width)
    ensures |Numeral(n, base, width)| == width
  {
    DigitsFit(n, base, width);
  }

  /** `%02x` of a byte: always two characters. */
  function Hex2(b: byte): (s: string)
    ensures |s| == 2
  {
    NumeralWidth(b, 16, 2);
    Numeral(b, 16, 2)
  }

  lemma Hex2Value(b: byte)
    ensures NumeralValue(Hex2(b), 16) == b
  {
    NumeralRoundTrip(b, 16, 2);
  }

  /** `%08lx` of an offset. */
  function Offset(n: nat): (s: string)
    ensures n < 0x1_0000_0000 ==> |s| == 8
  {
    OffsetWidth(n);
    Numeral(n, 16, 8)
  }

  lemma OffsetValue(n: nat)
    ensures NumeralValue(Offset(n), 16) == n
  {
    NumeralRoundTrip(n, 16, 8);
  }

  lemma OffsetWidth(n: nat)
    ensures n < 0x1_0000_0000 ==> |Numeral(n, 16, 8)| == 8
  {
    assert Power(16, 8) == 0x1_0000_0000;
    if n < 0x1_0000_0000 {
      NumeralWidth(n, 16, 8);
    }
  }

  // -------------------------------------------------------- canonical line

  /** The text of hex slot `i` of a line: the byte's two digits, or two
      spaces past the end of the data. */
  function SlotText(data: seq<byte>, i: nat): (s: string)
    ensures |s| == 2
  {
    if i < |data| then Hex2(data[i]) else "  "
  }

  /** Where slot `i` starts in the hex area: two characters per earlier
      slot, a space after every odd slot and one more after slot 7. */
  function SlotPos(i: nat): (p: nat)
    ensures i < 16 ==> p <= 39
  {
    2 * i + i / 2 + (if i > 7 then 1 else 0)
  }

  /** The spacing after slot `i`. */
  function SlotGap(i: nat): (g: string)
    ensures |g| <= 2
  {
    (if i % 2 == 1 then " " else "") + (if i == 7 then " " else "")
  }

  /** A slot and the spacing after it reach the next slot's position. */
  lemma GapWidth(i: nat)
    ensures 2 + |SlotGap(i)| == SlotPos(i + 1) - SlotPos(i)
  {
  }

  /** Sixteen two-character slot texts. */
  predicate SlotShaped(texts: seq<string>) {
    |texts| == 16 && forall i | 0 <= i < 16 :: |texts[i]| == 2
  }

  /** The hex area from slot `i` to the last slot. */
  function SlotsFrom(texts: seq<string>, i: nat): string
    requires i <= |texts|
    decreases |texts| - i
  {
    if i >= |texts| then [] else texts[i] + SlotGap(i) + SlotsFrom(texts, i + 1)
  }

  /** Slots `j` up to `i - 1` with their spacing. */
  function SlotSpan(texts: seq<string>, j: nat, i: nat): string
    requires j <= i <= |texts|
    decreases i - j
  {
    if j >= i then [] else texts[j] + SlotGap(j) + SlotSpan(texts, j + 1, i)
  }

  /** The hex area from slot `j` is the slots before `i` followed by the
      area from slot `i`. */
  lemma {:induction false} SlotsSplit(texts: seq<string>, j: nat, i: nat)
    requires j <= i <= |texts|
    ensures SlotsFrom(texts, j) == SlotSpan(texts, j, i) + SlotsFrom(texts, i)
    decreases i - j
  {
    if j < i {
      SlotsSplit(texts, j + 1, i);
      AppendAssoc(texts[j] + SlotGap(j), SlotSpan(texts, j + 1, i), SlotsFrom(texts, i));
    }
  }

  /** The slots from `j` to `i` take up the distance between their positions. */
  lemma {:induction false} SpanLength(texts: seq<string>, j: nat, i: nat)
    requires SlotShaped(texts) && j <= i <= 16
    ensures |SlotSpan(texts, j, i)| == SlotPos(i) - SlotPos(j)
    decreases i - j
  {
    if j < i {
      SpanLength(texts, j + 1, i);
      GapWidth(j);
    }
  }

  /** The hex area from slot `j` reaches the position after the last slot. */
  lemma {:induction false} SlotsLength(texts: seq<string>, j: nat)
    requires SlotShaped(texts) && j <= 16
    ensures |SlotsFrom(texts, j)| == SlotPos(16) - SlotPos(j)
    decreases 16 - j
  {
    if j < 16 {
      SlotsLength(texts, j + 1);
      GapWidth(j);
    }
  }

  /** The whole hex area is 41 characters wide. */
  lemma SlotsWidth(texts: seq<string>)
    requires SlotShaped(texts)
    ensures |SlotsFrom(texts, 0)| == 41
  {
    SlotsLength(texts, 0);
  }

  /** The area from slot `i` starts with the slot's text. */
  lemma SlotsHead(texts: seq<string>, i: nat)
    requires SlotShaped(texts) && i < 16
    ensures |SlotsFrom(texts, i)| >= 2 && SlotsFrom(texts, i)[0..2] == texts[i]
  {
    var head, rest := texts[i] + SlotGap(i), SlotsFrom(texts, i + 1);
    SliceLeft(head, rest, 0, 2);
    SliceLeft(texts[i], SlotGap(i), 0, 2);
    assert texts[i][0..2] == texts[i];
  }

  lemma SlotBound(i: nat)
    requires i < 16
    ensures SlotPos(i) <= 39
  {
  }

  /** The layout of a line from its parts: offset, two spaces, the hex
      area, " |", the ASCII column, "|" and a newline. */
  function LineText(offset: string, texts: seq<string>, ascii: string): string
    requires |texts| == 16
  {
    offset + "  " + SlotsFrom(texts, 0) + " |" + ascii + "|\n"
  }

  lemma LineTextLayout(offset: string, texts: seq<string>, ascii: string)
    requires |offset| == 8 && SlotShaped(texts)
    ensures var line := LineText(offset, texts, ascii);
      |line| == 55 + |ascii|
      && line[..8] == offset && line[8..10] == "  "
      && (forall i | 0 <= i < 16 :: line[10 + SlotPos(i)..12 + SlotPos(i)] == texts[i])
      && line[51..53] == " |" && line[53..|line| - 2] == ascii
      && line[|line| - 2..] == "|\n"
  {
    LineTextFrame(offset, texts, ascii);
    LineTextSlots(offset, texts, ascii);
  }

  /** The frame of a line around a hex area of 41 characters. */
  lemma Frame(offset: string, slots: string, ascii: string)
    requires |offset| == 8 && |slots| == 41
    ensures var line := offset + "  " + slots + " |" + ascii + "|\n";
      |line| == 55 + |ascii|
      && line[..8] == offset && line[8..10] == "  "
      && line[10..51] == slots
      && line[51..53] == " |" && line[53..|line| - 2] == ascii
      && line[|line| - 2..] == "|\n"
  {
    var pre, post := offset + "  ", " |" + ascii + "|\n";
    var line := offset + "  " + slots + " |" + ascii + "|\n";
    assert line == pre + slots + post;
    assert line[..10] == pre;
    assert line[51..] == post;
  }

  lemma LineTextFrame(offset: string, texts: seq<string>, ascii: string)
    requires |offset| == 8 && SlotShaped(texts)
    ensures var line := LineText(offset, texts, ascii);
      |line| == 55 + |ascii|
      && line[..8] == offset && line[8..10] == "  "
      && line[51..53] == " |" && line[53..|line| - 2] == ascii
      && line[|line| - 2..] == "|\n"
  {
    SlotsWidth(texts);
    Frame(offset, SlotsFrom(texts, 0), ascii);
  }

  /** Slot `i` in the whole hex area. */
  lemma SlotAt(texts: seq<string>, i: nat)
    requires SlotShaped(texts) && i < 16
    ensures |SlotsFrom(texts, 0)| == 41 && SlotPos(i) <= 39
    ensures SlotsFrom(texts, 0)[SlotPos(i)..SlotPos(i) + 2] == texts[i]
  {
    SlotsWidth(texts);
    SlotBound(i);
    SlotsSplit(texts, 0, i);
    SpanLength(texts, 0, i);
    SlotsHead(texts, i);
    var span, from := SlotSpan(texts, 0, i), SlotsFrom(texts, i);
    SliceRight(span, from, |span|, 2);
  }

  lemma LineTextSlots(offset: string, texts: seq<string>, ascii: string)
    requires |offset| == 8 && SlotShaped(texts)
    ensures var line := LineText(offset, texts, ascii);
      |line| == 55 + |ascii|
      && forall i | 0 <= i < 16 :: line[10 + SlotPos(i)..12 + SlotPos(i)] == texts[i]
  {
    var slots := SlotsFrom(texts, 0);
    SlotsWidth(texts);
    Frame(offset, slots, ascii);
    var line := LineText(offset, texts, ascii);
    forall i | 0 <= i < 16
      ensures line[10 + SlotPos(i)..12 + SlotPos(i)] == texts[i]
    {
      var p := SlotPos(i);
      SlotAt(texts, i);
      assert line[10 + p..12 + p] == slots[p..p + 2];
    }
  }

  /** The area from slot `i` continues, after the slot, with its spacing. */
  lemma SlotsGapHead(texts: seq<string>, i: nat)
    requires SlotShaped(texts) && i < 16
    ensures |SlotsFrom(texts, i)| >= 2 + |SlotGap(i)|
    ensures SlotsFrom(texts, i)[2..2 + |SlotGap(i)|] == SlotGap(i)
  {
    var head, rest := texts[i] + SlotGap(i), SlotsFrom(texts, i + 1);
    SliceLeft(head, rest, 2, |SlotGap(i)|);
    SliceRight(texts[i], SlotGap(i), 2, |SlotGap(i)|);
  }

  /** The spacing after slot `i` in the whole hex area. */
  lemma GapAt(texts: seq<string>, i: nat)
    requires SlotShaped(texts) && i < 16
    ensures |SlotsFrom(texts, 0)| == 41 && SlotPos(i) + 2 <= SlotPos(i + 1) <= 41
    ensures SlotsFrom(texts, 0)[SlotPos(i) + 2..SlotPos(i + 1)] == SlotGap(i)
  {
    SlotsWidth(texts);
    GapWidth(i);
    SlotsSplit(texts, 0, i);
    SpanLength(texts, 0, i);
    SlotsGapHead(texts, i);
    var span, from := SlotSpan(texts, 0, i), SlotsFrom(texts, i);
    SliceRight(span, from, |span| + 2, |SlotGap(i)|);
  }

  /** Between two slots of a line lies the spacing of the first: one space
      after every odd slot and one more after slot 7. */
  lemma LineTextGaps(offset: string, texts: seq<string>, ascii: string)
    requires |offset| == 8 && SlotShaped(texts)
    ensures var line := LineText(offset, texts, ascii);
      |line| == 55 + |ascii|
      && forall i | 0 <= i < 16 :: line[12 + SlotPos(i)..12 + SlotPos(i) + |SlotGap(i)|] == SlotGap(i)
  {
    var slots := SlotsFrom(texts, 0);
    SlotsWidth(texts);
    Frame(offset, slots, ascii);
    var line := LineText(offset, texts, ascii);
    forall i | 0 <= i < 16
      ensures line[12 + SlotPos(i)..12 + SlotPos(i) + |SlotGap(i)|] == SlotGap(i)
    {
      var p, q := SlotPos(i), SlotPos(i + 1);
      GapAt(texts, i);
      assert line[12 + p..10 + q] == slots[p + 2..q];
    }
  }

  /** The ASCII column: one character per byte, up to 16, with bytes
      `isprint` rejects shown as '.'. */
  function AsciiColumn(data: seq<byte>): (s: string)
    ensures |s| == Min(|data|, 16)
    ensures forall i | 0 <= i < |s| :: s[i] == if IsPrint(data[i]) then data[i] as char else '.'
  {
    seq(Min(|data|, 16), i requires 0 <= i < Min(|data|, 16) =>
      if IsPrint(data[i]) then data[i] as char else '.')
  }

  function SlotTexts(data: seq<byte>): (texts: seq<string>)
    ensures SlotShaped(texts)
    ensures forall i | 0 <= i < 16 :: texts[i] == SlotText(data, i)
  {
    seq(16, i requires 0 <= i < 16 => SlotText(data, i))
  }

  /** `print_hex_line`: the offset, the sixteen slots, the ASCII column.
      Whatever the number of bytes, the frame is fixed: the eight-digit
      offset first, the ASCII column between " |" and "|" at column 53, and
      a newline last. */
  function HexLine(data: seq<byte>, offset: nat): (line: string)
    ensures offset < 0x1_0000_0000 ==>
      |line| == 55 + Min(|data|, 16)
      && line[..8] == Offset(offset)
      && line[51..53] == " |" && line[53..|line| - 2] == AsciiColumn(data)
      && line[|line| - 2..] == "|\n"
  {
    if offset < 0x1_0000_0000 then
      LineTextFrame(Offset(offset), SlotTexts(data), AsciiColumn(data));
      LineText(Offset(offset), SlotTexts(data), AsciiColumn(data))
    else
      LineText(Offset(offset), SlotTexts(data), AsciiColumn(data))
  }

  /** A canonical line always has the same shape: 55 characters of frame
      and hex area, whatever the number of bytes, plus an ASCII column of
      min(len, 16) characters; the slots past the data are blank. */
  lemma HexLineLayout(data: seq<byte>, offset: nat)
    requires offset < 0x1_0000_0000
    ensures var line := HexLine(data, offset);
      |line| == 55 + Min(|data|, 16)
      && line[..8] == Offset(offset)
      && (forall i | 0 <= i < 16 :: line[10 + SlotPos(i)..12 + SlotPos(i)] == SlotText(data, i))
      && (forall i | |data| <= i < 16 :: line[10 + SlotPos(i)..12 + SlotPos(i)] == "  ")
      && line[53..|line| - 2] == AsciiColumn(data)
    ensures var line := HexLine(data, offset);
      line[8..10] == "  "
      && (forall i | 0 <= i < 16 :: line[12 + SlotPos(i)..12 + SlotPos(i) + |SlotGap(i)|] == SlotGap(i))
      && line[51..53] == " |" && line[|line| - 2..] == "|\n"
  {
    var off, texts, ascii := Offset(offset), SlotTexts(data), AsciiColumn(data);
    assert HexLine(data, offset) == LineText(off, texts, ascii);
    LineTextLayout(off, texts, ascii);
    LineTextGaps(off, texts, ascii);
  }

  /** The line determines what it shows: the offset and each of the first
      16 bytes read back from their places. */
  lemma HexLineReadBack(data: seq<byte>, offset: nat)
    requires offset < 0x1_0000_0000
    ensures var line := HexLine(data, offset);
      |line| == 55 + Min(|data|, 16)
      && NumeralValue(line[..8], 16) == offset
      && forall i | 0 <= i < 16 && i < |data| :: NumeralValue(line[10 + SlotPos(i)..12 + SlotPos(i)], 16) == data[i]
  {
    HexLineLayout(data, offset);
    OffsetValue(offset);
    forall i | 0 <= i < 16 && i < |data|
      ensures NumeralValue(SlotText(data, i), 16) == data[i]
    {
      Hex2Value(data[i]);
    }
  }

  /** Where the row of 16 starting at `i` stops. */
  function RowStop(n: nat, i: nat): nat {
    Min(i + 16, n)
  }

  /** The canonical loop over one buffer: a line for every 16 bytes from
      `i`, the last one possibly short, each at the buffer's offset plus
      its position. It prints the lines of the rows the buffer falls into,
      the offset advancing by 16 per row. */
  function CanonicalFrom(data: seq<byte>, offset: nat, i: nat): (text: string)
    ensures text == LinesOf(RowsOf(data, i), offset + i)
    decreases |data| - i
  {
    if i >= |data| then []
    else
      var end := RowStop(|data|, i);
      LinesOfRows(data, offset, i);
      HexLine(data[i..end], offset + i) + CanonicalFrom(data, offset, end)
  }

  /** The lines of the rows from `i`: the first row's line, then the lines
      of the rows after it. */
  lemma LinesOfRows(data: seq<byte>, offset: nat, i: nat)
    requires i < |data|
    ensures LinesOf(RowsOf(data, i), offset + i)
      == HexLine(data[i..RowStop(|data|, i)], offset + i)
        + LinesOf(RowsOf(data, RowStop(|data|, i)), offset + RowStop(|data|, i))
  {
    var end := RowStop(|data|, i);
    assert RowsOf(data, i)[1..] == RowsOf(data, end);
    assert end < |data| ==> offset + end == offset + i + 16;
  }

  /** The rows the canonical loop prints, from position `i`. */
  function RowsOf(data: seq<byte>, i: nat): seq<seq<byte>>
    decreases |data| - i
  {
    if i >= |data| then [] else [data[i..RowStop(|data|, i)]] + RowsOf(data, RowStop(|data|, i))
  }

  /** Lines for a list of rows, the offset advancing by 16 per row. */
  function LinesOf(rows: seq<seq<byte>>, offset: nat): string {
    if |rows| == 0 then [] else HexLine(rows[0], offset) + LinesOf(rows[1..], offset + 16)
  }

  /** The rows partition the data: put back together they give it, every
      row but the last holds 16 bytes, and the last holds 1 to 16. */
  lemma {:induction false} RowsPartition(data: seq<byte>, i: nat)
    requires i <= |data|
    ensures Concat(RowsOf(data, i)) == data[i..]
    ensures |RowsOf(data, i)| == (|data| - i + 15) / 16
    ensures forall k | 0 <= k < |RowsOf(data, i)| - 1 :: |RowsOf(data, i)[k]| == 16
    ensures forall k | 0 <= k < |RowsOf(data, i)| :: 0 < |RowsOf(data, i)[k]| <= 16
    decreases |data| - i
  {
    if i < |data| {
      var end := RowStop(|data|, i);
      RowsPartition(data, end);
      ConcatCons(data[i..end], RowsOf(data, end));
      assert data[i..end] + data[end..] == data[i..];
    } else {
      assert data[i..] == [];
    }
  }

  // ------------------------------------------------------ per-byte formats

  /** The loop shared by the one-byte hex and two-byte decimal formats, from
      position `i` and moving `step` bytes at a time: the header of
      position `i` before every 16th byte, the cell of position `i`, and a
      newline after every 16th byte and after the last cell. */
  function Loop(heads: seq<string>, cells: seq<string>, step: nat, i: nat): string
    requires |heads| == |cells| && step > 0
    decreases |cells| - i
  {
    if i >= |cells| then []
    else
      ((if i % 16 == 0 then heads[i] else []) + cells[i]
       + (if (i + step) % 16 == 0 || i + step >= |cells| then "\n" else [])
       + Loop(heads, cells, step, i + step))
  }

  /** The cells of a row from `j` up to `end`. */
  function RowCells(cells: seq<string>, step: nat, j: nat, end: nat): string
    requires end <= |cells| && step > 0
    decreases end - j
  {
    if j >= end then [] else cells[j] + RowCells(cells, step, j + step, end)
  }

  /** Reference layout: a row per 16 bytes, each its header, its cells and
      a newline. */
  function Rows(heads: seq<string>, cells: seq<string>, step: nat, i: nat): string
    requires |heads| == |cells| && step > 0
    decreases |cells| - i
  {
    if i >= |cells| then [] else RowText(heads, cells, step, i) + Rows(heads, cells, step, RowStop(|cells|, i))
  }

  /** One row of the reference layout. */
  function RowText(heads: seq<string>, cells: seq<string>, step: nat, i: nat): string
    requires |heads| == |cells| && step > 0 && i < |cells|
  {
    heads[i] + RowCells(cells, step, i, RowStop(|cells|, i)) + "\n"
  }

  predicate IsStep(step: nat) {
    step == 1 || step == 2
  }

  lemma Regroup(c: string, t: string, f: string)
    ensures c + (t + "\n" + f) == (c + t) + "\n" + f
  {
  }

  /** A step at a cell that neither starts nor ends a row. */
  lemma LoopInner(heads: seq<string>, cells: seq<string>, step: nat, j: nat)
    requires |heads| == |cells| && step > 0 && j + step < |cells|
    requires j % 16 != 0 && (j + step) % 16 != 0
    ensures Loop(heads, cells, step, j) == cells[j] + Loop(heads, cells, step, j + step)
  {
  }

  /** A step at a cell that ends a row. */
  lemma LoopLast(heads: seq<string>, cells: seq<string>, step: nat, j: nat)
    requires |heads| == |cells| && step > 0 && j < |cells|
    requires (j + step) % 16 == 0 || j + step >= |cells|
    ensures Loop(heads, cells, step, j)
      == (if j % 16 == 0 then heads[j] else []) + cells[j] + "\n" + Loop(heads, cells, step, j + step)
  {
  }

  /** Past the last cell the loop prints nothing. */
  lemma LoopDone(heads: seq<string>, cells: seq<string>, step: nat, j: nat, end: nat)
    requires |heads| == |cells| && step > 0 && end == |cells| <= j
    ensures Loop(heads, cells, step, j) == Loop(heads, cells, step, end) == []
  {
  }

  /** Where the step after a row's last cell lands. */
  lemma AfterRow(heads: seq<string>, cells: seq<string>, step: nat, i: nat, j: nat)
    requires |heads| == |cells| && IsStep(step)
    requires i % 16 == 0 && i <= j < RowStop(|cells|, i) <= j + step && (step == 1 || (j - i) % 2 == 0)
    ensures Loop(heads, cells, step, j + step) == Loop(heads, cells, step, RowStop(|cells|, i))
    ensures RowCells(cells, step, j + step, RowStop(|cells|, i)) == []
    ensures (j + step) % 16 == 0 || j + step >= |cells|
  {
    var end := RowStop(|cells|, i);
    if end < |cells| {
      assert j + step == end;
    } else {
      LoopDone(heads, cells, step, j + step, end);
      LoopDone(heads, cells, step, end, end);
    }
  }

  /** The cells from `j` are the cell at `j` followed by those after it. */
  lemma RowCellsFront(cells: seq<string>, step: nat, j: nat, end: nat)
    requires end <= |cells| && step > 0 && j < end
    ensures RowCells(cells, step, j, end) == cells[j] + RowCells(cells, step, j + step, end)
  {
  }

  /** Inside a row, from position `j` on, the loop prints the rest of the
      row's cells and its newline, then carries on at the row's end. */
  lemma {:induction false} RowTail(heads: seq<string>, cells: seq<string>, step: nat, i: nat, j: nat)
    requires |heads| == |cells| && IsStep(step)
    requires i % 16 == 0 && i < j < RowStop(|cells|, i) && (step == 1 || (j - i) % 2 == 0)
    ensures var end := RowStop(|cells|, i);
      Loop(heads, cells, step, j) == RowCells(cells, step, j, end) + "\n" + Loop(heads, cells, step, end)
    decreases |cells| - j
  {
    var end := RowStop(|cells|, i);
    var f := Loop(heads, cells, step, end);
    InRow(i, j - i);
    if j + step < end {
      InRow(i, j + step - i);
      var t := RowCells(cells, step, j + step, end);
      calc {
        Loop(heads, cells, step, j);
        { LoopInner(heads, cells, step, j); }
        cells[j] + Loop(heads, cells, step, j + step);
        { RowTail(heads, cells, step, i, j + step); }
        cells[j] + (t + "\n" + f);
        { Regroup(cells[j], t, f); }
        (cells[j] + t) + "\n" + f;
        { RowCellsFront(cells, step, j, end); }
        RowCells(cells, step, j, end) + "\n" + f;
      }
    } else {
      RowLast(heads, cells, step, i, j);
    }
  }

  /** At the last cell of a row that is not also its first, the loop prints
      the cell and the newline, then carries on at the row's end. */
  lemma RowLast(heads: seq<string>, cells: seq<string>, step: nat, i: nat, j: nat)
    requires |heads| == |cells| && IsStep(step)
    requires i % 16 == 0 && i < j < RowStop(|cells|, i) <= j + step && (step == 1 || (j - i) % 2 == 0)
    ensures var end := RowStop(|cells|, i);
      Loop(heads, cells, step, j) == RowCells(cells, step, j, end) + "\n" + Loop(heads, cells, step, end)
  {
    var end := RowStop(|cells|, i);
    var f := Loop(heads, cells, step, end);
    InRow(i, j - i);
    AfterRow(heads, cells, step, i, j);
    LoopLast(heads, cells, step, j);
    RowCellsFront(cells, step, j, end);
    assert j % 16 != 0;
    assert RowCells(cells, step, j, end) == cells[j] + [] == cells[j];
    assert Loop(heads, cells, step, j) == [] + cells[j] + "\n" + f;
    assert [] + cells[j] == cells[j];
  }

  /** At the start of a row the loop prints the row, then carries on at its end. */
  lemma RowStart(heads: seq<string>, cells: seq<string>, step: nat, i: nat)
    requires |heads| == |cells| && IsStep(step)
    requires i % 16 == 0 && i < |cells|
    ensures var end := RowStop(|cells|, i);
      Loop(heads, cells, step, i)
        == heads[i] + RowCells(cells, step, i, end) + "\n" + Loop(heads, cells, step, end)
  {
    var end := RowStop(|cells|, i);
    var f := Loop(heads, cells, step, end);
    var h := heads[i];
    if i + step < end {
      InRow(i, step);
      var t := RowCells(cells, step, i + step, end);
      calc {
        Loop(heads, cells, step, i);
        { LoopFirst(heads, cells, step, i); }
        h + cells[i] + Loop(heads, cells, step, i + step);
        { RowTail(heads, cells, step, i, i + step); }
        h + cells[i] + (t + "\n" + f);
        { Regroup4(h, cells[i], t, f); }
        h + (cells[i] + t) + "\n" + f;
        { RowCellsFront(cells, step, i, end); }
        h + RowCells(cells, step, i, end) + "\n" + f;
      }
    } else {
      calc {
        Loop(heads, cells, step, i);
        { AfterRow(heads, cells, step, i, i); LoopLast(heads, cells, step, i); }
        h + cells[i] + "\n" + f;
        { AfterRow(heads, cells, step, i, i); RowCellsFront(cells, step, i, end); assert cells[i] + [] == cells[i]; }
        h + RowCells(cells, step, i, end) + "\n" + f;
      }
    }
  }

  /** A step at the first cell of a row that does not also end it. */
  lemma LoopFirst(heads: seq<string>, cells: seq<string>, step: nat, i: nat)
    requires |heads| == |cells| && step > 0 && i + step < |cells|
    requires i % 16 == 0 && (i + step) % 16 != 0
    ensures Loop(heads, cells, step, i) == heads[i] + cells[i] + Loop(heads, cells, step, i + step)
  {
  }

  /** Positions inside a row: a row starts at a multiple of 16. */
  lemma InRow(i: nat, d: nat)
    requires i % 16 == 0 && d < 16
    ensures (i + d) % 16 == d
  {
    var q := i / 16;
    assert i == 16 * q;
  }

  lemma Regroup4(h: string, c: string, t: string, f: string)
    ensures h + c + (t + "\n" + f) == h + (c + t) + "\n" + f
  {
  }

  /** The per-byte loop prints exactly the row-by-row layout. */
  lemma {:induction false} LoopIsRows(heads: seq<string>, cells: seq<string>, step: nat, i: nat)
    requires |heads| == |cells| && IsStep(step) && i % 16 == 0
    ensures Loop(heads, cells, step, i) == Rows(heads, cells, step, i)
    decreases |cells| - i
  {
    if i < |cells| {
      var end := RowStop(|cells|, i);
      RowStart(heads, cells, step, i);
      if end < |cells| {
        LoopIsRows(heads, cells, step, end);
      }
    }
  }

  /** The offset headers of a buffer: `%08lx` and a space. */
  function Heads(n: nat, offset: nat): (h: seq<string>)
    ensures |h| == n && forall i | 0 <= i < n :: h[i] == Offset(offset + i) + " "
  {
    seq(n, i requires 0 <= i < n => Offset(offset + i) + " ")
  }

  // ------------------------------------------------------- one-byte hex

  /** " xx": one byte of the one-byte hex format. */
  function Cell(b: byte): (s: string)
    ensures |s| == 3 && s[0] == ' ' && NumeralValue(s[1..], 16) == b
  {
    Hex2Value(b);
    assert (" " + Hex2(b))[1..] == Hex2(b);
    " " + Hex2(b)
  }

  function HexCells(data: seq<byte>): (c: seq<string>)
    ensures |c| == |data| && forall i | 0 <= i < |data| :: c[i] == Cell(data[i])
  {
    seq(|data|, i requires 0 <= i < |data| => Cell(data[i]))
  }

  /** `print_one_byte_hex` over one buffer at `offset`. Every row of 16 bytes
      is printed as its offset, a space, one cell per byte and a newline. */
  function OneByteHex(data: seq<byte>, offset: nat): (text: string)
    ensures text == Rows(Heads(|data|, offset), HexCells(data), 1, 0)
  {
    LoopIsRows(Heads(|data|, offset), HexCells(data), 1, 0);
    Loop(Heads(|data|, offset), HexCells(data), 1, 0)
  }

  // --------------------------------------------------- two-byte decimal

  /** The value printed for the pair at `i`: little-endian, or the byte
      alone when it is the last. */
  function PairValue(data: seq<byte>, i: nat): (v: nat)
    requires i < |data|
    ensures v < 65536
    ensures v % 256 == data[i]
    ensures v / 256 == (if i + 1 < |data| then data[i + 1] else 0)
  {
    if i + 1 < |data| then data[i + 1] as nat * 256 + data[i] as nat else data[i] as nat
  }

  /** `%05u` of a pair: always five characters. */
  function Dec5(v: nat): (s: string)
    requires v < 65536
    ensures |s| == 5
  {
    assert Power(10, 5) == 100000;
    NumeralWidth(v, 10, 5);
    Numeral(v, 10, 5)
  }

  lemma Dec5Value(v: nat)
    requires v < 65536
    ensures NumeralValue(Dec5(v), 10) == v
  {
    NumeralRoundTrip(v, 10, 5);
  }

  /** " ddddd": the pair at `i`, which reads back as its bytes. */
  function PairCell(data: seq<byte>, i: nat): (s: string)
    requires i < |data|
    ensures |s| == 6 && s[0] == ' '
    ensures NumeralValue(s[1..], 10) % 256 == data[i]
    ensures NumeralValue(s[1..], 10) / 256 == (if i + 1 < |data| then data[i + 1] else 0)
  {
    var v := PairValue(data, i);
    Dec5Value(v);
    assert (" " + Dec5(v))[1..] == Dec5(v);
    " " + Dec5(v)
  }

  function PairCells(data: seq<byte>): (c: seq<string>)
    ensures |c| == |data| && forall i | 0 <= i < |data| :: c[i] == PairCell(data, i)
  {
    seq(|data|, i requires 0 <= i < |data| => PairCell(data, i))
  }

  /** `print_two_byte_decimal` over one buffer at `offset`. Every row of 16 bytes
      is printed as its offset, a space, one cell per pair and a newline. */
  function TwoByteDecimal(data: seq<byte>, offset: nat): (text: string)
    ensures text == Rows(Heads(|data|, offset), PairCells(data), 2, 0)
  {
    LoopIsRows(Heads(|data|, offset), PairCells(data), 2, 0);
    Loop(Heads(|data|, offset), PairCells(data), 2, 0)
  }
}
