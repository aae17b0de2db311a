/** The three checksums of the checksum tool and the streaming loop that
    feeds them chunk by chunk. */
module Checksum {
  import opened Base
  import opened Bitwise

  /** The algorithm selector. */
  const CHECKSUM_CRC32: int := 0
  const CHECKSUM_ADLER32: int := 1
  const CHECKSUM_BSD_SUM: int := 2

  // ---------------------------------------------------------------- CRC-32

  /** `uint32_t` words are the naturals below WORD. */
  const WORD: nat := 0x1_0000_0000

  type u32 = x: nat | x < 0x1_0000_0000

  lemma WordIsPow2()
    ensures Pow2(32) == WORD
  {
    assert Pow2(8) == 0x100;
    assert Pow2(16) == 0x1_0000;
    assert Pow2(24) == 0x100_0000;
  }

  /** The reflected CRC-32 polynomial of the sample code in section 8 of
      RFC 1952. */
  const CRC_POLY: u32 := 0xEDB8_8320

  /** `^` on two `uint32_t` words. */
  function Xor32(a: u32, b: u32): (r: u32)
    ensures r == Xor(a, b)
  {
    WordIsPow2();
    XorBound(a, b, 32);
    Xor(a, b)
  }

  /** One bit of polynomial division: shift right, and fold the polynomial
      in when the bit shifted out was set. */
  function CrcBitStep(c: u32): u32 {
    if c % 2 == 1 then Xor32(CRC_POLY, c / 2) else c / 2
  }

  /** `k` bit steps. */
  function CrcBits(c: u32, k: nat): u32 {
    if k == 0 then c else CrcBitStep(CrcBits(c, k - 1))
  }

  /** Table entry `n`: eight bit steps starting from `n`. */
  function CrcEntry(n: byte): u32 {
    CrcBits(n, 8)
  }

  /** The table `make_crc32_table` fills, as a function of the index. */
  function CrcTable(): (t: seq<u32>)
    ensures |t| == 256
  {
    seq(256, n requires 0 <= n < 256 => CrcEntry(n))
  }

  /** `make_crc32_table`: 256 entries, each the eight-step division of its
      index, every one a 32-bit word. */
  method MakeCrc32Table() returns (table: seq<u32>)
    ensures |table| == 256
    ensures forall n | 0 <= n < 256 :: table[n] == CrcBits(n, 8)
    ensures table == CrcTable()
  {
    table := [];
    var n := 0;
    while n < 256
      invariant 0 <= n <= 256 && |table| == n
      invariant forall i | 0 <= i < n :: table[i] == CrcBits(i, 8)
    {
      var c: u32 := n;
      var k := 0;
      while k < 8
        invariant 0 <= k <= 8
        invariant c == CrcBits(n, k)
      {
        if c % 2 == 1 {
          c := Xor32(CRC_POLY, c / 2);
        } else {
          c := c / 2;
        }
        k := k + 1;
      }
      table := table + [c];
      n := n + 1;
    }
  }

  /** One table-driven step of `update_crc32`: the entry at the low byte of
      `crc ^ b`, xored with `crc >> 8`. */
  function CrcByte(c: u32, b: byte): u32 {
    Xor32(CrcTable()[Xor32(c, b) % 256], c / 256)
  }

  /** `update_crc32`: the table-driven step over every byte. It computes
      the same register as the bit-at-a-time reflected division by the
      polynomial 0xEDB88320, one table entry standing for eight bit steps. */
  function UpdateCrc(c: u32, buf: seq<byte>): (r: u32)
    ensures |buf| == 0 ==> r == c
    ensures r == UpdateCrcBitwise(c, buf)
  {
    if |buf| == 0 then c
    else
      var prior := UpdateCrc(c, buf[..|buf| - 1]);
      TableDrivenIsBitwise(prior, buf[|buf| - 1]);
      CrcByte(prior, buf[|buf| - 1])
  }

  /** One more byte is one more table step. */
  lemma UpdateCrcSnoc(c: u32, buf: seq<byte>, x: byte)
    ensures UpdateCrc(c, buf + [x]) == CrcByte(UpdateCrc(c, buf), x)
  {
    assert (buf + [x])[..|buf|] == buf;
  }

  /** Updating with `a` and then `b` is updating with `a + b`. */
  lemma {:induction false} UpdateCrcAppend(c: u32, a: seq<byte>, b: seq<byte>)
    ensures UpdateCrc(UpdateCrc(c, a), b) == UpdateCrc(c, a + b)
    decreases |b|
  {
    if |b| == 0 {
      assert a + b == a;
    } else {
      var n := |b| - 1;
      var front, x := b[..n], b[n];
      assert b == front + [x];
      assert a + b == (a + front) + [x];
      UpdateCrcSnoc(UpdateCrc(c, a), front, x);
      UpdateCrcSnoc(c, a + front, x);
      UpdateCrcAppend(c, a, front);
    }
  }

  /** `crc32_checksum`: pre- and post-conditioned with all ones. */
  function Crc32(buf: seq<byte>): (r: u32)
    ensures |buf| == 0 ==> r == 0
  {
    XorSelf(0xFFFF_FFFF);
    Xor32(UpdateCrc(0xFFFF_FFFF, buf), 0xFFFF_FFFF)
  }

  /** The bit step is linear over GF(2). */
  lemma StepLinear(u: u32, v: u32)
    ensures CrcBitStep(Xor32(u, v)) == Xor32(CrcBitStep(u), CrcBitStep(v))
  {
    XorHalf(u, v);
    var p, x, y := CRC_POLY, u / 2, v / 2;
    if u % 2 == 1 && v % 2 == 1 {
      XorAssoc(p, x, Xor(p, y));
      XorAssoc(x, p, y);
      XorComm(x, p);
      XorAssoc(p, p, Xor(x, y));
      XorAssoc(p, x, y);
      XorSelf(p);
      XorZero(Xor(x, y));
    } else if u % 2 == 1 {
      XorAssoc(p, x, y);
    } else if v % 2 == 1 {
      XorAssoc(x, p, y);
      XorComm(x, p);
      XorAssoc(p, x, y);
    }
  }

  lemma {:induction false} CrcBitsLinear(x: u32, y: u32, k: nat)
    ensures CrcBits(Xor32(x, y), k) == Xor32(CrcBits(x, k), CrcBits(y, k))
  {
    if k > 0 {
      CrcBitsLinear(x, y, k - 1);
      StepLinear(CrcBits(x, k - 1), CrcBits(y, k - 1));
    }
  }

  /** Eight steps on a multiple of 256 only shift it right by eight bits. */
  lemma CrcBitsOfClear(h: nat)
    requires h < 0x100_0000
    ensures CrcBits(256 * h, 8) == h
  {
    assert CrcBits(256 * h, 1) == 128 * h;
    assert CrcBits(256 * h, 2) == 64 * h;
    assert CrcBits(256 * h, 3) == 32 * h;
    assert CrcBits(256 * h, 4) == 16 * h;
    assert CrcBits(256 * h, 5) == 8 * h;
    assert CrcBits(256 * h, 6) == 4 * h;
    assert CrcBits(256 * h, 7) == 2 * h;
  }

  /** Xor with a byte leaves the bits above the low eight alone. */
  lemma XorByteHigh(c: u32, b: byte)
    ensures Xor(c, b) / 256 == c / 256
  {
    var lo, hi := c % 256, c / 256;
    var top := 256 * hi;
    assert Pow2(8) == 256;
    assert c == lo + top;
    XorDisjoint(lo, hi, 8);
    var x := Xor(lo, b);
    XorBound(lo, b, 8);
    XorDisjoint(x, hi, 8);
    calc {
      Xor(c, b);
      Xor(Xor(lo, top), b);
      { XorAssoc(lo, top, b); }
      Xor(lo, Xor(top, b));
      { XorComm(top, b); }
      Xor(lo, Xor(b, top));
      { XorAssoc(lo, b, top); }
      Xor(x, top);
      x + top;
    }
    assert (x + top) / 256 == hi;
  }

  /** Reference: bytewise CRC without a table, eight bit steps per byte. */
  function CrcByteBitwise(c: u32, b: byte): u32 {
    CrcBits(Xor32(c, b), 8)
  }

  /** The table-driven step is the bitwise one. */
  lemma TableDrivenIsBitwise(c: u32, b: byte)
    ensures CrcByte(c, b) == CrcByteBitwise(c, b)
  {
    var v := Xor32(c, b);
    var lo, hi := v % 256, v / 256;
    assert Pow2(8) == 256;
    XorDisjoint(lo, hi, 8);
    assert v == Xor32(lo, 256 * hi);
    CrcBitsLinear(lo, 256 * hi, 8);
    CrcBitsOfClear(hi);
    XorByteHigh(c, b);
  }

  /** Reference CRC over a buffer, bit by bit. */
  function UpdateCrcBitwise(c: u32, buf: seq<byte>): u32 {
    if |buf| == 0 then c else CrcByteBitwise(UpdateCrcBitwise(c, buf[..|buf| - 1]), buf[|buf| - 1])
  }

  // -------------------------------------------------------------- Adler-32

  /** The largest prime below 2^16, from section 2.2 of RFC 1950. */
  const ADLER_MOD: nat := 65521

  datatype Adler = Adler(a: nat, b: nat)

  const AdlerStart := Adler(1, 0)

  function AdlerStep(s: Adler, x: byte): Adler {
    var a := (s.a + x) % ADLER_MOD;
    Adler(a, (s.b + a) % ADLER_MOD)
  }

  /** The running pair over a buffer. */
  function AdlerUpdate(s: Adler, buf: seq<byte>): (r: Adler)
    ensures |buf| > 0 ==> r.a < ADLER_MOD && r.b < ADLER_MOD
  {
    if |buf| == 0 then s else AdlerStep(AdlerUpdate(s, buf[..|buf| - 1]), buf[|buf| - 1])
  }

  lemma {:induction false} AdlerUpdateAppend(s: Adler, a: seq<byte>, b: seq<byte>)
    ensures AdlerUpdate(AdlerUpdate(s, a), b) == AdlerUpdate(s, a + b)
    decreases |b|
  {
    if |b| == 0 {
      assert a + b == a;
    } else {
      var n := |b| - 1;
      AdlerUpdateAppend(s, a, b[..n]);
      assert (a + b)[..|a| + n] == a + b[..n];
    }
  }

  /** Packing the pair: `(b << 16) | a`, which is `b * 65536 + a` since
      `a` is below 2^16. */
  function AdlerPack(s: Adler): nat {
    s.b * 65536 + s.a
  }

  /** `adler32_checksum`. */
  function Adler32(buf: seq<byte>): (r: nat)
    ensures r < 0x1_0000_0000
    ensures |buf| == 0 ==> r == 1
    ensures r % 65536 < ADLER_MOD && r / 65536 < ADLER_MOD
  {
    AdlerPack(AdlerUpdate(AdlerStart, buf))
  }

  /** Sum of the bytes. */
  function SumBytes(buf: seq<byte>): nat {
    if |buf| == 0 then 0 else SumBytes(buf[..|buf| - 1]) + buf[|buf| - 1]
  }

  /** Sum over the prefixes of `1 + their byte sum`: section 2.2 of RFC 1950
      defines B as the sum of the successive values of A. */
  function SumOfA(buf: seq<byte>): nat {
    if |buf| == 0 then 0 else SumOfA(buf[..|buf| - 1]) + 1 + SumBytes(buf)
  }

  lemma ModAdd(x: int, y: int)
    ensures (x % ADLER_MOD + y) % ADLER_MOD == (x + y) % ADLER_MOD
  {
  }

  /** One step keeps the pair equal to the reduced sums. */
  lemma AdlerStepSums(s: Adler, x: byte, sum: nat, sumA: nat)
    requires s.a == (1 + sum) % ADLER_MOD && s.b == sumA % ADLER_MOD
    ensures AdlerStep(s, x) == Adler((1 + sum + x) % ADLER_MOD, (sumA + 1 + sum + x) % ADLER_MOD)
  {
    var a := (1 + sum + x) % ADLER_MOD;
    ModAdd(1 + sum, x);
    assert AdlerStep(s, x).a == a;
    ModAdd(sumA, a);
    ModAdd(1 + sum + x, sumA);
  }

  /** The running pair is the RFC's A and B reduced once at the end. */
  lemma {:induction false} AdlerMatchesDefinition(buf: seq<byte>)
    ensures AdlerUpdate(AdlerStart, buf) ==
      if |buf| == 0 then AdlerStart
      else Adler((1 + SumBytes(buf)) % ADLER_MOD, SumOfA(buf) % ADLER_MOD)
  {
    if |buf| > 0 {
      var n := |buf| - 1;
      var pre, x := buf[..n], buf[n];
      AdlerMatchesDefinition(pre);
      var s := AdlerUpdate(AdlerStart, pre);
      assert s.a == (1 + SumBytes(pre)) % ADLER_MOD && s.b == SumOfA(pre) % ADLER_MOD;
      AdlerStepSums(s, x, SumBytes(pre), SumOfA(pre));
      assert SumBytes(buf) == SumBytes(pre) + x;
      assert SumOfA(buf) == SumOfA(pre) + 1 + SumBytes(buf);
    }
  }

  // --------------------------------------------------------------- BSD sum

  /** Rotating a 16-bit word right by one: `(c >> 1) + ((c & 1) << 15)`. */
  function Rotate16(c: nat): nat {
    c / 2 + (c % 2) * 32768
  }

  /** Rotating left by one, the inverse. */
  function RotateLeft16(c: nat): nat {
    (c * 2) % 65536 + c / 32768
  }

  /** The rotation loses nothing: rotating back left undoes it, and the
      other way round, so it permutes the 16-bit words. */
  lemma RotateInverse(c: nat)
    requires c < 65536
    ensures Rotate16(c) < 65536
    ensures RotateLeft16(Rotate16(c)) == c && Rotate16(RotateLeft16(c)) == c
  {
    RotateLeftUndoes(c);
    RotateRightUndoes(c);
  }

  lemma RotateLeftUndoes(c: nat)
    requires c < 65536
    ensures Rotate16(c) < 65536 && RotateLeft16(Rotate16(c)) == c
  {
    var h, l := c / 2, c % 2;
    assert Rotate16(c) == h + 32768 * l;
    assert (h + 32768 * l) * 2 == 2 * h + 65536 * l;
  }

  lemma RotateRightUndoes(c: nat)
    requires c < 65536
    ensures Rotate16(RotateLeft16(c)) == c
  {
    var hh, ll := c / 32768, c % 32768;
    assert c * 2 == 65536 * hh + 2 * ll;
    assert RotateLeft16(c) == 2 * ll + hh;
    assert (2 * ll + hh) / 2 == ll && (2 * ll + hh) % 2 == hh;
  }

  /** One step: rotate the sum, add the byte, keep 16 bits. */
  function BsdStep(c: nat, x: byte): nat {
    (Rotate16(c) + x) % 65536
  }

  function BsdUpdate(c: nat, buf: seq<byte>): (r: nat)
    ensures |buf| > 0 ==> r < 65536
    ensures |buf| == 0 ==> r == c
  {
    if |buf| == 0 then c else BsdStep(BsdUpdate(c, buf[..|buf| - 1]), buf[|buf| - 1])
  }

  lemma {:induction false} BsdUpdateAppend(c: nat, a: seq<byte>, b: seq<byte>)
    ensures BsdUpdate(BsdUpdate(c, a), b) == BsdUpdate(c, a + b)
    decreases |b|
  {
    if |b| == 0 {
      assert a + b == a;
    } else {
      var n := |b| - 1;
      BsdUpdateAppend(c, a, b[..n]);
      assert (a + b)[..|a| + n] == a + b[..n];
    }
  }

  /** `bsd_sum_checksum`: always a 16-bit value. */
  function BsdSum(buf: seq<byte>): (r: nat)
    ensures r < 65536
    ensures |buf| == 0 ==> r == 0
  {
    BsdUpdate(0, buf)
  }

  /** Appending one byte to the input: the new sum is the rotated old sum
      plus the byte, modulo 2^16. */
  lemma BsdSumSnoc(buf: seq<byte>, x: byte)
    ensures BsdSum(buf + [x]) == (Rotate16(BsdSum(buf)) + x) % 65536
  {
    assert (buf + [x])[..|buf|] == buf;
  }

  /** Adding a byte modulo 2^16 is undone by subtracting it. */
  lemma AddByteUndone(w: nat, x: byte)
    requires w < 65536
    ensures ((w + x) % 65536 - x) % 65536 == w
  {
    if w + x >= 65536 {
      assert (w + x) % 65536 == w + x - 65536;
      assert (w - 65536) % 65536 == w;
    }
  }

  /** One step can be undone: the sum after a byte and the byte give back
      the sum before it. */
  lemma BsdStepRecover(before: nat, x: byte)
    requires before < 65536
    ensures before == RotateLeft16((BsdStep(before, x) - x) % 65536)
  {
    var w := Rotate16(before);
    RotateLeftUndoes(before);
    AddByteUndone(w, x);
  }

  lemma BsdSumRecover(buf: seq<byte>, x: byte)
    ensures BsdSum(buf) == RotateLeft16((BsdSum(buf + [x]) - x) % 65536)
  {
    BsdSumSnoc(buf, x);
    BsdStepRecover(BsdSum(buf), x);
  }

  // -------------------------------------------------------------- dispatch

  /** `calculate_checksum`: 0 for an unknown selector. */
  function CalculateChecksum(buf: seq<byte>, t: int): (r: nat)
    ensures r < WORD
    ensures t == CHECKSUM_CRC32 ==> r == Crc32(buf)
    ensures t == CHECKSUM_ADLER32 ==> r == Adler32(buf)
    ensures t == CHECKSUM_BSD_SUM ==> r == BsdSum(buf)
    ensures t !in {CHECKSUM_CRC32, CHECKSUM_ADLER32, CHECKSUM_BSD_SUM} ==> r == 0
  {
    if t == CHECKSUM_CRC32 then Crc32(buf)
    else if t == CHECKSUM_ADLER32 then Adler32(buf)
    else if t == CHECKSUM_BSD_SUM then BsdSum(buf)
    else 0
  }

  /** `get_checksum_name`. */
  function GetChecksumName(t: int): (s: string)
    ensures s == "UNKNOWN" <==> t !in {CHECKSUM_CRC32, CHECKSUM_ADLER32, CHECKSUM_BSD_SUM}
  {
    if t == CHECKSUM_CRC32 then "CRC32"
    else if t == CHECKSUM_ADLER32 then "ADLER32"
    else if t == CHECKSUM_BSD_SUM then "BSD"
    else "UNKNOWN"
  }

  /** Distinct algorithms have distinct names. */
  lemma ChecksumNameInjective(s: int, t: int)
    requires GetChecksumName(s) == GetChecksumName(t) && GetChecksumName(s) != "UNKNOWN"
    ensures s == t
  {
  }

  /** The accumulators `checksum_file` keeps across reads. */
  datatype Running = Running(crc: u32, adler: Adler, bsd: nat)

  const RunningStart := Running(0xFFFF_FFFF, AdlerStart, 0)

  /** Folding one chunk into the accumulator of the selected algorithm. */
  function Absorb(r: Running, chunk: seq<byte>, t: int): Running {
    if t == CHECKSUM_CRC32 then r.(crc := UpdateCrc(r.crc, chunk))
    else if t == CHECKSUM_ADLER32 then r.(adler := AdlerUpdate(r.adler, chunk))
    else if t == CHECKSUM_BSD_SUM then r.(bsd := BsdUpdate(r.bsd, chunk))
    else r
  }

  /** The value `checksum_file` prints once the reads are done; it stays 0
      for an unknown selector. */
  function Finish(r: Running, t: int): nat {
    if t == CHECKSUM_CRC32 then Xor32(r.crc, 0xFFFF_FFFF)
    else if t == CHECKSUM_ADLER32 then AdlerPack(r.adler)
    else if t == CHECKSUM_BSD_SUM then r.bsd
    else 0
  }

  /** The accumulator of the selected algorithm is the one for `data`. */
  predicate Absorbed(r: Running, data: seq<byte>, t: int) {
    (t == CHECKSUM_CRC32 ==> r.crc == UpdateCrc(0xFFFF_FFFF, data))
    && (t == CHECKSUM_ADLER32 ==> r.adler == AdlerUpdate(AdlerStart, data))
    && (t == CHECKSUM_BSD_SUM ==> r.bsd == BsdUpdate(0, data))
  }

  /** Absorbing a chunk extends the data accounted for by that chunk. */
  lemma AbsorbStep(r: Running, data: seq<byte>, chunk: seq<byte>, t: int)
    requires Absorbed(r, data, t)
    ensures Absorbed(Absorb(r, chunk, t), data + chunk, t)
  {
    UpdateCrcAppend(0xFFFF_FFFF, data, chunk);
    AdlerUpdateAppend(AdlerStart, data, chunk);
    BsdUpdateAppend(0, data, chunk);
  }

  /** Finishing an accumulator for `data` gives the one-shot checksum. */
  lemma FinishIsOneShot(r: Running, data: seq<byte>, t: int)
    requires Absorbed(r, data, t)
    ensures Finish(r, t) == CalculateChecksum(data, t)
  {
    if t == CHECKSUM_CRC32 && |data| == 0 {
      XorSelf(0xFFFF_FFFF);
    }
  }

  /** The read loop of `checksum_file`: whatever the chunking, the value is
      the one-shot checksum of the whole input. */
  method ChecksumStream(chunks: seq<seq<byte>>, t: int) returns (value: nat)
    ensures value == CalculateChecksum(Concat(chunks), t)
  {
    var r := RunningStart;
    var i := 0;
    while i < |chunks|
      invariant 0 <= i <= |chunks|
      invariant Absorbed(r, Concat(chunks[..i]), t)
    {
      AbsorbStep(r, Concat(chunks[..i]), chunks[i], t);
      assert chunks[..i + 1] == chunks[..i] + [chunks[i]];
      ConcatSnoc(chunks[..i], chunks[i]);
      r := Absorb(r, chunks[i], t);
      i := i + 1;
    }
    assert chunks[..|chunks|] == chunks;
    FinishIsOneShot(r, Concat(chunks), t);
    value := Finish(r, t);
  }

  /** An input that opened: the chunks `fread` returns, and whether the
      stream's error flag is set when the reads stop. */
  datatype Stream = Stream(chunks: seq<seq<byte>>, readError: bool)

  /** What `checksum_file` returns and the value it prints, if any. */
  datatype FileResult = FileResult(status: int, printed: Option<nat>)

  /** `checksum_file`: status 1 and nothing printed when the open fails or
      the stream ends in error; otherwise status 0 and the checksum of the
      whole content. */
  method ChecksumFile(file: Option<Stream>, t: int) returns (res: FileResult)
    ensures res.status == 0 <==> file.Some? && !file.value.readError
    ensures res.status != 0 ==> res == FileResult(1, None)
    ensures res.status == 0 ==> res.printed == Some(CalculateChecksum(Concat(file.value.chunks), t))
  {
    if file.None? {
      return FileResult(1, None);
    }
    var value := ChecksumStream(file.value.chunks, t);
    if file.value.readError {
      return FileResult(1, None);
    }
    return FileResult(0, Some(value));
  }
}
