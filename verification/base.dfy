/** Shared vocabulary of the five tools: optional values, bytes, the C-locale
    character classes the tools rely on, and small facts about sequences. */
module Base {

  /** A value that may be missing (a NULL pointer, a failed open). */
  datatype Option<T> = None | Some(value: T)

  /** An `unsigned char`. */
  type byte = x: int | 0 <= x < 256

  /** `isspace` in the C locale: '\t', '\n', '\v', '\f', '\r' and ' '. */
  predicate IsSpace(c: char) {
    c == ' ' || '\t' <= c <= '\r'
  }

  /** `isprint` in the C locale, applied to a byte: 0x20 through 0x7E. */
  predicate IsPrint(b: byte) {
    0x20 <= b <= 0x7E
  }

  /** Number of occurrences of `c` in `s`. */
  function Occurrences(s: seq<char>, c: char): nat {
    if |s| == 0 then 0
    else (if s[0] == c then 1 else 0) + Occurrences(s[1..], c)
  }

  /** Number of '\n' bytes in `s`. */
  function Newlines(s: seq<char>): nat {
    Occurrences(s, '\n')
  }

  lemma {:induction false} OccurrencesAppend(a: seq<char>, b: seq<char>, c: char)
    ensures Occurrences(a + b, c) == Occurrences(a, c) + Occurrences(b, c)
  {
    if |a| == 0 {
      assert a + b == b;
    } else {
      assert (a + b)[1..] == a[1..] + b;
      OccurrencesAppend(a[1..], b, c);
    }
  }

  lemma {:induction false} OccurrencesAbsent(s: seq<char>, c: char)
    requires forall i | 0 <= i < |s| :: s[i] != c
    ensures Occurrences(s, c) == 0
  {
    if |s| > 0 {
      OccurrencesAbsent(s[1..], c);
    }
  }

  /** The C string a buffer denotes: everything before its first NUL. */
  function CString(s: seq<char>): (r: seq<char>)
    ensures |r| <= |s| && r == s[..|r|]
    ensures forall i | 0 <= i < |r| :: r[i] != '\0'
    ensures |r| < |s| ==> s[|r|] == '\0'
  {
    if |s| == 0 || s[0] == '\0' then [] else [s[0]] + CString(s[1..])
  }

  /** A buffer without NUL bytes is its own C string. */
  lemma CStringNoNul(s: seq<char>)
    requires forall i | 0 <= i < |s| :: s[i] != '\0'
    ensures CString(s) == s
  {
  }

  /** Whether `w` sits in `s` at position `p` (the `memcmp` test). */
  predicate OccursAt(s: seq<char>, p: nat, w: seq<char>) {
    p + |w| <= |s| && s[p..p + |w|] == w
  }

  /** Whether `w` occurs as a contiguous run inside `s` (`strstr(s, w) != NULL`). */
  predicate Contains(s: seq<char>, w: seq<char>) {
    exists j | 0 <= j <= |s| :: OccursAt(s, j, w)
  }

  /** The concatenation of a sequence of chunks, as successive reads deliver them. */
  function Concat<T>(chunks: seq<seq<T>>): seq<T> {
    if |chunks| == 0 then [] else Concat(chunks[..|chunks| - 1]) + chunks[|chunks| - 1]
  }

  lemma ConcatSnoc<T>(chunks: seq<seq<T>>, c: seq<T>)
    ensures Concat(chunks + [c]) == Concat(chunks) + c
  {
    assert (chunks + [c])[..|chunks|] == chunks;
  }

  lemma {:induction false} ConcatCons<T>(c: seq<T>, chunks: seq<seq<T>>)
    ensures Concat([c] + chunks) == c + Concat(chunks)
    decreases |chunks|
  {
    if |chunks| > 0 {
      var n := |chunks| - 1;
      ConcatCons(c, chunks[..n]);
      assert ([c] + chunks)[..n + 1] == [c] + chunks[..n];
      AppendAssoc(c, Concat(chunks[..n]), chunks[n]);
    }
  }

  lemma AppendAssoc<T>(a: seq<T>, b: seq<T>, c: seq<T>)
    ensures a + b + c == a + (b + c)
  {
  }

  /** Reducing a number already below the modulus changes nothing. */
  lemma ModSmall(x: nat, m: nat)
    requires x < m
    ensures x % m == x
  {
  }

  /** A slice inside the second part of a concatenation. */
  lemma SliceRight<T>(a: seq<T>, b: seq<T>, p: nat, n: nat)
    requires |a| <= p && p + n <= |a| + |b|
    ensures (a + b)[p..p + n] == b[p - |a|..p - |a| + n]
  {
  }

  /** A slice inside the first part of a concatenation. */
  lemma SliceLeft<T>(a: seq<T>, b: seq<T>, p: nat, n: nat)
    requires p + n <= |a|
    ensures (a + b)[p..p + n] == a[p..p + n]
  {
  }

  function Min(a: int, b: int): int {
    if a <= b then a else b
  }
}
