/** The IPv4 header checksum: the one's complement of the one's complement sum of the 16-bit words
    (RFC 1071 section 1, RFC 791 section 3.1). */
module Checksum {
  import opened Wrappers

  const TWO_32: nat := 0x1_0000_0000

  // With more words than this their sum may not fit 32 bits.
  const MAX_WORDS: nat := 65537

  type word = n: int | 0 <= n < 0x1_0000

  // Big-endian, as binary.BigEndian.PutUint16 and Uint16 do it.
  function U16(n: word): seq<byte> {
    [n / 256, n % 256]
  }

  function ReadU16(s: seq<byte>, i: nat): (n: word)
    requires i + 2 <= |s|
  {
    256 * (s[i] as int) + s[i + 1] as int
  }

  /** The high byte first, as RFC 791 appendix B lays numbers down. */
  lemma HighByteFirst(n: word, before: seq<byte>, after: seq<byte>)
    ensures |U16(n)| == 2 && n == 256 * (U16(n)[0] as int) + U16(n)[1] as int
    ensures ReadU16(before + U16(n) + after, |before|) == n
  {
    var s := before + U16(n) + after;
    assert s[|before|] == U16(n)[0] && s[|before| + 1] == U16(n)[1];
  }

  // The sum of the words, as a number.
  function WordSum(h: seq<byte>): nat
    requires |h| % 2 == 0
  {
    if h == [] then 0 else WordSum(h[..|h| - 2]) + ReadU16(h, |h| - 2)
  }

  // The sum a uint32 variable holds.
  function WrappedSum(h: seq<byte>): (sum: nat)
    requires |h| % 2 == 0
    ensures sum < TWO_32
  {
    if h == [] then 0 else (WrappedSum(h[..|h| - 2]) + ReadU16(h, |h| - 2)) % TWO_32
  }

  // Adds the carries until there are none.
  function Fold(sum: nat): (s: nat) {
    if sum > 0xffff then Fold(sum % 0x1_0000 + sum / 0x1_0000) else sum
  }

  function Sum16(h: seq<byte>): word
    requires |h| % 2 == 0
  {
    FoldMeaning(WrappedSum(h));
    0xffff - Fold(WrappedSum(h))
  }

  method IPv4Checksum(header: seq<byte>) returns (checksum: word)
    requires |header| % 2 == 0
    ensures checksum == Sum16(header)
  {
    var sum := 0;
    var i := 0;
    while i < |header|
      invariant 0 <= i <= |header| && i % 2 == 0
      invariant sum == WrappedSum(header[..i])
    {
      assert header[..i + 2][..i] == header[..i];
      assert ReadU16(header[..i + 2], i) == ReadU16(header, i);
      sum := (sum + ReadU16(header, i)) % TWO_32;
      i := i + 2;
    }
    assert header[..|header|] == header;
    while sum > 0xffff
      invariant sum >= 0 && Fold(sum) == Fold(WrappedSum(header))
    {
      sum := sum % 0x1_0000 + sum / 0x1_0000;
    }
    FoldMeaning(WrappedSum(header));
    checksum := 0xffff - sum;
  }

  /** Folding keeps the value modulo 65535, and gives 0 for 0 only. */
  lemma {:induction false} FoldMeaning(sum: nat)
    ensures Fold(sum) <= 0xffff
    ensures Fold(sum) % 0xffff == sum % 0xffff
    ensures Fold(sum) == 0 <==> sum == 0
  {
    if sum > 0xffff {
      var hi, lo := sum / 0x1_0000, sum % 0x1_0000;
      FoldMeaning(lo + hi);
      SameRemainder(sum, lo + hi, hi);
    }
  }

  lemma SameRemainder(a: nat, b: nat, k: nat)
    requires a == 0xffff * k + b
    ensures a % 0xffff == b % 0xffff
  {
    assert a == 0xffff * (k + b / 0xffff) + b % 0xffff;
  }

  /** Within the bound nothing is lost to the width of the variable. */
  lemma {:induction false} NoOverflow(h: seq<byte>)
    requires |h| % 2 == 0 && |h| <= 2 * MAX_WORDS
    ensures WrappedSum(h) == WordSum(h)
    ensures 2 * WordSum(h) <= |h| * 0xffff
  {
    if h != [] {
      NoOverflow(h[..|h| - 2]);
      assert 2 * WordSum(h) <= |h| * 0xffff;
      assert WordSum(h) <= MAX_WORDS * 0xffff;
    }
  }

  /** In general it holds the low 32 bits of the sum, so the sum itself exactly when that fits. */
  lemma {:induction false} SumIsLow32(h: seq<byte>)
    requires |h| % 2 == 0
    ensures WrappedSum(h) == WordSum(h) % 0x1_0000_0000
    ensures WrappedSum(h) == WordSum(h) <==> WordSum(h) < 0x1_0000_0000
  {
    if h != [] {
      SumIsLow32(h[..|h| - 2]);
      LowBits(WordSum(h[..|h| - 2]), ReadU16(h, |h| - 2));
    }
  }

  lemma LowBits(a: nat, b: nat)
    ensures (a % TWO_32 + b) % TWO_32 == (a + b) % TWO_32
  {
    var s := a % TWO_32 + b;
    LowBitsOf(a + b, a / TWO_32 + s / TWO_32, s % TWO_32);
  }

  lemma LowBitsOf(a: nat, q: nat, r: nat)
    requires a == TWO_32 * q + r && r < TWO_32
    ensures a % TWO_32 == r
  {
  }

  /** A header verifies exactly when its words add up to a positive multiple of 65535. */
  lemma {:induction false} VerifiesIff(h: seq<byte>)
    requires |h| % 2 == 0 && |h| <= 2 * MAX_WORDS
    ensures Sum16(h) == 0 <==> WordSum(h) > 0 && WordSum(h) % 0xffff == 0
  {
    NoOverflow(h);
    FoldMeaning(WordSum(h));
  }

  function WithWord(h: seq<byte>, at: nat, n: word): (h': seq<byte>)
    requires at + 2 <= |h|
    ensures |h'| == |h|
  {
    h[..at] + U16(n) + h[at + 2..]
  }

  lemma {:induction false} SumWithWord(h: seq<byte>, at: nat, n: word)
    requires |h| % 2 == 0 && at % 2 == 0 && at + 2 <= |h|
    ensures WordSum(WithWord(h, at, n)) == WordSum(h) - ReadU16(h, at) + n
    decreases |h|
  {
    var h' := WithWord(h, at, n);
    var front := h[..|h| - 2];
    if at == |h| - 2 {
      assert h'[..|h| - 2] == front;
      assert h'[at] == n / 256 && h'[at + 1] == n % 256;
    } else {
      SumWithWord(front, at, n);
      assert h'[..|h| - 2] == WithWord(front, at, n);
      assert h'[|h| - 2] == h[|h| - 2] && h'[|h| - 1] == h[|h| - 1];
    }
  }

  /** Writing the checksum of a header into a zero word of it makes it verify. */
  lemma ChecksumVerifies(h: seq<byte>, at: nat)
    requires |h| % 2 == 0 && |h| <= 2 * MAX_WORDS
    requires at % 2 == 0 && at + 2 <= |h| && ReadU16(h, at) == 0
    ensures Sum16(WithWord(h, at, Sum16(h))) == 0
  {
    var s := WordSum(h);
    NoOverflow(h);
    FoldMeaning(s);
    var c := Sum16(h);
    SumWithWord(h, at, c);
    VerifiesIff(WithWord(h, at, c));
    Complement(s, Fold(s));
  }

  lemma Complement(s: nat, f: nat)
    requires f <= 0xffff && f % 0xffff == s % 0xffff
    ensures (s + (0xffff - f)) % 0xffff == 0
  {
    var q, r := s / 0xffff, f / 0xffff;
    assert s - f == 0xffff * (q - r);
    assert s + (0xffff - f) == 0xffff * (q - r + 1);
  }

  /** Changing one word of a header that verifies goes unnoticed only where the checksum cannot tell:
      between 0 and ffff, the two zeros of one's complement, and not when all words are then 0. */
  lemma {:induction false} DetectsOneWord(h: seq<byte>, at: nat, n: word)
    requires |h| % 2 == 0 && |h| <= 2 * MAX_WORDS && at % 2 == 0 && at + 2 <= |h|
    requires Sum16(h) == 0
    ensures var w := ReadU16(h, at);
            Sum16(WithWord(h, at, n)) == 0 <==>
            n == w || (w == 0 && n == 0xffff) || (w == 0xffff && n == 0 && WordSum(h) > 0xffff)
  {
    VerifiesIff(h);
    VerifiesIff(WithWord(h, at, n));
    SumWithWord(h, at, 0);
    SumWithWord(h, at, n);
    DetectsChange(WordSum(h), ReadU16(h, at), n);
  }

  lemma DetectsChange(sum: nat, w: word, n: word)
    requires sum > 0 && sum % 0xffff == 0 && w <= sum
    ensures sum - w + n > 0 && (sum - w + n) % 0xffff == 0 <==>
            n == w || (w == 0 && n == 0xffff) || (w == 0xffff && n == 0 && sum > 0xffff)
  {
    var q := sum / 0xffff;
    assert sum == 0xffff * q;
    var d := n - w;
    if 0 < d < 0xffff {
      RemainderOf(sum + d, q, d);
    } else if -0xffff < d < 0 {
      RemainderOf(sum + d, q - 1, 0xffff + d);
    } else if d == 0xffff {
      RemainderOf(sum + d, q + 1, 0);
    } else if d == -0xffff {
      RemainderOf(sum + d, q - 1, 0);
    }
  }

  lemma RemainderOf(a: int, q: int, r: nat)
    requires a == 0xffff * q + r && r < 0xffff
    ensures a % 0xffff == r
  {
  }
}
