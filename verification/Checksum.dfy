/** The checksum that the link, the network and the transport layer share, and what it detects. */
module Checksum {
  import opened Bytes

  // The largest one's-complement word, and the modulus of its arithmetic.
  const ONES: nat := 0xFFFF

  // The longest data whose words cannot overflow 32 bits.
  const MAX_SUMMED: nat := 131074

  function Word(low: nat, high: nat): nat {
    low + 256 * high
  }

  /** The sum of the 16-bit words, low byte first; an odd byte at the end counts as a word. */
  function WordSum(data: seq<byte>): nat {
    if data == [] then 0
    else if |data| == 1 then data[0]
    else Word(data[0], data[1]) + WordSum(data[2..])
  }

  /** Adding the carries back in until none is left. */
  function Folded(sum: nat): nat {
    if sum < WORD_16 then sum else Folded(sum % WORD_16 + sum / WORD_16)
  }

  lemma {:induction false} FoldedBound(sum: nat)
    ensures Folded(sum) < WORD_16
    decreases sum
  {
    if sum >= WORD_16 {
      FoldedBound(sum % WORD_16 + sum / WORD_16);
    }
  }

  function ChecksumOf(data: seq<byte>): (r: nat)
    ensures r <= ONES
  {
    FoldedBound(WordSum(data) % WORD_32);
    ONES - Folded(WordSum(data) % WORD_32)
  }

  /** The code, with its 32-bit sum. */
  method Compute(data: seq<byte>) returns (r: nat)
    ensures r == ChecksumOf(data)
  {
    var sum, size, at := 0, |data|, 0;
    assert data[0..] == data;
    ghost var wraps := 0;
    while size > 1
      invariant 0 <= size <= |data| && at == |data| - size
      invariant 0 <= sum < WORD_32
      invariant sum + WORD_32 * wraps + WordSum(data[at..]) == WordSum(data)
    {
      assert data[at..][2..] == data[at + 2..];
      var next := sum + Word(data[at], data[at + 1]);
      sum, wraps := next % WORD_32, wraps + next / WORD_32;
      at, size := at + 2, size - 2;
    }
    if size > 0 {
      var next := sum + data[at];
      sum, wraps := next % WORD_32, wraps + next / WORD_32;
    }
    ghost var total := sum;
    RestOfWraps(WordSum(data), sum, wraps);
    while sum / WORD_16 != 0
      invariant 0 <= sum < WORD_32 && Folded(sum) == Folded(total)
      decreases sum
    {
      sum := sum % WORD_16 + sum / WORD_16;
    }
    r := ONES - sum;
  }

  // ---- Arithmetic ----

  lemma RestOfWraps(total: nat, sum: nat, wraps: int)
    requires sum < WORD_32 && total == sum + WORD_32 * wraps
    ensures total % WORD_32 == sum
  {
  }

  /** Folding keeps the value modulo 65535 and zero apart from its multiples. */
  lemma {:induction false} FoldedExactly(sum: nat)
    ensures Folded(sum) == if sum == 0 then 0 else (sum - 1) % ONES + 1
    decreases sum
  {
    if sum >= WORD_16 {
      var high, low := sum / WORD_16, sum % WORD_16;
      FoldedExactly(low + high);
      SameResidue(low + high - 1, high);
      assert sum - 1 == low + high - 1 + ONES * high;
    }
  }

  lemma SameResidue(n: nat, k: nat)
    ensures (n + ONES * k) % ONES == n % ONES
  {
    assert (n + ONES * k) / ONES == n / ONES + k by {
      assert n + ONES * k == ONES * (n / ONES + k) + n % ONES;
    }
  }

  lemma {:induction false} SumBound(data: seq<byte>)
    ensures WordSum(data) <= ONES * ((|data| + 1) / 2)
    decreases |data|
  {
    if |data| > 1 {
      SumBound(data[2..]);
    }
  }

  /** Up to 131074 bytes the 32-bit sum does not wrap. */
  lemma {:induction false} NoOverflow(data: seq<byte>)
    requires |data| <= MAX_SUMMED
    ensures WordSum(data) < WORD_32
  {
    SumBound(data);
  }

  /** One byte more can make it wrap. */
  lemma {:induction false} LongerMayOverflow(data: seq<byte>)
    requires forall i | 0 <= i < |data| :: data[i] == 255
    ensures WordSum(data) == ONES * (|data| / 2) + 255 * (|data| % 2)
    ensures WordSum(data) < WORD_32 <==> |data| <= MAX_SUMMED
    decreases |data|
  {
    if |data| > 1 {
      LongerMayOverflow(data[2..]);
    }
  }

  // ---- The one's-complement sum ----

  /** Addition with the carry added back in at the other end: section 1 of RFC 1071. */
  function EndAround(a: nat, b: nat): nat {
    if a + b < WORD_16 then a + b else a + b - ONES
  }

  function OnesSum(data: seq<byte>): nat {
    if data == [] then 0
    else if |data| == 1 then data[0]
    else EndAround(Word(data[0], data[1]), OnesSum(data[2..]))
  }

  lemma {:induction false} EndAroundFolds(a: nat, sum: nat)
    requires a < WORD_16
    ensures EndAround(a, Folded(sum)) == Folded(a + sum)
  {
    FoldedExactly(sum);
    FoldedExactly(a + sum);
    if sum > 0 {
      var f := Folded(sum);
      ResidueOfSum(a, sum - 1);
      assert f - 1 == (sum - 1) % ONES;
    }
  }

  lemma ResidueOfSum(a: nat, n: nat)
    requires a < WORD_16
    ensures var r := a + n % ONES;
            (a + n) % ONES == if r < ONES then r else if r < 2 * ONES then r - ONES else 0
  {
    SameResidue(a + n % ONES, n / ONES);
    assert a + n == a + n % ONES + ONES * (n / ONES);
  }

  lemma {:induction false} OnesSumExactly(data: seq<byte>)
    ensures OnesSum(data) == Folded(WordSum(data)) < WORD_16
    decreases |data|
  {
    FoldedExactly(WordSum(data));
    if |data| > 1 {
      OnesSumExactly(data[2..]);
      EndAroundFolds(Word(data[0], data[1]), WordSum(data[2..]));
    }
  }

  /** The result is the complement of the one's-complement sum, for all data that do not overflow
      and for no others, but those whose overflows number a multiple of 65535. */
  lemma {:induction false} ComplementExactly(data: seq<byte>)
    ensures ChecksumOf(data) == ONES - OnesSum(data)
            <==> WordSum(data) < WORD_32
                 || (WordSum(data) / WORD_32 % ONES == 0 && WordSum(data) % WORD_32 != 0)
    ensures |data| <= MAX_SUMMED ==> ChecksumOf(data) == ONES - OnesSum(data)
  {
    OnesSumExactly(data);
    var sum := WordSum(data);
    WrapFoldsExactly(sum / WORD_32, sum % WORD_32);
    if |data| <= MAX_SUMMED {
      ShortChecksum(data);
    }
  }

  lemma {:induction false} ShortChecksum(data: seq<byte>)
    requires |data| <= MAX_SUMMED
    ensures ChecksumOf(data) == ONES - Folded(WordSum(data))
  {
    NoOverflow(data);
    var sum := WordSum(data);
    RestOfWraps(sum, sum, 0);
    assert sum % WORD_32 == sum;
  }

  lemma WrapFoldsExactly(q: nat, rest: nat)
    ensures Folded(rest + WORD_32 * q) == Folded(rest) <==> q == 0 || (q % ONES == 0 && rest != 0)
  {
    FoldedExactly(rest + WORD_32 * q);
    FoldedExactly(rest);
    if rest > 0 {
      assert rest + WORD_32 * q - 1 == (rest - 1 + q) + ONES * (65537 * q);
      SameResidue(rest - 1 + q, 65537 * q);
      ShiftsResidue(rest - 1, q);
    }
  }

  lemma ShiftsResidue(n: nat, q: nat)
    ensures (n + q) % ONES == n % ONES <==> q % ONES == 0
  {
    if q % ONES == 0 {
      SameResidue(n, q / ONES);
    }
  }

  /** Data with the checksum of the whole added are all ones: section 1 of RFC 1071. */
  lemma {:induction false} VerifiesToOnes(data: seq<byte>)
    requires |data| <= MAX_SUMMED
    ensures EndAround(OnesSum(data), ChecksumOf(data)) == ONES
  {
    ComplementExactly(data);
    OnesSumExactly(data);
  }

  // ---- Detection ----

  lemma {:induction false} SumOfParts(front: seq<byte>, rest: seq<byte>)
    requires |front| % 2 == 0
    ensures WordSum(front + rest) == WordSum(front) + WordSum(rest)
  {
    if front == [] {
      assert front + rest == rest;
    } else {
      SumOfParts(front[2..], rest);
      assert (front + rest)[2..] == front[2..] + rest;
    }
  }

  function Zeros(n: nat): (r: seq<byte>)
    ensures |r| == n && forall i | 0 <= i < n :: r[i] == 0
  {
    seq(n, _ => 0)
  }

  lemma {:induction false} ZeroSum(n: nat)
    ensures WordSum(Zeros(n)) == 0
  {
    if n > 1 {
      ZeroSum(n - 2);
      assert Zeros(n)[2..] == Zeros(n - 2);
    }
  }

  /** Some word steers the one's-complement sum to any value but zero. */
  lemma {:induction false} SteeredTo(front: seq<byte>, target: nat) returns (word: seq<byte>)
    requires |front| % 2 == 0 && 0 < target <= ONES
    ensures |word| == 2 && Folded(WordSum(front + word)) == target
  {
    FoldedBound(WordSum(front));
    var folded := Folded(WordSum(front));
    var w := if folded <= target then target - folded else target + ONES - folded;
    word := [w % 256, w / 256];
    assert word[2..] == [] && WordSum(word) == w;
    SumOfParts(front, word);
    EndAroundFolds(w, WordSum(front));
  }

  /** How much one byte counts in the sum: itself in even places, 256 times itself in odd ones. */
  lemma {:induction false} SumOfChange(data: seq<byte>, i: nat, b: byte)
    requires i < |data|
    ensures WordSum(data[i := b]) - WordSum(data) == (if i % 2 == 0 then b - data[i] else 256 * (b - data[i]))
    decreases |data|
  {
    if i >= 2 {
      SumOfChange(data[2..], i - 2, b);
      assert data[i := b][2..] == data[2..][i - 2 := b];
    } else {
      assert |data| > 1 ==> data[i := b][2..] == data[2..];
    }
  }

  /** Every change of one byte changes the checksum. */
  lemma OneByteDetected(data: seq<byte>, i: nat, b: byte)
    requires i < |data| <= MAX_SUMMED && b != data[i]
    ensures ChecksumOf(data[i := b]) != ChecksumOf(data)
  {
    ShortChecksum(data);
    ShortChecksum(data[i := b]);
    SumOfChange(data, i, b);
    FoldsDiffer(WordSum(data), WordSum(data[i := b]));
  }

  lemma {:induction false} FoldsDiffer(m: nat, n: nat)
    requires m != n && m - ONES < n < m + ONES
    ensures Folded(m) != Folded(n)
  {
    FoldedExactly(m);
    FoldedExactly(n);
    if m > 0 && n > 0 {
      NearNotCongruent(m - 1, n - 1);
    }
  }

  lemma NearNotCongruent(m: nat, n: nat)
    requires m != n && m - ONES < n < m + ONES
    ensures m % ONES != n % ONES
  {
  }
}
