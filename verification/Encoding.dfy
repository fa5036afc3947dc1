/** How a struct's fields and its checksum are laid out in a packet, the same way in every layer. */
module Encoding {
  import opened Bytes
  import opened Checksum

  const CHECKSUM_SIZE: nat := 2

  /** What becomes of a packet: discarded, taken apart, or read and copied past the end of the
      buffers, when its size field does not fit its length. */
  datatype Receipt<T> = Rejected | Overrun | Got(value: T)

  /** An integer field of `width` bytes, low byte first. */
  function Le(n: nat, width: nat): (r: seq<byte>)
    ensures |r| == width
  {
    if width == 0 then [] else [n % 256] + Le(n / 256, width - 1)
  }

  function FromLe(s: seq<byte>): nat {
    if s == [] then 0 else Word(s[0], FromLe(s[1..]))
  }

  /** How many values a field of `width` bytes can hold. */
  function Values(width: nat): nat {
    if width == 0 then 1 else 256 * Values(width - 1)
  }

  lemma {:induction false} LeRoundTrip(n: nat, width: nat)
    ensures FromLe(Le(n, width)) == n <==> n < Values(width)
    ensures FromLe(Le(n, width)) < Values(width)
  {
    if width > 0 {
      LeRoundTrip(n / 256, width - 1);
      assert Le(n, width)[1..] == Le(n / 256, width - 1);
    }
  }

  lemma FieldWidths()
    ensures Values(1) == 0x100 && Values(2) == 0x1_0000 && Values(4) == 0x1_0000_0000
    ensures Values(8) == 0x1_0000_0000_0000_0000
  {
    assert Values(3) == 256 * Values(2);
    assert Values(4) == 256 * Values(3);
    assert Values(5) == 256 * Values(4);
    assert Values(6) == 256 * Values(5);
    assert Values(7) == 256 * Values(6);
  }

  /** The field of `width` bytes at a position. */
  function FieldAt(p: seq<byte>, at: nat, width: nat): nat
    requires at + width <= |p|
  {
    FromLe(p[at..at + width])
  }

  lemma {:induction false} FieldPlaced(before: seq<byte>, n: nat, width: nat, after: seq<byte>)
    requires n < Values(width)
    ensures FieldAt(before + Le(n, width) + after, |before|, width) == n
  {
    var p := before + Le(n, width) + after;
    assert p[|before|..|before| + width] == Le(n, width);
    LeRoundTrip(n, width);
  }

  /** A packet that ends with the checksum of all before it. */
  function Sealed(body: seq<byte>): (r: seq<byte>)
    ensures |r| == |body| + CHECKSUM_SIZE
  {
    body + Le(ChecksumOf(body), CHECKSUM_SIZE)
  }

  /** The comparison that every layer makes: the checksum of all but the last two bytes is what
      the last two bytes say. */
  predicate Intact(p: seq<byte>) {
    |p| >= CHECKSUM_SIZE && FieldAt(p, |p| - CHECKSUM_SIZE, CHECKSUM_SIZE) == ChecksumOf(p[..|p| - CHECKSUM_SIZE])
  }

  lemma SealedIsIntact(body: seq<byte>)
    ensures Intact(Sealed(body)) && Sealed(body)[..|body|] == body
  {
    IntactExactly(body, Le(ChecksumOf(body), CHECKSUM_SIZE));
  }

  lemma {:induction false} FromLeInjective(s: seq<byte>, t: seq<byte>)
    requires |s| == |t| && FromLe(s) == FromLe(t)
    ensures s == t
  {
    if s != [] {
      FromLeInjective(s[1..], t[1..]);
      assert s == [s[0]] + s[1..] && t == [t[0]] + t[1..];
    }
  }

  lemma LowDigit(high: nat, low: byte, width: nat)
    requires width > 0
    ensures Le(256 * high + low, width) == [low] + Le(high, width - 1)
  {
    assert (256 * high + low) % 256 == low && (256 * high + low) / 256 == high;
  }

  /** Whatever a field holds is the number it stands for. */
  lemma {:induction false} FieldHolds(s: seq<byte>)
    ensures FromLe(s) < Values(|s|) && Le(FromLe(s), |s|) == s
  {
    if s != [] {
      FieldHolds(s[1..]);
      LowDigit(FromLe(s[1..]), s[0], |s|);
    }
  }

  lemma IntactExactly(body: seq<byte>, field: seq<byte>)
    requires |field| == CHECKSUM_SIZE
    ensures Intact(body + field) <==> field == Le(ChecksumOf(body), CHECKSUM_SIZE)
  {
    var p := body + field;
    assert p[..|body|] == body && p[|body|..|body| + CHECKSUM_SIZE] == field;
    FieldWidths();
    LeRoundTrip(ChecksumOf(body), CHECKSUM_SIZE);
    if Intact(p) {
      FromLeInjective(field, Le(ChecksumOf(body), CHECKSUM_SIZE));
    }
  }

  /** Whatever single byte of a packet with its checksum changes, in the body or in the checksum,
      the comparison fails. */
  lemma OneByteBreaks(body: seq<byte>, i: nat, b: byte)
    requires |body| <= MAX_SUMMED && i < |body| + CHECKSUM_SIZE && b != Sealed(body)[i]
    ensures !Intact(Sealed(body)[i := b])
  {
    var field := Le(ChecksumOf(body), CHECKSUM_SIZE);
    if i < |body| {
      BodyByteBreaks(body, i, b);
      assert Sealed(body)[i := b] == body[i := b] + field;
      IntactExactly(body[i := b], field);
    } else {
      var j := i - |body|;
      assert Sealed(body)[i := b] == body + field[j := b];
      assert field[j := b][j] == b;
      IntactExactly(body, field[j := b]);
    }
  }

  lemma BodyByteBreaks(body: seq<byte>, i: nat, b: byte)
    requires |body| <= MAX_SUMMED && i < |body| && b != body[i]
    ensures Le(ChecksumOf(body[i := b]), CHECKSUM_SIZE) != Le(ChecksumOf(body), CHECKSUM_SIZE)
  {
    OneByteDetected(body, i, b);
    FieldWidths();
    LeRoundTrip(ChecksumOf(body), CHECKSUM_SIZE);
    LeRoundTrip(ChecksumOf(body[i := b]), CHECKSUM_SIZE);
  }
}
