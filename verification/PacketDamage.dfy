/** What the parsers of the three layers make of packets that no builder made: which they take at all,
    and what becomes of a packet of which one byte was overwritten. */
module PacketDamage {
  import opened Bytes
  import opened Checksum
  import opened Encoding
  import opened Fragmentation
  import opened Link
  import opened Packets

  // ---- Only what a builder makes ----

  /** Packing what was unpacked gives the bytes back. */
  lemma {:induction false} UnpackedFits(p: seq<byte>, widths: seq<nat>)
    requires |p| >= Width(widths)
    ensures Fit(Unpacked(p, widths), widths)
    ensures Packed(Unpacked(p, widths), widths) == p[..Width(widths)]
    decreases |widths|
  {
    hide Le, FromLe, Values;
    if widths != [] {
      var w := widths[0];
      var values, rest := Unpacked(p, widths), Unpacked(p[w..], widths[1..]);
      UnpackedFits(p[w..], widths[1..]);
      FieldHolds(p[..w]);
      assert values[1..] == rest;
      FitStep(values, widths);
      assert p[..Width(widths)] == p[..w] + p[w..][..Width(widths[1..])];
    }
  }

  lemma LastField(p: seq<byte>)
    requires |p| >= CHECKSUM_SIZE
    ensures Intact(p) ==> p == Sealed(p[..|p| - CHECKSUM_SIZE])
  {
    var body, field := p[..|p| - CHECKSUM_SIZE], p[|p| - CHECKSUM_SIZE..];
    assert p == body + field;
    IntactExactly(body, field);
  }

  /** A packet is taken for a frame that fills it exactly when it is that frame, as the sender builds it. */
  lemma {:induction false} FrameTakenExactly(p: seq<byte>, f: Frame)
    ensures Parsed(p) == Got(f) && |p| == |f.data| + FRAME_OVERHEAD <==> IsFrame(f) && p == FrameBytes(f)
    ensures Parsed(p).Rejected? <==> |p| >= CHECKSUM_SIZE && !Intact(p)
  {
    hide Le, FromLe, ChecksumOf, Values;
    if IsFrame(f) {
      FrameRoundTrip(f);
    }
    if Parsed(p) == Got(f) && |p| == |f.data| + FRAME_OVERHEAD {
      LastField(p);
      FieldHolds(p[0..2]);
      FieldHolds(p[2..10]);
      assert p[..|p| - CHECKSUM_SIZE] == p[0..2] + p[2..10] + p[LINK_HEADER..LINK_HEADER + |f.data|];
    }
  }

  /** What a packet of the network layer is parsed to, by the places of its fields. */
  lemma {:induction false} ParsedNetAt(p: seq<byte>)
    requires |p| >= NET_HEADER
    ensures var n := FieldAt(p, 0, 8);
            ParsedNet(p) == if n > |p| - NET_HEADER then Overrun
                            else if p[NET_FIELDS + n..NET_HEADER + n]
                                    != Le(ChecksumOf(p[..|p| - CHECKSUM_SIZE]), CHECKSUM_SIZE) then Rejected
                            else Got(NetPacket(FieldAt(p, 8, 2), FieldAt(p, 12, 1), FieldAt(p, 13, 1),
                                               FieldAt(p, 14, 2), FieldAt(p, 16, 2),
                                               Fragment(FieldAt(p, 10, 2), p[NET_FIELDS..NET_FIELDS + n])))
  {
    hide Le, FromLe, ChecksumOf, Values, Unpacked;
    NetFieldsAt(p);
    var n := FieldAt(p, 0, 8);
    if n <= |p| - NET_HEADER {
      SumField(p[NET_FIELDS + n..NET_HEADER + n], ChecksumOf(p[..|p| - CHECKSUM_SIZE]));
    }
  }

  lemma {:induction false} SumField(field: seq<byte>, sum: nat)
    requires |field| == CHECKSUM_SIZE && sum <= ONES
    ensures FromLe(field) == sum <==> field == Le(sum, CHECKSUM_SIZE)
  {
    FieldWidths();
    LeRoundTrip(sum, CHECKSUM_SIZE);
    if FromLe(field) == sum {
      FromLeInjective(field, Le(sum, CHECKSUM_SIZE));
    }
  }

  /** A packet is taken for one of the network layer that fills it exactly when it is that one, as the
      sender builds it. */
  lemma {:induction false} NetTakenExactly(p: seq<byte>, d: NetPacket)
    ensures ParsedNet(p) == Got(d) && |p| == |d.fragment.data| + NET_HEADER
            <==> Fit(NetValues(d), NetWidths()) && p == NetBytes(d)
    ensures ParsedNet(p).Overrun? <==> |p| < NET_HEADER || FieldAt(p, 0, 8) > |p| - NET_HEADER
  {
    hide ParsedNet, NetBytes, Le, FromLe, ChecksumOf, Values, Packed, Unpacked, NetValues, Fit;
    NetRoundTrip(d);
    if |p| >= NET_HEADER {
      ParsedNetAt(p);
      if ParsedNet(p) == Got(d) && |p| == |d.fragment.data| + NET_HEADER {
        NetTaken(p, d);
      }
    } else {
      TooShort(p);
    }
  }

  lemma TooShort(p: seq<byte>)
    requires |p| < NET_HEADER
    ensures ParsedNet(p).Overrun?
  {
    NetWidth();
  }

  lemma {:induction false} NetTaken(p: seq<byte>, d: NetPacket)
    requires ParsedNet(p) == Got(d) && |p| == |d.fragment.data| + NET_HEADER
    ensures Fit(NetValues(d), NetWidths()) && p == NetBytes(d)
  {
    hide ParsedNet, Le, FromLe, ChecksumOf, Values, Packed, Unpacked, Fit;
    ParsedNetAt(p);
    NetFieldsAt(p);
    UnpackedFits(p, NetWidths());
    var v := Unpacked(p, NetWidths());
    assert v == [v[0], v[1], v[2], v[3], v[4], v[5], v[6]] == NetValues(d);
    var end := |p| - CHECKSUM_SIZE;
    assert p[..end] == p[..NET_FIELDS] + d.fragment.data;
    assert p == p[..end] + p[end..];
    assert p[NET_FIELDS + v[0]..NET_HEADER + v[0]] == p[end..];
  }

  /** A packet is taken for a segment exactly when it is that segment, as the sender builds it. */
  lemma {:induction false} SegmentTakenExactly(p: seq<byte>, s: SegmentPacket)
    ensures ParsedSegment(p) == Got(s) <==> Fit(SegmentValues(s), SegmentWidths()) && p == SegmentBytes(s)
    ensures ParsedSegment(p).Overrun? <==> |p| < TRANSPORT_HEADER
  {
    hide ParsedSegment, SegmentBytes, Fit, SegmentValues, SegmentWidths;
    SegmentRoundTrip(s);
    LongEnough(p);
    if ParsedSegment(p) == Got(s) {
      SegmentTaken(p, s);
    }
  }

  lemma LongEnough(p: seq<byte>)
    ensures ParsedSegment(p).Overrun? <==> |p| < TRANSPORT_HEADER
  {
    hide Unpacked, FromLe, ChecksumOf;
    SegmentWidth();
  }

  lemma {:induction false} SegmentTaken(p: seq<byte>, s: SegmentPacket)
    requires ParsedSegment(p) == Got(s)
    ensures Fit(SegmentValues(s), SegmentWidths()) && p == SegmentBytes(s)
  {
    hide Le, FromLe, ChecksumOf, Values, Packed, Unpacked, Fit;
    SegmentWidth();
    UnpackedFits(p, SegmentWidths());
    var v := Unpacked(p, SegmentWidths());
    assert v == [v[0], v[1], v[2], v[3], v[4], v[5]] == SegmentValues(s);
    var end := |p| - CHECKSUM_SIZE;
    SumField(p[end..end + CHECKSUM_SIZE], ChecksumOf(p[..end]));
    assert p[..end] == p[..SEGMENT_FIELDS] + s.data == SegmentBody(s);
    assert p == p[..end] + p[end..end + CHECKSUM_SIZE];
  }

  // ---- One byte overwritten ----

  /** All fields fit their widths. */
  predicate IsNetPacket(d: NetPacket) {
    Fit(NetValues(d), NetWidths())
  }

  /** A segment with one byte overwritten is discarded, whichever byte it is. */
  lemma {:induction false} SegmentDamageIsSeen(s: SegmentPacket, i: nat, b: byte)
    requires Fit(SegmentValues(s), SegmentWidths()) && |s.data| + SEGMENT_FIELDS <= MAX_SUMMED
    requires i < |SegmentBytes(s)|
    ensures ParsedSegment(SegmentBytes(s)[i := b]) == if b == SegmentBytes(s)[i] then Got(s) else Rejected
  {
    hide Le, FromLe, ChecksumOf, Values, Unpacked;
    var p := SegmentBytes(s);
    SegmentWidth();
    SegmentRoundTrip(s);
    PackedRoundTrip(SegmentValues(s), SegmentWidths(), []);
    if b == p[i] {
      assert p[i := b] == p;
    } else {
      OneByteBreaks(SegmentBody(s), i, b);
    }
  }

  lemma {:induction false} NetSizeIs(d: NetPacket)
    requires IsNetPacket(d)
    ensures |NetBytes(d)| == |d.fragment.data| + NET_HEADER && |NetBody(d)| == |d.fragment.data| + NET_FIELDS
    ensures NetBytes(d)[..8] == Le(|d.fragment.data|, 8)
    ensures NetBytes(d)[NET_FIELDS..NET_FIELDS + |d.fragment.data|] == d.fragment.data
  {
    hide Le, FromLe, ChecksumOf, Values;
    NetRoundTrip(d);
    NetWidth();
    PackedRoundTrip(NetValues(d), NetWidths(), []);
    assert NetBytes(d)[..8] == Packed(NetValues(d), NetWidths())[..8];
  }

  /** A packet of the network layer with one byte behind the size field overwritten is discarded. */
  lemma {:induction false} NetDamageIsSeen(d: NetPacket, i: nat, b: byte)
    requires IsNetPacket(d) && |d.fragment.data| + NET_FIELDS <= MAX_SUMMED
    requires 8 <= i < |NetBytes(d)|
    ensures ParsedNet(NetBytes(d)[i := b]) == if b == NetBytes(d)[i] then Got(d) else Rejected
  {
    hide ParsedNet, Fit, Packed, Le, FromLe, ChecksumOf, Values;
    var p, n := NetBytes(d), |d.fragment.data|;
    NetRoundTrip(d);
    if b == p[i] {
      assert p[i := b] == p;
    } else {
      NetSizeIs(d);
      SizeFits(d);
      var q := p[i := b];
      assert q[0..8] == p[..8];
      OneByteBreaks(NetBody(d), i, b);
      NotIntact(q);
      assert q[|q| - CHECKSUM_SIZE..] == q[NET_FIELDS + n..NET_HEADER + n];
      ParsedNetAt(q);
    }
  }

  lemma {:induction false} NotIntact(q: seq<byte>)
    requires |q| >= CHECKSUM_SIZE && !Intact(q)
    ensures q[|q| - CHECKSUM_SIZE..] != Le(ChecksumOf(q[..|q| - CHECKSUM_SIZE]), CHECKSUM_SIZE)
  {
    hide Intact, Le, ChecksumOf;
    var body, field := q[..|q| - CHECKSUM_SIZE], q[|q| - CHECKSUM_SIZE..];
    assert q == body + field;
    IntactExactly(body, field);
  }

  lemma {:induction false} SizeFits(d: NetPacket)
    requires IsNetPacket(d)
    ensures |d.fragment.data| < Values(8) && FromLe(Le(|d.fragment.data|, 8)) == |d.fragment.data|
  {
    hide Le, FromLe, Values;
    assert NetValues(d)[0] < Values(NetWidths()[0]);
    LeRoundTrip(|d.fragment.data|, 8);
  }

  /** The size after one byte of its field was overwritten. */
  function SizeWith(n: nat, i: nat, b: byte): nat
    requires i < 8
  {
    FromLe(Le(n, 8)[i := b])
  }

  /** Not so a byte of the size field, by which the checksum is found: a larger size makes the code read
      beyond the packet, and a smaller one makes it compare two bytes that were data. The rest of the data
      is dropped unnoticed exactly when they are the checksum of the damaged packet. */
  lemma {:induction false} NetSizeDamageExactly(d: NetPacket, i: nat, b: byte)
    requires IsNetPacket(d) && i < 8
    ensures |NetBytes(d)| == |d.fragment.data| + NET_HEADER
    ensures var q, m := NetBytes(d)[i := b], SizeWith(|d.fragment.data|, i, b);
            ParsedNet(q) == if m > |d.fragment.data| then Overrun
                            else if q[NET_FIELDS + m..NET_HEADER + m]
                                    != Le(ChecksumOf(q[..|q| - CHECKSUM_SIZE]), CHECKSUM_SIZE) then Rejected
                            else Got(d.(fragment := d.fragment.(data := d.fragment.data[..m])))
  {
    hide ParsedNet, Fit, Packed, Le, FromLe, ChecksumOf, Values, NetBytes;
    var p := NetBytes(d);
    NetSizeIs(d);
    var q, m := p[i := b], SizeWith(|d.fragment.data|, i, b);
    assert q[0..8] == Le(|d.fragment.data|, 8)[i := b];
    ParsedNetAt(q);
    HeaderKept(d, q);
    if m <= |d.fragment.data| {
      assert q[NET_FIELDS..NET_FIELDS + m] == p[NET_FIELDS..NET_FIELDS + |d.fragment.data|][..m];
    }
  }

  /** All fields but the size are where they were. */
  lemma {:induction false} HeaderKept(d: NetPacket, q: seq<byte>)
    requires IsNetPacket(d) && |q| == |NetBytes(d)| >= NET_HEADER && q[8..] == NetBytes(d)[8..]
    ensures FieldAt(q, 8, 2) == d.id && FieldAt(q, 10, 2) == d.fragment.field && FieldAt(q, 12, 1) == d.protocol
    ensures FieldAt(q, 13, 1) == d.ttl && FieldAt(q, 14, 2) == d.dest && FieldAt(q, 16, 2) == d.src
  {
    hide ParsedNet, Fit, Packed, Le, FromLe, ChecksumOf, Values;
    var p := NetBytes(d);
    SameField(p, q, 8, 2);
    SameField(p, q, 10, 2);
    SameField(p, q, 12, 1);
    SameField(p, q, 13, 1);
    SameField(p, q, 14, 2);
    SameField(p, q, 16, 2);
    NetRoundTrip(d);
    ParsedNetAt(p);
  }

  lemma SameField(p: seq<byte>, q: seq<byte>, at: nat, width: nat)
    requires |p| == |q| && 8 <= at && at + width <= |p| && p[8..] == q[8..]
    ensures FieldAt(p, at, width) == FieldAt(q, at, width)
  {
    hide FromLe;
    SliceOfTail(p, 8, at - 8, width);
    SliceOfTail(q, 8, at - 8, width);
  }

  /** No change of a single byte makes the packet pass for another. */
  ghost predicate NetWithstands(d: NetPacket) {
    forall i, b: byte | 0 <= i < |NetBytes(d)| :: NetWithstandsAt(d, i, b)
  }

  predicate NetWithstandsAt(d: NetPacket, i: nat, b: byte)
    requires i < |NetBytes(d)|
  {
    var r := ParsedNet(NetBytes(d)[i := b]);
    r.Got? ==> r.value == d
  }

  /** So only packets without data withstand every change of one byte: of every other size there is one
      that can be cut short. The checksum of the link finds the change before, where the frame fits. */
  lemma {:induction false} NetWithstandsExactly(n: nat)
    requires n + NET_FIELDS <= MAX_SUMMED
    ensures (forall d: NetPacket | IsNetPacket(d) && |d.fragment.data| == n :: NetWithstands(d)) <==> n == 0
  {
    hide ParsedNet, NetBytes, IsNetPacket, NetWithstandsAt, Values, Le;
    if n == 0 {
      forall d: NetPacket, i, b: byte | IsNetPacket(d) && |d.fragment.data| == n && 0 <= i < |NetBytes(d)|
        ensures NetWithstandsAt(d, i, b)
      {
        EmptyWithstands(d, i, b);
      }
    } else {
      var d, i, b := CutShort(n);
      assert !NetWithstandsAt(d, i, b);
    }
  }

  lemma {:induction false} EmptyWithstands(d: NetPacket, i: nat, b: byte)
    requires IsNetPacket(d) && d.fragment.data == [] && i < |NetBytes(d)|
    ensures NetWithstandsAt(d, i, b)
  {
    hide ParsedNet, NetBytes, IsNetPacket, NetValues, Values, Le, FromLe;
    if i >= 8 {
      NetDamageIsSeen(d, i, b);
    } else {
      NetSizeDamageExactly(d, i, b);
      assert d.fragment.data[..0] == [];
      assert d.(fragment := d.fragment.(data := [])) == d;
    }
  }

  /** A packet with nothing in its header but its size and an id. */
  function Plain(id: nat, data: seq<byte>): NetPacket {
    NetPacket(id, 0, 0, 0, 0, Fragment(0, data))
  }

  lemma {:induction false} ZeroField(width: nat)
    ensures Le(0, width) == Zeros(width) && 0 < Values(width)
  {
    if width > 0 {
      ZeroField(width - 1);
      assert Zeros(width) == [0] + Zeros(width - 1);
    }
  }

  lemma {:induction false} PlainBody(word: seq<byte>, data: seq<byte>)
    requires |word| == 2 && |data| < Values(8)
    ensures IsNetPacket(Plain(FromLe(word), data))
    ensures NetBody(Plain(FromLe(word), data)) == Le(|data|, 8) + word + Zeros(8) + data
  {
    hide Le, FromLe, Values, Packed;
    var d := Plain(FromLe(word), data);
    FieldHolds(word);
    ZeroField(1);
    ZeroField(2);
    NetLaidOut(d);
    assert Zeros(8) == Zeros(2) + Zeros(1) + Zeros(1) + Zeros(2) + Zeros(2);
  }

  /** A packet that can be cut short, and how. Its id makes the checksum of the damaged packet 0 and its
      data are 0 too, or, if it has but one byte, both are 1. */
  lemma {:induction false} CutShort(n: nat) returns (d: NetPacket, i: nat, b: byte)
    requires 0 < n && n + NET_FIELDS <= MAX_SUMMED
    ensures IsNetPacket(d) && |d.fragment.data| == n && i < |NetBytes(d)|
    ensures !NetWithstandsAt(d, i, b)
  {
    hide ParsedNet, NetBytes, IsNetPacket, NetWithstandsAt, Values, Le;
    FieldWidths();
    if n == 1 {
      d := CutToNothing();
      i, b := 0, 0;
    } else {
      var m;
      i, b, m := Shorter(n, 8, CHECKSUM_SIZE);
      d := CutZeros(n, i, b, m);
    }
  }

  lemma {:induction false} CutZeros(n: nat, i: nat, b: byte, m: nat) returns (d: NetPacket)
    requires m + CHECKSUM_SIZE <= n && n + NET_FIELDS <= MAX_SUMMED && i < 8 && Le(n, 8)[i := b] == Le(m, 8)
    ensures IsNetPacket(d) && |d.fragment.data| == n && i < |NetBytes(d)|
    ensures !NetWithstandsAt(d, i, b)
  {
    hide ParsedNet, IsNetPacket, Values, Le, FromLe, ChecksumOf, WordSum, Folded, NetBody, Zeros;
    FieldWidths();
    var word := SteeredTo(Le(m, 8), ONES);
    d := Plain(FromLe(word), Zeros(n));
    PlainBody(word, Zeros(n));
    var q := NetBytes(d)[i := b];
    var rest := word + Zeros(8) + Zeros(n);
    var sum := Le(ChecksumOf(NetBody(d)), CHECKSUM_SIZE);
    assert NetBytes(d) == [] + Le(n, 8) + (rest + sum);
    FieldReplaced([], Le(n, 8), rest + sum, i, b);
    assert q[..|q| - CHECKSUM_SIZE] == Le(m, 8) + word + Zeros(8 + n);
    SteeredSum(Le(m, 8) + word, 8 + n);
    LeRoundTrip(m, 8);
    NetSizeDamageExactly(d, i, b);
    ZeroField(2);
    assert q[NET_FIELDS + m..NET_HEADER + m] == Zeros(2);
  }

  lemma {:induction false} SteeredSum(front: seq<byte>, n: nat)
    requires |front| % 2 == 0 && |front| + n <= MAX_SUMMED && Folded(WordSum(front)) == ONES
    ensures ChecksumOf(front + Zeros(n)) == 0
  {
    hide WordSum, Folded, ChecksumOf, Zeros;
    ZeroSum(n);
    SumOfParts(front, Zeros(n));
    ShortChecksum(front + Zeros(n));
  }

  lemma {:induction false} CutToNothing() returns (d: NetPacket)
    ensures IsNetPacket(d) && |d.fragment.data| == 1 && |NetBytes(d)| > 0
    ensures !NetWithstandsAt(d, 0, 0)
  {
    hide ParsedNet, IsNetPacket, Values, Le, FromLe, ChecksumOf, WordSum, Folded, NetBody, Zeros;
    FieldWidths();
    var word := SteeredTo(Le(0, 8), ONES - 2);
    d := Plain(FromLe(word), [1]);
    PlainBody(word, [1]);
    var q := NetBytes(d)[0 := 0];
    var rest := word + Zeros(8) + [1];
    OneLowered(word);
    var sum := Le(ChecksumOf(NetBody(d)), CHECKSUM_SIZE);
    assert NetBytes(d) == [] + Le(1, 8) + (rest + sum);
    FieldReplaced([], Le(1, 8), rest + sum, 0, 0);
    assert q[..|q| - CHECKSUM_SIZE] == Le(0, 8) + word + Zeros(8) + [1];
    LeRoundTrip(0, 8);
    NetSizeDamageExactly(d, 0, 0);
    assert q[NET_FIELDS..NET_HEADER] == [1] + sum[..1];
  }

  /** The two packets differ by 1 in their sums. */
  lemma {:induction false} OneLowered(word: seq<byte>)
    requires |word| == 2 && Folded(WordSum(Le(0, 8) + word)) == ONES - 2
    ensures Le(1, 8)[0 := 0] == Le(0, 8)
    ensures Le(ChecksumOf(Le(0, 8) + word + Zeros(8) + [1]), 2) == [1, 0]
    ensures Le(ChecksumOf(Le(1, 8) + word + Zeros(8) + [1]), 2) == [0, 0]
  {
    hide Le, ChecksumOf, WordSum, Folded, Zeros;
    LowDigit(0, 0, 8);
    LowDigit(0, 1, 8);
    var front, body := Le(0, 8) + word, Le(0, 8) + word + Zeros(8) + [1];
    ZeroSum(8);
    SumOfParts(front, Zeros(8));
    SumOfParts(front + Zeros(8), [1]);
    SumOne();
    EndAroundFolds(1, WordSum(front));
    ShortChecksum(body);
    SumOfChange(body, 0, 1);
    assert body[0 := 1] == Le(1, 8) + word + Zeros(8) + [1];
    EndAroundFolds(1, WordSum(body));
    ShortChecksum(body[0 := 1]);
    SmallFields();
  }

  lemma SumOne()
    ensures WordSum([1]) == 1
  {
  }

  lemma SmallFields()
    ensures Le(1, 2) == [1, 0] && Le(0, 2) == [0, 0]
  {
    assert Le(0, 1) == [0] + Le(0, 0);
  }
}
