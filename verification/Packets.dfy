/** The headers of the network and the transport layer, and the way of a segment down and up the
    layers. */
module Packets {
  import opened Bytes
  import opened Checksum
  import opened Encoding
  import opened Fragmentation
  import opened Link
  import opened OrderedReassembly

  // ---- Headers ----

  /** Fields one after another, each copied behind the one before. */
  function Packed(values: seq<nat>, widths: seq<nat>): seq<byte>
    requires |values| == |widths|
  {
    if values == [] then [] else Le(values[0], widths[0]) + Packed(values[1..], widths[1..])
  }

  function Width(widths: seq<nat>): nat {
    if widths == [] then 0 else widths[0] + Width(widths[1..])
  }

  function Unpacked(p: seq<byte>, widths: seq<nat>): (r: seq<nat>)
    requires |p| >= Width(widths)
    ensures |r| == |widths|
    decreases |widths|
  {
    if widths == [] then [] else [FromLe(p[..widths[0]])] + Unpacked(p[widths[0]..], widths[1..])
  }

  predicate Fit(values: seq<nat>, widths: seq<nat>)
    requires |values| == |widths|
  {
    forall i | 0 <= i < |values| :: values[i] < Values(widths[i])
  }

  lemma FitStep(values: seq<nat>, widths: seq<nat>)
    requires 0 < |values| == |widths|
    ensures Fit(values, widths) <==> values[0] < Values(widths[0]) && Fit(values[1..], widths[1..])
  {
    hide Values;
    if values[0] < Values(widths[0]) && Fit(values[1..], widths[1..]) {
      forall i | 0 <= i < |values| ensures values[i] < Values(widths[i]) {
        if i > 0 { assert values[1..][i - 1] < Values(widths[1..][i - 1]); }
      }
    }
  }

  /** Fields come back as they were exactly when each fits its width. */
  lemma {:induction false} PackedRoundTrip(values: seq<nat>, widths: seq<nat>, tail: seq<byte>)
    requires |values| == |widths|
    ensures |Packed(values, widths)| == Width(widths)
    ensures Unpacked(Packed(values, widths) + tail, widths) == values <==> Fit(values, widths)
    decreases |values|
  {
    hide Le, FromLe, Values;
    if values != [] {
      var w := widths[0];
      PackedRoundTrip(values[1..], widths[1..], tail);
      var p := Packed(values, widths) + tail;
      assert p[..w] == Le(values[0], w);
      assert p[w..] == Packed(values[1..], widths[1..]) + tail;
      LeRoundTrip(values[0], w);
      FitStep(values, widths);
      assert values == [values[0]] + values[1..];
      assert Unpacked(p, widths)[1..] == Unpacked(p[w..], widths[1..]);
    }
  }

  // ---- Network layer ----

  datatype NetPacket = NetPacket(id: nat, protocol: nat, ttl: nat, dest: nat, src: nat, fragment: Fragment)

  const NET_FIELDS: nat := 18

  // size, id, frag, protocol, ttl, dest, src
  function NetWidths(): seq<nat> {
    [8, 2, 2, 1, 1, 2, 2]
  }

  function NetValues(d: NetPacket): seq<nat> {
    [|d.fragment.data|, d.id, d.fragment.field, d.protocol, d.ttl, d.dest, d.src]
  }

  function NetBody(d: NetPacket): seq<byte> {
    Packed(NetValues(d), NetWidths()) + d.fragment.data
  }

  function NetBytes(d: NetPacket): seq<byte> {
    Sealed(NetBody(d))
  }

  /** The size field says where the checksum is; the comparison covers all but the last two bytes. */
  function ParsedNet(p: seq<byte>): Receipt<NetPacket> {
    NetWidth();
    if |p| < NET_HEADER then Overrun
    else
      var v := Unpacked(p, NetWidths());
      if v[0] > |p| - NET_HEADER then Overrun
      else if FieldAt(p, NET_FIELDS + v[0], CHECKSUM_SIZE) != ChecksumOf(p[..|p| - CHECKSUM_SIZE]) then Rejected
      else Got(NetPacket(v[1], v[3], v[4], v[5], v[6], Fragment(v[2], p[NET_FIELDS..NET_FIELDS + v[0]])))
  }

  lemma NetWidth()
    ensures Width(NetWidths()) == NET_FIELDS
  {
    assert Width([8, 2, 2, 1, 1, 2, 2]) == 8 + Width([2, 2, 1, 1, 2, 2]);
    assert Width([2, 2, 1, 1, 2, 2]) == 2 + Width([2, 1, 1, 2, 2]);
    assert Width([2, 1, 1, 2, 2]) == 2 + Width([1, 1, 2, 2]);
    assert Width([1, 1, 2, 2]) == 1 + Width([1, 2, 2]);
    assert Width([1, 2, 2]) == 1 + Width([2, 2]);
    assert Width([2, 2]) == 2 + Width([2]);
  }

  /** Packets of the network layer come back as they were exactly when their fields fit. */
  lemma NetRoundTrip(d: NetPacket)
    ensures ParsedNet(NetBytes(d)) == Got(d) <==> Fit(NetValues(d), NetWidths())
    ensures Intact(NetBytes(d)) && |NetBytes(d)| == |d.fragment.data| + NET_HEADER
  {
    hide Le, FromLe, ChecksumOf, Values;
    NetWidth();
    SealedIsIntact(NetBody(d));
    var p, data := NetBytes(d), d.fragment.data;
    var tail := data + Le(ChecksumOf(NetBody(d)), CHECKSUM_SIZE);
    PackedRoundTrip(NetValues(d), NetWidths(), tail);
    assert p == Packed(NetValues(d), NetWidths()) + tail;
    assert p[NET_FIELDS..NET_FIELDS + |data|] == data;
    var v := Unpacked(p, NetWidths());
    if ParsedNet(p) == Got(d) {
      assert v[0] == |data|;
      assert v == [v[0], v[1], v[2], v[3], v[4], v[5], v[6]];
    }
  }

  // ---- Transport layer ----

  datatype SegmentPacket = SegmentPacket(src: nat, dest: nat, seqNum: nat, ackNum: nat, flags: nat, window: nat,
                                         data: seq<byte>)

  const SEGMENT_FIELDS: nat := 15
  const TRANSPORT_HEADER: nat := SEGMENT_FIELDS + CHECKSUM_SIZE

  // src, dest, seq_num, ack_num, flags, window_size
  function SegmentWidths(): seq<nat> {
    [2, 2, 4, 4, 1, 2]
  }

  function SegmentValues(s: SegmentPacket): seq<nat> {
    [s.src, s.dest, s.seqNum, s.ackNum, s.flags, s.window]
  }

  function SegmentBody(s: SegmentPacket): seq<byte> {
    Packed(SegmentValues(s), SegmentWidths()) + s.data
  }

  function SegmentBytes(s: SegmentPacket): seq<byte> {
    Sealed(SegmentBody(s))
  }

  /** There is no size field: the data are what the network layer delivers beyond the header. */
  function ParsedSegment(p: seq<byte>): Receipt<SegmentPacket> {
    SegmentWidth();
    if |p| < TRANSPORT_HEADER then Overrun
    else
      var v, size := Unpacked(p, SegmentWidths()), |p| - TRANSPORT_HEADER;
      if FieldAt(p, SEGMENT_FIELDS + size, CHECKSUM_SIZE) != ChecksumOf(p[..|p| - CHECKSUM_SIZE]) then Rejected
      else Got(SegmentPacket(v[0], v[1], v[2], v[3], v[4], v[5], p[SEGMENT_FIELDS..SEGMENT_FIELDS + size]))
  }

  lemma SegmentWidth()
    ensures Width(SegmentWidths()) == SEGMENT_FIELDS
  {
    assert Width([2, 2, 4, 4, 1, 2]) == 2 + Width([2, 4, 4, 1, 2]);
    assert Width([2, 4, 4, 1, 2]) == 2 + Width([4, 4, 1, 2]);
    assert Width([4, 4, 1, 2]) == 4 + Width([4, 1, 2]);
    assert Width([4, 1, 2]) == 4 + Width([1, 2]);
    assert Width([1, 2]) == 1 + Width([2]);
  }

  /** Segments, empty ones too, come back as they were exactly when their fields fit. */
  lemma SegmentRoundTrip(s: SegmentPacket)
    ensures ParsedSegment(SegmentBytes(s)) == Got(s) <==> Fit(SegmentValues(s), SegmentWidths())
    ensures Intact(SegmentBytes(s)) && |SegmentBytes(s)| == |s.data| + TRANSPORT_HEADER
  {
    hide Le, FromLe, ChecksumOf, Values;
    SegmentWidth();
    SealedIsIntact(SegmentBody(s));
    var p := SegmentBytes(s);
    var tail := s.data + Le(ChecksumOf(SegmentBody(s)), CHECKSUM_SIZE);
    PackedRoundTrip(SegmentValues(s), SegmentWidths(), tail);
    assert p == Packed(SegmentValues(s), SegmentWidths()) + tail;
    assert p[SEGMENT_FIELDS..SEGMENT_FIELDS + |s.data|] == s.data;
    var v := Unpacked(p, SegmentWidths());
    assert v == [v[0], v[1], v[2], v[3], v[4], v[5]];
  }

  // ---- Filling the buffers ----

  /** memcpy of one field at `count`. */
  method Store(buf: array<byte>, count: nat, value: nat, width: nat) returns (next: nat)
    requires count + width <= buf.Length
    modifies buf
    ensures next == count + width
    ensures buf[..next] == old(buf[..count]) + Le(value, width)
  {
    Memcpy(buf, count, Le(value, width));
    next := count + width;
    assert buf[..next] == buf[..count] + buf[count..next];
  }

  method StoreData(buf: array<byte>, count: nat, data: seq<byte>) returns (next: nat)
    requires count + |data| <= buf.Length
    modifies buf
    ensures next == count + |data|
    ensures buf[..next] == old(buf[..count]) + data
  {
    Memcpy(buf, count, data);
    next := count + |data|;
    assert buf[..next] == buf[..count] + buf[count..next];
  }

  method StoreChecksum(buf: array<byte>, count: nat)
    requires buf.Length == count + CHECKSUM_SIZE
    modifies buf
    ensures buf[..] == Sealed(old(buf[..count]))
  {
    var check := Compute(buf[..count]);
    Memcpy(buf, count, Le(check, CHECKSUM_SIZE));
    assert buf[..] == buf[..count] + buf[count..];
  }

  method StoreNetHeader(buf: array<byte>, d: NetPacket) returns (count: nat)
    requires buf.Length >= NET_FIELDS
    modifies buf
    ensures count == NET_FIELDS && buf[..count] == Packed(NetValues(d), NetWidths())
  {
    count := Store(buf, 0, |d.fragment.data|, 8);
    assert buf[..count] == Le(|d.fragment.data|, 8);
    count := Store(buf, count, d.id, 2);
    count := Store(buf, count, d.fragment.field, 2);
    count := Store(buf, count, d.protocol, 1);
    count := Store(buf, count, d.ttl, 1);
    count := Store(buf, count, d.dest, 2);
    count := Store(buf, count, d.src, 2);
    NetLaidOut(d);
  }

  method BuildSendDatagram(buf: array<byte>, d: NetPacket)
    requires buf.Length == |d.fragment.data| + NET_HEADER
    modifies buf
    ensures buf[..] == NetBytes(d)
  {
    var count := StoreNetHeader(buf, d);
    count := StoreData(buf, count, d.fragment.data);
    StoreChecksum(buf, count);
  }

  lemma NetLaidOut(d: NetPacket)
    ensures Packed(NetValues(d), NetWidths())
            == Le(|d.fragment.data|, 8) + Le(d.id, 2) + Le(d.fragment.field, 2) + Le(d.protocol, 1)
               + Le(d.ttl, 1) + Le(d.dest, 2) + Le(d.src, 2)
  {
    var v, w := NetValues(d), NetWidths();
    assert Packed(v[6..], w[6..]) == Le(v[6], 2) + Packed([], []);
    PackedStep(v, w, 5);
    PackedStep(v, w, 4);
    PackedStep(v, w, 3);
    PackedStep(v, w, 2);
    PackedStep(v, w, 1);
    PackedStep(v, w, 0);
    assert v[0..] == v && w[0..] == w;
  }

  lemma PackedStep(v: seq<nat>, w: seq<nat>, i: nat)
    requires i < |v| == |w|
    ensures Packed(v[i..], w[i..]) == Le(v[i], w[i]) + Packed(v[i + 1..], w[i + 1..])
  {
    assert v[i..][1..] == v[i + 1..] && w[i..][1..] == w[i + 1..];
  }

  method StoreSegmentHeader(buf: array<byte>, s: SegmentPacket) returns (count: nat)
    requires buf.Length >= SEGMENT_FIELDS
    modifies buf
    ensures count == SEGMENT_FIELDS && buf[..count] == Packed(SegmentValues(s), SegmentWidths())
  {
    count := Store(buf, 0, s.src, 2);
    assert buf[..count] == Le(s.src, 2);
    count := Store(buf, count, s.dest, 2);
    count := Store(buf, count, s.seqNum, 4);
    count := Store(buf, count, s.ackNum, 4);
    count := Store(buf, count, s.flags, 1);
    count := Store(buf, count, s.window, 2);
    SegmentLaidOut(s);
  }

  method BuildSendSegment(buf: array<byte>, s: SegmentPacket)
    requires buf.Length == |s.data| + TRANSPORT_HEADER
    modifies buf
    ensures buf[..] == SegmentBytes(s)
  {
    var count := StoreSegmentHeader(buf, s);
    ghost var header := buf[..count];
    if |s.data| != 0 {
      count := StoreData(buf, count, s.data);
    }
    assert buf[..count] == header + s.data;
    StoreChecksum(buf, count);
  }

  lemma SegmentLaidOut(s: SegmentPacket)
    ensures Packed(SegmentValues(s), SegmentWidths())
            == Le(s.src, 2) + Le(s.dest, 2) + Le(s.seqNum, 4) + Le(s.ackNum, 4) + Le(s.flags, 1) + Le(s.window, 2)
  {
    var v, w := SegmentValues(s), SegmentWidths();
    assert Packed(v[5..], w[5..]) == Le(v[5], 2) + Packed([], []);
    PackedStep(v, w, 4);
    PackedStep(v, w, 3);
    PackedStep(v, w, 2);
    PackedStep(v, w, 1);
    PackedStep(v, w, 0);
    assert v[0..] == v && w[0..] == w;
  }

  // ---- Taking the buffers apart ----

  /** Where a field starts. */
  function Start(widths: seq<nat>, k: nat): nat
    requires k <= |widths|
  {
    if k == 0 then 0 else Start(widths, k - 1) + widths[k - 1]
  }

  lemma {:induction false} StartOfTail(widths: seq<nat>, k: nat)
    requires 0 < k <= |widths|
    ensures Start(widths, k) == widths[0] + Start(widths[1..], k - 1)
    decreases k
  {
    if k > 1 {
      StartOfTail(widths, k - 1);
    }
  }

  lemma {:induction false} StartBounds(widths: seq<nat>, k: nat)
    requires k < |widths|
    ensures Start(widths, k) + widths[k] <= Width(widths)
    decreases k
  {
    if k > 0 {
      StartOfTail(widths, k);
      StartBounds(widths[1..], k - 1);
    }
  }

  lemma SliceOfTail(p: seq<byte>, from: nat, at: nat, n: nat)
    requires from + at + n <= |p|
    ensures p[from..][at..at + n] == p[from + at..from + at + n]
  {
  }

  lemma {:induction false} UnpackedAt(p: seq<byte>, widths: seq<nat>, k: nat)
    requires k < |widths| && Width(widths) <= |p|
    ensures Start(widths, k) + widths[k] <= |p|
    ensures Unpacked(p, widths)[k] == FieldAt(p, Start(widths, k), widths[k])
    decreases k
  {
    hide FromLe;
    StartBounds(widths, k);
    if k > 0 {
      var rest, w := p[widths[0]..], widths[0];
      UnpackedAt(rest, widths[1..], k - 1);
      StartOfTail(widths, k);
      var at := Start(widths[1..], k - 1);
      SliceOfTail(p, w, at, widths[k]);
    }
  }

  lemma NetStarts()
    ensures var w := NetWidths();
            && Start(w, 0) == 0 && Start(w, 1) == 8 && Start(w, 2) == 10 && Start(w, 3) == 12
            && Start(w, 4) == 13 && Start(w, 5) == 14 && Start(w, 6) == 16
  {
  }

  lemma SegmentStarts()
    ensures var w := SegmentWidths();
            && Start(w, 0) == 0 && Start(w, 1) == 2 && Start(w, 2) == 4 && Start(w, 3) == 8
            && Start(w, 4) == 12 && Start(w, 5) == 13
  {
  }

  lemma {:induction false} NetFieldsAt(p: seq<byte>)
    requires |p| >= NET_FIELDS
    ensures Width(NetWidths()) == NET_FIELDS
    ensures var v := Unpacked(p, NetWidths());
            && v[0] == FieldAt(p, 0, 8) && v[1] == FieldAt(p, 8, 2) && v[2] == FieldAt(p, 10, 2)
            && v[3] == FieldAt(p, 12, 1) && v[4] == FieldAt(p, 13, 1) && v[5] == FieldAt(p, 14, 2)
            && v[6] == FieldAt(p, 16, 2)
  {
    hide FromLe;
    NetWidth();
    NetStarts();
    forall k | 0 <= k < 7
      ensures Start(NetWidths(), k) + NetWidths()[k] <= |p|
      ensures Unpacked(p, NetWidths())[k] == FieldAt(p, Start(NetWidths(), k), NetWidths()[k])
    {
      UnpackedAt(p, NetWidths(), k);
    }
  }

  lemma {:induction false} SegmentFieldsAt(p: seq<byte>)
    requires |p| >= SEGMENT_FIELDS
    ensures Width(SegmentWidths()) == SEGMENT_FIELDS
    ensures var v := Unpacked(p, SegmentWidths());
            && v[0] == FieldAt(p, 0, 2) && v[1] == FieldAt(p, 2, 2) && v[2] == FieldAt(p, 4, 4)
            && v[3] == FieldAt(p, 8, 4) && v[4] == FieldAt(p, 12, 1) && v[5] == FieldAt(p, 13, 2)
  {
    hide FromLe;
    SegmentWidth();
    SegmentStarts();
    forall k | 0 <= k < 6
      ensures Start(SegmentWidths(), k) + SegmentWidths()[k] <= |p|
      ensures Unpacked(p, SegmentWidths())[k] == FieldAt(p, Start(SegmentWidths(), k), SegmentWidths()[k])
    {
      UnpackedAt(p, SegmentWidths(), k);
    }
  }

  /** Reads field after field, then the data by the size field, and compares the checksums. */
  method BuildRecvDatagram(buf: seq<byte>) returns (r: Receipt<NetPacket>)
    ensures r == ParsedNet(buf)
  {
    if |buf| < NET_HEADER {
      return Overrun;
    }
    NetFieldsAt(buf);
    var count: nat := 0;
    var size := FieldAt(buf, count, 8);
    count := count + 8;
    var id := FieldAt(buf, count, 2);
    count := count + 2;
    var frag := FieldAt(buf, count, 2);
    count := count + 2;
    var protocol := FieldAt(buf, count, 1);
    count := count + 1;
    var ttl := FieldAt(buf, count, 1);
    count := count + 1;
    var dest := FieldAt(buf, count, 2);
    count := count + 2;
    var src := FieldAt(buf, count, 2);
    count := count + 2;
    if count + size + CHECKSUM_SIZE > |buf| {
      return Overrun;
    }
    var data := buf[count..count + size];
    count := count + size;
    var checksum := FieldAt(buf, count, CHECKSUM_SIZE);
    var computed := Compute(buf[..|buf| - CHECKSUM_SIZE]);
    if computed != checksum {
      return Rejected;
    }
    return Got(NetPacket(id, protocol, ttl, dest, src, Fragment(frag, data)));
  }

  /** Reads field after field and takes the rest, but for the checksum, as data. */
  method BuildRecvSegment(buf: seq<byte>) returns (r: Receipt<SegmentPacket>)
    ensures r == ParsedSegment(buf)
  {
    if |buf| < TRANSPORT_HEADER {
      return Overrun;
    }
    SegmentFieldsAt(buf);
    var count: nat := 0;
    var src := FieldAt(buf, count, 2);
    count := count + 2;
    var dest := FieldAt(buf, count, 2);
    count := count + 2;
    var seqNum := FieldAt(buf, count, 4);
    count := count + 4;
    var ackNum := FieldAt(buf, count, 4);
    count := count + 4;
    var flags := FieldAt(buf, count, 1);
    count := count + 1;
    var window := FieldAt(buf, count, 2);
    count := count + 2;
    var data := [];
    if |buf| > TRANSPORT_HEADER {
      data := buf[count..count + (|buf| - TRANSPORT_HEADER)];
      count := count + (|buf| - TRANSPORT_HEADER);
    }
    assert data == buf[SEGMENT_FIELDS..|buf| - CHECKSUM_SIZE];
    var checksum := FieldAt(buf, count, CHECKSUM_SIZE);
    var computed := Compute(buf[..|buf| - CHECKSUM_SIZE]);
    if computed != checksum {
      return Rejected;
    }
    return Got(SegmentPacket(src, dest, seqNum, ackNum, flags, window, data));
  }

  // ---- Down and up the layers ----

  /** A segment in a datagram of its own in a frame, taken apart layer by layer. */
  lemma LayersUndo(s: SegmentPacket, d: NetPacket, hop: nat)
    requires Fit(SegmentValues(s), SegmentWidths()) && d.fragment.data == SegmentBytes(s)
    requires Fit(NetValues(d), NetWidths())
    requires IsFrame(Frame(hop, NetBytes(d)))
    ensures Parsed(FrameBytes(Frame(hop, NetBytes(d)))) == Got(Frame(hop, NetBytes(d)))
    ensures ParsedNet(NetBytes(d)) == Got(d)
    ensures ParsedSegment(d.fragment.data) == Got(s)
  {
    FrameRoundTrip(Frame(hop, NetBytes(d)));
    NetRoundTrip(d);
    SegmentRoundTrip(s);
  }

  /** A segment cut into fragments, cut again by any relays, its fragments arriving in any order
      among others: whatever the documented reassembly hands up for it is the segment. */
  lemma {:induction false} SegmentTravels(s: SegmentPacket, ds: seq<Reassembly.Datagram>, key: Key,
                                          mtu: nat, hops: seq<Fragment -> nat>)
    requires Fit(SegmentValues(s), SegmentWidths()) && |s.data| + TRANSPORT_HEADER <= MORE
    requires mtu >= MIN_MTU && forall m, f | m in hops :: m(f) >= MIN_MTU
    requires forall d | d in ds && KeyOf(d) == key ::
               d.fragment in Travelled(Fragments(false, SegmentBytes(s), mtu, 0), hops)
    ensures forall out | out in HandedUp(Reassembled(ds).log, key) :: ParsedSegment(out) == Got(s)
    ensures HandedUp(Reassembled(ds).log, key) != []
            <==> forall f | f in Travelled(Fragments(false, SegmentBytes(s), mtu, 0), hops) :: Came(ds, key, f)
  {
    SegmentRoundTrip(s);
    var data, up := SegmentBytes(s), HandedUp(Reassembled(ds).log, key);
    TravelledReassembles(ds, key, data, mtu, hops);
    assert data in up <==> up != [] by {
      if up != [] { assert up[0] in up; }
    }
  }

  // ---- MTU and receive buffer ----

  /** The link of a fragment takes it, and the receive buffer of the other end holds its frame. */
  predicate Passes(max: nat, mtu: nat, d: NetPacket) {
    LinkTakes(mtu, d.fragment) && |NetBytes(d)| + FRAME_OVERHEAD <= max
  }

  function Carrying(d: NetPacket, f: Fragment): NetPacket {
    d.(fragment := f)
  }

  /** A datagram that has to be cut passes a link exactly when its MTU is not 4 more than a
      multiple of 8 and a full piece with all headers fits into the receive buffer. Over a link
      with the largest MTU of the topology it never does, by so much that `ReceivedExactly` leaves it no
      chance. */
  lemma CutPassesExactly(max: nat, mtu: nat, relay: bool, d: NetPacket)
    requires mtu >= MIN_MTU && |d.fragment.data| + NET_HEADER > mtu
    ensures (forall f | f in Fragments(relay, d.fragment.data, mtu, d.fragment.field) ::
               Passes(max, mtu, Carrying(d, f)))
            <==> mtu % 8 != 4 && PieceSize(mtu) + NET_HEADER + FRAME_OVERHEAD <= max
    ensures max == mtu ==> PieceSize(mtu) + NET_HEADER + LINK_HEADER > max
  {
    var data, field := d.fragment.data, d.fragment.field;
    var frags := Fragments(relay, data, mtu, field);
    LinkTakesAllExactly(relay, data, mtu, field);
    PiecesAreFields(data, PieceSize(mtu), field % MORE, relay && field / MORE == 1);
    forall f | f in frags ensures |NetBytes(Carrying(d, f))| == |f.data| + NET_HEADER {
      NetRoundTrip(Carrying(d, f));
    }
    assert |frags[0].data| == PieceSize(mtu) && frags[0] in frags;
  }
}
