/** The link layer: frames on the wire, the loop that discards what the network damaged, and what
    the frames it accepts can be. */
module Link {
  import opened Bytes
  import opened Checksum
  import opened Encoding
  import opened Garbler

  const LINK_HEADER: nat := 10
  const FRAME_OVERHEAD: nat := LINK_HEADER + CHECKSUM_SIZE

  datatype Frame = Frame(dest: nat, data: seq<byte>)

  /** The fields fit into their 16 and 64 bits. */
  predicate IsFrame(f: Frame) {
    f.dest < Values(2) && |f.data| < Values(8)
  }

  function FrameBody(f: Frame): seq<byte> {
    Le(f.dest, 2) + Le(|f.data|, 8) + f.data
  }

  function FrameBytes(f: Frame): (r: seq<byte>)
    ensures |r| == |f.data| + FRAME_OVERHEAD
  {
    Sealed(FrameBody(f))
  }

  /** The size field is only compared with what was received, which the checksum at its end is part
      of: the code allocates eight bytes less than that and copies what the size field says. */
  function Parsed(p: seq<byte>): Receipt<Frame> {
    if |p| < CHECKSUM_SIZE then Overrun
    else if !Intact(p) then Rejected
    else if |p| < LINK_HEADER || FieldAt(p, 2, 8) > |p| - LINK_HEADER then Overrun
    else Got(Frame(FieldAt(p, 0, 2), p[LINK_HEADER..LINK_HEADER + FieldAt(p, 2, 8)]))
  }

  /** The receive buffer is as long as the largest MTU of the topology; the rest of a longer packet
      is lost. */
  function Heard(max: nat, p: seq<byte>): seq<byte> {
    if |p| <= max then p else p[..max]
  }

  /** The frames, and failures, that come out of the packets that arrive. */
  function Accepted(max: nat, arrivals: seq<seq<byte>>): seq<Receipt<Frame>> {
    if arrivals == [] then []
    else
      var r := Parsed(Heard(max, arrivals[0]));
      if r.Rejected? then Accepted(max, arrivals[1..]) else [r] + Accepted(max, arrivals[1..])
  }

  method Memcpy(buf: array<byte>, at: nat, s: seq<byte>)
    requires at + |s| <= buf.Length
    modifies buf
    ensures buf[..at] == old(buf[..at]) && buf[at..at + |s|] == s && buf[at + |s|..] == old(buf[at + |s|..])
  {
    forall i | 0 <= i < |s| {
      buf[at + i] := s[i];
    }
  }

  class LinkBuffers {
    var sendFrame: Frame
    var sendChecksum: nat
    var recvFrame: Frame
    var recvChecksum: nat

    constructor (f: Frame)
      ensures sendFrame == f
    {
      sendFrame, recvFrame := f, f;
      sendChecksum, recvChecksum := 0, 0;
    }

    method BuildSendFrame(buf: array<byte>)
      requires buf.Length == |sendFrame.data| + FRAME_OVERHEAD
      modifies buf, this`sendChecksum
      ensures buf[..] == FrameBytes(sendFrame)
    {
      hide Le, ChecksumOf;
      var size := |sendFrame.data|;
      Memcpy(buf, 0, Le(sendFrame.dest, 2));
      Memcpy(buf, 2, Le(size, 8));
      assert buf[..10] == buf[..2] + buf[2..10];
      Memcpy(buf, LINK_HEADER, sendFrame.data);
      assert buf[..LINK_HEADER + size] == buf[..10] + buf[10..10 + size];
      assert buf[..LINK_HEADER + size] == FrameBody(sendFrame);
      sendChecksum := Compute(buf[..LINK_HEADER + size]);
      Memcpy(buf, LINK_HEADER + size, Le(sendChecksum, CHECKSUM_SIZE));
      assert buf[..LINK_HEADER + size] == FrameBody(sendFrame);
      assert buf[LINK_HEADER + size..] == Le(sendChecksum, CHECKSUM_SIZE);
      assert buf[..] == buf[..LINK_HEADER + size] + buf[LINK_HEADER + size..];
    }

    /** One packet: the comparison, and taking the frame apart if it holds. */
    method GetRecvFrame(p: seq<byte>) returns (receipt: Receipt<Frame>)
      modifies this`recvFrame, this`recvChecksum
      ensures receipt == Parsed(p)
      ensures recvFrame == if receipt.Got? then receipt.value else old(recvFrame)
    {
      if |p| < CHECKSUM_SIZE {
        return Overrun;
      }
      recvChecksum := FieldAt(p, |p| - CHECKSUM_SIZE, CHECKSUM_SIZE);
      var computed := Compute(p[..|p| - CHECKSUM_SIZE]);
      if computed != recvChecksum {
        return Rejected;
      }
      if |p| < LINK_HEADER {
        return Overrun;
      }
      var size := FieldAt(p, 2, 8);
      if size > |p| - LINK_HEADER {
        return Overrun;
      }
      recvFrame := Frame(FieldAt(p, 0, 2), p[LINK_HEADER..LINK_HEADER + size]);
      return Got(recvFrame);
    }

    /** The loop that waits for a packet whose checksum is right. It discards all before it. */
    method InternalRecv(max: nat, arrivals: seq<seq<byte>>) returns (receipt: Receipt<Frame>, taken: nat)
      modifies this`recvFrame, this`recvChecksum
      ensures taken <= |arrivals|
      ensures if receipt.Rejected? then taken == |arrivals| && Accepted(max, arrivals) == []
              else Accepted(max, arrivals) == [receipt] + Accepted(max, arrivals[taken..])
      ensures receipt.Got? ==> recvFrame == receipt.value
    {
      receipt, taken := Rejected, 0;
      assert arrivals[0..] == arrivals;
      while receipt.Rejected? && taken < |arrivals|
        invariant taken <= |arrivals|
        invariant if receipt.Rejected? then Accepted(max, arrivals) == Accepted(max, arrivals[taken..])
                  else Accepted(max, arrivals) == [receipt] + Accepted(max, arrivals[taken..])
        invariant receipt.Got? ==> recvFrame == receipt.value
        decreases |arrivals| - taken
      {
        AcceptedStep(max, arrivals, taken);
        receipt := GetRecvFrame(Heard(max, arrivals[taken]));
        taken := taken + 1;
      }
    }
  }

  lemma {:induction false} AcceptedStep(max: nat, arrivals: seq<seq<byte>>, i: nat)
    requires i < |arrivals|
    ensures var r := Parsed(Heard(max, arrivals[i]));
            Accepted(max, arrivals[i..])
            == (if r.Rejected? then Accepted(max, arrivals[i + 1..]) else [r] + Accepted(max, arrivals[i + 1..]))
  {
    assert arrivals[i..][1..] == arrivals[i + 1..];
  }

  // ---- Round trip ----

  /** What is made of a packet that starts with these two fields. */
  lemma {:induction false} ParsedFields(dest: nat, size: nat, rest: seq<byte>)
    requires dest < Values(2) && size < Values(8)
    ensures var p := Le(dest, 2) + Le(size, 8) + rest;
            Intact(p) ==> Parsed(p) == if size > |rest| then Overrun else Got(Frame(dest, rest[..size]))
  {
    hide Le, FromLe, Values, ChecksumOf;
    var p := Le(dest, 2) + Le(size, 8) + rest;
    FieldPlaced([], dest, 2, Le(size, 8) + rest);
    assert p == [] + Le(dest, 2) + (Le(size, 8) + rest);
    FieldPlaced(Le(dest, 2), size, 8, rest);
    if size <= |rest| {
      assert p[LINK_HEADER..LINK_HEADER + size] == rest[..size];
    }
  }

  lemma FrameRoundTrip(f: Frame)
    requires IsFrame(f)
    ensures Parsed(FrameBytes(f)) == Got(f)
  {
    SealedIsIntact(FrameBody(f));
    var rest := f.data + Le(ChecksumOf(FrameBody(f)), CHECKSUM_SIZE);
    ParsedFields(f.dest, |f.data|, rest);
    assert FrameBytes(f) == Le(f.dest, 2) + Le(|f.data|, 8) + rest;
  }

  /** The receive buffer can hold the frame with its header and checksum. */
  predicate FitsBuffer(max: nat, f: Frame) {
    |f.data| + FRAME_OVERHEAD <= max
  }

  /** An undamaged frame is received as it was sent exactly when it fits into the receive buffer, or
      is at most two bytes too long and what is left of it passes the comparison. It is never taken for
      another. */
  lemma ReceivedExactly(max: nat, f: Frame)
    requires IsFrame(f)
    ensures Parsed(Heard(max, FrameBytes(f))) == Got(f)
            <==> FitsBuffer(max, f) || (|f.data| + LINK_HEADER <= max && Intact(FrameBytes(f)[..max]))
    ensures Parsed(Heard(max, FrameBytes(f))).Got? ==> Parsed(Heard(max, FrameBytes(f))) == Got(f)
  {
    FrameRoundTrip(f);
    var p := FrameBytes(f);
    if LINK_HEADER <= max < |p| {
      var rest := (f.data + Le(ChecksumOf(FrameBody(f)), CHECKSUM_SIZE))[..max - LINK_HEADER];
      ParsedFields(f.dest, |f.data|, rest);
      assert p[..max] == Le(f.dest, 2) + Le(|f.data|, 8) + rest;
      if |f.data| <= |rest| {
        assert rest[..|f.data|] == f.data;
      }
    }
  }

  // ---- The garbler never forges ----

  /** A frame that the checksum can protect. */
  predicate IsProtected(f: Frame) {
    IsFrame(f) && |f.data| + LINK_HEADER <= MAX_SUMMED
  }

  predicate IsSafe(max: nat, f: Frame) {
    IsProtected(f) && FitsBuffer(max, f)
  }

  lemma DamageIsSeen(max: nat, f: Frame, i: nat, b: byte)
    requires IsSafe(max, f) && i < |FrameBytes(f)|
    ensures Parsed(Heard(max, FrameBytes(f)[i := b])) == if b == FrameBytes(f)[i] then Got(f) else Rejected
  {
    if b == FrameBytes(f)[i] {
      assert FrameBytes(f)[i := b] == FrameBytes(f);
      FrameRoundTrip(f);
    } else {
      OneByteBreaks(FrameBody(f), i, b);
    }
  }

  /** What is received of one frame: nothing if it was lost or changed, otherwise the frame, twice
      if it was duplicated. */
  lemma {:induction false} GarbledFrameExactly(max: nat, n: Noise, first: nat, second: nat, f: Frame)
    requires IsSafe(max, f)
    ensures var v, p := first % 100, FrameBytes(f);
            var changed := p[second % |p|] != second % 256;
            Accepted(max, Garbled(n, first, second, p))
            == if v < n.loss || (v < n.loss + n.corruption && changed) then []
               else if n.loss + n.corruption <= v < n.loss + n.corruption + n.duplication then [Got(f), Got(f)]
               else [Got(f)]
  {
    var p := FrameBytes(f);
    var i := second % |p|;
    DamageIsSeen(max, f, i, second % 256);
    DamageIsSeen(max, f, 0, p[0]);
    assert p[0 := p[0]] == p;
    AcceptedOne(max, p);
    AcceptedOne(max, p[i := second % 256]);
    assert [p, p][1..] == [p];
  }

  lemma {:induction false} AcceptedOne(max: nat, p: seq<byte>)
    ensures var r := Parsed(Heard(max, p)); Accepted(max, [p]) == if r.Rejected? then [] else [r]
  {
  }

  /** A frame given to the garbler, with the random numbers drawn for it. */
  datatype Sending = Sending(frame: Frame, noise: Noise, first: nat, second: nat)

  predicate LeftAs(s: Sending, p: seq<byte>) {
    p in Garbled(s.noise, s.first, s.second, FrameBytes(s.frame))
  }

  predicate FromSendings(sendings: seq<Sending>, p: seq<byte>) {
    exists s | s in sendings :: LeftAs(s, p)
  }

  predicate WasSent(sendings: seq<Sending>, r: Receipt<Frame>) {
    exists s | s in sendings :: r == Got(s.frame)
  }

  /** The draw corrupts the packet. */
  predicate IsDamaged(s: Sending) {
    s.noise.loss <= s.first % 100 < s.noise.loss + s.noise.corruption
  }

  /** The receipt is the frame that was sent, or else that frame does not fit into the receive buffer
      and the code read too far, or the packet was damaged besides. */
  predicate ComesOf(max: nat, s: Sending, r: Receipt<Frame>) {
    r == Got(s.frame) || (!FitsBuffer(max, s.frame) && (r.Overrun? || IsDamaged(s)))
  }

  /** Whatever packets of whatever sendings arrive, in whatever order and however often, every
      receipt comes of one of them. */
  lemma {:induction false} OnlyHonest(max: nat, sendings: seq<Sending>, arrivals: seq<seq<byte>>)
    requires forall s | s in sendings :: IsProtected(s.frame)
    requires forall p | p in arrivals :: FromSendings(sendings, p)
    ensures forall r | r in Accepted(max, arrivals) :: exists s | s in sendings :: ComesOf(max, s, r)
  {
    hide Parsed, Heard, FrameBytes, Garbled;
    if arrivals != [] {
      OnlyHonest(max, sendings, arrivals[1..]);
      var p := arrivals[0];
      assert p in arrivals;
      var s :| s in sendings && LeftAs(s, p);
      var i, b := DiffersInOneByte(s.noise, s.first, s.second, FrameBytes(s.frame), p);
      if FitsBuffer(max, s.frame) {
        DamageIsSeen(max, s.frame, i, b);
      } else if b == FrameBytes(s.frame)[i] {
        assert p == FrameBytes(s.frame);
        ReceivedExactly(max, s.frame);
      } else {
        assert IsDamaged(s);
      }
    }
  }

  /** So no frame is ever forged while all frames fit the buffer, or no longer one is damaged. */
  lemma {:induction false} NeverForged(max: nat, sendings: seq<Sending>, arrivals: seq<seq<byte>>)
    requires forall s | s in sendings :: IsProtected(s.frame)
    requires forall p | p in arrivals :: FromSendings(sendings, p)
    ensures (forall s | s in sendings :: FitsBuffer(max, s.frame)) ==>
              forall r | r in Accepted(max, arrivals) :: WasSent(sendings, r)
    ensures (forall s | s in sendings :: FitsBuffer(max, s.frame) || !IsDamaged(s)) ==>
              forall r | r in Accepted(max, arrivals) && r.Got? :: WasSent(sendings, r)
  {
    OnlyHonest(max, sendings, arrivals);
    forall r | r in Accepted(max, arrivals)
      ensures exists s | s in sendings :: ComesOf(max, s, r)
    {
    }
  }

  // ---- Frames that the buffer cuts off ----

  /** No change of a single byte makes the frame pass for another. */
  ghost predicate Withstands(max: nat, f: Frame) {
    forall i, b: byte | 0 <= i < |FrameBytes(f)| :: WithstandsAt(max, f, i, b)
  }

  predicate WithstandsAt(max: nat, f: Frame, i: nat, b: byte)
    requires i < |FrameBytes(f)|
  {
    var r := Parsed(Heard(max, FrameBytes(f)[i := b]));
    r.Got? ==> r.value == f
  }

  /** One byte of a size field can be changed so that the size drops by at least as much as asked. */
  lemma {:induction false} Shorter(n: nat, width: nat, drop: nat) returns (k: nat, b: byte, m: nat)
    requires 0 < drop <= 256 && drop <= n < Values(width)
    ensures k < width && m + drop <= n && Le(n, width)[k := b] == Le(m, width)
    decreases width
  {
    hide Le;
    var low, high := n % 256, n / 256;
    LowDigit(high, low, width);
    if low >= drop {
      k, b, m := 0, low - drop, n - drop;
      LowDigit(high, b, width);
    } else {
      var rest;
      k, b, rest := Shorter(high, width - 1, 1);
      LowDigit(rest, low, width);
      assert ([low] + Le(high, width - 1))[k + 1 := b] == [low] + Le(high, width - 1)[k := b];
      k, m := k + 1, 256 * rest + low;
    }
  }

  lemma FieldReplaced(before: seq<byte>, field: seq<byte>, after: seq<byte>, k: nat, b: byte)
    requires k < |field|
    ensures (before + field + after)[|before| + k := b] == before + field[k := b] + after
  {
  }

  /** A frame that loses data besides its checksum carries another checksum in what is left of them,
      which is right for another size. */
  lemma ForgedBySize(max: nat, dest: nat, n: nat, k: nat, b: byte, m: nat) returns (f: Frame, g: Frame)
    requires dest < Values(2) && n < max < n + LINK_HEADER && FRAME_OVERHEAD <= n
    requires n < Values(8) && k < 8 && Le(n, 8)[k := b] == Le(m, 8) && m + LINK_HEADER <= max && m < n
    ensures f.dest == g.dest == dest && |f.data| == n && |g.data| == m
    ensures Parsed(Heard(max, FrameBytes(f)[2 + k := b])) == Got(g)
  {
    hide Le, ChecksumOf, Values, Intact, Parsed, Zeros;
    var header := Le(dest, 2) + Le(m, 8);
    var body := header + Zeros(max - FRAME_OVERHEAD);
    var rest := Zeros(max - FRAME_OVERHEAD) + Le(ChecksumOf(body), CHECKSUM_SIZE);
    f := Frame(dest, rest + Zeros(n + LINK_HEADER - max));
    g := Frame(dest, rest[..m]);
    SealedIsIntact(body);
    assert Sealed(body) == header + rest;
    var after := f.data + Le(ChecksumOf(FrameBody(f)), CHECKSUM_SIZE);
    assert FrameBytes(f) == Le(dest, 2) + Le(n, 8) + after;
    FieldReplaced(Le(dest, 2), Le(n, 8), after, k, b);
    assert after[..|rest|] == rest;
    assert (header + after)[..max] == header + rest;
    ParsedFields(dest, m, rest);
  }

  /** Lowering an even byte lowers the one's-complement sum by as much. */
  lemma {:induction false} SteeredApart(front: seq<byte>, n: nat, i: nat, b: byte)
    requires |front| + n < MAX_SUMMED && |front| % 2 == i % 2 == 0 && i < |front| && b + 1 == front[i]
    requires Folded(WordSum(front)) == 65279
    ensures ChecksumOf(front + Zeros(n)) == 256 && ChecksumOf(front[i := b] + Zeros(n + 1)) == 257
  {
    hide WordSum, Folded, ChecksumOf, Zeros;
    ZeroSum(n);
    ZeroSum(n + 1);
    SumOfParts(front, Zeros(n));
    SumOfParts(front[i := b], Zeros(n + 1));
    SumOfChange(front, i, b);
    ShortChecksum(front + Zeros(n));
    ShortChecksum(front[i := b] + Zeros(n + 1));
    FoldedBound(WordSum(front[i := b]));
    EndAroundFolds(1, WordSum(front[i := b]));
  }

  lemma FewBytes()
    ensures Le(256, 2) == [0, 1] && Le(257, 2) == [1, 1]
  {
    assert Le(1, 1) == [1] + Le(0, 0);
  }

  /** A frame that loses one byte of its checksum: the last byte of its data and the first of its
      checksum are right for other data. */
  lemma ForgedByHalf(max: nat, dest: nat, n: nat) returns (f: Frame, g: Frame)
    requires dest < Values(2) && max == n + LINK_HEADER + 1 && FRAME_OVERHEAD <= n < Values(8)
    requires n + LINK_HEADER <= MAX_SUMMED
    ensures f.dest == dest && |f.data| == n && f != g
    ensures Parsed(Heard(max, FrameBytes(f)[10 := 10])) == Got(g)
  {
    hide Le, ChecksumOf, Values, Intact, WordSum, Folded, Parsed;
    var header := Le(dest, 2) + Le(n, 8);
    var word := SteeredTo(header + [10, 0], 65279);
    var front, zeros := header + [10, 0] + word, Zeros(n - 5);
    SteeredApart(front, n - 5, 10, 9);
    FewBytes();
    f, g := Frame(dest, [9, 0] + word + Zeros(n - 4)), Frame(dest, [10, 0] + word + Zeros(n - 4));
    assert f.data[0] != g.data[0];
    assert FrameBody(f) == front[10 := 9] + Zeros(n - 4);
    var rest := g.data + [1];
    assert Sealed(front + zeros) == header + rest;
    SealedIsIntact(front + zeros);
    assert FrameBytes(f)[10 := 10][..max] == header + rest;
    ParsedFields(dest, n, rest);
    assert rest[..n] == g.data;
  }

  /** A frame that loses its checksum and no more: the last two bytes of its data are the checksum of
      other data. */
  lemma ForgedByEnd(max: nat, dest: nat, n: nat) returns (f: Frame, g: Frame)
    requires dest < Values(2) && max == n + LINK_HEADER && FRAME_OVERHEAD <= n < Values(8)
    ensures f.dest == dest && |f.data| == n && f != g
    ensures Parsed(Heard(max, FrameBytes(f)[10 := 10])) == Got(g)
  {
    hide Le, ChecksumOf, Values, Intact, Parsed, Zeros;
    var header := Le(dest, 2) + Le(n, 8);
    var body := header + ([10] + Zeros(n - 3));
    var rest := Zeros(n - 3) + Le(ChecksumOf(body), CHECKSUM_SIZE);
    f, g := Frame(dest, [9] + rest), Frame(dest, [10] + rest);
    assert f.data[0] != g.data[0];
    SealedIsIntact(body);
    assert Sealed(body) == header + g.data;
    var after := Le(ChecksumOf(FrameBody(f)), CHECKSUM_SIZE);
    assert FrameBytes(f) == header + f.data + after;
    FieldReplaced(header, f.data, after, 0, 10);
    assert f.data[0 := 10] == g.data;
    assert (header + g.data + after)[..max] == header + g.data;
    ParsedFields(dest, n, g.data);
    assert g.data[..n] == g.data;
  }

  lemma ForgedByData(max: nat, dest: nat, n: nat) returns (f: Frame, g: Frame)
    requires dest < Values(2) && n + LINK_HEADER <= max <= n + LINK_HEADER + 1 && FRAME_OVERHEAD <= n < Values(8)
    requires n + LINK_HEADER <= MAX_SUMMED
    ensures f.dest == dest && |f.data| == n && f != g
    ensures Parsed(Heard(max, FrameBytes(f)[10 := 10])) == Got(g)
  {
    hide Parsed, Heard, FrameBytes, Values;
    if max == n + LINK_HEADER {
      f, g := ForgedByEnd(max, dest, n);
    } else {
      f, g := ForgedByHalf(max, dest, n);
    }
  }

  /** The frames of a size withstand every change of one byte exactly when they fit into the receive
      buffer; of every larger size, for every destination, there is one that can be forged. A link takes
      fewer bytes than its own MTU, which is at most the length of the buffer, and all it is given start
      with the header of the network layer, which is longer than its own. */
  lemma {:induction false} WithstandsExactly(max: nat, dest: nat, n: nat)
    requires dest < Values(2) && FRAME_OVERHEAD <= n < max && n + LINK_HEADER <= MAX_SUMMED
    ensures (forall f: Frame | f.dest == dest && |f.data| == n :: Withstands(max, f)) <==> n + FRAME_OVERHEAD <= max
  {
    hide Parsed, Heard, FrameBytes, Le, Values;
    FieldWidths();
    if n + FRAME_OVERHEAD <= max {
      forall f: Frame, i, b: byte | f.dest == dest && |f.data| == n && 0 <= i < |FrameBytes(f)|
        ensures WithstandsAt(max, f, i, b)
      {
        DamageIsSeen(max, f, i, b);
      }
    } else {
      var f, g, i, b := Forged(max, dest, n);
      assert !WithstandsAt(max, f, i, b);
    }
  }

  lemma Forged(max: nat, dest: nat, n: nat) returns (f: Frame, g: Frame, i: nat, b: byte)
    requires dest < Values(2) && FRAME_OVERHEAD <= n < max < n + FRAME_OVERHEAD && n + LINK_HEADER <= MAX_SUMMED
    ensures f.dest == dest && |f.data| == n && f != g && i < |FrameBytes(f)|
    ensures Parsed(Heard(max, FrameBytes(f)[i := b])) == Got(g)
  {
    hide Parsed, Heard, Le, Values;
    FieldWidths();
    if n + LINK_HEADER <= max {
      f, g := ForgedByData(max, dest, n);
      i, b := 10, 10;
    } else {
      var k, m;
      k, b, m := Shorter(n, 8, LINK_HEADER);
      f, g := ForgedBySize(max, dest, n, k, b, m);
      i := 2 + k;
    }
  }

  lemma {:induction false} Overwritten(max: nat, second: nat, f: Frame, g: Frame)
    requires var p := FrameBytes(f); Parsed(Heard(max, p[second % |p| := second % 256])) == Got(g)
    ensures Accepted(max, Garbled(Noise(0, 100, 0), 0, second, FrameBytes(f))) == [Got(g)]
  {
    hide Parsed, Heard, FrameBytes;
    var p := FrameBytes(f);
    AcceptedOne(max, p[second % |p| := second % 256]);
  }

  /** What the size field says once the garbler has overwritten a byte of it. */
  function GarbledSize(n: nat, second: nat): nat {
    var i := second % (n + FRAME_OVERHEAD);
    if 2 <= i < LINK_HEADER then FromLe(Le(n, 8)[i - 2 := second % 256]) else n
  }

  lemma {:induction false} GarbledSizeIs(max: nat, f: Frame, second: nat)
    requires IsFrame(f) && LINK_HEADER <= max < |FrameBytes(f)|
    ensures var p := FrameBytes(f);
            FieldAt(p[second % |p| := second % 256][..max], 2, 8) == GarbledSize(|f.data|, second)
  {
    hide Le, FromLe, ChecksumOf;
    var p, i, b := FrameBytes(f), second % (|f.data| + FRAME_OVERHEAD), second % 256;
    assert p[2..10] == Le(|f.data|, 8);
    if 2 <= i < LINK_HEADER {
      assert p[i := b][..max][2..10] == Le(|f.data|, 8)[i - 2 := b];
    } else {
      assert p[i := b][..max][2..10] == p[2..10];
      LeRoundTrip(|f.data|, 8);
    }
  }

  /** Whatever is drawn, the size stays too large for what the buffer holds of the data. */
  ghost predicate StaysTooLong(max: nat, n: nat) {
    forall second :: max < GarbledSize(n, second) + LINK_HEADER
  }

  predicate Unforged(max: nat, f: Frame, n: Noise, first: nat, second: nat) {
    forall r | r in Accepted(max, Garbled(n, first, second, FrameBytes(f))) && r.Got? :: r.value == f
  }

  /** The garbler ties the new value of a byte to its place, and so cannot make every change of one
      byte. No draw of it forges any frame of a size exactly when they fit, or lose data besides their
      checksums and no draw makes the size small enough for what is left. */
  lemma {:induction false} NoDrawForgesExactly(max: nat, dest: nat, n: nat)
    requires dest < Values(2) && FRAME_OVERHEAD <= n < max && n + LINK_HEADER <= MAX_SUMMED
    ensures (forall f: Frame, noise, first, second | f.dest == dest && |f.data| == n ::
               Unforged(max, f, noise, first, second))
            <==> n + FRAME_OVERHEAD <= max || (max < n + LINK_HEADER && StaysTooLong(max, n))
  {
    hide Parsed, Heard, FrameBytes, Accepted, Garbled, GarbledSize, Values;
    FieldWidths();
    if n + FRAME_OVERHEAD <= max || (max < n + LINK_HEADER && StaysTooLong(max, n)) {
      forall f: Frame, noise, first, second | f.dest == dest && |f.data| == n
        ensures Unforged(max, f, noise, first, second)
      {
        NoDrawForges(max, f, noise, first, second);
      }
    } else {
      var f, second := SomeDrawForges(max, dest, n);
      assert !Unforged(max, f, Noise(0, 100, 0), 0, second);
    }
  }

  lemma {:induction false} NoDrawForges(max: nat, f: Frame, noise: Noise, first: nat, second: nat)
    requires IsProtected(f) && LINK_HEADER <= max
    requires FitsBuffer(max, f)
             || (max < |f.data| + LINK_HEADER && max < GarbledSize(|f.data|, second) + LINK_HEADER)
    ensures Unforged(max, f, noise, first, second)
  {
    hide FrameBytes, Intact, GarbledSize, FromLe;
    var p := FrameBytes(f);
    var q := p[second % |p| := second % 256];
    AcceptedOne(max, p);
    AcceptedOne(max, q);
    assert [p, p][1..] == [p];
    ReceivedExactly(max, f);
    if FitsBuffer(max, f) {
      DamageIsSeen(max, f, second % |p|, second % 256);
    } else {
      GarbledSizeIs(max, f, second);
      assert Heard(max, q) == q[..max];
    }
  }

  lemma {:induction false} SizeDrawForges(max: nat, dest: nat, n: nat, second: nat) returns (f: Frame, g: Frame)
    requires dest < Values(2) && FRAME_OVERHEAD <= n < max < n + LINK_HEADER && n < Values(8)
    requires GarbledSize(n, second) + LINK_HEADER <= max
    ensures f.dest == dest && |f.data| == n && f != g
    ensures var p := FrameBytes(f); Parsed(Heard(max, p[second % |p| := second % 256])) == Got(g)
  {
    hide Parsed, Heard, Values, Le, FromLe, FrameBytes;
    var k, b, m := second % (n + FRAME_OVERHEAD) - 2, second % 256, GarbledSize(n, second);
    FieldHolds(Le(n, 8)[k := b]);
    f, g := ForgedBySize(max, dest, n, k, b, m);
  }

  lemma {:induction false} SomeDrawForges(max: nat, dest: nat, n: nat) returns (f: Frame, second: nat)
    requires dest < Values(2) && FRAME_OVERHEAD <= n < max < n + FRAME_OVERHEAD && n + LINK_HEADER <= MAX_SUMMED
    requires n + LINK_HEADER <= max || !StaysTooLong(max, n)
    ensures f.dest == dest && |f.data| == n && !Unforged(max, f, Noise(0, 100, 0), 0, second)
  {
    hide Parsed, Heard, Values, Accepted, Garbled, FrameBytes, GarbledSize, Unforged;
    FieldWidths();
    var g;
    if n + LINK_HEADER <= max {
      second := 10;
      f, g := ForgedByData(max, dest, n);
      assert second % |FrameBytes(f)| == second % 256 == 10;
    } else {
      second :| GarbledSize(n, second) + LINK_HEADER <= max;
      f, g := SizeDrawForges(max, dest, n, second);
    }
    Overwritten(max, second, f, g);
    NotUnforged(max, second, f, g);
  }

  lemma {:induction false} NotUnforged(max: nat, second: nat, f: Frame, g: Frame)
    requires f != g && Accepted(max, Garbled(Noise(0, 100, 0), 0, second, FrameBytes(f))) == [Got(g)]
    ensures !Unforged(max, f, Noise(0, 100, 0), 0, second)
  {
    hide Accepted, Garbled, FrameBytes;
    assert Got(g) in Accepted(max, Garbled(Noise(0, 100, 0), 0, second, FrameBytes(f)));
  }

  /** So a datagram of 2995 bytes that host 3 sends to host 5 over the link with the MTU of 3000 in the
      topology the program comes with. */
  lemma LongFrameForged() returns (f: Frame, g: Frame)
    ensures f.dest == 5 && |f.data| == 2995 && f != g
    ensures Accepted(3000, Garbled(Noise(0, 100, 0), 0, 2, FrameBytes(f))) == [Got(g)]
  {
    hide Parsed, Heard, Values, Le, Accepted, Garbled, FrameBytes;
    FieldWidths();
    LowDigit(11, 179, 8);
    LowDigit(11, 2, 8);
    f, g := ForgedBySize(3000, 5, 2995, 0, 2, 2818);
    Overwritten(3000, 2, f, g);
  }
}
