/** One direction of an established connection as a state machine: sender, receiver, and a
    network that loses, duplicates and reorders. A corrupted packet is a lost one (module Link).

    Only wire values decide what a step does. The machine also remembers what the proofs speak
    about: the segments cut so far with their absolute positions (`cut`), how many the window has
    slid over (`retired`), how many the receiver has appended in order (`taken`), and which cut
    each packet belongs to. Cut 0 stands for the handshake: it is empty and already taken. */
module SlidingWindow {
  import opened Bytes
  import opened SequenceSpace
  import opened AckList
  import opened SegmentList
  import opened Sender
  import opened Receiver

  const MAX_WINDOW: nat := 65535

  datatype Sent = Sent(pos: nat, data: seq<byte>)

  datatype Packet =
    | DataPacket(segment: Segment, source: nat)
    | AckPacket(num: nat, source: nat)

  datatype System = System(
    accepted: seq<byte>,
    snd: SendState,
    cut: seq<Sent>,
    retired: nat,
    live: set<nat>,
    rcv: RecvState,
    delivered: seq<byte>,
    taken: nat,
    net: set<Packet>)

  datatype Action =
    | Accept(message: seq<byte>)
    | CutSegment
    | Slide
    | Transmit(i: nat)
    | Stop(i: nat)
    | DeliverData(segment: Segment, source: nat)
    | DeliverAck(num: nat, source: nat)
    | Take(size: nat)

  function End(c: Sent): nat {
    c.pos + |c.data|
  }

  function Wire(c: Sent): Segment {
    Segment(SeqOf(c.pos), c.data)
  }

  function Wires(cut: seq<Sent>): (r: seq<Segment>)
    ensures |r| == |cut|
    ensures forall i {:trigger r[i]} | 0 <= i < |cut| :: r[i] == Wire(cut[i])
  {
    seq(|cut|, i requires 0 <= i < |cut| => Wire(cut[i]))
  }

  function Stream(cut: seq<Sent>): seq<byte> {
    Payload(Wires(cut))
  }

  /** The position of the next byte to be cut, and of the next byte the receiver expects. */
  function SendPos(s: System): nat
    requires s.cut != []
  {
    End(s.cut[|s.cut| - 1])
  }

  function RecvPos(s: System): nat
    requires 1 <= s.taken <= |s.cut|
  {
    End(s.cut[s.taken - 1])
  }

  /** The position of the oldest byte the sender still keeps an acknowledgment entry for. */
  function BasePos(s: System): nat
    requires s.cut != [] && s.retired <= |s.cut|
  {
    if s.retired < |s.cut| then s.cut[s.retired].pos else SendPos(s)
  }

  /** A copy of a segment that was taken before does not carry a number which the receiver would
      now take for a new one. */
  predicate FreshData(s: System, i: nat)
    requires i < |s.cut| && Numbered(s.rcv, s.rcv.next)
  {
    i < s.taken ==> Ahead(s.rcv.next, SeqOf(s.cut[i].pos)) > Ahead(s.rcv.next, s.rcv.end)
  }

  /** An acknowledgment of a segment that was released before does not name an entry listed now. */
  predicate FreshAck(s: System, i: nat)
    requires i < |s.cut|
  {
    i < s.retired ==> AckList.IndexOf(s.snd.acks, SeqOf(End(s.cut[i]))) == |s.snd.acks|
  }

  // ---- Steps ----

  /** Under modular arithmetic, in which numbers come round, no packet arrives whose number has come
      round into the window again. The code is given no such help. */
  predicate Enabled(mode: Arithmetic, s: System, a: Action) {
    && 1 <= s.taken <= |s.cut| && s.rcv.window <= MAX_WINDOW
    && match a
       case Accept(message) => s.snd.pending == [] && !s.snd.waiting
       case CutSegment => CanCut(s.snd)
       case Slide => s.snd.waiting && Accounted(s.snd)
       case Transmit(i) => i in s.live && i < |s.cut|
       case Stop(i) => i in s.live && i < |s.cut|
       case DeliverData(segment, i) =>
         && DataPacket(segment, i) in s.net && i < |s.cut| && Numbered(s.rcv, segment.num)
         && (mode.Modular? ==> FreshData(s, i))
       case DeliverAck(num, i) =>
         AckPacket(num, i) in s.net && i < |s.cut| && (mode.Modular? ==> FreshAck(s, i))
       case Take(size) => true
  }

  function Accepted(s: System, message: seq<byte>): System {
    var taken := message[..Min(|message|, MAX_MESSAGE)];
    s.(accepted := s.accepted + taken, snd := s.snd.(pending := taken))
  }

  function AfterCut(mode: Arithmetic, s: System): System
    requires CanCut(s.snd) && s.cut != []
  {
    var (snd, segment) := Cut(mode, s.snd);
    s.(snd := snd,
       cut := s.cut + [Sent(SendPos(s), segment.data)],
       live := s.live + {|s.cut|},
       net := s.net + {DataPacket(segment, |s.cut|)})
  }

  function AfterSlide(s: System): System
    requires s.snd.waiting && Accounted(s.snd)
  {
    s.(snd := Slid(s.snd), retired := s.retired + Leading(s.snd.acks))
  }

  /** A retransmitter repeats its segment, which it holds as it was cut. */
  function AfterTransmit(s: System, i: nat): System
    requires i < |s.cut|
  {
    s.(net := s.net + {DataPacket(Wire(s.cut[i]), i)})
  }

  /** A retransmitter ends if the list says that its segment is acknowledged. */
  function AfterStop(mode: Arithmetic, s: System, i: nat): System
    requires i < |s.cut|
  {
    var key := LookupKey(mode, Wire(s.cut[i]).num, |s.cut[i].data|);
    if FlagOf(s.snd.acks, key) then s.(live := s.live - {i}) else s
  }

  function AfterData(mode: Arithmetic, s: System, segment: Segment, i: nat): System
    requires Numbered(s.rcv, segment.num)
  {
    var (rcv, reply) := Received(mode, s.rcv, segment);
    var appended := |rcv.buffers.ready| - |s.rcv.buffers.ready|;
    s.(rcv := rcv,
       taken := if appended > 0 then s.taken + appended else s.taken,
       net := if reply.Ack? then s.net + {AckPacket(reply.num, i)} else s.net)
  }

  function AfterAck(s: System, num: nat): System {
    s.(snd := s.snd.(acks := Marked(s.snd.acks, num)))
  }

  function AfterTake(s: System, size: nat): System {
    var (out, rest) := Split(s.rcv.buffers.ready, size);
    s.(delivered := s.delivered + out, rcv := s.rcv.(buffers := s.rcv.buffers.(ready := rest)))
  }

  function Apply(mode: Arithmetic, s: System, a: Action): System
    requires Enabled(mode, s, a)
  {
    match a
    case Accept(message) => Accepted(s, message)
    case CutSegment => AfterCut(mode, s)
    case Slide => AfterSlide(s)
    case Transmit(i) => AfterTransmit(s, i)
    case Stop(i) => AfterStop(mode, s, i)
    case DeliverData(segment, i) => AfterData(mode, s, segment, i)
    case DeliverAck(num, i) => AfterAck(s, num)
    case Take(size) => AfterTake(s, size)
  }

  /** The window a connection may start with. Its back edge lies up to two numbers too far and
      its front edge up to one short, as the handshake leaves them. */
  predicate Around(r: RecvState) {
    && Numbered(r, r.next) && 1 <= r.window <= MAX_WINDOW
    && r.window <= Ahead(r.prev, r.next) <= r.window + 2
    && r.window - 1 <= Ahead(r.next, r.end) <= r.window
  }

  /** The handshake leaves one entry, of no bytes, which may or may not be acknowledged yet. */
  predicate IsHandshakeEntry(acks: seq<AckEntry>, num: nat) {
    |acks| == 1 && acks[0].num == num && acks[0].size == 0
  }

  predicate Init(s: System) {
    && |s.cut| == 1 && s.cut[0].data == [] && s.taken == 1 && s.retired == 0 && s.live == {}
    && s.accepted == [] && s.delivered == []
    && s.snd == Opened(s.rcv.window, SeqOf(s.cut[0].pos), s.snd.acks)
    && IsHandshakeEntry(s.snd.acks, SeqOf(s.cut[0].pos))
    && s.rcv.next == SeqOf(s.cut[0].pos) && Around(s.rcv) && s.rcv.buffers == Buffers([], [])
    && s.net <= {AckPacket(SeqOf(s.cut[0].pos), 0)}
  }

  // ---- The invariant ----

  predicate Follows(cut: seq<Sent>, i: nat)
    requires 0 < i < |cut|
  {
    cut[i].data != [] && cut[i].pos == End(cut[i - 1])
  }

  predicate CutOk(cut: seq<Sent>) {
    && cut != [] && cut[0].data == []
    && forall i | 0 < i < |cut| :: Follows(cut, i)
  }

  /** The acknowledgment entries are those of the cuts from `retired` on. */
  predicate EntriesOk(acks: seq<AckEntry>, cut: seq<Sent>, retired: nat) {
    && retired + |acks| == |cut|
    && forall j | 0 <= j < |acks| :: EntryOf(acks[j], cut[retired + j])
  }

  predicate EntryOf(entry: AckEntry, c: Sent) {
    entry.num == SeqOf(End(c)) && entry.size == |c.data|
  }

  predicate SenderOk(snd: SendState, cut: seq<Sent>, retired: nat) {
    && CutOk(cut)
    && Accounted(snd)
    && EntriesOk(snd.acks, cut, retired)
    && snd.seqNum == SeqOf(End(cut[|cut| - 1]))
  }

  predicate IsCut(cut: seq<Sent>, low: nat, segment: Segment) {
    exists i :: low <= i < |cut| && segment == Wire(cut[i])
  }

  /** Every early segment is a cut at or after the `low`-th, and no two share a number. */
  predicate FromCuts(cut: seq<Sent>, early: seq<Segment>, low: nat) {
    && (forall k | 0 <= k < |early| :: IsCut(cut, low, early[k]))
    && (forall j, k | 0 <= j < k < |early| :: early[j].num != early[k].num)
  }

  predicate ReceiverOk(rcv: RecvState, cut: seq<Sent>, taken: nat) {
    && 1 <= taken <= |cut|
    && rcv.next == SeqOf(End(cut[taken - 1]))
    && Around(rcv)
    && FromCuts(cut, rcv.buffers.early, taken + 1)
  }

  /** The receiver has the bytes of cut `i`, in the stream already or among the early segments. */
  predicate Held(cut: seq<Sent>, taken: nat, early: seq<Segment>, i: nat)
    requires i < |cut|
  {
    i < taken || Wire(cut[i]) in early
  }

  /** What an acknowledgment entry says is true. */
  predicate FlagsOk(acks: seq<AckEntry>, retired: nat, cut: seq<Sent>, taken: nat, early: seq<Segment>) {
    && retired + |acks| == |cut|
    && forall j | 0 <= j < |acks| && acks[j].flag :: Held(cut, taken, early, retired + j)
  }

  /** A segment without a retransmitter has been acknowledged. */
  predicate LiveOk(live: set<nat>, acks: seq<AckEntry>, retired: nat, cut: seq<Sent>) {
    && retired + |acks| == |cut|
    && (forall i | i in live :: 1 <= i < |cut|)
    && (forall i | 1 <= i < |cut| :: i in live || Acknowledged(acks, retired, i))
  }

  /** Cut `i` has been released, or its entry is flagged. */
  predicate Acknowledged(acks: seq<AckEntry>, retired: nat, i: nat)
    requires i < retired + |acks|
  {
    i < retired || acks[i - retired].flag
  }

  predicate PacketOk(p: Packet, cut: seq<Sent>, taken: nat, early: seq<Segment>) {
    && p.source < |cut|
    && match p
       case DataPacket(segment, i) => 1 <= i && segment == Wire(cut[i])
       case AckPacket(num, i) => num == SeqOf(End(cut[i])) && Held(cut, taken, early, i)
  }

  predicate NetOk(net: set<Packet>, cut: seq<Sent>, taken: nat, early: seq<Segment>) {
    forall p | p in net :: PacketOk(p, cut, taken, early)
  }

  predicate Knows(s: System) {
    && FlagsOk(s.snd.acks, s.retired, s.cut, s.taken, s.rcv.buffers.early)
    && LiveOk(s.live, s.snd.acks, s.retired, s.cut)
    && NetOk(s.net, s.cut, s.taken, s.rcv.buffers.early)
  }

  predicate StreamsOk(s: System)
    requires s.taken <= |s.cut|
  {
    && s.accepted == Stream(s.cut) + s.snd.pending
    && s.delivered + Payload(s.rcv.buffers.ready) == Stream(s.cut[..s.taken])
  }

  /** The part of the invariant that fixes who stands where. */
  predicate Placed(s: System) {
    && SenderOk(s.snd, s.cut, s.retired)
    && ReceiverOk(s.rcv, s.cut, s.taken)
    && s.snd.window == s.rcv.window
    && s.retired <= s.taken
  }

  predicate Inv(s: System) {
    && Placed(s)
    && StreamsOk(s)
    && Knows(s)
  }

  // ---- Positions ----

  lemma {:induction false} CutsRise(cut: seq<Sent>, i: nat, j: nat)
    requires CutOk(cut) && i <= j < |cut|
    ensures cut[i].pos <= cut[j].pos && End(cut[i]) <= End(cut[j])
    ensures i < j ==> End(cut[i]) <= cut[j].pos && End(cut[i]) < End(cut[j])
    ensures 0 < i < j ==> cut[i].pos < cut[j].pos
    decreases j
  {
    if i < j {
      assert Follows(cut, j);
      CutsRise(cut, i, j - 1);
      if 0 < i { assert Follows(cut, i); }
    }
  }

  /** Cuts less than one turn of the circle apart have different numbers. */
  lemma NumbersApart(cut: seq<Sent>, i: nat, j: nat)
    requires CutOk(cut) && 1 <= i < |cut| && 1 <= j < |cut|
    requires cut[i].pos < cut[j].pos + MAX_SEQ_NUM && cut[j].pos < cut[i].pos + MAX_SEQ_NUM
    requires SeqOf(cut[i].pos) == SeqOf(cut[j].pos)
    ensures i == j
  {
    SeqOfInjective(cut[i].pos, cut[j].pos);
    if i < j {
      CutsRise(cut, i, j);
    } else if j < i {
      CutsRise(cut, j, i);
    }
  }

  lemma EndsApart(cut: seq<Sent>, i: nat, j: nat)
    requires CutOk(cut) && i < |cut| && j < |cut|
    requires End(cut[i]) < End(cut[j]) + MAX_SEQ_NUM && End(cut[j]) < End(cut[i]) + MAX_SEQ_NUM
    requires SeqOf(End(cut[i])) == SeqOf(End(cut[j]))
    ensures i == j
  {
    SeqOfInjective(End(cut[i]), End(cut[j]));
    if i < j {
      CutsRise(cut, i, j);
    } else if j < i {
      CutsRise(cut, j, i);
    }
  }

  /** The entries from cut `low` on stand for exactly the bytes from there to the end. */
  lemma {:induction false} EntriesSpan(cut: seq<Sent>, acks: seq<AckEntry>, low: nat)
    requires CutOk(cut) && EntriesOk(acks, cut, low)
    ensures TotalSize(acks)
            == End(cut[|cut| - 1]) - (if acks == [] then End(cut[|cut| - 1]) else cut[low].pos)
    decreases |acks|
  {
    if acks != [] {
      var n := |cut| - 1;
      assert EntryOf(acks[|acks| - 1], cut[low + (|acks| - 1)]);
      if |acks| > 1 {
        assert Follows(cut, n);
        forall i | 0 < i < n ensures Follows(cut[..n], i) { assert Follows(cut, i); }
        var front := acks[..|acks| - 1];
        forall j | 0 <= j < |front| ensures EntryOf(front[j], cut[..n][low + j]) {
          assert EntryOf(acks[j], cut[low + j]);
        }
        EntriesSpan(cut[..n], front, low);
      } else {
        assert TotalSize(acks[..0]) == 0;
      }
    }
  }

  /** Window sandwich: what the sender has released, the receiver has; what the receiver has was
      sent; and no more than a window is outstanding. */
  lemma Sandwich(s: System)
    requires Placed(s)
    ensures BasePos(s) <= RecvPos(s) <= SendPos(s) <= BasePos(s) + s.snd.window
    ensures SendPos(s) == BasePos(s) + TotalSize(s.snd.acks)
  {
    EntriesSpan(s.cut, s.snd.acks, s.retired);
    CutsRise(s.cut, s.taken - 1, |s.cut| - 1);
    if s.retired < s.taken {
      CutsRise(s.cut, s.retired, s.taken - 1);
    } else if s.retired < |s.cut| {
      assert Follows(s.cut, s.retired);
    }
  }

  lemma StreamSplit(cut: seq<Sent>, k: nat)
    requires k <= |cut|
    ensures Stream(cut) == Stream(cut[..k]) + Stream(cut[k..])
  {
    PayloadConcat(Wires(cut[..k]), Wires(cut[k..]));
    assert Wires(cut) == Wires(cut[..k]) + Wires(cut[k..]);
  }

  lemma StreamAppend(cut: seq<Sent>, c: Sent)
    ensures Stream(cut + [c]) == Stream(cut) + c.data
  {
    assert Wires(cut + [c])[..|cut|] == Wires(cut);
  }
}
