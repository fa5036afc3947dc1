/** How far the code can be trusted: exactly as long as no segment ends at the number 2^32 - 1 or
    beyond. And why the modular machine, which goes on beyond, needs its proviso about old packets. */
module CodeLimits {
  import opened Bytes
  import opened SequenceSpace
  import AckList
  import opened SegmentList
  import opened Sender
  import opened Receiver
  import opened SlidingWindow
  import opened SlidingWindowSafety
  import opened WrappingRuns
  import opened SlidingWindowProgress

  // ---- Bringing a stream to a position ----

  function Zeros(n: nat): (r: seq<byte>)
    ensures |r| == n
  {
    if n == 0 then [] else [0] + Zeros(n - 1)
  }

  /** A stuck sender waits only once it has accepted a window of bytes. */
  lemma StuckAndWaiting(s: System)
    requires Inv(s) && !HandshakeAcked(s) && s.snd.waiting
    ensures |s.accepted| >= s.rcv.window
  {
    Sandwich(s);
    AcceptPosIs(s);
  }

  lemma HasCut(s: System)
    requires Inv(s)
    ensures s.cut != []
  {
  }

  lemma AcceptOne(mode: Arithmetic, s: System, message: seq<byte>) returns (t: System)
    requires Inv(s) && s.snd.pending == [] && !s.snd.waiting && |message| <= MAX_MESSAGE
    ensures Reaches(mode, s, t) && Inv(t) && t == s.(accepted := t.accepted, snd := t.snd)
    ensures AcceptPos(t) == AcceptPos(s) + |message| && |t.accepted| == |s.accepted| + |message|
    ensures t.snd == s.snd.(pending := message)
  {
    hide Run;
    t := Accepted(s, message);
    assert message[..|message|] == message;
    StepReaches(mode, s, Accept(message));
    AcceptKeeps(s, message);
  }

  /** A message accepted and cut to the end. */
  lemma SendMore(mode: Arithmetic, s: System, n: nat) returns (t: System)
    requires Inv(s) && s.snd.pending == [] && n <= MAX_MESSAGE
    requires mode.Wrapping? ==> AcceptPos(s) + n < MAX_SEQ_NUM
    requires HandshakeAcked(s) || (!s.snd.waiting && |s.accepted| + n <= s.rcv.window)
    ensures Reaches(mode, s, t) && Inv(t) && t.snd.pending == [] && AcceptPos(t) == AcceptPos(s) + n
    ensures t.cut[0] == s.cut[0] && t.rcv.window == s.rcv.window && (HandshakeAcked(s) ==> HandshakeAcked(t))
  {
    hide Run, Inv;
    HasCut(s);
    var u := WindowOpen(mode, s);
    var v := AcceptOne(mode, u, Zeros(n));
    ReachesOn(mode, s, u, v);
    t := CutAll(mode, v);
    ReachesOn(mode, s, v, t);
    ReachesGrows(mode, v, t);
  }

  /** The stream can be brought to any position, in the code to any below the modulus, as far as the
      sender gets. */
  lemma {:induction false} Fill(mode: Arithmetic, s: System, target: nat) returns (t: System)
    requires Inv(s) && s.snd.pending == [] && AcceptPos(s) <= target
    requires mode.Wrapping? ==> target < MAX_SEQ_NUM
    requires HandshakeAcked(s) || target <= s.cut[0].pos + s.rcv.window
    ensures Reaches(mode, s, t) && Inv(t) && t.snd.pending == [] && AcceptPos(t) == target
    ensures t.cut[0] == s.cut[0] && t.rcv.window == s.rcv.window && (HandshakeAcked(s) ==> HandshakeAcked(t))
    decreases target - AcceptPos(s)
  {
    hide Run;
    if AcceptPos(s) == target {
      t := s;
      StaysReached(mode, s);
    } else {
      AcceptPosIs(s);
      if !HandshakeAcked(s) && s.snd.waiting { StuckAndWaiting(s); }
      var u := SendMore(mode, s, Min(target - AcceptPos(s), MAX_MESSAGE));
      t := Fill(mode, u, target);
      ReachesOn(mode, s, u, t);
    }
  }

  // ---- One byte more ----

  /** What is needed of a state to cut one byte, whatever its numbers. */
  predicate CanSend(s: System) {
    && 1 <= s.taken <= |s.cut| && s.rcv.window <= MAX_WINDOW
    && Accounted(s.snd) && s.snd.pending == [] && !s.snd.waiting
  }

  function ByteSent(s: System, b: byte, snd: SendState): System
    requires s.cut != []
  {
    s.(accepted := s.accepted + [b], snd := snd, cut := s.cut + [Sent(SendPos(s), [b])],
       live := s.live + {|s.cut|}, net := s.net + {DataPacket(Segment(s.snd.seqNum, [b]), |s.cut|)})
  }

  lemma SendByte(s: System, b: byte) returns (snd: SendState)
    requires CanSend(s)
    ensures Reaches(Wrapping, s, ByteSent(s, b, snd)) && Accounted(snd) && snd.pending == []
    ensures snd.window == s.snd.window && snd.seqNum == Plus(Wrapping, s.snd.seqNum, 1)
    ensures snd.acks == s.snd.acks + [AckList.AckEntry(Plus(Wrapping, s.snd.seqNum, 1), false, 1)]
  {
    hide Run, Plus;
    var x := Accepted(s, [b]);
    StepReaches(Wrapping, s, Accept([b]));
    CutKeepsAccount(Wrapping, x.snd);
    var (next, segment) := Cut(Wrapping, x.snd);
    snd := next;
    assert |x.snd.pending| == 1 && x.snd.pending[0] == b && |segment.data| == 1;
    assert segment.data == [b];
    StepReaches(Wrapping, x, CutSegment);
    assert Apply(Wrapping, x, CutSegment) == ByteSent(s, b, snd);
    ReachesOn(Wrapping, s, x, ByteSent(s, b, snd));
  }

  lemma InvCanSend(s: System)
    requires Inv(s) && s.snd.pending == [] && !s.snd.waiting
    ensures CanSend(s) && s.snd.seqNum == SeqOf(SendPos(s)) && s.retired + |s.snd.acks| == |s.cut|
  {
  }

  // ---- A retransmitter that stops ----

  /** No entry has the number 2^32 - 1, so looking it up says that it is acknowledged. */
  lemma {:induction false} NoSuchEntry(acks: seq<AckList.AckEntry>)
    requires forall k | 0 <= k < |acks| :: acks[k].num < MAX_SEQ_NUM
    ensures AckList.FlagOf(acks, MAX_SEQ_NUM)
  {
  }

  lemma EntriesBelow(acks: seq<AckList.AckEntry>, cut: seq<Sent>, retired: nat)
    requires EntriesOk(acks, cut, retired)
    ensures forall k | 0 <= k < |acks| :: acks[k].num < MAX_SEQ_NUM
  {
    forall k | 0 <= k < |acks| ensures acks[k].num < MAX_SEQ_NUM {
      assert EntryOf(acks[k], cut[retired + k]);
    }
  }

  lemma NumbersNearEnd()
    ensures Plus(Wrapping, MAX_SEQ_NUM - 1, 1) == 0 && Plus(Wrapping, 0, 1) == 1
    ensures SeqOf(MAX_SEQ_NUM - 1) == MAX_SEQ_NUM - 1 && SeqOf(MAX_SEQ_NUM) == 0
    ensures LookupKey(Wrapping, MAX_SEQ_NUM - 1, 1) == MAX_SEQ_NUM && LookupKey(Wrapping, 0, 1) == 1
  {
  }

  /** The retransmitter of the segment that ends at 2^32 - 1 stops at once, before anything was
      acknowledged. */
  lemma LastByteStops(s: System) returns (t: System)
    requires Inv(s) && s.snd.pending == [] && !s.snd.waiting && SendPos(s) == MAX_SEQ_NUM - 1
    ensures Reaches(Wrapping, s, t) && |t.accepted| == |s.accepted| + 1 && !Safe(t)
  {
    hide Run, Inv, Plus, SeqOf, LookupKey;
    InvCanSend(s);
    NumbersNearEnd();
    EntriesOfInv(s);
    var snd := SendByte(s, 0);
    var u, i := ByteSent(s, 0, snd), |s.cut|;
    NoSuchEntry(snd.acks);
    StepReaches(Wrapping, u, Stop(i));
    t := Apply(Wrapping, u, Stop(i));
    ReachesOn(Wrapping, s, u, t);
    assert i !in t.live && !Acknowledged(t.snd.acks, t.retired, i);
  }

  lemma EntriesOfInv(s: System)
    requires Inv(s)
    ensures forall k | 0 <= k < |s.snd.acks| :: s.snd.acks[k].num < MAX_SEQ_NUM
  {
    EntriesBelow(s.snd.acks, s.cut, s.retired);
  }

  /** The number 2^32 - 1 can be reached with the bytes, and with the acknowledgments, there are. */
  predicate ReachesEnd(s: System, n: nat)
    requires s.cut != []
  {
    && s.cut[0].pos + n >= MAX_SEQ_NUM
    && (HandshakeAcked(s) || s.cut[0].pos + s.rcv.window >= MAX_SEQ_NUM)
  }

  lemma EndIsUnsafe(s: System, n: nat) returns (t: System)
    requires Init(s) && s.cut[0].pos < MAX_SEQ_NUM && ReachesEnd(s, n)
    ensures Reaches(Wrapping, s, t) && |t.accepted| <= n && !Safe(t)
  {
    hide Run;
    InitHolds(s);
    var u := Fill(Wrapping, s, MAX_SEQ_NUM - 1);
    AcceptPosIs(u);
    if !HandshakeAcked(u) && u.snd.waiting { StuckAndWaiting(u); }
    var v := WindowOpen(Wrapping, u);
    ReachesOn(Wrapping, s, u, v);
    t := LastByteStops(v);
    ReachesOn(Wrapping, s, v, t);
  }

  ghost predicate SafeUpTo(s: System, n: nat) {
    forall actions, last | Run(Wrapping, s, actions, last) && |last.accepted| <= n :: Safe(last)
  }

  /** Every run of the code in which at most `n` bytes are accepted is safe exactly when those
      bytes do not reach the number 2^32 - 1, or the sender is stuck in its first window and that
      does not reach it. Positions are counted from the first number. */
  lemma {:induction false} CodeSafeExactly(s: System, n: nat)
    requires Init(s) && s.cut[0].pos < MAX_SEQ_NUM
    ensures SafeUpTo(s, n) <==> !ReachesEnd(s, n)
  {
    if ReachesEnd(s, n) {
      var t := EndIsUnsafe(s, n);
      var actions :| Run(Wrapping, s, actions, t);
      assert !Safe(t);
    } else {
      forall actions, last | Run(Wrapping, s, actions, last) && |last.accepted| <= n ensures Safe(last) {
        ShortIsSafe(s, n, actions, last);
      }
    }
  }

  lemma {:induction false} ShortIsSafe(s: System, n: nat, actions: seq<Action>, last: System)
    requires Init(s) && s.cut[0].pos < MAX_SEQ_NUM && !ReachesEnd(s, n)
    requires Run(Wrapping, s, actions, last) && |last.accepted| <= n
    ensures Safe(last)
  {
    if s.cut[0].pos + n < MAX_SEQ_NUM {
      CodeIsSafe(s, actions, last);
    } else {
      InitHolds(s);
      RunKeepsStuck(Wrapping, s, actions, last);
      InvIsSafe(last);
    }
  }

  // ---- Data lost across zero ----

  /** Everything sent has arrived and is known to have, and the window is open. */
  predicate Settled(s: System) {
    && s.taken == |s.cut| && FlaggedTo(s.snd.acks, |s.snd.acks|) && s.snd.pending == [] && !s.snd.waiting
  }

  lemma SlideSettles(mode: Arithmetic, s: System) returns (t: System)
    requires Inv(s) && Fits(mode, s) && s.snd.pending == []
    requires s.taken == |s.cut| && FlaggedTo(s.snd.acks, |s.snd.acks|)
    ensures Reaches(mode, s, t) && Inv(t) && Settled(t) && t.cut == s.cut && t.rcv == s.rcv
  {
    hide Run;
    if s.snd.waiting {
      SlideKeepsAccount(s.snd);
      StepReaches(mode, s, Slide);
      StepKeepsIn(mode, s, Slide);
      assert s.snd.acks[..|s.snd.acks|] == s.snd.acks;
      t := Apply(mode, s, Slide);
    } else {
      t := s;
      StaysReached(mode, s);
    }
  }

  lemma Settle(mode: Arithmetic, s: System) returns (t: System)
    requires Inv(s) && Fits(mode, s) && HandshakeAcked(s) && s.snd.pending == []
    ensures Reaches(mode, s, t) && Inv(t) && Settled(t) && t.cut == s.cut && t.rcv.window == s.rcv.window
  {
    hide Run, Inv;
    var u := DeliverAll(mode, s);
    var v := AcknowledgeAll(mode, u, 0);
    ReachesOn(mode, s, u, v);
    t := SlideSettles(mode, v);
    ReachesOn(mode, s, v, t);
    ReachesGrows(mode, s, t);
  }

  /** A window filled by one byte that is not acknowledged yet, behind others that are, opens. */
  lemma Reopens(s: System, front: seq<AckList.AckEntry>, entry: AckList.AckEntry) returns (snd: SendState)
    requires 1 <= s.taken <= |s.cut| && s.rcv.window <= MAX_WINDOW
    requires Accounted(s.snd) && s.snd.pending == [] && s.snd.waiting && s.snd.window >= 2
    requires s.snd.acks == front + [entry] && FlaggedTo(front, |front|) && !entry.flag && entry.size == 1
    ensures Reaches(Wrapping, s, s.(snd := snd, retired := s.retired + |front|))
    ensures Accounted(snd) && snd.pending == [] && !snd.waiting && snd.acks == [entry]
    ensures snd.seqNum == s.snd.seqNum && snd.window == s.snd.window
  {
    hide Run;
    var k := |front|;
    AckList.LeadingIs(s.snd.acks, k);
    assert s.snd.acks[..k] == front && s.snd.acks[k..] == [entry];
    AckList.TotalSizeAppend(front, entry);
    SlideKeepsAccount(s.snd);
    StepReaches(Wrapping, s, Slide);
    snd := Slid(s.snd);
  }

  /** Two bytes sent one after the other across zero, neither of them delivered. */
  predicate TwoSent(s: System, b: System, i: nat) {
    && i + 2 == |b.cut| && b.cut[i + 1] == Sent(MAX_SEQ_NUM, [9])
    && b.taken == s.taken && b.rcv == s.rcv && b.retired + |b.snd.acks| == |b.cut| && b.retired <= i
    && DataPacket(Segment(0, [9]), i + 1) in b.net && i + 1 in b.live
    && |b.snd.acks| >= 2 && b.snd.acks[|b.snd.acks| - 1] == AckList.AckEntry(1, false, 1)
    && (forall k | 0 <= k < |b.snd.acks| - 1 :: b.snd.acks[k].num != 1)
  }

  lemma FirstSent(s: System) returns (u: System)
    requires Inv(s) && Settled(s) && SendPos(s) == MAX_SEQ_NUM - 1 && s.rcv.window >= 2
    ensures Reaches(Wrapping, s, u) && CanSend(u) && u.snd.seqNum == 0
    ensures u.cut == s.cut + [Sent(MAX_SEQ_NUM - 1, [7])] && u.taken == s.taken && u.rcv == s.rcv
    ensures u.retired + |u.snd.acks| == |u.cut| && u.retired <= |s.cut|
    ensures forall k | 0 <= k < |u.snd.acks| :: u.snd.acks[k].num != 1
  {
    hide Run, Inv, Plus, SeqOf, LookupKey;
    InvCanSend(s);
    NumbersNearEnd();
    NumbersOutstanding(s);
    var snd := SendByte(s, 7);
    u := ByteSent(s, 7, snd);
    if snd.waiting {
      var next := Reopens(u, s.snd.acks, AckList.AckEntry(0, false, 1));
      var v := u.(snd := next, retired := u.retired + |s.snd.acks|);
      ReachesOn(Wrapping, s, u, v);
      u := v;
    }
  }

  /** The listed numbers lie at most a window below the next one. */
  lemma NumbersOutstanding(s: System)
    requires Inv(s) && SendPos(s) == MAX_SEQ_NUM - 1
    ensures s.snd.window == s.rcv.window
    ensures forall k | 0 <= k < |s.snd.acks| :: s.snd.acks[k].num != 1
  {
    Sandwich(s);
    forall k | 0 <= k < |s.snd.acks| ensures s.snd.acks[k].num != 1 {
      assert EntryOf(s.snd.acks[k], s.cut[s.retired + k]);
      CutsRise(s.cut, s.retired, s.retired + k);
      CutsRise(s.cut, s.retired + k, |s.cut| - 1);
      NumberIs(End(s.cut[s.retired + k]));
    }
  }

  lemma BothSent(s: System) returns (b: System)
    requires Inv(s) && Settled(s) && SendPos(s) == MAX_SEQ_NUM - 1 && s.rcv.window >= 2
    ensures Reaches(Wrapping, s, b) && TwoSent(s, b, |s.cut|)
  {
    hide Run, Inv, Plus, SeqOf, LookupKey;
    NumbersNearEnd();
    var u := FirstSent(s);
    var snd := SendByte(u, 9);
    b := ByteSent(u, 9, snd);
    ReachesOn(Wrapping, s, u, b);
  }

  /** When 2^32 - 2 is expected, the number 0 looks old. */
  lemma ZeroLooksOld(r: RecvState)
    requires Around(r) && r.next == MAX_SEQ_NUM - 1 && r.window >= 2
    ensures Judged(Wrapping, r, 0) == Old
  {
  }

  lemma SettledIsEmpty(s: System)
    requires Inv(s) && Settled(s) && SendPos(s) == MAX_SEQ_NUM - 1
    ensures s.rcv.buffers.early == [] && Around(s.rcv) && s.rcv.next == MAX_SEQ_NUM - 1 && s.taken == |s.cut|
  {
    NumberIs(SendPos(s));
    NoneBeyond(s.cut, s.rcv.buffers.early, s.taken + 1);
  }

  lemma NoneBeyond(cut: seq<Sent>, early: seq<Segment>, low: nat)
    requires FromCuts(cut, early, low) && low >= |cut|
    ensures early == []
  {
    var first := if early == [] then Segment(0, []) else early[0];
    assert !IsCut(cut, low, first);
  }

  predicate IsLost(s: System, i: nat) {
    && s.retired + |s.snd.acks| == |s.cut| && i < |s.cut| && i !in s.live
    && Acknowledged(s.snd.acks, s.retired, i) && !Held(s.cut, s.taken, s.rcv.buffers.early, i)
  }

  /** The second byte overtakes the first, is acknowledged without being kept, and its retransmitter
      stops. */
  lemma SecondLost(s: System, b: System) returns (t: System)
    requires TwoSent(s, b, |s.cut|) && s.taken == |s.cut| && 1 <= s.taken
    requires s.rcv.buffers.early == [] && Around(s.rcv) && s.rcv.next == MAX_SEQ_NUM - 1 && s.rcv.window >= 2
    ensures Reaches(Wrapping, b, t) && IsLost(t, |s.cut| + 1)
  {
    hide Run, SeqOf, LookupKey;
    var i := |s.cut| + 1;
    var segment := Segment(0, [9]);
    ZeroLooksOld(s.rcv);
    NumbersNearEnd();
    assert AckFor(segment) == 1;
    var c := b.(net := b.net + {AckPacket(1, i)});
    StepReaches(Wrapping, b, DeliverData(segment, i));
    assert Apply(Wrapping, b, DeliverData(segment, i)) == c;
    var d := AfterAck(c, 1);
    StepReaches(Wrapping, c, DeliverAck(1, i));
    ReachesOn(Wrapping, b, c, d);
    assert AckList.IndexOf(b.snd.acks, 1) == |b.snd.acks| - 1;
    assert AckList.FlagOf(d.snd.acks, 1);
    StepReaches(Wrapping, d, Stop(i));
    t := Apply(Wrapping, d, Stop(i));
    ReachesOn(Wrapping, b, d, t);
  }

  /** So the code, from any start with a window of two bytes or more, can tell the sender that a byte
      has arrived which is nowhere at the receiver, and stop sending it. */
  lemma CodeLosesData(s: System) returns (t: System, i: nat)
    requires Init(s) && s.cut[0].pos < MAX_SEQ_NUM && s.rcv.window >= 2 && HandshakeAcked(s)
    ensures Reaches(Wrapping, s, t) && IsLost(t, i)
  {
    hide Run, Inv;
    InitHolds(s);
    var u := Fill(Wrapping, s, MAX_SEQ_NUM - 1);
    HasCut(u);
    var v := Settle(Wrapping, u);
    ReachesOn(Wrapping, s, u, v);
    SettledIsEmpty(v);
    var b := BothSent(v);
    ReachesOn(Wrapping, s, v, b);
    t := SecondLost(v, b);
    i := |v.cut| + 1;
    ReachesOn(Wrapping, s, b, t);
  }

  // ---- Why the proviso ----

  /** One byte accepted and cut. */
  lemma CutByte(s: System) returns (t: System)
    requires Inv(s) && s.snd.pending == [] && !s.snd.waiting
    ensures Reaches(Modular, s, t) && Inv(t) && t.snd.pending == [] && (HandshakeAcked(s) ==> HandshakeAcked(t))
    ensures AcceptPos(t) == AcceptPos(s) + 1 && t.taken == s.taken && |t.cut| == |s.cut| + 1 && s.cut <= t.cut
    ensures s.net <= t.net
  {
    hide Run, Inv;
    HasCut(s);
    var u := AcceptOne(Modular, s, [0]);
    t := CutOne(Modular, u);
    ReachesGrows(Modular, u, t);
    ReachesOn(Modular, s, u, t);
  }

  /** The first segment is one byte long, and copies of it and of its acknowledgment are in the
      network. */
  predicate FirstAround(s: System, start: nat) {
    && 1 < |s.cut| && s.cut[0].pos == start == s.cut[1].pos && End(s.cut[1]) == start + 1
    && DataPacket(Wire(s.cut[1]), 1) in s.net && AckPacket(SeqOf(start + 1), 1) in s.net
  }

  lemma FirstAnswered(s: System) returns (t: System)
    requires Init(s) && HandshakeAcked(s)
    ensures Reaches(Modular, s, t) && Inv(t) && HandshakeAcked(t) && t.snd.pending == []
    ensures AcceptPos(t) == s.cut[0].pos + 1 && FirstAround(t, s.cut[0].pos)
  {
    hide Run;
    InitHolds(s);
    var u := CutByte(s);
    OnlyFirst(u);
    NextIsLive(u);
    t := Resend(Modular, u, 1);
    ReachesOn(Modular, s, u, t);
  }

  lemma OnlyFirst(s: System)
    requires Inv(s) && |s.cut| == 2 && s.taken == 1
    ensures s.cut[1].pos == s.cut[0].pos && End(s.cut[1]) == SendPos(s) && s.retired <= 1
  {
    assert Follows(s.cut, 1);
  }

  lemma StaysAround(s: System, t: System, start: nat)
    requires FirstAround(s, start) && s.cut <= t.cut && s.net <= t.net
    ensures FirstAround(t, start)
  {
  }

  /** A stream of one whole turn, all of it received and acknowledged. */
  lemma OneTurn(s: System) returns (t: System)
    requires Init(s) && HandshakeAcked(s)
    ensures Reaches(Modular, s, t) && Inv(t) && Settled(t) && FirstAround(t, s.cut[0].pos)
    ensures SendPos(t) == s.cut[0].pos + MAX_SEQ_NUM
  {
    hide Run, Inv, FirstAround;
    var start := s.cut[0].pos;
    var u := FirstAnswered(s);
    HasCut(u);
    var v := Fill(Modular, u, start + MAX_SEQ_NUM);
    HasCut(v);
    var w := Settle(Modular, v);
    ReachesOn(Modular, u, v, w);
    ReachesGrows(Modular, u, w);
    ReachesGrows(Modular, v, w);
    StaysAround(u, w, start);
    ReachesOn(Modular, s, u, w);
    t := w;
  }

  lemma OneTurnOn(position: nat)
    ensures SeqOf(position + MAX_SEQ_NUM) == SeqOf(position)
  {
    ModShift(position, 1);
  }

  /** Bytes appended when everything accepted has been received are bytes nobody sent. */
  lemma AppendedIsUnsafe(s: System, i: nat)
    requires Inv(s) && s.taken == |s.cut| && s.snd.pending == [] && 1 <= i < |s.cut|
    requires SeqOf(s.cut[i].pos) == SeqOf(SendPos(s))
    ensures !FreshData(s, i)
    ensures Judged(Modular, s.rcv, Wire(s.cut[i]).num) == New
    ensures !Safe(AfterData(Modular, s, Wire(s.cut[i]), i))
  {
    hide SeqOf;
    var ready, t := s.rcv.buffers.ready, AfterData(Modular, s, Wire(s.cut[i]), i);
    assert Follows(s.cut, i);
    TakenBytes(s);
    AcceptPosIs(s);
    var (run, rest) := Drain(s.rcv.buffers.early, Plus(Modular, s.rcv.next, |s.cut[i].data|));
    assert t.rcv.buffers.ready == ready + ([Wire(s.cut[i])] + run);
    PayloadConcat(ready, [Wire(s.cut[i])] + run);
    PayloadHead(Wire(s.cut[i]), run);
  }

  /** The modular machine needs its proviso about data: from every start whose handshake is
      acknowledged there is a run of it, obeying the proviso, after which a copy of the first segment,
      still in the network, carries the number that is expected now. The receiver takes it as new, and
      has then received what was never accepted. */
  lemma StaleCopyBreaks(s: System) returns (t: System)
    requires Init(s) && HandshakeAcked(s)
    ensures Reaches(Modular, s, t) && Inv(t) && 1 < |t.cut| && DataPacket(Wire(t.cut[1]), 1) in t.net
    ensures !FreshData(t, 1) && Judged(Modular, t.rcv, Wire(t.cut[1]).num) == New
    ensures !Safe(AfterData(Modular, t, Wire(t.cut[1]), 1))
  {
    hide Inv, Run;
    t := OneTurn(s);
    OneTurnOn(s.cut[0].pos);
    AppendedIsUnsafe(t, 1);
  }

  /** An acknowledgment that names the entry of the last segment, which has not arrived. */
  lemma FlaggedIsUnsafe(s: System, i: nat)
    requires Inv(s) && s.taken == |s.cut| - 1 && i < s.taken && s.snd.acks != []
    requires SeqOf(End(s.cut[i])) == SeqOf(SendPos(s)) && End(s.cut[i]) + MAX_SEQ_NUM == SendPos(s)
    ensures !FreshAck(s, i) && !Safe(AfterAck(s, SeqOf(End(s.cut[i]))))
  {
    var last, num := |s.cut| - 1, SeqOf(SendPos(s));
    var k := AckList.IndexOf(s.snd.acks, num);
    var j := last - s.retired;
    Sandwich(s);
    assert EntryOf(s.snd.acks[j], s.cut[s.retired + j]);
    AckNamesItsCut(s, k, last);
    NoneBeyond(s.cut, s.rcv.buffers.early, s.taken + 1);
    BehindIsReleased(s, i);
    var t := AfterAck(s, num);
    assert Acknowledged(t.snd.acks, t.retired, last) && !Held(t.cut, t.taken, t.rcv.buffers.early, last);
  }

  /** A segment a turn behind was released long ago. */
  lemma BehindIsReleased(s: System, i: nat)
    requires Placed(s) && i < |s.cut| && End(s.cut[i]) + MAX_SEQ_NUM == SendPos(s)
    ensures i < s.retired
  {
    Sandwich(s);
    if s.retired <= i { CutsRise(s.cut, s.retired, i); }
  }

  /** And the one about acknowledgments: after a run that obeys the proviso, the acknowledgment of the
      first segment names the entry of one that has not arrived. */
  lemma StaleAckBreaks(s: System) returns (t: System)
    requires Init(s) && HandshakeAcked(s)
    ensures Reaches(Modular, s, t) && Inv(t) && 1 < |t.cut|
    ensures AckPacket(SeqOf(End(t.cut[1])), 1) in t.net && !FreshAck(t, 1)
    ensures !Safe(AfterAck(t, SeqOf(End(t.cut[1]))))
  {
    hide Run;
    var u := OneTurn(s);
    t := CutByte(u);
    ReachesOn(Modular, s, u, t);
    OneTurnOn(s.cut[0].pos + 1);
    LastIsListed(t);
    FlaggedIsUnsafe(t, 1);
  }

  /** The last segment cut is still listed while it has not arrived. */
  lemma LastIsListed(s: System)
    requires Inv(s) && s.taken < |s.cut|
    ensures s.snd.acks != []
  {
  }
}
