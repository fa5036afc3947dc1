/** When the protocol can still deliver: from every reachable state there is a continuation in
    which the receiving application reads everything accepted so far, unless the one
    acknowledgment that the handshake never repeats is lost and the window needs to move. This is
    so under modular arithmetic and, as long as the numbers stay below the modulus, in the code. */
module SlidingWindowProgress {
  import opened SequenceSpace
  import AckList
  import opened SegmentList
  import opened Sender
  import opened Receiver
  import opened SlidingWindow
  import opened SlidingWindowSafety
  import opened WrappingRuns

  /** The handshake's own entry is out of the way, acknowledged, or can still be acknowledged. */
  predicate HandshakeAcked(s: System)
    requires s.cut != []
  {
    || s.retired > 0
    || (s.snd.acks != [] && s.snd.acks[0].flag)
    || AckPacket(SeqOf(s.cut[0].pos), 0) in s.net
  }

  /** Everything accepted can be sent with numbers below the modulus. */
  predicate Room(mode: Arithmetic, s: System) {
    s.cut != [] && (mode.Wrapping? ==> AcceptPos(s) < MAX_SEQ_NUM)
  }

  /** A window beyond the first number can. */
  predicate WindowFits(mode: Arithmetic, s: System) {
    s.cut != [] && (mode.Wrapping? ==> s.cut[0].pos + s.rcv.window < MAX_SEQ_NUM)
  }

  ghost predicate Reaches(mode: Arithmetic, s: System, t: System) {
    exists actions :: Run(mode, s, actions, t)
  }

  ghost predicate CanDeliver(mode: Arithmetic, s: System) {
    exists t :: Reaches(mode, s, t) && s.accepted <= t.delivered
  }

  lemma {:induction false} StaysReached(mode: Arithmetic, s: System)
    ensures Reaches(mode, s, s)
  {
    assert Run(mode, s, [], s);
  }

  lemma {:induction false} StepReaches(mode: Arithmetic, s: System, a: Action)
    requires Enabled(mode, s, a)
    ensures Reaches(mode, s, Apply(mode, s, a))
  {
    assert [a][1..] == [];
    assert Run(mode, s, [a], Apply(mode, s, a));
  }

  lemma {:induction false} ReachesOn(mode: Arithmetic, s: System, u: System, t: System)
    requires Reaches(mode, s, u) && Reaches(mode, u, t)
    ensures Reaches(mode, s, t)
  {
    var first :| Run(mode, s, first, u);
    var second :| Run(mode, u, second, t);
    RunOn(mode, s, first, u, second, t);
  }

  lemma {:induction false} ReachesGrows(mode: Arithmetic, s: System, t: System)
    requires Reaches(mode, s, t) && s.cut != []
    ensures s.cut <= t.cut && t.rcv.window == s.rcv.window && s.accepted <= t.accepted && s.net <= t.net
    ensures AcceptPos(t) - |t.accepted| == AcceptPos(s) - |s.accepted|
  {
    var actions :| Run(mode, s, actions, t);
    RunGrows(mode, s, actions, t);
  }

  // ---- A lost acknowledgment ----

  lemma StepKeepsHandshake(mode: Arithmetic, s: System, a: Action)
    requires Inv(s) && Enabled(mode, s, a) && HandshakeAcked(s)
    ensures HandshakeAcked(Apply(mode, s, a))
  {
  }

  /** Once the acknowledgment of the handshake is gone, it stays gone. */
  lemma StepKeepsStuck(mode: Arithmetic, s: System, a: Action)
    requires Inv(s) && Fits(mode, s) && Enabled(mode, s, a) && !HandshakeAcked(s)
    ensures !HandshakeAcked(Apply(mode, s, a))
  {
    match a
    case DeliverAck(num, i) =>
      assert PacketOk(AckPacket(num, i), s.cut, s.taken, s.rcv.buffers.early);
      if mode.Wrapping? { AckFreshInCode(s, i); }
      if AckList.IndexOf(s.snd.acks, num) == 0 {
        AckNamesItsCut(s, 0, i);
      }
    case DeliverData(segment, i) =>
      assert PacketOk(DataPacket(segment, i), s.cut, s.taken, s.rcv.buffers.early);
    case _ =>
  }

  /** Such a sender never sends beyond its first window. */
  lemma StuckFits(mode: Arithmetic, s: System, a: Action)
    requires Inv(s) && Enabled(mode, s, a) && !HandshakeAcked(s) && WindowFits(mode, s)
    ensures Fits(mode, s) && Fits(mode, Apply(mode, s, a)) && WindowFits(mode, Apply(mode, s, a))
  {
    hide Inv;
    StuckBound(s);
    StepGrows(mode, s, a);
    if a.CutSegment? {
      CutWithinWindow(mode, s);
    }
  }

  lemma CutWithinWindow(mode: Arithmetic, s: System)
    requires Inv(s) && CanCut(s.snd)
    ensures HandshakeAcked(s) || SendPos(AfterCut(mode, s)) <= s.cut[0].pos + s.rcv.window
  {
    Sandwich(s);
    CutKeepsAccount(mode, s.snd);
  }

  lemma {:induction false} RunKeepsStuck(mode: Arithmetic, s: System, actions: seq<Action>, last: System)
    requires Inv(s) && !HandshakeAcked(s) && WindowFits(mode, s) && Run(mode, s, actions, last)
    ensures Inv(last) && !HandshakeAcked(last)
    ensures last.cut != [] && last.cut[0] == s.cut[0] && last.rcv.window == s.rcv.window
    decreases |actions|
  {
    if actions != [] {
      var t := Apply(mode, s, actions[0]);
      StuckFits(mode, s, actions[0]);
      StepKeepsIn(mode, s, actions[0]);
      StepKeepsStuck(mode, s, actions[0]);
      RunKeepsStuck(mode, t, actions[1..], last);
    }
  }

  /** Then no more than one window of bytes ever gets through. */
  lemma {:induction false} StuckDeliversOneWindow(mode: Arithmetic, s: System, actions: seq<Action>, last: System)
    requires Inv(s) && !HandshakeAcked(s) && WindowFits(mode, s) && Run(mode, s, actions, last)
    ensures |last.delivered| <= s.rcv.window
  {
    hide Inv, Run;
    RunKeepsStuck(mode, s, actions, last);
    StuckBound(last);
  }

  lemma StuckBound(s: System)
    requires Inv(s) && !HandshakeAcked(s)
    ensures |s.delivered| <= s.rcv.window && SendPos(s) <= s.cut[0].pos + s.rcv.window
  {
    Sandwich(s);
    TakenBytes(s);
  }

  lemma TakenBytes(s: System)
    requires Inv(s)
    ensures |s.delivered| + |Payload(s.rcv.buffers.ready)| == RecvPos(s) - s.cut[0].pos
  {
    StreamSplit(s.cut[..s.taken], 1);
    StreamAppend([], s.cut[0]);
    assert [] + [s.cut[0]] == s.cut[..s.taken][..1];
    assert s.cut[..s.taken][1..] == s.cut[1..s.taken];
    StreamLength(s.cut, 1, s.taken);
  }

  // ---- Delivering what was cut ----

  /** The cut the receiver waits for is still being retransmitted. */
  lemma NextIsLive(s: System)
    requires Inv(s) && s.taken < |s.cut|
    ensures s.taken in s.live
  {
    Sandwich(s);
    NextIsNotEarly(s.cut, s.taken, s.rcv.buffers.early);
    var j := s.taken - s.retired;
    assert !s.snd.acks[j].flag;
    assert s.taken in s.live;
  }

  /** Only the receiver, what it was sent and what it answered differ. */
  predicate OnlyReceived(s: System, t: System) {
    t.cut == s.cut && t.snd == s.snd && t.retired == s.retired && t.accepted == s.accepted && s.net <= t.net
  }

  /** A copy of a segment that the sender waits for arrives: the receiver takes it if it is the
      next one, ignores it if it is old, and acknowledges it. */
  lemma CopyArrives(mode: Arithmetic, s: System, i: nat) returns (t: System)
    requires Inv(s) && Fits(mode, s) && 1 <= i < |s.cut| && s.retired <= i <= s.taken
    requires DataPacket(Wire(s.cut[i]), i) in s.net
    ensures Reaches(mode, s, t) && Inv(t) && OnlyReceived(s, t)
    ensures if i == s.taken then t.taken > s.taken else t == s.(net := t.net)
    ensures AckPacket(SeqOf(End(s.cut[i])), i) in t.net
  {
    hide Run, Inv;
    Answered(mode, s, i);
    var a := DeliverData(Wire(s.cut[i]), i);
    CopyEnabled(mode, s, i);
    StepReaches(mode, s, a);
    StepKeepsIn(mode, s, a);
    t := Apply(mode, s, a);
  }

  lemma CopyEnabled(mode: Arithmetic, s: System, i: nat)
    requires Inv(s) && 1 <= i < |s.cut| && DataPacket(Wire(s.cut[i]), i) in s.net && FreshData(s, i)
    ensures Enabled(mode, s, DeliverData(Wire(s.cut[i]), i))
    ensures i == s.taken ==> Wire(s.cut[i]).num == s.rcv.next
  {
    if i == s.taken { assert Follows(s.cut, i); }
  }

  /** Such a copy can be sent once more. */
  lemma Resend(mode: Arithmetic, s: System, i: nat) returns (t: System)
    requires Inv(s) && Fits(mode, s) && i in s.live && s.retired <= i <= s.taken
    ensures i < |s.cut| && Reaches(mode, s, t) && Inv(t) && OnlyReceived(s, t)
    ensures if i == s.taken then t.taken > s.taken else t == s.(net := t.net)
    ensures DataPacket(Wire(s.cut[i]), i) in t.net && AckPacket(SeqOf(End(s.cut[i])), i) in t.net
  {
    hide Run;
    var a := Transmit(i);
    var u := Apply(mode, s, a);
    StepReaches(mode, s, a);
    TransmitKeeps(s, i);
    t := CopyArrives(mode, u, i);
    ReachesOn(mode, s, u, t);
  }

  lemma {:induction false} DeliverAll(mode: Arithmetic, s: System) returns (t: System)
    requires Inv(s) && Fits(mode, s)
    ensures Reaches(mode, s, t) && Inv(t) && OnlyReceived(s, t) && t.taken == |t.cut|
    decreases |s.cut| - s.taken
  {
    hide Run;
    if s.taken == |s.cut| {
      t := s;
      StaysReached(mode, s);
    } else {
      NextIsLive(s);
      var u := Resend(mode, s, s.taken);
      t := DeliverAll(mode, u);
      ReachesOn(mode, s, u, t);
    }
  }

  // ---- Acknowledging it ----

  /** The sender has learned of more acknowledgments, and nothing else of it has changed. */
  predicate OnlyFlagged(s: System, t: System) {
    && t.taken == |t.cut| && t.cut == s.cut && t.retired == s.retired && t.accepted == s.accepted
    && t.snd.(acks := s.snd.acks) == s.snd && |t.snd.acks| == |s.snd.acks|
    && forall k | 0 <= k < |s.snd.acks| && s.snd.acks[k].flag :: t.snd.acks[k].flag
  }

  predicate FlaggedTo(acks: seq<AckList.AckEntry>, j: nat) {
    j <= |acks| && forall k | 0 <= k < j :: acks[k].flag
  }

  lemma AckFlags(s: System, i: nat)
    requires Inv(s) && s.taken == |s.cut| && s.retired <= i < |s.cut|
    ensures var t := AfterAck(s, SeqOf(End(s.cut[i])));
            OnlyFlagged(s, t) && t.snd.acks[i - s.retired].flag
    ensures FreshAck(s, i)
  {
    var num, j := SeqOf(End(s.cut[i])), i - s.retired;
    Sandwich(s);
    CutsRise(s.cut, s.retired, i);
    assert EntryOf(s.snd.acks[j], s.cut[s.retired + j]);
    AckNamesItsCut(s, AckList.IndexOf(s.snd.acks, num), i);
  }

  lemma TakeAck(mode: Arithmetic, s: System, i: nat) returns (t: System)
    requires Inv(s) && Fits(mode, s) && s.taken == |s.cut| && s.retired <= i < |s.cut|
    requires AckPacket(SeqOf(End(s.cut[i])), i) in s.net
    ensures Reaches(mode, s, t) && Inv(t) && OnlyFlagged(s, t) && t.snd.acks[i - s.retired].flag
    ensures HandshakeAcked(s) ==> HandshakeAcked(t)
  {
    hide Run, AfterAck, FreshAck, OnlyFlagged, SenderOk, Knows;
    var a := DeliverAck(SeqOf(End(s.cut[i])), i);
    AckFlags(s, i);
    StepReaches(mode, s, a);
    StepKeepsIn(mode, s, a);
    if HandshakeAcked(s) {
      StepKeepsHandshake(mode, s, a);
    }
    t := Apply(mode, s, a);
  }

  /** An acknowledgment of the `j`-th entry is in the network, or can be provoked by another copy. */
  lemma FetchAck(mode: Arithmetic, s: System, j: nat) returns (t: System)
    requires Inv(s) && Fits(mode, s) && s.taken == |s.cut| && HandshakeAcked(s)
    requires j < |s.snd.acks| && !s.snd.acks[j].flag
    ensures Reaches(mode, s, t) && Inv(t) && HandshakeAcked(t) && t == s.(net := t.net)
    ensures AckPacket(SeqOf(End(s.cut[s.retired + j])), s.retired + j) in t.net
  {
    var i := s.retired + j;
    if i == 0 {
      t := s;
      StaysReached(mode, s);
    } else {
      assert i in s.live;
      t := Resend(mode, s, i);
    }
  }

  lemma FlaggedFrom(s: System, u: System, t: System)
    requires u == s.(net := u.net) && OnlyFlagged(u, t)
    ensures OnlyFlagged(s, t)
  {
  }

  lemma AcknowledgeOne(mode: Arithmetic, s: System, j: nat) returns (t: System)
    requires Inv(s) && Fits(mode, s) && s.taken == |s.cut| && HandshakeAcked(s) && j < |s.snd.acks|
    ensures Reaches(mode, s, t) && Inv(t) && HandshakeAcked(t)
    ensures OnlyFlagged(s, t) && t.snd.acks[j].flag
  {
    hide Run, Knows, Accounted, ReceiverOk;
    if s.snd.acks[j].flag {
      t := s;
      StaysReached(mode, s);
    } else {
      var u := FetchAck(mode, s, j);
      t := TakeAck(mode, u, s.retired + j);
      ReachesOn(mode, s, u, t);
      FlaggedFrom(s, u, t);
    }
  }

  lemma FlaggedMore(s: System, u: System, j: nat)
    requires OnlyFlagged(s, u) && FlaggedTo(s.snd.acks, j) && j < |u.snd.acks| && u.snd.acks[j].flag
    ensures FlaggedTo(u.snd.acks, j + 1) && |u.snd.acks| == |s.snd.acks|
    ensures u.cut == s.cut && u.taken == |u.cut|
  {
  }

  lemma FlaggedTwice(s: System, u: System, t: System)
    requires OnlyFlagged(s, u) && OnlyFlagged(u, t)
    ensures OnlyFlagged(s, t)
  {
  }

  lemma {:induction false} AcknowledgeAll(mode: Arithmetic, s: System, j: nat) returns (t: System)
    requires Inv(s) && Fits(mode, s) && s.taken == |s.cut| && HandshakeAcked(s) && FlaggedTo(s.snd.acks, j)
    ensures Reaches(mode, s, t) && Inv(t) && HandshakeAcked(t)
    ensures OnlyFlagged(s, t) && FlaggedTo(t.snd.acks, |t.snd.acks|)
    decreases |s.snd.acks| - j
  {
    hide Run;
    if j == |s.snd.acks| {
      t := s;
      StaysReached(mode, s);
    } else {
      var u := AcknowledgeOne(mode, s, j);
      FlaggedMore(s, u, j);
      t := AcknowledgeAll(mode, u, j + 1);
      ReachesOn(mode, s, u, t);
      FlaggedTwice(s, u, t);
    }
  }

  // ---- Cutting the rest ----

  /** Nothing of the sender has changed but that its window is open. */
  predicate OnlyOpened(s: System, t: System) {
    && !t.snd.waiting && t.snd.pending == s.snd.pending && t.accepted == s.accepted && t.cut == s.cut
    && t.rcv.window == s.rcv.window
  }

  lemma SlideEmpties(s: System)
    requires Inv(s) && s.snd.waiting && FlaggedTo(s.snd.acks, |s.snd.acks|)
    ensures OnlyOpened(s, AfterSlide(s)) && AfterSlide(s).cut == s.cut
  {
    hide AckList.TotalSize;
    SlideKeepsAccount(s.snd);
    assert AckList.Leading(s.snd.acks) == |s.snd.acks|;
    assert s.snd.acks[..|s.snd.acks|] == s.snd.acks;
  }

  /** When everything is acknowledged, one look opens the window. */
  lemma SlideOpens(mode: Arithmetic, s: System) returns (t: System)
    requires Inv(s) && Fits(mode, s) && HandshakeAcked(s) && s.snd.waiting && FlaggedTo(s.snd.acks, |s.snd.acks|)
    ensures Reaches(mode, s, t) && Inv(t) && HandshakeAcked(t) && OnlyOpened(s, t)
  {
    hide Run, AfterSlide, OnlyOpened, HandshakeAcked, FlaggedTo, Knows;
    SlideEmpties(s);
    StepReaches(mode, s, Slide);
    StepKeepsIn(mode, s, Slide);
    StepKeepsHandshake(mode, s, Slide);
    t := Apply(mode, s, Slide);
  }

  lemma OpenedFrom(s: System, u: System, v: System, t: System)
    requires Inv(s) && Inv(v) && OnlyReceived(s, u) && OnlyFlagged(u, v) && OnlyOpened(v, t)
    ensures OnlyOpened(s, t)
  {
  }

  /** A full window can be opened again. */
  lemma OpenWindow(mode: Arithmetic, s: System) returns (t: System)
    requires Inv(s) && Fits(mode, s) && HandshakeAcked(s) && s.snd.waiting
    ensures Reaches(mode, s, t) && Inv(t) && HandshakeAcked(t) && OnlyOpened(s, t)
  {
    hide Inv, Run;
    var u := DeliverAll(mode, s);
    var v := AcknowledgeAll(mode, u, 0);
    ReachesOn(mode, s, u, v);
    t := SlideOpens(mode, v);
    ReachesOn(mode, s, v, t);
    OpenedFrom(s, u, v, t);
  }

  /** The window is open, or can be. */
  lemma WindowOpen(mode: Arithmetic, s: System) returns (t: System)
    requires Inv(s) && Fits(mode, s) && (HandshakeAcked(s) || !s.snd.waiting)
    ensures Reaches(mode, s, t) && Inv(t) && OnlyOpened(s, t) && (HandshakeAcked(s) ==> HandshakeAcked(t))
  {
    if s.snd.waiting {
      t := OpenWindow(mode, s);
    } else {
      t := s;
      StaysReached(mode, s);
    }
  }

  lemma CutOne(mode: Arithmetic, s: System) returns (t: System)
    requires Inv(s) && Room(mode, s) && s.snd.pending != [] && !s.snd.waiting
    ensures Reaches(mode, s, t) && Inv(t) && Room(mode, t)
    ensures t.accepted == s.accepted && t.rcv.window == s.rcv.window && t.cut[0] == s.cut[0]
    ensures |t.snd.pending| < |s.snd.pending| && (HandshakeAcked(s) ==> HandshakeAcked(t))
    ensures t.taken == s.taken && |t.cut| == |s.cut| + 1 && s.cut <= t.cut
  {
    hide Run;
    CutKeepsAccount(mode, s.snd);
    StepReaches(mode, s, CutSegment);
    StepGrows(mode, s, CutSegment);
    StepKeepsIn(mode, s, CutSegment);
    t := Apply(mode, s, CutSegment);
  }

  /** A full window with nothing released holds a window of bytes, so only more than a window of
      accepted bytes leaves some pending. */
  lemma WaitingMeansFull(s: System)
    requires Inv(s) && s.snd.waiting && s.snd.pending != []
    ensures HandshakeAcked(s) || |s.accepted| > s.rcv.window
  {
    Sandwich(s);
    AcceptPosIs(s);
  }

  /** As long as the window can be opened when it has to be, the rest of the message can be cut. */
  lemma {:induction false} CutAll(mode: Arithmetic, s: System) returns (t: System)
    requires Inv(s) && Room(mode, s) && (HandshakeAcked(s) || |s.accepted| <= s.rcv.window)
    ensures Reaches(mode, s, t) && Inv(t) && Room(mode, t)
    ensures t.snd.pending == [] && t.accepted == s.accepted && t.rcv.window == s.rcv.window && t.cut[0] == s.cut[0]
    ensures HandshakeAcked(s) ==> HandshakeAcked(t)
    decreases |s.snd.pending|
  {
    hide Inv, Run;
    if s.snd.pending == [] {
      t := s;
      StaysReached(mode, s);
    } else {
      if s.snd.waiting { WaitingMeansFull(s); }
      var u := WindowOpen(mode, s);
      var v := CutOne(mode, u);
      ReachesOn(mode, s, u, v);
      t := CutAll(mode, v);
      ReachesOn(mode, s, v, t);
    }
  }

  // ---- Exactly when everything can be delivered ----

  lemma ReadAll(mode: Arithmetic, s: System) returns (t: System)
    requires Inv(s) && s.taken == |s.cut| && s.snd.pending == []
    ensures Reaches(mode, s, t) && t.delivered == s.accepted
  {
    var ready := s.rcv.buffers.ready;
    var a := Take(|Payload(ready)|);
    StepReaches(mode, s, a);
    t := Apply(mode, s, a);
    var (out, rest) := Split(ready, |Payload(ready)|);
    SplitConserves(ready, |Payload(ready)|);
    assert out + Payload(rest) == Payload(ready);
    assert Payload(rest) == [];
    assert s.cut[..s.taken] == s.cut;
  }

  lemma Deliver(mode: Arithmetic, s: System) returns (t: System)
    requires Inv(s) && Room(mode, s) && (HandshakeAcked(s) || |s.accepted| <= s.rcv.window)
    ensures Reaches(mode, s, t) && t.delivered == s.accepted
  {
    hide Run;
    var u := CutAll(mode, s);
    var v := DeliverAll(mode, u);
    ReachesOn(mode, s, u, v);
    t := ReadAll(mode, v);
    ReachesOn(mode, s, v, t);
  }

  /** Everything accepted can still be delivered exactly when the acknowledgment of the handshake
      is not lost or what was accepted fits one window. */
  lemma CanDeliverExactly(mode: Arithmetic, s: System)
    requires Inv(s) && Room(mode, s)
    ensures CanDeliver(mode, s) <==> HandshakeAcked(s) || |s.accepted| <= s.rcv.window
  {
    if HandshakeAcked(s) || |s.accepted| <= s.rcv.window {
      var t := Deliver(mode, s);
    } else if CanDeliver(mode, s) {
      AcceptPosIs(s);
      var last :| Reaches(mode, s, last) && s.accepted <= last.delivered;
      var actions :| Run(mode, s, actions, last);
      StuckDeliversOneWindow(mode, s, actions, last);
    }
  }
}
