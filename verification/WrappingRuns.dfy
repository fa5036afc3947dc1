/** The connection as the code runs it, with sums that wrap at 2^32 and the comparison tree: as long
    as no segment ends at or beyond MAX_SEQ_NUM, every step keeps the invariant of the modular
    machine, whatever old packets arrive. */
module WrappingRuns {
  import opened Bytes
  import opened SequenceSpace
  import AckList
  import opened SegmentList
  import opened Sender
  import opened Receiver
  import opened SlidingWindow
  import opened SlidingWindowSafety

  // ---- The steps in which the arithmetic matters ----

  lemma CutAgrees(s: System)
    requires Inv(s) && CanCut(s.snd) && SendPos(AfterCut(Wrapping, s)) < MAX_SEQ_NUM
    ensures AfterCut(Wrapping, s) == AfterCut(Modular, s)
  {
    hide Remainder;
    PlusAgrees(s.snd.seqNum, |Cut(Modular, s.snd).1.data|);
  }

  lemma KeyAgrees(position: nat, size: nat)
    requires position + size < MAX_SEQ_NUM
    ensures LookupKey(Wrapping, SeqOf(position), size) == LookupKey(Modular, SeqOf(position), size)
  {
  }

  lemma StopAgrees(s: System, i: nat)
    requires Inv(s) && i < |s.cut| && SendPos(s) < MAX_SEQ_NUM
    ensures AfterStop(Wrapping, s, i) == AfterStop(Modular, s, i)
  {
    CutsRise(s.cut, i, |s.cut| - 1);
    KeyAgrees(s.cut[i].pos, |s.cut[i].data|);
  }

  /** As long as positions are numbers, the comparison tree tells new from old, wherever the edges
      of the window lie, and discards nothing of the last window. */
  lemma JudgedByTree(r: RecvState, there: nat)
    requires Around(r) && there < MAX_SEQ_NUM && there < r.next + r.window
    ensures there >= r.next ==> Judged(Wrapping, r, there) == New
    ensures there < r.next ==> Judged(Wrapping, r, there) != New
    ensures there < r.next <= there + r.window ==> Judged(Wrapping, r, there) == Old
  {
  }

  /** The code's front edge may fall one number short. */
  lemma EdgeOfCode(next: nat, window: nat)
    requires next < MAX_SEQ_NUM && 1 <= window <= MAX_WINDOW
    ensures var end := Plus(Wrapping, next, window);
            end < MAX_SEQ_NUM && window - 1 <= Ahead(next, end) <= window
  {
  }

  /** The invariant does not care where exactly the edges are. */
  lemma EdgeMoves(s: System, t: System)
    requires Inv(s) && t == s.(rcv := s.rcv.(end := t.rcv.end)) && Around(t.rcv)
    ensures Inv(t)
  {
  }

  /** The receiver never advances past what was sent. */
  lemma AdvanceBound(s: System, i: nat)
    requires Inv(s) && s.taken <= i < |s.cut|
    ensures RecvPos(s) + Inserted(s.rcv.buffers, Wire(s.cut[i]), s.rcv.next).1 <= SendPos(s)
  {
    hide SeqOf, Knows, StreamsOk, Drain, Plus;
    Sandwich(s);
    if i == s.taken {
      assert Follows(s.cut, i);
      var reached, rest := InsertedInOrder(s.cut, i, s.rcv.buffers);
      StreamLength(s.cut, i, reached);
      CutsRise(s.cut, reached - 1, |s.cut| - 1);
    } else {
      NotNext(s, i);
    }
  }

  /** Where a segment lies relative to what the receiver expects. */
  lemma LiesAt(s: System, i: nat)
    requires Placed(s) && 1 <= i < |s.cut|
    ensures s.cut[i].pos < SendPos(s) && s.cut[i].pos < RecvPos(s) + s.rcv.window
    ensures i >= s.taken <==> s.cut[i].pos >= RecvPos(s)
    ensures s.retired <= i ==> RecvPos(s) <= s.cut[i].pos + s.rcv.window
  {
    Sandwich(s);
    CutsRise(s.cut, i, |s.cut| - 1);
    OneLess(s.cut, i);
    if i >= s.taken {
      CutsRise(s.cut, s.taken - 1, i);
    } else {
      CutsRise(s.cut, i, s.taken - 1);
    }
    if s.retired <= i { CutsRise(s.cut, s.retired, i); }
  }

  lemma NumberIs(position: nat)
    requires position < MAX_SEQ_NUM
    ensures SeqOf(position) == position
  {
  }

  lemma JudgedInCode(s: System, i: nat)
    requires Placed(s) && 1 <= i < |s.cut| && SendPos(s) < MAX_SEQ_NUM
    ensures i >= s.taken ==> Judged(Wrapping, s.rcv, Wire(s.cut[i]).num) == New
    ensures i < s.taken ==> Judged(Wrapping, s.rcv, Wire(s.cut[i]).num) != New
    ensures s.retired <= i < s.taken ==> Judged(Wrapping, s.rcv, Wire(s.cut[i]).num) == Old
  {
    LiesAt(s, i);
    NextIs(s);
    NumberIs(s.cut[i].pos);
    JudgedByTree(s.rcv, s.cut[i].pos);
  }

  lemma NextIs(s: System)
    requires Placed(s) && SendPos(s) < MAX_SEQ_NUM
    ensures s.rcv.next == RecvPos(s) <= SendPos(s)
  {
    Sandwich(s);
    NumberIs(RecvPos(s));
  }

  lemma TakenInCode(r: RecvState, segment: Segment)
    requires Numbered(r, segment.num) && 1 <= r.window <= MAX_WINDOW
    requires r.next + Inserted(r.buffers, segment, r.next).1 < MAX_SEQ_NUM
    ensures var t, m := Taken(Wrapping, r, segment), Taken(Modular, r, segment);
            t == m.(end := t.end) && (Around(m) ==> Around(t))
  {
    SumIs(r.next, Inserted(r.buffers, segment, r.next).1);
    EdgeOfCode(r.next + Inserted(r.buffers, segment, r.next).1, r.window);
  }

  lemma NewKeepsInCode(s: System, segment: Segment, i: nat)
    requires Inv(s) && Enabled(Wrapping, s, DeliverData(segment, i)) && SendPos(s) < MAX_SEQ_NUM && i >= s.taken
    requires segment == Wire(s.cut[i])
    ensures Inv(AfterData(Wrapping, s, segment, i))
  {
    JudgedInCode(s, i);
    JudgedRight(s, i);
    DataKeeps(s, segment, i);
    NextIs(s);
    AdvanceBound(s, i);
    TakenInCode(s.rcv, segment);
    var m, t := AfterData(Modular, s, segment, i), AfterData(Wrapping, s, segment, i);
    assert t.rcv == Taken(Wrapping, s.rcv, segment);
    assert t == m.(rcv := m.rcv.(end := t.rcv.end));
    EdgeMoves(m, t);
  }

  lemma DataKeepsInCode(s: System, segment: Segment, i: nat)
    requires Inv(s) && Enabled(Wrapping, s, DeliverData(segment, i)) && SendPos(s) < MAX_SEQ_NUM
    ensures Inv(AfterData(Wrapping, s, segment, i))
  {
    assert PacketOk(DataPacket(segment, i), s.cut, s.taken, s.rcv.buffers.early);
    if i >= s.taken {
      NewKeepsInCode(s, segment, i);
    } else {
      JudgedInCode(s, i);
      SeqOfPlus(s.cut[i].pos, |s.cut[i].data|);
      KnowledgeGrows(s, s.taken, s.rcv, i);
    }
  }

  /** Below the modulus all segments end at different numbers. */
  lemma AckFreshInCode(s: System, i: nat)
    requires Inv(s) && i < |s.cut| && SendPos(s) < MAX_SEQ_NUM
    ensures FreshAck(s, i)
  {
    AckFreshBelow(s, i);
  }

  /** Below the modulus a retransmitter of the code ends exactly when its segment has been acknowledged,
      listed still or released long before. */
  lemma StopsInCode(s: System, i: nat)
    requires Inv(s) && Enabled(Wrapping, s, Stop(i)) && SendPos(s) < MAX_SEQ_NUM
    ensures i !in AfterStop(Wrapping, s, i).live <==> Acknowledged(s.snd.acks, s.retired, i)
    ensures AfterStop(Wrapping, s, i).live + {i} == s.live
  {
    hide Inv, AfterStop, FreshAck;
    AckFreshInCode(s, i);
    StopAgrees(s, i);
    StopsExactly(s, i);
  }

  // ---- Steps and runs ----

  /** Under modular arithmetic every step counts, in the code those that stay below the modulus. */
  predicate Fits(mode: Arithmetic, t: System) {
    t.cut != [] && (mode.Wrapping? ==> SendPos(t) < MAX_SEQ_NUM)
  }

  lemma StepKeepsIn(mode: Arithmetic, s: System, a: Action)
    requires Inv(s) && Enabled(mode, s, a) && Fits(mode, Apply(mode, s, a))
    ensures Inv(Apply(mode, s, a))
  {
    hide Inv;
    if mode.Modular? {
      StepKeeps(s, a);
    } else {
      match a
      case CutSegment =>
        CutAgrees(s);
        CutKeeps(s);
      case Stop(i) =>
        StopAgrees(s, i);
        StopKeeps(s, i);
      case DeliverData(segment, i) => DataKeepsInCode(s, segment, i);
      case DeliverAck(num, i) =>
        AckFreshInCode(s, i);
        AckKeeps(s, num, i);
      case _ => StepKeeps(s, a);
    }
  }

  /** A copy of a segment that the sender still waits for is never discarded: new if the receiver
      has not reached it, else old, and acknowledged in both cases. */
  lemma Answered(mode: Arithmetic, s: System, i: nat)
    requires Inv(s) && Fits(mode, s) && s.retired <= i < |s.cut| && 1 <= i
    ensures FreshData(s, i)
    ensures Judged(mode, s.rcv, Wire(s.cut[i]).num) == if i >= s.taken then New else Old
    ensures AckPacket(SeqOf(End(s.cut[i])), i) in AfterData(mode, s, Wire(s.cut[i]), i).net
  {
    LiveSegmentAnswered(s, i);
    JudgedOutstanding(s, i);
    if mode.Wrapping? {
      JudgedInCode(s, i);
      SeqOfPlus(s.cut[i].pos, |s.cut[i].data|);
    }
  }

  /** Where the next byte to be accepted will lie. */
  function AcceptPos(s: System): nat
    requires s.cut != []
  {
    SendPos(s) + |s.snd.pending|
  }

  lemma AcceptPosIs(s: System)
    requires Inv(s)
    ensures AcceptPos(s) == s.cut[0].pos + |s.accepted|
  {
    StreamSplit(s.cut, 1);
    StreamAppend([], s.cut[0]);
    assert [] + [s.cut[0]] == s.cut[..1];
    StreamLength(s.cut, 1, |s.cut|);
    assert s.cut[1..|s.cut|] == s.cut[1..];
  }

  lemma StepGrows(mode: Arithmetic, s: System, a: Action)
    requires Enabled(mode, s, a)
    ensures var t := Apply(mode, s, a);
            && s.cut <= t.cut && t.rcv.window == s.rcv.window && SendPos(s) <= SendPos(t)
            && s.accepted <= t.accepted && AcceptPos(t) - |t.accepted| == AcceptPos(s) - |s.accepted|
            && s.net <= t.net
  {
  }

  lemma {:induction false} RunGrows(mode: Arithmetic, s: System, actions: seq<Action>, last: System)
    requires Run(mode, s, actions, last) && s.cut != []
    ensures s.cut <= last.cut && last.rcv.window == s.rcv.window && SendPos(s) <= SendPos(last)
    ensures s.accepted <= last.accepted && AcceptPos(last) - |last.accepted| == AcceptPos(s) - |s.accepted|
    ensures s.net <= last.net
    decreases |actions|
  {
    if actions != [] {
      StepGrows(mode, s, actions[0]);
      RunGrows(mode, Apply(mode, s, actions[0]), actions[1..], last);
    }
  }

  lemma {:induction false} RunKeepsIn(mode: Arithmetic, s: System, actions: seq<Action>, last: System)
    requires Inv(s) && Run(mode, s, actions, last) && Fits(mode, last)
    ensures Inv(last)
    decreases |actions|
  {
    if actions != [] {
      StepGrows(mode, s, actions[0]);
      var t := Apply(mode, s, actions[0]);
      RunGrows(mode, t, actions[1..], last);
      StepKeepsIn(mode, s, actions[0]);
      RunKeepsIn(mode, t, actions[1..], last);
    }
  }

  /** End-to-end safety of the code: whatever the window, every state is safe that is reached by
      accepting fewer bytes than there are numbers from the first one to MAX_SEQ_NUM. */
  lemma {:induction false} CodeIsSafe(s: System, actions: seq<Action>, last: System)
    requires Init(s) && Run(Wrapping, s, actions, last)
    requires s.cut[0].pos + |last.accepted| < MAX_SEQ_NUM
    ensures Safe(last)
  {
    InitHolds(s);
    RunGrows(Wrapping, s, actions, last);
    RunKeepsIn(Wrapping, s, actions, last);
    InvIsSafe(last);
  }
}
