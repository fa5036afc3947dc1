/** Every step of the sliding-window machine keeps its invariant, and what follows for runs. */
module SlidingWindowSafety {
  import opened Bytes
  import opened SequenceSpace
  import AckList
  import opened SegmentList
  import opened Sender
  import opened Receiver
  import opened SlidingWindow

  lemma InitHolds(s: System)
    requires Init(s)
    ensures Inv(s)
  {
    var start := s.cut[0].pos;
    assert Wires(s.cut) == [Segment(SeqOf(start), [])];
    assert s.cut[..1] == s.cut;
    assert Payload([Segment(SeqOf(start), [])]) == Payload([]) + [];
    var acks := s.snd.acks;
    assert AckList.TotalSize(acks) == AckList.TotalSize(acks[..0]) + 0;
    assert EntryOf(acks[0], s.cut[0]);
    assert Held(s.cut, 1, [], 0);
  }

  lemma AcceptKeeps(s: System, message: seq<byte>)
    requires Inv(s) && Enabled(Modular, s, Accept(message))
    ensures Inv(Accepted(s, message))
  {
    var t := Accepted(s, message);
    assert t.accepted == Stream(s.cut) + t.snd.pending;
  }

  lemma TakeKeeps(s: System, size: nat)
    requires Inv(s)
    ensures Inv(AfterTake(s, size))
    ensures s.delivered <= AfterTake(s, size).delivered
  {
    var t := AfterTake(s, size);
    SplitConserves(s.rcv.buffers.ready, size);
    var (out, rest) := Split(s.rcv.buffers.ready, size);
    assert t.delivered + Payload(rest) == s.delivered + (out + Payload(rest));
  }

  lemma TransmitKeeps(s: System, i: nat)
    requires Inv(s) && Enabled(Modular, s, Transmit(i))
    ensures Inv(AfterTransmit(s, i))
  {
    assert PacketOk(DataPacket(Wire(s.cut[i]), i), s.cut, s.taken, s.rcv.buffers.early);
  }

  // ---- Cutting a segment ----

  lemma CutOkExtends(cut: seq<Sent>, data: seq<byte>)
    requires CutOk(cut) && data != []
    ensures CutOk(cut + [Sent(End(cut[|cut| - 1]), data)])
  {
    var more := cut + [Sent(End(cut[|cut| - 1]), data)];
    forall i | 0 < i < |more| ensures Follows(more, i) {
      if i < |cut| { assert Follows(cut, i); }
    }
  }

  lemma FromCutsExtends(cut: seq<Sent>, c: Sent, early: seq<Segment>, low: nat)
    requires FromCuts(cut, early, low)
    ensures FromCuts(cut + [c], early, low)
  {
    forall k | 0 <= k < |early| ensures IsCut(cut + [c], low, early[k]) {
      assert IsCut(cut, low, early[k]);
      var i :| low <= i < |cut| && early[k] == Wire(cut[i]);
      assert early[k] == Wire((cut + [c])[i]);
    }
  }

  lemma NetExtends(net: set<Packet>, cut: seq<Sent>, c: Sent, taken: nat, early: seq<Segment>)
    requires NetOk(net, cut, taken, early)
    ensures NetOk(net, cut + [c], taken, early)
  {
    forall p | p in net ensures PacketOk(p, cut + [c], taken, early) {
      assert PacketOk(p, cut, taken, early);
    }
  }

  lemma FlagsExtend(acks: seq<AckList.AckEntry>, num: nat, retired: nat, cut: seq<Sent>, c: Sent,
                    taken: nat, early: seq<Segment>)
    requires FlagsOk(acks, retired, cut, taken, early)
    ensures FlagsOk(acks + [AckList.AckEntry(num, false, |c.data|)], retired, cut + [c], taken, early)
  {
    var more := acks + [AckList.AckEntry(num, false, |c.data|)];
    forall j | 0 <= j < |more| && more[j].flag ensures Held(cut + [c], taken, early, retired + j) {
      assert Held(cut, taken, early, retired + j);
    }
  }

  lemma LiveExtends(live: set<nat>, acks: seq<AckList.AckEntry>, num: nat, retired: nat,
                    cut: seq<Sent>, c: Sent)
    requires LiveOk(live, acks, retired, cut) && cut != []
    ensures LiveOk(live + {|cut|}, acks + [AckList.AckEntry(num, false, |c.data|)], retired, cut + [c])
  {
    var more := acks + [AckList.AckEntry(num, false, |c.data|)];
    forall i | 1 <= i < |cut + [c]| ensures i in live + {|cut|} || Acknowledged(more, retired, i) {
      if i < |cut| { assert i in live || Acknowledged(acks, retired, i); }
    }
  }

  lemma SenderGrows(snd: SendState, cut: seq<Sent>, retired: nat, next: SendState, data: seq<byte>)
    requires SenderOk(snd, cut, retired) && Accounted(next) && data != []
    requires next.acks == snd.acks + [AckList.AckEntry(next.seqNum, false, |data|)]
    requires next.seqNum == SeqOf(End(cut[|cut| - 1]) + |data|)
    ensures SenderOk(next, cut + [Sent(End(cut[|cut| - 1]), data)], retired)
  {
    var more := cut + [Sent(End(cut[|cut| - 1]), data)];
    CutOkExtends(cut, data);
    forall j | 0 <= j < |next.acks| ensures EntryOf(next.acks[j], more[retired + j]) {
      if j < |snd.acks| { assert EntryOf(snd.acks[j], cut[retired + j]); }
    }
  }

  lemma CutKeeps(s: System)
    requires Inv(s) && Enabled(Modular, s, CutSegment)
    ensures Inv(AfterCut(Modular, s))
  {
    hide Plus, Remainder;
    var t := AfterCut(Modular, s);
    var c := t.cut[|s.cut|];
    var early := s.rcv.buffers.early;
    CutKeepsAccount(Modular, s.snd);
    SeqOfPlus(SendPos(s), |c.data|);
    SenderGrows(s.snd, s.cut, s.retired, t.snd, c.data);
    StreamAppend(s.cut, c);
    assert (Stream(s.cut) + c.data) + t.snd.pending == Stream(s.cut) + (c.data + t.snd.pending);
    FromCutsExtends(s.cut, c, early, s.taken + 1);
    NetExtends(s.net, s.cut, c, s.taken, early);
    assert t.cut[..s.taken] == s.cut[..s.taken];
    FlagsExtend(s.snd.acks, t.snd.seqNum, s.retired, s.cut, c, s.taken, early);
    LiveExtends(s.live, s.snd.acks, t.snd.seqNum, s.retired, s.cut, c);
    assert PacketOk(DataPacket(Wire(c), |s.cut|), t.cut, t.taken, early);
  }

  // ---- Sliding the window ----

  /** An early segment never starts at the next expected byte. */
  lemma NextIsNotEarly(cut: seq<Sent>, taken: nat, early: seq<Segment>)
    requires CutOk(cut) && 1 <= taken < |cut| && FromCuts(cut, early, taken + 1)
    requires End(cut[|cut| - 1]) < End(cut[taken - 1]) + MAX_SEQ_NUM
    ensures !Held(cut, taken, early, taken)
  {
    if Held(cut, taken, early, taken) {
      assert Follows(cut, taken);
      var e :| 0 <= e < |early| && early[e] == Wire(cut[taken]);
      assert IsCut(cut, taken + 1, early[e]);
      var i :| taken + 1 <= i < |cut| && early[e] == Wire(cut[i]);
      CutsRise(cut, taken, i);
      CutsRise(cut, i, |cut| - 1);
      NumbersApart(cut, taken, i);
    }
  }

  /** So the cuts of acknowledged entries at the front of the list have all been taken. */
  lemma HeldMeansTaken(s: System, k: nat)
    requires Placed(s) && k <= |s.snd.acks|
    requires FlagsOk(s.snd.acks, s.retired, s.cut, s.taken, s.rcv.buffers.early)
    requires forall j | 0 <= j < k :: s.snd.acks[j].flag
    ensures s.retired + k <= s.taken
  {
    if s.taken < s.retired + k {
      Sandwich(s);
      assert s.snd.acks[s.taken - s.retired].flag;
      NextIsNotEarly(s.cut, s.taken, s.rcv.buffers.early);
    }
  }

  lemma EntriesDrop(acks: seq<AckList.AckEntry>, cut: seq<Sent>, retired: nat, taken: nat,
                    early: seq<Segment>, k: nat)
    requires EntriesOk(acks, cut, retired) && FlagsOk(acks, retired, cut, taken, early)
    requires k <= |acks|
    ensures EntriesOk(acks[k..], cut, retired + k)
    ensures FlagsOk(acks[k..], retired + k, cut, taken, early)
  {
    var rest := acks[k..];
    forall j | 0 <= j < |rest|
      ensures EntryOf(rest[j], cut[retired + k + j])
      ensures rest[j].flag ==> Held(cut, taken, early, retired + k + j)
    {
      assert rest[j] == acks[k + j];
      assert EntryOf(acks[k + j], cut[retired + (k + j)]);
    }
  }

  lemma LiveSlides(live: set<nat>, acks: seq<AckList.AckEntry>, retired: nat, cut: seq<Sent>, k: nat)
    requires LiveOk(live, acks, retired, cut) && k <= |acks|
    ensures LiveOk(live, acks[k..], retired + k, cut)
  {
    forall i | 1 <= i < |cut| ensures i in live || Acknowledged(acks[k..], retired + k, i) {
      assert i in live || Acknowledged(acks, retired, i);
    }
  }

  lemma SlideKnows(s: System, k: nat)
    requires SenderOk(s.snd, s.cut, s.retired) && Knows(s) && k <= |s.snd.acks|
    ensures Knows(s.(snd := s.snd.(acks := s.snd.acks[k..]), retired := s.retired + k))
  {
    EntriesDrop(s.snd.acks, s.cut, s.retired, s.taken, s.rcv.buffers.early, k);
    LiveSlides(s.live, s.snd.acks, s.retired, s.cut, k);
  }

  lemma SlideAdvances(s: System, next: SendState, k: nat)
    requires Inv(s) && Accounted(next) && k <= |s.snd.acks|
    requires forall j | 0 <= j < k :: s.snd.acks[j].flag
    requires next.acks == s.snd.acks[k..] && next.seqNum == s.snd.seqNum
    requires next.pending == s.snd.pending && next.window == s.snd.window
    ensures Inv(s.(snd := next, retired := s.retired + k))
  {
    HeldMeansTaken(s, k);
    EntriesDrop(s.snd.acks, s.cut, s.retired, s.taken, s.rcv.buffers.early, k);
    SlideKnows(s, k);
  }

  lemma SlideKeeps(s: System)
    requires Inv(s) && s.snd.waiting
    ensures Inv(AfterSlide(s))
  {
    SlideKeepsAccount(s.snd);
    SlideAdvances(s, Slid(s.snd), AckList.Leading(s.snd.acks));
  }

  // ---- Acknowledgments ----

  /** An acknowledgment matches only the entry of the cut it was sent for, unless its number has come
      round to that of another. */
  lemma AckNamesItsCut(s: System, k: nat, i: nat)
    requires Placed(s)
    requires k < |s.snd.acks| && i < |s.cut| && FreshAck(s, i)
    requires s.snd.acks[k].num == SeqOf(End(s.cut[i]))
    ensures i == s.retired + k
  {
    hide SeqOf, FromCuts;
    Sandwich(s);
    assert EntryOf(s.snd.acks[k], s.cut[s.retired + k]);
    if s.retired <= i {
      CutsRise(s.cut, s.retired, i);
      CutsRise(s.cut, i, |s.cut| - 1);
      CutsRise(s.cut, s.retired, s.retired + k);
      CutsRise(s.cut, s.retired + k, |s.cut| - 1);
      EndsApart(s.cut, i, s.retired + k);
    }
  }

  lemma {:induction false} EntriesMark(acks: seq<AckList.AckEntry>, num: nat, cut: seq<Sent>, retired: nat, taken: nat,
                    early: seq<Segment>)
    requires EntriesOk(acks, cut, retired) && FlagsOk(acks, retired, cut, taken, early)
    requires var k := AckList.IndexOf(acks, num);
             k < |acks| ==> Held(cut, taken, early, retired + k)
    ensures EntriesOk(AckList.Marked(acks, num), cut, retired)
    ensures FlagsOk(AckList.Marked(acks, num), retired, cut, taken, early)
  {
    var marked := AckList.Marked(acks, num);
    forall j | 0 <= j < |marked| ensures EntryOf(marked[j], cut[retired + j]) {
      assert EntryOf(acks[j], cut[retired + j]);
    }
  }

  lemma LiveMarks(live: set<nat>, acks: seq<AckList.AckEntry>, num: nat, retired: nat, cut: seq<Sent>)
    requires LiveOk(live, acks, retired, cut)
    ensures LiveOk(live, AckList.Marked(acks, num), retired, cut)
  {
    forall i | 1 <= i < |cut| ensures i in live || Acknowledged(AckList.Marked(acks, num), retired, i) {
      assert i in live || Acknowledged(acks, retired, i);
    }
  }

  lemma AckKeeps(s: System, num: nat, i: nat)
    requires Inv(s) && Enabled(Modular, s, DeliverAck(num, i))
    ensures Inv(AfterAck(s, num))
  {
    var k := AckList.IndexOf(s.snd.acks, num);
    MarkKeepsAccount(s.snd, num);
    assert PacketOk(AckPacket(num, i), s.cut, s.taken, s.rcv.buffers.early);
    if k < |s.snd.acks| {
      AckNamesItsCut(s, k, i);
    }
    EntriesMark(s.snd.acks, num, s.cut, s.retired, s.taken, s.rcv.buffers.early);
    LiveMarks(s.live, s.snd.acks, num, s.retired, s.cut);
  }

  /** A retransmitter is told to stop exactly when its own segment has been acknowledged. */
  lemma StopMeansAcknowledged(s: System, i: nat)
    requires Placed(s) && s.retired <= i < |s.cut|
    ensures AckList.FlagOf(s.snd.acks, SeqOf(End(s.cut[i]))) == s.snd.acks[i - s.retired].flag
  {
    var j := i - s.retired;
    var k := AckList.IndexOf(s.snd.acks, SeqOf(End(s.cut[i])));
    assert EntryOf(s.snd.acks[j], s.cut[s.retired + j]);
    Sandwich(s);
    CutsRise(s.cut, s.retired, i);
    CutsRise(s.cut, i, |s.cut| - 1);
    AckNamesItsCut(s, k, i);
  }

  lemma LiveDrops(live: set<nat>, acks: seq<AckList.AckEntry>, retired: nat, cut: seq<Sent>, i: nat)
    requires LiveOk(live, acks, retired, cut) && i < |cut| && Acknowledged(acks, retired, i)
    ensures LiveOk(live - {i}, acks, retired, cut)
  {
    forall j | 1 <= j < |cut| ensures j in live - {i} || Acknowledged(acks, retired, j) {
      assert j in live || Acknowledged(acks, retired, j);
    }
  }

  lemma StopKeeps(s: System, i: nat)
    requires Inv(s) && Enabled(Modular, s, Stop(i))
    ensures Inv(AfterStop(Modular, s, i))
  {
    hide SenderOk, FlagsOk, NetOk;
    SeqOfPlus(s.cut[i].pos, |s.cut[i].data|);
    if AckList.FlagOf(s.snd.acks, SeqOf(End(s.cut[i]))) {
      if i >= s.retired {
        StopMeansAcknowledged(s, i);
      }
      LiveDrops(s.live, s.snd.acks, s.retired, s.cut, i);
    }
  }

  /** So a retransmitter ends exactly when its segment has been acknowledged, listed still or released
      before, unless its number has come round to that of a listed one; and no other ends with it. */
  lemma StopsExactly(s: System, i: nat)
    requires Inv(s) && Enabled(Modular, s, Stop(i)) && FreshAck(s, i)
    ensures i !in AfterStop(Modular, s, i).live <==> Acknowledged(s.snd.acks, s.retired, i)
    ensures AfterStop(Modular, s, i).live + {i} == s.live
  {
    hide SenderOk, FlagsOk, NetOk, LiveOk, ReceiverOk;
    SeqOfPlus(s.cut[i].pos, |s.cut[i].data|);
    if i >= s.retired {
      StopMeansAcknowledged(s, i);
    }
  }

  // ---- Data ----

  /** The early list without the segment of cut `k`, which the stream has reached. */
  lemma FromCutsWithout(cut: seq<Sent>, early: seq<Segment>, k: nat, e: nat)
    requires CutOk(cut) && 1 <= k < |cut| && FromCuts(cut, early, k)
    requires e < |early| && early[e].num == SeqOf(cut[k].pos)
    requires End(cut[|cut| - 1]) < cut[k].pos + MAX_SEQ_NUM
    ensures early[e] == Wire(cut[k])
    ensures FromCuts(cut, Without(early, e), k + 1)
    ensures forall segment | segment in early :: segment == early[e] || segment in Without(early, e)
  {
    hide SeqOf, CutOk;
    WithoutMembers(early, e);
    var rest := Without(early, e);
    var same := KeptCut(cut, early, k, e, e);
    forall j | 0 <= j < |rest| ensures IsCut(cut, k + 1, rest[j]) {
      var was := if j < e then j else j + 1;
      var i := KeptCut(cut, early, k, e, was);
      assert rest[j] == early[was] == Wire(cut[i]);
    }
  }

  lemma WithoutMembers(early: seq<Segment>, e: nat)
    requires e < |early|
    ensures forall segment | segment in early :: segment == early[e] || segment in Without(early, e)
  {
    var rest := Without(early, e);
    forall segment | segment in early ensures segment == early[e] || segment in rest {
      var j :| 0 <= j < |early| && early[j] == segment;
      if j < e { assert rest[j] == segment; } else if j > e { assert rest[j - 1] == segment; }
    }
  }

  /** The cut an early segment stands for, which is the `k`-th only if it has its number. */
  lemma KeptCut(cut: seq<Sent>, early: seq<Segment>, k: nat, e: nat, j: nat) returns (i: nat)
    requires CutOk(cut) && 1 <= k < |cut| && FromCuts(cut, early, k)
    requires e < |early| && early[e].num == SeqOf(cut[k].pos) && j < |early|
    requires End(cut[|cut| - 1]) < cut[k].pos + MAX_SEQ_NUM
    ensures k <= i < |cut| && early[j] == Wire(cut[i]) && (i == k <==> j == e)
  {
    hide SeqOf;
    assert IsCut(cut, k, early[j]);
    i :| k <= i < |cut| && early[j] == Wire(cut[i]);
    CutsRise(cut, k, i);
    CutsRise(cut, i, |cut| - 1);
    if early[j].num == early[e].num { NumbersApart(cut, k, i); }
  }

  /** `run` is exactly the maximal run of kept cuts from `k` on; `reached` is where it stops, and
      the cut it stopped at is not among those left. */
  predicate Drained(cut: seq<Sent>, early: seq<Segment>, k: nat,
                    run: seq<Segment>, rest: seq<Segment>, reached: nat)
  {
    && k <= reached <= |cut|
    && run == Wires(cut[k..reached])
    && FromCuts(cut, rest, reached + 1)
    && forall i | 0 <= i < |cut| && Held(cut, k, early, i) :: Held(cut, reached, rest, i)
  }

  lemma NoneAtNext(cut: seq<Sent>, early: seq<Segment>, k: nat)
    requires CutOk(cut) && 1 <= k <= |cut| && FromCuts(cut, early, k)
    requires forall j | 0 <= j < |early| :: early[j].num != SeqOf(End(cut[k - 1]))
    ensures FromCuts(cut, early, k + 1)
  {
    if k < |cut| {
      assert Follows(cut, k);
    }
    forall j | 0 <= j < |early| ensures IsCut(cut, k + 1, early[j]) {
      assert IsCut(cut, k, early[j]);
      var i :| k <= i < |cut| && early[j] == Wire(cut[i]);
      assert early[j].num != SeqOf(End(cut[k - 1]));
    }
  }

  lemma {:induction false} DrainStops(cut: seq<Sent>, early: seq<Segment>, k: nat)
    requires CutOk(cut) && 1 <= k <= |cut| && FromCuts(cut, early, k)
    requires IndexOf(early, SeqOf(End(cut[k - 1]))) == |early|
    ensures Drained(cut, early, k, [], early, k)
  {
    NoneAtNext(cut, early, k);
  }

  lemma DrainGoesOn(cut: seq<Sent>, early: seq<Segment>, k: nat, e: nat,
                    run: seq<Segment>, rest: seq<Segment>, reached: nat)
    requires CutOk(cut) && 1 <= k < |cut| && FromCuts(cut, early, k)
    requires e < |early| && early[e].num == SeqOf(cut[k].pos)
    requires End(cut[|cut| - 1]) < cut[k].pos + MAX_SEQ_NUM
    requires Drained(cut, Without(early, e), k + 1, run, rest, reached)
    ensures Drained(cut, early, k, [early[e]] + run, rest, reached)
  {
    FromCutsWithout(cut, early, k, e);
    assert Wires(cut[k..reached]) == [Wire(cut[k])] + Wires(cut[k + 1..reached]);
    forall i | 0 <= i < |cut| && Held(cut, k, early, i) ensures Held(cut, reached, rest, i) {
      if i > k && Wire(cut[i]) == Wire(cut[k]) {
        CutsRise(cut, k, i);
        CutsRise(cut, i, |cut| - 1);
        NumbersApart(cut, k, i);
      }
      assert Held(cut, k + 1, Without(early, e), i);
    }
  }

  lemma EarlyIsCut(cut: seq<Sent>, early: seq<Segment>, k: nat, e: nat)
    requires FromCuts(cut, early, k) && e < |early|
    ensures k < |cut|
  {
    assert IsCut(cut, k, early[e]);
  }

  lemma {:induction false} DrainFollows(cut: seq<Sent>, early: seq<Segment>, k: nat) returns (reached: nat)
    requires CutOk(cut) && 1 <= k <= |cut| && FromCuts(cut, early, k)
    requires End(cut[|cut| - 1]) < End(cut[k - 1]) + MAX_SEQ_NUM
    ensures var (run, rest) := Drain(early, SeqOf(End(cut[k - 1])));
            Drained(cut, early, k, run, rest, reached)
    decreases |early|
  {
    hide FromCuts, Drained, SeqOf, Plus;
    var base := SeqOf(End(cut[k - 1]));
    var e := IndexOf(early, base);
    if e == |early| {
      reached := k;
      DrainStops(cut, early, k);
    } else {
      EarlyIsCut(cut, early, k, e);
      assert Follows(cut, k);
      CutsRise(cut, k, |cut| - 1);
      FromCutsWithout(cut, early, k, e);
      SeqOfPlus(cut[k].pos, |cut[k].data|);
      reached := DrainFollows(cut, Without(early, e), k + 1);
      var (run, rest) := Drain(Without(early, e), SeqOf(End(cut[k])));
      DrainGoesOn(cut, early, k, e, run, rest, reached);
    }
  }

  /** Appending the cuts from `i` up to `reached` extends the stream by exactly their bytes. */
  lemma {:induction false} AppendedStream(cut: seq<Sent>, i: nat, reached: nat,
                                          delivered: seq<byte>, ready: seq<Segment>)
    requires CutOk(cut) && 1 <= i < reached <= |cut|
    requires delivered + Payload(ready) == Stream(cut[..i])
    ensures delivered + Payload(ready + Wires(cut[i..reached])) == Stream(cut[..reached])
    ensures |Stream(cut[i..reached])| == End(cut[reached - 1]) - End(cut[i - 1])
  {
    hide Payload, Wires, CutOk;
    StreamSplit(cut[..reached], i);
    assert cut[..reached][..i] == cut[..i] && cut[..reached][i..] == cut[i..reached];
    PayloadConcat(ready, Wires(cut[i..reached]));
    assert delivered + (Payload(ready) + Stream(cut[i..reached]))
        == (delivered + Payload(ready)) + Stream(cut[i..reached]);
    StreamLength(cut, i, reached);
  }

  lemma {:induction false} StreamLength(cut: seq<Sent>, i: nat, j: nat)
    requires CutOk(cut) && 1 <= i <= j <= |cut|
    ensures |Stream(cut[i..j])| == End(cut[j - 1]) - End(cut[i - 1])
    decreases j
  {
    if i < j {
      StreamLength(cut, i, j - 1);
      assert Follows(cut, j - 1);
      StreamAppend(cut[i..j - 1], cut[j - 1]);
      assert cut[i..j] == cut[i..j - 1] + [cut[j - 1]];
    }
  }

  /** Inserting the next expected cut appends it and the whole run after it. */
  lemma InsertedInOrder(cut: seq<Sent>, taken: nat, b: Buffers) returns (reached: nat, rest: seq<Segment>)
    requires CutOk(cut) && 1 <= taken < |cut| && FromCuts(cut, b.early, taken + 1)
    requires End(cut[|cut| - 1]) < End(cut[taken - 1]) + MAX_SEQ_NUM
    ensures taken < reached <= |cut|
    ensures Inserted(b, Wire(cut[taken]), SeqOf(End(cut[taken - 1])))
            == (Buffers(b.ready + Wires(cut[taken..reached]), rest), |Stream(cut[taken..reached])|)
    ensures FromCuts(cut, rest, reached + 1)
    ensures forall i | 0 <= i < |cut| && Held(cut, taken, b.early, i) :: Held(cut, reached, rest, i)
  {
    var k := taken + 1;
    assert Follows(cut, taken);
    SeqOfPlus(cut[taken].pos, |cut[taken].data|);
    CutsRise(cut, taken, |cut| - 1);
    reached := DrainFollows(cut, b.early, k);
    var (run, left) := Drain(b.early, SeqOf(End(cut[taken])));
    rest := left;
    assert Wires(cut[taken..reached]) == [Wire(cut[taken])] + run;
    forall i | 0 <= i < |cut| && Held(cut, taken, b.early, i) ensures Held(cut, reached, rest, i) {
      assert Held(cut, k, b.early, i);
    }
  }

  /** A cut that arrives early is kept, whether it is stored now or was stored before. */
  lemma InsertedEarly(cut: seq<Sent>, taken: nat, early: seq<Segment>, i: nat)
    requires CutOk(cut) && 1 <= taken < i < |cut| && FromCuts(cut, early, taken + 1)
    requires End(cut[|cut| - 1]) < End(cut[taken - 1]) + MAX_SEQ_NUM
    ensures FromCuts(cut, Stored(early, Wire(cut[i])), taken + 1)
    ensures Held(cut, taken, Stored(early, Wire(cut[i])), i)
    ensures early <= Stored(early, Wire(cut[i]))
  {
    var e := IndexOf(early, Wire(cut[i]).num);
    if e < |early| {
      assert IsCut(cut, taken + 1, early[e]);
      var j :| taken + 1 <= j < |cut| && early[e] == Wire(cut[j]);
      CutsRise(cut, taken - 1, i);
      CutsRise(cut, taken - 1, j);
      CutsRise(cut, i, |cut| - 1);
      CutsRise(cut, j, |cut| - 1);
      NumbersApart(cut, i, j);
    } else {
      assert IsCut(cut, taken + 1, Wire(cut[i]));
      assert (early + [Wire(cut[i])])[|early|] == Wire(cut[i]);
    }
  }

  lemma AheadOf(position: nat, distance: nat)
    requires distance < MAX_SEQ_NUM
    ensures Ahead(SeqOf(position), SeqOf(position + distance)) == distance
  {
    SeqOfPlus(position, distance);
  }

  lemma JudgedAt(r: RecvState, here: nat, there: nat)
    requires Around(r) && r.next == SeqOf(here)
    requires here + r.window < there + MAX_SEQ_NUM && there < here + r.window
    ensures Judged(Modular, r, SeqOf(there))
            == if there >= here then New
               else if here - there <= Ahead(r.prev, r.next) then Old
               else Discard
  {
    if there >= here {
      AheadOf(here, there - here);
    } else {
      AheadOf(there, here - there);
    }
  }

  /** The numbers alone tell the receiver whether a segment is new. */
  lemma JudgedRight(s: System, i: nat)
    requires Placed(s) && 1 <= i < |s.cut| && FreshData(s, i)
    ensures Judged(Modular, s.rcv, Wire(s.cut[i]).num) == New <==> i >= s.taken
  {
    if i >= s.taken {
      Sandwich(s);
      CutsRise(s.cut, i, |s.cut| - 1);
      OneLess(s.cut, i);
      CutsRise(s.cut, s.taken - 1, i);
      JudgedAt(s.rcv, RecvPos(s), s.cut[i].pos);
    }
  }

  /** A segment that the sender still keeps an entry for lies within a window of what is expected. */
  lemma OutstandingAt(s: System, i: nat)
    requires Placed(s) && 1 <= i && s.retired <= i < |s.cut|
    ensures Around(s.rcv) && 1 <= s.taken <= |s.cut| && s.rcv.next == SeqOf(RecvPos(s))
    ensures s.cut[i].pos < RecvPos(s) + s.rcv.window && RecvPos(s) <= s.cut[i].pos + s.rcv.window
    ensures i >= s.taken <==> s.cut[i].pos >= RecvPos(s)
  {
    hide SeqOf, FromCuts;
    Sandwich(s);
    CutsRise(s.cut, s.retired, i);
    CutsRise(s.cut, i, |s.cut| - 1);
    OneLess(s.cut, i);
    if i >= s.taken {
      CutsRise(s.cut, s.taken - 1, i);
    } else {
      CutsRise(s.cut, i, s.taken - 1);
    }
  }

  /** A copy of a segment that the sender still keeps an entry for is never out of date. */
  lemma JudgedOutstanding(s: System, i: nat)
    requires Placed(s) && 1 <= i && s.retired <= i < |s.cut|
    ensures FreshData(s, i)
    ensures Judged(Modular, s.rcv, Wire(s.cut[i]).num) == if i >= s.taken then New else Old
  {
    hide SeqOf, Placed;
    OutstandingAt(s, i);
    JudgedAt(s.rcv, RecvPos(s), s.cut[i].pos);
  }

  /** Below a turn less a window no number comes round, and the proviso holds of itself. */
  lemma FreshBelowATurn(s: System, i: nat)
    requires Placed(s) && 1 <= i < |s.cut| && SendPos(s) + s.rcv.window < s.cut[0].pos + MAX_SEQ_NUM
    ensures FreshData(s, i) && FreshAck(s, i)
  {
    hide Placed, FreshData, FreshAck;
    InBounds(s, i);
    DataFreshBelow(s, i);
    AckFreshBelow(s, i);
  }

  lemma InBounds(s: System, i: nat)
    requires Placed(s) && i < |s.cut|
    ensures s.cut[0].pos <= s.cut[i].pos <= End(s.cut[i]) <= SendPos(s)
    ensures 1 <= s.taken <= |s.cut| && RecvPos(s) <= SendPos(s)
    ensures i < s.taken ==> End(s.cut[i]) <= RecvPos(s)
    ensures Around(s.rcv) && s.rcv.next == SeqOf(RecvPos(s))
  {
    CutsRise(s.cut, 0, i);
    CutsRise(s.cut, i, |s.cut| - 1);
    CutsRise(s.cut, s.taken - 1, |s.cut| - 1);
    if i < s.taken { CutsRise(s.cut, i, s.taken - 1); }
  }

  lemma DataFreshBelow(s: System, i: nat)
    requires Placed(s) && 1 <= i < |s.cut| && SendPos(s) + s.rcv.window < s.cut[0].pos + MAX_SEQ_NUM
    ensures FreshData(s, i)
  {
    InBounds(s, i);
    OneLess(s.cut, i);
    if i < s.taken {
      hide Placed, SeqOf;
      JudgedAt(s.rcv, RecvPos(s), s.cut[i].pos);
    }
  }

  lemma AckFreshBelow(s: System, i: nat)
    requires Placed(s) && i < |s.cut| && SendPos(s) < s.cut[0].pos + MAX_SEQ_NUM
    ensures FreshAck(s, i)
  {
    hide SeqOf, ReceiverOk;
    var k := AckList.IndexOf(s.snd.acks, SeqOf(End(s.cut[i])));
    if i < s.retired && k < |s.snd.acks| {
      assert EntryOf(s.snd.acks[k], s.cut[s.retired + k]);
      CutsRise(s.cut, 0, i);
      CutsRise(s.cut, i, s.retired + k);
      CutsRise(s.cut, s.retired + k, |s.cut| - 1);
      EndsApart(s.cut, i, s.retired + k);
    }
  }

  lemma OneLess(cut: seq<Sent>, i: nat)
    requires CutOk(cut) && 1 <= i < |cut|
    ensures cut[i].pos < End(cut[i])
  {
    assert Follows(cut, i);
  }

  lemma ReceiverMoves(r: RecvState, cut: seq<Sent>, taken: nat, segment: Segment, taken': nat)
    requires ReceiverOk(r, cut, taken) && segment.num < MAX_SEQ_NUM && 1 <= taken' <= |cut|
    requires var (buffers, advance) := Inserted(r.buffers, segment, r.next);
             && End(cut[taken' - 1]) == End(cut[taken - 1]) + advance
             && FromCuts(cut, buffers.early, taken' + 1)
    ensures ReceiverOk(Taken(Modular, r, segment), cut, taken')
  {
    hide FromCuts, Inserted;
    var t := Taken(Modular, r, segment);
    SeqOfPlus(End(cut[taken - 1]), Inserted(r.buffers, segment, r.next).1);
    AheadOf(t.next, r.window);
    AheadOf(t.next, MAX_SEQ_NUM - r.window);
  }

  lemma NetGains(net: set<Packet>, cut: seq<Sent>, taken: nat, early: seq<Segment>,
                 taken': nat, early': seq<Segment>, i: nat)
    requires NetOk(net, cut, taken, early) && i < |cut| && Held(cut, taken', early', i)
    requires forall j | 0 <= j < |cut| && Held(cut, taken, early, j) :: Held(cut, taken', early', j)
    ensures NetOk(net + {AckPacket(SeqOf(End(cut[i])), i)}, cut, taken', early')
  {
    forall p | p in net ensures PacketOk(p, cut, taken', early') {
      assert PacketOk(p, cut, taken, early);
    }
  }

  /** Whatever the receiver still holds afterwards, everybody still knows. */
  lemma KnowledgeGrows(s: System, taken: nat, rcv: RecvState, i: nat)
    requires Knows(s) && i < |s.cut| && Held(s.cut, taken, rcv.buffers.early, i)
    requires forall j | 0 <= j < |s.cut| && Held(s.cut, s.taken, s.rcv.buffers.early, j) ::
               Held(s.cut, taken, rcv.buffers.early, j)
    ensures Knows(s.(taken := taken, rcv := rcv, net := s.net + {AckPacket(SeqOf(End(s.cut[i])), i)}))
  {
    NetGains(s.net, s.cut, s.taken, s.rcv.buffers.early, taken, rcv.buffers.early, i);
  }

  /** The receiver after a new segment: all that matters of what was inserted. */
  lemma DataTaken(s: System, segment: Segment, i: nat, buffers: Buffers, advance: nat, taken: nat)
    requires Inv(s) && i < |s.cut| && segment == Wire(s.cut[i])
    requires Judged(Modular, s.rcv, segment.num) == New
    requires Inserted(s.rcv.buffers, segment, s.rcv.next) == (buffers, advance)
    requires taken == if |buffers.ready| > |s.rcv.buffers.ready|
                      then s.taken + |buffers.ready| - |s.rcv.buffers.ready| else s.taken
    requires s.taken <= taken <= |s.cut|
    requires End(s.cut[taken - 1]) == RecvPos(s) + advance
    requires FromCuts(s.cut, buffers.early, taken + 1)
    requires s.delivered + Payload(buffers.ready) == Stream(s.cut[..taken])
    requires Held(s.cut, taken, buffers.early, i)
    requires forall j | 0 <= j < |s.cut| && Held(s.cut, s.taken, s.rcv.buffers.early, j) ::
               Held(s.cut, taken, buffers.early, j)
    ensures Inv(AfterData(Modular, s, segment, i))
  {
    hide SenderOk, Knows, Held, FromCuts, SeqOf, Plus, Stream, Payload, Ahead;
    var rcv := Taken(Modular, s.rcv, segment);
    ReceiverMoves(s.rcv, s.cut, s.taken, segment, taken);
    SeqOfPlus(s.cut[i].pos, |s.cut[i].data|);
    KnowledgeGrows(s, taken, rcv, i);
    assert AfterData(Modular, s, segment, i)
        == s.(taken := taken, rcv := rcv, net := s.net + {AckPacket(SeqOf(End(s.cut[i])), i)});
  }

  lemma DataInOrder(s: System, i: nat)
    requires Inv(s) && i == s.taken < |s.cut|
    requires Judged(Modular, s.rcv, Wire(s.cut[i]).num) == New
    ensures Inv(AfterData(Modular, s, Wire(s.cut[i]), i))
  {
    Sandwich(s);
    assert Follows(s.cut, i);
    var reached, rest := InsertedInOrder(s.cut, i, s.rcv.buffers);
    AppendedStream(s.cut, i, reached, s.delivered, s.rcv.buffers.ready);
    var (buffers, advance) := Inserted(s.rcv.buffers, Wire(s.cut[i]), s.rcv.next);
    DataTaken(s, Wire(s.cut[i]), i, buffers, advance, reached);
  }

  lemma DataEarly(s: System, i: nat)
    requires Inv(s) && s.taken < i < |s.cut|
    requires Judged(Modular, s.rcv, Wire(s.cut[i]).num) == New
    ensures Inv(AfterData(Modular, s, Wire(s.cut[i]), i))
  {
    Sandwich(s);
    NotNext(s, i);
    InsertedEarly(s.cut, s.taken, s.rcv.buffers.early, i);
    var (buffers, advance) := Inserted(s.rcv.buffers, Wire(s.cut[i]), s.rcv.next);
    DataTaken(s, Wire(s.cut[i]), i, buffers, advance, s.taken);
  }

  lemma NotNext(s: System, i: nat)
    requires Placed(s) && s.taken < i < |s.cut|
    ensures Wire(s.cut[i]).num != s.rcv.next
  {
    Sandwich(s);
    assert Follows(s.cut, s.taken);
    CutsRise(s.cut, s.taken, i);
    CutsRise(s.cut, i, |s.cut| - 1);
    if SeqOf(s.cut[i].pos) == SeqOf(s.cut[s.taken].pos) {
      NumbersApart(s.cut, s.taken, i);
    }
  }

  lemma DataKeeps(s: System, segment: Segment, i: nat)
    requires Inv(s) && Enabled(Modular, s, DeliverData(segment, i))
    ensures Inv(AfterData(Modular, s, segment, i))
  {
    assert PacketOk(DataPacket(segment, i), s.cut, s.taken, s.rcv.buffers.early);
    JudgedRight(s, i);
    if i == s.taken {
      DataInOrder(s, i);
    } else if i > s.taken {
      DataEarly(s, i);
    } else {
      SeqOfPlus(s.cut[i].pos, |s.cut[i].data|);
      KnowledgeGrows(s, s.taken, s.rcv, i);
    }
  }

  // ---- Runs ----

  lemma StepKeeps(s: System, a: Action)
    requires Inv(s) && Enabled(Modular, s, a)
    ensures Inv(Apply(Modular, s, a))
  {
    match a
    case Accept(message) => AcceptKeeps(s, message);
    case CutSegment => CutKeeps(s);
    case Slide => SlideKeeps(s);
    case Transmit(i) => TransmitKeeps(s, i);
    case Stop(i) => StopKeeps(s, i);
    case DeliverData(segment, i) => DataKeeps(s, segment, i);
    case DeliverAck(num, i) => AckKeeps(s, num, i);
    case Take(size) => TakeKeeps(s, size);
  }

  /** The state after a list of actions, each of which must be enabled when its turn comes. */
  predicate Run(mode: Arithmetic, s: System, actions: seq<Action>, last: System)
    decreases |actions|
  {
    if actions == [] then last == s
    else Enabled(mode, s, actions[0]) && Run(mode, Apply(mode, s, actions[0]), actions[1..], last)
  }

  /** Runs can be joined. */
  lemma {:induction false} RunOn(mode: Arithmetic, s: System, first: seq<Action>, middle: System,
                                 second: seq<Action>, last: System)
    requires Run(mode, s, first, middle) && Run(mode, middle, second, last)
    ensures Run(mode, s, first + second, last)
    decreases |first|
  {
    if first == [] {
      assert first + second == second;
    } else {
      assert (first + second)[1..] == first[1..] + second;
      RunOn(mode, Apply(mode, s, first[0]), first[1..], middle, second, last);
    }
  }

  lemma {:induction false} RunKeeps(s: System, actions: seq<Action>, last: System)
    requires Inv(s) && Run(Modular, s, actions, last)
    ensures Inv(last)
    decreases |actions|
  {
    if actions != [] {
      StepKeeps(s, actions[0]);
      RunKeeps(Apply(Modular, s, actions[0]), actions[1..], last);
    }
  }

  /** What the protocol promises of a state: the bytes read, followed by those ready to be read,
      are those of the segments taken, in order, and a prefix of the bytes accepted; the receiver holds
      every acknowledged segment, taken or early; and retransmission has stopped only for acknowledged
      segments. */
  predicate Safe(s: System) {
    && s.retired + |s.snd.acks| == |s.cut|
    && s.delivered + Payload(s.rcv.buffers.ready) <= s.accepted
    && s.taken <= |s.cut| && s.delivered + Payload(s.rcv.buffers.ready) == Stream(s.cut[..s.taken])
    && (forall i | 0 <= i < |s.cut| && Acknowledged(s.snd.acks, s.retired, i) ::
          Held(s.cut, s.taken, s.rcv.buffers.early, i))
    && (forall i | 1 <= i < |s.cut| && i !in s.live :: Acknowledged(s.snd.acks, s.retired, i))
  }

  lemma DeliveredInOrder(s: System)
    requires Inv(s)
    ensures s.delivered + Payload(s.rcv.buffers.ready) <= s.accepted
  {
    StreamSplit(s.cut, s.taken);
    var got := s.delivered + Payload(s.rcv.buffers.ready);
    assert s.accepted == got + (Stream(s.cut[s.taken..]) + s.snd.pending);
  }

  lemma InvIsSafe(s: System)
    requires Inv(s)
    ensures Safe(s)
  {
    DeliveredInOrder(s);
    forall i | 0 <= i < |s.cut| && Acknowledged(s.snd.acks, s.retired, i)
      ensures Held(s.cut, s.taken, s.rcv.buffers.early, i)
    {
      if i >= s.retired {
        assert Held(s.cut, s.taken, s.rcv.buffers.early, s.retired + (i - s.retired));
      }
    }
  }

  /** End-to-end safety: in every run, however the network loses, repeats and reorders, every
      state is safe and the window sandwich holds. */
  lemma {:induction false} RunIsSafe(s: System, actions: seq<Action>, last: System)
    requires Init(s) && Run(Modular, s, actions, last)
    ensures Safe(last)
    ensures Placed(last)
    ensures BasePos(last) <= RecvPos(last) <= SendPos(last) <= BasePos(last) + last.snd.window
  {
    InitHolds(s);
    RunKeeps(s, actions, last);
    InvIsSafe(last);
    Sandwich(last);
  }

  /** A copy of a segment that the sender still waits for is never too old and never discarded:
      whenever it arrives it is acknowledged. */
  lemma LiveSegmentAnswered(s: System, i: nat)
    requires Inv(s) && s.retired <= i < |s.cut| && 1 <= i
    ensures FreshData(s, i)
    ensures Judged(Modular, s.rcv, Wire(s.cut[i]).num) != Discard
    ensures AckPacket(SeqOf(End(s.cut[i])), i) in AfterData(Modular, s, Wire(s.cut[i]), i).net
  {
    JudgedOutstanding(s, i);
    SeqOfPlus(s.cut[i].pos, |s.cut[i].data|);
  }
}
