/** Opening a connection: one attempt of side A to connect to side B over a network that loses,
    duplicates and reorders, up to the states from which SlidingWindow starts. */
module Handshake {
  import opened Bytes
  import opened SequenceSpace
  import opened AckList
  import opened SegmentList
  import opened Sender
  import opened Receiver
  import SlidingWindow

  // rand() yields less than this.
  const RANDOM_BOUND: nat := 0x8000_0000

  /** The connection state of a service point. `wedged` says that the connection mutex was left
      locked, so that no step that needs it can be taken any more. */
  datatype Phase = Closed | Connecting | Connected

  datatype Point = Point(
    phase: Phase,
    wedged: bool,
    window: nat,
    seqNum: nat,
    acks: seq<AckEntry>,
    prev: nat,
    next: nat,
    end: nat)

  datatype Packet =
    | Syn(num: nat, window: nat)
    | SynAck(num: nat, ack: nat, window: nat)
    | PlainAck(num: nat)

  /** The first number of a side: a random number moved up by a window. */
  function FirstNumber(random: nat, window: nat): nat {
    (random % MAX_SEQ_NUM + window) % MAX_SEQ_NUM
  }

  function AfterFirst(first: nat): nat {
    Plus(Wrapping, first, 1)
  }

  function Unopened(): Point {
    Point(Closed, false, 0, 0, [], 0, 0, 0)
  }

  /** The active side chooses its first number and announces it. The window it was asked for moves
      the number up as it is; what is stored and announced is cut to 16 bits. */
  function Opening(p: Point, random: nat, size: nat): (Point, Packet) {
    var first, window := FirstNumber(random, size), size % WORD_16;
    (p.(phase := Connecting,
        window := window,
        seqNum := AfterFirst(first),
        acks := p.acks + [AckEntry(AfterFirst(first), false, 0)]),
     Syn(first, window))
  }

  /** The passive side takes over the numbers and the window of the other side. The remainder in
      the sum for `prev` applies to its second operand only. */
  function Answering(p: Point, num: nat, window: nat, random: nat): (Point, Packet)
    requires window <= MAX_SEQ_NUM
  {
    var first := FirstNumber(random, window);
    var next := AfterFirst(num);
    (p.(phase := Connected,
        window := window,
        seqNum := AfterFirst(first),
        acks := p.acks + [AckEntry(AfterFirst(first), false, 0)],
        prev := (num + (MAX_SEQ_NUM - window) % MAX_SEQ_NUM) % WORD_32,
        next := next,
        end := Plus(Wrapping, num, window)),
     SynAck(first, next, window))
  }

  /** The active side learns the numbers of the passive side and confirms them once. */
  function Confirming(p: Point, num: nat, ack: nat, window: nat): (Point, Packet)
    requires window <= MAX_SEQ_NUM
  {
    var next := AfterFirst(num);
    (p.(phase := Connected,
        acks := Marked(p.acks, ack),
        prev := Plus(Modular, num, MAX_SEQ_NUM - window),
        next := next,
        end := Plus(Wrapping, num, window)),
     PlainAck(next))
  }

  class ServicePoint {
    var point: Point

    constructor ()
      ensures point == Unopened()
    {
      point := Unopened();
    }

    /** Returns whether a connection attempt was started. */
    method Connect(random: nat, size: nat) returns (started: bool, packet: Packet)
      requires !point.wedged
      modifies this
      ensures started <==> old(point).phase == Closed
      ensures started ==> (point, packet) == Opening(old(point), random, size)
      ensures !started ==> point == old(point)
    {
      if point.phase != Closed {
        return false, PlainAck(0);
      }
      var first := (random % MAX_SEQ_NUM + size) % MAX_SEQ_NUM;
      var window := size % WORD_16;
      var after := Plus(Wrapping, first, 1);
      point := point.(window := window, acks := point.acks + [AckEntry(after, false, 0)]);
      packet := Syn(first, window);
      point := point.(seqNum := after, phase := Connecting);
      started := true;
    }

    method OnSyn(num: nat, window: nat, random: nat) returns (answered: bool, packet: Packet)
      requires !point.wedged && window <= MAX_SEQ_NUM
      modifies this
      ensures answered <==> old(point).phase == Closed
      ensures answered ==> (point, packet) == Answering(old(point), num, window, random)
      ensures !answered ==> point == old(point)
    {
      if point.phase != Closed {
        return false, PlainAck(0);
      }
      point := point.(window := window, next := Plus(Wrapping, num, 1));
      point := point.(prev := (num + (MAX_SEQ_NUM - window) % MAX_SEQ_NUM) % WORD_32);
      point := point.(end := Plus(Wrapping, num, window));
      var first := (random % MAX_SEQ_NUM + window) % MAX_SEQ_NUM;
      point := point.(acks := point.acks + [AckEntry(Plus(Wrapping, first, 1), false, 0)]);
      packet := SynAck(first, point.next, window);
      point := point.(seqNum := Plus(Wrapping, first, 1), phase := Connected);
      answered := true;
    }

    method OnSynAck(num: nat, ack: nat, window: nat) returns (confirmed: bool, packet: Packet)
      requires !point.wedged && window <= MAX_SEQ_NUM
      modifies this
      ensures confirmed <==> old(point).phase == Connecting
      ensures confirmed ==> (point, packet) == Confirming(old(point), num, ack, window)
      ensures !confirmed ==> point == old(point)
    {
      if point.phase != Connecting {
        return false, PlainAck(0);
      }
      point := point.(acks := Marked(point.acks, ack), next := Plus(Wrapping, num, 1));
      point := point.(prev := Plus(Modular, num, MAX_SEQ_NUM - window));
      point := point.(end := Plus(Wrapping, num, window));
      packet := PlainAck(point.next);
      point := point.(phase := Connected);
      confirmed := true;
    }
  }

  // ---- The attempt as a state machine ----

  /** Both service points and every packet ever sent. `randomA` and `randomB` remember the
      random numbers the sides drew. */
  datatype Attempt = Attempt(a: Point, b: Point, net: set<Packet>, randomA: nat, randomB: nat)

  datatype Action =
    | Connect(random: nat, window: nat)
    | DeliverSyn(num: nat, window: nat, random: nat)
    | DeliverSynAck(num: nat, ack: nat, window: nat)
    | DeliverAck(num: nat)
    | StrayData

  function Start(): Attempt {
    Attempt(Unopened(), Unopened(), {}, 0, 0)
  }

  predicate Enabled(t: Attempt, action: Action) {
    match action
    case Connect(random, window) =>
      !t.a.wedged && t.a.phase == Closed && random < RANDOM_BOUND && 1 <= window <= SlidingWindow.MAX_WINDOW
    case DeliverSyn(num, window, random) =>
      !t.b.wedged && Syn(num, window) in t.net && random < RANDOM_BOUND && window <= MAX_SEQ_NUM
    case DeliverSynAck(num, ack, window) =>
      !t.a.wedged && SynAck(num, ack, window) in t.net && window <= MAX_SEQ_NUM
    case DeliverAck(num) => PlainAck(num) in t.net
    // The passive side may send data as soon as it is connected.
    case StrayData => !t.a.wedged && t.a.phase != Connected && t.b.phase == Connected
  }

  /** A repeated SYN or SYN+ACK finds its side past the phase that takes it and changes nothing.
      Data that reaches a side which is not connected leaves the connection mutex locked. */
  function Apply(t: Attempt, action: Action): Attempt
    requires Enabled(t, action)
  {
    match action
    case Connect(random, window) =>
      var (a, packet) := Opening(t.a, random, window);
      t.(a := a, net := t.net + {packet}, randomA := random)
    case DeliverSyn(num, window, random) =>
      if t.b.phase != Closed then t
      else
        var (b, packet) := Answering(t.b, num, window, random);
        t.(b := b, net := t.net + {packet}, randomB := random)
    case DeliverSynAck(num, ack, window) =>
      if t.a.phase != Connecting then t
      else
        var (a, packet) := Confirming(t.a, num, ack, window);
        t.(a := a, net := t.net + {packet})
    case DeliverAck(num) => t.(b := t.b.(acks := Marked(t.b.acks, num)))
    case StrayData => t.(a := t.a.(wedged := true))
  }

  predicate Run(t: Attempt, actions: seq<Action>, last: Attempt)
    decreases |actions|
  {
    if actions == [] then last == t
    else Enabled(t, actions[0]) && Run(Apply(t, actions[0]), actions[1..], last)
  }

  /** The first numbers of the two sides, as absolute positions. */
  function FirstA(t: Attempt): nat {
    t.randomA + t.a.window
  }

  function FirstB(t: Attempt): nat {
    t.randomB + t.a.window
  }

  predicate OpenedA(t: Attempt) {
    && t.randomA < RANDOM_BOUND && 1 <= t.a.window <= SlidingWindow.MAX_WINDOW
    && t.a.seqNum == FirstA(t) + 1
    && SlidingWindow.IsHandshakeEntry(t.a.acks, FirstA(t) + 1)
    && (t.a.phase == Connected ==>
          && t.a.acks[0].flag
          && t.b.phase == Connected
          && t.a.next == FirstB(t) + 1 && t.a.prev == t.randomB && t.a.end == FirstB(t) + t.a.window)
  }

  predicate OpenedB(t: Attempt) {
    && t.a.phase != Closed && t.randomB < RANDOM_BOUND && t.b.window == t.a.window
    && t.b.seqNum == FirstB(t) + 1
    && SlidingWindow.IsHandshakeEntry(t.b.acks, FirstB(t) + 1)
    && t.b.next == FirstA(t) + 1 && t.b.end == FirstA(t) + t.a.window
    && t.b.prev == if t.randomA == 0 then MAX_SEQ_NUM else t.randomA - 1
  }

  predicate PacketOk(t: Attempt, p: Packet) {
    match p
    case Syn(num, window) => t.a.phase != Closed && num == FirstA(t) && window == t.a.window
    case SynAck(num, ack, window) =>
      t.b.phase == Connected && num == FirstB(t) && ack == FirstA(t) + 1 && window == t.a.window
    case PlainAck(num) => t.a.phase == Connected && num == FirstB(t) + 1
  }

  /** SYN and SYN+ACK stay deliverable, as they are retransmitted. */
  predicate Inv(t: Attempt) {
    && (t.a.phase != Closed ==> Syn(FirstA(t), t.a.window) in t.net)
    && (t.b.phase != Closed ==> SynAck(FirstB(t), FirstA(t) + 1, t.a.window) in t.net)
    && !t.b.wedged && (t.a.phase == Closed ==> !t.a.wedged)
    && (if t.a.phase == Closed then t.a.acks == [] else OpenedA(t))
    && (if t.b.phase == Closed then t.b.acks == [] else t.b.phase == Connected && OpenedB(t))
    && forall p | p in t.net :: PacketOk(t, p)
  }

  // ---- What the sums come to: no number of an opening connection wraps ----

  lemma FirstIs(random: nat, window: nat)
    requires random < RANDOM_BOUND && window <= SlidingWindow.MAX_WINDOW
    ensures FirstNumber(random, window) == random + window
    ensures AfterFirst(random + window) == random + window + 1
  {
  }

  lemma AnsweringIs(p: Point, randomA: nat, window: nat, randomB: nat)
    requires randomA < RANDOM_BOUND && randomB < RANDOM_BOUND && 1 <= window <= SlidingWindow.MAX_WINDOW
    requires p.acks == []
    ensures Answering(p, randomA + window, window, randomB)
            == (Point(Connected, p.wedged, window, randomB + window + 1,
                      [AckEntry(randomB + window + 1, false, 0)],
                      if randomA == 0 then MAX_SEQ_NUM else randomA - 1,
                      randomA + window + 1, randomA + 2 * window),
                SynAck(randomB + window, randomA + window + 1, window))
  {
    hide Plus, FirstNumber, AfterFirst;
    FirstIs(randomA, window);
    FirstIs(randomB, window);
    BackEdge(randomA, window);
    SumIs(randomA + window, window);
    var entry := AckEntry(randomB + window + 1, false, 0);
    assert p.acks + [entry] == [entry];
  }

  lemma BackEdge(random: nat, window: nat)
    requires random < RANDOM_BOUND && 1 <= window <= SlidingWindow.MAX_WINDOW
    ensures (random + window + (MAX_SEQ_NUM - window) % MAX_SEQ_NUM) % WORD_32
            == if random == 0 then MAX_SEQ_NUM else random - 1
  {
    assert (MAX_SEQ_NUM - window) % MAX_SEQ_NUM == MAX_SEQ_NUM - window;
  }

  lemma ConfirmingIs(p: Point, randomB: nat, ack: nat, window: nat)
    requires randomB < RANDOM_BOUND && 1 <= window <= SlidingWindow.MAX_WINDOW
    requires SlidingWindow.IsHandshakeEntry(p.acks, ack)
    ensures Confirming(p, randomB + window, ack, window)
            == (p.(phase := Connected, acks := [p.acks[0].(flag := true)], prev := randomB,
                   next := randomB + window + 1, end := randomB + 2 * window),
                PlainAck(randomB + window + 1))
  {
    FirstIs(randomB, window);
    MarkedOne(p.acks, ack);
  }

  lemma MarkedOne(acks: seq<AckEntry>, num: nat)
    requires SlidingWindow.IsHandshakeEntry(acks, num)
    ensures Marked(acks, num) == [acks[0].(flag := true)]
  {
    assert AckList.IndexOf(acks, num) == 0;
  }

  // ---- Steps keep the invariant ----

  lemma ConnectKeeps(t: Attempt, random: nat, window: nat)
    requires Inv(t) && Enabled(t, Connect(random, window))
    ensures Inv(Apply(t, Connect(random, window)))
  {
    var u := Apply(t, Connect(random, window));
    FirstIs(random, window);
    assert forall p | p in t.net :: PacketOk(t, p);
  }

  lemma SynKeeps(t: Attempt, num: nat, window: nat, random: nat)
    requires Inv(t) && Enabled(t, DeliverSyn(num, window, random))
    ensures Inv(Apply(t, DeliverSyn(num, window, random)))
  {
    assert PacketOk(t, Syn(num, window));
    var u := Apply(t, DeliverSyn(num, window, random));
    if t.b.phase == Closed {
      AnsweringIs(t.b, t.randomA, t.a.window, random);
    }
    forall p | p in u.net ensures PacketOk(u, p) {
      if p in t.net { assert PacketOk(t, p); }
    }
  }

  lemma SynAckKeeps(t: Attempt, num: nat, ack: nat, window: nat)
    requires Inv(t) && Enabled(t, DeliverSynAck(num, ack, window))
    ensures Inv(Apply(t, DeliverSynAck(num, ack, window)))
  {
    assert PacketOk(t, SynAck(num, ack, window));
    var u := Apply(t, DeliverSynAck(num, ack, window));
    if t.a.phase == Connecting {
      ConfirmingIs(t.a, t.randomB, ack, window);
    }
    forall p | p in u.net ensures PacketOk(u, p) {
      if p in t.net { assert PacketOk(t, p); }
    }
  }

  lemma AckKeeps(t: Attempt, num: nat)
    requires Inv(t) && Enabled(t, DeliverAck(num))
    ensures Inv(Apply(t, DeliverAck(num)))
  {
    assert PacketOk(t, PlainAck(num));
    var u := Apply(t, DeliverAck(num));
    MarkedOne(t.b.acks, num);
    forall p | p in u.net ensures PacketOk(u, p) { assert PacketOk(t, p); }
  }

  lemma StepKeeps(t: Attempt, action: Action)
    requires Inv(t) && Enabled(t, action)
    ensures Inv(Apply(t, action))
  {
    match action
    case Connect(random, window) => ConnectKeeps(t, random, window);
    case DeliverSyn(num, window, random) => SynKeeps(t, num, window, random);
    case DeliverSynAck(num, ack, window) => SynAckKeeps(t, num, ack, window);
    case DeliverAck(num) => AckKeeps(t, num);
    case StrayData =>
      var u := Apply(t, StrayData);
      forall p | p in u.net ensures PacketOk(u, p) { assert PacketOk(t, p); }
  }

  lemma {:induction false} RunKeeps(t: Attempt, actions: seq<Action>, last: Attempt)
    requires Inv(t) && Run(t, actions, last)
    ensures Inv(last)
    decreases |actions|
  {
    if actions != [] {
      StepKeeps(t, actions[0]);
      RunKeeps(Apply(t, actions[0]), actions[1..], last);
    }
  }

  /** Agreement: whenever both sides are connected, each expects exactly the number the other
      will send next, and both use the same window. A is connected only if B is. */
  lemma {:induction false} SidesAgree(actions: seq<Action>, last: Attempt)
    requires Run(Start(), actions, last)
    ensures last.a.phase == Connected ==> last.b.phase == Connected
    ensures last.b.phase == Connected ==> last.b.next == last.a.seqNum && last.b.window == last.a.window
    ensures last.a.phase == Connected ==> last.a.next == last.b.seqNum
  {
    RunKeeps(Start(), actions, last);
  }

  /** Taking over one direction of an attempt into the sliding-window machine. */
  function Direction(sender: Point, receiver: Point): SlidingWindow.System {
    SlidingWindow.System(
      [], Opened(sender.window, sender.seqNum, sender.acks),
      [SlidingWindow.Sent(sender.seqNum, [])], 0, {},
      RecvState(receiver.window, receiver.prev, receiver.next, receiver.end, Buffers([], [])), [], 1,
      {SlidingWindow.AckPacket(sender.seqNum, 0)})
  }

  /** A connected pair starts the sliding-window machine in both directions, whatever was drawn. The
      misplaced remainder puts the back edge of B's window one number too far back, and for the
      random number 0 stores it as 2^32 - 1, which the window machine takes for 0. The first numbers
      lie in the lower half. */
  lemma {:induction false} ConnectedStartsWindow(actions: seq<Action>, last: Attempt)
    requires Run(Start(), actions, last) && last.a.phase == Connected
    ensures SlidingWindow.Init(Direction(last.b, last.a))
    ensures SlidingWindow.Init(Direction(last.a, last.b))
    ensures last.a.seqNum <= RANDOM_BOUND + SlidingWindow.MAX_WINDOW
    ensures last.b.seqNum <= RANDOM_BOUND + SlidingWindow.MAX_WINDOW
  {
    RunKeeps(Start(), actions, last);
    var toA, toB := Direction(last.b, last.a), Direction(last.a, last.b);
    DirectionStarts(toA, last.randomB + last.a.window + 1);
    DirectionStarts(toB, last.randomA + last.a.window + 1);
  }

  /** Numbers that do not wrap make a starting state. */
  lemma DirectionStarts(s: SlidingWindow.System, start: nat)
    requires |s.cut| == 1 && s.cut[0] == SlidingWindow.Sent(start, []) && start < RANDOM_BOUND + MAX_SEQ_NUM / 4
    requires s == SlidingWindow.System([], Opened(s.rcv.window, start, s.snd.acks), s.cut, 0, {}, s.rcv, [], 1,
                                       {SlidingWindow.AckPacket(start, 0)})
    requires SlidingWindow.IsHandshakeEntry(s.snd.acks, start)
    requires s.rcv.next == start && 1 <= s.rcv.window <= SlidingWindow.MAX_WINDOW
    requires s.rcv.window <= start - (if s.rcv.prev == MAX_SEQ_NUM then 0 else s.rcv.prev) <= s.rcv.window + 2
    requires s.rcv.prev <= start || s.rcv.prev == MAX_SEQ_NUM
    requires s.rcv.window - 1 <= s.rcv.end - start <= s.rcv.window && s.rcv.buffers == Buffers([], [])
    ensures SlidingWindow.Init(s)
  {
    assert SeqOf(start) == start;
  }

  /** Once data has reached A before it was connected, A is never connected. */
  lemma {:induction false} WedgedForever(t: Attempt, actions: seq<Action>, last: Attempt)
    requires Run(t, actions, last) && t.a.wedged && t.a.phase != Connected
    ensures last.a.wedged && last.a.phase == t.a.phase
    decreases |actions|
  {
    if actions != [] {
      WedgedForever(Apply(t, actions[0]), actions[1..], last);
    }
  }

  ghost predicate CanConnect(t: Attempt) {
    exists actions, last :: Run(t, actions, last) && last.a.phase == Connected && last.b.phase == Connected
  }

  lemma {:induction false} StepRuns(t: Attempt, action: Action)
    requires Enabled(t, action)
    ensures Run(t, [action], Apply(t, action))
  {
    assert [action][1..] == [];
  }

  lemma {:induction false} RunOn(t: Attempt, first: seq<Action>, middle: Attempt,
                                 second: seq<Action>, last: Attempt)
    requires Run(t, first, middle) && Run(middle, second, last)
    ensures Run(t, first + second, last)
    decreases |first|
  {
    if first == [] {
      assert first + second == second;
    } else {
      assert (first + second)[1..] == first[1..] + second;
      RunOn(Apply(t, first[0]), first[1..], middle, second, last);
    }
  }

  /** An attempt can still succeed exactly when A is connected already or not wedged. */
  lemma CanConnectExactly(t: Attempt)
    requires Inv(t)
    ensures CanConnect(t) <==> t.a.phase == Connected || !t.a.wedged
  {
    if t.a.phase == Connected {
      assert Run(t, [], t);
    } else if t.a.wedged {
      forall actions, last | Run(t, actions, last) ensures last.a.phase != Connected {
        WedgedForever(t, actions, last);
      }
    } else {
      var actions, last := Complete(t);
      assert Run(t, actions, last);
    }
  }

  /** Data that arrive too early, at any time of an attempt, are its end. */
  lemma StrayDataWedges(t: Attempt)
    requires Inv(t) && Enabled(t, StrayData)
    ensures !CanConnect(Apply(t, StrayData))
  {
    StepKeeps(t, StrayData);
    CanConnectExactly(Apply(t, StrayData));
  }

  /** The passive side learns that the active one is connected from the last acknowledgment. */
  lemma LastAckArrives(t: Attempt, num: nat)
    requires Inv(t) && Enabled(t, DeliverAck(num))
    ensures Apply(t, DeliverAck(num)).b.acks == [AckEntry(t.b.seqNum, true, 0)]
  {
    assert PacketOk(t, PlainAck(num));
    MarkedOne(t.b.acks, num);
  }

  /** A window of more than 16 bits is announced and kept as another, but moves the first number as
      it is. */
  lemma OpenedWindowExactly(p: Point, random: nat, size: nat)
    requires random < RANDOM_BOUND
    ensures var (a, packet) := Opening(p, random, size);
            && packet == Syn(SeqOf(random + size), a.window) && a.seqNum == SeqOf(random + size + 1)
            && a.window < WORD_16 && (a.window == size <==> size < WORD_16)
            && exists turns: nat :: size == a.window + WORD_16 * turns
  {
    assert size == size % WORD_16 + WORD_16 * (size / WORD_16);
    SeqOfPlus(random + size, 1);
    PlusAgrees(SeqOf(random + size), 1);
  }

  /** No window of 16 bits but 0, and no numbers drawn, are shut out: with each of them some attempt
      succeeds. */
  lemma EveryDrawConnects(randomA: nat, randomB: nat, window: nat) returns (actions: seq<Action>, last: Attempt)
    requires randomA < RANDOM_BOUND && randomB < RANDOM_BOUND && 1 <= window <= SlidingWindow.MAX_WINDOW
    ensures Run(Start(), actions, last) && last.a.phase == Connected && last.b.phase == Connected
    ensures last.randomA == randomA && last.randomB == randomB && last.a.window == last.b.window == window
  {
    hide Run, Inv, Apply;
    var a := Connect(randomA, window);
    StepRuns(Start(), a);
    Begun(randomA, window);
    var u := Apply(Start(), a);
    var second;
    second, last := Answer(u, randomB);
    RunOn(Start(), [a], u, second, last);
    actions := [a] + second;
  }

  lemma Begun(randomA: nat, window: nat)
    requires randomA < RANDOM_BOUND && 1 <= window <= SlidingWindow.MAX_WINDOW
    ensures Enabled(Start(), Connect(randomA, window))
    ensures var u := Apply(Start(), Connect(randomA, window));
            Inv(u) && !u.a.wedged && u.a.phase == Connecting && u.b.phase == Closed
            && u.randomA == randomA && u.a.window == window
  {
    StepKeeps(Start(), Connect(randomA, window));
    FirstIs(randomA, window);
  }

  /** The rest of an attempt whose SYN is on its way. */
  lemma Answer(u: Attempt, randomB: nat) returns (actions: seq<Action>, last: Attempt)
    requires Inv(u) && !u.a.wedged && u.a.phase == Connecting && u.b.phase == Closed && randomB < RANDOM_BOUND
    ensures Run(u, actions, last) && Inv(last) && last.a.phase == Connected && last.b.phase == Connected
    ensures last.randomA == u.randomA && last.randomB == randomB && last.a.window == last.b.window == u.a.window
  {
    var b := DeliverSyn(FirstA(u), u.a.window, randomB);
    StepRuns(u, b);
    StepKeeps(u, b);
    var v := Apply(u, b);
    var c := DeliverSynAck(FirstB(v), FirstA(v) + 1, v.a.window);
    StepRuns(v, c);
    StepKeeps(v, c);
    last := Apply(v, c);
    RunOn(u, [b], v, [c], last);
    actions := [b] + [c];
  }

  lemma Complete(t: Attempt) returns (actions: seq<Action>, last: Attempt)
    requires Inv(t) && !t.a.wedged && t.a.phase != Connected
    ensures Run(t, actions, last) && last.a.phase == Connected && last.b.phase == Connected
  {
    var first, u := [], t;
    if t.a.phase == Closed {
      var a := Connect(1, 1);
      StepRuns(t, a);
      StepKeeps(t, a);
      first, u := [a], Apply(t, a);
    }
    var b := DeliverSyn(FirstA(u), u.a.window, 1);
    StepRuns(u, b);
    StepKeeps(u, b);
    var v := Apply(u, b);
    var c := DeliverSynAck(FirstB(v), FirstA(v) + 1, v.a.window);
    StepRuns(v, c);
    StepKeeps(v, c);
    last := Apply(v, c);
    RunOn(u, [b], v, [c], last);
    RunOn(t, first, u, [b] + [c], last);
    actions := first + ([b] + [c]);
  }
}
