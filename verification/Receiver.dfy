/** The receiving half of a service point: what it does with a data segment. */
module Receiver {
  import opened Bytes
  import opened SequenceSpace
  import opened SegmentList

  datatype RecvState = RecvState(window: nat, prev: nat, next: nat, end: nat, buffers: Buffers)

  datatype Reply = NoReply | Ack(num: nat)

  /** The back edge may be any number of 32 bits; the others are sequence numbers. */
  predicate Numbered(r: RecvState, num: nat) {
    r.prev <= MAX_SEQ_NUM && r.next < MAX_SEQ_NUM && r.end < MAX_SEQ_NUM && num < MAX_SEQ_NUM
    && r.window < MAX_SEQ_NUM
  }

  function Judged(mode: Arithmetic, r: RecvState, num: nat): Verdict
    requires Numbered(r, num)
  {
    match mode
    case Wrapping => ClassifyByTree(r.prev, r.next, r.end, num)
    case Modular => ClassifyByCircle(r.prev, r.next, r.end, num)
  }

  /** The acknowledgment names the number after the segment; it is computed in 64 bits. */
  function AckFor(segment: Segment): nat {
    Plus(Modular, segment.num, |segment.data|)
  }

  /** The state after a new segment: the buffers take it and the window moves along. */
  function Taken(mode: Arithmetic, r: RecvState, segment: Segment): RecvState
    requires Numbered(r, segment.num)
  {
    var (buffers, advance) := Inserted(r.buffers, segment, r.next);
    var next := Plus(mode, r.next, advance);
    r.(buffers := buffers,
       next := next,
       end := Plus(mode, next, r.window),
       prev := Plus(Modular, next, MAX_SEQ_NUM - r.window))
  }

  function Received(mode: Arithmetic, r: RecvState, segment: Segment): (RecvState, Reply)
    requires Numbered(r, segment.num)
  {
    match Judged(mode, r, segment.num)
    case Discard => (r, NoReply)
    case Old => (r, Ack(AckFor(segment)))
    case New => (Taken(mode, r, segment), Ack(AckFor(segment)))
  }

  lemma Edges(next: nat, window: nat)
    requires next < MAX_SEQ_NUM && window < MAX_SEQ_NUM
    ensures var prev, end := Plus(Modular, next, MAX_SEQ_NUM - window), Plus(Modular, next, window);
            prev < MAX_SEQ_NUM && Ahead(prev, next) == window && end < MAX_SEQ_NUM && Ahead(next, end) == window
  {
  }

  lemma WrappedEdge(next: nat, window: nat)
    requires next < MAX_SEQ_NUM && window < MAX_SEQ_NUM
    ensures var end := Plus(Wrapping, next, window);
            end < MAX_SEQ_NUM && Ahead(next, end) == if next + window >= WORD_32 then window - 1 else window
  {
    PlusAgrees(next, window);
    if next + window < WORD_32 {
      Edges(next, window);
    }
  }

  /** After a new segment the window lies around the next expected number: it starts exactly one window
      behind, and ends one ahead, or in the code one number short of it when its sum wraps. */
  lemma TakenWindow(mode: Arithmetic, r: RecvState, segment: Segment)
    requires Numbered(r, segment.num)
    ensures var t := Taken(mode, r, segment);
            && Numbered(t, t.next) && t.prev < MAX_SEQ_NUM
            && Ahead(t.prev, t.next) == r.window
            && Ahead(t.next, t.end) == if mode.Wrapping? && t.next + r.window >= WORD_32 then r.window - 1 else r.window
  {
    hide Plus, Ahead, Inserted;
    var advance := Inserted(r.buffers, segment, r.next).1;
    SumBounds(mode, r.next, advance);
    var next := Plus(mode, r.next, advance);
    Edges(next, r.window);
    WrappedEdge(next, r.window);
  }

  lemma SumBounds(mode: Arithmetic, num: nat, amount: nat)
    ensures Plus(mode, num, amount) < MAX_SEQ_NUM
  {
  }

  /** A segment the receiver stands for: kept early, appended in order, or behind the stream. */
  predicate Stands(r: RecvState, segment: Segment, after: RecvState)
    requires Numbered(r, segment.num)
  {
    || ClassifyByCircle(r.prev, r.next, r.end, segment.num) == Old
    || (segment.num == r.next && r.buffers.ready + [segment] <= after.buffers.ready)
    || IndexOf(after.buffers.early, segment.num) < |after.buffers.early|
  }

  predicate AcksSoundly(r: RecvState, segment: Segment)
    requires Numbered(r, segment.num)
  {
    var (after, reply) := Received(Wrapping, r, segment);
    reply.Ack? ==> Stands(r, segment, after)
  }

  /** The code's receiver stands for every segment that it acknowledges, whatever its buffers
      hold, exactly when its window does not pass zero ahead of the next expected number. When
      it does, the numbers beyond zero look old, are acknowledged, and are lost. */
  lemma AcksSoundExactly(r: RecvState)
    requires IsWindow(r.prev, r.next, r.end) && r.window < MAX_SEQ_NUM
    ensures (forall buffers: Buffers, segment: Segment | segment.num < MAX_SEQ_NUM ::
               AcksSoundly(r.(buffers := buffers), segment))
            <==> !(r.prev > r.end && r.prev < r.next)
  {
    if r.prev > r.end && r.prev < r.next {
      var empty := r.(buffers := Buffers([], []));
      LostBeyondZero(empty, Segment(r.end, []));
      assert !AcksSoundly(r.(buffers := Buffers([], [])), Segment(r.end, []));
    } else {
      forall buffers: Buffers, segment: Segment | segment.num < MAX_SEQ_NUM
        ensures AcksSoundly(r.(buffers := buffers), segment)
      {
        TreeSplitsExactly(r.prev, r.next, r.end, segment.num);
        TakenStands(Wrapping, r.(buffers := buffers), segment);
      }
    }
  }

  lemma TakenStands(mode: Arithmetic, r: RecvState, segment: Segment)
    requires Numbered(r, segment.num)
    ensures var after := Taken(mode, r, segment).buffers;
            || (segment.num == r.next && r.buffers.ready + [segment] <= after.ready)
            || IndexOf(after.early, segment.num) < |after.early|
  {
    if segment.num != r.next {
      var early := Taken(mode, r, segment).buffers.early;
      assert early == Stored(r.buffers.early, segment);
      if IndexOf(r.buffers.early, segment.num) == |r.buffers.early| {
        assert early[|early| - 1] == segment;
      }
    }
  }

  /** Any in-window number beyond zero is acknowledged by the code and neither kept nor old. */
  lemma LostBeyondZero(r: RecvState, segment: Segment)
    requires IsWindow(r.prev, r.next, r.end) && r.window < MAX_SEQ_NUM
    requires r.prev > r.end && r.prev < r.next && segment.num <= r.end
    requires IndexOf(r.buffers.early, segment.num) == |r.buffers.early|
    ensures ClassifyByCircle(r.prev, r.next, r.end, segment.num) == New
    ensures Received(Wrapping, r, segment) == (r, Ack(AckFor(segment)))
    ensures !Stands(r, segment, r)
  {
  }

  class RecvPoint {
    const window: nat
    var prev: nat
    var next: nat
    var end: nat
    const segments: SegmentBuffers

    function State(): RecvState
      reads this, segments
    {
      RecvState(window, prev, next, end, segments.Contents())
    }

    constructor (state: RecvState, segments: SegmentBuffers)
      requires segments.Contents() == state.buffers
      ensures State() == state && this.segments == segments
    {
      window, prev, next, end := state.window, state.prev, state.next, state.end;
      this.segments := segments;
    }

    method Take(segment: Segment) returns (reply: Reply)
      requires Numbered(State(), segment.num)
      modifies this, segments
      ensures State() == Taken(Wrapping, old(State()), segment)
      ensures reply == Ack(AckFor(segment))
    {
      var advance := segments.Insert(segment, next);
      next := Plus(Wrapping, next, advance);
      end := Plus(Wrapping, next, window);
      prev := Plus(Modular, next, MAX_SEQ_NUM - window);
      reply := Ack(AckFor(segment));
    }

    method OnData(segment: Segment) returns (reply: Reply)
      requires Numbered(State(), segment.num)
      modifies this, segments
      ensures (State(), reply) == Received(Wrapping, old(State()), segment)
    {
      if prev < end {
        if segment.num >= prev && segment.num <= end {
          if segment.num < next {
            reply := Ack(AckFor(segment));
          } else {
            reply := Take(segment);
          }
        } else {
          reply := NoReply;
        }
      } else if segment.num < prev && segment.num > end {
        reply := NoReply;
      } else if prev < next {
        if segment.num < next {
          reply := Ack(AckFor(segment));
        } else {
          reply := Take(segment);
        }
      } else if segment.num >= next {
        reply := Take(segment);
      } else {
        reply := Ack(AckFor(segment));
      }
    }
  }
}
