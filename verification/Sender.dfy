/** The sending half of a service point: cutting messages into segments under the window,
    and moving the window over acknowledged segments. */
module Sender {
  import opened Bytes
  import opened SequenceSpace
  import opened AckList
  import opened SegmentList

  const MAX_SEGMENT_SIZE: nat := 512

  // The longest message a service point accepts: 32768 less the transport header of 17 bytes.
  const MAX_MESSAGE: nat := 32751

  /** `pending` is what is left of the message being sent, `ptr` the window pointer,
      `nextSize` the room for the next segment, and `waiting` says that the window is full
      and the thread spins until an acknowledgment lets it move. */
  datatype SendState = SendState(
    window: nat,
    pending: seq<byte>,
    ptr: nat,
    segmentSize: nat,
    nextSize: nat,
    seqNum: nat,
    acks: seq<AckEntry>,
    waiting: bool)

  /** C's remainder of unsigned numbers. */
  function Remainder(x: nat, modulus: nat): (r: nat)
    requires modulus > 0
    ensures r < modulus
  {
    x % modulus
  }

  /** The state in which a connection starts to carry data. */
  function Opened(window: nat, seqNum: nat, acks: seq<AckEntry>): SendState {
    var size := Min(window, MAX_SEGMENT_SIZE);
    SendState(window, [], 0, size, size, seqNum, acks, false)
  }

  predicate CanCut(s: SendState) {
    s.window > 0 && s.pending != [] && !s.waiting
  }

  /** One turn of the inner sending loop up to the point where the window is full. */
  function Cut(mode: Arithmetic, s: SendState): (SendState, Segment)
    requires CanCut(s)
  {
    var n := if |s.pending| < s.nextSize then |s.pending| else s.nextSize;
    var seqNum := Plus(mode, s.seqNum, n);
    var ptr := Remainder(s.ptr + n, s.window);
    var next := s.(
      pending := s.pending[n..],
      seqNum := seqNum,
      acks := s.acks + [AckEntry(seqNum, false, n)],
      ptr := ptr,
      waiting := ptr == 0,
      nextSize := if ptr == 0 then n
                  else if ptr + s.segmentSize > s.window then s.window - ptr
                  else s.segmentSize);
    (next, Segment(s.seqNum, s.pending[..n]))
  }

  /** The window account: the bytes not yet slid over are counted by the pointer, or fill the
      window, and the next segment has room for as much as is left of it, up to a segment. */
  predicate Accounted(s: SendState) {
    && 1 <= s.window
    && s.segmentSize == Min(s.window, MAX_SEGMENT_SIZE)
    && s.ptr < s.window
    && TotalSize(s.acks) == (if s.waiting then s.window else s.ptr)
    && (!s.waiting ==> s.nextSize == Min(s.segmentSize, s.window - s.ptr))
  }

  /** One look at the list of acknowledgments while the window is full. */
  function Slid(s: SendState): SendState
    requires Accounted(s) && s.waiting
  {
    var k := Leading(s.acks);
    var moved := TotalSize(s.acks[..k]);
    TotalSizeSplit(s.acks, k);
    if moved == 0 then s.(acks := s.acks[k..])
    else s.(
      acks := s.acks[k..],
      ptr := s.window - moved,
      nextSize := if moved > s.segmentSize then s.segmentSize else moved,
      waiting := false)
  }

  lemma {:induction false} OpenedAccounted(window: nat, seqNum: nat, acks: seq<AckEntry>)
    requires 1 <= window && TotalSize(acks) == 0
    ensures Accounted(Opened(window, seqNum, acks))
  {
  }

  lemma {:induction false} RemainderUpTo(x: nat, modulus: nat)
    requires 0 < modulus && x <= modulus
    ensures Remainder(x, modulus) == if x == modulus then 0 else x
  {
  }

  /** Cutting takes as much off the front of the message as a segment and the window can hold and keeps
      the account. */
  lemma CutKeepsAccount(mode: Arithmetic, s: SendState)
    requires Accounted(s) && CanCut(s)
    ensures var (t, segment) := Cut(mode, s);
            && Accounted(t)
            && segment.data + t.pending == s.pending
            && 1 <= |segment.data| == Min(|s.pending|, Min(MAX_SEGMENT_SIZE, s.window - s.ptr))
            && (t.waiting <==> s.ptr + |segment.data| == s.window)
            && (t.waiting ==> t.nextSize == |segment.data|)
            && t.acks == s.acks + [AckEntry(t.seqNum, false, |segment.data|)]
            && t.seqNum == Plus(mode, s.seqNum, |segment.data|)
            && segment.num == s.seqNum && t.window == s.window
  {
    hide Plus, Remainder, TotalSize;
    var (t, segment) := Cut(mode, s);
    TotalSizeAppend(s.acks, AckEntry(t.seqNum, false, |segment.data|));
    RemainderUpTo(s.ptr + |segment.data|, s.window);
  }

  /** Sliding frees exactly the bytes of the acknowledged front and keeps the account. */
  lemma SlideKeepsAccount(s: SendState)
    requires Accounted(s) && s.waiting
    ensures Accounted(Slid(s))
    ensures Slid(s).waiting <==> TotalSize(s.acks[..Leading(s.acks)]) == 0
    ensures !Slid(s).waiting ==> Slid(s).ptr + TotalSize(s.acks[..Leading(s.acks)]) == s.window
    ensures Slid(s).acks == s.acks[Leading(s.acks)..]
    ensures Slid(s).seqNum == s.seqNum && Slid(s).pending == s.pending && Slid(s).window == s.window
  {
    TotalSizeSplit(s.acks, Leading(s.acks));
  }

  lemma MarkKeepsAccount(s: SendState, num: nat)
    requires Accounted(s)
    ensures Accounted(s.(acks := Marked(s.acks, num)))
  {
    TotalSizeMarked(s.acks, Marked(s.acks, num));
  }

  class SendPoint {
    const window: nat
    var pending: seq<byte>
    var ptr: nat
    var segmentSize: nat
    var nextSize: nat
    var seqNum: nat
    const acks: ExpectedAcks
    var waiting: bool

    function State(): SendState
      reads this, acks
    {
      SendState(window, pending, ptr, segmentSize, nextSize, seqNum, acks.entries, waiting)
    }

    constructor (window: nat, seqNum: nat, acks: ExpectedAcks)
      ensures this.acks == acks
      ensures State() == Opened(window, seqNum, acks.entries)
    {
      this.window, this.seqNum, this.acks := window, seqNum, acks;
      pending, ptr, waiting := [], 0, false;
      var size := if window < MAX_SEGMENT_SIZE then window else MAX_SEGMENT_SIZE;
      segmentSize, nextSize := size, size;
    }

    method CutSegment() returns (segment: Segment)
      requires CanCut(State())
      modifies this, acks
      ensures (State(), segment) == Cut(Wrapping, old(State()))
    {
      var size := nextSize;
      if |pending| < size {
        size := |pending|;
      }
      segment := Segment(seqNum, pending[..size]);
      pending := pending[size..];
      seqNum := Plus(Wrapping, seqNum, size);
      acks.Insert(AckEntry(seqNum, false, size));
      ptr := Remainder(ptr + size, window);
      if ptr == 0 {
        waiting, nextSize := true, size;
      } else if ptr + segmentSize > window {
        nextSize := window - ptr;
      } else {
        nextSize := segmentSize;
      }
    }

    method Slide()
      requires Accounted(State()) && waiting
      modifies this, acks
      ensures State() == Slid(old(State()))
    {
      TotalSizeSplit(acks.entries, Leading(acks.entries));
      var moved := acks.InSeq();
      if moved == 0 {
        return;
      }
      ptr := window - moved;
      nextSize := if moved > segmentSize then segmentSize else moved;
      waiting := false;
    }
  }
}
