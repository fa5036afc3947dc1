/** A whole connection as the code runs it, from the first SYN to the last byte read. */
module Connection {
  import opened SequenceSpace
  import SlidingWindow
  import SlidingWindowSafety
  import WrappingRuns
  import Handshake

  /** Every connection that the handshake opened is safe in both directions, as the code runs it,
      for any window and any random numbers, as long as fewer bytes are accepted than there are
      numbers up to 2^32 - 1, which are more than 2^31 - 2^17 whatever was drawn. */
  lemma ConnectionIsSafe(opening: seq<Handshake.Action>, pair: Handshake.Attempt, fromA: bool,
                         actions: seq<SlidingWindow.Action>, last: SlidingWindow.System)
    requires Handshake.Run(Handshake.Start(), opening, pair) && pair.a.phase == Handshake.Connected
    requires var first := if fromA then Handshake.Direction(pair.a, pair.b)
                          else Handshake.Direction(pair.b, pair.a);
             && SlidingWindowSafety.Run(Wrapping, first, actions, last)
             && first.snd.seqNum + |last.accepted| < MAX_SEQ_NUM
    ensures SlidingWindowSafety.Safe(last)
    ensures MAX_SEQ_NUM - (if fromA then pair.a.seqNum else pair.b.seqNum) > 0x8000_0000 - 0x2_0000
  {
    Handshake.ConnectedStartsWindow(opening, pair);
    var first := if fromA then Handshake.Direction(pair.a, pair.b)
                 else Handshake.Direction(pair.b, pair.a);
    WrappingRuns.CodeIsSafe(first, actions, last);
  }
}
