/** The unreliable network: it loses a packet, overwrites one byte of it, sends it twice or lets
    it pass. */
module Garbler {
  import opened Bytes

  /** The percentages of packets that are lost, corrupted and duplicated. */
  datatype Noise = Noise(loss: int, corruption: int, duplication: int)

  predicate IsPercent(n: int) {
    0 <= n <= 100
  }

  predicate IsNoise(n: Noise) {
    && IsPercent(n.loss) && IsPercent(n.corruption) && IsPercent(n.duplication)
    && n.loss + n.corruption + n.duplication <= 100
  }

  /** The packets that leave for one that is sent, given the two random numbers drawn. The second
      gives both the position and the new value of the byte overwritten. */
  function Garbled(n: Noise, first: nat, second: nat, packet: seq<byte>): seq<seq<byte>>
    requires packet != []
  {
    var v := first % 100;
    if v < n.loss then []
    else if v < n.loss + n.corruption then [packet[second % |packet| := second % 256]]
    else if v < n.loss + n.corruption + n.duplication then [packet, packet]
    else [packet]
  }

  /** At most one byte of what leaves differs from what was sent. */
  lemma DiffersInOneByte(n: Noise, first: nat, second: nat, packet: seq<byte>, out: seq<byte>) returns (i: nat, b: byte)
    requires packet != [] && out in Garbled(n, first, second, packet)
    ensures i < |packet| && out == packet[i := b]
    ensures b == packet[i] || n.loss <= first % 100 < n.loss + n.corruption
  {
    if first % 100 < n.loss + n.corruption {
      i, b := second % |packet|, second % 256;
    } else {
      i, b := 0, packet[0];
    }
  }

  class NoisyNetwork {
    var loss: int
    var corruption: int
    var duplication: int

    constructor ()
      ensures Settings() == Noise(0, 0, 0)
    {
      loss, corruption, duplication := 0, 0, 0;
    }

    function Settings(): Noise
      reads this
    {
      Noise(loss, corruption, duplication)
    }

    /** Settings that make no sense are refused and leave the old ones. */
    method SetGarbler(l: int, c: int, d: int) returns (code: int)
      modifies this
      ensures code == 1 <==> IsNoise(Noise(l, c, d))
      ensures code == -1 <==> !IsPercent(l)
      ensures code == -2 <==> IsPercent(l) && !IsPercent(c)
      ensures code == -3 <==> IsPercent(l) && IsPercent(c) && !IsPercent(d)
      ensures code == -4 <==> IsPercent(l) && IsPercent(c) && IsPercent(d) && l + c + d > 100
      ensures Settings() == if code == 1 then Noise(l, c, d) else old(Settings())
    {
      if l < 0 || l > 100 {
        return -1;
      }
      if c < 0 || c > 100 {
        return -2;
      }
      if d < 0 || d > 100 {
        return -3;
      }
      if l + c + d > 100 {
        return -4;
      }
      loss, corruption, duplication := l, c, d;
      return 1;
    }

    method SendToGarbled(packet: seq<byte>, first: nat, second: nat) returns (out: seq<seq<byte>>)
      requires packet != []
      ensures out == Garbled(Settings(), first, second, packet)
    {
      out := [];
      var v := first % 100;
      if v < loss {
        return;
      }
      if v < loss + corruption {
        var temp := new byte[|packet|](i requires 0 <= i < |packet| => packet[i]);
        temp[second % |packet|] := second % 256;
        assert temp[..] == packet[second % |packet| := second % 256];
        return [temp[..]];
      }
      if v < loss + corruption + duplication {
        out := out + [packet];
        out := out + [packet];
        return;
      }
      out := out + [packet];
    }
  }
}
