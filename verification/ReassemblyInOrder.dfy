/** When the code puts a datagram together again: exactly which lists of fragments, arriving in
    order, come out as the datagram, and why the order matters. */
module ReassemblyInOrder {
  import opened Bytes
  import opened Fragmentation
  import opened Reassembly

  datatype Outcome =
    | Open(packs: seq<Partial>)
    | Crashed(fault: Fault)
    | Delivered(data: seq<byte>, packs: seq<Partial>, rest: seq<Fragment>)

  /** Fragments of one datagram arriving one after another, up to the first moment at which the
      code believes it to be complete. */
  function Fed(packs: seq<Partial>, id: nat, src: nat, frags: seq<Fragment>): Outcome
    decreases |frags|
  {
    if frags == [] then Open(packs)
    else
      match Inserted(packs, Datagram(id, src, frags[0]))
      case Broken(fault) => Crashed(fault)
      case Kept(after, complete) =>
        if !complete then Fed(after, id, src, frags[1..])
        else
          var k := IndexOf(after, id, src);
          if k < |after| then Delivered(Joined(after[k].offs), Removed(after, id, src), frags[1..])
          else Open(after)
  }

  /** Fragment `j` is as long as the stretch from the start of an earlier fragment, other than the
      one just before it, to its own start. */
  predicate Spans(frags: seq<Fragment>, k: nat, j: nat)
    requires k < |frags| && j < |frags|
  {
    k + 1 < j && Offset(frags[k]) + |frags[j].data| == Offset(frags[j])
  }

  predicate NoSpan(frags: seq<Fragment>, from: nat) {
    forall k, j | 0 <= k < |frags| && from <= j < |frags| :: !Spans(frags, k, j)
  }

  // ---- Facts about covers ----

  predicate Abut(frags: seq<Fragment>, i: nat)
    requires i + 1 < |frags|
  {
    && HasMore(frags[i]) && frags[i].data != []
    && Offset(frags[i]) + |frags[i].data| == Offset(frags[i + 1])
  }

  lemma {:induction false} TilesAbut(frags: seq<Fragment>, base: nat, data: seq<byte>, more: bool)
    requires Tiles(frags, base, data, more)
    ensures forall i | 0 <= i < |frags| - 1 :: Abut(frags, i)
    ensures HasMore(frags[|frags| - 1]) == more
    ensures Offset(frags[|frags| - 1]) + |frags[|frags| - 1].data| == base + |data|
    ensures Joined(frags) == data
    decreases |frags|
  {
    if |frags| == 1 {
      assert Joined(frags[1..]) == [];
    } else {
      var n := |frags[0].data|;
      TilesAbut(frags[1..], base + n, data[n..], more);
      forall i | 0 <= i < |frags| - 1 ensures Abut(frags, i) {
        if i > 0 { assert Abut(frags[1..], i - 1); }
      }
      assert frags[0].data + data[n..] == data;
    }
  }

  lemma {:induction false} OffsetsRise(frags: seq<Fragment>, i: nat, j: nat)
    requires i < j < |frags| && forall k | 0 <= k < |frags| - 1 :: Abut(frags, k)
    ensures Offset(frags[i]) + |frags[i].data| <= Offset(frags[j])
    ensures Offset(frags[i]) < Offset(frags[j])
    decreases j
  {
    assert Abut(frags, j - 1);
    if i < j - 1 {
      OffsetsRise(frags, i, j - 1);
      assert Abut(frags, i);
    }
  }

  // ---- In order ----

  predicate Connected(frags: seq<Fragment>) {
    && frags != [] && (forall k | 0 <= k < |frags| - 1 :: Abut(frags, k))
    && !HasMore(frags[|frags| - 1])
  }

  predicate Spanned(frags: seq<Fragment>, j: nat)
    requires j < |frags|
  {
    exists k | 0 <= k < |frags| :: Spans(frags, k, j)
  }

  /** What goes wrong where the new fragment is as long as the way from an earlier one: the first of the
      list has no predecessor to read the link of; behind any other the list is linked into a cycle. */
  function FaultAt(frags: seq<Fragment>, j: nat): Fault
    requires j < |frags|
  {
    if Offset(frags[0]) + |frags[j].data| == Offset(frags[j]) then NullRead else Cycle
  }

  /** What goes wrong first from the `from`-th fragment on; if it is none of these, it is the null
      write that a single fragment meets. */
  function FaultInOrder(frags: seq<Fragment>, from: nat): Fault
    decreases |frags| - from
  {
    if from >= |frags| then NullWrite
    else if Spanned(frags, from) then FaultAt(frags, from)
    else FaultInOrder(frags, from + 1)
  }

  /** What the code has after the first `j` fragments. */
  function After(packs: seq<Partial>, id: nat, src: nat, frags: seq<Fragment>, j: nat): seq<Partial>
    requires j < |frags|
  {
    [Partial(id, src, Offset(frags[j]), 0, frags[..j])] + packs
  }

  lemma AnchorIsLast(frags: seq<Fragment>, j: nat)
    requires 1 <= j < |frags|
    ensures Anchor(frags[..j], Offset(frags[j]), |frags[j].data|) == j - 1
            <==> !Spanned(frags, j)
    ensures Spanned(frags, j) ==>
              (Anchor(frags[..j], Offset(frags[j]), |frags[j].data|) == 0 <==> FaultAt(frags, j) == NullRead)
  {
    var k := Anchor(frags[..j], Offset(frags[j]), |frags[j].data|);
    assert frags[..j][0] == frags[0] && frags[..j][k] == frags[k];
    if k < j - 1 {
      assert Spans(frags, k, j);
    } else {
      forall i | 0 <= i < |frags| ensures !Spans(frags, i, j) {
        if i + 1 < j { assert frags[..j][i] == frags[i]; }
      }
    }
  }

  lemma NextAdded(frags: seq<Fragment>, j: nat)
    requires 1 <= j < |frags| && Connected(frags)
    ensures Added(frags[..j], frags[j])
            == if Spanned(frags, j) then Failed(FaultAt(frags, j)) else Appended(frags[..j + 1])
  {
    AnchorIsLast(frags, j);
    assert Abut(frags, j - 1);
    OffsetsRise(frags, j - 1, j);
    assert frags[..j] + [frags[j]] == frags[..j + 1];
  }

  lemma NextInserted(packs: seq<Partial>, id: nat, src: nat, frags: seq<Fragment>, j: nat)
    requires 1 <= j < |frags| && Connected(frags)
    ensures var result := Inserted(After(packs, id, src, frags, j), Datagram(id, src, frags[j]));
            if Spanned(frags, j) then result == Broken(FaultAt(frags, j))
            else if j < |frags| - 1 then result == Kept(After(packs, id, src, frags, j + 1), false)
            else result.Kept? && result.complete
                 && result.packs == [Partial(id, src, result.packs[0].count, result.packs[0].total, frags)] + packs
  {
    hide Added, Spanned, FaultAt;
    var before := After(packs, id, src, frags, j);
    IndexIs(before, id, src, 0);
    NextAdded(frags, j);
    assert Abut(frags, j - 1);
    OffsetsRise(frags, j - 1, j);
    if j < |frags| - 1 {
      assert Abut(frags, j);
    } else {
      assert frags[..j + 1] == frags;
    }
  }

  lemma NoSpanStep(frags: seq<Fragment>, j: nat)
    requires j < |frags|
    ensures NoSpan(frags, j) <==> !Spanned(frags, j) && NoSpan(frags, j + 1)
  {
  }

  lemma {:induction false} FedFrom(packs: seq<Partial>, id: nat, src: nat, frags: seq<Fragment>, j: nat)
    requires 1 <= j < |frags| && Connected(frags)
    ensures NoSpan(frags, j)
            ==> Fed(After(packs, id, src, frags, j), id, src, frags[j..]) == Delivered(Joined(frags), packs, [])
    ensures !NoSpan(frags, j)
            ==> Fed(After(packs, id, src, frags, j), id, src, frags[j..]) == Crashed(FaultInOrder(frags, j))
    decreases |frags| - j
  {
    NextInserted(packs, id, src, frags, j);
    var result := Inserted(After(packs, id, src, frags, j), Datagram(id, src, frags[j]));
    assert frags[j..][0] == frags[j] && frags[j..][1..] == frags[j + 1..];
    NoSpanStep(frags, j);
    if Spanned(frags, j) {
    } else if j < |frags| - 1 {
      FedFrom(packs, id, src, frags, j + 1);
    } else {
      IndexIs(result.packs, id, src, 0);
      assert result.packs[..0] + result.packs[1..] == packs;
    }
  }

  /** In-order arrival: the fragments of a datagram come out as the datagram, with all other
      partial datagrams as they were, exactly when no fragment spans an earlier one and the
      datagram is not a single fragment arriving while another one is incomplete. In every other
      case the code crashes, and how is told. */
  lemma {:induction false} InOrderExactly(packs: seq<Partial>, id: nat, src: nat, frags: seq<Fragment>, data: seq<byte>)
    requires Tiles(frags, 0, data, false) && IndexOf(packs, id, src) == |packs|
    ensures Fed(packs, id, src, frags) == Delivered(data, packs, [])
            <==> NoSpan(frags, 0) && (packs == [] || |frags| > 1)
    ensures Fed(packs, id, src, frags) == Delivered(data, packs, [])
            || Fed(packs, id, src, frags) == Crashed(FaultInOrder(frags, 0))
  {
    TilesAbut(frags, 0, data, false);
    var f := frags[0];
    var d := Datagram(id, src, f);
    if |frags| == 1 {
      if packs == [] {
        var after := [NewPartial(d)];
        IndexIs(after, id, src, 0);
        assert Joined([f]) == f.data + Joined([f][1..]);
        assert after[..0] + after[1..] == packs;
      }
    } else {
      assert Abut(frags, 0);
      assert frags[..1] == [f];
      assert Inserted(packs, d) == Kept(After(packs, id, src, frags, 1), false);
      FedFrom(packs, id, src, frags, 1);
      assert NoSpan(frags, 0) <==> NoSpan(frags, 1);
    }
  }

  // ---- One fragmentation never spans ----

  lemma {:induction false} PiecesUniform(data: seq<byte>, size: nat, base: nat, more: bool)
    requires size > 0
    ensures var p := Pieces(data, size, base, more);
            && (forall i | 0 <= i < |p| - 1 :: |p[i].data| == size)
            && |p[|p| - 1].data| <= size
    decreases |data|
  {
    if |data| > size {
      PiecesUniform(data[size..], size, base + size, more);
    }
  }

  /** A datagram cut once, whatever the MTU, arrives in order without spans. */
  lemma CutOnceNeverSpans(data: seq<byte>, mtu: nat)
    requires mtu >= MIN_MTU && |data| <= MORE
    ensures NoSpan(Fragments(false, data, mtu, 0), 0)
  {
    hide Tiles, Joined, Offset, HasMore, Pieces, PieceSize, LastOffset;
    var frags := Fragments(false, data, mtu, 0);
    OriginTilesExactly(data, mtu);
    TilesAbut(frags, 0, data, false);
    if |data| + NET_HEADER > mtu {
      PiecesUniform(data, PieceSize(mtu), 0, false);
      forall k, j | 0 <= k < |frags| && 0 <= j < |frags| ensures !Spans(frags, k, j) {
        if k + 1 < j {
          OffsetsRise(frags, k, j - 1);
          assert Abut(frags, j - 1);
        }
      }
    }
  }

  /** Three pieces of which the last is as long as the first two together. */
  predicate IsHalved(frags: seq<Fragment>, data: seq<byte>) {
    |data| == 32 && frags == [Fragment(MORE, data[..8]), Fragment(MORE + 8, data[8..16]), Fragment(16, data[16..])]
  }

  lemma {:induction false} HalvedCrashes(frags: seq<Fragment>, data: seq<byte>)
    requires IsHalved(frags, data) && Tiles(frags, 0, data, false)
    ensures Fed([], 1, 1, frags) == Crashed(NullRead)
  {
    TilesAbut(frags, 0, data, false);
    var a, b, second := frags[0], frags[1], frags[2];
    var one, two := After([], 1, 1, frags, 1), After([], 1, 1, frags, 2);
    assert frags[..1] == [a] && frags[..2] == [a, b];
    assert frags[1..] == [b, second] && [b, second][1..] == [second];
    assert Inserted([], Datagram(1, 1, a)) == Kept(one, false);
    NextInserted([], 1, 1, frags, 1);
    IndexIs(two, 1, 1, 0);
    assert Added([a, b], second) == Failed(NullRead);
    assert Fed(two, 1, 1, [second]) == Crashed(NullRead);
    assert Fed(one, 1, 1, [b, second]) == Crashed(NullRead);
  }

  lemma RelayHalves(data: seq<byte>, mtu: Fragment -> nat)
    requires |data| == 32 && forall f :: mtu(f) == if Offset(f) == 0 then 28 else 36
    ensures IsHalved(Relayed(Fragments(false, data, 36, 0), mtu), data)
  {
    var first, second := Fragment(MORE, data[..16]), Fragment(16, data[16..]);
    assert Pieces(data, 16, 0, false) == [first, second];
    var a, b := Fragment(MORE, data[..8]), Fragment(MORE + 8, data[8..16]);
    assert data[..16][..8] == data[..8] && data[..16][8..] == data[8..16];
    assert Pieces(first.data[8..], 8, 8, true) == [b];
    assert Pieces(first.data, 8, 0, true) == [a, b];
    assert PieceSize(28) == 8;
    assert Fragments(true, first.data, 28, MORE) == [a, b];
    assert [first, second][1..] == [second] && [second][1..] == [];
    assert Relayed([second], mtu) == [second];
  }

  /** Cut again at a relay, it may: 32 bytes in two pieces of 16, of which the first is halved on
      the way, arrive in order and crash the receiver. */
  lemma CutAgainMayCrash(data: seq<byte>) returns (mtu: Fragment -> nat)
    requires |data| == 32
    ensures forall f :: mtu(f) >= MIN_MTU
    ensures Tiles(Relayed(Fragments(false, data, 36, 0), mtu), 0, data, false)
    ensures Fed([], 1, 1, Relayed(Fragments(false, data, 36, 0), mtu)) == Crashed(NullRead)
  {
    hide Fed, Tiles, Fragments;
    mtu := f => if Offset(f) == 0 then 28 else 36;
    RelayHalves(data, mtu);
    var frags := Fragments(false, data, 36, 0);
    assert [mtu][1..] == [] && [mtu][0] == mtu;
    assert Travelled(frags, [mtu]) == Relayed(frags, mtu);
    TravelledTile(data, 36, [mtu]);
    HalvedCrashes(Relayed(frags, mtu), data);
  }
}
