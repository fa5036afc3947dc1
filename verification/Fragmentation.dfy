/** Cutting a datagram into fragments for a link, and cutting fragments again at a relay. */
module Fragmentation {
  import opened Bytes

  // The network header with its checksum.
  const NET_HEADER: nat := 20

  const MORE: nat := 0x8000

  // The smallest MTU that leaves room for a piece: the header and one unit of 8 bytes.
  const MIN_MTU: nat := 28

  /** A fragment: the 16-bit field with the offset and the more-fragments bit, and the data. */
  datatype Fragment = Fragment(field: nat, data: seq<byte>)

  function Offset(f: Fragment): nat {
    f.field % MORE
  }

  predicate HasMore(f: Fragment) {
    f.field / MORE % 2 == 1
  }

  /** Setting the more-fragments bit and truncating to 16 bits. */
  function WithMore(field: nat): nat {
    (if field / MORE % 2 == 1 then field else field + MORE) % WORD_16
  }

  function PieceSize(mtu: nat): (size: nat)
    requires mtu >= MIN_MTU
    ensures size > 0 && size % 8 == 0 && mtu - 8 < size + NET_HEADER <= mtu
  {
    mtu - NET_HEADER - (mtu - NET_HEADER) % 8
  }

  /** The pieces of data that starts at position `base`; `more` says that the last piece is
      followed by other fragments of the same datagram. */
  function Pieces(data: seq<byte>, size: nat, base: nat, more: bool): (r: seq<Fragment>)
    requires size > 0
    ensures r != []
    decreases |data|
  {
    if |data| <= size then [Fragment(if more then WithMore(base) else base % WORD_16, data)]
    else [Fragment(WithMore(base), data[..size])] + Pieces(data[size..], size, base + size, more)
  }

  /** What a host sends for data with a given field. At its origin a datagram ends with its last
      piece; at a relay, only if the field that came in said so. */
  function Fragments(relay: bool, data: seq<byte>, mtu: nat, field: nat): (r: seq<Fragment>)
    requires mtu >= MIN_MTU
    ensures r != []
  {
    if |data| + NET_HEADER <= mtu then [Fragment(field, data)]
    else Pieces(data, PieceSize(mtu), field % MORE, relay && field / MORE == 1)
  }

  /** What comes of cutting: fragments, or a loop that cuts off pieces of no bytes for ever. */
  datatype Cutting = Endless | Into(frags: seq<Fragment>)

  /** The size of a piece for any MTU of 16 bits: below the header the subtraction wraps at 2^64. */
  function CodePieceSize(mtu: nat): nat {
    var size := (mtu - NET_HEADER) % WORD_64;
    size - size % 8
  }

  /** What the code does for any MTU. */
  function CutUp(relay: bool, data: seq<byte>, mtu: nat, field: nat): Cutting {
    if |data| + NET_HEADER <= mtu then Into([Fragment(field, data)])
    else if CodePieceSize(mtu) == 0 then Endless
    else Into(Pieces(data, CodePieceSize(mtu), field % MORE, relay && field / MORE == 1))
  }

  /** From 28 bytes on the code cuts as it should, from 20 to 27 its loop does not end, and below it
      sends a datagram of any size in one piece, over a link that cannot take it. */
  lemma CutUpExactly(relay: bool, data: seq<byte>, mtu: nat, field: nat)
    requires mtu < WORD_16 && |data| < WORD_64 - WORD_16
    ensures CutUp(relay, data, mtu, field).Endless? <==> NET_HEADER <= mtu < MIN_MTU && |data| + NET_HEADER > mtu
    ensures mtu >= MIN_MTU ==> CutUp(relay, data, mtu, field) == Into(Fragments(relay, data, mtu, field))
    ensures mtu < NET_HEADER ==>
              exists f: Fragment
                | f.data == data && Offset(f) == field % MORE && (HasMore(f) <==> relay && field / MORE == 1) ::
                CutUp(relay, data, mtu, field) == Into([f])
  {
    if mtu < NET_HEADER {
      assert (mtu - NET_HEADER) % WORD_64 == WORD_64 + mtu - NET_HEADER;
      var base, more := field % MORE, relay && field / MORE == 1;
      var last := if more then WithMore(base) else base % WORD_16;
      FieldIs(base, data);
      assert CutUp(relay, data, mtu, field) == Into([Fragment(last, data)]);
    } else {
      assert (mtu - NET_HEADER) % WORD_64 == mtu - NET_HEADER;
    }
  }

  /** Fragmentation at the origin. */
  method FragPack(data: seq<byte>, mtu: nat, field: nat) returns (cutting: Cutting)
    ensures cutting == CutUp(false, data, mtu, field)
  {
    if |data| + NET_HEADER <= mtu {
      return Into([Fragment(field, data)]);
    }
    var size := (mtu - NET_HEADER) % WORD_64;
    size := size - size % 8;
    if size == 0 {
      return Endless;
    }
    var base := field % MORE;
    var off, frags := 0, [];
    assert data[0..] == data;
    ghost var whole := Pieces(data, size, base, false);
    while |data| - off > size
      invariant 0 <= off <= |data|
      invariant whole == frags + Pieces(data[off..], size, off + base, false)
    {
      PiecesStep(data, off, size, base, false);
      var piece := Fragment(WithMore(off + base), data[off..off + size]);
      Regroup(frags, piece, Pieces(data[off + size..], size, off + size + base, false));
      frags := frags + [piece];
      off := off + size;
    }
    return Into(frags + [Fragment((off + base) % WORD_16, data[off..])]);
  }

  lemma PiecesStep(data: seq<byte>, off: nat, size: nat, base: nat, more: bool)
    requires 0 < size < |data| - off
    ensures Pieces(data[off..], size, off + base, more)
            == [Fragment(WithMore(off + base), data[off..off + size])]
               + Pieces(data[off + size..], size, off + size + base, more)
  {
    assert data[off..][..size] == data[off..off + size] && data[off..][size..] == data[off + size..];
  }

  lemma Regroup(frags: seq<Fragment>, piece: Fragment, rest: seq<Fragment>)
    ensures frags + ([piece] + rest) == (frags + [piece]) + rest
  {
  }

  /** Fragmentation at a relay, which keeps the more-fragments bit of what it forwards. */
  method FragPackAgain(data: seq<byte>, mtu: nat, field: nat) returns (cutting: Cutting)
    ensures cutting == CutUp(true, data, mtu, field)
  {
    var more := field / MORE == 1;
    if |data| + NET_HEADER <= mtu {
      return Into([Fragment(field, data)]);
    }
    var size := (mtu - NET_HEADER) % WORD_64;
    size := size - size % 8;
    if size == 0 {
      return Endless;
    }
    var base := field % MORE;
    var off, frags := 0, [];
    assert data[0..] == data;
    ghost var whole := Pieces(data, size, base, more);
    while |data| - off > size
      invariant 0 <= off <= |data|
      invariant whole == frags + Pieces(data[off..], size, off + base, more)
    {
      PiecesStep(data, off, size, base, more);
      var piece := Fragment(WithMore(off + base), data[off..off + size]);
      Regroup(frags, piece, Pieces(data[off + size..], size, off + size + base, more));
      frags := frags + [piece];
      off := off + size;
    }
    var last := if more then WithMore(off + base) else (off + base) % WORD_16;
    return Into(frags + [Fragment(last, data[off..])]);
  }

  // ---- What fragments mean ----

  /** The fragments, in order, cover exactly `data` from position `base` on: each starts where the
      one before ended, every one but the last is marked as followed by more and is a positive
      multiple of 8 bytes long, and the last is marked as `more` says. */
  predicate Tiles(frags: seq<Fragment>, base: nat, data: seq<byte>, more: bool)
    decreases |frags|
  {
    && frags != [] && Offset(frags[0]) == base && frags[0].data <= data
    && if |frags| == 1 then HasMore(frags[0]) == more && frags[0].data == data
       else
         var n := |frags[0].data|;
         && HasMore(frags[0]) && 0 < n < |data| && n % 8 == 0
         && Tiles(frags[1..], base + n, data[n..], more)
  }

  /** Where the last of the pieces starts. */
  function LastOffset(length: nat, size: nat, base: nat): nat
    requires size > 0
    decreases length
  {
    if length <= size then base else LastOffset(length - size, size, base + size)
  }

  lemma FieldIs(position: nat, data: seq<byte>)
    requires position < WORD_16
    ensures Offset(Fragment(position % WORD_16, data)) == position % MORE == Offset(Fragment(WithMore(position), data))
    ensures HasMore(Fragment(position % WORD_16, data)) == (position >= MORE)
    ensures HasMore(Fragment(WithMore(position), data))
  {
  }

  lemma {:induction false} LastOffsetBounds(length: nat, size: nat, base: nat)
    requires size > 0
    ensures base <= LastOffset(length, size, base) <= base + length
    ensures length > 0 ==> LastOffset(length, size, base) < base + length
    decreases length
  {
    if length > size {
      LastOffsetBounds(length - size, size, base + size);
    }
  }

  /** The pieces cover the data exactly when the last of them starts at an offset that fits into
      15 bits. */
  lemma {:induction false} PiecesTileExactly(data: seq<byte>, size: nat, base: nat, more: bool)
    requires size > 0 && size % 8 == 0 && base + |data| < WORD_16
    ensures Tiles(Pieces(data, size, base, more), base, data, more) <==> LastOffset(|data|, size, base) < MORE
    decreases |data|
  {
    hide Offset, HasMore, WithMore;
    if |data| <= size {
      FieldIs(base, data);
    } else {
      var rest := Pieces(data[size..], size, base + size, more);
      FieldIs(base, data[..size]);
      PiecesTileExactly(data[size..], size, base + size, more);
      LastOffsetBounds(|data| - size, size, base + size);
      TilesStep(Fragment(WithMore(base), data[..size]), rest, base, data, more);
    }
  }

  lemma {:induction false} TilesStep(f: Fragment, rest: seq<Fragment>, base: nat, data: seq<byte>, more: bool)
    requires rest != [] && 0 < |f.data| < |data| && |f.data| % 8 == 0 && HasMore(f) && f.data <= data
    ensures Tiles([f] + rest, base, data, more)
            <==> Offset(f) == base && Tiles(rest, base + |f.data|, data[|f.data|..], more)
  {
    assert ([f] + rest)[1..] == rest;
  }

  /** At the origin the fragments cover the datagram exactly when it needs no cutting or the last
      piece starts at an offset of 15 bits, which it does for every message of a service point. */
  lemma {:induction false} OriginTilesExactly(data: seq<byte>, mtu: nat)
    requires mtu >= MIN_MTU && |data| < WORD_16
    ensures Tiles(Fragments(false, data, mtu, 0), 0, data, false)
            <==> |data| + NET_HEADER <= mtu || LastOffset(|data|, PieceSize(mtu), 0) < MORE
    ensures |data| <= MORE ==> Tiles(Fragments(false, data, mtu, 0), 0, data, false)
  {
    if |data| + NET_HEADER > mtu {
      OriginPiecesTile(data, PieceSize(mtu));
    }
  }

  lemma {:induction false} OriginPiecesTile(data: seq<byte>, size: nat)
    requires size > 0 && size % 8 == 0 && |data| < WORD_16 && data != []
    ensures Tiles(Pieces(data, size, 0, false), 0, data, false) <==> LastOffset(|data|, size, 0) < MORE
    ensures |data| <= MORE ==> Tiles(Pieces(data, size, 0, false), 0, data, false)
  {
    PiecesTileExactly(data, size, 0, false);
    LastOffsetBounds(|data|, size, 0);
  }

  predicate IsField(f: Fragment) {
    f.field < WORD_16
  }

  /** At a relay the pieces of a fragment cover what the fragment covered. */
  lemma RelayTiles(f: Fragment, mtu: nat)
    requires IsField(f) && Offset(f) + |f.data| <= MORE && mtu >= MIN_MTU
    ensures Tiles(Fragments(true, f.data, mtu, f.field), Offset(f), f.data, HasMore(f))
  {
    if |f.data| + NET_HEADER > mtu {
      var size := PieceSize(mtu);
      PiecesTileExactly(f.data, size, Offset(f), HasMore(f));
      LastOffsetBounds(|f.data|, size, Offset(f));
    }
  }

  lemma Eights(whole: nat, part: nat)
    requires part <= whole && whole % 8 == 0 && part % 8 == 0
    ensures (whole - part) % 8 == 0
  {
  }

  /** Covers placed end to end cover the whole. */
  lemma {:induction false} TilesConcat(a: seq<Fragment>, b: seq<Fragment>, base: nat,
                                       first: seq<byte>, second: seq<byte>, more: bool)
    requires Tiles(a, base, first, true) && Tiles(b, base + |first|, second, more)
    requires first != [] && |first| % 8 == 0 && second != []
    ensures Tiles(a + b, base, first + second, more)
    decreases |a|
  {
    hide Offset, HasMore;
    var f, n := a[0], |a[0].data|;
    Eights(|first|, n);
    assert (first + second)[n..] == first[n..] + second;
    if |a| == 1 {
      assert a == [f] && first[n..] + second == second;
      TilesStep(f, b, base, first + second, more);
    } else {
      TilesConcat(a[1..], b, base + n, first[n..], second, more);
      assert a + b == [f] + (a[1..] + b);
      TilesStep(f, a[1..] + b, base, first + second, more);
    }
  }

  /** Everything a relay makes of a list of fragments. Each fragment may leave over another link,
      with its own MTU. */
  function Relayed(frags: seq<Fragment>, mtu: Fragment -> nat): seq<Fragment>
    requires forall f | f in frags :: mtu(f) >= MIN_MTU
  {
    if frags == [] then []
    else Fragments(true, frags[0].data, mtu(frags[0]), frags[0].field) + Relayed(frags[1..], mtu)
  }

  lemma {:induction false} RelayedTile(frags: seq<Fragment>, base: nat, data: seq<byte>, more: bool,
                                       mtu: Fragment -> nat)
    requires Tiles(frags, base, data, more) && base + |data| <= MORE
    requires forall f | f in frags :: IsField(f) && mtu(f) >= MIN_MTU
    ensures Tiles(Relayed(frags, mtu), base, data, more)
    decreases |frags|
  {
    hide Offset, HasMore, Fragments;
    var f := frags[0];
    RelayTiles(f, mtu(f));
    var first := Fragments(true, f.data, mtu(f), f.field);
    if |frags| == 1 {
      assert Relayed(frags[1..], mtu) == [];
      assert first + [] == first;
    } else {
      var n := |f.data|;
      RelayedTile(frags[1..], base + n, data[n..], more, mtu);
      TilesConcat(first, Relayed(frags[1..], mtu), base, f.data, data[n..], more);
      assert f.data + data[n..] == data;
    }
  }

  lemma {:induction false} PiecesAreFields(data: seq<byte>, size: nat, base: nat, more: bool)
    requires size > 0
    ensures forall f | f in Pieces(data, size, base, more) :: IsField(f) && |f.data| <= size
    decreases |data|
  {
    if |data| > size {
      PiecesAreFields(data[size..], size, base + size, more);
    }
  }

  lemma {:induction false} RelayedAreFields(frags: seq<Fragment>, mtu: Fragment -> nat)
    requires forall f | f in frags :: IsField(f) && mtu(f) >= MIN_MTU
    ensures forall f | f in Relayed(frags, mtu) :: IsField(f)
  {
    if frags != [] {
      var f := frags[0];
      PiecesAreFields(f.data, PieceSize(mtu(f)), f.field % MORE, f.field / MORE == 1);
      RelayedAreFields(frags[1..], mtu);
    }
  }

  /** Fragments after any number of relays. */
  function Travelled(frags: seq<Fragment>, hops: seq<Fragment -> nat>): seq<Fragment>
    requires forall mtu, f | mtu in hops :: mtu(f) >= MIN_MTU
    decreases |hops|
  {
    if hops == [] then frags else Travelled(Relayed(frags, hops[0]), hops[1..])
  }

  /** Fragmenting again and again preserves meaning: whatever MTUs the pieces of a datagram of up
      to 32768 bytes meet on their ways, the pieces that arrive cover the datagram. */
  lemma {:induction false} TravelledTile(data: seq<byte>, mtu: nat, hops: seq<Fragment -> nat>)
    requires mtu >= MIN_MTU && |data| <= MORE
    requires forall m, f | m in hops :: m(f) >= MIN_MTU
    ensures Tiles(Travelled(Fragments(false, data, mtu, 0), hops), 0, data, false)
  {
    var frags := Fragments(false, data, mtu, 0);
    OriginTilesExactly(data, mtu);
    PiecesAreFields(data, PieceSize(mtu), 0, false);
    TravelledOnTile(frags, data, hops);
  }

  lemma {:induction false} TravelledOnTile(frags: seq<Fragment>, data: seq<byte>, hops: seq<Fragment -> nat>)
    requires Tiles(frags, 0, data, false) && |data| <= MORE
    requires forall f | f in frags :: IsField(f)
    requires forall m, f | m in hops :: m(f) >= MIN_MTU
    ensures Tiles(Travelled(frags, hops), 0, data, false)
    decreases |hops|
  {
    if hops != [] {
      assert hops[0] in hops;
      RelayedTile(frags, 0, data, false, hops[0]);
      RelayedAreFields(frags, hops[0]);
      TravelledOnTile(Relayed(frags, hops[0]), data, hops[1..]);
    }
  }

  // ---- The link ----

  /** The link refuses a packet of exactly its MTU. */
  predicate LinkTakes(mtu: nat, f: Fragment) {
    |f.data| + NET_HEADER < mtu
  }

  /** A datagram that has to be cut passes the link whole exactly when the MTU is not 4 more than
      a multiple of 8; otherwise the first piece, at least,
      is refused. */
  lemma LinkTakesAllExactly(relay: bool, data: seq<byte>, mtu: nat, field: nat)
    requires mtu >= MIN_MTU && |data| + NET_HEADER > mtu
    ensures (forall f | f in Fragments(relay, data, mtu, field) :: LinkTakes(mtu, f)) <==> mtu % 8 != 4
    ensures forall f | f in Fragments(relay, data, mtu, field) :: |f.data| + NET_HEADER <= mtu
  {
    var size := PieceSize(mtu);
    var more := relay && field / MORE == 1;
    PiecesAreFields(data, size, field % MORE, more);
    if mtu % 8 == 4 {
      assert size + NET_HEADER == mtu;
      var first := Pieces(data, size, field % MORE, more)[0];
      assert |first.data| == size && !LinkTakes(mtu, first);
    }
  }
}
