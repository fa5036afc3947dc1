/** Reassembly with the insertion that net_list.c documents, in order of offset: datagrams come
    out whole whatever the order, the repetitions and the other datagrams in between. Beside it,
    exactly when the code inserts like that. */
module OrderedReassembly {
  import opened Bytes
  import opened Fragmentation
  import opened Reassembly
  import opened ReassemblyInOrder

  predicate Ascending(offs: seq<Fragment>) {
    forall i, j | 0 <= i < j < |offs| :: Offset(offs[i]) < Offset(offs[j])
  }

  predicate Holds(offs: seq<Fragment>, offset: nat) {
    exists f | f in offs :: Offset(f) == offset
  }

  /** A fragment put before the first one of a larger offset. */
  function Ordered(offs: seq<Fragment>, f: Fragment): seq<Fragment> {
    if offs == [] || Offset(f) < Offset(offs[0]) then [f] + offs
    else [offs[0]] + Ordered(offs[1..], f)
  }

  function AddedInOrder(offs: seq<Fragment>, f: Fragment): AddResult {
    if Holds(offs, Offset(f)) then Repeated else Appended(Ordered(offs, f))
  }

  lemma {:induction false} OrderedMembers(offs: seq<Fragment>, f: Fragment)
    ensures multiset(Ordered(offs, f)) == multiset(offs) + multiset{f}
    decreases |offs|
  {
    if offs != [] && Offset(f) >= Offset(offs[0]) {
      assert offs == [offs[0]] + offs[1..];
      OrderedMembers(offs[1..], f);
    }
  }

  lemma AscendingStep(first: Fragment, rest: seq<Fragment>)
    requires Ascending(rest) && forall g | g in rest :: Offset(first) < Offset(g)
    ensures Ascending([first] + rest)
  {
  }

  /** The insertion keeps the order and adds the fragment, and nothing else. */
  lemma {:induction false} OrderedIsInsertion(offs: seq<Fragment>, f: Fragment)
    requires Ascending(offs) && !Holds(offs, Offset(f))
    ensures Ascending(Ordered(offs, f))
    ensures multiset(Ordered(offs, f)) == multiset(offs) + multiset{f}
    decreases |offs|
  {
    OrderedMembers(offs, f);
    if offs == [] {
    } else if Offset(f) < Offset(offs[0]) {
      AscendingStep(f, offs);
    } else {
      assert offs[0] in offs;
      var rest := Ordered(offs[1..], f);
      OrderedIsInsertion(offs[1..], f);
      forall g | g in rest ensures Offset(offs[0]) < Offset(g) {
        assert g in multiset(rest);
      }
      AscendingStep(offs[0], rest);
    }
  }

  lemma {:induction false} OrderedEnds(offs: seq<Fragment>, f: Fragment)
    requires offs != [] && Ascending(offs)
    ensures Offset(offs[|offs| - 1]) <= Offset(f) ==> Ordered(offs, f) == offs + [f]
    ensures Offset(f) < Offset(offs[|offs| - 1])
            ==> |Ordered(offs, f)| == |offs| + 1 && Ordered(offs, f)[|offs|] == offs[|offs| - 1]
    decreases |offs|
  {
    if Offset(offs[0]) <= Offset(f) && |offs| > 1 {
      OrderedEnds(offs[1..], f);
      assert [offs[0]] + (offs[1..] + [f]) == offs + [f];
    }
  }

  /** The code adds a fragment as documented exactly when the list is empty, or the walk along it
      reaches its end and the fragment does not belong before the last one. */
  lemma {:induction false} AddedAsDocumentedExactly(offs: seq<Fragment>, f: Fragment)
    requires Ascending(offs)
    ensures Added(offs, f) == AddedInOrder(offs, f)
            <==> offs == [] || (Anchor(offs, Offset(f), |f.data|) == |offs| - 1
                                && Offset(offs[|offs| - 1]) <= Offset(f))
  {
    if offs != [] {
      OrderedEnds(offs, f);
      var last := offs[|offs| - 1];
      if Offset(f) < Offset(last) {
        assert (offs + [f])[|offs|] == f;
      } else if Offset(f) == Offset(last) {
        assert last in offs;
      }
    }
  }

  /** Two fragments that overtake each other are delivered in the order of their arrival. */
  lemma {:induction false} SwappedStaysSwapped(a: Fragment, b: Fragment, data: seq<byte>, id: nat, src: nat)
    requires Tiles([a, b], 0, data, false)
    ensures Fed([], id, src, [b, a]) == Delivered(b.data + a.data, [], [])
  {
    assert [a, b][1..] == [b];
    var first := NewPartial(Datagram(id, src, b));
    IndexIs([first], id, src, 0);
    assert Inserted([], Datagram(id, src, b)) == Kept([first], false);
    assert [b, a][1..] == [a] && [a][1..] == [];
    var both := first.(offs := [b, a], count := |data|);
    IndexIs([both], id, src, 0);
    assert [first][0 := both] == [both];
    assert Added([b], a) == Appended([b, a]);
    assert first.total == |b.data| + Offset(b) == |data| == first.count + |a.data|;
    assert Inserted([first], Datagram(id, src, a)) == Kept([both], true);
    assert Joined([a]) == a.data + Joined([a][1..]) == a.data;
    assert Joined([b, a]) == b.data + Joined([b, a][1..]);
    assert [both][..0] + [both][1..] == [];
  }

  // ---- The documented receiver ----

  datatype Key = Key(id: nat, src: nat)

  datatype Packet = Packet(key: Key, data: seq<byte>)

  /** What is partly received, and everything handed up so far. */
  datatype Receiver = Receiver(partials: map<Key, Partial>, log: seq<Packet>)

  function KeyOf(d: Datagram): Key {
    Key(d.id, d.src)
  }

  /** The entry after a fragment was added to the list. */
  function Counted(p: Partial, f: Fragment, offs: seq<Fragment>): Partial {
    p.(offs := offs,
       count := p.count + |f.data|,
       total := if HasMore(f) then p.total else |f.data| + Offset(f))
  }

  function Settled(r: Receiver, key: Key, p: Partial): Receiver {
    if p.total == p.count then Receiver(r.partials - {key}, r.log + [Packet(key, Joined(p.offs))])
    else r.(partials := r.partials[key := p])
  }

  function Arrived(r: Receiver, d: Datagram): Receiver {
    var key := KeyOf(d);
    if key !in r.partials then Settled(r, key, NewPartial(d))
    else
      var p := r.partials[key];
      if Holds(p.offs, Offset(d.fragment)) then r
      else Settled(r, key, Counted(p, d.fragment, Ordered(p.offs, d.fragment)))
  }

  function Reassembled(ds: seq<Datagram>): Receiver {
    if ds == [] then Receiver(map[], [])
    else Arrived(Reassembled(ds[..|ds| - 1]), ds[|ds| - 1])
  }

  // ---- What it should do for one datagram ----

  function All(whole: seq<Fragment>): set<Fragment> {
    set f | f in whole
  }

  /** The fragments that arrived since the datagram was last complete, and how often it was. */
  datatype Tally = Tally(since: set<Fragment>, rounds: nat)

  function Tallied(t: Tally, all: set<Fragment>, f: Fragment): Tally {
    var since := t.since + {f};
    if since == all then Tally({}, t.rounds + 1) else Tally(since, t.rounds)
  }

  function TallyOf(ds: seq<Datagram>, key: Key, all: set<Fragment>): Tally {
    if ds == [] then Tally({}, 0)
    else
      var before := TallyOf(ds[..|ds| - 1], key, all);
      var d := ds[|ds| - 1];
      if KeyOf(d) == key then Tallied(before, all, d.fragment) else before
  }

  /** The fragments of `whole` that are in a set, in order. */
  function Selected(whole: seq<Fragment>, s: set<Fragment>): seq<Fragment> {
    if whole == [] then []
    else
      var rest := Selected(whole[1..], s);
      if whole[0] in s then [whole[0]] + rest else rest
  }

  lemma {:induction false} SelectedMembers(whole: seq<Fragment>, s: set<Fragment>)
    ensures forall f :: f in Selected(whole, s) <==> f in whole && f in s
  {
    if whole != [] {
      SelectedMembers(whole[1..], s);
    }
  }

  lemma {:induction false} SelectedGrows(whole: seq<Fragment>, s: set<Fragment>, f: Fragment)
    requires f !in whole
    ensures Selected(whole, s + {f}) == Selected(whole, s)
  {
    if whole != [] {
      SelectedGrows(whole[1..], s, f);
    }
  }

  lemma {:induction false} OrderedSelects(whole: seq<Fragment>, s: set<Fragment>, f: Fragment)
    requires Ascending(whole) && f in whole && f !in s
    ensures !Holds(Selected(whole, s), Offset(f))
    ensures Ordered(Selected(whole, s), f) == Selected(whole, s + {f})
    decreases |whole|
  {
    SelectedMembers(whole, s);
    var rest := whole[1..];
    SelectedMembers(rest, s);
    if whole[0] == f {
      assert f !in rest;
      SelectedGrows(rest, s, f);
      assert forall g | g in Selected(rest, s) :: Offset(f) < Offset(g);
    } else {
      OrderedSelects(rest, s, f);
      if whole[0] in s {
        assert ([whole[0]] + Selected(rest, s))[1..] == Selected(rest, s);
      }
    }
  }

  /** Pieces of positive length add up to the whole exactly when they are all there. */
  lemma {:induction false} SelectedSize(whole: seq<Fragment>, s: set<Fragment>)
    requires forall f | f in whole :: f.data != []
    ensures |Joined(Selected(whole, s))| <= |Joined(whole)|
    ensures |Joined(Selected(whole, s))| == |Joined(whole)| <==> All(whole) <= s
    ensures All(whole) <= s ==> Selected(whole, s) == whole
  {
    if whole != [] {
      var rest := whole[1..];
      SelectedSize(rest, s);
      assert All(whole) == {whole[0]} + All(rest);
      if whole[0] in s {
        JoinedOne(whole[0], Selected(rest, s));
      }
    }
  }

  lemma {:induction false} JoinedOne(f: Fragment, rest: seq<Fragment>)
    ensures Joined([f] + rest) == f.data + Joined(rest)
  {
    assert ([f] + rest)[1..] == rest;
  }

  lemma {:induction false} JoinedOrdered(offs: seq<Fragment>, f: Fragment)
    ensures |Joined(Ordered(offs, f))| == |Joined(offs)| + |f.data|
  {
    if offs == [] || Offset(f) < Offset(offs[0]) {
      JoinedOne(f, offs);
    } else {
      JoinedOrdered(offs[1..], f);
      JoinedOne(offs[0], Ordered(offs[1..], f));
    }
  }

  lemma {:induction false} WholeFacts(whole: seq<Fragment>, data: seq<byte>)
    requires Tiles(whole, 0, data, false)
    ensures Ascending(whole) && Joined(whole) == data
    ensures |whole| > 1 ==> forall f | f in whole :: f.data != []
    ensures forall f | f in whole :: HasMore(f) || (f == whole[|whole| - 1] && Offset(f) + |f.data| == |data|)
    ensures !HasMore(whole[|whole| - 1])
  {
    TilesAbut(whole, 0, data, false);
    forall i, j | 0 <= i < j < |whole| ensures Offset(whole[i]) < Offset(whole[j]) {
      OffsetsRise(whole, i, j);
    }
    if |whole| > 1 {
      LastNotEmpty(whole, 0, data);
      forall f | f in whole ensures f.data != [] {
        var i :| 0 <= i < |whole| && whole[i] == f;
        if i < |whole| - 1 { assert Abut(whole, i); }
      }
    }
    forall f | f in whole
      ensures HasMore(f) || (f == whole[|whole| - 1] && Offset(f) + |f.data| == |data|)
    {
      var i :| 0 <= i < |whole| && whole[i] == f;
      if i < |whole| - 1 { assert Abut(whole, i); }
    }
  }

  lemma {:induction false} LastNotEmpty(whole: seq<Fragment>, base: nat, data: seq<byte>)
    requires Tiles(whole, base, data, false) && data != []
    ensures whole[|whole| - 1].data != []
    decreases |whole|
  {
    if |whole| > 1 {
      LastNotEmpty(whole[1..], base + |whole[0].data|, data[|whole[0].data|..]);
    }
  }

  /** The entry that holds exactly the fragments of a set. */
  function EntryFor(key: Key, whole: seq<Fragment>, data: seq<byte>, s: set<Fragment>): Partial
    requires whole != []
  {
    var offs := Selected(whole, s);
    Partial(key.id, key.src, |Joined(offs)|, if whole[|whole| - 1] in s then |data| else 0, offs)
  }

  predicate Tracks(partials: map<Key, Partial>, key: Key, whole: seq<Fragment>, data: seq<byte>, s: set<Fragment>)
    requires whole != []
  {
    if s == {} then key !in partials
    else key in partials && partials[key] == EntryFor(key, whole, data, s)
  }

  /** An entry is complete exactly when it holds every fragment, and then it holds the datagram. */
  lemma {:induction false} CompleteExactly(key: Key, whole: seq<Fragment>, data: seq<byte>, s: set<Fragment>)
    requires Tiles(whole, 0, data, false) && s <= All(whole) && s != {}
    ensures var p := EntryFor(key, whole, data, s);
            && (p.total == p.count <==> s == All(whole))
            && (s == All(whole) ==> Joined(p.offs) == data)
  {
    WholeFacts(whole, data);
    var last := whole[|whole| - 1];
    if |whole| == 1 {
      assert All(whole) == {last};
      assert s == {last} by {
        var f :| f in s;
        assert f == last;
      }
      assert Selected(whole, s) == [last] + Selected([], s) == whole;
    } else {
      SelectedSize(whole, s);
      if last !in s {
        var f :| f in s;
        SelectedMembers(whole, s);
        JoinedHas(Selected(whole, s), f);
      }
    }
  }

  lemma {:induction false} JoinedHas(offs: seq<Fragment>, f: Fragment)
    requires f in offs
    ensures |Joined(offs)| >= |f.data|
  {
    if offs[0] != f {
      JoinedHas(offs[1..], f);
    }
  }

  lemma {:induction false} FirstEntry(key: Key, whole: seq<Fragment>, data: seq<byte>, f: Fragment)
    requires Tiles(whole, 0, data, false) && f in whole
    ensures NewPartial(Datagram(key.id, key.src, f)) == EntryFor(key, whole, data, {f})
  {
    WholeFacts(whole, data);
    OrderedSelects(whole, {}, f);
    SelectedNone(whole);
    assert {} + {f} == {f};
    JoinedOne(f, []);
  }

  lemma {:induction false} SelectedNone(whole: seq<Fragment>)
    ensures Selected(whole, {}) == []
  {
    if whole != [] {
      SelectedNone(whole[1..]);
    }
  }

  lemma {:induction false} NextEntry(key: Key, whole: seq<Fragment>, data: seq<byte>, s: set<Fragment>, f: Fragment)
    requires Tiles(whole, 0, data, false) && f in whole && f !in s
    ensures var p := EntryFor(key, whole, data, s);
            && !Holds(p.offs, Offset(f))
            && Counted(p, f, Ordered(p.offs, f)) == EntryFor(key, whole, data, s + {f})
  {
    WholeFacts(whole, data);
    OrderedSelects(whole, s, f);
    JoinedOrdered(Selected(whole, s), f);
  }

  /** One arrival. */
  lemma {:induction false} ArrivedTracks(r: Receiver, d: Datagram, key: Key,
                                         whole: seq<Fragment>, data: seq<byte>, t: Tally)
    requires Tiles(whole, 0, data, false) && t.since < All(whole)
    requires Tracks(r.partials, key, whole, data, t.since)
    requires KeyOf(d) == key ==> d.fragment in whole
    ensures var u := if KeyOf(d) == key then Tallied(t, All(whole), d.fragment) else t;
            && u.since < All(whole)
            && Tracks(Arrived(r, d).partials, key, whole, data, u.since)
            && HandedUp(Arrived(r, d).log, key) == HandedUp(r.log, key) + (if u.rounds > t.rounds then [data] else [])
  {
    var f := d.fragment;
    var after := Arrived(r, d);
    if |after.log| > |r.log| {
      assert after.log[..|after.log| - 1] == r.log;
    }
    if KeyOf(d) == key {
      assert f in All(whole);
      var s := t.since + {f};
      if t.since == {} {
        FirstEntry(key, whole, data, f);
        assert s == {f};
        CompleteExactly(key, whole, data, s);
      } else if f in t.since {
        SelectedMembers(whole, t.since);
        assert s == t.since;
      } else {
        NextEntry(key, whole, data, t.since, f);
        CompleteExactly(key, whole, data, s);
      }
    }
  }

  /** What was handed up of one key. */
  function HandedUp(log: seq<Packet>, key: Key): seq<seq<byte>> {
    if log == [] then []
    else
      var last := log[|log| - 1];
      HandedUp(log[..|log| - 1], key) + (if last.key == key then [last.data] else [])
  }

  /** The fragments of one datagram arrive in any order, any number of times, among the fragments
      of any other datagrams. The receiver then hands the datagram up, whole, once for every time
      that all its fragments have arrived, and in between holds exactly those that have. */
  lemma {:induction false} AnyOrder(ds: seq<Datagram>, key: Key, whole: seq<Fragment>, data: seq<byte>)
    requires Tiles(whole, 0, data, false)
    requires forall d | d in ds && KeyOf(d) == key :: d.fragment in whole
    ensures var t := TallyOf(ds, key, All(whole));
            && t.since < All(whole)
            && Tracks(Reassembled(ds).partials, key, whole, data, t.since)
            && |HandedUp(Reassembled(ds).log, key)| == t.rounds
            && forall out | out in HandedUp(Reassembled(ds).log, key) :: out == data
    decreases |ds|
  {
    if ds == [] {
      assert whole[0] in All(whole);
    } else {
      var before := ds[..|ds| - 1];
      AnyOrder(before, key, whole, data);
      ArrivedTracks(Reassembled(before), ds[|ds| - 1], key, whole, data, TallyOf(before, key, All(whole)));
    }
  }

  /** A fragment arrived for a key. */
  predicate Came(ds: seq<Datagram>, key: Key, f: Fragment) {
    exists d | d in ds :: KeyOf(d) == key && d.fragment == f
  }

  lemma {:induction false} TallyHolds(ds: seq<Datagram>, key: Key, all: set<Fragment>)
    requires all != {}
    requires forall d | d in ds && KeyOf(d) == key :: d.fragment in all
    ensures var t := TallyOf(ds, key, all);
            && t.since < all
            && (forall f | f in t.since :: Came(ds, key, f))
            && (t.rounds == 0 ==> forall f | f in all :: Came(ds, key, f) <==> f in t.since)
            && (t.rounds > 0 ==> forall f | f in all :: Came(ds, key, f))
    decreases |ds|
  {
    if ds != [] {
      var before, d := ds[..|ds| - 1], ds[|ds| - 1];
      TallyHolds(before, key, all);
      assert ds == before + [d];
      forall f ensures Came(ds, key, f) <==> Came(before, key, f) || (KeyOf(d) == key && d.fragment == f) {
        if Came(before, key, f) {
          var e :| e in before && KeyOf(e) == key && e.fragment == f;
          assert e in ds;
        }
      }
    }
  }

  /** A datagram is handed up exactly when each of its fragments arrived. */
  lemma {:induction false} CompleteIffAllCame(ds: seq<Datagram>, key: Key, whole: seq<Fragment>, data: seq<byte>)
    requires Tiles(whole, 0, data, false)
    requires forall d | d in ds && KeyOf(d) == key :: d.fragment in whole
    ensures data in HandedUp(Reassembled(ds).log, key) <==> forall f | f in whole :: Came(ds, key, f)
    ensures forall out | out in HandedUp(Reassembled(ds).log, key) :: out == data
  {
    AnyOrder(ds, key, whole, data);
    assert whole[0] in All(whole);
    TallyHolds(ds, key, All(whole));
    var t, up := TallyOf(ds, key, All(whole)), HandedUp(Reassembled(ds).log, key);
    if t.rounds > 0 {
      assert up[0] in up;
    } else {
      assert up == [];
      var f :| f in All(whole) && f !in t.since;
      assert !Came(ds, key, f);
    }
  }

  /** End to end: the fragments that any relays made of a datagram of up to 32768 bytes. */
  lemma {:induction false} TravelledReassembles(ds: seq<Datagram>, key: Key, data: seq<byte>,
                                                mtu: nat, hops: seq<Fragment -> nat>)
    requires mtu >= MIN_MTU && |data| <= MORE
    requires forall m, f | m in hops :: m(f) >= MIN_MTU
    requires forall d | d in ds && KeyOf(d) == key :: d.fragment in Travelled(Fragments(false, data, mtu, 0), hops)
    ensures data in HandedUp(Reassembled(ds).log, key)
            <==> forall f | f in Travelled(Fragments(false, data, mtu, 0), hops) :: Came(ds, key, f)
    ensures forall out | out in HandedUp(Reassembled(ds).log, key) :: out == data
  {
    TravelledTile(data, mtu, hops);
    CompleteIffAllCame(ds, key, Travelled(Fragments(false, data, mtu, 0), hops), data);
  }
}
