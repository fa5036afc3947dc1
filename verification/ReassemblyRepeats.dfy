/** What repeated fragments do to the code's reassembly when they arrive in order. */
module ReassemblyRepeats {
  import opened Bytes
  import opened Fragmentation
  import opened Reassembly
  import opened ReassemblyInOrder

  function Copies(f: Fragment, n: nat): seq<Fragment> {
    if n == 0 then [] else [f] + Copies(f, n - 1)
  }

  /** Fragments in order, each as many times as it says. */
  function Stutter(frags: seq<Fragment>, times: seq<nat>): seq<Fragment>
    requires |times| == |frags|
  {
    if frags == [] then [] else Copies(frags[0], times[0]) + Stutter(frags[1..], times[1..])
  }

  /** Some fragment ends where the `j`-th starts when it is given the length of the `j`-th. */
  predicate Meets(frags: seq<Fragment>, j: nat)
    requires j < |frags|
  {
    exists k :: 0 <= k < j && Offset(frags[k]) + |frags[j].data| == Offset(frags[j])
  }

  /** Without spans only the fragment just before can, if it has the same length. */
  lemma MeetsExactly(frags: seq<Fragment>, j: nat)
    requires Connected(frags) && j < |frags| && !Spanned(frags, j)
    ensures Meets(frags, j) <==> j > 0 && |frags[j - 1].data| == |frags[j].data|
  {
    hide Offset, HasMore;
    if j > 0 {
      assert Abut(frags, j - 1);
      forall k | 0 <= k < j - 1 ensures Offset(frags[k]) + |frags[j].data| != Offset(frags[j]) {
        assert !Spans(frags, k, j);
      }
    }
  }

  /** A repetition of the fragment that came last, not the last of all, is ignored or crashes. */
  lemma OneRepeat(packs: seq<Partial>, id: nat, src: nat, frags: seq<Fragment>, j: nat)
    requires Connected(frags) && j < |frags| - 1
    ensures var before := After(packs, id, src, frags, j + 1);
            var result := Inserted(before, Datagram(id, src, frags[j]));
            if Meets(frags, j) then result == Broken(FaultAt(frags, j)) else result == Kept(before, false)
  {
    hide Offset, HasMore;
    var before, offs := After(packs, id, src, frags, j + 1), frags[..j + 1];
    IndexIs(before, id, src, 0);
    var k := Anchor(offs, Offset(frags[j]), |frags[j].data|);
    assert offs[0] == frags[0] && offs[k] == frags[k];
    if k < j {
    } else {
      forall i | 0 <= i < j ensures Offset(frags[i]) + |frags[j].data| != Offset(frags[j]) {
        assert offs[i] == frags[i];
      }
    }
  }

  /** A repetition of the fragment at the end of the list that the walk along it reaches is ignored, in
      whatever order the list is and whether or not its total is known. */
  lemma {:induction false} EndRepeated(packs: seq<Partial>, d: Datagram)
    requires var k := IndexOf(packs, d.id, d.src);
             && k < |packs| && packs[k].offs != []
             && Anchor(packs[k].offs, Offset(d.fragment), |d.fragment.data|) == |packs[k].offs| - 1
    ensures var offs := packs[IndexOf(packs, d.id, d.src)].offs;
            Offset(offs[|offs| - 1]) == Offset(d.fragment) <==> Inserted(packs, d) == Kept(packs, false)
  {
    var k := IndexOf(packs, d.id, d.src);
    var offs := packs[k].offs;
    if Offset(offs[|offs| - 1]) != Offset(d.fragment) {
      assert Inserted(packs, d).packs[k].offs == offs + [d.fragment];
    }
  }

  lemma {:induction false} RepeatsFed(packs: seq<Partial>, id: nat, src: nat, frags: seq<Fragment>, j: nat,
                                      n: nat, rest: seq<Fragment>)
    requires Connected(frags) && j < |frags| - 1
    ensures var before := After(packs, id, src, frags, j + 1);
            var outcome := Fed(before, id, src, Copies(frags[j], n) + rest);
            if n > 0 && Meets(frags, j) then outcome == Crashed(FaultAt(frags, j))
            else outcome == Fed(before, id, src, rest)
    decreases n
  {
    hide Inserted, Meets, After;
    if n == 0 {
      assert Copies(frags[j], 0) + rest == rest;
    } else {
      OneRepeat(packs, id, src, frags, j);
      var all := Copies(frags[j], n) + rest;
      assert all[0] == frags[j] && all[1..] == Copies(frags[j], n - 1) + rest;
      if !Meets(frags, j) { RepeatsFed(packs, id, src, frags, j, n - 1, rest); }
    }
  }

  /** No fragment from the `from`-th on spans an earlier one, and none that is repeated, but for the
      last of all, is as long as the one before it. */
  predicate Harmless(frags: seq<Fragment>, times: seq<nat>, from: nat)
    requires |times| == |frags|
  {
    NoSpan(frags, from) && forall j | from <= j < |frags| - 1 && times[j] > 1 :: !Meets(frags, j)
  }

  /** What goes wrong first, from the `from`-th fragment on. */
  function FaultOf(frags: seq<Fragment>, times: seq<nat>, from: nat): Fault
    requires |times| == |frags|
    decreases |frags| - from
  {
    if from >= |frags| then NullWrite
    else if Spanned(frags, from) || (from < |frags| - 1 && times[from] > 1 && Meets(frags, from))
    then FaultAt(frags, from)
    else FaultOf(frags, times, from + 1)
  }

  lemma HarmlessStep(frags: seq<Fragment>, times: seq<nat>, j: nat)
    requires |times| == |frags| && j < |frags|
    ensures Harmless(frags, times, j)
            <==> !Spanned(frags, j) && (j < |frags| - 1 && times[j] > 1 ==> !Meets(frags, j))
                 && Harmless(frags, times, j + 1)
  {
    hide Meets, Spans;
    NoSpanStep(frags, j);
  }

  lemma StutterTail(frags: seq<Fragment>, times: seq<nat>, j: nat)
    requires |times| == |frags| && j < |frags| && times[j] > 0
    ensures var all := Stutter(frags[j..], times[j..]);
            && all == [frags[j]] + (Copies(frags[j], times[j] - 1) + Stutter(frags[j + 1..], times[j + 1..]))
            && all[0] == frags[j]
            && all[1..] == Copies(frags[j], times[j] - 1) + Stutter(frags[j + 1..], times[j + 1..])
  {
    assert frags[j..][1..] == frags[j + 1..] && times[j..][1..] == times[j + 1..];
  }

  lemma {:induction false} StutterHead(frags: seq<Fragment>, times: seq<nat>)
    requires |times| == |frags| && frags != [] && times[0] > 0
    ensures var all := Stutter(frags, times);
            && all != [] && all[0] == frags[0]
            && all[1..] == Copies(frags[0], times[0] - 1) + Stutter(frags[1..], times[1..])
  {
  }

  lemma {:induction false} StutterFrom(packs: seq<Partial>, id: nat, src: nat,
                                       frags: seq<Fragment>, times: seq<nat>, j: nat)
    requires 1 <= j < |frags| == |times| && Connected(frags) && forall i | 0 <= i < |times| :: times[i] > 0
    ensures var outcome := Fed(After(packs, id, src, frags, j), id, src, Stutter(frags[j..], times[j..]));
            var last := |frags| - 1;
            if Harmless(frags, times, j)
            then outcome == Delivered(Joined(frags), packs, Copies(frags[last], times[last] - 1))
            else outcome == Crashed(FaultOf(frags, times, j))
    decreases |frags| - j
  {
    hide Inserted, Meets, Spanned, Harmless, Connected;
    StutterTail(frags, times, j);
    NextInserted(packs, id, src, frags, j);
    HarmlessStep(frags, times, j);
    var all := Stutter(frags[j..], times[j..]);
    var result := Inserted(After(packs, id, src, frags, j), Datagram(id, src, frags[j]));
    if Spanned(frags, j) {
    } else if j < |frags| - 1 {
      RepeatsFed(packs, id, src, frags, j, times[j] - 1, Stutter(frags[j + 1..], times[j + 1..]));
      StutterFrom(packs, id, src, frags, times, j + 1);
    } else {
      NothingBeyond(frags, times);
      assert Stutter(frags[j + 1..], times[j + 1..]) == [];
      assert all[1..] == Copies(frags[j], times[j] - 1);
      IndexIs(result.packs, id, src, 0);
      assert result.packs[..0] + result.packs[1..] == packs;
    }
  }

  lemma NothingBeyond(frags: seq<Fragment>, times: seq<nat>)
    requires |times| == |frags|
    ensures Harmless(frags, times, |frags|)
  {
  }

  /** In-order arrival with repetitions: the datagram comes out, with the repetitions of its last
      fragment left over, exactly when it would without them and no fragment that is repeated in the
      middle is as long as the one before it, as the pieces of one cutting all are. Otherwise the code
      crashes, over the first fragment that does it. */
  lemma {:induction false} RepeatsExactly(packs: seq<Partial>, id: nat, src: nat,
                                          frags: seq<Fragment>, times: seq<nat>, data: seq<byte>)
    requires Tiles(frags, 0, data, false) && IndexOf(packs, id, src) == |packs|
    requires |times| == |frags| && forall i | 0 <= i < |times| :: times[i] > 0
    ensures var outcome := Fed(packs, id, src, Stutter(frags, times));
            var last := |frags| - 1;
            if Harmless(frags, times, 0) && (packs == [] || |frags| > 1)
            then outcome == Delivered(data, packs, Copies(frags[last], times[last] - 1))
            else outcome == Crashed(FaultOf(frags, times, 0))
  {
    hide *;
    CoverConnected(frags, data);
    if |frags| == 1 {
      SingleRepeated(packs, id, src, frags, times);
    } else {
      ManyRepeated(packs, id, src, frags, times);
    }
  }

  lemma {:induction false} CoverConnected(frags: seq<Fragment>, data: seq<byte>)
    requires Tiles(frags, 0, data, false)
    ensures frags != [] && Connected(frags) && Offset(frags[0]) == 0 && Joined(frags) == data
  {
    hide Offset, HasMore, Abut, Joined;
    TilesAbut(frags, 0, data, false);
  }

  lemma {:induction false} FedStep(packs: seq<Partial>, id: nat, src: nat, frags: seq<Fragment>)
    requires frags != []
    ensures var result := Inserted(packs, Datagram(id, src, frags[0]));
            result.Kept? && !result.complete ==>
              Fed(packs, id, src, frags) == Fed(result.packs, id, src, frags[1..])
  {
  }

  lemma {:induction false} SingleRepeated(packs: seq<Partial>, id: nat, src: nat, frags: seq<Fragment>, times: seq<nat>)
    requires |frags| == |times| == 1 && times[0] > 0 && Connected(frags) && Offset(frags[0]) == 0
    requires IndexOf(packs, id, src) == |packs|
    ensures Harmless(frags, times, 0)
    ensures var outcome := Fed(packs, id, src, Stutter(frags, times));
            if packs == [] then outcome == Delivered(Joined(frags), packs, Copies(frags[0], times[0] - 1))
            else outcome == Crashed(FaultOf(frags, times, 0))
  {
    hide Inserted, Meets, Spanned, Harmless, Offset, HasMore, Connected, Joined;
    assert frags[1..] == [] && times[1..] == [];
    StutterHead(frags, times);
    HarmlessStep(frags, times, 0);
    HarmlessStart(frags, times);
    NothingBeyond(frags, times);
    FirstInserted(packs, id, src, frags);
    var rest := Copies(frags[0], times[0] - 1);
    assert rest + Stutter([], []) == rest;
  }

  lemma {:induction false} ManyRepeated(packs: seq<Partial>, id: nat, src: nat, frags: seq<Fragment>, times: seq<nat>)
    requires |frags| == |times| > 1 && Connected(frags) && Offset(frags[0]) == 0
    requires IndexOf(packs, id, src) == |packs| && forall i | 0 <= i < |times| :: times[i] > 0
    ensures var outcome := Fed(packs, id, src, Stutter(frags, times));
            var last := |frags| - 1;
            if Harmless(frags, times, 0)
            then outcome == Delivered(Joined(frags), packs, Copies(frags[last], times[last] - 1))
            else outcome == Crashed(FaultOf(frags, times, 0))
  {
    hide *;
    FaultStep(frags, times);
    StutterHead(frags, times);
    HarmlessStep(frags, times, 0);
    HarmlessStart(frags, times);
    FirstInserted(packs, id, src, frags);
    FedStep(packs, id, src, Stutter(frags, times));
    RepeatsFed(packs, id, src, frags, 0, times[0] - 1, Stutter(frags[1..], times[1..]));
    StutterFrom(packs, id, src, frags, times, 1);
  }

  lemma {:induction false} FaultStep(frags: seq<Fragment>, times: seq<nat>)
    requires |times| == |frags| > 1
    ensures FaultOf(frags, times, 0) == FaultOf(frags, times, 1)
  {
    HarmlessStart(frags, times);
  }

  lemma HarmlessStart(frags: seq<Fragment>, times: seq<nat>)
    requires |times| == |frags| && frags != []
    ensures !Spanned(frags, 0) && !Meets(frags, 0)
  {
  }

  lemma {:induction false} FirstInserted(packs: seq<Partial>, id: nat, src: nat, frags: seq<Fragment>)
    requires Connected(frags) && Offset(frags[0]) == 0 && IndexOf(packs, id, src) == |packs|
    ensures var result := Inserted(packs, Datagram(id, src, frags[0]));
            if |frags| > 1 then result == Kept(After(packs, id, src, frags, 1), false)
            else if packs != [] then result == Broken(NullWrite)
            else
              && result.Kept? && result.complete && IndexOf(result.packs, id, src) == 0 && |result.packs| == 1
              && result.packs[0].offs == frags && Removed(result.packs, id, src) == []
  {
    var f := frags[0];
    if |frags| > 1 {
      assert Abut(frags, 0);
      assert frags[..1] == [f];
    } else if packs == [] {
      var after := [NewPartial(Datagram(id, src, f))];
      IndexIs(after, id, src, 0);
      assert after[..0] + after[1..] == [];
    }
  }

  /** A repetition of the last of several fragments that comes after the datagram was delivered opens
      an entry that is never completed, or, if there is one of another datagram, crashes; and the next
      datagram that comes in one fragment crashes then. */
  lemma {:induction false} LateRepeatPoisons(packs: seq<Partial>, last: Datagram, next: Datagram)
    requires !HasMore(last.fragment) && Offset(last.fragment) > 0 && IndexOf(packs, last.id, last.src) == |packs|
    requires !HasMore(next.fragment) && (next.id != last.id || next.src != last.src)
    ensures packs != [] ==> Inserted(packs, last) == Broken(NullWrite)
    ensures packs == [] ==>
              && Inserted(packs, last) == Kept([NewPartial(last)], false)
              && Inserted([NewPartial(last)], next) == Broken(NullWrite)
  {
    IndexIs([NewPartial(last)], next.id, next.src, 1);
  }
}
