/** The list of partly received datagrams, as the code keeps it, and when it puts a datagram
    together again. */
module Reassembly {
  import opened Bytes
  import opened Fragmentation

  datatype Datagram = Datagram(id: nat, src: nat, fragment: Fragment)

  /** A partly received datagram: bytes counted so far, the total once the last fragment is in
      (0 before), and the fragments in list order. */
  datatype Partial = Partial(id: nat, src: nat, count: nat, total: nat, offs: seq<Fragment>)

  /** What goes wrong: a read or a write through a null pointer, or a list linked into a cycle. */
  datatype Fault = NullRead | NullWrite | Cycle

  datatype AddResult = Appended(offs: seq<Fragment>) | Repeated | Failed(fault: Fault)

  /** The first fragment before the last of the list that ends `size` bytes before `offset`, or
      the last. The size is that of the new fragment. */
  function Anchor(offs: seq<Fragment>, offset: nat, size: nat): (k: nat)
    requires offs != []
    ensures k < |offs|
    ensures forall i | 0 <= i < k :: Offset(offs[i]) + size != offset
    ensures k < |offs| - 1 ==> Offset(offs[k]) + size == offset
  {
    if |offs| == 1 || Offset(offs[0]) + size == offset then 0 else 1 + Anchor(offs[1..], offset, size)
  }

  /** Adding a fragment: at the end of the list unless it repeats the last one. An anchor before
      the last fragment is linked to the new one, and that back to the anchor; an anchor at the
      head has no predecessor to read the link of. */
  function Added(offs: seq<Fragment>, f: Fragment): AddResult {
    if offs == [] then Appended([f])
    else
      var k := Anchor(offs, Offset(f), |f.data|);
      if k < |offs| - 1 then Failed(if k == 0 then NullRead else Cycle)
      else if Offset(offs[|offs| - 1]) != Offset(f) then Appended(offs + [f])
      else Repeated
  }

  function IndexOf(packs: seq<Partial>, id: nat, src: nat): (k: nat)
    ensures k <= |packs|
    ensures forall i | 0 <= i < k :: packs[i].id != id || packs[i].src != src
    ensures k < |packs| ==> packs[k].id == id && packs[k].src == src
  {
    if packs == [] || (packs[0].id == id && packs[0].src == src) then 0
    else 1 + IndexOf(packs[1..], id, src)
  }

  datatype InsertResult = Kept(packs: seq<Partial>, complete: bool) | Broken(fault: Fault)

  /** The entry for the first fragment to arrive of a datagram. */
  function NewPartial(d: Datagram): Partial {
    var f := d.fragment;
    Partial(d.id, d.src, |f.data|, if HasMore(f) then 0 else |f.data| + Offset(f), [f])
  }

  /** The code that opens a second entry writes the total of a last fragment through a null pointer. */
  function Inserted(packs: seq<Partial>, d: Datagram): InsertResult {
    var f := d.fragment;
    var k := IndexOf(packs, d.id, d.src);
    if k == |packs| then
      if packs != [] && !HasMore(f) then Broken(NullWrite)
      else
        var p := NewPartial(d);
        Kept([p] + packs, p.total == p.count)
    else
      match Added(packs[k].offs, f)
      case Failed(fault) => Broken(fault)
      case Repeated => Kept(packs, false)
      case Appended(offs) =>
        var p := packs[k].(
          offs := offs,
          count := packs[k].count + |f.data|,
          total := if HasMore(f) then packs[k].total else |f.data| + Offset(f));
        Kept(packs[k := p], p.total == p.count)
  }

  function Joined(offs: seq<Fragment>): seq<byte> {
    if offs == [] then [] else offs[0].data + Joined(offs[1..])
  }

  /** Taking a datagram out of the list: its fragments in list order. */
  function Removed(packs: seq<Partial>, id: nat, src: nat): seq<Partial> {
    var k := IndexOf(packs, id, src);
    if k < |packs| then packs[..k] + packs[k + 1..] else packs
  }

  class PackList {
    var packs: seq<Partial>

    constructor ()
      ensures packs == []
    {
      packs := [];
    }

    method GetId(id: nat, src: nat) returns (k: nat)
      ensures k == IndexOf(packs, id, src)
    {
      k := 0;
      while k < |packs| && !(packs[k].id == id && packs[k].src == src)
        invariant 0 <= k <= |packs|
        invariant forall i | 0 <= i < k :: packs[i].id != id || packs[i].src != src
      {
        k := k + 1;
      }
    }

    method AddOffset(offs: seq<Fragment>, f: Fragment) returns (result: AddResult)
      ensures result == Added(offs, f)
    {
      if offs == [] {
        return Appended([f]);
      }
      var k := 0;
      while k < |offs| - 1 && Offset(offs[k]) + |f.data| != Offset(f)
        invariant 0 <= k < |offs|
        invariant forall i | 0 <= i < k :: Offset(offs[i]) + |f.data| != Offset(f)
      {
        k := k + 1;
      }
      assert k == Anchor(offs, Offset(f), |f.data|);
      if k == |offs| - 1 {
        if Offset(offs[k]) != Offset(f) {
          return Appended(offs + [f]);
        }
        return Repeated;
      }
      return Failed(if k == 0 then NullRead else Cycle);
    }

    /** After a fault there is no list to speak of; the model leaves it as it was. */
    method InsertOffset(d: Datagram) returns (result: InsertResult)
      modifies this
      ensures result == Inserted(old(packs), d)
      ensures packs == if result.Kept? then result.packs else old(packs)
    {
      var f := d.fragment;
      var k := GetId(d.id, d.src);
      if k == |packs| {
        if packs != [] && !HasMore(f) {
          return Broken(NullWrite);
        }
        var p := Partial(d.id, d.src, |f.data|, 0, [f]);
        if !HasMore(f) {
          p := p.(total := |f.data| + Offset(f));
        }
        packs := [p] + packs;
        return Kept(packs, p.total == p.count);
      }
      var added := AddOffset(packs[k].offs, f);
      match added {
        case Failed(fault) =>
          return Broken(fault);
        case Repeated =>
          return Kept(packs, false);
        case Appended(offs) =>
          var p := packs[k].(offs := offs, count := packs[k].count + |f.data|);
          if !HasMore(f) {
            p := p.(total := |f.data| + Offset(f));
          }
          packs := packs[k := p];
          return Kept(packs, p.total == p.count);
      }
    }

    method GetPack(id: nat, src: nat) returns (found: bool, data: seq<byte>)
      modifies this
      ensures found <==> IndexOf(old(packs), id, src) < |old(packs)|
      ensures found ==> data == Joined(old(packs)[IndexOf(old(packs), id, src)].offs)
      ensures packs == Removed(old(packs), id, src)
    {
      var k := GetId(id, src);
      data := [];
      if k == |packs| {
        return false, data;
      }
      var offs := packs[k].offs;
      ghost var all := Joined(offs);
      assert data + Joined(offs) == all;
      while offs != []
        invariant data + Joined(offs) == all
        decreases |offs|
      {
        assert data + (offs[0].data + Joined(offs[1..])) == (data + offs[0].data) + Joined(offs[1..]);
        data := data + offs[0].data;
        offs := offs[1..];
      }
      packs := packs[..k] + packs[k + 1..];
      found := true;
    }
  }

  // ---- Other datagrams are left alone ----

  predicate SameFor(packs: seq<Partial>, after: seq<Partial>, id: nat, src: nat) {
    var i, j := IndexOf(packs, id, src), IndexOf(after, id, src);
    (i < |packs| <==> j < |after|) && (i < |packs| ==> packs[i] == after[j])
  }

  lemma {:induction false} IndexIs(packs: seq<Partial>, id: nat, src: nat, k: nat)
    requires k <= |packs| && forall i | 0 <= i < k :: packs[i].id != id || packs[i].src != src
    requires k < |packs| ==> packs[k].id == id && packs[k].src == src
    ensures IndexOf(packs, id, src) == k
  {
  }

  /** Whatever arrives for one datagram, every other partial datagram keeps what it has. */
  lemma OthersUntouched(packs: seq<Partial>, d: Datagram, id: nat, src: nat)
    requires Inserted(packs, d).Kept? && (id != d.id || src != d.src)
    ensures SameFor(packs, Inserted(packs, d).packs, id, src)
  {
    var after := Inserted(packs, d).packs;
    var k := IndexOf(packs, id, src);
    if IndexOf(packs, d.id, d.src) == |packs| {
      IndexIs(after, id, src, k + 1);
    } else {
      IndexIs(after, id, src, k);
    }
  }

  lemma OthersStay(packs: seq<Partial>, done: nat, doneSrc: nat, id: nat, src: nat)
    requires id != done || src != doneSrc
    ensures SameFor(packs, Removed(packs, done, doneSrc), id, src)
  {
    var after := Removed(packs, done, doneSrc);
    var gone, k := IndexOf(packs, done, doneSrc), IndexOf(packs, id, src);
    if gone < k {
      IndexIs(after, id, src, k - 1);
    } else {
      IndexIs(after, id, src, if gone < |packs| && k == |packs| then k - 1 else k);
    }
  }
}
