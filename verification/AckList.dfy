/** The sender's list of expected acknowledgments, oldest first. */
module AckList {

  datatype AckEntry = AckEntry(num: nat, flag: bool, size: nat)

  /** Where `num` first occurs, or the length of the list. */
  function IndexOf(list: seq<AckEntry>, num: nat): (k: nat)
    ensures k <= |list|
    ensures forall i | 0 <= i < k :: list[i].num != num
    ensures k < |list| ==> list[k].num == num
  {
    if list == [] || list[0].num == num then 0 else 1 + IndexOf(list[1..], num)
  }

  /** `list` with the first entry for `num` acknowledged. */
  function Marked(list: seq<AckEntry>, num: nat): (r: seq<AckEntry>)
    ensures |r| == |list|
  {
    var k := IndexOf(list, num);
    if k < |list| then list[k := list[k].(flag := true)] else list
  }

  /** What a retransmitter is told: an entry that is no longer listed counts as acknowledged. */
  function FlagOf(list: seq<AckEntry>, num: nat): bool {
    var k := IndexOf(list, num);
    k < |list| ==> list[k].flag
  }

  /** How many entries at the front are acknowledged. */
  function Leading(list: seq<AckEntry>): (k: nat)
    ensures k <= |list|
    ensures forall i | 0 <= i < k :: list[i].flag
    ensures k < |list| ==> !list[k].flag
  {
    if list == [] || !list[0].flag then 0 else 1 + Leading(list[1..])
  }

  lemma {:induction false} LeadingIs(list: seq<AckEntry>, k: nat)
    requires k <= |list| && (forall i | 0 <= i < k :: list[i].flag) && (k < |list| ==> !list[k].flag)
    ensures Leading(list) == k
  {
    if k > 0 {
      LeadingIs(list[1..], k - 1);
    }
  }

  function TotalSize(list: seq<AckEntry>): nat {
    if list == [] then 0 else TotalSize(list[..|list| - 1]) + list[|list| - 1].size
  }

  lemma {:induction false} TotalSizeAppend(list: seq<AckEntry>, entry: AckEntry)
    ensures TotalSize(list + [entry]) == TotalSize(list) + entry.size
  {
    assert (list + [entry])[..|list|] == list;
  }

  lemma {:induction false} TotalSizeSplit(list: seq<AckEntry>, k: nat)
    requires k <= |list|
    ensures TotalSize(list) == TotalSize(list[..k]) + TotalSize(list[k..])
  {
    if k == |list| {
      assert list[..k] == list;
    } else {
      var front := list[..|list| - 1];
      TotalSizeSplit(front, k);
      assert front[..k] == list[..k] && front[k..] == list[k..][..|list| - k - 1];
    }
  }

  /** Marking changes no size, so it leaves the total alone. */
  lemma {:induction false} TotalSizeMarked(list: seq<AckEntry>, marked: seq<AckEntry>)
    requires |marked| == |list| && forall i | 0 <= i < |list| :: marked[i].size == list[i].size
    ensures TotalSize(marked) == TotalSize(list)
  {
    if list != [] {
      TotalSizeMarked(list[..|list| - 1], marked[..|list| - 1]);
    }
  }

  class ExpectedAcks {
    var entries: seq<AckEntry>

    constructor ()
      ensures entries == []
    {
      entries := [];
    }

    method Insert(entry: AckEntry)
      modifies this
      ensures entries == old(entries) + [entry]
    {
      entries := entries + [entry];
    }

    method Set(num: nat)
      modifies this
      ensures entries == Marked(old(entries), num)
    {
      var i := 0;
      while i < |entries|
        invariant 0 <= i <= |entries|
        invariant entries == old(entries)
        invariant forall j | 0 <= j < i :: entries[j].num != num
      {
        if entries[i].num == num {
          entries := entries[i := entries[i].(flag := true)];
          return;
        }
        i := i + 1;
      }
    }

    method IsSet(num: nat) returns (acknowledged: bool)
      ensures acknowledged == FlagOf(entries, num)
    {
      var i := 0;
      while i < |entries|
        invariant 0 <= i <= |entries|
        invariant forall j | 0 <= j < i :: entries[j].num != num
      {
        if entries[i].num == num {
          return entries[i].flag;
        }
        i := i + 1;
      }
      return true;
    }

    /** Removes the acknowledged entries at the front and returns the bytes they stood for. */
    method InSeq() returns (moved: nat)
      modifies this
      ensures entries == old(entries)[Leading(old(entries))..]
      ensures moved == TotalSize(old(entries)[..Leading(old(entries))])
    {
      moved := 0;
      ghost var k := 0;
      ghost var was := entries;
      while entries != [] && entries[0].flag
        invariant 0 <= k <= |was| && entries == was[k..]
        invariant moved == TotalSize(was[..k])
        invariant forall i | 0 <= i < k :: was[i].flag
        decreases |entries|
      {
        assert was[..k + 1][..k] == was[..k];
        moved := moved + entries[0].size;
        entries := entries[1..];
        k := k + 1;
      }
      assert k == Leading(was);
    }
  }
}
