/** The receiver's two buffers: segments in order, waiting to be read, and segments that
    arrived early. */
module SegmentList {
  import opened Bytes
  import opened SequenceSpace

  datatype Segment = Segment(num: nat, data: seq<byte>)

  /** The bytes of a list of segments, front to back. */
  function Payload(list: seq<Segment>): seq<byte> {
    if list == [] then [] else Payload(list[..|list| - 1]) + list[|list| - 1].data
  }

  lemma {:induction false} PayloadAppend(a: seq<Segment>, segment: Segment)
    ensures Payload(a + [segment]) == Payload(a) + segment.data
  {
    var all := a + [segment];
    assert all[..|all| - 1] == a;
  }

  lemma {:induction false} PayloadConcat(a: seq<Segment>, b: seq<Segment>)
    ensures Payload(a + b) == Payload(a) + Payload(b)
  {
    if b == [] {
      assert a + b == a;
    } else {
      var front, last := b[..|b| - 1], b[|b| - 1];
      PayloadConcat(a, front);
      PayloadAppend(a + front, last);
      assert a + b == a + front + [last];
      assert Payload(a) + (Payload(front) + last.data) == Payload(a) + Payload(front) + last.data;
    }
  }

  /** Where a segment numbered `num` first occurs, or the length of the list. */
  function IndexOf(list: seq<Segment>, num: nat): (k: nat)
    ensures k <= |list|
    ensures forall i | 0 <= i < k :: list[i].num != num
    ensures k < |list| ==> list[k].num == num
  {
    if list == [] || list[0].num == num then 0 else 1 + IndexOf(list[1..], num)
  }

  function Without(list: seq<Segment>, k: nat): seq<Segment>
    requires k < |list|
  {
    list[..k] + list[k + 1..]
  }

  /** The run of early segments that continues the stream at `base`, and what is left. */
  function Drain(early: seq<Segment>, base: nat): (seq<Segment>, seq<Segment>)
    decreases |early|
  {
    var k := IndexOf(early, base);
    if k == |early| then ([], early)
    else
      var (run, rest) := Drain(Without(early, k), Plus(Modular, base, |early[k].data|));
      ([early[k]] + run, rest)
  }

  function Stored(early: seq<Segment>, segment: Segment): seq<Segment> {
    if IndexOf(early, segment.num) < |early| then early else early + [segment]
  }

  /** An early segment is listed afterwards under its number, once, and all that was listed stays. */
  lemma StoredExactly(early: seq<Segment>, segment: Segment)
    ensures early <= Stored(early, segment)
    ensures exists s | s in Stored(early, segment) :: s.num == segment.num
    ensures segment in Stored(early, segment)[|early|..] <==> forall s | s in early :: s.num != segment.num
    ensures |Stored(early, segment)| <= |early| + 1
  {
    var k := IndexOf(early, segment.num);
    if k < |early| {
      assert early[k] in Stored(early, segment);
    } else {
      assert segment in Stored(early, segment);
    }
  }

  datatype Buffers = Buffers(ready: seq<Segment>, early: seq<Segment>)

  /** The buffers after a segment that is not old, and how far the stream advanced. */
  function Inserted(b: Buffers, segment: Segment, base: nat): (Buffers, nat) {
    if segment.num == base then
      var (run, rest) := Drain(b.early, Plus(Modular, base, |segment.data|));
      var added := [segment] + run;
      (Buffers(b.ready + added, rest), |Payload(added)|)
    else
      (b.(early := Stored(b.early, segment)), 0)
  }

  /** Reading `size` bytes: what comes out, and the segments that stay. */
  function Split(list: seq<Segment>, size: nat): (seq<byte>, seq<Segment>)
    decreases |list|
  {
    if size == 0 || list == [] then ([], list)
    else if size >= |list[0].data| then
      var (out, rest) := Split(list[1..], size - |list[0].data|);
      (list[0].data + out, rest)
    else
      (list[0].data[..size], [list[0].(data := list[0].data[size..])] + list[1..])
  }

  lemma {:induction false} PayloadHead(head: Segment, tail: seq<Segment>)
    ensures Payload([head] + tail) == head.data + Payload(tail)
  {
    PayloadConcat([head], tail);
    PayloadAppend([], head);
  }

  /** Reading conserves the stream: what is returned followed by what stays is what was there,
      and no fewer bytes come out than were asked for or available. */
  lemma {:induction false} SplitConserves(list: seq<Segment>, size: nat)
    ensures var (out, rest) := Split(list, size);
            && out + Payload(rest) == Payload(list)
            && |out| == if size <= |Payload(list)| then size else |Payload(list)|
    decreases |list|
  {
    if size == 0 || list == [] {
    } else {
      var head, tail := list[0], list[1..];
      assert list == [head] + tail;
      PayloadHead(head, tail);
      if size >= |head.data| {
        SplitConserves(tail, size - |head.data|);
        var (out, rest) := Split(tail, size - |head.data|);
        assert (head.data + out) + Payload(rest) == head.data + (out + Payload(rest));
      } else {
        PayloadHead(head.(data := head.data[size..]), tail);
        assert head.data[..size] + (head.data[size..] + Payload(tail)) == head.data + Payload(tail);
      }
    }
  }

  /** What stays is the end of the list, of which the first segment may have lost bytes at its front, but
      not all, and keeps its number. */
  predicate EndOf(rest: seq<Segment>, list: seq<Segment>) {
    && |rest| <= |list|
    && var k := |list| - |rest|;
       rest == list[k..]
       || (rest != [] && rest[1..] == list[k + 1..] && rest[0].num == list[k].num
           && 0 < |rest[0].data| < |list[k].data|)
  }

  lemma {:induction false} SplitKeepsEnd(list: seq<Segment>, size: nat)
    ensures EndOf(Split(list, size).1, list)
    decreases |list|
  {
    if size > 0 && list != [] {
      if size >= |list[0].data| {
        var rest := Split(list[1..], size - |list[0].data|).1;
        SplitKeepsEnd(list[1..], size - |list[0].data|);
        var k := |list| - |rest|;
        assert list[1..][k - 1..] == list[k..];
        assert rest != [] ==> list[1..][k..] == list[k + 1..];
      }
    }
  }

  class SegmentBuffers {
    var ready: seq<Segment>
    var early: seq<Segment>

    function Contents(): Buffers
      reads this
    {
      Buffers(ready, early)
    }

    constructor ()
      ensures Contents() == Buffers([], [])
    {
      ready, early := [], [];
    }

    /** Unlinks and returns the early segment numbered `base`, if there is one. */
    method TakeNext(base: nat) returns (found: bool, segment: Segment)
      modifies this`early
      ensures found <==> IndexOf(old(early), base) < |old(early)|
      ensures found ==> var k := IndexOf(old(early), base);
                        segment == old(early)[k] && early == Without(old(early), k)
      ensures !found ==> early == old(early)
    {
      var i := 0;
      while i < |early| && early[i].num != base
        invariant 0 <= i <= |early|
        invariant early == old(early)
        invariant forall j | 0 <= j < i :: early[j].num != base
      {
        i := i + 1;
      }
      if i < |early| {
        found, segment := true, early[i];
        early := early[..i] + early[i + 1..];
      } else {
        found, segment := false, Segment(base, []);
      }
    }

    /** Keeps an early segment unless one with its number is kept already. */
    method StoreEarly(segment: Segment)
      modifies this`early
      ensures early == Stored(old(early), segment)
    {
      var i := 0;
      while i < |early|
        invariant 0 <= i <= |early|
        invariant early == old(early)
        invariant forall j | 0 <= j < i :: early[j].num != segment.num
      {
        if early[i].num == segment.num {
          return;
        }
        i := i + 1;
      }
      early := early + [segment];
    }

    /** Moves the early segments that continue the stream at `base` to the ready list. */
    method DrainFrom(base: nat) returns (advance: nat)
      modifies this
      ensures ready == old(ready) + Drain(old(early), base).0
      ensures early == Drain(old(early), base).1
      ensures advance == |Payload(Drain(old(early), base).0)|
    {
      hide Plus, IndexOf;
      advance := 0;
      var count := base;
      ghost var run := [];
      ghost var was := early;
      assert run + Drain(early, count).0 == Drain(early, count).0;
      while true
        invariant ready == old(ready) + run
        invariant advance == |Payload(run)|
        invariant Drain(was, base).0 == run + Drain(early, count).0
        invariant Drain(was, base).1 == Drain(early, count).1
        decreases |early|
      {
        ghost var before := early;
        var found, next := TakeNext(count);
        if !found {
          assert run + [] == run;
          return;
        }
        ghost var k := IndexOf(before, count);
        ghost var rest := Drain(early, Plus(Modular, count, |next.data|)).0;
        assert Drain(before, count).0 == [next] + rest;
        assert run + ([next] + rest) == (run + [next]) + rest;
        PayloadAppend(run, next);
        count := Plus(Modular, count, |next.data|);
        ready := ready + [next];
        advance := advance + |next.data|;
        run := run + [next];
      }
    }

    method Insert(segment: Segment, base: nat) returns (advance: nat)
      modifies this
      ensures (Contents(), advance) == Inserted(old(Contents()), segment, base)
    {
      if segment.num != base {
        StoreEarly(segment);
        return 0;
      }
      ready := ready + [segment];
      advance := DrainFrom(Plus(Modular, base, |segment.data|));
      ghost var run := Drain(old(early), Plus(Modular, base, |segment.data|)).0;
      PayloadHead(segment, run);
      assert old(ready) + ([segment] + run) == old(ready) + [segment] + run;
      advance := advance + |segment.data|;
    }

    /** Copies up to `size` bytes out of the ready segments, splitting the last one if need be. */
    method Receive(size: nat) returns (out: seq<byte>)
      modifies this`ready
      ensures (out, ready) == Split(old(ready), size)
    {
      out := [];
      var wanted: nat := size;
      assert out + Split(ready, wanted).0 == Split(ready, wanted).0;
      while wanted != 0 && ready != []
        invariant Split(old(ready), size)
                  == (out + Split(ready, wanted).0, Split(ready, wanted).1)
        decreases |ready|, wanted
      {
        var head := ready[0];
        if wanted >= |head.data| {
          assert out + (head.data + Split(ready[1..], wanted - |head.data|).0)
              == (out + head.data) + Split(ready[1..], wanted - |head.data|).0;
          out := out + head.data;
          wanted := wanted - |head.data|;
          ready := ready[1..];
        } else {
          out := out + head.data[..wanted];
          ready := [head.(data := head.data[wanted..])] + ready[1..];
          wanted := 0;
          assert out + [] == out;
        }
      }
      assert out + [] == out;
    }
  }
}
