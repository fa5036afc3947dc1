/** The bounded queue in front of the network's sending thread: any number of producers and one
    consumer, two counting semaphores and a mutex for the producers. */
module SendQueue {
  import opened Bytes

  const CAPACITY: nat := 100

  datatype WaitItem = WaitItem(dest: nat, src: nat, data: seq<byte>, offset: nat, ttl: nat, protocol: nat, id: nat,
                               firstDestLink: nat)

  /** The slot of the item with a number, counting from 0. */
  function Slot(number: nat): (r: nat)
    ensures r < CAPACITY
  {
    number % CAPACITY
  }

  function Next(index: nat): nat {
    (index + 1) % CAPACITY
  }

  /** The items of `count` slots from one on. */
  function Window(slots: seq<WaitItem>, from: nat, count: nat): (r: seq<WaitItem>)
    requires |slots| == CAPACITY
    ensures |r| == count
    ensures forall i | 0 <= i < count :: r[i] == slots[Slot(from + i)]
    decreases count
  {
    if count == 0 then [] else Window(slots, from, count - 1) + [slots[Slot(from + count - 1)]]
  }

  lemma WindowPut(slots: seq<WaitItem>, from: nat, count: nat, item: WaitItem)
    requires |slots| == CAPACITY && count < CAPACITY
    ensures Window(slots[Slot(from + count) := item], from, count + 1) == Window(slots, from, count) + [item]
  {
    var after := Window(slots[Slot(from + count) := item], from, count + 1);
    forall i | 0 <= i < count ensures after[i] == Window(slots, from, count)[i] {
      SlotsApart(from + i, from + count);
    }
  }

  lemma SlotOfSlot(n: nat, m: nat)
    ensures Slot(Slot(n) + m) == Slot(n + m)
  {
    var k := n / CAPACITY;
    assert n + m == Slot(n) + m + CAPACITY * k;
  }

  lemma NextIsSlot(n: nat)
    ensures Next(n) == Slot(n + 1) && Slot(n + CAPACITY) == Slot(n)
  {
  }

  lemma NextSlots(from: nat, count: nat)
    ensures Next(Slot(from + count + (CAPACITY - 1))) == Slot(from + count) == Slot(from + (count + 1) + (CAPACITY - 1))
    ensures count > 0 ==> Slot(Next(from) + (count - 1) + (CAPACITY - 1)) == Slot(from + count + (CAPACITY - 1))
    ensures Next(from) < CAPACITY
  {
    hide Next, Slot;
    var last := from + count + (CAPACITY - 1);
    NextIsSlot(Slot(last));
    SlotOfSlot(last, 1);
    NextIsSlot(from + count);
    NextIsSlot(from);
    if count > 0 {
      SlotOfSlot(from + 1, count + (CAPACITY - 2));
    }
  }

  lemma {:induction false} WindowTake(slots: seq<WaitItem>, from: nat, count: nat)
    requires |slots| == CAPACITY && 0 < count && from < CAPACITY
    ensures Window(slots, from, count) == [slots[from]] + Window(slots, Next(from), count - 1)
    decreases count
  {
    if count == 1 {
      assert Window(slots, from, 0) == [] && Window(slots, Next(from), 0) == [];
    } else {
      WindowTake(slots, from, count - 1);
      SlotOfSlot(from + 1, count - 2);
      assert Window(slots, Next(from), count - 1)
          == Window(slots, Next(from), count - 2) + [slots[Slot(from + count - 1)]];
    }
  }

  // ---- One thread at a time ----

  /** The queue with its semaphores' values. A call that would block is one that its caller cannot
      make yet. */
  class WaitList {
    const slots: array<WaitItem>
    var prodVector: nat
    var consVector: nat
    var prodPermits: nat
    var consPermits: nat

    ghost predicate Valid()
      reads this
    {
      && slots.Length == CAPACITY && prodPermits + consPermits == CAPACITY
      && consVector < CAPACITY && prodVector == Slot(consVector + consPermits + (CAPACITY - 1))
    }

    ghost function Contents(): (s: seq<WaitItem>)
      reads this, slots
      requires Valid()
    {
      Window(slots[..], consVector, consPermits)
    }

    constructor (blank: WaitItem)
      ensures Valid() && fresh(slots) && Contents() == []
    {
      slots := new WaitItem[CAPACITY](_ => blank);
      prodVector, consVector := CAPACITY - 1, 0;
      prodPermits, consPermits := CAPACITY, 0;
    }

    method Insert(head: WaitItem)
      requires Valid() && prodPermits > 0
      modifies this, slots
      ensures Valid() && Contents() == old(Contents()) + [head]
    {
      prodPermits := prodPermits - 1;
      ghost var before := slots[..];
      NextSlots(consVector, consPermits);
      WindowPut(before, consVector, consPermits, head);
      prodVector := Next(prodVector);
      slots[prodVector] := head;
      consPermits := consPermits + 1;
      assert slots[..] == before[prodVector := head];
    }

    method Remove() returns (item: WaitItem)
      requires Valid() && consPermits > 0
      modifies this
      ensures Valid() && [item] + Contents() == old(Contents())
    {
      NextSlots(consVector, consPermits);
      WindowTake(slots[..], consVector, consPermits);
      consPermits := consPermits - 1;
      item := slots[consVector];
      consVector := Next(consVector);
      prodPermits := prodPermits + 1;
    }
  }

  // ---- All threads at once ----

  /** Where a producer is: before the first semaphore; past it; in the mutex; there with the index
      advanced; there with the slot written; out of it, before the second semaphore. */
  datatype Producer =
    | Idle
    | Admitted(item: WaitItem)
    | Inside(item: WaitItem)
    | Advanced(item: WaitItem)
    | Written
    | Unlocked

  /** Where the consumer is: before its semaphore; past it; with the slot read; with the index
      advanced, before the other semaphore. */
  datatype Consumer = Ready | Granted | Taken | Moved

  datatype Mutex = Free | Held(owner: nat)

  /** The queue, its threads, and the items written and taken so far. */
  datatype Queue = Queue(
    slots: seq<WaitItem>, prodVector: nat, consVector: nat, prodPermits: nat, consPermits: nat, mutex: Mutex,
    producers: seq<Producer>, consumer: Consumer, written: seq<WaitItem>, taken: seq<WaitItem>)

  datatype Action =
    | Wait(p: nat, item: WaitItem) | Lock(p: nat) | Advance(p: nat) | Write(p: nat) | Unlock(p: nat) | Post(p: nat)
    | ConsumerWait | Read | Move | ConsumerPost

  predicate Enabled(q: Queue, a: Action) {
    match a
    case Wait(p, item) => p < |q.producers| && q.producers[p].Idle? && q.prodPermits > 0
    case Lock(p) => p < |q.producers| && q.producers[p].Admitted? && q.mutex.Free?
    case Advance(p) => p < |q.producers| && q.producers[p].Inside?
    case Write(p) => p < |q.producers| && q.producers[p].Advanced? && q.prodVector < |q.slots|
    case Unlock(p) => p < |q.producers| && q.producers[p].Written?
    case Post(p) => p < |q.producers| && q.producers[p].Unlocked?
    case ConsumerWait => q.consumer.Ready? && q.consPermits > 0
    case Read => q.consumer.Granted? && q.consVector < |q.slots|
    case Move => q.consumer.Taken?
    case ConsumerPost => q.consumer.Moved?
  }

  function Apply(q: Queue, a: Action): Queue
    requires Enabled(q, a)
  {
    match a
    case Wait(p, item) => q.(prodPermits := q.prodPermits - 1, producers := q.producers[p := Admitted(item)])
    case Lock(p) => q.(mutex := Held(p), producers := q.producers[p := Inside(q.producers[p].item)])
    case Advance(p) =>
      q.(prodVector := Next(q.prodVector), producers := q.producers[p := Advanced(q.producers[p].item)])
    case Write(p) =>
      var item := q.producers[p].item;
      q.(slots := q.slots[q.prodVector := item], producers := q.producers[p := Written], written := q.written + [item])
    case Unlock(p) => q.(mutex := Free, producers := q.producers[p := Unlocked])
    case Post(p) => q.(consPermits := q.consPermits + 1, producers := q.producers[p := Idle])
    case ConsumerWait => q.(consPermits := q.consPermits - 1, consumer := Granted)
    case Read => q.(consumer := Taken, taken := q.taken + [q.slots[q.consVector]])
    case Move => q.(consVector := Next(q.consVector), consumer := Moved)
    case ConsumerPost => q.(prodPermits := q.prodPermits + 1, consumer := Ready)
  }

  predicate Init(q: Queue) {
    && |q.slots| == CAPACITY && q.prodVector == CAPACITY - 1 && q.consVector == 0
    && q.prodPermits == CAPACITY && q.consPermits == 0 && q.mutex.Free?
    && (forall i | 0 <= i < |q.producers| :: q.producers[i].Idle?) && q.consumer.Ready?
    && q.written == [] && q.taken == []
  }

  // ---- Invariant ----

  /** A producer that took a permit and has yet to write, or has yet to give one. */
  predicate IsEarly(p: Producer) {
    p.Admitted? || p.Inside? || p.Advanced?
  }

  predicate IsLate(p: Producer) {
    p.Written? || p.Unlocked?
  }

  function Early(ps: seq<Producer>): nat {
    if ps == [] then 0 else Early(ps[..|ps| - 1]) + (if IsEarly(ps[|ps| - 1]) then 1 else 0)
  }

  function Late(ps: seq<Producer>): nat {
    if ps == [] then 0 else Late(ps[..|ps| - 1]) + (if IsLate(ps[|ps| - 1]) then 1 else 0)
  }

  lemma {:induction false} CountsChange(ps: seq<Producer>, i: nat, p: Producer)
    requires i < |ps|
    ensures Early(ps[i := p]) == Early(ps) - (if IsEarly(ps[i]) then 1 else 0) + (if IsEarly(p) then 1 else 0)
    ensures Late(ps[i := p]) == Late(ps) - (if IsLate(ps[i]) then 1 else 0) + (if IsLate(p) then 1 else 0)
    decreases |ps|
  {
    var n := |ps| - 1;
    if i < n {
      CountsChange(ps[..n], i, p);
      assert ps[i := p][..n] == ps[..n][i := p];
    } else {
      assert ps[i := p][..n] == ps[..n];
    }
  }

  lemma {:induction false} CountsPositive(ps: seq<Producer>, i: nat)
    requires i < |ps|
    ensures IsEarly(ps[i]) ==> Early(ps) > 0
    ensures IsLate(ps[i]) ==> Late(ps) > 0
    decreases |ps|
  {
    if i < |ps| - 1 {
      CountsPositive(ps[..|ps| - 1], i);
    }
  }

  lemma {:induction false} IdleCounts(ps: seq<Producer>)
    requires forall i | 0 <= i < |ps| :: ps[i].Idle?
    ensures Early(ps) == Late(ps) == 0
    decreases |ps|
  {
    if ps != [] {
      IdleCounts(ps[..|ps| - 1]);
    }
  }

  predicate InMutex(p: Producer) {
    p.Inside? || p.Advanced? || p.Written?
  }

  predicate MutexOk(mutex: Mutex, ps: seq<Producer>) {
    && (mutex.Held? ==> mutex.owner < |ps| && InMutex(ps[mutex.owner]))
    && forall i | 0 <= i < |ps| :: InMutex(ps[i]) ==> mutex == Held(i)
  }

  predicate SomeoneAdvanced(mutex: Mutex, ps: seq<Producer>) {
    mutex.Held? && mutex.owner < |ps| && ps[mutex.owner].Advanced?
  }

  /** Items the consumer is done with, but for giving back the permit. */
  function MovedPast(q: Queue): int {
    |q.taken| - (if q.consumer.Taken? then 1 else 0)
  }

  /** Items whose permits came back to the producers. */
  function Freed(q: Queue): int {
    |q.taken| - (if q.consumer.Taken? || q.consumer.Moved? then 1 else 0)
  }

  predicate Counted(q: Queue) {
    && Freed(q) >= 0
    && q.prodPermits + Early(q.producers) + |q.written| - Freed(q) == CAPACITY
    && q.consPermits + Late(q.producers) + |q.taken| + (if q.consumer.Granted? then 1 else 0) == |q.written|
  }

  predicate Indexed(q: Queue) {
    && |q.slots| == CAPACITY
    && q.prodVector == Slot(|q.written| + (CAPACITY - 1) + (if SomeoneAdvanced(q.mutex, q.producers) then 1 else 0))
    && MovedPast(q) >= 0 && q.consVector == Slot(MovedPast(q))
  }

  predicate Stored(slots: seq<WaitItem>, written: seq<WaitItem>, from: nat)
    requires |slots| == CAPACITY
  {
    forall k | from <= k < |written| :: slots[Slot(k)] == written[k]
  }

  predicate Inv(q: Queue) {
    && MutexOk(q.mutex, q.producers)
    && Counted(q) && Indexed(q)
    && Stored(q.slots, q.written, |q.taken|)
    && |q.taken| <= |q.written| && q.taken == q.written[..|q.taken|]
  }

  lemma InitInv(q: Queue)
    requires Init(q)
    ensures Inv(q)
  {
    IdleCounts(q.producers);
  }

  // ---- Steps ----

  lemma CountedKeeps(q: Queue, a: Action)
    requires Inv(q) && Enabled(q, a)
    ensures Counted(Apply(q, a))
  {
    hide Early, Late;
    match a {
      case Wait(p, item) => CountsChange(q.producers, p, Admitted(item));
      case Lock(p) => CountsChange(q.producers, p, Inside(q.producers[p].item));
      case Advance(p) => CountsChange(q.producers, p, Advanced(q.producers[p].item));
      case Write(p) => CountsChange(q.producers, p, Written);
      case Unlock(p) => CountsChange(q.producers, p, Unlocked);
      case Post(p) => CountsChange(q.producers, p, Idle);
      case _ =>
    }
  }

  lemma MutexKeeps(q: Queue, a: Action)
    requires MutexOk(q.mutex, q.producers) && Enabled(q, a)
    ensures MutexOk(Apply(q, a).mutex, Apply(q, a).producers)
  {
  }

  lemma IndexedKeeps(q: Queue, a: Action)
    requires MutexOk(q.mutex, q.producers) && Indexed(q) && Enabled(q, a)
    ensures Indexed(Apply(q, a))
  {
  }

  lemma SlotsApart(k: nat, n: nat)
    requires k < n < k + CAPACITY
    ensures Slot(k) != Slot(n)
  {
  }

  /** A producer about to write writes the slot of the next item, which holds no item that is yet
      to be taken. */
  lemma NoOverwrite(q: Queue, p: nat)
    requires Inv(q) && p < |q.producers| && q.producers[p].Advanced?
    ensures q.prodVector == Slot(|q.written|)
    ensures forall k | |q.taken| <= k < |q.written| :: Slot(k) != q.prodVector
    ensures q.consumer.Granted? ==> q.prodVector != q.consVector
  {
    CountsPositive(q.producers, p);
    assert InMutex(q.producers[p]);
    var n := |q.written|;
    assert Slot(n + CAPACITY) == Slot(n);
    forall k | |q.taken| <= k < n ensures Slot(k) != q.prodVector {
      SlotsApart(k, n);
    }
  }

  /** The consumer about to read reads the next item, which is written. */
  lemma ReadIsWritten(q: Queue)
    requires Inv(q) && q.consumer.Granted?
    ensures |q.taken| < |q.written| && q.consVector < |q.slots|
    ensures q.slots[q.consVector] == q.written[|q.taken|]
  {
  }

  lemma StoredKeeps(q: Queue, a: Action)
    requires Inv(q) && Enabled(q, a)
    ensures |Apply(q, a).slots| == CAPACITY
    ensures Stored(Apply(q, a).slots, Apply(q, a).written, |Apply(q, a).taken|)
  {
    if a.Write? {
      NoOverwrite(q, a.p);
    }
  }

  lemma OrderKeeps(q: Queue, a: Action)
    requires Inv(q) && Enabled(q, a)
    ensures var r := Apply(q, a); |r.taken| <= |r.written| && r.taken == r.written[..|r.taken|]
  {
    if a.Read? {
      ReadIsWritten(q);
    }
  }

  lemma StepKeeps(q: Queue, a: Action)
    requires Inv(q) && Enabled(q, a)
    ensures Inv(Apply(q, a))
  {
    CountedKeeps(q, a);
    MutexKeeps(q, a);
    IndexedKeeps(q, a);
    StoredKeeps(q, a);
    OrderKeeps(q, a);
  }

  predicate IsStep(q: Queue, a: Action, r: Queue) {
    Enabled(q, a) && r == Apply(q, a)
  }

  predicate Run(states: seq<Queue>, actions: seq<Action>) {
    && |states| == |actions| + 1 && Init(states[0])
    && forall i | 0 <= i < |actions| :: IsStep(states[i], actions[i], states[i + 1])
  }

  lemma {:induction false} RunKeeps(states: seq<Queue>, actions: seq<Action>, n: nat)
    requires Run(states, actions) && n < |states|
    ensures Inv(states[n])
    decreases n
  {
    if n == 0 {
      InitInv(states[0]);
    } else {
      RunKeeps(states, actions, n - 1);
      assert IsStep(states[n - 1], actions[n - 1], states[n]);
      StepKeeps(states[n - 1], actions[n - 1]);
    }
  }

  function InProgress(q: Queue): nat {
    Early(q.producers) + Late(q.producers) + (if q.consumer.Ready? then 0 else 1)
  }

  /** In every state of every run: items are taken in the order in which they were written, and
      the permits of both semaphores and the threads between them add up to the capacity. */
  lemma OrderAndCapacity(states: seq<Queue>, actions: seq<Action>, n: nat)
    requires Run(states, actions) && n < |states|
    ensures var q := states[n];
            && q.taken <= q.written
            && q.prodPermits + q.consPermits + InProgress(q) == CAPACITY
            && |q.written| - |q.taken| <= CAPACITY
  {
    RunKeeps(states, actions, n);
  }

  /** In every state of every run the slots written to and read from are the right ones. */
  lemma SlotsAreSafe(states: seq<Queue>, actions: seq<Action>, n: nat)
    requires Run(states, actions) && n < |actions|
    ensures var q := states[n];
            && (actions[n].Write? ==> forall k | |q.taken| <= k < |q.written| :: Slot(k) != q.prodVector)
            && (actions[n].Read? ==> |q.taken| < |q.written| && states[n + 1].taken == q.taken + [q.written[|q.taken|]])
  {
    RunKeeps(states, actions, n);
    assert IsStep(states[n], actions[n], states[n + 1]);
    if actions[n].Write? {
      NoOverwrite(states[n], actions[n].p);
    } else if actions[n].Read? {
      ReadIsWritten(states[n]);
    }
  }

  // ---- The queue never wedges ----

  lemma {:induction false} SomeCounted(ps: seq<Producer>)
    requires Early(ps) + Late(ps) > 0
    ensures exists i | 0 <= i < |ps| :: !ps[i].Idle?
    decreases |ps|
  {
    var n := |ps| - 1;
    if !ps[n].Idle? {
    } else {
      SomeCounted(ps[..n]);
      var i :| 0 <= i < n && !ps[..n][i].Idle?;
      assert !ps[i].Idle?;
    }
  }

  /** The step of a thread that is not waiting for new work. */
  predicate IsProgress(q: Queue, a: Action) {
    Enabled(q, a) && !a.Wait?
  }

  /** Whenever a producer finds the queue full, or an item is yet to be taken, some other thread
      can go on. */
  lemma NeverStuck(q: Queue) returns (a: Action)
    requires Inv(q) && (q.prodPermits == 0 || |q.taken| < |q.written|)
    ensures IsProgress(q, a)
  {
    if !q.consumer.Ready? || q.consPermits > 0 {
      a := match q.consumer
        case Ready => ConsumerWait
        case Granted => Read
        case Taken => Move
        case Moved => ConsumerPost;
    } else {
      SomeCounted(q.producers);
      var i :| 0 <= i < |q.producers| && !q.producers[i].Idle?;
      if q.producers[i].Unlocked? {
        a := Post(i);
      } else if q.producers[i].Admitted? && q.mutex.Free? {
        a := Lock(i);
      } else {
        var owner := q.mutex.owner;
        assert InMutex(q.producers[owner]);
        a := match q.producers[owner]
          case Inside(_) => Advance(owner)
          case Advanced(_) => Write(owner)
          case _ => Unlock(owner);
      }
    }
  }
}
