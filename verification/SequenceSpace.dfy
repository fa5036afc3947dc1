/** Sequence numbers of the transport layer: arithmetic modulo MAX_SEQ_NUM, the 32-bit
    sums the code really computes, and the comparison tree that sorts an arriving number
    into discard, old or new. */
module SequenceSpace {
  import opened Bytes

  // 2^32 - 1, the modulus; a sequence number is always below it.
  const MAX_SEQ_NUM: nat := 4294967295

  /** The sequence number that stands for an absolute stream position. */
  function SeqOf(position: nat): (num: nat)
    ensures num < MAX_SEQ_NUM
  {
    position % MAX_SEQ_NUM
  }

  /** Which arithmetic a step uses: `Wrapping` is the code's, whose 32-bit operands wrap at
      2^32 before the remainder is taken; `Modular` is arithmetic modulo MAX_SEQ_NUM. */
  datatype Arithmetic = Wrapping | Modular

  function Plus(mode: Arithmetic, num: nat, amount: nat): nat {
    match mode
    case Wrapping => ((num + amount) % WORD_32) % MAX_SEQ_NUM
    case Modular => (num + amount) % MAX_SEQ_NUM
  }

  lemma SumIs(a: nat, b: nat)
    requires a + b < MAX_SEQ_NUM
    ensures Plus(Wrapping, a, b) == Plus(Modular, a, b) == a + b
  {
  }

  /** The key a retransmitter looks up: the code adds without reducing modulo MAX_SEQ_NUM. */
  function LookupKey(mode: Arithmetic, num: nat, size: nat): nat {
    match mode
    case Wrapping => (num + size) % WORD_32
    case Modular => (num + size) % MAX_SEQ_NUM
  }

  /** The 32-bit sum is the modular sum exactly when it does not reach 2^32. */
  lemma PlusAgrees(num: nat, amount: nat)
    requires num < MAX_SEQ_NUM && amount < MAX_SEQ_NUM
    ensures Plus(Wrapping, num, amount) == Plus(Modular, num, amount) <==> num + amount < WORD_32
  {
    if num + amount >= WORD_32 {
      assert (num + amount) % WORD_32 == num + amount - WORD_32;
      assert (num + amount) % MAX_SEQ_NUM == num + amount - MAX_SEQ_NUM;
    }
  }

  /** A retransmitter finds the entry its own segment was listed under exactly when the end
      of the segment is not the number 2^32 - 1, which is listed as 0. */
  lemma LookupKeyAgrees(num: nat, size: nat)
    requires num < MAX_SEQ_NUM && size < MAX_SEQ_NUM
    ensures LookupKey(Wrapping, num, size) == Plus(Wrapping, num, size) <==> num + size != MAX_SEQ_NUM
  {
    if num + size >= WORD_32 {
      assert (num + size) % WORD_32 == num + size - WORD_32;
    }
  }

  lemma SeqOfPlus(position: nat, amount: nat)
    ensures Plus(Modular, SeqOf(position), amount) == SeqOf(position + amount)
  {
    var q, r := position / MAX_SEQ_NUM, position % MAX_SEQ_NUM;
    ModShift(r + amount, q);
  }

  lemma {:induction false} ModShift(x: nat, q: nat)
    ensures (x + q * MAX_SEQ_NUM) % MAX_SEQ_NUM == x % MAX_SEQ_NUM
    decreases q
  {
    if q > 0 {
      ModShift(x, q - 1);
      var y := x + (q - 1) * MAX_SEQ_NUM;
      assert x + q * MAX_SEQ_NUM == y + MAX_SEQ_NUM;
      assert (y + MAX_SEQ_NUM) % MAX_SEQ_NUM == y % MAX_SEQ_NUM;
    }
  }

  /** Two positions less than MAX_SEQ_NUM apart never share a number unless they are equal. */
  lemma SeqOfInjective(a: nat, b: nat)
    requires SeqOf(a) == SeqOf(b)
    requires a < b + MAX_SEQ_NUM && b < a + MAX_SEQ_NUM
    ensures a == b
  {
    var qa, qb := a / MAX_SEQ_NUM, b / MAX_SEQ_NUM;
    assert a == qa * MAX_SEQ_NUM + SeqOf(a) && b == qb * MAX_SEQ_NUM + SeqOf(b);
    assert a - b == (qa - qb) * MAX_SEQ_NUM;
  }

  datatype Verdict = Discard | Old | New

  /** The receiver's comparison tree on the three stored numbers. */
  function ClassifyByTree(prev: nat, next: nat, end: nat, num: nat): Verdict {
    if prev < end then
      if prev <= num <= end then
        if num < next then Old else New
      else
        Discard
    else if num < prev && num > end then
      Discard
    else if prev < next then
      if num < next then Old else New
    else if num >= next then
      New
    else
      Old
  }

  /** How far `num` lies after `next` going round the circle of numbers. A stored number may be any
      of 32 bits; the largest one stands for 0. */
  function Ahead(next: nat, num: nat): nat
    requires next <= MAX_SEQ_NUM && num < MAX_SEQ_NUM
  {
    if num >= next then num - next else num + MAX_SEQ_NUM - next
  }

  /** What the tree is for: new within `after` numbers ahead, old within `before` behind. */
  function ClassifyByCircle(prev: nat, next: nat, end: nat, num: nat): Verdict
    requires prev <= MAX_SEQ_NUM && next < MAX_SEQ_NUM && end < MAX_SEQ_NUM && num < MAX_SEQ_NUM
  {
    if Ahead(next, num) <= Ahead(next, end) then New
    else if Ahead(num, next) <= Ahead(prev, next) then Old
    else Discard
  }

  /** A window that starts behind `next`, ends at or after it, and does not meet itself. */
  predicate IsWindow(prev: nat, next: nat, end: nat) {
    && prev <= MAX_SEQ_NUM && next < MAX_SEQ_NUM && end < MAX_SEQ_NUM
    && 0 < Ahead(prev, next)
    && Ahead(prev, next) + Ahead(next, end) < MAX_SEQ_NUM
  }

  /** The stretch of numbers the tree puts on the wrong side when the window passes zero. */
  predicate Misrouted(prev: nat, next: nat, end: nat, num: nat) {
    prev > end && ((prev < next && num <= end) || (prev > next && num >= prev))
  }

  /** The tree accepts exactly the numbers of the circular window, wrapped or not. */
  lemma TreeAcceptsWindow(prev: nat, next: nat, end: nat, num: nat)
    requires IsWindow(prev, next, end) && num < MAX_SEQ_NUM
    ensures ClassifyByTree(prev, next, end, num) == Discard
            <==> ClassifyByCircle(prev, next, end, num) == Discard
  {
    assert prev < end || prev > end;
  }

  /** The tree splits a window correctly except on exactly the misrouted stretch. */
  lemma TreeSplitsExactly(prev: nat, next: nat, end: nat, num: nat)
    requires IsWindow(prev, next, end) && num < MAX_SEQ_NUM
    ensures ClassifyByTree(prev, next, end, num) == ClassifyByCircle(prev, next, end, num)
            <==> !Misrouted(prev, next, end, num)
  {
    assert prev < end || prev > end;
  }

  /** So the tree is right about every number exactly when the window does not pass zero, or its
      back edge is stored as 2^32 - 1. */
  lemma TreeRightIffUnwrapped(prev: nat, next: nat, end: nat)
    requires IsWindow(prev, next, end)
    ensures (forall num: nat | num < MAX_SEQ_NUM ::
               ClassifyByTree(prev, next, end, num) == ClassifyByCircle(prev, next, end, num))
            <==> prev < end || prev == MAX_SEQ_NUM
  {
    forall num: nat | num < MAX_SEQ_NUM
      ensures ClassifyByTree(prev, next, end, num) == ClassifyByCircle(prev, next, end, num)
              <==> !Misrouted(prev, next, end, num)
    {
      TreeSplitsExactly(prev, next, end, num);
    }
    if prev >= end && prev < MAX_SEQ_NUM {
      var num := if prev < next then end else prev;
      TreeSplitsExactly(prev, next, end, num);
      assert Misrouted(prev, next, end, num);
    }
  }
}
