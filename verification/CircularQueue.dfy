/** The fixed-size ring that hands out pool slots. */
module CircularQueues {

  /** What the ring holds, read from `front` around to `rear`. */
  function Ring<T>(data: seq<T>, front: nat, rear: nat): (r: seq<T>)
    requires front < |data| && rear < |data|
  {
    if front <= rear then data[front..rear] else data[front..] + data[..rear]
  }

  /** The index after `i`, back at 0 behind the last one. */
  function Next(i: nat, slots: nat): nat
    requires i < slots
  {
    if i + 1 == slots then 0 else i + 1
  }

  /** Wrapping around is arithmetic modulo the block size: for one step, and for the length. */
  lemma WrapIsModulo<T>(data: seq<T>, front: nat, rear: nat)
    requires front < |data| && rear < |data|
    ensures Next(rear, |data|) == (rear + 1) % |data|
    ensures |Ring(data, front, rear)| == (rear - front) % |data|
  {
    NextIsModulo(rear, |data|);
    DistanceIsModulo(rear - front, |data|);
  }

  lemma NextIsModulo(i: nat, n: nat)
    requires i < n
    ensures Next(i, n) == (i + 1) % n
  {
  }

  lemma DistanceIsModulo(x: int, n: nat)
    requires 0 < x + n && x < n
    ensures x % n == if x < 0 then x + n else x
  {
    if x < 0 {
      assert x == n * -1 + (x + n);
    }
  }

  /** A ring with one free slot left takes `x` at the rear as its last element. */
  lemma RingPush<T>(data: seq<T>, front: nat, rear: nat, x: T)
    requires front < |data| && rear < |data| && front != Next(rear, |data|)
    ensures Ring(data[rear := x], front, Next(rear, |data|)) == Ring(data, front, rear) + [x]
  {
  }

  lemma RingPop<T>(data: seq<T>, front: nat, rear: nat)
    requires front < |data| && rear < |data| && front != rear
    ensures Ring(data, front, rear) == [data[front]] + Ring(data, Next(front, |data|), rear)
  {
  }

  lemma RingFull<T>(data: seq<T>, front: nat, rear: nat)
    requires front < |data| && rear < |data|
    ensures |Ring(data, front, rear)| <= |data| - 1
    ensures |Ring(data, front, rear)| == |data| - 1 <==> front == Next(rear, |data|)
    ensures Ring(data, front, rear) == [] <==> front == rear
  {
  }

  // -------------------------------------------------------------------------
  // Whole runs: the ring is a bounded first-in first-out queue
  // -------------------------------------------------------------------------

  datatype Op<T> = Push(x: T) | Pop

  /** The fields of a ring: one slot of the block always stays free. */
  datatype Fields<T> = Fields(data: seq<T>, num: int, front: nat, rear: nat) {
    predicate Valid() {
      front < |data| && rear < |data| && num == |Ring(data, front, rear)|
    }
  }

  /** One operation on the fields, and whether it was carried out. */
  function Step<T>(f: Fields<T>, op: Op<T>): (Fields<T>, bool)
    requires f.Valid()
  {
    match op
    case Push(x) =>
      if f.front == (f.rear + 1) % |f.data| then (f, false)
      else (Fields(f.data[f.rear := x], f.num + 1, f.front, (f.rear + 1) % |f.data|), true)
    case Pop =>
      if f.front == f.rear then (f, false)
      else (Fields(f.data, f.num - 1, (f.front + 1) % |f.data|, f.rear), true)
  }

  /** The same operation on a queue that holds at most `capacity` elements. */
  function QueueStep<T>(q: seq<T>, capacity: nat, op: Op<T>): (seq<T>, bool) {
    match op
    case Push(x) => if |q| < capacity then (q + [x], true) else (q, false)
    case Pop => if q == [] then (q, false) else (q[1..], true)
  }

  lemma StepRefines<T>(f: Fields<T>, op: Op<T>)
    requires f.Valid()
    ensures var (g, ok) := Step(f, op);
      && g.Valid() && |g.data| == |f.data|
      && (Ring(g.data, g.front, g.rear), ok) == QueueStep(Ring(f.data, f.front, f.rear), |f.data| - 1, op)
  {
    var n := |f.data|;
    assert (f.rear + 1) % n == Next(f.rear, n) && (f.front + 1) % n == Next(f.front, n) by {
      WrapIsModulo(f.data, f.front, f.rear);
      WrapIsModulo(f.data, f.front, f.front);
    }
    RingFull(f.data, f.front, f.rear);
    match op
    case Push(x) =>
      if f.front != Next(f.rear, n) {
        RingPush(f.data, f.front, f.rear, x);
      }
    case Pop =>
      if f.front != f.rear {
        RingPop(f.data, f.front, f.rear);
      }
  }

  /** The outcome of every operation of a run, and the fields at its end. */
  function Run<T>(f: Fields<T>, ops: seq<Op<T>>): (seq<bool>, Fields<T>)
    requires f.Valid()
    decreases |ops|
  {
    if ops == [] then ([], f) else
      var (g, ok) := Step(f, ops[0]);
      StepRefines(f, ops[0]);
      var (oks, h) := Run(g, ops[1..]);
      ([ok] + oks, h)
  }

  function QueueRun<T>(q: seq<T>, capacity: nat, ops: seq<Op<T>>): (seq<bool>, seq<T>)
    decreases |ops|
  {
    if ops == [] then ([], q) else
      var (r, ok) := QueueStep(q, capacity, ops[0]);
      var (oks, s) := QueueRun(r, capacity, ops[1..]);
      ([ok] + oks, s)
  }

  /**
   * Over every run the ring behaves as a bounded first-in first-out queue: the same operations
   * succeed, the contents agree, and the element count is the distance of the indices modulo
   * the block size.
   */
  lemma {:induction false} RingRefinesQueue<T>(f: Fields<T>, ops: seq<Op<T>>)
    requires f.Valid()
    ensures var (oks, g) := Run(f, ops);
      && g.Valid() && |g.data| == |f.data|
      && (oks, Ring(g.data, g.front, g.rear)) == QueueRun(Ring(f.data, f.front, f.rear), |f.data| - 1, ops)
      && g.num == (g.rear - g.front) % |g.data|
    decreases |ops|
  {
    hide Step, QueueStep, Ring;
    if ops == [] {
      WrapIsModulo(f.data, f.front, f.rear);
    } else {
      StepRefines(f, ops[0]);
      RingRefinesQueue(Step(f, ops[0]).0, ops[1..]);
    }
  }

  // -------------------------------------------------------------------------
  // The queue itself
  // -------------------------------------------------------------------------

  /** Lays the elements of a ring out from index 0 of another block. */
  method CopyElements<T>(dst: array<T>, src: array<T>, front: nat, rear: nat) returns (n: nat)
    requires front < src.Length && rear < src.Length && src.Length <= dst.Length && src != dst
    modifies dst
    ensures n < dst.Length && dst[..n] == Ring(src[..], front, rear)
  {
    ghost var from := src[..];
    ghost var whole := Ring(from, front, rear);
    RingFull(from, front, rear);
    var ofront: nat := front;
    n := 0;
    while ofront != rear
      invariant src[..] == from && ofront < |from| && n <= |whole|
      invariant whole[n..] == Ring(from, ofront, rear)
      invariant dst[..n] == whole[..n]
      decreases |whole| - n
    {
      RingPop(from, ofront, rear);
      assert whole[n] == src[ofront];
      dst[n] := src[ofront];
      ofront := Next(ofront, src.Length);
      n := n + 1;
      assert whole[n..] == whole[n - 1..][1..];
    }
  }

  /**
   * One slot of the block always stays free, so `slots` is one more than the capacity. A ring
   * that was moved from owns no block.
   */
  class CircularQueue<T(0)> {
    var slots: nat
    var num: nat
    var front: nat
    var rear: nat
    var data: array?<T>
    ghost var contents: seq<T>

    ghost predicate Valid()
      reads this, data
    {
      && front < slots && rear < slots
      && (data == null ==> slots == 1)
      && (data != null ==> data.Length == slots)
      && num == |contents|
      && contents == if data == null then [] else Ring(data[..], front, rear)
    }

    constructor (capacity: nat)
      ensures Valid() && fresh(data) && contents == [] && Capacity() == capacity
    {
      slots := capacity + 1;
      num, front, rear := 0, 0, 0;
      data := new T[capacity + 1];
      contents := [];
    }

    function Capacity(): nat
      requires slots > 0
      reads this
    {
      slots - 1
    }

    predicate Empty()
      reads this
    {
      front == rear
    }

    predicate Full()
      requires rear < slots
      reads this
    {
      front == Next(rear, slots)
    }

    /** The two index tests mean what they say. */
    lemma FullAndEmpty()
      requires Valid()
      ensures Empty() <==> contents == []
      ensures Full() <==> |contents| == Capacity()
      ensures |contents| <= Capacity()
    {
      if data != null {
        RingFull(data[..], front, rear);
      }
    }

    /** Appends `value`; a full ring refuses it (`std::out_of_range`) and stays as it is. */
    method Push(value: T) returns (ok: bool)
      requires Valid()
      modifies this`rear, this`num, this`contents, data
      ensures Valid() && ok == (old(|contents|) < Capacity())
      ensures contents == if ok then old(contents) + [value] else old(contents)
      ensures !ok ==> unchanged(this)
    {
      FullAndEmpty();
      if Full() {
        return false;
      }
      RingPush(data[..], front, rear, value);
      ghost var before := data[..];
      data[rear] := value;
      assert data[..] == before[rear := value];
      rear := Next(rear, slots);
      num := num + 1;
      contents := contents + [value];
      return true;
    }

    /** Drops the first element; an empty ring refuses (`std::out_of_range`). */
    method Pop() returns (ok: bool)
      requires Valid()
      modifies this`front, this`num, this`contents
      ensures Valid() && ok == (old(contents) != [])
      ensures contents == if ok then old(contents)[1..] else []
    {
      FullAndEmpty();
      if Empty() {
        return false;
      }
      RingPop(data[..], front, rear);
      front := Next(front, slots);
      num := num - 1;
      contents := contents[1..];
      return true;
    }

    method Front() returns (ok: bool, value: T)
      requires Valid()
      ensures ok == (contents != [])
      ensures ok ==> value == contents[0]
    {
      FullAndEmpty();
      if Empty() {
        value := *;
        return false, value;
      }
      RingPop(data[..], front, rear);
      return true, data[front];
    }

    /** Lays the elements of `other` out from the start of this block, which must be large enough. */
    method IterateAssignFrom(other: CircularQueue<T>)
      requires Valid() && other.Valid() && other != this
      requires data == null || data != other.data
      requires other.slots <= slots
      modifies this`front, this`rear, this`num, this`contents, data
      ensures Valid() && contents == other.contents && front == 0
    {
      other.FullAndEmpty();
      front, rear := 0, 0;
      if other.data != null && data != null {
        rear := CopyElements(data, other.data, other.front, other.rear);
      }
      num := other.num;
      contents := other.contents;
      assert data != null ==> Ring(data[..], 0, rear) == data[..rear];
    }

    method DeepCopy(other: CircularQueue<T>)
      requires other.Valid() && other != this
      modifies this
      ensures Valid() && fresh(data) && contents == other.contents && Capacity() == other.Capacity()
    {
      slots := other.slots;
      data := new T[slots];
      front, rear, num, contents := 0, 0, 0, [];
      IterateAssignFrom(other);
    }

    /** Copy constructor. */
    constructor Copy(other: CircularQueue<T>)
      requires other.Valid()
      ensures Valid() && fresh(data) && contents == other.contents && Capacity() == other.Capacity()
    {
      slots, num, front, rear, data, contents := 1, 0, 0, 0, null, [];
      new;
      DeepCopy(other);
    }

    /** Copy assignment: keeps this block when it is large enough, else takes one like `other`'s. */
    method Assign(other: CircularQueue<T>)
      requires Valid() && other.Valid()
      requires other != this ==> data == null || data != other.data
      modifies this, data
      ensures Valid() && contents == old(other.contents)
      ensures data == old(data) || fresh(data)
      ensures Capacity() == if old(Capacity()) >= old(other.Capacity()) then old(Capacity()) else old(other.Capacity())
    {
      if this == other {
        return;
      }
      if slots >= other.slots {
        IterateAssignFrom(other);
      } else {
        Destroy();
        DeepCopy(other);
      }
    }

    /** Pops every element, then gives the block up. */
    method Destroy()
      requires Valid()
      modifies this
      ensures data == null && contents == [] && num == 0 && Empty()
    {
      FullAndEmpty();
      if data != null {
        while !Empty()
          invariant Valid() && data == old(data) && (Empty() <==> contents == [])
          decreases num
        {
          var ok := Pop();
          FullAndEmpty();
        }
        data := null;
      }
    }

    /** Move constructor: takes the block of `other`, which is left both empty and full. */
    constructor Move(other: CircularQueue<T>)
      requires other.Valid()
      modifies other
      ensures Valid() && contents == old(other.contents) && Capacity() == old(other.Capacity())
      ensures data == old(other.data)
      ensures other.Valid() && other.contents == [] && other.Capacity() == 0
      ensures other.Empty() && other.Full()
    {
      data, slots, num, front, rear := other.data, other.slots, other.num, other.front, other.rear;
      contents := other.contents;
      new;
      other.data := null;
      other.slots, other.num, other.front, other.rear, other.contents := 1, 0, 0, 0, [];
    }
  }
}
