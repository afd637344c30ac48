/** The object pool: blocks of slots, a ring of free ones, and a deleter that gives slots back. */
module InstancePools {
  import opened CircularQueues
  import opened Numbers
  import opened Strings

  /** The address of a slot: which block it lies in, and where. */
  datatype Slot = Slot(block: nat, index: nat)

  /** The slots of block number `block`, in address order. */
  function BlockSlots(block: nat, size: nat): (r: seq<Slot>)
    ensures |r| == size
  {
    seq(size, i requires 0 <= i < size => Slot(block, i))
  }

  /** What the pool consists of; `live` are the slots its clients hold. */
  datatype State = State(blocks: seq<nat>, capacity: nat, free: seq<Slot>, live: set<Slot>, peak: nat) {

    /** The address is that of a slot of some block. */
    ghost predicate Owned(s: Slot) {
      s.block < |blocks| && s.index < blocks[s.block]
    }

    /** Every slot of every block is free exactly once or live, never both; nothing else is either. */
    ghost predicate Conserved() {
      && (forall s :: s in free || s in live <==> Owned(s))
      && (forall s <- free :: s !in live)
      && (forall i, j :: 0 <= i < j < |free| ==> free[i] != free[j])
      && |free| + |live| == capacity
    }

    /** Block sizes: the start size, then the start size doubled over and over. */
    ghost predicate Doubled(start: nat) {
      && |blocks| > 0 && blocks[0] == start
      && (forall k :: 0 < k < |blocks| ==> blocks[k] == Doubling(start, k - 1))
      && capacity == Doubling(start, |blocks| - 1)
    }

    /** The pool never holds twice the slots its clients once needed at the same time. */
    ghost predicate Needed(start: nat) {
      |live| <= peak && (capacity == start || capacity < 2 * peak)
    }

    ghost predicate Inv(start: nat) {
      Conserved() && Doubled(start) && Needed(start)
    }

    /** A new block as large as all earlier ones together; its slots go in front of the free ones. */
    function Grown(): State {
      State(blocks + [capacity], 2 * capacity, BlockSlots(|blocks|, capacity) + free, live, peak)
    }

    /** The state that has a free slot to hand out, if growing can provide one. */
    function Ready(): State {
      if free == [] then Grown() else this
    }

    function Taken(): State
      requires free != []
    {
      State(blocks, capacity, free[1..], live + {free[0]}, Max(peak, |live| + 1))
    }

    function Returned(s: Slot): State {
      State(blocks, capacity, free + [s], live - {s}, peak)
    }
  }

  /** `start` times the `k`-th power of two. */
  function Doubling(start: nat, k: nat): (r: nat)
    ensures r >= start
  {
    if k == 0 then start else 2 * Doubling(start, k - 1)
  }

  function Initial(n: nat): State {
    State([n], n, BlockSlots(0, n), {}, 0)
  }

  lemma InitialInv(n: nat)
    ensures Initial(n).Inv(n)
  {
    var st := Initial(n);
    forall s
      ensures s in st.free <==> st.Owned(s)
    {
      if st.Owned(s) {
        assert st.free[s.index] == s;
      }
    }
  }

  lemma GrownConserved(st: State)
    requires st.Conserved() && st.free == []
    ensures st.Grown().Conserved()
  {
    var g := st.Grown();
    var added := BlockSlots(|st.blocks|, st.capacity);
    assert g.free == added;
    forall s
      ensures s in g.free <==> s.block == |st.blocks| && s.index < st.capacity
    {
      if s.block == |st.blocks| && s.index < st.capacity {
        assert added[s.index] == s;
      }
    }
    assert forall s :: g.Owned(s) <==> st.Owned(s) || (s.block == |st.blocks| && s.index < st.capacity);
  }

  /** Growing doubles the capacity when all slots are live, which the next one to be live makes up for. */
  lemma ReadyKeeps(st: State, start: nat)
    requires st.Inv(start) && start > 0
    ensures st.Ready().Conserved() && st.Ready().Doubled(start) && st.Ready().free != []
    ensures st.Ready().live == st.live && st.Ready().peak == st.peak
    ensures st.Ready().capacity == start || st.Ready().capacity < 2 * Max(st.peak, |st.live| + 1)
  {
    if st.free == [] {
      GrownConserved(st);
    }
  }

  /** Handing a slot out keeps every invariant, and the slot was nobody's. */
  lemma ConstructInv(st: State, start: nat)
    requires st.Inv(start) && start > 0
    ensures st.Ready().free != [] && st.Ready().free[0] !in st.live
    ensures st.Ready().Taken().Inv(start)
  {
    ReadyKeeps(st, start);
    var r := st.Ready();
    TakenConserved(r);
    assert r.free[0] in r.free;
  }

  lemma TakenConserved(r: State)
    requires r.Conserved() && r.free != []
    ensures r.Taken().Conserved() && |r.Taken().live| == |r.live| + 1
  {
    var t := r.Taken();
    assert r.free == [r.free[0]] + t.free;
    assert r.free[0] in r.free;
    forall s
      ensures s in t.free || s in t.live <==> r.Owned(s)
    {
      assert s in r.free <==> s == r.free[0] || s in t.free;
      assert t.Owned(s) <==> r.Owned(s);
    }
  }

  /** Giving a slot back keeps every invariant, and the ring has room for it. */
  lemma ReleaseInv(st: State, start: nat, s: Slot)
    requires st.Inv(start) && s in st.live
    ensures st.Returned(s).Inv(start) && |st.free| < st.capacity
  {
    var t := st.Returned(s);
    assert st.live == t.live + {s};
    forall x
      ensures x in t.free || x in t.live <==> st.Owned(x)
    {
      assert x in t.free <==> x == s || x in st.free;
      assert t.Owned(x) <==> st.Owned(x);
    }
  }

  // -------------------------------------------------------------------------
  // Whole runs
  // -------------------------------------------------------------------------

  datatype Event = Construct | Release(s: Slot)

  /** Clients only release what they hold: a pool pointer owns its slot. */
  ghost predicate Enabled(st: State, ev: Event) {
    ev.Release? ==> ev.s in st.live
  }

  ghost function Step(st: State, ev: Event): State
    requires Enabled(st, ev)
  {
    match ev
    case Construct => if st.Ready().free == [] then st.Ready() else st.Ready().Taken()
    case Release(s) => st.Returned(s)
  }

  ghost predicate Possible(st: State, evs: seq<Event>)
    decreases |evs|
  {
    evs == [] || (Enabled(st, evs[0]) && Possible(Step(st, evs[0]), evs[1..]))
  }

  ghost function Run(st: State, evs: seq<Event>): State
    requires Possible(st, evs)
    decreases |evs|
  {
    if evs == [] then st else Run(Step(st, evs[0]), evs[1..])
  }

  /** The most slots that were live at the same time, from `st` on. */
  ghost function PeakLive(st: State, evs: seq<Event>): nat
    requires Possible(st, evs)
    decreases |evs|
  {
    Max(|st.live|, if evs == [] then 0 else PeakLive(Step(st, evs[0]), evs[1..]))
  }

  lemma StepKeeps(st: State, start: nat, ev: Event)
    requires start > 0 && st.Inv(start) && Enabled(st, ev)
    ensures Step(st, ev).Inv(start)
    ensures Step(st, ev).peak == Max(st.peak, |Step(st, ev).live|)
  {
    match ev
    case Construct =>
      ConstructInv(st, start);
      if st.free == [] {
        GrownConserved(st);
      }
      TakenConserved(st.Ready());
    case Release(s) => ReleaseInv(st, start, s);
  }

  lemma {:induction false} RunKeeps(st: State, start: nat, evs: seq<Event>)
    requires start > 0 && st.Inv(start) && Possible(st, evs)
    ensures Run(st, evs).Inv(start)
    ensures Run(st, evs).peak == Max(st.peak, PeakLive(st, evs))
    decreases |evs|
  {
    if evs != [] {
      StepKeeps(st, start, evs[0]);
      RunKeeps(Step(st, evs[0]), start, evs[1..]);
    }
  }

  function Power(base: nat, k: nat): nat {
    if k == 0 then 1 else base * Power(base, k - 1)
  }

  lemma {:induction false} DoublingIsPower(start: nat, k: nat)
    ensures Doubling(start, k) == start * Power(2, k)
  {
    if k > 0 {
      DoublingIsPower(start, k - 1);
    }
  }

  /**
   * Every interleaving of constructions and releases, from a new pool on: no slot is lost,
   * duplicated or shared, and the capacity is the start size times a power of two, and the start
   * size or less than twice the peak number of live objects.
   */
  lemma EveryRun(n: nat, evs: seq<Event>)
    requires n > 0 && Possible(Initial(n), evs)
    ensures var st := Run(Initial(n), evs);
      && st.Conserved() && st.Doubled(n)
      && (st.capacity == n || st.capacity < 2 * PeakLive(Initial(n), evs))
      && st.capacity == n * Power(2, |st.blocks| - 1)
  {
    InitialInv(n);
    RunKeeps(Initial(n), n, evs);
    DoublingIsPower(n, |Run(Initial(n), evs).blocks| - 1);
  }

  lemma {:induction false} DoublingZero(k: nat)
    ensures Doubling(0, k) == 0
  {
    if k > 0 {
      DoublingZero(k - 1);
    }
  }

  /** A pool of start size 0 grows from nothing to nothing. */
  lemma StartZero(st: State)
    requires st.Inv(0)
    ensures st.Ready().free == [] && st.Ready().Inv(0)
  {
    DoublingZero(|st.blocks| - 1);
    GrownConserved(st);
  }

  // -------------------------------------------------------------------------
  // The pool itself
  // -------------------------------------------------------------------------

  /** Pushes the slots of a block, in address order. */
  method Fill(q: CircularQueue<Slot>, block: nat, size: nat)
    requires q.Valid() && q.contents == [] && size <= q.Capacity()
    modifies q, q.data
    ensures q.Valid() && q.data == old(q.data) && q.Capacity() == old(q.Capacity())
    ensures q.contents == BlockSlots(block, size)
  {
    ghost var slots := BlockSlots(block, size);
    for i := 0 to size
      invariant q.Valid() && q.data == old(q.data) && q.Capacity() == old(q.Capacity())
      invariant q.contents == slots[..i]
    {
      assert slots[..i + 1] == slots[..i] + [Slot(block, i)];
      var ok := q.Push(Slot(block, i));
    }
  }

  /** A ring for twice `size` slots that holds the slots of a new block of `size`. */
  method NewQueue(block: nat, size: nat) returns (q: CircularQueue<Slot>)
    ensures q.Valid() && fresh(q) && fresh(q.data) && q.Capacity() == 2 * size
    ensures q.contents == BlockSlots(block, size)
  {
    q := new CircularQueue<Slot>(size * 2);
    Fill(q, block, size);
  }

  lemma MoveOne<T>(to: seq<T>, from: seq<T>)
    requires from != []
    ensures (to + [from[0]]) + from[1..] == to + from
  {
  }

  /** Moves every element of `from` behind those of `to`. */
  method Drain(from: CircularQueue<Slot>, to: CircularQueue<Slot>)
    requires from.Valid() && to.Valid() && from != to && (from.data != to.data || from.data == null)
    requires |from.contents| + |to.contents| <= to.Capacity()
    modifies from, to, to.data
    ensures from.Valid() && to.Valid() && to.data == old(to.data) && to.Capacity() == old(to.Capacity())
    ensures to.contents == old(to.contents) + old(from.contents) && from.contents == []
  {
    from.FullAndEmpty();
    ghost var all := to.contents + from.contents;
    while !from.Empty()
      invariant from.Valid() && from.data == old(from.data)
      invariant to.Valid() && to.data == old(to.data) && to.Capacity() == old(to.Capacity())
      invariant from.Empty() <==> from.contents == []
      invariant to.contents + from.contents == all
      decreases |from.contents|
    {
      ghost var t, f := to.contents, from.contents;
      MoveOne(t, f);
      var ok, p := from.Front();
      ok := to.Push(p);
      ok := from.Pop();
      from.FullAndEmpty();
    }
  }

  class InstancePool {
    var starts: seq<nat>
    var que: CircularQueue<Slot>
    ghost var live: set<Slot>
    ghost var peak: nat
    ghost const start: nat

    ghost predicate Valid()
      reads this, que, que.data
    {
      que.Valid() && View().Inv(start)
    }

    ghost function View(): State
      requires que.Valid()
      reads this, que, que.data
    {
      State(starts, que.Capacity(), que.contents, live, peak)
    }

    constructor (n: nat)
      ensures Valid() && fresh(que) && fresh(que.data) && start == n && View() == Initial(n)
    {
      starts := [n];
      que := new CircularQueue<Slot>(n);
      live, peak, start := {}, 0, n;
      new;
      Fill(que, 0, n);
      assert View() == Initial(n);
      InitialInv(n);
    }

    /** Takes a free slot, growing first when there is none; throws only in a pool of start size 0. */
    method Construct() returns (ok: bool, p: Slot)
      requires Valid()
      modifies this, que, que.data
      ensures Valid() && fresh({que, que.data} - old({que, que.data})) && ok == (start > 0)
      ensures ok ==> p == old(View().Ready().free[0]) && p !in old(live) && View() == old(View().Ready().Taken())
      ensures !ok ==> View() == old(View().Ready())
    {
      ghost var before := View();
      if start > 0 {
        ConstructInv(before, start);
      } else {
        StartZero(before);
      }
      que.FullAndEmpty();
      if que.Empty() {
        Grow();
      }
      assert View() == before.Ready();
      ok, p := Take();
    }

    /** Moves the first free slot to the client, if there is one. */
    method Take() returns (ok: bool, p: Slot)
      requires que.Valid()
      modifies this`live, this`peak, que
      ensures que.Valid() && que.data == old(que.data) && ok == (old(View().free) != [])
      ensures ok ==> p == old(View().free[0]) && View() == old(View().Taken())
      ensures !ok ==> View() == old(View())
    {
      ok, p := que.Front();
      if ok {
        ok := que.Pop();
        peak := Max(peak, |live| + 1);
        live := live + {p};
      }
    }

    method Grow()
      requires Valid()
      modifies this`starts, this`que, que, que.data
      ensures que.Valid() && fresh(que) && fresh(que.data)
      ensures View() == old(View().Grown())
    {
      var newque := NewQueue(|starts|, que.Capacity());
      starts := starts + [que.Capacity()];
      que.FullAndEmpty();
      Drain(que, newque);
      que := newque;
    }

    /** The deleter: puts a live slot back; a null pointer is ignored. */
    method Release(p: Option<Slot>)
      requires Valid() && (p.Some? ==> p.value in live)
      modifies this, que, que.data
      ensures Valid() && que == old(que)
      ensures View() == match p { case None => old(View()) case Some(s) => old(View()).Returned(s) }
    {
      if p.Some? {
        ReleaseInv(View(), start, p.value);
        var ok := que.Push(p.value);
        assert ok;
        live := live - {p.value};
      }
    }
  }
}
