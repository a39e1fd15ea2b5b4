/**
 The per-CPU physical page allocator of the kernel: one LIFO free list of
 4096-byte page frames per CPU. `kfree` checks a frame and pushes it on the
 calling CPU's list; `kalloc` pops the calling CPU's list and, when that is
 empty, steals the head of the lowest-numbered non-empty list.

 A frame is its physical address. The junk bytes that `memset` writes into a
 page are recorded in `fill`, one byte per frame (every byte of the page
 holds it). The calling CPU, which the kernel reads from the `tp` register,
 is a parameter. Each list is changed under its own spinlock, so every
 operation below is one atomic step.
 */
module PageAllocator {
  import opened Collections

  const PGSIZE: nat := 4096
  const KERNBASE: nat := 0x8000_0000
  /** The top of physical RAM: 128 MiB above KERNBASE. */
  const PHYSTOP: nat := KERNBASE + 128 * 1024 * 1024
  const NCPU: nat := 8
  /** The bound of kalloc's steal loop, written as a literal rather than NCPU. */
  const STEAL_LIMIT: nat := 8

  /** The bytes memset writes into a freed and into an allocated page. */
  const FREED_JUNK: bv8 := 1
  const ALLOC_JUNK: bv8 := 5

  type Frame = nat

  /**
   The allocator: `end` is the first address after the kernel image,
   `lists[c]` is CPU c's free list (head first), and `fill` maps each frame
   that was ever freed or allocated to the junk byte last written into it.
   */
  datatype Kmem = Kmem(end: nat, lists: seq<seq<Frame>>, fill: map<Frame, bv8>)

  datatype FreeResult = FreePanic | Freed(m: Kmem)

  /** The state after kalloc and the frame it returns; `None` is the null pointer. */
  datatype Alloc = Alloc(m: Kmem, frame: Option<Frame>)

  /** PGROUNDUP: the first page boundary at or above `a`. */
  function PgRoundUp(a: nat): (r: nat)
    ensures r % PGSIZE == 0 && a <= r < a + PGSIZE
  {
    if a % PGSIZE == 0 then a else a + (PGSIZE - a % PGSIZE)
  }

  /** True iff kfree accepts `pa`: page aligned, not inside the kernel, below PHYSTOP. */
  predicate Freeable(m: Kmem, pa: nat)
  {
    pa % PGSIZE == 0 && m.end <= pa < PHYSTOP
  }

  /** kfree(pa) on CPU `cpu`: panic on a bad frame, else fill it with junk and push it. */
  function Kfree(m: Kmem, cpu: nat, pa: Frame): (r: FreeResult)
    requires cpu < |m.lists|
    ensures r.FreePanic? <==> !Freeable(m, pa)
    ensures r.Freed? ==>
      && r.m.end == m.end
      && |r.m.lists| == |m.lists|
      && r.m.lists[cpu] == [pa] + m.lists[cpu]
      && (forall j :: 0 <= j < |m.lists| && j != cpu ==> r.m.lists[j] == m.lists[j])
      && r.m.fill == m.fill[pa := FREED_JUNK]
  {
    if pa % PGSIZE != 0 || pa < m.end || pa >= PHYSTOP then FreePanic
    else
      var l := [pa] + m.lists[cpu];
      Freed(m.(lists := m.lists[cpu := l], fill := m.fill[pa := FREED_JUNK]))
  }

  /** The CPU the steal loop starts probing from. */
  function StealStart(cpu: nat): nat
  {
    if cpu == 0 then 1 else 0
  }

  /** The steal loop from index `s`: the first non-empty list at or above `s` and below 8. */
  function Steal(lists: seq<seq<Frame>>, s: nat): (r: Option<nat>)
    requires |lists| == STEAL_LIMIT
    ensures r.Some? ==> s <= r.value < STEAL_LIMIT && lists[r.value] != []
    ensures forall j :: s <= j < STEAL_LIMIT && (r.None? || j < r.value) ==> lists[j] == []
    decreases STEAL_LIMIT - s
  {
    if s >= STEAL_LIMIT then None
    else if lists[s] != [] then Some(s)
    else Steal(lists, s + 1)
  }

  /** `d` is the list kalloc on CPU `cpu` takes from: its own if non-empty, else the lowest non-empty one. */
  predicate Donor(m: Kmem, cpu: nat, d: nat)
    requires |m.lists| == NCPU && cpu < NCPU
  {
    && d < NCPU && m.lists[d] != []
    && (d == cpu || (m.lists[cpu] == [] && forall j :: 0 <= j < d ==> m.lists[j] == []))
  }

  /** Unlink the head of list `d` and fill the frame with allocation junk. */
  function TakeHead(m: Kmem, d: nat): (r: Alloc)
    requires d < |m.lists| && m.lists[d] != []
    ensures r.frame == Some(m.lists[d][0])
    ensures r.m.end == m.end && |r.m.lists| == |m.lists|
    ensures r.m.lists[d] == m.lists[d][1..]
    ensures forall j :: 0 <= j < |m.lists| && j != d ==> r.m.lists[j] == m.lists[j]
    ensures r.m.fill == m.fill[m.lists[d][0] := ALLOC_JUNK]
  {
    var l := m.lists[d];
    Alloc(m.(lists := m.lists[d := l[1..]], fill := m.fill[l[0] := ALLOC_JUNK]), Some(l[0]))
  }

  /** kalloc() on CPU `cpu`. */
  function Kalloc(m: Kmem, cpu: nat): (r: Alloc)
    requires |m.lists| == NCPU && cpu < NCPU
    ensures r.m.end == m.end && |r.m.lists| == NCPU
    ensures r.frame.None? <==> forall j :: 0 <= j < NCPU ==> m.lists[j] == []
    ensures r.frame.None? ==> r.m == m
    ensures r.frame.Some? ==> exists d: nat ::
      && Donor(m, cpu, d)
      && r.frame.value == m.lists[d][0]
      && r.m.lists[d] == m.lists[d][1..]
      && (forall j :: 0 <= j < NCPU && j != d ==> r.m.lists[j] == m.lists[j])
    ensures r.frame.Some? ==> r.m.fill == m.fill[r.frame.value := ALLOC_JUNK]
  {
    if m.lists[cpu] != [] then TakeHead(m, cpu)
    else
      match Steal(m.lists, StealStart(cpu))
      case None => Alloc(m, None)
      case Some(d) => TakeHead(m, d)
  }

  /** The page frames freerange visits from `p`: p, p + PGSIZE, ... while the page ends by `stop`. */
  function PageRun(p: nat, stop: nat): (r: seq<Frame>)
    ensures forall k :: 0 <= k < |r| ==> r[k] == p + k * PGSIZE && r[k] + PGSIZE <= stop
    ensures p + |r| * PGSIZE + PGSIZE > stop
    decreases stop - p
  {
    if p + PGSIZE > stop then [] else [p] + PageRun(p + PGSIZE, stop)
  }

  /** The loop of freerange from page `p`: kfree each page in turn, stopping at the first panic. */
  function FreeFrom(m: Kmem, cpu: nat, p: nat, stop: nat): (r: FreeResult)
    requires cpu < |m.lists|
    ensures r.Freed? ==> r.m.end == m.end && |r.m.lists| == |m.lists|
    decreases stop - p
  {
    if p + PGSIZE > stop then Freed(m)
    else match Kfree(m, cpu, p)
      case FreePanic => FreePanic
      case Freed(m1) => FreeFrom(m1, cpu, p + PGSIZE, stop)
  }

  /** freerange(start, stop). */
  function Freerange(m: Kmem, cpu: nat, start: nat, stop: nat): (r: FreeResult)
    requires cpu < |m.lists|
    ensures r.Freed? ==> r.m.end == m.end && |r.m.lists| == |m.lists|
  {
    FreeFrom(m, cpu, PgRoundUp(start), stop)
  }

  /**
   The state kinit leaves: every list empty, then freerange(end, PHYSTOP) run
   on the booting CPU. The loop that would name the per-CPU locks never runs
   (it starts at NCPU while i <= 0), so no lock state is modelled.
   */
  function Kinit(end: nat, cpu: nat): (r: FreeResult)
    requires cpu < NCPU
  {
    Freerange(Kmem(end, seq(NCPU, _ => []), map[]), cpu, end, PHYSTOP)
  }

  // ---------------------------------------------------------------------
  // the allocator's invariant

  /** True iff `pa` is on some free list. */
  predicate IsFree(m: Kmem, pa: Frame)
  {
    pa in Union(m.lists)
  }

  /** Every free frame is freeable and is on the free lists exactly once. */
  predicate Inv(m: Kmem)
  {
    && |m.lists| == NCPU && 0 < m.end
    && forall x :: x in Union(m.lists) ==> Freeable(m, x) && Union(m.lists)[x] == 1
  }

  /** kfree adds exactly the freed frame to the free frames. */
  lemma KfreeConserves(m: Kmem, cpu: nat, pa: Frame)
    requires cpu < |m.lists|
    ensures Kfree(m, cpu, pa).Freed? ==> Union(Kfree(m, cpu, pa).m.lists) == Union(m.lists) + multiset{pa}
  {
    if Freeable(m, pa) {
      var m' := Kfree(m, cpu, pa).m;
      assert m'.lists == m.lists[cpu := [pa] + m.lists[cpu]];
      UnionUpdate(m.lists, cpu, [pa] + m.lists[cpu]);
      UnionContains(m.lists, cpu);
    }
  }

  /** Taking the head of a list removes exactly that frame from the free frames. */
  lemma TakeHeadConserves(m: Kmem, d: nat)
    requires d < |m.lists| && m.lists[d] != []
    ensures Union(TakeHead(m, d).m.lists) == Union(m.lists) - multiset{m.lists[d][0]}
  {
    var l := m.lists[d];
    assert l == [l[0]] + l[1..];
    assert TakeHead(m, d).m.lists == m.lists[d := l[1..]];
    UnionUpdate(m.lists, d, l[1..]);
    UnionContains(m.lists, d);
  }

  /** kalloc removes exactly the returned frame from the free frames. */
  lemma KallocConserves(m: Kmem, cpu: nat)
    requires |m.lists| == NCPU && cpu < NCPU
    ensures Kalloc(m, cpu).frame.Some? ==>
      Union(Kalloc(m, cpu).m.lists) == Union(m.lists) - multiset{Kalloc(m, cpu).frame.value}
  {
    if m.lists[cpu] != [] {
      TakeHeadConserves(m, cpu);
    } else {
      match Steal(m.lists, StealStart(cpu))
      case None =>
      case Some(d) => TakeHeadConserves(m, d);
    }
  }

  /** kfree of a good frame that is not already free keeps the invariant and makes it free. */
  lemma KfreeKeepsInv(m: Kmem, cpu: nat, pa: Frame)
    requires Inv(m) && cpu < NCPU && Freeable(m, pa) && !IsFree(m, pa)
    ensures Kfree(m, cpu, pa).Freed? && Inv(Kfree(m, cpu, pa).m)
    ensures IsFree(Kfree(m, cpu, pa).m, pa)
  {
    KfreeConserves(m, cpu, pa);
  }

  /** kfree does not detect a double free: freeing a free frame succeeds and breaks the invariant. */
  lemma KfreeAcceptsDoubleFree(m: Kmem, cpu: nat, pa: Frame)
    requires Inv(m) && cpu < NCPU && IsFree(m, pa)
    ensures Kfree(m, cpu, pa).Freed?
    ensures !Inv(Kfree(m, cpu, pa).m)
  {
    KfreeConserves(m, cpu, pa);
    assert Union(Kfree(m, cpu, pa).m.lists)[pa] == 2;
  }

  /** kalloc keeps the invariant; a returned frame is freeable, non-null and no longer free. */
  lemma KallocKeepsInv(m: Kmem, cpu: nat)
    requires Inv(m) && cpu < NCPU
    ensures Inv(Kalloc(m, cpu).m)
    ensures Kalloc(m, cpu).frame.Some? ==>
      var pa := Kalloc(m, cpu).frame.value;
      && pa != 0 && Freeable(m, pa) && IsFree(m, pa) && !IsFree(Kalloc(m, cpu).m, pa)
  {
    var r := Kalloc(m, cpu);
    KallocConserves(m, cpu);
    if r.frame.Some? {
      var d: nat :| Donor(m, cpu, d) && r.frame.value == m.lists[d][0];
      UnionHas(m.lists, d, 0);
    }
  }

  /** When the calling CPU's list is non-empty, kalloc takes its head and no other list changes. */
  lemma KallocPrefersOwnList(m: Kmem, cpu: nat)
    requires |m.lists| == NCPU && cpu < NCPU && m.lists[cpu] != []
    ensures Kalloc(m, cpu).frame == Some(m.lists[cpu][0])
    ensures forall j :: 0 <= j < NCPU && j != cpu ==> Kalloc(m, cpu).m.lists[j] == m.lists[j]
  {
  }

  /** When the calling CPU's list is empty, kalloc takes from the lowest-numbered non-empty list. */
  lemma {:induction false} KallocStealsLowest(m: Kmem, cpu: nat, d: nat)
    requires |m.lists| == NCPU && cpu < NCPU && m.lists[cpu] == []
    requires d < NCPU && m.lists[d] != [] && forall j :: 0 <= j < d ==> m.lists[j] == []
    ensures Kalloc(m, cpu).frame == Some(m.lists[d][0])
    ensures Kalloc(m, cpu).m.lists == m.lists[d := m.lists[d][1..]]
  {
    var r := Kalloc(m, cpu);
    var d': nat :| Donor(m, cpu, d') && r.frame.value == m.lists[d'][0] && r.m.lists[d'] == m.lists[d'][1..]
      && (forall j :: 0 <= j < NCPU && j != d' ==> r.m.lists[j] == m.lists[j]);
    assert d' == d;
  }

  /** A run of pages is its first page followed by the run after it. */
  lemma PageRunCons(p: nat, stop: nat)
    requires p + PGSIZE <= stop
    ensures PageRun(p, stop) == [p] + PageRun(p + PGSIZE, stop)
    ensures Reverse(PageRun(p, stop)) == Reverse(PageRun(p + PGSIZE, stop)) + [p]
  {
    var run := PageRun(p, stop);
    assert run[1..] == PageRun(p + PGSIZE, stop);
  }

  /** One iteration of freerange's loop. */
  lemma FreeFromUnfold(m: Kmem, cpu: nat, p: nat, stop: nat)
    requires cpu < |m.lists| && p + PGSIZE <= stop
    ensures !Freeable(m, p) ==> FreeFrom(m, cpu, p, stop) == FreePanic
    ensures Freeable(m, p) ==> FreeFrom(m, cpu, p, stop) == FreeFrom(Kfree(m, cpu, p).m, cpu, p + PGSIZE, stop)
  {
  }

  /** Every frame of `run` lies between the kernel's end and PHYSTOP. */
  predicate InRange(m: Kmem, run: seq<Frame>)
  {
    forall k :: 0 <= k < |run| ==> m.end <= run[k] < PHYSTOP
  }

  /** Every page of a run is in range iff its first page is and every page of the rest is. */
  lemma PageRunInRange(m: Kmem, p: nat, stop: nat)
    requires p + PGSIZE <= stop
    ensures InRange(m, PageRun(p, stop)) <==> m.end <= p < PHYSTOP && InRange(m, PageRun(p + PGSIZE, stop))
  {
    PageRunCons(p, stop);
    var run := PageRun(p, stop);
    var rest := PageRun(p + PGSIZE, stop);
    assert run[0] == p && run[1..] == rest;
  }

  /** freerange from an aligned page succeeds iff every page it visits is in range. */
  lemma {:induction false} FreeFromSucceedsIff(m: Kmem, cpu: nat, p: nat, stop: nat)
    requires cpu < |m.lists| && p % PGSIZE == 0
    ensures FreeFrom(m, cpu, p, stop).Freed? <==> InRange(m, PageRun(p, stop))
    decreases stop - p
  {
    if p + PGSIZE <= stop {
      FreeFromUnfold(m, cpu, p, stop);
      PageRunInRange(m, p, stop);
      if Freeable(m, p) {
        FreeFromSucceedsIff(Kfree(m, cpu, p).m, cpu, p + PGSIZE, stop);
      }
    }
  }

  /** A successful freerange pushes the pages of PageRun on the CPU's list, last one at the head. */
  lemma {:induction false} FreeFromFreesPageRun(m: Kmem, cpu: nat, p: nat, stop: nat)
    requires cpu < |m.lists|
    ensures FreeFrom(m, cpu, p, stop).Freed? ==>
      && FreeFrom(m, cpu, p, stop).m.lists[cpu] == Reverse(PageRun(p, stop)) + m.lists[cpu]
      && forall j :: 0 <= j < |m.lists| && j != cpu ==> FreeFrom(m, cpu, p, stop).m.lists[j] == m.lists[j]
    decreases stop - p
  {
    if p + PGSIZE <= stop {
      FreeFromUnfold(m, cpu, p, stop);
      PageRunCons(p, stop);
      if Freeable(m, p) {
        var m1 := Kfree(m, cpu, p).m;
        FreeFromFreesPageRun(m1, cpu, p + PGSIZE, stop);
        assert m1.lists[cpu] == [p] + m.lists[cpu];
      }
    }
  }

  /** kinit leaves every page between the kernel's end and PHYSTOP free, on the booting CPU's list. */
  lemma KinitFreesAllMemory(end: nat, cpu: nat)
    requires 0 < end <= PHYSTOP && cpu < NCPU
    ensures Kinit(end, cpu).Freed?
    ensures Kinit(end, cpu).m.lists[cpu] == Reverse(PageRun(PgRoundUp(end), PHYSTOP))
    ensures forall j :: 0 <= j < NCPU && j != cpu ==> Kinit(end, cpu).m.lists[j] == []
  {
    var m0 := Kmem(end, seq(NCPU, _ => []), map[]);
    FreeFromSucceedsIff(m0, cpu, PgRoundUp(end), PHYSTOP);
    FreeFromFreesPageRun(m0, cpu, PgRoundUp(end), PHYSTOP);
  }

  /** The pages of a run, in the order freerange pushes them, are distinct and freeable. */
  lemma ReversedRunFreeable(m: Kmem, base: nat, stop: nat)
    requires base % PGSIZE == 0 && m.end <= base && stop <= PHYSTOP
    ensures NoDup(Reverse(PageRun(base, stop)))
    ensures forall x :: x in Reverse(PageRun(base, stop)) ==> Freeable(m, x)
  {
    var run := PageRun(base, stop);
    var rev := Reverse(run);
    forall k | 0 <= k < |rev|
      ensures Freeable(m, rev[k])
    {
      var i := |run| - 1 - k;
      assert rev[k] == run[i] == base + i * PGSIZE;
      assert (base + i * PGSIZE) % PGSIZE == 0;
    }
    forall k1, k2 | 0 <= k1 < k2 < |rev|
      ensures rev[k1] != rev[k2]
    {
      assert rev[k1] == run[|run| - 1 - k1] && rev[k2] == run[|run| - 1 - k2];
    }
  }

  /** Lists that are all empty but one hold exactly that one's frames. */
  lemma UnionOfOne(ls: seq<seq<Frame>>, cpu: nat, l: seq<Frame>)
    requires cpu < |ls| && forall j :: 0 <= j < |ls| ==> ls[j] == []
    ensures Union(ls[cpu := l]) == multiset(l)
  {
    UnionUpdate(ls, cpu, l);
    UnionEmpty(ls);
  }

  /** A list without duplicates whose frames are freeable holds each of them once. */
  lemma OnceEach(m: Kmem, l: seq<Frame>)
    requires NoDup(l) && forall x :: x in l ==> Freeable(m, x)
    ensures forall x :: x in multiset(l) ==> Freeable(m, x) && multiset(l)[x] == 1
  {
    forall x | x in multiset(l)
      ensures Freeable(m, x) && multiset(l)[x] == 1
    {
      NoDupOnce(l, x);
      assert x in l;
    }
  }

  /** The state kinit leaves satisfies the invariant. */
  lemma KinitEstablishesInv(end: nat, cpu: nat)
    requires 0 < end <= PHYSTOP && cpu < NCPU
    ensures Kinit(end, cpu).Freed? && Inv(Kinit(end, cpu).m)
  {
    KinitFreesAllMemory(end, cpu);
    var m0 := Kmem(end, seq(NCPU, _ => []), map[]);
    var m := Kinit(end, cpu).m;
    var rev := Reverse(PageRun(PgRoundUp(end), PHYSTOP));
    assert m.lists == m0.lists[cpu := rev];
    UnionOfOne(m0.lists, cpu, rev);
    ReversedRunFreeable(m, PgRoundUp(end), PHYSTOP);
    OnceEach(m, rev);
  }

  /** Freeing the page kalloc just took from the caller's own list restores every list. */
  lemma KfreeUndoesKalloc(m: Kmem, cpu: nat)
    requires Inv(m) && cpu < NCPU && m.lists[cpu] != []
    ensures Kalloc(m, cpu).frame.Some?
    ensures Kfree(Kalloc(m, cpu).m, cpu, Kalloc(m, cpu).frame.value).Freed?
    ensures Kfree(Kalloc(m, cpu).m, cpu, Kalloc(m, cpu).frame.value).m.lists == m.lists
  {
    KallocPrefersOwnList(m, cpu);
    KallocKeepsInv(m, cpu);
    var a := Kalloc(m, cpu);
    var m2 := Kfree(a.m, cpu, a.frame.value).m;
    assert m.lists[cpu] == [m.lists[cpu][0]] + m.lists[cpu][1..];
    assert m2.lists[cpu] == m.lists[cpu];
  }
}
