/**
 The hashed block buffer cache of kernel/bio.c as a sequential state machine.

 A fixed array of NBUF buffer slots is spread over BUCKETS hash buckets.  Each
 bucket's circular doubly-linked list is modelled as a sequence of slot
 indices, head (most recently released or migrated in) first and tail
 (least recently) last; after binit the order is that of the slot array.
 Every region of the source that runs under a bucket spinlock is one
 transition here.  The per-slot sleep lock is modelled by its holder's
 process id; a process that would sleep on it sees `None`.

 The block device is a map from (dev, blockno) to block contents plus two
 transfer counters, so that "exactly one device read" can be stated.
 */
module BufferCache {
  import opened Collections

  /** Number of hash buckets (kernel/bio.c:26). */
  const BUCKETS: nat := 13
  /** Number of buffer slots (xv6 param.h: MAXOPBLOCKS * 3). */
  const NBUF: nat := 30
  /** Bytes per block (xv6 fs.h). */
  const BSIZE: nat := 1024

  type Pid = nat
  type Block = seq<bv8>

  /** The all-zero block: the contents of a statically allocated slot, and of a never-written disk block. */
  function ZeroBlock(): Block { seq(BSIZE, _ => 0) }

  /** A disk block address. */
  datatype Key = Key(dev: nat, blockno: nat)

  /** One buffer slot (struct buf without its list links, which live in the buckets). */
  datatype Buf = Buf(dev: nat, blockno: nat, valid: bool, refcnt: nat, holder: Option<Pid>, data: Block)
  {
    function KeyOf(): Key { Key(dev, blockno) }
    /** The bucket whose lock guards this slot and whose list must hold it. */
    function Home(): nat { blockno % BUCKETS }
    /** Holds no reference and no cached contents: reusing it loses nothing. */
    predicate Dead() { !valid && refcnt == 0 }
  }

  /** The whole cache together with the block device it fronts. */
  datatype Cache = Cache(slots: seq<Buf>, buckets: seq<seq<nat>>, disk: map<Key, Block>, diskReads: nat, diskWrites: nat)

  datatype Outcome = Panic(msg: string) | Ok(c: Cache)

  /** Result of bget: the panic "bget: no buffers", or the new state and the chosen slot. */
  datatype GetResult = NoBuffers | Got(c: Cache, i: nat)

  /** Result of bread: panic, the caller asleep on the slot's sleep lock, or done. */
  datatype ReadResult = ReadPanic | ReadSleeps(c: Cache, i: nat) | ReadDone(c: Cache, i: nat)

  function DiskRead(disk: map<Key, Block>, k: Key): Block
  {
    if k in disk then disk[k] else ZeroBlock()
  }

  /** There are BUCKETS lists and every list entry names an existing slot. */
  predicate WellIndexed(c: Cache)
  {
    && |c.buckets| == BUCKETS
    && forall b, p :: 0 <= b < |c.buckets| && 0 <= p < |c.buckets[b]| ==> c.buckets[b][p] < |c.slots|
  }

  predicate HasKey(s: Buf, dev: nat, blockno: nat)
  {
    s.dev == dev && s.blockno == blockno
  }

  /** Some slot of list `l` holds (dev, blockno). */
  predicate KeyIn(slots: seq<Buf>, l: seq<nat>, dev: nat, blockno: nat)
    requires forall p :: 0 <= p < |l| ==> l[p] < |slots|
  {
    exists p :: 0 <= p < |l| && HasKey(slots[l[p]], dev, blockno)
  }

  /** Position `p` of `l` is the first, counting from the head, that holds (dev, blockno). */
  predicate FirstWithKey(slots: seq<Buf>, l: seq<nat>, p: nat, dev: nat, blockno: nat)
    requires forall q :: 0 <= q < |l| ==> l[q] < |slots|
  {
    && p < |l|
    && HasKey(slots[l[p]], dev, blockno)
    && forall q :: 0 <= q < p ==> !HasKey(slots[l[q]], dev, blockno)
  }

  /** No slot of list `l` has refcnt == 0. */
  predicate NoFree(slots: seq<Buf>, l: seq<nat>)
    requires forall q :: 0 <= q < |l| ==> l[q] < |slots|
  {
    forall q :: 0 <= q < |l| ==> slots[l[q]].refcnt != 0
  }

  /** Position `p` of `l` is the free slot nearest the tail. */
  predicate LastFree(slots: seq<Buf>, l: seq<nat>, p: nat)
    requires forall q :: 0 <= q < |l| ==> l[q] < |slots|
  {
    && p < |l|
    && slots[l[p]].refcnt == 0
    && forall q :: p < q < |l| ==> slots[l[q]].refcnt != 0
  }

  /** Bucket `b` is the first bucket other than `h`, in increasing index order, with a free slot. */
  predicate FirstDonor(c: Cache, h: nat, b: nat)
    requires WellIndexed(c)
  {
    && b < BUCKETS
    && b != h
    && !NoFree(c.slots, c.buckets[b])
    && forall b' :: 0 <= b' < b && b' != h ==> NoFree(c.slots, c.buckets[b'])
  }

  /** The head-to-tail scan of one bucket for a cached copy of (dev, blockno). */
  function FindKey(slots: seq<Buf>, l: seq<nat>, dev: nat, blockno: nat): (r: Option<nat>)
    requires forall q :: 0 <= q < |l| ==> l[q] < |slots|
    ensures r.Some? ==> FirstWithKey(slots, l, r.value, dev, blockno)
    ensures r.None? ==> !KeyIn(slots, l, dev, blockno)
  {
    if |l| == 0 then None
    else if HasKey(slots[l[0]], dev, blockno) then Some(0)
    else match FindKey(slots, l[1..], dev, blockno)
      case None => None
      case Some(p) => Some(p + 1)
  }

  /** The tail-to-head scan of one bucket for a slot with refcnt == 0. */
  function FindFree(slots: seq<Buf>, l: seq<nat>): (r: Option<nat>)
    requires forall q :: 0 <= q < |l| ==> l[q] < |slots|
    ensures r.Some? ==> LastFree(slots, l, r.value)
    ensures r.None? ==> NoFree(slots, l)
  {
    if |l| == 0 then None
    else if slots[l[|l| - 1]].refcnt == 0 then Some(|l| - 1)
    else FindFree(slots, l[..|l| - 1])
  }

  /** The scan of buckets b, b+1, ..., BUCKETS-1, skipping `h`, for a free slot to migrate. */
  function FindDonor(c: Cache, h: nat, b: nat): (r: Option<(nat, nat)>)
    requires WellIndexed(c) && b <= BUCKETS
    requires forall b' :: 0 <= b' < b && b' != h ==> NoFree(c.slots, c.buckets[b'])
    ensures r.Some? ==> FirstDonor(c, h, r.value.0) && LastFree(c.slots, c.buckets[r.value.0], r.value.1)
    ensures r.None? ==> forall b' :: 0 <= b' < BUCKETS && b' != h ==> NoFree(c.slots, c.buckets[b'])
    decreases BUCKETS - b
  {
    if b == BUCKETS then None
    else if b == h then FindDonor(c, h, b + 1)
    else match FindFree(c.slots, c.buckets[b])
      case Some(p) => Some((b, p))
      case None => FindDonor(c, h, b + 1)
  }

  /** A free slot repurposed for (dev, blockno): contents invalid, one reference. */
  function Claim(s: Buf, dev: nat, blockno: nat): Buf
  {
    s.(dev := dev, blockno := blockno, valid := false, refcnt := 1)
  }

  /**
   bget without its final acquiresleep: find or claim a slot for (dev, blockno)
   and take a reference to it.
   */
  function Bget(c: Cache, dev: nat, blockno: nat): (r: GetResult)
    requires WellIndexed(c)
    // "bget: no buffers" exactly when the block is not cached and every slot of every bucket is referenced
    ensures r.NoBuffers? <==>
      && !KeyIn(c.slots, c.buckets[blockno % BUCKETS], dev, blockno)
      && forall b :: 0 <= b < BUCKETS ==> NoFree(c.slots, c.buckets[b])
    // the returned slot holds the block; no other slot and not the device change
    ensures r.Got? ==>
      && WellIndexed(r.c)
      && r.i < |c.slots| == |r.c.slots|
      && HasKey(r.c.slots[r.i], dev, blockno)
      && r.c.slots[r.i].refcnt >= 1
      && r.c.slots[r.i].holder == c.slots[r.i].holder
      && r.c.slots[r.i].data == c.slots[r.i].data
      && (forall j :: 0 <= j < |c.slots| && j != r.i ==> r.c.slots[j] == c.slots[j])
      && r.c.disk == c.disk && r.c.diskReads == c.diskReads && r.c.diskWrites == c.diskWrites
    // hit: the first match from the head gains one reference; no list changes
    ensures KeyIn(c.slots, c.buckets[blockno % BUCKETS], dev, blockno) ==>
      && r.Got?
      && r.c.buckets == c.buckets
      && r.c.slots[r.i] == c.slots[r.i].(refcnt := c.slots[r.i].refcnt + 1)
      && exists p: nat :: FirstWithKey(c.slots, c.buckets[blockno % BUCKETS], p, dev, blockno)
                     && c.buckets[blockno % BUCKETS][p] == r.i
    // local miss: the free slot nearest the tail of the own bucket is reused in place
    ensures !KeyIn(c.slots, c.buckets[blockno % BUCKETS], dev, blockno)
            && !NoFree(c.slots, c.buckets[blockno % BUCKETS]) ==>
      && r.Got?
      && r.c.buckets == c.buckets
      && r.c.slots[r.i] == Claim(c.slots[r.i], dev, blockno)
      && exists p: nat :: LastFree(c.slots, c.buckets[blockno % BUCKETS], p)
                     && c.buckets[blockno % BUCKETS][p] == r.i
    // remote miss: the free slot nearest the tail of the first donor bucket moves to the own bucket's head
    ensures !KeyIn(c.slots, c.buckets[blockno % BUCKETS], dev, blockno)
            && NoFree(c.slots, c.buckets[blockno % BUCKETS]) && r.Got? ==>
      && r.c.slots[r.i] == Claim(c.slots[r.i], dev, blockno)
      && exists b: nat, p: nat :: FirstDonor(c, blockno % BUCKETS, b) && LastFree(c.slots, c.buckets[b], p)
                        && c.buckets[b][p] == r.i
                        && r.c.buckets == c.buckets[b := RemoveAt(c.buckets[b], p)]
                                                   [blockno % BUCKETS := [r.i] + c.buckets[blockno % BUCKETS]]
  {
    var h := blockno % BUCKETS;
    match FindKey(c.slots, c.buckets[h], dev, blockno)
    case Some(p) =>
      var i := c.buckets[h][p];
      Got(c.(slots := c.slots[i := c.slots[i].(refcnt := c.slots[i].refcnt + 1)]), i)
    case None =>
      match FindFree(c.slots, c.buckets[h])
      case Some(p) =>
        var i := c.buckets[h][p];
        Got(c.(slots := c.slots[i := Claim(c.slots[i], dev, blockno)]), i)
      case None =>
        match FindDonor(c, h, 0)
        case None => NoBuffers
        case Some(bp) => Got(Migrate(c, h, bp.0, bp.1, dev, blockno), c.buckets[bp.0][bp.1])
  }

  /**
   bget's remote miss: the slot at position `p` of bucket `b` is unlinked
   there, claimed for (dev, blockno) and inserted at the head of bucket `h`.
   */
  function Migrate(c: Cache, h: nat, b: nat, p: nat, dev: nat, blockno: nat): (r: Cache)
    requires WellIndexed(c) && h < BUCKETS && b < BUCKETS && p < |c.buckets[b]|
    ensures WellIndexed(r)
  {
    var i := c.buckets[b][p];
    var unlinked := c.buckets[b := RemoveAt(c.buckets[b], p)];
    c.(slots := c.slots[i := Claim(c.slots[i], dev, blockno)], buckets := unlinked[h := [i] + unlinked[h]])
  }

  /**
   acquiresleep on slot `i` by process `pid`, then bread's check: an invalid
   slot is filled by one device read and marked valid.  `None` means the lock
   is held and the caller sleeps (it repeats this step once woken).
   */
  function LockAndFill(c: Cache, i: nat, pid: Pid): (r: Option<Cache>)
    requires i < |c.slots|
    ensures r.None? <==> c.slots[i].holder.Some?
    ensures r.Some? ==>
      && |r.value.slots| == |c.slots|
      && r.value.buckets == c.buckets && r.value.disk == c.disk && r.value.diskWrites == c.diskWrites
      && r.value.slots[i].holder == Some(pid)
      && r.value.slots[i].valid
      && r.value.slots[i].KeyOf() == c.slots[i].KeyOf()
      && r.value.slots[i].refcnt == c.slots[i].refcnt
      && (forall j :: 0 <= j < |c.slots| && j != i ==> r.value.slots[j] == c.slots[j])
      // exactly one device read, of this slot's block, iff the slot was invalid
      && (c.slots[i].valid ==> r.value.diskReads == c.diskReads && r.value.slots[i].data == c.slots[i].data)
      && (!c.slots[i].valid ==> r.value.diskReads == c.diskReads + 1
                                && r.value.slots[i].data == DiskRead(c.disk, c.slots[i].KeyOf()))
  {
    var s := c.slots[i];
    if s.holder.Some? then None
    else if s.valid then Some(c.(slots := c.slots[i := s.(holder := Some(pid))]))
    else
      Some(c.(slots := c.slots[i := s.(holder := Some(pid), valid := true, data := DiskRead(c.disk, s.KeyOf()))],
              diskReads := c.diskReads + 1))
  }

  /** bread: bget, the sleep lock, and a device read when the slot is not valid. */
  function Bread(c: Cache, dev: nat, blockno: nat, pid: Pid): (r: ReadResult)
    requires WellIndexed(c)
    ensures r.ReadPanic? <==> Bget(c, dev, blockno).NoBuffers?
    ensures r.ReadSleeps? ==> Bget(c, dev, blockno) == Got(r.c, r.i) && r.c.slots[r.i].holder.Some?
    ensures r.ReadDone? ==>
      && r.i < |c.slots| == |r.c.slots| && WellIndexed(r.c)
      && HasKey(r.c.slots[r.i], dev, blockno)
      && r.c.slots[r.i].valid && r.c.slots[r.i].holder == Some(pid)
      && r.c.disk == c.disk
      // one device read unless bget hit a slot that was already valid
      && r.c.diskReads == c.diskReads +
           (if KeyIn(c.slots, c.buckets[blockno % BUCKETS], dev, blockno) && c.slots[r.i].valid then 0 else 1)
  {
    match Bget(c, dev, blockno)
    case NoBuffers => ReadPanic
    case Got(c1, i) =>
      match LockAndFill(c1, i, pid)
      case None => ReadSleeps(c1, i)
      case Some(c2) => ReadDone(c2, i)
  }

  /** bwrite: panics unless `pid` holds the slot's sleep lock, else writes the slot to its block. */
  function Bwrite(c: Cache, i: nat, pid: Pid): (r: Outcome)
    requires i < |c.slots|
    ensures r.Panic? <==> c.slots[i].holder != Some(pid)
    ensures r.Ok? ==>
      && r.c.slots == c.slots && r.c.buckets == c.buckets && r.c.diskReads == c.diskReads
      && r.c.diskWrites == c.diskWrites + 1
      && DiskRead(r.c.disk, c.slots[i].KeyOf()) == c.slots[i].data
      && forall k :: k != c.slots[i].KeyOf() ==> DiskRead(r.c.disk, k) == DiskRead(c.disk, k)
  {
    if c.slots[i].holder != Some(pid) then Panic("bwrite")
    else Ok(c.(disk := c.disk[c.slots[i].KeyOf() := c.slots[i].data], diskWrites := c.diskWrites + 1))
  }

  /** Every bucket list with `i` unlinked. */
  function Unlink(bs: seq<seq<nat>>, i: nat): (r: seq<seq<nat>>)
    ensures |r| == |bs|
    ensures forall b :: 0 <= b < |bs| ==> r[b] == Without(bs[b], i)
  {
    seq(|bs|, b requires 0 <= b < |bs| => Without(bs[b], i))
  }

  /** Unlink slot `i` and insert it at the head of bucket `h`. */
  function MoveToHead(bs: seq<seq<nat>>, h: nat, i: nat): (r: seq<seq<nat>>)
    requires h < |bs|
    ensures |r| == |bs|
    ensures r[h] == [i] + Without(bs[h], i)
    ensures forall b :: 0 <= b < |bs| && b != h ==> r[b] == Without(bs[b], i)
  {
    var u := Unlink(bs, i);
    u[h := [i] + u[h]]
  }

  /**
   brelse: panics unless `pid` holds the sleep lock; otherwise releases it and
   drops one reference.  When the last reference goes, the slot moves to the
   head of the bucket its block number hashes to.
   */
  function Brelse(c: Cache, i: nat, pid: Pid): (r: Outcome)
    requires WellIndexed(c) && i < |c.slots|
    // a holder always owns the reference it took in bget
    requires c.slots[i].holder == Some(pid) ==> c.slots[i].refcnt >= 1
    ensures r.Panic? <==> c.slots[i].holder != Some(pid)
    ensures r.Ok? ==>
      && WellIndexed(r.c) && |r.c.slots| == |c.slots|
      && r.c.slots[i] == c.slots[i].(holder := None, refcnt := c.slots[i].refcnt - 1)
      && (forall j :: 0 <= j < |c.slots| && j != i ==> r.c.slots[j] == c.slots[j])
      && r.c.disk == c.disk && r.c.diskReads == c.diskReads && r.c.diskWrites == c.diskWrites
      && (r.c.slots[i].refcnt > 0 ==> r.c.buckets == c.buckets)
      && (r.c.slots[i].refcnt == 0 ==>
            && r.c.buckets[c.slots[i].Home()] == [i] + Without(c.buckets[c.slots[i].Home()], i)
            && forall b :: 0 <= b < BUCKETS && b != c.slots[i].Home() ==> r.c.buckets[b] == Without(c.buckets[b], i))
  {
    if c.slots[i].holder != Some(pid) then Panic("brelse")
    else
      var s := c.slots[i].(holder := None, refcnt := c.slots[i].refcnt - 1);
      var bs := if s.refcnt == 0 then MoveToHead(c.buckets, s.Home(), i) else c.buckets;
      assert forall b, p :: 0 <= b < |bs| && 0 <= p < |bs[b]| ==> bs[b][p] in c.buckets[b] || bs[b][p] == i;
      Ok(c.(slots := c.slots[i := s], buckets := bs))
  }

  /** bpin: one more reference, nothing else changes. */
  function Bpin(c: Cache, i: nat): (r: Cache)
    requires i < |c.slots|
    ensures |r.slots| == |c.slots| && r.buckets == c.buckets && r.disk == c.disk
    ensures r.slots[i].refcnt == c.slots[i].refcnt + 1
    ensures r.slots[i].(refcnt := 0) == c.slots[i].(refcnt := 0)
    ensures forall j :: 0 <= j < |c.slots| && j != i ==> r.slots[j] == c.slots[j]
  {
    c.(slots := c.slots[i := c.slots[i].(refcnt := c.slots[i].refcnt + 1)])
  }

  /** bunpin: one reference fewer, nothing else changes. */
  function Bunpin(c: Cache, i: nat): (r: Cache)
    requires i < |c.slots|
    // the source's unsigned counter would wrap below zero
    requires c.slots[i].refcnt >= 1
    ensures |r.slots| == |c.slots| && r.buckets == c.buckets && r.disk == c.disk
    ensures r.slots[i].refcnt + 1 == c.slots[i].refcnt
    ensures r.slots[i].(refcnt := 0) == c.slots[i].(refcnt := 0)
    ensures forall j :: 0 <= j < |c.slots| && j != i ==> r.slots[j] == c.slots[j]
  {
    c.(slots := c.slots[i := c.slots[i].(refcnt := c.slots[i].refcnt - 1)])
  }

  /** Every listed slot sits in the bucket its block number hashes to. */
  predicate InHome(c: Cache)
    requires WellIndexed(c)
  {
    forall b, p :: 0 <= b < BUCKETS && 0 <= p < |c.buckets[b]| ==> c.slots[c.buckets[b][p]].Home() == b
  }

  /** Every slot is listed in the bucket its block number hashes to. */
  predicate AllListed(c: Cache)
    requires WellIndexed(c)
  {
    forall j :: 0 <= j < |c.slots| ==> j in c.buckets[c.slots[j].Home()]
  }

  /** No bucket lists a slot twice. */
  predicate Simple(c: Cache)
    requires WellIndexed(c)
  {
    forall b :: 0 <= b < BUCKETS ==> NoDup(c.buckets[b])
  }

  /** The holder of a sleep lock owns a reference and sees valid contents. */
  predicate HoldersOk(c: Cache)
  {
    forall j :: 0 <= j < |c.slots| && c.slots[j].holder.Some? ==> c.slots[j].refcnt >= 1 && c.slots[j].valid
  }

  /**
   Behind the first slot of a bucket that holds a key, every other slot with
   the same key is dead.  (binit gives every slot the key (0, 0), so keys are
   not unique outright.)
   */
  predicate ShadowedDead(c: Cache)
    requires WellIndexed(c)
  {
    forall b, p, q ::
      0 <= b < BUCKETS && 0 <= p < q < |c.buckets[b]|
      && c.slots[c.buckets[b][p]].KeyOf() == c.slots[c.buckets[b][q]].KeyOf()
      ==> c.slots[c.buckets[b][q]].Dead()
  }

  /** The invariant every operation preserves. */
  predicate Inv(c: Cache)
  {
    && WellIndexed(c)
    && InHome(c)
    && AllListed(c)
    && Simple(c)
    && HoldersOk(c)
    && ShadowedDead(c)
  }

  /** The statically zeroed slot: key (0, 0), not valid, unreferenced, unlocked. */
  const ZeroBuf: Buf := Buf(0, 0, false, 0, None, ZeroBlock())

  /**
   binit: all buckets empty, then every slot, in array order, inserted at the
   head of bucket 0.
   */
  method Binit(disk: map<Key, Block>) returns (c: Cache)
    ensures WellIndexed(c)
    ensures |c.slots| == NBUF && forall j :: 0 <= j < NBUF ==> c.slots[j] == ZeroBuf
    ensures |c.buckets[0]| == NBUF
    ensures forall p :: 0 <= p < NBUF ==> c.buckets[0][p] == NBUF - 1 - p
    ensures forall b :: 1 <= b < BUCKETS ==> c.buckets[b] == []
    ensures c.disk == disk && c.diskReads == 0 && c.diskWrites == 0
    ensures Inv(c)
  {
    var buckets: seq<seq<nat>> := seq(BUCKETS, _ => []);
    var k := 0;
    while k < NBUF
      invariant 0 <= k <= NBUF && |buckets| == BUCKETS
      invariant |buckets[0]| == k
      invariant forall p :: 0 <= p < k ==> buckets[0][p] == k - 1 - p
      invariant forall b :: 1 <= b < BUCKETS ==> buckets[b] == []
    {
      buckets := buckets[0 := [k] + buckets[0]];
      k := k + 1;
    }
    c := Cache(seq(NBUF, _ => ZeroBuf), buckets, disk, 0, 0);
    forall j | 0 <= j < NBUF
      ensures j in c.buckets[c.slots[j].Home()]
    {
      assert c.buckets[0][NBUF - 1 - j] == j;
    }
  }
}
