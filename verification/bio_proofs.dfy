/**
 Proofs about the buffer cache of kernel/bio.c: every transition keeps the
 invariant `Inv` (each slot listed exactly once, in the bucket its block
 number hashes to; a holder owns a reference; a slot shadowed by an earlier
 slot with the same key is dead), conserves the set of slots across the
 buckets, and, as consequences, no two live slots cache the same block and a
 block written with bwrite is read back by a later bread.
 */
module BufferCacheProofs {
  import opened Collections
  import opened BufferCache

  /** Under the invariant a slot index is listed at one position of one bucket only. */
  lemma ListedOnce(c: Cache, b: nat, y: nat, h: nat, p: nat)
    requires Inv(c) && b < BUCKETS && h < BUCKETS && y < |c.buckets[b]| && p < |c.buckets[h]|
    ensures c.buckets[b][y] == c.buckets[h][p] ==> b == h && y == p
  {
  }

  /** Bucket `h` at position `p` lists slot `i`, which is found nowhere else. */
  lemma ListedAt(c: Cache, i: nat) returns (p: nat)
    requires Inv(c) && i < |c.slots|
    ensures p < |c.buckets[c.slots[i].Home()]| && c.buckets[c.slots[i].Home()][p] == i
    ensures forall b :: 0 <= b < BUCKETS && b != c.slots[i].Home() ==> i !in c.buckets[b]
  {
    var h := c.slots[i].Home();
    assert i in c.buckets[h];
    p :| 0 <= p < |c.buckets[h]| && c.buckets[h][p] == i;
  }

  // ---------------------------------------------------------------------
  // bget

  /** A hit adds one reference to the first slot holding the key. */
  lemma HitKeepsInv(c: Cache, c': Cache, h: nat, p: nat)
    requires Inv(c) && h < BUCKETS && p < |c.buckets[h]|
    requires forall q :: 0 <= q < p ==> c.slots[c.buckets[h][q]].KeyOf() != c.slots[c.buckets[h][p]].KeyOf()
    requires c'.buckets == c.buckets && |c'.slots| == |c.slots|
    requires c'.slots[c.buckets[h][p]] == c.slots[c.buckets[h][p]].(refcnt := c.slots[c.buckets[h][p]].refcnt + 1)
    requires forall j :: 0 <= j < |c.slots| && j != c.buckets[h][p] ==> c'.slots[j] == c.slots[j]
    ensures Inv(c')
  {
    assert forall j :: 0 <= j < |c.slots| ==> c'.slots[j].KeyOf() == c.slots[j].KeyOf();
    forall b, x, y | 0 <= b < BUCKETS && 0 <= x < y < |c'.buckets[b]|
        && c'.slots[c'.buckets[b][x]].KeyOf() == c'.slots[c'.buckets[b][y]].KeyOf()
      ensures c'.slots[c'.buckets[b][y]].Dead()
    {
      ListedOnce(c, b, y, h, p);
    }
  }

  /** A local miss repurposes a free slot of the home bucket in place. */
  lemma ClaimKeepsInv(c: Cache, c': Cache, h: nat, p: nat, dev: nat, blockno: nat)
    requires Inv(c) && h == blockno % BUCKETS && p < |c.buckets[h]|
    requires c.slots[c.buckets[h][p]].refcnt == 0
    requires !KeyIn(c.slots, c.buckets[h], dev, blockno)
    requires c'.buckets == c.buckets && |c'.slots| == |c.slots|
    requires c'.slots[c.buckets[h][p]] == Claim(c.slots[c.buckets[h][p]], dev, blockno)
    requires forall j :: 0 <= j < |c.slots| && j != c.buckets[h][p] ==> c'.slots[j] == c.slots[j]
    ensures Inv(c')
  {
    var i := c.buckets[h][p];
    forall b, y | 0 <= b < BUCKETS && 0 <= y < |c'.buckets[b]|
      ensures c'.slots[c'.buckets[b][y]].Home() == b
    {
      ListedOnce(c, b, y, h, p);
    }
    assert c'.buckets[h][p] == i;
    forall b, x, y | 0 <= b < BUCKETS && 0 <= x < y < |c'.buckets[b]|
        && c'.slots[c'.buckets[b][x]].KeyOf() == c'.slots[c'.buckets[b][y]].KeyOf()
      ensures c'.slots[c'.buckets[b][y]].Dead()
    {
      ListedOnce(c, b, x, h, p);
      ListedOnce(c, b, y, h, p);
    }
  }

  /** c' is c after the remote-miss path moved slot c.buckets[b0][p0] to the head of the home bucket. */
  predicate MigrateStep(c: Cache, c': Cache, b0: nat, p0: nat, dev: nat, blockno: nat)
  {
    && Inv(c) && b0 < BUCKETS && b0 != blockno % BUCKETS && p0 < |c.buckets[b0]|
    && c.slots[c.buckets[b0][p0]].refcnt == 0
    && !KeyIn(c.slots, c.buckets[blockno % BUCKETS], dev, blockno)
    && |c'.slots| == |c.slots|
    && c'.buckets == c.buckets[b0 := RemoveAt(c.buckets[b0], p0)]
                              [blockno % BUCKETS := [c.buckets[b0][p0]] + c.buckets[blockno % BUCKETS]]
    && c'.slots[c.buckets[b0][p0]] == Claim(c.slots[c.buckets[b0][p0]], dev, blockno)
    && forall j :: 0 <= j < |c.slots| && j != c.buckets[b0][p0] ==> c'.slots[j] == c.slots[j]
  }

  /** After a migration every entry is in range and sits in its home bucket. */
  lemma MigrateKeepsHomes(c: Cache, c': Cache, b0: nat, p0: nat, dev: nat, blockno: nat)
    requires MigrateStep(c, c', b0, p0, dev, blockno)
    ensures WellIndexed(c') && InHome(c')
  {
    var h := blockno % BUCKETS;
    var i := c.buckets[b0][p0];
    var l0 := c.buckets[b0];
    var lh := c.buckets[h];
    assert c'.buckets[h] == [i] + lh;
    assert c'.buckets[b0] == RemoveAt(l0, p0);
    forall b, y | 0 <= b < BUCKETS && 0 <= y < |c'.buckets[b]|
      ensures c'.buckets[b][y] < |c'.slots|
      ensures c'.slots[c'.buckets[b][y]].Home() == b
    {
      if b == h {
        if y > 0 {
          assert c'.buckets[b][y] == lh[y - 1];
          ListedOnce(c, h, y - 1, b0, p0);
        }
      } else if b == b0 {
        var y' := if y < p0 then y else y + 1;
        assert c'.buckets[b][y] == l0[y'] && y' != p0;
        ListedOnce(c, b0, y', b0, p0);
      } else {
        assert c'.buckets[b] == c.buckets[b];
        ListedOnce(c, b, y, b0, p0);
      }
    }
  }

  /** After a migration every slot is listed in its home bucket. */
  lemma MigrateKeepsAllListed(c: Cache, c': Cache, b0: nat, p0: nat, dev: nat, blockno: nat)
    requires MigrateStep(c, c', b0, p0, dev, blockno)
    requires WellIndexed(c')
    ensures AllListed(c')
  {
    var h := blockno % BUCKETS;
    var i := c.buckets[b0][p0];
    assert c'.buckets[h] == [i] + c.buckets[h];
    assert c.slots[i].Home() == b0;
    forall j | 0 <= j < |c'.slots|
      ensures j in c'.buckets[c'.slots[j].Home()]
    {
      if j != i && c.slots[j].Home() == b0 {
        RemoveAtKeeps(c.buckets[b0], p0, j);
      }
    }
  }

  /** After a migration no bucket lists a slot twice. */
  lemma MigrateKeepsSimple(c: Cache, c': Cache, b0: nat, p0: nat, dev: nat, blockno: nat)
    requires MigrateStep(c, c', b0, p0, dev, blockno)
    requires WellIndexed(c')
    ensures Simple(c')
  {
    var h := blockno % BUCKETS;
    var i := c.buckets[b0][p0];
    var lh := c.buckets[h];
    assert c'.buckets[h] == [i] + lh;
    assert c.slots[i].Home() == b0;
    assert i !in lh;
    RemoveAtNoDup(c.buckets[b0], p0);
    forall b | 0 <= b < BUCKETS ensures NoDup(c'.buckets[b]) {
      if b != h && b != b0 {
        assert c'.buckets[b] == c.buckets[b];
      }
    }
  }

  /** After a migration shadowed slots are still dead. */
  lemma MigrateKeepsShadowedDead(c: Cache, c': Cache, b0: nat, p0: nat, dev: nat, blockno: nat)
    requires MigrateStep(c, c', b0, p0, dev, blockno)
    requires WellIndexed(c')
    ensures ShadowedDead(c')
  {
    var h := blockno % BUCKETS;
    var i := c.buckets[b0][p0];
    var l0 := c.buckets[b0];
    var lh := c.buckets[h];
    assert c.slots[i].Home() == b0;
    assert i !in lh;
    forall b, x, y | 0 <= b < BUCKETS && 0 <= x < y < |c'.buckets[b]|
        && c'.slots[c'.buckets[b][x]].KeyOf() == c'.slots[c'.buckets[b][y]].KeyOf()
      ensures c'.slots[c'.buckets[b][y]].Dead()
    {
      if b == h {
        assert c'.buckets[b][y] == lh[y - 1];
        if x > 0 {
          assert c'.buckets[b][x] == lh[x - 1];
        }
      } else if b == b0 {
        var x' := if x < p0 then x else x + 1;
        var y' := if y < p0 then y else y + 1;
        assert c'.buckets[b][x] == l0[x'] && c'.buckets[b][y] == l0[y'];
      } else {
        assert c'.buckets[b] == c.buckets[b];
      }
    }
  }

  lemma MigrateKeepsInv(c: Cache, c': Cache, b0: nat, p0: nat, dev: nat, blockno: nat)
    requires MigrateStep(c, c', b0, p0, dev, blockno)
    ensures Inv(c') && Union(c'.buckets) == Union(c.buckets)
  {
    MigrateKeepsHomes(c, c', b0, p0, dev, blockno);
    MigrateKeepsAllListed(c, c', b0, p0, dev, blockno);
    MigrateKeepsSimple(c, c', b0, p0, dev, blockno);
    MigrateKeepsShadowedDead(c, c', b0, p0, dev, blockno);
    UnionMove(c.buckets, b0, p0, blockno % BUCKETS);
  }

  /** bget's remote miss keeps the invariant and moves one slot between buckets. */
  lemma RemoteMissKeepsInv(c: Cache, dev: nat, blockno: nat)
    requires Inv(c) && Bget(c, dev, blockno).Got?
    requires !KeyIn(c.slots, c.buckets[blockno % BUCKETS], dev, blockno)
    requires NoFree(c.slots, c.buckets[blockno % BUCKETS])
    ensures Inv(Bget(c, dev, blockno).c) && Union(Bget(c, dev, blockno).c.buckets) == Union(c.buckets)
  {
    var r := Bget(c, dev, blockno);
    var h := blockno % BUCKETS;
    var b: nat, p: nat :| FirstDonor(c, h, b) && LastFree(c.slots, c.buckets[b], p)
                          && c.buckets[b][p] == r.i
                          && r.c.buckets == c.buckets[b := RemoveAt(c.buckets[b], p)][h := [r.i] + c.buckets[h]];
    MigrateKeepsInv(c, r.c, b, p, dev, blockno);
  }

  /** bget's hit keeps the invariant and the lists. */
  lemma HitCaseKeepsInv(c: Cache, dev: nat, blockno: nat)
    requires Inv(c) && KeyIn(c.slots, c.buckets[blockno % BUCKETS], dev, blockno)
    ensures Bget(c, dev, blockno).Got?
    ensures Inv(Bget(c, dev, blockno).c) && Bget(c, dev, blockno).c.buckets == c.buckets
  {
    var r := Bget(c, dev, blockno);
    var h := blockno % BUCKETS;
    var p: nat :| FirstWithKey(c.slots, c.buckets[h], p, dev, blockno) && c.buckets[h][p] == r.i;
    HitKeepsInv(c, r.c, h, p);
  }

  /** bget's local miss keeps the invariant and the lists. */
  lemma LocalMissKeepsInv(c: Cache, dev: nat, blockno: nat)
    requires Inv(c) && !KeyIn(c.slots, c.buckets[blockno % BUCKETS], dev, blockno)
    requires !NoFree(c.slots, c.buckets[blockno % BUCKETS])
    ensures Bget(c, dev, blockno).Got?
    ensures Inv(Bget(c, dev, blockno).c) && Bget(c, dev, blockno).c.buckets == c.buckets
  {
    var r := Bget(c, dev, blockno);
    var h := blockno % BUCKETS;
    var p: nat :| LastFree(c.slots, c.buckets[h], p) && c.buckets[h][p] == r.i;
    ClaimKeepsInv(c, r.c, h, p, dev, blockno);
  }

  /** bget keeps the invariant, and the slots only move between buckets. */
  lemma BgetKeepsInv(c: Cache, dev: nat, blockno: nat)
    requires Inv(c)
    ensures Bget(c, dev, blockno).Got? ==>
      Inv(Bget(c, dev, blockno).c) && Union(Bget(c, dev, blockno).c.buckets) == Union(c.buckets)
  {
    var h := blockno % BUCKETS;
    if KeyIn(c.slots, c.buckets[h], dev, blockno) {
      HitCaseKeepsInv(c, dev, blockno);
    } else if !NoFree(c.slots, c.buckets[h]) {
      LocalMissKeepsInv(c, dev, blockno);
    } else if Bget(c, dev, blockno).Got? {
      RemoteMissKeepsInv(c, dev, blockno);
    }
  }

  // ---------------------------------------------------------------------
  // the sleep lock and bread's device read

  /** Locking (and filling) a slot the caller holds a reference to keeps the invariant. */
  lemma LockAndFillKeepsInv(c: Cache, i: nat, pid: Pid)
    requires Inv(c) && i < |c.slots| && c.slots[i].refcnt >= 1
    ensures LockAndFill(c, i, pid).Some? ==> Inv(LockAndFill(c, i, pid).value)
  {
    var r := LockAndFill(c, i, pid);
    if r.Some? {
      var c' := r.value;
      assert forall j :: 0 <= j < |c.slots| ==> c'.slots[j].KeyOf() == c.slots[j].KeyOf();
    }
  }

  // ---------------------------------------------------------------------
  // brelse

  /** c' is c after brelse dropped the last reference to c.buckets[h][p] and moved it to the head. */
  predicate MoveStep(c: Cache, c': Cache, h: nat, p: nat)
  {
    && Inv(c) && h < BUCKETS && p < |c.buckets[h]|
    && c.slots[c.buckets[h][p]].refcnt >= 1
    && c'.buckets == c.buckets[h := [c.buckets[h][p]] + RemoveAt(c.buckets[h], p)]
    && |c'.slots| == |c.slots|
    && c'.slots[c.buckets[h][p]] == c.slots[c.buckets[h][p]].(holder := None, refcnt := 0)
    && forall j :: 0 <= j < |c.slots| && j != c.buckets[h][p] ==> c'.slots[j] == c.slots[j]
  }

  lemma MoveKeepsHomes(c: Cache, c': Cache, h: nat, p: nat)
    requires MoveStep(c, c', h, p)
    ensures WellIndexed(c') && InHome(c')
  {
    var i := c.buckets[h][p];
    var l := c.buckets[h];
    var r := RemoveAt(l, p);
    assert c'.buckets[h] == [i] + r;
    forall b, y | 0 <= b < BUCKETS && 0 <= y < |c'.buckets[b]|
      ensures c'.buckets[b][y] < |c'.slots|
      ensures c'.slots[c'.buckets[b][y]].Home() == b
    {
      if b == h && y > 0 {
        assert c'.buckets[b][y] == l[if y - 1 < p then y - 1 else y];
      }
    }
  }

  lemma MoveKeepsListing(c: Cache, c': Cache, h: nat, p: nat)
    requires MoveStep(c, c', h, p)
    requires WellIndexed(c')
    ensures AllListed(c') && Simple(c')
  {
    var i := c.buckets[h][p];
    var l := c.buckets[h];
    assert c'.buckets[h] == [i] + RemoveAt(l, p);
    forall j | 0 <= j < |c'.slots|
      ensures j in c'.buckets[c'.slots[j].Home()]
    {
      if j != i && c.slots[j].Home() == h {
        RemoveAtKeeps(l, p, j);
      }
    }
    RemoveAtNoDup(l, p);
  }

  /** In the home bucket after the move, a slot shadowed by an earlier one with its key is dead. */
  lemma MoveShadowedInHome(c: Cache, c': Cache, h: nat, p: nat, x: nat, y: nat)
    requires MoveStep(c, c', h, p) && WellIndexed(c')
    requires x < y < |c'.buckets[h]|
    requires c'.slots[c'.buckets[h][x]].KeyOf() == c'.slots[c'.buckets[h][y]].KeyOf()
    ensures c'.slots[c'.buckets[h][y]].Dead()
  {
    var l := c.buckets[h];
    assert c'.buckets[h] == [l[p]] + RemoveAt(l, p);
    var y' := if y - 1 < p then y - 1 else y;
    assert c'.buckets[h][y] == l[y'] && y' != p;
    if x > 0 {
      var x' := if x - 1 < p then x - 1 else x;
      assert c'.buckets[h][x] == l[x'] && x' != p && x' < y';
    } else {
      assert c'.buckets[h][x] == l[p];
    }
  }

  lemma MoveKeepsShadowedDead(c: Cache, c': Cache, h: nat, p: nat)
    requires MoveStep(c, c', h, p)
    requires WellIndexed(c')
    ensures ShadowedDead(c')
  {
    forall b, x, y | 0 <= b < BUCKETS && 0 <= x < y < |c'.buckets[b]|
        && c'.slots[c'.buckets[b][x]].KeyOf() == c'.slots[c'.buckets[b][y]].KeyOf()
      ensures c'.slots[c'.buckets[b][y]].Dead()
    {
      if b == h {
        MoveShadowedInHome(c, c', h, p, x, y);
      }
    }
  }

  /** Dropping the last reference is the move of the slot to the head of its home bucket. */
  lemma BrelseLastIsMove(c: Cache, i: nat, pid: Pid) returns (p: nat)
    requires Inv(c) && i < |c.slots| && c.slots[i].holder == Some(pid) && c.slots[i].refcnt == 1
    ensures Brelse(c, i, pid).Ok? && MoveStep(c, Brelse(c, i, pid).c, c.slots[i].Home(), p)
    ensures c.buckets[c.slots[i].Home()][p] == i
  {
    var c' := Brelse(c, i, pid).c;
    var h := c.slots[i].Home();
    p := ListedAt(c, i);
    WithoutIsRemoveAt(c.buckets[h], p);
    forall b | 0 <= b < BUCKETS && b != h
      ensures c'.buckets[b] == c.buckets[b]
    {
      WithoutAbsent(c.buckets[b], i);
    }
    assert c'.buckets == c.buckets[h := [i] + RemoveAt(c.buckets[h], p)];
  }

  /** brelse by the holder succeeds, keeps the invariant, and moves no slot between buckets. */
  lemma BrelseKeepsInv(c: Cache, i: nat, pid: Pid)
    requires Inv(c) && i < |c.slots| && c.slots[i].holder == Some(pid)
    ensures Brelse(c, i, pid).Ok?
    ensures Inv(Brelse(c, i, pid).c) && Union(Brelse(c, i, pid).c.buckets) == Union(c.buckets)
  {
    var c' := Brelse(c, i, pid).c;
    var h := c.slots[i].Home();
    if c.slots[i].refcnt == 1 {
      var p := BrelseLastIsMove(c, i, pid);
      MoveKeepsHomes(c, c', h, p);
      MoveKeepsListing(c, c', h, p);
      MoveKeepsShadowedDead(c, c', h, p);
      UnionMoveToFront(c.buckets, h, p);
    } else {
      assert forall j :: 0 <= j < |c.slots| ==> c'.slots[j].KeyOf() == c.slots[j].KeyOf();
    }
  }

  // ---------------------------------------------------------------------
  // bpin / bunpin

  /** bpin of a slot the caller holds a reference to keeps the invariant. */
  lemma BpinKeepsInv(c: Cache, i: nat)
    requires Inv(c) && i < |c.slots| && c.slots[i].refcnt >= 1
    ensures Inv(Bpin(c, i))
  {
    var c' := Bpin(c, i);
    assert forall j :: 0 <= j < |c.slots| ==> c'.slots[j].KeyOf() == c.slots[j].KeyOf();
  }

  /** bunpin that undoes an earlier bpin keeps the invariant. */
  lemma BunpinKeepsInv(c: Cache, i: nat)
    requires Inv(c) && i < |c.slots| && c.slots[i].refcnt >= 1
    requires c.slots[i].holder.None? || c.slots[i].refcnt >= 2
    ensures Inv(Bunpin(c, i))
  {
    var c' := Bunpin(c, i);
    assert forall j :: 0 <= j < |c.slots| ==> c'.slots[j].KeyOf() == c.slots[j].KeyOf();
  }

  /** bunpin undoes bpin. */
  lemma BunpinUndoesBpin(c: Cache, i: nat)
    requires i < |c.slots|
    ensures Bunpin(Bpin(c, i), i) == c
  {
    assert Bunpin(Bpin(c, i), i).slots == c.slots;
  }

  // ---------------------------------------------------------------------
  // consequences of the invariant

  /** No two live slots (valid or referenced) cache the same block. */
  lemma LiveKeysUnique(c: Cache, i: nat, j: nat)
    requires Inv(c) && i < |c.slots| && j < |c.slots|
    requires !c.slots[i].Dead() && !c.slots[j].Dead()
    requires c.slots[i].KeyOf() == c.slots[j].KeyOf()
    ensures i == j
  {
    var p := ListedAt(c, i);
    var q := ListedAt(c, j);
    assert p == q;
  }

  /** bget panics exactly when no slot caches the block and every slot is referenced. */
  lemma BgetPanicsIffAllReferenced(c: Cache, dev: nat, blockno: nat)
    requires Inv(c)
    ensures Bget(c, dev, blockno).NoBuffers? <==>
      && (forall j :: 0 <= j < |c.slots| ==> !HasKey(c.slots[j], dev, blockno))
      && (forall j :: 0 <= j < |c.slots| ==> c.slots[j].refcnt > 0)
  {
    var h := blockno % BUCKETS;
    if Bget(c, dev, blockno).NoBuffers? {
      forall j | 0 <= j < |c.slots|
        ensures !HasKey(c.slots[j], dev, blockno) && c.slots[j].refcnt > 0
      {
        var p := ListedAt(c, j);
      }
    }
  }

  // ---------------------------------------------------------------------
  // the cache as used by its callers

  /** One step of a caller of the cache, as the file-system layer uses it. */
  datatype Op =
    | Read(dev: nat, blockno: nat, pid: Pid)   // bread, up to sleeping on the sleep lock
    | Resume(i: nat, pid: Pid)                  // a process asleep in bread acquires the lock and finishes
    | Write(i: nat, pid: Pid)                   // bwrite
    | Release(i: nat, pid: Pid)                 // brelse
    | Pin(i: nat)                               // bpin of a slot the caller holds
    | Unpin(i: nat)                             // bunpin undoing an earlier bpin
    | Update(i: nat, pid: Pid, d: Block)        // the holder overwrites the slot's contents

  /**
   The state after one step, or None when the step panics, would sleep, or is
   not one a disciplined caller makes.
   */
  function Next(c: Cache, op: Op): (r: Option<Cache>)
    requires WellIndexed(c)
    ensures r.Some? ==> WellIndexed(r.value) && |r.value.slots| == |c.slots|
  {
    match op
    case Read(dev, blockno, pid) =>
      (match Bread(c, dev, blockno, pid)
       case ReadPanic => None
       case ReadSleeps(c1, _) => Some(c1)
       case ReadDone(c2, _) => Some(c2))
    case Resume(i, pid) =>
      if i < |c.slots| && c.slots[i].refcnt >= 1 then LockAndFill(c, i, pid) else None
    case Write(i, pid) =>
      if i < |c.slots| then (match Bwrite(c, i, pid) case Panic(_) => None case Ok(c1) => Some(c1))
      else None
    case Release(i, pid) =>
      if i < |c.slots| && (c.slots[i].holder == Some(pid) ==> c.slots[i].refcnt >= 1) then
        (match Brelse(c, i, pid) case Panic(_) => None case Ok(c1) => Some(c1))
      else None
    case Pin(i) =>
      if i < |c.slots| && c.slots[i].refcnt >= 1 then Some(Bpin(c, i)) else None
    case Unpin(i) =>
      if i < |c.slots| && c.slots[i].refcnt >= 1 && (c.slots[i].holder.None? || c.slots[i].refcnt >= 2)
      then Some(Bunpin(c, i)) else None
    case Update(i, pid, d) =>
      if i < |c.slots| && c.slots[i].holder == Some(pid)
      then Some(c.(slots := c.slots[i := c.slots[i].(data := d)])) else None
  }

  /** A read step keeps the invariant and every slot in some bucket. */
  lemma ReadStepKeepsInv(c: Cache, dev: nat, blockno: nat, pid: Pid)
    requires Inv(c)
    ensures Next(c, Read(dev, blockno, pid)).Some? ==>
      Inv(Next(c, Read(dev, blockno, pid)).value) && Union(Next(c, Read(dev, blockno, pid)).value.buckets) == Union(c.buckets)
  {
    BgetKeepsInv(c, dev, blockno);
    var g := Bget(c, dev, blockno);
    if g.Got? {
      LockAndFillKeepsInv(g.c, g.i, pid);
    }
  }

  /** Overwriting the contents of a held slot changes no key, reference or list. */
  lemma UpdateStepKeepsInv(c: Cache, i: nat, pid: Pid, d: Block)
    requires Inv(c)
    ensures Next(c, Update(i, pid, d)).Some? ==>
      Inv(Next(c, Update(i, pid, d)).value) && Union(Next(c, Update(i, pid, d)).value.buckets) == Union(c.buckets)
  {
    if i < |c.slots| && c.slots[i].holder == Some(pid) {
      var c' := Next(c, Update(i, pid, d)).value;
      assert c' == c.(slots := c.slots[i := c.slots[i].(data := d)]);
      assert forall j :: 0 <= j < |c.slots| ==> c'.slots[j].KeyOf() == c.slots[j].KeyOf();
    }
  }

  /** Every step keeps the invariant and keeps every slot in some bucket. */
  lemma NextKeepsInv(c: Cache, op: Op)
    requires Inv(c)
    ensures Next(c, op).Some? ==>
      Inv(Next(c, op).value) && Union(Next(c, op).value.buckets) == Union(c.buckets)
  {
    match op
    case Read(dev, blockno, pid) => ReadStepKeepsInv(c, dev, blockno, pid);
    case Resume(i, pid) => ResumeStepKeepsInv(c, i, pid);
    case Write(i, pid) => WriteStepKeepsInv(c, i, pid);
    case Release(i, pid) => ReleaseStepKeepsInv(c, i, pid);
    case Pin(i) => PinStepKeepsInv(c, i);
    case Unpin(i) => UnpinStepKeepsInv(c, i);
    case Update(i, pid, d) => UpdateStepKeepsInv(c, i, pid, d);
  }

  lemma ResumeStepKeepsInv(c: Cache, i: nat, pid: Pid)
    requires Inv(c)
    ensures Next(c, Resume(i, pid)).Some? ==>
      Inv(Next(c, Resume(i, pid)).value) && Union(Next(c, Resume(i, pid)).value.buckets) == Union(c.buckets)
  {
    if i < |c.slots| && c.slots[i].refcnt >= 1 {
      LockAndFillKeepsInv(c, i, pid);
    }
  }

  lemma WriteStepKeepsInv(c: Cache, i: nat, pid: Pid)
    requires Inv(c)
    ensures Next(c, Write(i, pid)).Some? ==>
      Inv(Next(c, Write(i, pid)).value) && Union(Next(c, Write(i, pid)).value.buckets) == Union(c.buckets)
  {
  }

  lemma ReleaseStepKeepsInv(c: Cache, i: nat, pid: Pid)
    requires Inv(c)
    ensures Next(c, Release(i, pid)).Some? ==>
      Inv(Next(c, Release(i, pid)).value) && Union(Next(c, Release(i, pid)).value.buckets) == Union(c.buckets)
  {
    if i < |c.slots| && c.slots[i].holder == Some(pid) {
      BrelseKeepsInv(c, i, pid);
    }
  }

  lemma PinStepKeepsInv(c: Cache, i: nat)
    requires Inv(c)
    ensures Next(c, Pin(i)).Some? ==>
      Inv(Next(c, Pin(i)).value) && Union(Next(c, Pin(i)).value.buckets) == Union(c.buckets)
  {
    if i < |c.slots| && c.slots[i].refcnt >= 1 {
      BpinKeepsInv(c, i);
    }
  }

  lemma UnpinStepKeepsInv(c: Cache, i: nat)
    requires Inv(c)
    ensures Next(c, Unpin(i)).Some? ==>
      Inv(Next(c, Unpin(i)).value) && Union(Next(c, Unpin(i)).value.buckets) == Union(c.buckets)
  {
    if i < |c.slots| && c.slots[i].refcnt >= 1 && (c.slots[i].holder.None? || c.slots[i].refcnt >= 2) {
      BunpinKeepsInv(c, i);
    }
  }

  /** The state after a sequence of steps, or None if one of them cannot be taken. */
  function Run(c: Cache, ops: seq<Op>): (r: Option<Cache>)
    requires WellIndexed(c)
    ensures r.Some? ==> WellIndexed(r.value)
    decreases |ops|
  {
    if |ops| == 0 then Some(c)
    else match Next(c, ops[0])
      case None => None
      case Some(c1) => Run(c1, ops[1..])
  }

  lemma RunUnfold(c: Cache, ops: seq<Op>)
    requires WellIndexed(c) && |ops| > 0
    ensures Next(c, ops[0]).None? ==> Run(c, ops).None?
    ensures Next(c, ops[0]).Some? ==> Run(c, ops) == Run(Next(c, ops[0]).value, ops[1..])
  {
  }

  /** Any run from a state satisfying the invariant keeps it and keeps all slots in the buckets. */
  lemma {:induction false} RunKeepsInv(c: Cache, ops: seq<Op>)
    requires Inv(c)
    ensures Run(c, ops).Some? ==> Inv(Run(c, ops).value) && Union(Run(c, ops).value.buckets) == Union(c.buckets)
    decreases |ops|
  {
    if |ops| > 0 {
      var n := Next(c, ops[0]);
      NextKeepsInv(c, ops[0]);
      RunUnfold(c, ops);
      if n.Some? {
        RunKeepsInv(n.value, ops[1..]);
      }
    }
  }

  // ---------------------------------------------------------------------
  // write, evict, read back

  /** Every valid cached copy of block `k` agrees with the disk. */
  predicate Coherent(c: Cache, k: Key)
  {
    forall j :: 0 <= j < |c.slots| && c.slots[j].valid && c.slots[j].KeyOf() == k ==>
      c.slots[j].data == DiskRead(c.disk, k)
  }

  /** The step does not overwrite the contents of a slot caching block `k`. */
  predicate Spares(c: Cache, op: Op, k: Key)
  {
    !(op.Update? && op.i < |c.slots| && c.slots[op.i].KeyOf() == k)
  }

  /** bget never makes a slot valid, and never changes a valid slot's block or contents. */
  lemma BgetKeepsCoherent(c: Cache, dev: nat, blockno: nat, k: Key)
    requires WellIndexed(c) && Coherent(c, k)
    ensures Bget(c, dev, blockno).Got? ==> Coherent(Bget(c, dev, blockno).c, k)
  {
  }

  /** A read step never makes a stale copy of block `k` valid. */
  lemma ReadStepKeepsCoherent(c: Cache, dev: nat, blockno: nat, pid: Pid, k: Key)
    requires WellIndexed(c) && Coherent(c, k)
    ensures Next(c, Read(dev, blockno, pid)).Some? ==>
      Coherent(Next(c, Read(dev, blockno, pid)).value, k) && Next(c, Read(dev, blockno, pid)).value.disk == c.disk
  {
    BgetKeepsCoherent(c, dev, blockno, k);
  }

  /** Taking the sleep lock fills an invalid slot from the disk, so the copy agrees with it. */
  lemma ResumeStepKeepsCoherent(c: Cache, i: nat, pid: Pid, k: Key)
    requires WellIndexed(c) && Coherent(c, k)
    ensures Next(c, Resume(i, pid)).Some? ==>
      Coherent(Next(c, Resume(i, pid)).value, k) && Next(c, Resume(i, pid)).value.disk == c.disk
  {
  }

  /** brelse changes no slot's contents, validity or block, nor the disk. */
  lemma ReleaseStepKeepsCoherent(c: Cache, i: nat, pid: Pid, k: Key)
    requires WellIndexed(c) && Coherent(c, k)
    ensures Next(c, Release(i, pid)).Some? ==>
      Coherent(Next(c, Release(i, pid)).value, k) && Next(c, Release(i, pid)).value.disk == c.disk
  {
  }

  /** bwrite copies one valid slot to the disk: every valid copy of `k` still agrees with the disk. */
  lemma WriteStepKeepsCoherent(c: Cache, i: nat, pid: Pid, k: Key)
    requires Inv(c) && Coherent(c, k)
    ensures Next(c, Write(i, pid)).Some? ==>
      Coherent(Next(c, Write(i, pid)).value, k) && DiskRead(Next(c, Write(i, pid)).value.disk, k) == DiskRead(c.disk, k)
  {
  }

  /** A step that spares block `k` keeps it coherent and keeps its disk contents. */
  lemma NextKeepsCoherent(c: Cache, op: Op, k: Key)
    requires Inv(c) && Coherent(c, k) && Spares(c, op, k)
    ensures Next(c, op).Some? ==>
      Coherent(Next(c, op).value, k) && DiskRead(Next(c, op).value.disk, k) == DiskRead(c.disk, k)
  {
    match op
    case Read(dev, blockno, pid) =>
      ReadStepKeepsCoherent(c, dev, blockno, pid, k);
    case Resume(i, pid) =>
      ResumeStepKeepsCoherent(c, i, pid, k);
    case Write(i, pid) =>
      WriteStepKeepsCoherent(c, i, pid, k);
    case Release(i, pid) =>
      ReleaseStepKeepsCoherent(c, i, pid, k);
    case Pin(i) =>
    case Unpin(i) =>
    case Update(i, pid, d) =>
  }

  /** True iff no step of the run overwrites a slot caching block `k`. */
  predicate RunSpares(c: Cache, ops: seq<Op>, k: Key)
    requires WellIndexed(c)
    decreases |ops|
  {
    |ops| == 0 ||
    (Spares(c, ops[0], k) && (Next(c, ops[0]).Some? ==> RunSpares(Next(c, ops[0]).value, ops[1..], k)))
  }

  lemma {:induction false} RunKeepsCoherent(c: Cache, ops: seq<Op>, k: Key)
    requires Inv(c) && Coherent(c, k) && RunSpares(c, ops, k)
    ensures Run(c, ops).Some? ==>
      Coherent(Run(c, ops).value, k) && DiskRead(Run(c, ops).value.disk, k) == DiskRead(c.disk, k)
    decreases |ops|
  {
    if |ops| > 0 {
      var n := Next(c, ops[0]);
      NextKeepsCoherent(c, ops[0], k);
      NextKeepsInv(c, ops[0]);
      RunUnfold(c, ops);
      if n.Some? {
        RunKeepsCoherent(n.value, ops[1..], k);
      }
    }
  }

  /** bread of a coherent block returns the disk's contents, whether it hit or missed. */
  lemma BreadReturnsDisk(c: Cache, dev: nat, blockno: nat, pid: Pid)
    requires WellIndexed(c) && Coherent(c, Key(dev, blockno))
    ensures Bread(c, dev, blockno, pid).ReadDone? ==>
      Bread(c, dev, blockno, pid).c.slots[Bread(c, dev, blockno, pid).i].data == DiskRead(c.disk, Key(dev, blockno))
  {
  }

  /** After the holder overwrites its slot with `d` and calls bwrite, the block is coherent and holds `d` on disk. */
  lemma UpdateWriteMakesCoherent(c: Cache, i: nat, pid: Pid, d: Block)
    requires Inv(c) && i < |c.slots| && c.slots[i].holder == Some(pid)
    requires Next(c, Update(i, pid, d)).Some?
    requires Next(Next(c, Update(i, pid, d)).value, Write(i, pid)).Some?
    ensures var c2 := Next(Next(c, Update(i, pid, d)).value, Write(i, pid)).value;
      && Inv(c2) && Coherent(c2, c.slots[i].KeyOf()) && DiskRead(c2.disk, c.slots[i].KeyOf()) == d
  {
    var k := c.slots[i].KeyOf();
    var c1 := c.(slots := c.slots[i := c.slots[i].(data := d)]);
    assert Next(c, Update(i, pid, d)).value == c1;
    UpdateStepKeepsInv(c, i, pid, d);
    assert c1.slots[i].KeyOf() == k && c1.slots[i].data == d;
    var c2 := Bwrite(c1, i, pid).c;
    assert Next(c1, Write(i, pid)).value == c2;
    WriteStepKeepsInv(c1, i, pid);
    forall j | 0 <= j < |c2.slots| && c2.slots[j].valid && c2.slots[j].KeyOf() == k
      ensures c2.slots[j].data == DiskRead(c2.disk, k)
    {
      LiveKeysUnique(c1, i, j);
    }
  }

  /**
   The write-evict-reread round trip: the holder of a slot overwrites it with
   `d` and calls bwrite; after any run of steps that leaves that block's
   cached contents alone (evictions included), bread of the block returns `d`.
   */
  lemma WrittenBlockReadBack(c: Cache, i: nat, pid: Pid, d: Block, ops: seq<Op>, pid2: Pid)
    requires Inv(c) && i < |c.slots| && c.slots[i].holder == Some(pid)
    requires Next(c, Update(i, pid, d)).Some?
    requires Next(Next(c, Update(i, pid, d)).value, Write(i, pid)).Some?
    requires RunSpares(Next(Next(c, Update(i, pid, d)).value, Write(i, pid)).value, ops, c.slots[i].KeyOf())
    requires Run(Next(Next(c, Update(i, pid, d)).value, Write(i, pid)).value, ops).Some?
    ensures var c3 := Run(Next(Next(c, Update(i, pid, d)).value, Write(i, pid)).value, ops).value;
            var k := c.slots[i].KeyOf();
            Bread(c3, k.dev, k.blockno, pid2).ReadDone? ==>
              Bread(c3, k.dev, k.blockno, pid2).c.slots[Bread(c3, k.dev, k.blockno, pid2).i].data == d
  {
    var k := c.slots[i].KeyOf();
    UpdateWriteMakesCoherent(c, i, pid, d);
    var c2 := Next(Next(c, Update(i, pid, d)).value, Write(i, pid)).value;
    RunKeepsCoherent(c2, ops, k);
    var c3 := Run(c2, ops).value;
    BreadReturnsDisk(c3, k.dev, k.blockno, pid2);
  }
}
