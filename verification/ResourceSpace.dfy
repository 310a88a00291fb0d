/** The growing scratch space of the resource manager (`SpaceAllocator`, `ResourceTempSpace`):
    nothing is leaked and nothing is freed twice. */
module ResourceSpace {

  /** A storage handle. Blocks are numbered as they are allocated; block 0 is the null pointer. */
  datatype Handle = Handle(block: nat, size: nat)

  const NULL := Handle(0, 0)

  /** `SpaceAllocator`: a device block and a host block. */
  datatype Slot = Slot(device: Handle, host: Handle)

  /** The storage manager: live blocks with their sizes, the log of frees, the next block number. */
  datatype Storage = Storage(live: map<nat, nat>, freed: seq<nat>, next: nat)

  /** `Storage::DirectFree`: does nothing on a null pointer. */
  function DirectFree(st: Storage, h: Handle): Storage {
    if h.block == 0 then st else st.(live := st.live - {h.block}, freed := st.freed + [h.block])
  }

  /** `Storage::Alloc` of a non-empty block. */
  function Alloc(st: Storage, size: nat): (Handle, Storage) {
    (Handle(st.next, size), st.(live := st.live[st.next := size], next := st.next + 1))
  }

  // ----- ownership -----

  function Block(slots: seq<Slot>, i: nat, host: bool): nat
    requires i < |slots|
  {
    if host then slots[i].host.block else slots[i].device.block
  }

  predicate HandleOk(st: Storage, h: Handle) {
    if h.block == 0 then h.size == 0 else h.block in st.live && st.live[h.block] == h.size
  }

  /** The slots own the live blocks, each handle its own. */
  ghost predicate Owned(st: Storage, slots: seq<Slot>) {
    && (forall i | 0 <= i < |slots| :: HandleOk(st, slots[i].device) && HandleOk(st, slots[i].host))
    && BlocksDistinct(slots)
    && (forall b | b in st.live :: OwnedBlock(slots, b))
  }

  ghost predicate BlocksDistinct(slots: seq<Slot>) {
    forall i, j, a, b | 0 <= i < |slots| && 0 <= j < |slots| && Block(slots, i, a) == Block(slots, j, b) != 0 ::
      i == j && a == b
  }

  ghost predicate OwnedBlock(slots: seq<Slot>, b: nat) { exists i, h :: 0 <= i < |slots| && Block(slots, i, h) == b }

  /** Every block ever allocated is live, or was freed exactly once. */
  ghost predicate Accounted(st: Storage) {
    && st.next > 0 && 0 !in st.live
    && (forall j, k | 0 <= j < k < |st.freed| :: st.freed[j] != st.freed[k])
    && (forall k | 0 <= k < |st.freed| :: 0 < st.freed[k] < st.next && st.freed[k] !in st.live)
    && (forall b | b in st.live :: b < st.next)
    && (forall b: nat | 0 < b < st.next :: b in st.live || b in st.freed)
  }

  ghost predicate Sound(st: Storage, slots: seq<Slot>) { Accounted(st) && Owned(st, slots) }

  // ----- one request -----

  datatype Request = Request(slot: nat, host: bool, size: nat)

  function HandleOf(s: Slot, host: bool): Handle { if host then s.host else s.device }

  function SetHandle(s: Slot, host: bool, h: Handle): Slot { if host then s.(host := h) else s.(device := h) }

  /** `GetSpace` and `GetHostSpace`: the handle afterwards and the storage afterwards. */
  function Grow(st: Storage, h: Handle, size: nat): (Handle, Storage) {
    if h.size >= size then (h, st) else Alloc(DirectFree(st, h), size)
  }

  function Serve(st: Storage, slots: seq<Slot>, r: Request): (Storage, seq<Slot>)
    requires r.slot < |slots|
  {
    var (h, st') := Grow(st, HandleOf(slots[r.slot], r.host), r.size);
    (st', slots[r.slot := SetHandle(slots[r.slot], r.host, h)])
  }

  lemma FreeAccounted(st: Storage, h: Handle)
    requires Accounted(st) && HandleOk(st, h)
    ensures Accounted(DirectFree(st, h))
  {
    var st' := DirectFree(st, h);
    forall b: nat | 0 < b < st'.next ensures b in st'.live || b in st'.freed {
      assert b in st.live || b in st.freed;
      if b in st.freed { assert st.freed <= st'.freed; }
      if h.block != 0 && b == h.block { assert st'.freed[|st.freed|] == b; }
    }
  }

  lemma AllocAccounted(st: Storage, size: nat)
    requires Accounted(st)
    ensures Accounted(Alloc(st, size).1)
  {
  }

  /** Replacing one handle leaves the blocks of the others. */
  lemma OtherBlocks(slots: seq<Slot>, i: nat, host: bool, h: Handle)
    requires i < |slots|
    ensures var slots' := slots[i := SetHandle(slots[i], host, h)];
      && Block(slots', i, host) == h.block
      && forall j, a | 0 <= j < |slots| && !(j == i && a == host) :: Block(slots', j, a) == Block(slots, j, a)
  {
  }

  lemma FreeOwned(st: Storage, slots: seq<Slot>, i: nat, host: bool)
    requires Owned(st, slots) && i < |slots| && 0 !in st.live
    ensures Owned(DirectFree(st, HandleOf(slots[i], host)), slots[i := SetHandle(slots[i], host, NULL)])
  {
    var h := HandleOf(slots[i], host);
    var st', slots' := DirectFree(st, h), slots[i := SetHandle(slots[i], host, NULL)];
    OtherBlocks(slots, i, host, NULL);
    assert h.block == Block(slots, i, host);
    forall j | 0 <= j < |slots| ensures HandleOk(st', slots'[j].device) && HandleOk(st', slots'[j].host) {
      assert Block(slots, j, true) == slots[j].host.block && Block(slots, j, false) == slots[j].device.block;
    }
    forall b | b in st'.live ensures OwnedBlock(slots', b) {
      assert b != h.block;
      StillOwned(slots, i, host, NULL, b);
    }
  }

  /** A new block leaves all handles in order. */
  lemma AllocHandles(st: Storage, slots: seq<Slot>, i: nat, host: bool, size: nat, j: nat)
    requires (forall k | 0 <= k < |slots| :: HandleOk(st, slots[k].device) && HandleOk(st, slots[k].host))
    requires i < |slots| && j < |slots| && size > 0 && 0 < st.next && st.next !in st.live
    ensures var (h, st') := Alloc(st, size); var s := slots[i := SetHandle(slots[i], host, h)][j];
      HandleOk(st', s.device) && HandleOk(st', s.host)
  {
  }

  lemma AllocOwned(st: Storage, slots: seq<Slot>, i: nat, host: bool, size: nat)
    requires Owned(st, slots) && i < |slots| && HandleOf(slots[i], host) == NULL && size > 0
    requires 0 < st.next && st.next !in st.live && 0 !in st.live
    requires forall j, a | 0 <= j < |slots| :: Block(slots, j, a) < st.next
    ensures var (h, st') := Alloc(st, size); Owned(st', slots[i := SetHandle(slots[i], host, h)])
  {
    hide BlocksDistinct, OwnedBlock, HandleOk;
    var (h, st') := Alloc(st, size);
    var slots' := slots[i := SetHandle(slots[i], host, h)];
    OtherBlocks(slots, i, host, h);
    DistinctWithNew(slots, i, host, h);
    forall j | 0 <= j < |slots| ensures HandleOk(st', slots'[j].device) && HandleOk(st', slots'[j].host) {
      AllocHandles(st, slots, i, host, size, j);
    }
    forall b | b in st'.live ensures OwnedBlock(slots', b) {
      if b == st.next { OwnsNew(slots', i, host); } else { StillOwned(slots, i, host, h, b); }
    }
  }

  lemma OwnsNew(slots: seq<Slot>, i: nat, host: bool)
    requires i < |slots|
    ensures OwnedBlock(slots, Block(slots, i, host))
  {
  }

  /** Replacing a handle leaves the other blocks owned. */
  lemma StillOwned(slots: seq<Slot>, i: nat, host: bool, h: Handle, b: nat)
    requires OwnedBlock(slots, b) && i < |slots| && Block(slots, i, host) != b
    ensures OwnedBlock(slots[i := SetHandle(slots[i], host, h)], b)
  {
    var j, a :| 0 <= j < |slots| && Block(slots, j, a) == b;
    OtherBlocks(slots, i, host, h);
    assert Block(slots[i := SetHandle(slots[i], host, h)], j, a) == b;
  }

  lemma DistinctWithNew(slots: seq<Slot>, i: nat, host: bool, h: Handle)
    requires BlocksDistinct(slots) && i < |slots| && forall j, a | 0 <= j < |slots| :: Block(slots, j, a) != h.block
    ensures BlocksDistinct(slots[i := SetHandle(slots[i], host, h)])
  {
    OtherBlocks(slots, i, host, h);
  }

  lemma BlocksKnown(st: Storage, slots: seq<Slot>)
    requires Accounted(st) && Owned(st, slots)
    ensures forall i, h | 0 <= i < |slots| :: Block(slots, i, h) < st.next
  {
    forall i, h | 0 <= i < |slots| ensures Block(slots, i, h) < st.next {
      assert HandleOk(st, slots[i].device) && HandleOk(st, slots[i].host);
    }
  }

  /** Each request is served with a live block at least as large as asked for, and no handle's
      capacity ever shrinks. */
  lemma ServeSound(st: Storage, slots: seq<Slot>, r: Request)
    requires Sound(st, slots) && r.slot < |slots|
    ensures var (st', slots') := Serve(st, slots, r);
      && Sound(st', slots') && |slots'| == |slots|
      && HandleOf(slots'[r.slot], r.host).size >= r.size
      && (forall i | 0 <= i < |slots| :: slots'[i].device.size >= slots[i].device.size)
      && (forall i | 0 <= i < |slots| :: slots'[i].host.size >= slots[i].host.size)
      && st.freed <= st'.freed
  {
    var h := HandleOf(slots[r.slot], r.host);
    if h.size < r.size {
      var mid := slots[r.slot := SetHandle(slots[r.slot], r.host, NULL)];
      FreeAccounted(st, h);
      FreeOwned(st, slots, r.slot, r.host);
      AllocAccounted(DirectFree(st, h), r.size);
      BlocksKnown(DirectFree(st, h), mid);
      AllocOwned(DirectFree(st, h), mid, r.slot, r.host, r.size);
      var h' := Alloc(DirectFree(st, h), r.size).0;
      assert mid[r.slot := SetHandle(mid[r.slot], r.host, h')] == slots[r.slot := SetHandle(slots[r.slot], r.host, h')];
    } else {
      assert slots[r.slot := SetHandle(slots[r.slot], r.host, h)] == slots;
    }
  }

  /** A request that fits changes nothing. Any other frees exactly the handle's old block, allocates
      exactly one block, new and of the requested size, and touches no other handle. */
  ghost predicate ServedExactly(st: Storage, slots: seq<Slot>, i: nat, host: bool, size: nat, st': Storage, slots': seq<Slot>)
    requires i < |slots|
  {
    var h := if host then slots[i].host else slots[i].device;
    if h.size >= size then st' == st && slots' == slots
    else
      var b := st.next;
      && st'.next == b + 1
      && st'.freed == st.freed + (if h.block == 0 then [] else [h.block])
      && st'.live.Keys == st.live.Keys - {h.block} + {b} && st'.live[b] == size
      && (forall x | x in st.live && x != h.block && x != b :: st'.live[x] == st.live[x])
      && b !in st.live && b !in st.freed
      && |slots'| == |slots|
      && (forall j | 0 <= j < |slots| && j != i :: slots'[j] == slots[j])
      && (if host then slots'[i].host == Handle(b, size) && slots'[i].device == slots[i].device
          else slots'[i].device == Handle(b, size) && slots'[i].host == slots[i].host)
  }

  lemma ServeExactly(st: Storage, slots: seq<Slot>, r: Request)
    requires Sound(st, slots) && r.slot < |slots|
    ensures var (st', slots') := Serve(st, slots, r); ServedExactly(st, slots, r.slot, r.host, r.size, st', slots')
  {
    hide Owned;
    var h := HandleOf(slots[r.slot], r.host);
    if h.size >= r.size {
      assert slots[r.slot := SetHandle(slots[r.slot], r.host, h)] == slots;
    }
    assert HandleOk(st, h) by { HandlesOk(st, slots, r.slot); }
  }

  lemma HandlesOk(st: Storage, slots: seq<Slot>, i: nat)
    requires Owned(st, slots) && i < |slots|
    ensures HandleOk(st, slots[i].device) && HandleOk(st, slots[i].host)
  {
  }

  // ----- any sequence of requests, then destruction -----

  predicate AllServable(slots: seq<Slot>, rs: seq<Request>) { forall k | 0 <= k < |rs| :: rs[k].slot < |slots| }

  function ServeAll(st: Storage, slots: seq<Slot>, rs: seq<Request>): (Storage, seq<Slot>)
    requires AllServable(slots, rs)
    decreases |rs|
  {
    if rs == [] then (st, slots)
    else
      var (st', slots') := Serve(st, slots, rs[0]);
      ServeAll(st', slots', rs[1..])
  }

  /** `ReleaseAll` on every slot, as the destructor does. */
  function ReleaseAll(st: Storage, slots: seq<Slot>): Storage
    decreases |slots|
  {
    if slots == [] then st
    else ReleaseAll(DirectFree(DirectFree(st, slots[0].device), slots[0].host), slots[1..])
  }

  lemma {:induction false} ServeAllSound(st: Storage, slots: seq<Slot>, rs: seq<Request>)
    requires Sound(st, slots) && AllServable(slots, rs)
    ensures var (st', slots') := ServeAll(st, slots, rs); Sound(st', slots') && |slots'| == |slots| && st.freed <= st'.freed
    decreases |rs|
  {
    hide Sound, Serve;
    if rs != [] {
      ServeSound(st, slots, rs[0]);
      var (st', slots') := Serve(st, slots, rs[0]);
      ServeAllSound(st', slots', rs[1..]);
    }
  }

  /** Releasing the first slot leaves the others owning what is live. */
  lemma ReleaseFirst(st: Storage, slots: seq<Slot>)
    requires Sound(st, slots) && slots != []
    ensures Sound(DirectFree(DirectFree(st, slots[0].device), slots[0].host), slots[1..])
  {
    hide Accounted;
    var st1, slots1 := DirectFree(st, slots[0].device), slots[0 := SetHandle(slots[0], false, NULL)];
    var st2, slots2 := DirectFree(st1, slots[0].host), slots1[0 := SetHandle(slots1[0], true, NULL)];
    FreeAccounted(st, slots[0].device);
    FreeOwned(st, slots, 0, false);
    FreeAccounted(st1, slots1[0].host);
    FreeOwned(st1, slots1, 0, true);
    DropEmptySlot(st2, slots2);
    assert slots2[1..] == slots[1..];
  }

  lemma DropEmptySlot(st: Storage, slots: seq<Slot>)
    requires Owned(st, slots) && slots != [] && slots[0] == Slot(NULL, NULL) && 0 !in st.live
    ensures Owned(st, slots[1..])
  {
    hide BlocksDistinct, OwnedBlock, HandleOk;
    DropKeepsDistinct(slots);
    forall b | b in st.live ensures OwnedBlock(slots[1..], b) { DropKeepsOwned(slots, b); }
  }

  lemma DropKeepsDistinct(slots: seq<Slot>)
    requires BlocksDistinct(slots) && slots != []
    ensures BlocksDistinct(slots[1..])
  {
    forall i, h | 0 <= i < |slots| - 1 ensures Block(slots[1..], i, h) == Block(slots, i + 1, h) {}
  }

  lemma DropKeepsOwned(slots: seq<Slot>, b: nat)
    requires OwnedBlock(slots, b) && slots != [] && slots[0] == Slot(NULL, NULL) && b != 0
    ensures OwnedBlock(slots[1..], b)
  {
    var i, h :| 0 <= i < |slots| && Block(slots, i, h) == b;
    assert Block(slots[1..], i - 1, h) == b;
  }

  lemma {:induction false} ReleaseAllSound(st: Storage, slots: seq<Slot>)
    requires Sound(st, slots)
    ensures Accounted(ReleaseAll(st, slots)) && ReleaseAll(st, slots).live == map[]
    ensures ReleaseAll(st, slots).next == st.next
    decreases |slots|
  {
    if slots == [] {
      assert forall b | b in st.live :: OwnedBlock(slots, b);
      assert st.live.Keys == {};
    } else {
      ReleaseFirst(st, slots);
      ReleaseAllSound(DirectFree(DirectFree(st, slots[0].device), slots[0].host), slots[1..]);
    }
  }

  const NO_STORAGE := Storage(map[], [], 1)

  function EmptySlots(n: nat): seq<Slot> { seq(n, _ => Slot(NULL, NULL)) }

  /** Whatever is requested in between, creating and destroying a temp space frees every block it
      allocated, and each exactly once. */
  lemma EverythingFreedOnce(n: nat, rs: seq<Request>)
    requires AllServable(EmptySlots(n), rs)
    ensures var (st, slots) := ServeAll(NO_STORAGE, EmptySlots(n), rs); var end := ReleaseAll(st, slots);
      && end.live == map[]
      && (forall b: nat :: b in end.freed <==> 0 < b < end.next)
      && (forall j, k | 0 <= j < k < |end.freed| :: end.freed[j] != end.freed[k])
  {
    ServeAllSound(NO_STORAGE, EmptySlots(n), rs);
    var (st, slots) := ServeAll(NO_STORAGE, EmptySlots(n), rs);
    ReleaseAllSound(st, slots);
  }

  // ----- the object -----

  /** `ResourceTempSpace` together with the storage manager it draws on. */
  class TempSpace {
    var space: seq<Slot>
    var storage: Storage

    ghost predicate Valid() reads this { Sound(storage, space) }

    constructor (ncopy: nat)
      ensures Valid() && space == EmptySlots(ncopy) && storage == NO_STORAGE
    {
      space := EmptySlots(ncopy);
      storage := NO_STORAGE;
    }

    /** `GetSpace` on slot `i`. */
    method GetSpace(i: nat, size: nat) returns (block: nat)
      requires Valid() && i < |space|
      modifies this
      ensures Valid() && (storage, space) == Serve(old(storage), old(space), Request(i, false, size))
      ensures ServedExactly(old(storage), old(space), i, false, size, storage, space)
      ensures block == space[i].device.block && (size > 0 ==> block in storage.live && storage.live[block] >= size)
    {
      ServeSound(storage, space, Request(i, false, size));
      ServeExactly(storage, space, Request(i, false, size));
      var h := space[i].device;
      if h.size < size {
        var st := DirectFree(storage, h);
        var (grown, st') := Alloc(st, size);
        h, storage := grown, st';
      }
      space := space[i := space[i].(device := h)];
      block := h.block;
      assert HandleOk(storage, space[i].device);
    }

    /** `GetHostSpace` on slot `i`. */
    method GetHostSpace(i: nat, size: nat) returns (block: nat)
      requires Valid() && i < |space|
      modifies this
      ensures Valid() && (storage, space) == Serve(old(storage), old(space), Request(i, true, size))
      ensures ServedExactly(old(storage), old(space), i, true, size, storage, space)
      ensures block == space[i].host.block && (size > 0 ==> block in storage.live && storage.live[block] >= size)
    {
      ServeSound(storage, space, Request(i, true, size));
      ServeExactly(storage, space, Request(i, true, size));
      var h := space[i].host;
      if h.size < size {
        var st := DirectFree(storage, h);
        var (grown, st') := Alloc(st, size);
        h, storage := grown, st';
      }
      space := space[i := space[i].(host := h)];
      block := h.block;
      assert HandleOk(storage, space[i].host);
    }

    /** The destructor. */
    method Destroy()
      requires Valid()
      modifies this
      ensures space == old(space) && storage == ReleaseAll(old(storage), old(space))
      ensures storage.live == map[] && Accounted(storage)
      ensures old(storage).freed <= storage.freed
    {
      ReleaseAllSound(storage, space);
      var i := 0;
      while i < |space|
        invariant 0 <= i <= |space| && space == old(space)
        invariant ReleaseAll(storage, space[i..]) == ReleaseAll(old(storage), old(space))
        invariant old(storage).freed <= storage.freed
      {
        var r := space[i];
        assert space[i..][1..] == space[i + 1..];
        storage := DirectFree(storage, r.device);
        storage := DirectFree(storage, r.host);
        i := i + 1;
      }
    }
  }
}
