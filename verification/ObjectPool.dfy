/** The object pool: storage in chunks that are never moved, freed slots recycled first, and a
    reservation that really is room for as many objects as were asked for. */
module ObjectPools {

  const INITIAL_CHUNK: nat := 4
  const MAX_CHUNK: nat := 1024

  datatype Chunk = Chunk(capacity: nat, used: nat)

  /** Address of an object. */
  datatype Slot = Slot(chunk: nat, offset: nat)

  /** Slots that have been handed out at least once. */
  function UsedSlots(chunks: seq<Chunk>): (r: set<Slot>)
    ensures forall s: Slot :: s in r <==> s.chunk < |chunks| && s.offset < chunks[s.chunk].used
  {
    if chunks == [] then {}
    else
      var n := |chunks| - 1;
      UsedSlots(chunks[..n]) + (set o: nat | o < chunks[n].used :: Slot(n, o))
  }

  function NumUsed(chunks: seq<Chunk>): nat
  {
    if chunks == [] then 0 else NumUsed(chunks[..|chunks| - 1]) + chunks[|chunks| - 1].used
  }

  lemma {:induction false} UsedCount(chunks: seq<Chunk>)
    ensures |UsedSlots(chunks)| == NumUsed(chunks)
  {
    if chunks != [] {
      var n := |chunks| - 1;
      UsedCount(chunks[..n]);
      OffsetCount(n, chunks[n].used);
      var last := set o: nat | o < chunks[n].used :: Slot(n, o);
      assert UsedSlots(chunks[..n]) !! last;
    }
  }

  lemma {:induction false} OffsetCount(c: nat, used: nat)
    ensures |set o: nat | o < used :: Slot(c, o)| == used
  {
    if used > 0 {
      OffsetCount(c, used - 1);
      assert (set o: nat | o < used :: Slot(c, o)) == (set o: nat | o < used - 1 :: Slot(c, o)) + {Slot(c, used - 1)};
    }
  }

  ghost predicate Distinct(slots: seq<Slot>)
  {
    forall i, j :: 0 <= i < j < |slots| ==> slots[i] != slots[j]
  }

  ghost function Listed(slots: seq<Slot>): (r: set<Slot>)
    ensures forall s :: s in r <==> s in slots
  {
    set s | s in slots
  }

  lemma {:induction false} ListedCount(slots: seq<Slot>)
    requires Distinct(slots)
    ensures |Listed(slots)| == |slots|
  {
    if slots != [] {
      var n := |slots| - 1;
      ListedCount(slots[..n]);
      assert slots == slots[..n] + [slots[n]];
      assert Listed(slots) == Listed(slots[..n]) + {slots[n]};
    }
  }

  /** Live, free and never used slots are disjoint and cover all chunks. */
  ghost predicate PoolOk(chunks: seq<Chunk>, free: seq<Slot>, live: set<Slot>, liveCount: nat)
  {
    ChunksOk(chunks) && Distinct(free) && Split(UsedSlots(chunks), live, Listed(free)) && liveCount == |live|
  }

  ghost predicate ChunksOk(chunks: seq<Chunk>)
  {
    forall c :: 0 <= c < |chunks| ==> chunks[c].used <= chunks[c].capacity && chunks[c].capacity > 0
  }

  ghost predicate Split(all: set<Slot>, live: set<Slot>, free: set<Slot>)
  {
    live !! free && live + free == all
  }

  lemma {:induction false} SplitMoves(all: set<Slot>, live: set<Slot>, free: set<Slot>, slot: Slot)
    requires Split(all, live, free)
    ensures slot in free ==> slot !in live && Split(all, live + {slot}, free - {slot})
    ensures slot in live ==> slot !in free && Split(all, live - {slot}, free + {slot})
    ensures slot !in all ==> slot !in live && Split(all + {slot}, live + {slot}, free)
  {
    if slot in free { assert live + {slot} + (free - {slot}) == all; }
    if slot in live { assert live - {slot} + (free + {slot}) == all; }
    if slot !in all { assert live + {slot} + free == all + {slot}; }
  }

  /** Free slots and the unused rest of the last chunk: all that can be handed out without a new chunk. */
  function AvailableIn(chunks: seq<Chunk>, free: seq<Slot>): int
  {
    |free| + (if chunks == [] then 0 else chunks[|chunks| - 1].capacity - chunks[|chunks| - 1].used)
  }

  function Advanced(chunks: seq<Chunk>): seq<Chunk>
    requires chunks != []
  {
    var last := chunks[|chunks| - 1];
    chunks[|chunks| - 1 := Chunk(last.capacity, last.used + 1)]
  }

  lemma {:induction false} Empty()
    ensures PoolOk([], [], {}, 0)
  {
  }

  lemma {:induction false} ListedLast(slots: seq<Slot>)
    requires Distinct(slots) && slots != []
    ensures var n := |slots| - 1;
            Distinct(slots[..n]) && Listed(slots[..n]) == Listed(slots) - {slots[n]} && slots[n] in Listed(slots)
  {
    var n := |slots| - 1;
    assert slots == slots[..n] + [slots[n]];
  }

  lemma {:induction false} TakeFree(chunks: seq<Chunk>, free: seq<Slot>, live: set<Slot>, liveCount: nat)
    requires PoolOk(chunks, free, live, liveCount) && free != []
    ensures var slot := free[|free| - 1];
            slot !in live && PoolOk(chunks, free[..|free| - 1], live + {slot}, liveCount + 1)
  {
    hide UsedSlots, Split, ChunksOk, Distinct, Listed;
    ListedLast(free);
    SplitMoves(UsedSlots(chunks), live, Listed(free), free[|free| - 1]);
  }

  lemma {:induction false} TakeNext(chunks: seq<Chunk>, free: seq<Slot>, live: set<Slot>, liveCount: nat)
    requires PoolOk(chunks, free, live, liveCount) && chunks != []
    requires chunks[|chunks| - 1].used < chunks[|chunks| - 1].capacity
    ensures var slot := Slot(|chunks| - 1, chunks[|chunks| - 1].used);
            slot !in live && PoolOk(Advanced(chunks), free, live + {slot}, liveCount + 1)
  {
    hide UsedSlots, Split, Listed, Distinct, Advanced, ChunksOk;
    UsedAdvanced(chunks);
    SplitMoves(UsedSlots(chunks), live, Listed(free), Slot(|chunks| - 1, chunks[|chunks| - 1].used));
  }

  lemma {:induction false} UsedAdvanced(chunks: seq<Chunk>)
    requires chunks != [] && ChunksOk(chunks) && chunks[|chunks| - 1].used < chunks[|chunks| - 1].capacity
    ensures ChunksOk(Advanced(chunks))
    ensures var slot := Slot(|chunks| - 1, chunks[|chunks| - 1].used);
            slot !in UsedSlots(chunks) && UsedSlots(Advanced(chunks)) == UsedSlots(chunks) + {slot}
  {
    hide UsedSlots;
  }

  lemma {:induction false} GiveBack(chunks: seq<Chunk>, free: seq<Slot>, live: set<Slot>, liveCount: nat, slot: Slot)
    requires PoolOk(chunks, free, live, liveCount) && slot in live
    ensures liveCount > 0 && PoolOk(chunks, free + [slot], live - {slot}, liveCount - 1)
  {
    hide UsedSlots, Split, ChunksOk;
    SplitMoves(UsedSlots(chunks), live, Listed(free), slot);
    assert Listed(free + [slot]) == Listed(free) + {slot};
  }

  lemma {:induction false} AddChunk(chunks: seq<Chunk>, free: seq<Slot>, live: set<Slot>, liveCount: nat, cap: nat)
    requires PoolOk(chunks, free, live, liveCount) && cap > 0
    ensures PoolOk(chunks + [Chunk(cap, 0)], free, live, liveCount)
  {
    UsedUnchanged(chunks, cap);
    hide UsedSlots;
  }

  lemma {:induction false} UsedUnchanged(chunks: seq<Chunk>, cap: nat)
    ensures UsedSlots(chunks + [Chunk(cap, 0)]) == UsedSlots(chunks)
  {
    hide UsedSlots;
  }

  lemma {:induction false} LastChunk(chunks: seq<Chunk>, free: seq<Slot>, live: set<Slot>, liveCount: nat)
    requires PoolOk(chunks, free, live, liveCount) && chunks != []
    ensures var last := chunks[|chunks| - 1]; last.used <= last.capacity && last.capacity > 0
    ensures AvailableIn(chunks, free) >= 0
  {
  }

  class ObjectPool<T> {
    var chunks: seq<Chunk>
    var free: seq<Slot>
    var liveCount: nat
    /** Content of the slots; a slot without a live object has none. */
    var storage: map<Slot, T>

    constructor ()
      ensures Valid() && Live() == {} && chunks == []
    {
      Empty();
      chunks, free, liveCount, storage := [], [], 0, map[];
    }

    /** Slots of the objects that were allocated and not freed. */
    function Live(): set<Slot>
      reads this
    {
      storage.Keys
    }

    ghost predicate Valid()
      reads this
    {
      PoolOk(chunks, free, Live(), liveCount)
    }

    function Available(): int
      reads this
    {
      AvailableIn(chunks, free)
    }

    /** The pool can take n more objects without another chunk. */
    predicate Room(n: nat)
      reads this
    {
      Available() >= n
    }

    lemma {:induction false} LiveIsUsedLessFree()
      requires Valid()
      ensures liveCount + |free| == NumUsed(chunks)
    {
      UsedCount(chunks);
      ListedCount(free);
      hide UsedSlots;
      assert |Live() + Listed(free)| == |Live()| + |Listed(free)|;
    }

    method NextRawSlot() returns (slot: Slot)
      requires Valid() && free == []
      modifies `chunks
      ensures slot !in Live() && PoolOk(chunks, free, Live() + {slot}, liveCount + 1)
      ensures |chunks| == |old(chunks)| + (if old(Available()) == 0 then 1 else 0)
      ensures old(Available()) > 0 ==> Available() == old(Available()) - 1
    {
      hide PoolOk;
      if chunks != [] { LastChunk(chunks, free, Live(), liveCount); }
      if chunks == [] || chunks[|chunks| - 1].used == chunks[|chunks| - 1].capacity {
        var cap := if chunks == [] then INITIAL_CHUNK
                   else if chunks[|chunks| - 1].capacity < MAX_CHUNK then chunks[|chunks| - 1].capacity * 2
                   else MAX_CHUNK;
        AddChunk(chunks, free, Live(), liveCount, cap);
        chunks := chunks + [Chunk(cap, 0)];
      }
      TakeNext(chunks, free, Live(), liveCount);
      var last := chunks[|chunks| - 1];
      slot := Slot(|chunks| - 1, last.used);
      chunks := chunks[|chunks| - 1 := Chunk(last.capacity, last.used + 1)];
    }

    /** A live slot is never handed out again, and no live object is moved or changed. */
    method Alloc(x: T) returns (slot: Slot)
      requires Valid()
      modifies this
      ensures Valid() && slot !in old(Live()) && storage == old(storage)[slot := x]
      ensures liveCount == old(liveCount) + 1
      ensures old(Available()) > 0 ==> |chunks| == |old(chunks)| && Available() == old(Available()) - 1
      ensures old(Available()) <= 0 ==> |chunks| == |old(chunks)| + 1
    {
      hide PoolOk;
      if chunks != [] { LastChunk(chunks, free, Live(), liveCount); }
      if free != [] {
        TakeFree(chunks, free, Live(), liveCount);
        slot := free[|free| - 1];
        free := free[..|free| - 1];
      } else {
        slot := NextRawSlot();
      }
      assert storage[slot := x].Keys == storage.Keys + {slot};
      storage := storage[slot := x];
      liveCount := liveCount + 1;
    }

    /** Freeing makes room for one more; freeing nothing does nothing. */
    method Free(pointer: Pointer)
      requires Valid() && (pointer.To? ==> pointer.slot in Live())
      modifies this
      ensures Valid() && chunks == old(chunks)
      ensures pointer.Null? ==> storage == old(storage) && free == old(free) && liveCount == old(liveCount)
      ensures pointer.To? ==>
                && storage == old(storage) - {pointer.slot} && liveCount == old(liveCount) - 1
                && Available() == old(Available()) + 1
    {
      hide PoolOk;
      if pointer.Null? {
        return;
      }
      GiveBack(chunks, free, Live(), liveCount, pointer.slot);
      assert (storage - {pointer.slot}).Keys == storage.Keys - {pointer.slot};
      storage := storage - {pointer.slot};
      free := free + [pointer.slot];
      liveCount := liveCount - 1;
    }

    /** At most one chunk is added, and only if the room there is does not suffice. */
    method Reserve(n: nat)
      requires Valid()
      modifies `chunks
      ensures Valid() && Room(n)
      ensures old(Room(n)) ==> chunks == old(chunks)
      ensures !old(Room(n)) ==> n > |free| && chunks == old(chunks) + [Chunk(n - |free|, 0)]
    {
      hide PoolOk;
      var available := |free|;
      if chunks != [] {
        LastChunk(chunks, free, Live(), liveCount);
        available := available + (chunks[|chunks| - 1].capacity - chunks[|chunks| - 1].used);
      }
      if available >= n {
        return;
      }
      AddChunk(chunks, free, Live(), liveCount, n - |free|);
      chunks := chunks + [Chunk(n - |free|, 0)];
    }

    /** After a reservation for n, the next n allocations add no chunk, get n different slots that
        were not live, and leave what was live alone. */
    method AllocReserved(xs: seq<T>) returns (slots: seq<Slot>)
      requires Valid()
      modifies this
      ensures Valid() && |slots| == |xs| && Distinct(slots)
      ensures forall i :: 0 <= i < |slots| ==>
                slots[i] !in old(Live()) && slots[i] in storage && storage[slots[i]] == xs[i]
      ensures forall s :: s in old(storage) ==> s in storage && storage[s] == old(storage)[s]
      ensures |chunks| == |old(chunks)| + (if old(Room(|xs|)) then 0 else 1)
      ensures liveCount == old(liveCount) + |xs|
    {
      hide PoolOk;
      Reserve(|xs|);
      ghost var numChunks := |chunks|;
      slots := [];
      for i := 0 to |xs|
        invariant Valid() && |slots| == i && Distinct(slots)
        invariant |chunks| == numChunks && Room(|xs| - i)
        invariant liveCount == old(liveCount) + i
        invariant forall k :: 0 <= k < i ==>
                  slots[k] !in old(Live()) && slots[k] in storage && storage[slots[k]] == xs[k]
        invariant forall s :: s in old(storage) ==> s in storage && storage[s] == old(storage)[s]
      {
        var slot := Alloc(xs[i]);
        slots := slots + [slot];
      }
    }

    /** Any history of allocations, deletions and reservations. The objects held are exactly those that were
        made and not deleted, each still in the slot it was made in and with its value; objects of before are
        untouched. No chunk is added as long as the history never asks for more room than was there. */
    method Run(ops: seq<PoolOperation<T>>, n: nat) returns (slots: seq<Slot>)
      requires Valid() && Room(n)
      modifies this
      ensures Valid() && Placed(Held(ops), Made(ops), slots, old(storage), storage)
      ensures liveCount == old(liveCount) + |Held(ops)|
      ensures Demand(ops) <= n ==> |chunks| == |old(chunks)|
    {
      hide PoolOk, Placed, Held, Made, Demand;
      slots := [];
      HistoryNone(storage);
      assert ops[..0] == [];
      for i := 0 to |ops|
        invariant Valid() && Placed(Held(ops[..i]), Made(ops[..i]), slots, old(storage), storage)
        invariant liveCount == old(liveCount) + |Held(ops[..i])|
        invariant Demand(ops[..i]) <= n ==> |chunks| == |old(chunks)| && Available() >= n - |Held(ops[..i])|
      {
        var done := ops[..i];
        assert ops[..i + 1] == done + [ops[i]];
        match ops[i] {
          case New(x) =>
            ghost var were := storage;
            var slot := Alloc(x);
            PlacedNew(Held(done), Made(done), slots, old(storage), were, x, slot);
            HistoryNew(done, x);
            slots := slots + [slot];
          case Delete(h) =>
            HistoryDelete(done, h);
            if h in Held(done) {
              PlacedDelete(Held(done), Made(done), slots, old(storage), storage, h);
              Free(To(slots[h]));
            }
          case ReserveRoom(k) =>
            HistoryReserve(done, k);
            Reserve(k);
        }
      }
      assert ops[..|ops|] == ops;
    }
  }

  /** The objects made so far, in order; an object is named by its place in this list. */
  function Made<T>(ops: seq<PoolOperation<T>>): seq<T>
  {
    if ops == [] then []
    else
      var rest := Made(ops[..|ops| - 1]);
      match ops[|ops| - 1]
      case New(x) => rest + [x]
      case _ => rest
  }

  /** The objects made and not deleted. Deleting one that is not held does nothing. */
  function Held<T>(ops: seq<PoolOperation<T>>): set<nat>
  {
    if ops == [] then {}
    else
      var rest := Held(ops[..|ops| - 1]);
      match ops[|ops| - 1]
      case New(x) => rest + {|Made(ops[..|ops| - 1])|}
      case Delete(h) => rest - {h}
      case ReserveRoom(k) => rest
  }

  lemma {:induction false} HeldBound<T>(ops: seq<PoolOperation<T>>)
    ensures forall h :: h in Held(ops) ==> h < |Made(ops)|
  {
    if ops != [] { HeldBound(ops[..|ops| - 1]); }
  }

  /** The most room the history asks for at any time: objects held, and a reservation on top of them. */
  function Demand<T>(ops: seq<PoolOperation<T>>): nat
  {
    if ops == [] then 0
    else
      var before := Demand(ops[..|ops| - 1]);
      var now := |Held(ops)| + (match ops[|ops| - 1] case ReserveRoom(k) => k case _ => 0);
      if now > before then now else before
  }

  /** Where the objects held are: each in a slot of its own with its value, next to those of before. */
  ghost predicate Placed<T>(held: set<nat>, made: seq<T>, slots: seq<Slot>, before: map<Slot, T>, storage: map<Slot, T>)
  {
    && |slots| == |made|
    && (forall h :: h in held ==>
          h < |slots| && slots[h] !in before && slots[h] in storage && storage[slots[h]] == made[h])
    && (forall g, h :: g in held && h in held && g != h ==> slots[g] != slots[h])
    && (forall s :: s in before ==> s in storage && storage[s] == before[s])
    && (forall s :: s in storage ==> s in before || HasSlot(held, slots, s))
  }

  ghost predicate HasSlot(held: set<nat>, slots: seq<Slot>, s: Slot)
  {
    exists h :: h in held && h < |slots| && slots[h] == s
  }

  lemma {:induction false} PlacedNew<T>(held: set<nat>, made: seq<T>, slots: seq<Slot>, before: map<Slot, T>,
                                        storage: map<Slot, T>, x: T, slot: Slot)
    requires Placed(held, made, slots, before, storage) && slot !in storage
    ensures |made| !in held
    ensures Placed(held + {|made|}, made + [x], slots + [slot], before, storage[slot := x])
  {
    var held', slots' := held + {|made|}, slots + [slot];
    forall s | s in storage[slot := x] && s !in before ensures HasSlot(held', slots', s) {
      if s == slot {
        assert slots'[|made|] == s;
      } else {
        assert HasSlot(held, slots, s);
        var h :| h in held && h < |slots| && slots[h] == s;
        assert slots'[h] == s;
      }
    }
  }

  lemma {:induction false} PlacedDelete<T>(held: set<nat>, made: seq<T>, slots: seq<Slot>, before: map<Slot, T>,
                                           storage: map<Slot, T>, d: nat)
    requires Placed(held, made, slots, before, storage) && d in held
    ensures d < |slots| && slots[d] in storage
    ensures Placed(held - {d}, made, slots, before, storage - {slots[d]})
  {
    forall s | s in storage - {slots[d]} && s !in before ensures HasSlot(held - {d}, slots, s) {
      assert HasSlot(held, slots, s);
      var h :| h in held && h < |slots| && slots[h] == s;
      assert h != d;
    }
  }

  lemma {:induction false} HistoryNew<T>(ops: seq<PoolOperation<T>>, x: T)
    ensures var more := ops + [New(x)];
            && Held(more) == Held(ops) + {|Made(ops)|} && Made(more) == Made(ops) + [x]
            && |Held(more)| == |Held(ops)| + 1
            && Demand(more) >= Demand(ops) && Demand(more) >= |Held(ops)| + 1
  {
    var more := ops + [New(x)];
    assert more[..|more| - 1] == ops;
    HeldBound(ops);
  }

  lemma {:induction false} HistoryDelete<T>(ops: seq<PoolOperation<T>>, d: nat)
    ensures var more := ops + [Delete(d)];
            && Held(more) == Held(ops) - {d} && Made(more) == Made(ops)
            && |Held(more)| == |Held(ops)| - (if d in Held(ops) then 1 else 0)
            && Demand(more) >= Demand(ops)
            && (d !in Held(ops) ==> Held(more) == Held(ops))
  {
    var more := ops + [PoolOperation<T>.Delete(d)];
    assert more[..|more| - 1] == ops;
    if d !in Held(ops) { assert Held(ops) - {d} == Held(ops); }
  }

  lemma {:induction false} HistoryReserve<T>(ops: seq<PoolOperation<T>>, k: nat)
    ensures var more := ops + [ReserveRoom(k)];
            && Held(more) == Held(ops) && Made(more) == Made(ops)
            && Demand(more) >= Demand(ops) && Demand(more) >= |Held(ops)| + k
  {
    var more := ops + [PoolOperation<T>.ReserveRoom(k)];
    assert more[..|more| - 1] == ops;
  }

  lemma {:induction false} HistoryNone<T>(storage: map<Slot, T>)
    ensures Placed(Held<T>([]), Made<T>([]), [], storage, storage) && |Held<T>([])| == 0 && Demand<T>([]) == 0
  {
  }

  datatype Pointer = Null | To(slot: Slot)

  datatype PoolOperation<T> = New(x: T) | Delete(handle: nat) | ReserveRoom(n: nat)
}
