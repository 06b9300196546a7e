/**
 * The entity/component engine of `include/tecs/tecs.h` (the current revision).
 *
 * `EcsState` and the functions over it are the engine's behaviour as a state
 * machine; class `Ecs` is the engine itself, with the entity table and the
 * containers as arrays updated in place, each method proved to move its
 * `Model()` exactly as the matching function says. The lemmas state what
 * the functions (and so the methods) do, including the places where the code
 * as written goes wrong: the corrupt entity free list, the mask bits that
 * `addComponent` and `removeComponent` disagree on, the component slot shared
 * after removal and the `forEach` range.
 */
module Tecs {
  import opened Handles
  import opened Containers
  import opened Arena

  /** `sizeof(u32)`, i.e. of `unsigned long`, and of a pointer, on LP64. */
  const WordBytes: nat := 8
  const PointerBytes: nat := 8

  /** `sizeof(Entity)`: handle word, mask word and one handle word per component type. */
  function EntityBytes(maxComponents: nat): nat
  {
    WordBytes * (2 + maxComponents)
  }

  /** Bytes `newChunk` takes from the arena: the chunk record, then 128 component slots. */
  function ChunkBytes(componentSize: nat): nat
  {
    PointerBytes + componentSize * ComponentsPerChunk
  }

  /** One slot of the entity table (`TEntity`). */
  datatype Entity = Entity(handle: EntityHandle, componentsMask: set<nat>, components: seq<nat>)

  /** A slot as the zeroed arena (or `e = {}`) leaves it. */
  function ZeroEntity(maxComponents: nat): Entity
  {
    Entity(NullHandle, {}, Zeros(maxComponents))
  }

  /**
   * The engine's state: the `maxEntities + 1` table slots (slot 0 reserved),
   * `nextFreeEntity`, `liveEntities` and the per-type containers.
   */
  datatype EcsState = EcsState(slots: seq<Entity>, nextFree: Word, live: Word, containers: seq<Container>)

  /** Table and containers have the sizes the constructor gave them. */
  predicate Shaped(s: EcsState)
  {
    && 1 <= |s.slots| <= IdLimit
    && |s.containers| < 256
    && (forall i | 0 <= i < |s.slots| :: |s.slots[i].components| == |s.containers|)
    && (forall i | 0 <= i < |s.slots| :: MaskFits(s.slots[i].componentsMask))
    && (forall t | 0 <= t < |s.containers| :: WellFormed(s.containers[t]))
  }

  /** A mask holds bit positions of an unsigned long only. */
  predicate MaskFits(mask: set<nat>)
  {
    forall b | b in mask :: b < 64
  }

  /** The state `init` leaves: zeroed table, empty free list, no live entity, fresh containers. */
  function Init(maxEntities: nat, maxComponents: nat): EcsState
  {
    EcsState(seq(maxEntities + 1, _ => ZeroEntity(maxComponents)), 0, 0, seq(maxComponents, _ => EmptyContainer))
  }

  /** `isEntityAlive`: the alive bit of the slot the handle's id names. */
  predicate IsEntityAlive(slots: seq<Entity>, h: EntityHandle)
    requires h.id < |slots|
  {
    slots[h.id].handle.alive
  }

  /** `isEntityHandleValid`: that slot is alive and its generation is the handle's. */
  predicate IsEntityHandleValid(slots: seq<Entity>, h: EntityHandle)
    requires h.id < |slots|
  {
    IsEntityAlive(slots, h) && slots[h.id].handle.generation == h.generation
  }

  /**
   * What `newEntity` demands: a popped id must index the table, and a bumped
   * id must pass `TECS_ASSERT(newId <= maxEntities)`.
   */
  predicate CanCreate(s: EcsState)
  {
    if s.nextFree > 0 then s.nextFree < |s.slots| else Inc(s.live) < |s.slots|
  }

  datatype Created = Created(state: EcsState, handle: EntityHandle)

  /**
   * `newEntity`: pop the free-list head (the next head is read as the raw
   * handle word of the popped slot) or bump `liveEntities`; the slot is then
   * wiped by `e = {}` and gets alive = 1 and its id, generation 0.
   */
  function NewEntityStep(s: EcsState): (r: Created)
    requires Shaped(s) && CanCreate(s)
    ensures Shaped(r.state)
  {
    var newId: nat := if s.nextFree > 0 then s.nextFree else Inc(s.live);
    var nextFree := if s.nextFree > 0 then RawWord(s.slots[newId].handle) else s.nextFree;
    var e := Entity(EntityHandle(true, 0, newId), {}, Zeros(|s.containers|));
    Created(s.(slots := s.slots[newId := e], nextFree := nextFree, live := Inc(s.live)), e.handle)
  }

  /**
   * `removeEntity`: for a valid handle, the slot's id field takes the old head
   * (truncated to 28 bits), the generation advances modulo 8, the alive bit is
   * cleared, the id becomes the head and `liveEntities` is decremented.
   * An invalid handle changes nothing.
   */
  function RemoveEntityStep(s: EcsState, h: EntityHandle): (r: EcsState)
    requires Shaped(s) && h.id < |s.slots|
    ensures Shaped(r)
  {
    if IsEntityHandleValid(s.slots, h) then
      var e := s.slots[h.id];
      var dead := EntityHandle(false, NextGeneration(e.handle.generation), TruncateId(s.nextFree));
      s.(slots := s.slots[h.id := e.(handle := dead)], nextFree := h.id, live := Dec(s.live))
    else
      s
  }

  /** What `addComponent` returns: the component's slot handle, or the thrown "Bad entity handle". */
  datatype AddResult = Component(handle: nat) | BadEntityHandle

  datatype Added = Added(result: AddResult, state: EcsState, chunkCreated: bool)

  /**
   * `addComponent<T>` with `TypeId<T>() == t` and `sizeof(T) == size`: an
   * existing valid handle is returned unchanged; otherwise a slot is fetched
   * from container `t`, recorded, and `t` itself is OR-ed into the mask.
   */
  function AddComponentStep(s: EcsState, h: EntityHandle, t: nat, size: nat): (r: Added)
    requires Shaped(s) && h.id < |s.slots| && t < |s.containers| && size >= LinkBytes
    ensures Shaped(r.state)
  {
    if IsEntityHandleValid(s.slots, h) then
      var e := s.slots[h.id];
      if IsComponentHandleValid(e.components[t]) then
        Added(Component(e.components[t]), s, false)
      else
        var f := Fetch(EnsureContainer(s.containers[t], size));
        BitsBelow(t, 8);
        var e' := e.(components := e.components[t := f.handle], componentsMask := e.componentsMask + Bits(t));
        Added(Component(f.handle), s.(slots := s.slots[h.id := e'], containers := s.containers[t := f.container]), f.chunkCreated)
    else
      Added(BadEntityHandle, s, false)
  }

  /** The slot `removeComponent` writes must exist: its chunk was created. */
  predicate CanRemoveComponent(s: EcsState, h: EntityHandle, t: nat, size: nat)
    requires Shaped(s) && h.id < |s.slots| && t < |s.containers|
  {
    IsEntityHandleValid(s.slots, h) ==> CanRelease(EnsureContainer(s.containers[t], size), s.slots[h.id].components[t])
  }

  /**
   * `removeComponent<T>`, by its evident intent (the source line does not
   * compile once instantiated): clear bit `1 << t` of the mask and push the
   * entity's slot onto the container's free list. The entity keeps the
   * handle in `components[t]`.
   */
  function RemoveComponentStep(s: EcsState, h: EntityHandle, t: nat, size: nat): (r: EcsState)
    requires Shaped(s) && h.id < |s.slots| && t < |s.containers| && t < 64 && size >= LinkBytes
    requires CanRemoveComponent(s, h, t, size)
    ensures Shaped(r)
  {
    if IsEntityHandleValid(s.slots, h) then
      var e := s.slots[h.id];
      var compHandle := e.components[t];
      var e' := e.(componentsMask := e.componentsMask - {t});
      var c := EnsureContainer(s.containers[t], size);
      s.(slots := s.slots[h.id := e'], containers := s.containers[t := Release(c, compHandle)])
    else
      s
  }

  /** `entityHasComponent(entity, componentType)`: valid handle and a common mask bit. */
  predicate EntityHasComponent(s: EcsState, h: EntityHandle, t: nat)
    requires h.id < |s.slots|
  {
    IsEntityHandleValid(s.slots, h) && s.slots[h.id].componentsMask * Bits(t) != {}
  }

  /** `getEntityComponentHandle<T>`: the handle stored for type `t`, unchecked. */
  function GetEntityComponentHandle(s: EcsState, h: EntityHandle, t: nat): nat
    requires Shaped(s) && h.id < |s.slots| && t < |s.containers|
  {
    s.slots[h.id].components[t]
  }

  /** `isMatchingAllComponents`: every bit of `mask` is set in the entity's mask. */
  predicate IsMatchingAllComponents(e: Entity, mask: set<nat>)
  {
    mask <= e.componentsMask
  }

  /** `buildComponentMask<Components...>()`: the OR of the type ids. */
  function BuildComponentMask(typeIds: seq<nat>): set<nat>
    requires |typeIds| >= 1
  {
    if |typeIds| == 1 then Bits(typeIds[0]) else Bits(typeIds[0]) + BuildComponentMask(typeIds[1..])
  }

  /** What `forEach` reads: slots `1..liveEntities` and the slots their handles' ids name. */
  predicate ForEachSafe(s: EcsState)
  {
    s.live < |s.slots| && forall i | 1 <= i <= s.live :: s.slots[i].handle.id < |s.slots|
  }

  /** `forEach` hands slot `i` to the visitor. */
  predicate Visited(s: EcsState, mask: set<nat>, i: nat)
    requires 1 <= i < |s.slots| && s.slots[i].handle.id < |s.slots|
  {
    IsEntityAlive(s.slots, s.slots[i].handle) && IsMatchingAllComponents(s.slots[i], mask)
  }

  /** The ids `forEach` visits among `1..n`, in visiting order. */
  function VisitsUpTo(s: EcsState, mask: set<nat>, n: nat): seq<nat>
    requires ForEachSafe(s) && n <= s.live
  {
    if n == 0 then [] else VisitsUpTo(s, mask, n - 1) + (if Visited(s, mask, n) then [n] else [])
  }

  /** The ids `forEach` visits: it scans `1..liveEntities`. */
  function Visits(s: EcsState, mask: set<nat>): seq<nat>
    requires ForEachSafe(s)
  {
    VisitsUpTo(s, mask, s.live)
  }

  class Ecs {
    const maxComponents: nat
    var allocator: ArenaAllocator
    var nextFreeEntity: Word
    var liveEntities: Word
    var maxEntities: nat
    var entities: array<Entity>
    var containers: array<Container>

    ghost function Model(): EcsState
      reads this, entities, containers
    {
      EcsState(entities[..], nextFreeEntity, liveEntities, containers[..])
    }

    ghost predicate Valid()
      reads this, entities, containers, allocator
    {
      && entities.Length == maxEntities + 1
      && containers.Length == maxComponents
      && allocator.Valid()
      && Shaped(Model())
    }

    /**
     * `Ecs(arenaAllocator, maxEntities)`, which runs `init`: the arena is copied,
     * the table of `maxEntities + 1` slots is taken from it (its bytes are
     * zero), the free list is empty and the containers are fresh.
     */
    constructor (arena: ArenaAllocator, maxEntities: nat, maxComponents: nat)
      requires arena.Valid()
      requires maxEntities < IdLimit && maxComponents < 256
      requires arena.current + EntityBytes(maxComponents) * (maxEntities + 1) < arena.base + arena.total
      ensures Valid() && fresh(allocator) && fresh(entities) && fresh(containers)
      ensures this.maxEntities == maxEntities && this.maxComponents == maxComponents
      ensures Model() == Init(maxEntities, maxComponents)
      ensures allocator.base == arena.base && allocator.total == arena.total
      ensures allocator.current == arena.current + EntityBytes(maxComponents) * (maxEntities + 1)
    {
      this.maxComponents := maxComponents;
      this.maxEntities := maxEntities;
      var a := new ArenaAllocator.Copy(arena);
      var table := a.Alloc(EntityBytes(maxComponents), maxEntities + 1);
      allocator := a;
      entities := new Entity[maxEntities + 1](_ => ZeroEntity(maxComponents));
      liveEntities := 0;
      containers := new Container[maxComponents](_ => EmptyContainer);
      nextFreeEntity := 0;
      new;
      assert entities[..] == Init(maxEntities, maxComponents).slots;
      assert containers[..] == Init(maxEntities, maxComponents).containers;
    }

    method NewEntity() returns (h: EntityHandle)
      requires Valid() && CanCreate(Model())
      modifies this, entities
      ensures Valid()
      ensures allocator == old(allocator) && entities == old(entities) && containers == old(containers)
      ensures maxEntities == old(maxEntities)
      ensures Created(Model(), h) == NewEntityStep(old(Model()))
    {
      var newId: nat;
      if nextFreeEntity > 0 {
        newId := nextFreeEntity;
        liveEntities := Inc(liveEntities);
        nextFreeEntity := RawWord(entities[nextFreeEntity].handle);  // read through ChunkEmptyEntry
      } else {
        liveEntities := Inc(liveEntities);
        newId := liveEntities;
      }
      var e := ZeroEntity(maxComponents);   // e = {}
      e := e.(handle := e.handle);          // the handle is assigned to itself: the generation stays 0
      e := e.(componentsMask := {});
      e := e.(handle := e.handle.(id := newId));
      e := e.(handle := e.handle.(alive := true));
      entities[newId] := e;
      h := e.handle;
    }

    method RemoveEntity(h: EntityHandle)
      requires Valid() && h.id < entities.Length
      modifies this, entities
      ensures Valid()
      ensures allocator == old(allocator) && entities == old(entities) && containers == old(containers)
      ensures maxEntities == old(maxEntities)
      ensures Model() == RemoveEntityStep(old(Model()), h)
    {
      if IsEntityHandleValid(entities[..], h) {
        var e := entities[h.id];
        e := e.(handle := e.handle.(id := TruncateId(nextFreeEntity)));
        e := e.(handle := e.handle.(generation := NextGeneration(e.handle.generation)));
        e := e.(handle := e.handle.(alive := false));
        entities[h.id] := e;
        nextFreeEntity := h.id;
        liveEntities := Dec(liveEntities);
      }
    }

    method AddComponent(h: EntityHandle, t: nat, size: nat) returns (r: AddResult)
      requires Valid() && h.id < entities.Length && t < maxComponents && size >= LinkBytes
      requires AddComponentStep(Model(), h, t, size).chunkCreated ==>
        allocator.current + ChunkBytes(EnsureContainer(containers[t], size).componentSize) < allocator.base + allocator.total
      modifies entities, containers, allocator
      ensures Valid()
      ensures r == AddComponentStep(old(Model()), h, t, size).result
      ensures Model() == AddComponentStep(old(Model()), h, t, size).state
      ensures allocator.base == old(allocator.base) && allocator.total == old(allocator.total)
      ensures allocator.current == old(allocator.current) +
        if AddComponentStep(old(Model()), h, t, size).chunkCreated
        then ChunkBytes(EnsureContainer(old(containers[t]), size).componentSize) else 0
    {
      if IsEntityHandleValid(entities[..], h) {
        var entity := entities[h.id];
        if IsComponentHandleValid(entity.components[t]) {
          return Component(entity.components[t]);
        }
        EnsureComponentContainer(t, size);
        var handle := FetchNewComponentHandle(t);
        entities[h.id] := entity.(components := entity.components[t := handle],
                                  componentsMask := entity.componentsMask + Bits(t));
        return Component(handle);
      }
      r := BadEntityHandle;
    }

    method RemoveComponent(h: EntityHandle, t: nat, size: nat)
      requires Valid() && h.id < entities.Length && t < maxComponents && t < 64 && size >= LinkBytes
      requires CanRemoveComponent(Model(), h, t, size)
      modifies entities, containers
      ensures Valid()
      ensures Model() == RemoveComponentStep(old(Model()), h, t, size)
    {
      if IsEntityHandleValid(entities[..], h) {
        var entity := entities[h.id];
        var compHandle := entity.components[t];
        entities[h.id] := entity.(componentsMask := entity.componentsMask - {t});
        EnsureComponentContainer(t, size);
        containers[t] := Release(containers[t], compHandle);
      }
    }

    method EnsureComponentContainer(t: nat, size: nat)
      requires Valid() && t < maxComponents && size >= LinkBytes
      modifies containers
      ensures Valid()
      ensures containers[..] == old(containers[..])[t := EnsureContainer(old(containers[t]), size)]
    {
      if containers[t].componentSize == 0 {
        containers[t] := containers[t].(componentSize := size);
      }
    }

    method FetchNewComponentHandle(t: nat) returns (handle: nat)
      requires Valid() && t < maxComponents
      requires Fetch(containers[t]).chunkCreated ==>
        allocator.current + ChunkBytes(containers[t].componentSize) < allocator.base + allocator.total
      modifies containers, allocator
      ensures Valid()
      ensures handle == Fetch(old(containers[t])).handle
      ensures containers[..] == old(containers[..])[t := Fetch(old(containers[t])).container]
      ensures allocator.base == old(allocator.base) && allocator.total == old(allocator.total)
      ensures allocator.current == old(allocator.current) +
        if Fetch(old(containers[t])).chunkCreated then ChunkBytes(old(containers[t]).componentSize) else 0
    {
      if IsComponentHandleValid(containers[t].firstFree) {
        var newComponent := containers[t].firstFree;
        EnsureComponentChunkHandle(t, newComponent);
        containers[t] := containers[t].(firstFree := Link(containers[t], newComponent));
        handle := newComponent;
      } else {
        handle := 0;
      }
    }

    method EnsureComponentChunkHandle(t: nat, h: nat)
      requires Valid() && t < maxComponents && h < ComponentSlots
      requires !HasChunk(containers[t], h) ==>
        allocator.current + ChunkBytes(containers[t].componentSize) < allocator.base + allocator.total
      modifies containers, allocator
      ensures Valid()
      ensures containers[..] == old(containers[..])[t := EnsureChunk(old(containers[t]), h)]
      ensures allocator.base == old(allocator.base) && allocator.total == old(allocator.total)
      ensures allocator.current == old(allocator.current) +
        if HasChunk(old(containers[t]), h) then 0 else ChunkBytes(old(containers[t]).componentSize)
    {
      var chunkIdx := h / ComponentsPerChunk;
      if containers[t].chunks[chunkIdx].Unallocated? {
        var chunk := NewChunk(containers[t].componentSize, chunkIdx);
        containers[t] := containers[t].(chunks := containers[t].chunks[chunkIdx := chunk]);
      }
    }

    /** `newChunk`: the chunk record and its slots come from the arena; the slots are threaded. */
    method NewChunk(componentSize: nat, chunkIndex: nat) returns (chunk: Chunk)
      requires allocator.Valid()
      requires allocator.current + ChunkBytes(componentSize) < allocator.base + allocator.total
      modifies allocator
      ensures allocator.Valid()
      ensures chunk == Allocated(ChunkLinks(chunkIndex))
      ensures allocator.base == old(allocator.base) && allocator.total == old(allocator.total)
      ensures allocator.current == old(allocator.current) + ChunkBytes(componentSize)
    {
      var record := allocator.Alloc(PointerBytes, 1);
      var data := allocator.Alloc(1, componentSize * ComponentsPerChunk);
      var links := FillChunk(chunkIndex);
      chunk := Allocated(links);
    }

    /**
     * `forEach<Components...>`: the ids of the slots among `1..liveEntities`
     * whose handle names an alive slot and whose mask holds every bit of the
     * OR of the requested type ids, in ascending order.
     */
    method ForEach(typeIds: seq<nat>) returns (visited: seq<nat>)
      requires Valid() && ForEachSafe(Model())
      requires |typeIds| >= 1
      ensures visited == Visits(Model(), BuildComponentMask(typeIds))
    {
      var mask := BuildComponentMask(typeIds);
      visited := [];
      var i: nat := 1;
      while i <= liveEntities
        invariant 1 <= i <= liveEntities + 1
        invariant visited == VisitsUpTo(Model(), mask, i - 1)
      {
        var e := entities[i];
        if IsEntityAlive(entities[..], e.handle) && IsMatchingAllComponents(e, mask) {
          visited := visited + [i];
        }
        i := i + 1;
      }
    }
  }
  // ---------------------------------------------------------------------
  // Creating entities on a fresh table
  // ---------------------------------------------------------------------

  /** The slot of entity `i` right after `newEntity` created it. */
  function Spawned(i: EntityId, maxComponents: nat): Entity
  {
    Entity(EntityHandle(true, 0, i), {}, Zeros(maxComponents))
  }

  /** The state after `init` and `k` calls of `newEntity`. */
  function Fresh(maxEntities: nat, maxComponents: nat, k: nat): (r: EcsState)
    requires k <= maxEntities < IdLimit && maxComponents < 256
    ensures Shaped(r)
  {
    var r := EcsState(seq(maxEntities + 1, i requires 0 <= i => FreshEntry(maxComponents, k, i)),
                      0, k, seq(maxComponents, _ => EmptyContainer));
    assert forall i | 0 <= i < |r.slots| :: |r.slots[i].components| == maxComponents;
    r
  }

  /** Slot `i` of a table where entities `1..k` were created. */
  function FreshEntry(maxComponents: nat, k: nat, i: nat): (e: Entity)
    requires k < IdLimit
    ensures |e.components| == maxComponents
  {
    if 1 <= i <= k then Spawned(i, maxComponents) else ZeroEntity(maxComponents)
  }

  /**
   * `n` successive `newEntity` calls: the state afterwards and the handles
   * returned. The run stops where the capacity assertion would fail. A helper:
   * what the run yields is stated by `SpawnReachesFresh` and `SpawnInOrder`.
   */
  function SpawnRun(s: EcsState, n: nat): (r: (EcsState, seq<EntityHandle>))
    requires Shaped(s)
    ensures Shaped(r.0) && |r.1| <= n
    decreases n
  {
    if n == 0 || !CanCreate(s) then (s, [])
    else
      var c := NewEntityStep(s);
      var rest := SpawnRun(c.state, n - 1);
      (rest.0, [c.handle] + rest.1)
  }

  /** `init` is the state with no entity created. */
  lemma InitIsFresh(maxEntities: nat, maxComponents: nat)
    requires maxEntities < IdLimit && maxComponents < 256
    ensures Init(maxEntities, maxComponents) == Fresh(maxEntities, maxComponents, 0)
    ensures Shaped(Init(maxEntities, maxComponents))
  {
    assert Init(maxEntities, maxComponents).slots == Fresh(maxEntities, maxComponents, 0).slots;
  }

  /** On a fresh table with room left, `newEntity` hands out the next id, alive, generation 0. */
  lemma SpawnNext(maxEntities: nat, maxComponents: nat, k: nat)
    requires k < maxEntities < IdLimit && maxComponents < 256
    ensures Shaped(Fresh(maxEntities, maxComponents, k)) && CanCreate(Fresh(maxEntities, maxComponents, k))
    ensures NewEntityStep(Fresh(maxEntities, maxComponents, k))
      == Created(Fresh(maxEntities, maxComponents, k + 1), EntityHandle(true, 0, k + 1))
  {
    var s := Fresh(maxEntities, maxComponents, k);
    assert Inc(k) == k + 1;
    var c := NewEntityStep(s);
    assert Zeros(|s.containers|) == Zeros(maxComponents);
    assert c.state.slots == Fresh(maxEntities, maxComponents, k + 1).slots;
  }

  /** Once `maxEntities` entities exist and none was removed, `newEntity` must not be called. */
  lemma SpawnFull(maxEntities: nat, maxComponents: nat)
    requires maxEntities < IdLimit && maxComponents < 256
    ensures !CanCreate(Fresh(maxEntities, maxComponents, maxEntities))
  {
    assert Inc(maxEntities) == maxEntities + 1;
  }

  /**
   * From the state after `m` creations, `n` more calls of `newEntity` leave the
   * state after `m + n` creations, until the table is full; past that point
   * `newEntity` must not be called and the run stops.
   */
  lemma {:induction false} SpawnReachesFresh(maxEntities: nat, maxComponents: nat, m: nat, n: nat)
    requires m <= maxEntities < IdLimit && maxComponents < 256
    ensures SpawnRun(Fresh(maxEntities, maxComponents, m), n).0 == Fresh(maxEntities, maxComponents, Min(m + n, maxEntities))
    decreases n
  {
    if n == 0 {
    } else if m == maxEntities {
      SpawnFull(maxEntities, maxComponents);
    } else {
      SpawnNext(maxEntities, maxComponents, m);
      SpawnReachesFresh(maxEntities, maxComponents, m + 1, n - 1);
    }
  }

  /** ... and the calls return the handles of entities `m + 1, m + 2, ...` in order. */
  lemma {:induction false} SpawnInOrder(maxEntities: nat, maxComponents: nat, m: nat, n: nat)
    requires m <= maxEntities < IdLimit && maxComponents < 256
    ensures SpawnRun(Fresh(maxEntities, maxComponents, m), n).1 == SpawnedHandles(m + 1, Min(n, maxEntities - m))
    decreases n
  {
    if n == 0 {
      assert SpawnedHandles(m + 1, 0) == [];
    } else if m == maxEntities {
      SpawnFull(maxEntities, maxComponents);
      assert SpawnedHandles(m + 1, 0) == [];
    } else {
      SpawnNext(maxEntities, maxComponents, m);
      SpawnInOrder(maxEntities, maxComponents, m + 1, n - 1);
      SpawnedHandlesCons(m + 1, Min(n, maxEntities - m));
    }
  }

  /**
   * Asking `init` state for `n >= maxEntities` entities yields exactly the ids
   * `1..maxEntities`, after which the table is full.
   */
  lemma CreateAllEntities(maxEntities: nat, maxComponents: nat, n: nat)
    requires maxEntities <= n && maxEntities < IdLimit && maxComponents < 256
    ensures Shaped(Init(maxEntities, maxComponents))
    ensures SpawnRun(Init(maxEntities, maxComponents), n).1 == SpawnedHandles(1, maxEntities)
    ensures !CanCreate(SpawnRun(Init(maxEntities, maxComponents), n).0)
  {
    InitIsFresh(maxEntities, maxComponents);
    SpawnReachesFresh(maxEntities, maxComponents, 0, n);
    SpawnInOrder(maxEntities, maxComponents, 0, n);
    SpawnFull(maxEntities, maxComponents);
  }

  /**
   * A new entity is alive, has generation 0, and its slot is wiped: an empty
   * mask and every component handle 0. The head moves on (popped through the
   * raw word, or left at 0), the live count is incremented, and no other slot
   * or container changes.
   */
  lemma NewEntityIsBlank(s: EcsState)
    requires Shaped(s) && CanCreate(s)
    ensures var r := NewEntityStep(s);
      && r.handle.id == (if s.nextFree > 0 then s.nextFree else Inc(s.live))
      && r.handle.alive && r.handle.generation == 0
      && IsEntityHandleValid(r.state.slots, r.handle)
      && r.state.slots[r.handle.id] == Entity(r.handle, {}, Zeros(|s.containers|))
      && (forall t: nat :: !EntityHasComponent(r.state, r.handle, t))
      && (forall t | 0 <= t < |s.containers| :: !IsComponentHandleValid(r.state.slots[r.handle.id].components[t]))
      && r.state.nextFree == (if s.nextFree > 0 then RawWord(s.slots[s.nextFree].handle) else 0)
      && r.state.live == Inc(s.live)
      && r.state.containers == s.containers
      && forall i | 0 <= i < |s.slots| && i != r.handle.id :: r.state.slots[i] == s.slots[i]
  {
  }

  // ---------------------------------------------------------------------
  // Removing and reusing entities
  // ---------------------------------------------------------------------

  /**
   * Removing through a valid handle invalidates it (the generation moves on,
   * the alive bit is cleared), makes its id the head of the free list and
   * touches no other slot; an invalid handle changes nothing.
   */
  lemma RemoveEntityInvalidates(s: EcsState, h: EntityHandle)
    requires Shaped(s) && h.id < |s.slots|
    ensures IsEntityHandleValid(s.slots, h) ==>
      var r := RemoveEntityStep(s, h);
      && !IsEntityHandleValid(r.slots, h)
      && (forall t: nat :: !EntityHasComponent(r, h, t))
      && r.slots[h.id].handle == EntityHandle(false, NextGeneration(h.generation), TruncateId(s.nextFree))
      && r.slots[h.id].components == s.slots[h.id].components
      && r.slots[h.id].componentsMask == s.slots[h.id].componentsMask
      && r.nextFree == h.id && r.live == Dec(s.live)
      && r.containers == s.containers
      && forall i | 0 <= i < |s.slots| && i != h.id :: r.slots[i] == s.slots[i]
    ensures !IsEntityHandleValid(s.slots, h) ==> RemoveEntityStep(s, h) == s
  {
  }

  /**
   * The entity free list is LIFO: the next `newEntity` after a removal reuses
   * the removed id. It comes back with generation 0, so a stale handle of
   * generation 0 to it is valid again; and the head it leaves is the raw word
   * of the removed slot, not the head that removal saved.
   */
  lemma ReuseAfterRemove(s: EcsState, h: EntityHandle)
    requires Shaped(s) && 0 < h.id < |s.slots| && IsEntityHandleValid(s.slots, h)
    ensures CanCreate(RemoveEntityStep(s, h))
    ensures var c := NewEntityStep(RemoveEntityStep(s, h));
      && c.handle == EntityHandle(true, 0, h.id)
      && (h.generation == 0 ==> IsEntityHandleValid(c.state.slots, h))
      && c.state.nextFree == 2 * NextGeneration(h.generation) + 16 * TruncateId(s.nextFree)
      && c.state.live == s.live
  {
    var r := RemoveEntityStep(s, h);
    assert r.slots[h.id].handle == EntityHandle(false, NextGeneration(h.generation), TruncateId(s.nextFree));
    assert Inc(Dec(s.live)) == s.live;
  }

  /**
   * Because the pop reads the raw word the removal did not write, the free
   * list goes wrong after one reuse. With entities 1 and 2 alive, removing 1
   * and creating twice returns 1 and then 2 again, while entity 2 is still
   * alive, and `liveEntities` then counts three.
   */
  lemma ReissuesLiveEntity(maxEntities: nat, maxComponents: nat)
    requires 2 <= maxEntities < IdLimit && maxComponents < 256
    ensures var s1 := RemoveEntityStep(Fresh(maxEntities, maxComponents, 2), EntityHandle(true, 0, 1));
      && CanCreate(s1)
      && var c1 := NewEntityStep(s1);
      && c1.handle == EntityHandle(true, 0, 1)
      && IsEntityHandleValid(c1.state.slots, EntityHandle(true, 0, 2))
      && CanCreate(c1.state)
      && var c2 := NewEntityStep(c1.state);
      && c2.handle == EntityHandle(true, 0, 2)
      && c2.state.live == 3
  {
    SpawnInOrder(maxEntities, maxComponents, 0, 2);
    var s0 := Fresh(maxEntities, maxComponents, 2);
    var s1 := RemoveEntityStep(s0, EntityHandle(true, 0, 1));
    assert s1.slots[1].handle == EntityHandle(false, 1, 0);
    var c1 := NewEntityStep(s1);
    assert c1.state.nextFree == 2;
  }

  // ---------------------------------------------------------------------
  // Components
  // ---------------------------------------------------------------------

  /** An invalid entity handle is refused (the source throws) and nothing changes. */
  lemma AddComponentBadHandle(s: EcsState, h: EntityHandle, t: nat, size: nat)
    requires Shaped(s) && h.id < |s.slots| && t < |s.containers| && size >= LinkBytes
    ensures !IsEntityHandleValid(s.slots, h) <==> AddComponentStep(s, h, t, size).result == BadEntityHandle
    ensures !IsEntityHandleValid(s.slots, h) ==> AddComponentStep(s, h, t, size).state == s
  {
  }

  /**
   * Adding a type the entity has no valid handle for records a new handle:
   * the head of the sized container's free list, which is popped after its
   * chunk is made to exist; the mask becomes the old mask plus the bits of
   * the type id; the slot keeps its entity handle; no other slot, component
   * handle or container changes, nor do the entity free list and the live
   * count. `entityHasComponent` then holds exactly when the type id is
   * non-zero (type 0 adds no bit), even when the container was exhausted and
   * the handle recorded is 0.
   */
  lemma AddComponentRecords(s: EcsState, h: EntityHandle, t: nat, size: nat)
    requires Shaped(s) && h.id < |s.slots| && t < |s.containers| && size >= LinkBytes
    requires IsEntityHandleValid(s.slots, h) && !IsComponentHandleValid(s.slots[h.id].components[t])
    ensures var c := EnsureContainer(s.containers[t], size);
      var a := AddComponentStep(s, h, t, size);
      && a.result == Component(if IsComponentHandleValid(c.firstFree) then c.firstFree else 0)
      && GetEntityComponentHandle(a.state, h, t) == a.result.handle
      && (IsComponentHandleValid(c.firstFree) ==>
            var c1 := EnsureChunk(c, c.firstFree);
            && a.state.containers[t] == c1.(firstFree := Link(c1, c.firstFree))
            && a.chunkCreated == !HasChunk(c, c.firstFree))
      && (!IsComponentHandleValid(c.firstFree) ==> a.state.containers[t] == c && !a.chunkCreated)
      && a.state.slots[h.id].handle == s.slots[h.id].handle
      && a.state.slots[h.id].componentsMask == s.slots[h.id].componentsMask + Bits(t)
      && (EntityHasComponent(a.state, h, t) <==> t > 0)
      && (forall u | 0 <= u < |s.containers| && u != t ::
            a.state.slots[h.id].components[u] == s.slots[h.id].components[u] && a.state.containers[u] == s.containers[u])
      && (forall i | 0 <= i < |s.slots| && i != h.id :: a.state.slots[i] == s.slots[i])
      && a.state.nextFree == s.nextFree && a.state.live == s.live
  {
    if t > 0 {
      BitsNonEmpty(t);
    }
  }

  /**
   * Adding a type the entity already has a valid handle for returns that
   * handle, creates no chunk and changes nothing.
   */
  lemma AddComponentExisting(s: EcsState, h: EntityHandle, t: nat, size: nat)
    requires Shaped(s) && h.id < |s.slots| && t < |s.containers| && size >= LinkBytes
    requires IsEntityHandleValid(s.slots, h) && IsComponentHandleValid(s.slots[h.id].components[t])
    ensures AddComponentStep(s, h, t, size) == Added(Component(s.slots[h.id].components[t]), s, false)
  {
  }

  /** So a successful add, repeated, returns the same handle and changes nothing. */
  lemma AddComponentIdempotent(s: EcsState, h: EntityHandle, t: nat, size: nat)
    requires Shaped(s) && h.id < |s.slots| && t < |s.containers| && size >= LinkBytes
    requires AddComponentStep(s, h, t, size).result.Component?
    requires IsComponentHandleValid(AddComponentStep(s, h, t, size).result.handle)
    ensures var a := AddComponentStep(s, h, t, size);
      AddComponentStep(a.state, h, t, size) == Added(a.result, a.state, false)
  {
    var a := AddComponentStep(s, h, t, size);
    assert a.state.slots[h.id].components[t] == a.result.handle;
    AddComponentExisting(a.state, h, t, size);
  }

  /**
   * `addComponent` ORs the type id itself into the mask while
   * `entityHasComponent` tests for a common bit: after adding type 3 the
   * entity also counts as having types 1 and 2.
   */
  lemma MaskAliasesTypeIds(s: EcsState, h: EntityHandle, size: nat)
    requires Shaped(s) && h.id < |s.slots| && 3 < |s.containers| && size >= LinkBytes
    requires IsEntityHandleValid(s.slots, h) && !IsComponentHandleValid(s.slots[h.id].components[3])
    ensures var a := AddComponentStep(s, h, 3, size).state;
      EntityHasComponent(a, h, 1) && EntityHasComponent(a, h, 2) && EntityHasComponent(a, h, 3)
  {
    SmallBits();
  }

  /**
   * `removeComponent` clears bit `1 << t` of the mask, keeps the handle in the
   * entity, and pushes that handle onto the sized container's free list: no
   * other slot of that container, no other container, the entity free list
   * and the live count do not change.
   */
  lemma RemoveComponentEffect(s: EcsState, h: EntityHandle, t: nat, size: nat)
    requires Shaped(s) && h.id < |s.slots| && t < |s.containers| && t < 64 && size >= LinkBytes
    requires CanRemoveComponent(s, h, t, size) && IsEntityHandleValid(s.slots, h)
    ensures var r := RemoveComponentStep(s, h, t, size);
      var x := s.slots[h.id].components[t];
      && t !in r.slots[h.id].componentsMask
      && r.slots[h.id].componentsMask + {t} == s.slots[h.id].componentsMask + {t}
      && r.slots[h.id].components == s.slots[h.id].components
      && r.slots[h.id].handle == s.slots[h.id].handle
      && r.containers[t].firstFree == x
      && Link(r.containers[t], x) == EnsureContainer(s.containers[t], size).firstFree
      && r.containers[t].componentSize == EnsureContainer(s.containers[t], size).componentSize
      && (forall y | 0 <= y < ComponentSlots && y != x ::
            && HasChunk(r.containers[t], y) == HasChunk(EnsureContainer(s.containers[t], size), y)
            && (HasChunk(r.containers[t], y) ==> Link(r.containers[t], y) == Link(EnsureContainer(s.containers[t], size), y)))
      && (forall u | 0 <= u < |s.containers| && u != t :: r.containers[u] == s.containers[u])
      && r.nextFree == s.nextFree && r.live == s.live
      && forall i | 0 <= i < |s.slots| && i != h.id :: r.slots[i] == s.slots[i]
  {
  }

  /**
   * Because the mask bit added for type 1 is `1` and the one removed is
   * `1 << 1`, an entity still has type 1 after adding and removing it.
   */
  lemma RemoveComponentKeepsMembership(s: EcsState, h: EntityHandle, size: nat)
    requires Shaped(s) && h.id < |s.slots| && 1 < |s.containers| && size >= LinkBytes
    requires IsEntityHandleValid(s.slots, h) && !IsComponentHandleValid(s.slots[h.id].components[1])
    requires CanRemoveComponent(AddComponentStep(s, h, 1, size).state, h, 1, size)
    ensures var a := AddComponentStep(s, h, 1, size).state;
      EntityHasComponent(a, h, 1) && EntityHasComponent(RemoveComponentStep(a, h, 1, size), h, 1)
  {
    SmallBits();
  }

  /**
   * The removed component's handle stays in the entity while it is also on
   * the free list, so the next entity to add that type is given the same slot:
   * two live entities then share one component.
   */
  lemma RemovedSlotShared(s: EcsState, h1: EntityHandle, h2: EntityHandle, t: nat, size: nat)
    requires Shaped(s) && h1.id < |s.slots| && h2.id < |s.slots| && h1.id != h2.id
    requires t < |s.containers| && t < 64 && size >= LinkBytes
    requires IsEntityHandleValid(s.slots, h1) && IsEntityHandleValid(s.slots, h2)
    requires IsComponentHandleValid(s.slots[h1.id].components[t]) && !IsComponentHandleValid(s.slots[h2.id].components[t])
    requires CanRemoveComponent(s, h1, t, size)
    ensures var x := s.slots[h1.id].components[t];
      var a := AddComponentStep(RemoveComponentStep(s, h1, t, size), h2, t, size);
      && a.result == Component(x)
      && a.state.slots[h1.id].components[t] == x
      && a.state.slots[h2.id].components[t] == x
      && IsEntityHandleValid(a.state.slots, h1) && IsEntityHandleValid(a.state.slots, h2)
  {
    var x := s.slots[h1.id].components[t];
    var c := EnsureContainer(s.containers[t], size);
    var r := RemoveComponentStep(s, h1, t, size);
    assert r.containers[t] == Release(c, x);
    assert EnsureContainer(Release(c, x), size) == Release(c, x);
    FetchAfterRelease(c, x);
  }

  // ---------------------------------------------------------------------
  // Masks and iteration
  // ---------------------------------------------------------------------

  /** The one bits of the type ids 1, 2 and 3. */
  lemma SmallBits()
    ensures Bits(1) == {0} && Bits(2) == {1} && Bits(3) == {0, 1}
  {
    assert Bits(0) == {};
    assert Bits(1) == {0} + set i | i in Bits(0) :: i + 1;
    assert Bits(1) == {0};
    assert Bits(2) == {} + set i | i in Bits(1) :: i + 1;
    assert Bits(3) == {0} + set i | i in Bits(1) :: i + 1;
  }

  /**
   * An entity matches the mask `buildComponentMask` builds exactly when its
   * mask holds every bit of every requested type id.
   */
  lemma {:induction false} BuildComponentMaskMatches(e: Entity, typeIds: seq<nat>)
    requires |typeIds| >= 1
    ensures IsMatchingAllComponents(e, BuildComponentMask(typeIds))
      <==> forall i | 0 <= i < |typeIds| :: Bits(typeIds[i]) <= e.componentsMask
    decreases |typeIds|
  {
    if |typeIds| > 1 {
      var rest := typeIds[1..];
      BuildComponentMaskMatches(e, rest);
      assert forall i | 1 <= i < |typeIds| :: typeIds[i] == rest[i - 1];
    }
  }

  /**
   * `forEach` visits, in ascending order, exactly the ids `1..liveEntities`
   * whose slot passes the alive and mask tests.
   */
  lemma {:induction false} VisitsExactly(s: EcsState, mask: set<nat>, n: nat)
    requires ForEachSafe(s) && n <= s.live
    ensures forall x: nat :: x in VisitsUpTo(s, mask, n) <==> 1 <= x <= n && Visited(s, mask, x)
    ensures forall i, j | 0 <= i < j < |VisitsUpTo(s, mask, n)| :: VisitsUpTo(s, mask, n)[i] < VisitsUpTo(s, mask, n)[j]
    decreases n
  {
    if n > 0 {
      VisitsExactly(s, mask, n - 1);
      var prev := VisitsUpTo(s, mask, n - 1);
      var last := if Visited(s, mask, n) then [n] else [];
      assert VisitsUpTo(s, mask, n) == prev + last;
      forall x: nat
        ensures x in prev + last <==> 1 <= x <= n && Visited(s, mask, x)
      {
        assert x in prev + last <==> x in prev || x in last;
      }
      forall i, j | 0 <= i < j < |prev + last|
        ensures (prev + last)[i] < (prev + last)[j]
      {
        if j >= |prev| {
          assert (prev + last)[i] == prev[i] && prev[i] in prev;
        }
      }
    }
  }

  /** The slot of entity `i` after it was created and given a component of type `t`. */
  function PopulatedSlot(i: EntityId, maxComponents: nat, t: nat): (e: Entity)
    requires t < maxComponents < 256
    ensures |e.components| == maxComponents && MaskFits(e.componentsMask)
  {
    BitsBelow(t, 8);
    Entity(EntityHandle(true, 0, i), Bits(t), Zeros(maxComponents)[t := i])
  }

  /** Slot `i` of a table where entities `1..n` were created and given type `t`. */
  function PopulatedEntry(maxComponents: nat, t: nat, n: nat, i: nat): (e: Entity)
    requires t < maxComponents < 256 && n < IdLimit
    ensures |e.components| == maxComponents && MaskFits(e.componentsMask)
  {
    if 1 <= i <= n then PopulatedSlot(i, maxComponents, t) else ZeroEntity(maxComponents)
  }

  /**
   * The state after `init` followed by `n` rounds of "create an entity, give it
   * a component of type `t` and size `size`": entity `i` holds component `i`.
   */
  function Populated(maxEntities: nat, maxComponents: nat, t: nat, size: nat, n: nat): (r: EcsState)
    requires n <= maxEntities < IdLimit && t < maxComponents < 256
    ensures Shaped(r)
  {
    AfterWellFormed(size, n);
    var r := EcsState(seq(maxEntities + 1, i requires 0 <= i => PopulatedEntry(maxComponents, t, n, i)),
                      0, n,
                      seq(maxComponents, j => if j == t && n > 0 then After(size, n) else EmptyContainer));
    assert forall i | 0 <= i < |r.slots| :: |r.slots[i].components| == maxComponents && MaskFits(r.slots[i].componentsMask);
    r
  }

  /** Zero rounds leave the state `init` leaves. */
  lemma PopulatedFromInit(maxEntities: nat, maxComponents: nat, t: nat, size: nat)
    requires maxEntities < IdLimit && t < maxComponents < 256
    ensures Populated(maxEntities, maxComponents, t, size, 0) == Init(maxEntities, maxComponents)
  {
    assert Populated(maxEntities, maxComponents, t, size, 0).slots == Init(maxEntities, maxComponents).slots;
  }

  /** One more round of create-and-add on a populated table. */
  lemma PopulateStep(maxEntities: nat, maxComponents: nat, t: nat, size: nat, n: nat)
    requires n < maxEntities < IdLimit && t < maxComponents < 256 && size >= LinkBytes
    requires n < ComponentSlots - 1
    ensures Shaped(Populated(maxEntities, maxComponents, t, size, n))
    ensures CanCreate(Populated(maxEntities, maxComponents, t, size, n))
    ensures var c := NewEntityStep(Populated(maxEntities, maxComponents, t, size, n));
      && c.handle == EntityHandle(true, 0, n + 1)
      && AddComponentStep(c.state, c.handle, t, size)
         == Added(Component(n + 1), Populated(maxEntities, maxComponents, t, size, n + 1), n == 0 || (n + 1) % ComponentsPerChunk == 0)
  {
    var s := Populated(maxEntities, maxComponents, t, size, n);
    var s' := Populated(maxEntities, maxComponents, t, size, n + 1);
    AfterWellFormed(size, n);
    AfterWellFormed(size, n + 1);
    assert Shaped(s);
    assert Inc(n) == n + 1;
    var c := NewEntityStep(s);
    assert c.handle == EntityHandle(true, 0, n + 1);
    var cont := EnsureContainer(s.containers[t], size);
    assert cont == After(size, n);
    FetchAfter(size, n);
    var a := AddComponentStep(c.state, c.handle, t, size);
    assert a.state.slots[n + 1] == PopulatedSlot(n + 1, maxComponents, t);
    assert a.state.slots == s'.slots;
    assert a.state.containers == s'.containers;
  }

  /** On a populated table `forEach` over type `t` visits every entity, in id order. */
  lemma VisitsPopulated(maxEntities: nat, maxComponents: nat, t: nat, size: nat, n: nat)
    requires n <= maxEntities < IdLimit && t < maxComponents < 256
    ensures ForEachSafe(Populated(maxEntities, maxComponents, t, size, n))
    ensures Visits(Populated(maxEntities, maxComponents, t, size, n), BuildComponentMask([t])) == Range(1, n)
  {
    VisitsPopulatedUpTo(maxEntities, maxComponents, t, size, n, n);
  }

  lemma {:induction false} VisitsPopulatedUpTo(maxEntities: nat, maxComponents: nat, t: nat, size: nat, n: nat, m: nat)
    requires m <= n <= maxEntities < IdLimit && t < maxComponents < 256
    ensures ForEachSafe(Populated(maxEntities, maxComponents, t, size, n))
    ensures VisitsUpTo(Populated(maxEntities, maxComponents, t, size, n), Bits(t), m) == Range(1, m)
    decreases m
  {
    var s := Populated(maxEntities, maxComponents, t, size, n);
    assert ForEachSafe(s);
    if m > 0 {
      VisitsPopulatedUpTo(maxEntities, maxComponents, t, size, n, m - 1);
      assert s.slots[m] == PopulatedSlot(m, maxComponents, t);
      assert Visited(s, Bits(t), m);
      RangeSnoc(1, m - 1);
    }
  }

  /**
   * `forEach` scans ids up to `liveEntities` only: once entity 1 of a
   * populated table is removed, the valid, matching entity `n` is skipped.
   */
  lemma ForEachMissesAfterRemoval(maxEntities: nat, maxComponents: nat, t: nat, size: nat, n: nat)
    requires 2 <= n <= maxEntities < IdLimit && t < maxComponents < 256
    ensures var r := RemoveEntityStep(Populated(maxEntities, maxComponents, t, size, n), EntityHandle(true, 0, 1));
      && IsEntityHandleValid(r.slots, EntityHandle(true, 0, n))
      && IsMatchingAllComponents(r.slots[n], BuildComponentMask([t]))
      && ForEachSafe(r)
      && n !in Visits(r, BuildComponentMask([t]))
  {
    var s := Populated(maxEntities, maxComponents, t, size, n);
    var r := RemoveEntityStep(s, EntityHandle(true, 0, 1));
    assert s.slots[1] == PopulatedSlot(1, maxComponents, t);
    assert s.slots[n] == PopulatedSlot(n, maxComponents, t);
    assert r.live == n - 1;
    assert ForEachSafe(r);
    VisitsExactly(r, Bits(t), n - 1);
  }
}
