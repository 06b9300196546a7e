/**
 * The entity/component engine of `tecs/tecs.h` (the earlier revision).
 *
 * It differs from the current revision in four ways that matter here: the
 * table and the containers are `std::array` members and chunks come from the
 * heap; `init` threads the entity free list through the raw words of the
 * slots; there is no `liveEntities` counter and no component mask, so
 * `entityHasComponent` tests the component handle itself and `forEach` scans
 * the whole table; and `isMatchingComponents` only ever looks at component
 * type 1.
 */
module TecsLegacy {
  import opened Handles
  import opened Containers

  /** One slot of the entity table (`TEntity`): a handle and one component handle per type. */
  datatype Entity = Entity(handle: EntityHandle, components: seq<nat>)

  function ZeroEntity(maxComponents: nat): Entity
  {
    Entity(NullHandle, Zeros(maxComponents))
  }

  /** The `MaxEntities + 1` table slots (slot 0 reserved), `nextFreeEntity` and the containers. */
  datatype EcsState = EcsState(slots: seq<Entity>, nextFree: Word, containers: seq<Container>)

  /** Table and containers have the sizes of the template arguments. */
  predicate Shaped(s: EcsState)
  {
    && 1 <= |s.slots| <= IdLimit
    && |s.containers| < 256
    && (forall i | 0 <= i < |s.slots| :: |s.slots[i].components| == |s.containers|)
    && (forall t | 0 <= t < |s.containers| :: WellFormed(s.containers[t]))
  }

  /** Slot `i` after `init`: raw word `i + 1`, except the last slot, whose raw word is 0. */
  function ThreadedEntry(maxEntities: nat, maxComponents: nat, i: nat): (e: Entity)
    ensures |e.components| == maxComponents
  {
    Entity(FromRawWord(if i < maxEntities then i + 1 else 0), Zeros(maxComponents))
  }

  /** The state `init` leaves: the free list threaded through the raw words, head 1. */
  function InitStep(maxEntities: nat, maxComponents: nat): (r: EcsState)
    requires maxEntities < IdLimit && maxComponents < 256
    ensures Shaped(r)
  {
    var r := EcsState(seq(maxEntities + 1, i requires 0 <= i => ThreadedEntry(maxEntities, maxComponents, i)),
                      1, seq(maxComponents, _ => EmptyContainer));
    assert forall i | 0 <= i < |r.slots| :: |r.slots[i].components| == maxComponents;
    r
  }

  /** `isEntityAlive`: the alive bit of the slot the handle's id names. */
  predicate IsEntityAlive(slots: seq<Entity>, h: EntityHandle)
    requires h.id < |slots|
  {
    slots[h.id].handle.alive
  }

  /** `isEntityHandleValid`: that slot is alive and its generation is the handle's. */
  predicate IsEntityHandleValid(slots: seq<Entity>, h: EntityHandle)
    requires h.id < |slots|
  {
    IsEntityAlive(slots, h) && slots[h.id].handle.generation == h.generation
  }

  /** What `newEntity` demands: a non-zero head must index the table. */
  predicate CanCreate(s: EcsState)
  {
    s.nextFree == 0 || s.nextFree < |s.slots|
  }

  datatype Created = Created(state: EcsState, handle: EntityHandle)

  /**
   * `newEntity`: with a non-zero head, pop it (the next head is the raw word
   * of the popped slot), wipe the slot and give it alive = 1 and its id,
   * generation 0. With head 0 the table is full: the (disabled) assertion
   * fires and the null handle is returned.
   */
  function NewEntityStep(s: EcsState): (r: Created)
    requires Shaped(s) && CanCreate(s)
    ensures Shaped(r.state)
  {
    if s.nextFree > 0 then
      var id := s.nextFree;
      var e := Entity(EntityHandle(true, 0, id), Zeros(|s.containers|));
      Created(s.(slots := s.slots[id := e], nextFree := RawWord(s.slots[id].handle)), e.handle)
    else
      Created(s, NullHandle)
  }

  /**
   * `removeEntity`: for a valid handle, the slot's id field takes the head
   * (truncated to 28 bits), the generation advances modulo 8, the alive bit is
   * cleared and the id becomes the head. An invalid handle changes nothing.
   */
  function RemoveEntityStep(s: EcsState, h: EntityHandle): (r: EcsState)
    requires Shaped(s) && h.id < |s.slots|
    ensures Shaped(r)
  {
    if IsEntityHandleValid(s.slots, h) then
      var e := s.slots[h.id];
      var dead := EntityHandle(false, NextGeneration(e.handle.generation), TruncateId(s.nextFree));
      s.(slots := s.slots[h.id := e.(handle := dead)], nextFree := h.id)
    else
      s
  }

  /** What `addComponent` returns: the component's slot handle, or the thrown "Bad entity handle". */
  datatype AddResult = Component(handle: nat) | BadEntityHandle

  datatype Added = Added(result: AddResult, state: EcsState)

  /**
   * `addComponent<T>` with `TypeId<T>() == t` and `sizeof(T) == size`: an
   * existing valid handle is returned unchanged; otherwise a slot is fetched
   * from container `t` and recorded in the entity.
   */
  function AddComponentStep(s: EcsState, h: EntityHandle, t: nat, size: nat): (r: Added)
    requires Shaped(s) && h.id < |s.slots| && t < |s.containers| && size >= LinkBytes
    ensures Shaped(r.state)
  {
    if IsEntityHandleValid(s.slots, h) then
      var e := s.slots[h.id];
      if IsComponentHandleValid(e.components[t]) then
        Added(Component(e.components[t]), s)
      else
        var f := Fetch(EnsureContainer(s.containers[t], size));
        var e' := e.(components := e.components[t := f.handle]);
        Added(Component(f.handle), s.(slots := s.slots[h.id := e'], containers := s.containers[t := f.container]))
    else
      Added(BadEntityHandle, s)
  }

  /** The slot `removeComponent` writes must exist: its chunk was created. */
  predicate CanRemoveComponent(s: EcsState, h: EntityHandle, t: nat, size: nat)
    requires Shaped(s) && h.id < |s.slots| && t < |s.containers|
  {
    IsEntityHandleValid(s.slots, h) ==> CanRelease(EnsureContainer(s.containers[t], size), s.slots[h.id].components[t])
  }

  /**
   * `removeComponent<T>`, by its evident intent (the source line does not
   * compile once instantiated): push the entity's slot onto the container's
   * free list. The entity keeps the handle.
   */
  function RemoveComponentStep(s: EcsState, h: EntityHandle, t: nat, size: nat): (r: EcsState)
    requires Shaped(s) && h.id < |s.slots| && t < |s.containers| && size >= LinkBytes
    requires CanRemoveComponent(s, h, t, size)
    ensures Shaped(r)
  {
    if IsEntityHandleValid(s.slots, h) then
      var c := EnsureContainer(s.containers[t], size);
      s.(containers := s.containers[t := Release(c, s.slots[h.id].components[t])])
    else
      s
  }

  /** `entityHasComponent(entity, componentType)`: valid entity handle and valid component handle. */
  predicate EntityHasComponent(s: EcsState, h: EntityHandle, t: nat)
    requires h.id < |s.slots| && Shaped(s) && t < |s.containers|
  {
    IsEntityHandleValid(s.slots, h) && IsComponentHandleValid(s.slots[h.id].components[t])
  }

  /** `getEntityComponentHandle<T>`: the handle stored for type `t`, unchecked. */
  function GetEntityComponentHandle(s: EcsState, h: EntityHandle, t: nat): nat
    requires h.id < |s.slots| && Shaped(s) && t < |s.containers|
  {
    s.slots[h.id].components[t]
  }

  /** `isMatchingComponents`: a non-zero handle for type 1 and bit 0 set in the mask. */
  predicate IsMatchingComponents(e: Entity, mask: nat)
    requires |e.components| > 1
  {
    e.components[1] > 0 && mask % 2 == 1
  }

  /**
   * What `forEach` reads: every slot's handle names a slot, and a slot whose
   * handle passes the alive test has a type-1 handle to look at.
   */
  predicate ForEachSafe(s: EcsState)
  {
    forall i | 1 <= i < |s.slots| ::
      s.slots[i].handle.id < |s.slots| && (s.slots[s.slots[i].handle.id].handle.alive ==> |s.slots[i].components| > 1)
  }

  /** `forEach` hands slot `i` to the visitor. */
  predicate Visited(s: EcsState, mask: nat, i: nat)
    requires ForEachSafe(s) && 1 <= i < |s.slots|
  {
    IsEntityAlive(s.slots, s.slots[i].handle) && IsMatchingComponents(s.slots[i], mask)
  }

  /** The ids `forEach` visits among `1..n`, in visiting order. */
  function VisitsUpTo(s: EcsState, mask: nat, n: nat): seq<nat>
    requires ForEachSafe(s) && n < |s.slots|
  {
    if n == 0 then [] else VisitsUpTo(s, mask, n - 1) + (if Visited(s, mask, n) then [n] else [])
  }

  /**
   * The ids `forEach<T>` visits, `t` being `TypeId<T>()` (the mask is the type
   * id itself): it scans `1..MaxEntities`.
   */
  function Visits(s: EcsState, t: nat): seq<nat>
    requires ForEachSafe(s) && |s.slots| >= 1
  {
    VisitsUpTo(s, t, |s.slots| - 1)
  }

  class Ecs {
    const maxEntities: nat
    const maxComponents: nat
    var nextFreeEntity: Word
    const entities: array<Entity>
    const containers: array<Container>

    ghost function Model(): EcsState
      reads this, entities, containers
    {
      EcsState(entities[..], nextFreeEntity, containers[..])
    }

    ghost predicate Valid()
      reads this, entities, containers
    {
      && entities.Length == maxEntities + 1
      && containers.Length == maxComponents
      && Shaped(Model())
    }

    /** `Ecs()`: the arrays of the template's sizes, then `init`. */
    constructor (maxEntities: nat, maxComponents: nat)
      requires maxEntities < IdLimit && maxComponents < 256
      ensures Valid() && fresh(entities) && fresh(containers)
      ensures this.maxEntities == maxEntities && this.maxComponents == maxComponents
      ensures Model() == InitStep(maxEntities, maxComponents)
    {
      this.maxEntities := maxEntities;
      this.maxComponents := maxComponents;
      entities := new Entity[maxEntities + 1](_ => ZeroEntity(maxComponents));
      containers := new Container[maxComponents](_ => EmptyContainer);
      nextFreeEntity := 0;
      new;
      Init();
    }

    /**
     * `init`: clear the table and the containers, then write `1, 2, ...` as
     * raw words into the slots, 0 into the last one, and make 1 the head.
     */
    method Init()
      requires entities.Length == maxEntities + 1 && containers.Length == maxComponents
      requires maxEntities < IdLimit && maxComponents < 256
      modifies this, entities, containers
      ensures Valid()
      ensures Model() == InitStep(maxEntities, maxComponents)
    {
      nextFreeEntity := 0;
      forall i | 0 <= i < entities.Length {
        entities[i] := ZeroEntity(maxComponents);
      }
      forall j | 0 <= j < containers.Length {
        containers[j] := EmptyContainer;
      }
      var i := 0;
      while i < entities.Length
        invariant 0 <= i <= entities.Length
        invariant nextFreeEntity == i
        invariant forall j | 0 <= j < i :: entities[j] == Entity(FromRawWord(j + 1), Zeros(maxComponents))
        invariant forall j | i <= j < entities.Length :: entities[j] == ZeroEntity(maxComponents)
        invariant forall j | 0 <= j < containers.Length :: containers[j] == EmptyContainer
      {
        nextFreeEntity := nextFreeEntity + 1;
        entities[i] := entities[i].(handle := FromRawWord(nextFreeEntity));
        i := i + 1;
      }
      entities[entities.Length - 1] := entities[entities.Length - 1].(handle := FromRawWord(0));
      nextFreeEntity := 1;
      assert entities[..] == InitStep(maxEntities, maxComponents).slots;
      assert containers[..] == InitStep(maxEntities, maxComponents).containers;
    }

    method NewEntity() returns (h: EntityHandle)
      requires Valid() && CanCreate(Model())
      modifies this, entities
      ensures Valid()
      ensures Created(Model(), h) == NewEntityStep(old(Model()))
    {
      if nextFreeEntity > 0 {
        var id := nextFreeEntity;
        nextFreeEntity := RawWord(entities[id].handle);   // read through ChunkEmptyEntry
        var e := ZeroEntity(maxComponents);               // the raw word is zeroed, then e = {}
        e := e.(handle := e.handle.(id := id));
        e := e.(handle := e.handle.(alive := true));
        entities[id] := e;
        return e.handle;
      }
      h := NullHandle;
    }

    method RemoveEntity(h: EntityHandle)
      requires Valid() && h.id < entities.Length
      modifies this, entities
      ensures Valid()
      ensures Model() == RemoveEntityStep(old(Model()), h)
    {
      if IsEntityHandleValid(entities[..], h) {
        var e := entities[h.id];
        e := e.(handle := e.handle.(id := TruncateId(nextFreeEntity)));
        e := e.(handle := e.handle.(generation := NextGeneration(e.handle.generation)));
        e := e.(handle := e.handle.(alive := false));
        entities[h.id] := e;
        nextFreeEntity := h.id;
      }
    }

    method AddComponent(h: EntityHandle, t: nat, size: nat) returns (r: AddResult)
      requires Valid() && h.id < entities.Length && t < maxComponents && size >= LinkBytes
      modifies entities, containers
      ensures Valid()
      ensures Added(r, Model()) == AddComponentStep(old(Model()), h, t, size)
    {
      if IsEntityHandleValid(entities[..], h) {
        var entity := entities[h.id];
        if IsComponentHandleValid(entity.components[t]) {
          return Component(entity.components[t]);
        }
        EnsureComponentContainer(t, size);
        var handle := FetchNewComponentHandle(t);
        entities[h.id] := entity.(components := entity.components[t := handle]);
        return Component(handle);
      }
      r := BadEntityHandle;
    }

    method RemoveComponent(h: EntityHandle, t: nat, size: nat)
      requires Valid() && h.id < entities.Length && t < maxComponents && size >= LinkBytes
      requires CanRemoveComponent(Model(), h, t, size)
      modifies containers
      ensures Valid()
      ensures Model() == RemoveComponentStep(old(Model()), h, t, size)
    {
      if IsEntityHandleValid(entities[..], h) {
        var compHandle := entities[h.id].components[t];
        EnsureComponentContainer(t, size);
        containers[t] := Release(containers[t], compHandle);
      }
    }

    method EnsureComponentContainer(t: nat, size: nat)
      requires Valid() && t < maxComponents && size >= LinkBytes
      modifies containers
      ensures Valid()
      ensures containers[..] == old(containers[..])[t := EnsureContainer(old(containers[t]), size)]
    {
      if containers[t].componentSize == 0 {
        containers[t] := containers[t].(componentSize := size);
      }
    }

    method FetchNewComponentHandle(t: nat) returns (handle: nat)
      requires Valid() && t < maxComponents
      modifies containers
      ensures Valid()
      ensures handle == Fetch(old(containers[t])).handle
      ensures containers[..] == old(containers[..])[t := Fetch(old(containers[t])).container]
    {
      if IsComponentHandleValid(containers[t].firstFree) {
        var newComponent := containers[t].firstFree;
        EnsureComponentChunkHandle(t, newComponent);
        containers[t] := containers[t].(firstFree := Link(containers[t], newComponent));
        handle := newComponent;
      } else {
        handle := 0;
      }
    }

    method EnsureComponentChunkHandle(t: nat, h: nat)
      requires Valid() && t < maxComponents && h < ComponentSlots
      modifies containers
      ensures Valid()
      ensures containers[..] == old(containers[..])[t := EnsureChunk(old(containers[t]), h)]
    {
      var chunkIdx := h / ComponentsPerChunk;
      if containers[t].chunks[chunkIdx].Unallocated? {
        var links := FillChunk(chunkIdx);   // newChunk: a heap chunk whose slots are threaded
        containers[t] := containers[t].(chunks := containers[t].chunks[chunkIdx := Allocated(links)]);
      }
    }

    /**
     * `forEach<T>` with `TypeId<T>() == t`: the ids among `1..MaxEntities`
     * whose handle names an alive slot and that pass `isMatchingComponents`,
     * in ascending order.
     */
    method ForEach(t: nat) returns (visited: seq<nat>)
      requires Valid() && ForEachSafe(Model())
      ensures visited == Visits(Model(), t)
    {
      var mask := t;
      visited := [];
      var i: nat := 1;
      while i <= maxEntities
        invariant 1 <= i <= maxEntities + 1
        invariant visited == VisitsUpTo(Model(), mask, i - 1)
      {
        var e := entities[i];
        if IsEntityAlive(entities[..], e.handle) && IsMatchingComponents(e, mask) {
          visited := visited + [i];
        }
        i := i + 1;
      }
    }
  }

  // ---------------------------------------------------------------------
  // The free list `init` threads
  // ---------------------------------------------------------------------

  /**
   * After `init` the alive bit of slot `k` (below the last) is the low bit of
   * `k + 1`: every even id passes `isEntityHandleValid`, with generation
   * `(k + 1) / 2` modulo 8, though no entity was created. In particular the
   * null handle is valid whenever the table has an entity slot.
   */
  lemma InitValidHandles(maxEntities: nat, maxComponents: nat)
    requires maxEntities < IdLimit && maxComponents < 256
    ensures var slots := InitStep(maxEntities, maxComponents).slots;
      && (forall k: EntityId | k < maxEntities :: IsEntityAlive(slots, EntityHandle(false, 0, k)) <==> k % 2 == 0)
      && (forall k: EntityId | k < maxEntities && k % 2 == 0 ::
            IsEntityHandleValid(slots, EntityHandle(true, ((k + 1) / 2) % GenerationLimit, k)))
      && (maxEntities >= 1 ==> IsEntityHandleValid(slots, NullHandle))
  {
  }

  /** Slot `i` after entities `1..k` were created. */
  function FreshEntry(maxEntities: nat, maxComponents: nat, k: nat, i: nat): (e: Entity)
    requires k < IdLimit
    ensures |e.components| == maxComponents
  {
    if 1 <= i <= k then Entity(EntityHandle(true, 0, i), Zeros(maxComponents)) else ThreadedEntry(maxEntities, maxComponents, i)
  }

  /** The state after `init` and `k` calls of `newEntity`, while the free list still has its initial threading. */
  function Fresh(maxEntities: nat, maxComponents: nat, k: nat): (r: EcsState)
    requires k <= maxEntities < IdLimit && maxComponents < 256
    ensures Shaped(r)
  {
    var r := EcsState(seq(maxEntities + 1, i requires 0 <= i => FreshEntry(maxEntities, maxComponents, k, i)),
                      if k < maxEntities then k + 1 else 0,
                      seq(maxComponents, _ => EmptyContainer));
    assert forall i | 0 <= i < |r.slots| :: |r.slots[i].components| == maxComponents;
    r
  }

  /**
   * `n` successive `newEntity` calls: the state afterwards and the handles
   * returned. A helper: what the run yields is stated by `SpawnInOrder`.
   */
  function SpawnRun(s: EcsState, n: nat): (r: (EcsState, seq<EntityHandle>))
    requires Shaped(s)
    ensures Shaped(r.0) && |r.1| <= n
    decreases n
  {
    if n == 0 || !CanCreate(s) then (s, [])
    else
      var c := NewEntityStep(s);
      var rest := SpawnRun(c.state, n - 1);
      (rest.0, [c.handle] + rest.1)
  }

  /** `init` is the state with no entity created (for a table with at least one entity slot). */
  lemma InitIsFresh(maxEntities: nat, maxComponents: nat)
    requires 1 <= maxEntities < IdLimit && maxComponents < 256
    ensures InitStep(maxEntities, maxComponents) == Fresh(maxEntities, maxComponents, 0)
  {
    assert InitStep(maxEntities, maxComponents).slots == Fresh(maxEntities, maxComponents, 0).slots;
  }

  /** With room left, `newEntity` follows the threading: it hands out the next id and makes the one after it the head. */
  lemma SpawnNext(maxEntities: nat, maxComponents: nat, k: nat)
    requires k < maxEntities < IdLimit && maxComponents < 256
    ensures CanCreate(Fresh(maxEntities, maxComponents, k))
    ensures NewEntityStep(Fresh(maxEntities, maxComponents, k))
      == Created(Fresh(maxEntities, maxComponents, k + 1), EntityHandle(true, 0, k + 1))
  {
    var s := Fresh(maxEntities, maxComponents, k);
    var w := if k + 1 < maxEntities then k + 2 else 0;
    assert s.slots[k + 1].handle == FromRawWord(w);
    FromRawWordRoundTrip(w);
    var c := NewEntityStep(s);
    assert c.state.slots == Fresh(maxEntities, maxComponents, k + 1).slots;
  }

  /** Once every slot is taken the head is 0: `newEntity` returns the null handle and changes nothing. */
  lemma SpawnFull(maxEntities: nat, maxComponents: nat)
    requires 1 <= maxEntities < IdLimit && maxComponents < 256
    ensures CanCreate(Fresh(maxEntities, maxComponents, maxEntities))
    ensures NewEntityStep(Fresh(maxEntities, maxComponents, maxEntities))
      == Created(Fresh(maxEntities, maxComponents, maxEntities), NullHandle)
  {
  }

  /** From the state after `m` creations, `n` more (still fitting) leave the state after `m + n` and return `m + 1, ..., m + n`. */
  lemma {:induction false} SpawnInOrder(maxEntities: nat, maxComponents: nat, m: nat, n: nat)
    requires m + n <= maxEntities < IdLimit && maxComponents < 256
    ensures SpawnRun(Fresh(maxEntities, maxComponents, m), n) == (Fresh(maxEntities, maxComponents, m + n), SpawnedHandles(m + 1, n))
    decreases n
  {
    if n == 0 {
      assert SpawnedHandles(m + 1, 0) == [];
    } else {
      SpawnNext(maxEntities, maxComponents, m);
      SpawnInOrder(maxEntities, maxComponents, m + 1, n - 1);
      SpawnedHandlesCons(m + 1, n);
    }
  }

  /**
   * From `init`, `maxEntities` calls of `newEntity` return the ids
   * `1..maxEntities` in order; the next call returns the null handle.
   */
  lemma CreateAllEntities(maxEntities: nat, maxComponents: nat)
    requires 1 <= maxEntities < IdLimit && maxComponents < 256
    ensures var r := SpawnRun(InitStep(maxEntities, maxComponents), maxEntities);
      && r.1 == SpawnedHandles(1, maxEntities)
      && CanCreate(r.0)
      && NewEntityStep(r.0) == Created(r.0, NullHandle)
  {
    InitIsFresh(maxEntities, maxComponents);
    SpawnInOrder(maxEntities, maxComponents, 0, maxEntities);
    SpawnFull(maxEntities, maxComponents);
  }

  /**
   * Removing the null handle right after `init` is accepted (it is valid),
   * writes head 1 into slot 0 and makes 0 the head: `newEntity` then reports
   * a full table.
   */
  lemma RemoveNullHandleFillsTable(maxEntities: nat, maxComponents: nat)
    requires 1 <= maxEntities < IdLimit && maxComponents < 256
    ensures var r := RemoveEntityStep(InitStep(maxEntities, maxComponents), NullHandle);
      && r.nextFree == 0
      && r.slots[0].handle == EntityHandle(false, 1, 1)
      && NewEntityStep(r) == Created(r, NullHandle)
  {
  }

  // ---------------------------------------------------------------------
  // Removing and reusing entities
  // ---------------------------------------------------------------------

  /**
   * A new entity is alive, has generation 0, and its slot is wiped: every
   * component handle is 0. The head becomes the popped slot's raw word, and
   * no other slot or container changes.
   */
  lemma NewEntityIsBlank(s: EcsState)
    requires Shaped(s) && CanCreate(s) && s.nextFree > 0
    ensures var r := NewEntityStep(s);
      && r.handle == EntityHandle(true, 0, s.nextFree)
      && IsEntityHandleValid(r.state.slots, r.handle)
      && r.state.slots[r.handle.id] == Entity(r.handle, Zeros(|s.containers|))
      && (forall t | 0 <= t < |s.containers| :: !EntityHasComponent(r.state, r.handle, t))
      && r.state.containers == s.containers
      && r.state.nextFree == RawWord(s.slots[s.nextFree].handle)
      && forall i | 0 <= i < |s.slots| && i != r.handle.id :: r.state.slots[i] == s.slots[i]
  {
  }

  /**
   * Removing through a valid handle invalidates it and makes its id the head;
   * an invalid handle changes nothing.
   */
  lemma RemoveEntityInvalidates(s: EcsState, h: EntityHandle)
    requires Shaped(s) && h.id < |s.slots|
    ensures IsEntityHandleValid(s.slots, h) ==>
      var r := RemoveEntityStep(s, h);
      && !IsEntityHandleValid(r.slots, h)
      && r.slots[h.id].handle == EntityHandle(false, NextGeneration(h.generation), TruncateId(s.nextFree))
      && r.slots[h.id].components == s.slots[h.id].components
      && r.nextFree == h.id
      && r.containers == s.containers
      && forall i | 0 <= i < |s.slots| && i != h.id :: r.slots[i] == s.slots[i]
    ensures !IsEntityHandleValid(s.slots, h) ==> RemoveEntityStep(s, h) == s
  {
  }

  /**
   * The free list is LIFO: `newEntity` after a removal reuses the removed id,
   * with no component; the head it leaves is the raw word of the removed slot.
   */
  lemma ReuseAfterRemove(s: EcsState, h: EntityHandle)
    requires Shaped(s) && 0 < h.id < |s.slots| && IsEntityHandleValid(s.slots, h)
    ensures CanCreate(RemoveEntityStep(s, h))
    ensures var c := NewEntityStep(RemoveEntityStep(s, h));
      && c.handle == EntityHandle(true, 0, h.id)
      && (forall t | 0 <= t < |s.containers| :: !IsComponentHandleValid(c.state.slots[h.id].components[t]))
      && c.state.nextFree == 2 * NextGeneration(h.generation) + 16 * TruncateId(s.nextFree)
  {
    var r := RemoveEntityStep(s, h);
    assert r.slots[h.id].handle == EntityHandle(false, NextGeneration(h.generation), TruncateId(s.nextFree));
  }

  /**
   * Create entity 1, give it a component of type 1, remove it and create
   * again: the id 1 comes back without a valid component handle, and the
   * head is now 34, the raw word of the dead handle {generation 1, id 2}.
   */
  lemma ReuseClearsComponents(maxEntities: nat, maxComponents: nat, size: nat)
    requires 2 <= maxEntities < IdLimit && 2 <= maxComponents < 256 && size >= LinkBytes
    ensures var c1 := NewEntityStep(InitStep(maxEntities, maxComponents));
      && c1.handle == EntityHandle(true, 0, 1)
      && var a := AddComponentStep(c1.state, c1.handle, 1, size);
      && a.result == Component(1)
      && EntityHasComponent(a.state, c1.handle, 1)
      && var r := RemoveEntityStep(a.state, c1.handle);
      && CanCreate(r)
      && var c2 := NewEntityStep(r);
      && c2.handle == EntityHandle(true, 0, 1)
      && !IsComponentHandleValid(c2.state.slots[1].components[1])
      && c2.state.nextFree == 34
  {
    InitIsFresh(maxEntities, maxComponents);
    SpawnNext(maxEntities, maxComponents, 0);
    var c1 := NewEntityStep(InitStep(maxEntities, maxComponents));
    FreshContainer(size);
    FetchAfter(size, 0);
    var a := AddComponentStep(c1.state, c1.handle, 1, size);
    assert a.state.nextFree == 2;
    ReuseAfterRemove(a.state, c1.handle);
  }

  // ---------------------------------------------------------------------
  // Components
  // ---------------------------------------------------------------------

  /** An invalid entity handle is refused (the source throws) and nothing changes. */
  lemma AddComponentBadHandle(s: EcsState, h: EntityHandle, t: nat, size: nat)
    requires Shaped(s) && h.id < |s.slots| && t < |s.containers| && size >= LinkBytes
    ensures !IsEntityHandleValid(s.slots, h) <==> AddComponentStep(s, h, t, size).result == BadEntityHandle
    ensures !IsEntityHandleValid(s.slots, h) ==> AddComponentStep(s, h, t, size).state == s
  {
  }

  /**
   * Adding a type the entity has no valid handle for records the head of the
   * sized container's free list, which is popped after its chunk is made to
   * exist; the entity then has the component exactly when the container was
   * not exhausted. The slot keeps its entity handle; no other slot, component
   * handle or container changes, nor does the entity free list.
   */
  lemma AddComponentRecords(s: EcsState, h: EntityHandle, t: nat, size: nat)
    requires Shaped(s) && h.id < |s.slots| && t < |s.containers| && size >= LinkBytes
    requires IsEntityHandleValid(s.slots, h) && !IsComponentHandleValid(s.slots[h.id].components[t])
    ensures var c := EnsureContainer(s.containers[t], size);
      var a := AddComponentStep(s, h, t, size);
      && a.result == Component(if IsComponentHandleValid(c.firstFree) then c.firstFree else 0)
      && GetEntityComponentHandle(a.state, h, t) == a.result.handle
      && (EntityHasComponent(a.state, h, t) <==> IsComponentHandleValid(c.firstFree))
      && (IsComponentHandleValid(c.firstFree) ==>
            var c1 := EnsureChunk(c, c.firstFree);
            a.state.containers[t] == c1.(firstFree := Link(c1, c.firstFree)))
      && (!IsComponentHandleValid(c.firstFree) ==> a.state.containers[t] == c)
      && a.state.slots[h.id].handle == s.slots[h.id].handle
      && (forall u | 0 <= u < |s.containers| && u != t ::
            a.state.slots[h.id].components[u] == s.slots[h.id].components[u] && a.state.containers[u] == s.containers[u])
      && (forall i | 0 <= i < |s.slots| && i != h.id :: a.state.slots[i] == s.slots[i])
      && a.state.nextFree == s.nextFree
  {
  }

  /** Adding a type the entity already has a valid handle for returns that handle and changes nothing. */
  lemma AddComponentExisting(s: EcsState, h: EntityHandle, t: nat, size: nat)
    requires Shaped(s) && h.id < |s.slots| && t < |s.containers| && size >= LinkBytes
    requires IsEntityHandleValid(s.slots, h) && IsComponentHandleValid(s.slots[h.id].components[t])
    ensures AddComponentStep(s, h, t, size) == Added(Component(s.slots[h.id].components[t]), s)
  {
  }

  /** So a successful add, repeated, returns the same handle and changes nothing. */
  lemma AddComponentIdempotent(s: EcsState, h: EntityHandle, t: nat, size: nat)
    requires Shaped(s) && h.id < |s.slots| && t < |s.containers| && size >= LinkBytes
    requires AddComponentStep(s, h, t, size).result.Component?
    requires IsComponentHandleValid(AddComponentStep(s, h, t, size).result.handle)
    ensures var a := AddComponentStep(s, h, t, size);
      AddComponentStep(a.state, h, t, size) == a
  {
    var a := AddComponentStep(s, h, t, size);
    assert a.state.slots[h.id].components[t] == a.result.handle;
    AddComponentExisting(a.state, h, t, size);
  }

  /**
   * `removeComponent` pushes the entity's slot onto the sized container's free
   * list but leaves the handle in the entity, so `entityHasComponent` still
   * holds afterwards. No other slot of that container, no other container and
   * not the entity free list change.
   */
  lemma RemoveComponentKeepsComponent(s: EcsState, h: EntityHandle, t: nat, size: nat)
    requires Shaped(s) && h.id < |s.slots| && t < |s.containers| && size >= LinkBytes
    requires CanRemoveComponent(s, h, t, size) && IsEntityHandleValid(s.slots, h)
    ensures var r := RemoveComponentStep(s, h, t, size);
      var x := s.slots[h.id].components[t];
      && r.slots == s.slots
      && EntityHasComponent(r, h, t) == EntityHasComponent(s, h, t)
      && r.containers[t].firstFree == x
      && Link(r.containers[t], x) == EnsureContainer(s.containers[t], size).firstFree
      && r.containers[t].componentSize == EnsureContainer(s.containers[t], size).componentSize
      && (forall y | 0 <= y < ComponentSlots && y != x ::
            && HasChunk(r.containers[t], y) == HasChunk(EnsureContainer(s.containers[t], size), y)
            && (HasChunk(r.containers[t], y) ==> Link(r.containers[t], y) == Link(EnsureContainer(s.containers[t], size), y)))
      && (forall u | 0 <= u < |s.containers| && u != t :: r.containers[u] == s.containers[u])
      && r.nextFree == s.nextFree
  {
  }

  // ---------------------------------------------------------------------
  // Iteration
  // ---------------------------------------------------------------------

  /** Slot `i` of a table where entities `1..n` were created and given a component of type `t`. */
  function PopulatedEntry(maxEntities: nat, maxComponents: nat, t: nat, n: nat, i: nat): (e: Entity)
    requires t < maxComponents < 256 && n < IdLimit
    ensures |e.components| == maxComponents
  {
    if 1 <= i <= n then Entity(EntityHandle(true, 0, i), Zeros(maxComponents)[t := i])
    else ThreadedEntry(maxEntities, maxComponents, i)
  }

  /** The state after `init` followed by `n` rounds of "create an entity, add a type-`t` component". */
  function Populated(maxEntities: nat, maxComponents: nat, t: nat, size: nat, n: nat): (r: EcsState)
    requires n <= maxEntities < IdLimit && t < maxComponents < 256
    ensures Shaped(r)
  {
    AfterWellFormed(size, n);
    var r := EcsState(seq(maxEntities + 1, i requires 0 <= i => PopulatedEntry(maxEntities, maxComponents, t, n, i)),
                      if n < maxEntities then n + 1 else 0,
                      seq(maxComponents, j => if j == t && n > 0 then After(size, n) else EmptyContainer));
    assert forall i | 0 <= i < |r.slots| :: |r.slots[i].components| == maxComponents;
    r
  }

  /** Zero rounds leave the state `init` leaves (for a table with at least one entity slot). */
  lemma PopulatedFromInit(maxEntities: nat, maxComponents: nat, t: nat, size: nat)
    requires 1 <= maxEntities < IdLimit && t < maxComponents < 256
    ensures Populated(maxEntities, maxComponents, t, size, 0) == InitStep(maxEntities, maxComponents)
  {
    assert Populated(maxEntities, maxComponents, t, size, 0).slots == InitStep(maxEntities, maxComponents).slots;
  }

  /** One more round of create-and-add on a populated table. */
  lemma PopulateStep(maxEntities: nat, maxComponents: nat, t: nat, size: nat, n: nat)
    requires n < maxEntities < IdLimit && t < maxComponents < 256 && size >= LinkBytes
    requires n < ComponentSlots - 1
    ensures CanCreate(Populated(maxEntities, maxComponents, t, size, n))
    ensures var c := NewEntityStep(Populated(maxEntities, maxComponents, t, size, n));
      && c.handle == EntityHandle(true, 0, n + 1)
      && AddComponentStep(c.state, c.handle, t, size) == Added(Component(n + 1), Populated(maxEntities, maxComponents, t, size, n + 1))
  {
    var s := Populated(maxEntities, maxComponents, t, size, n);
    var s' := Populated(maxEntities, maxComponents, t, size, n + 1);
    AfterWellFormed(size, n);
    AfterWellFormed(size, n + 1);
    var w := if n + 1 < maxEntities then n + 2 else 0;
    assert s.slots[n + 1].handle == FromRawWord(w);
    FromRawWordRoundTrip(w);
    var c := NewEntityStep(s);
    assert c.handle == EntityHandle(true, 0, n + 1);
    var cont := EnsureContainer(s.containers[t], size);
    assert cont == After(size, n);
    FetchAfter(size, n);
    var a := AddComponentStep(c.state, c.handle, t, size);
    assert a.state.slots[n + 1] == PopulatedEntry(maxEntities, maxComponents, t, n + 1, n + 1);
    assert a.state.slots == s'.slots;
    assert a.state.containers == s'.containers;
  }

  /**
   * On a populated table `forEach<T>` looks at type 1 only: requesting type 1
   * visits every entity in id order; requesting any other type visits none,
   * though every entity has a valid component of that type.
   */
  lemma VisitsPopulated(maxEntities: nat, maxComponents: nat, t: nat, size: nat, n: nat)
    requires n <= maxEntities < IdLimit && t < maxComponents < 256 && 2 <= maxComponents
    ensures ForEachSafe(Populated(maxEntities, maxComponents, t, size, n))
    ensures Visits(Populated(maxEntities, maxComponents, t, size, n), t) == if t == 1 then Range(1, n) else []
  {
    var s := Populated(maxEntities, maxComponents, t, size, n);
    PopulatedForEachSafe(maxEntities, maxComponents, t, size, n);
    forall j | 1 <= j <= maxEntities
      ensures Visited(s, t, j) <==> j <= n && t == 1
    {
      PopulatedVisited(maxEntities, maxComponents, t, size, n, j);
    }
    VisitsPredicted(s, t, n, maxEntities);
  }

  /**
   * `isMatchingComponents` reads only bit 0 of the requested type id: an odd
   * type id visits exactly what type 1 visits (every alive entity holding a
   * type-1 component), an even one visits nothing.
   */
  lemma {:induction false} VisitsUpToParity(s: EcsState, t: nat, m: nat)
    requires ForEachSafe(s) && m < |s.slots|
    ensures VisitsUpTo(s, t, m) == if t % 2 == 1 then VisitsUpTo(s, 1, m) else []
    decreases m
  {
    if m > 0 {
      VisitsUpToParity(s, t, m - 1);
    }
  }

  lemma VisitsParity(s: EcsState, t: nat)
    requires ForEachSafe(s) && |s.slots| >= 1
    ensures Visits(s, t) == if t % 2 == 1 then Visits(s, 1) else []
  {
    VisitsUpToParity(s, t, |s.slots| - 1);
  }

  /**
   * So on a table populated with type 1, `forEach<T>` for any odd type id
   * visits every entity, though none of them holds a component of that type.
   */
  lemma OddTypeVisitsTypeOneHolders(maxEntities: nat, maxComponents: nat, size: nat, n: nat, t: nat)
    requires n <= maxEntities < IdLimit && 2 <= maxComponents < 256 && t % 2 == 1
    ensures ForEachSafe(Populated(maxEntities, maxComponents, 1, size, n))
    ensures Visits(Populated(maxEntities, maxComponents, 1, size, n), t) == Range(1, n)
    ensures t != 1 && t < maxComponents ==>
      forall i | 1 <= i <= n :: !EntityHasComponent(Populated(maxEntities, maxComponents, 1, size, n), EntityHandle(true, 0, i), t)
  {
    var s := Populated(maxEntities, maxComponents, 1, size, n);
    VisitsPopulated(maxEntities, maxComponents, 1, size, n);
    VisitsParity(s, t);
    if t != 1 && t < maxComponents {
      forall i | 1 <= i <= n
        ensures !EntityHasComponent(s, EntityHandle(true, 0, i), t)
      {
        assert s.slots[i] == Entity(EntityHandle(true, 0, i), Zeros(maxComponents)[1 := i]);
      }
    }
  }

  /**
   * When exactly the slots `1..n` pass the filter for type 1, and none passes
   * it for any other type, the scan of `1..m` returns `1..min(m, n)` or nothing.
   */
  lemma {:induction false} VisitsPredicted(s: EcsState, t: nat, n: nat, m: nat)
    requires ForEachSafe(s) && m < |s.slots|
    requires forall j | 1 <= j <= m :: Visited(s, t, j) <==> j <= n && t == 1
    ensures VisitsUpTo(s, t, m) == if t == 1 then Range(1, Min(m, n)) else []
    decreases m
  {
    if m > 0 {
      VisitsPredicted(s, t, n, m - 1);
      if m <= n && t == 1 {
        RangeSnoc(1, m - 1);
      }
    }
  }

  /** Slot `m` of a populated table is visited exactly when it holds an entity and type 1 was requested. */
  lemma PopulatedVisited(maxEntities: nat, maxComponents: nat, t: nat, size: nat, n: nat, m: nat)
    requires n <= maxEntities < IdLimit && 1 <= m <= maxEntities && t < maxComponents < 256 && 2 <= maxComponents
    ensures ForEachSafe(Populated(maxEntities, maxComponents, t, size, n))
    ensures Visited(Populated(maxEntities, maxComponents, t, size, n), t, m) <==> m <= n && t == 1
  {
    var s := Populated(maxEntities, maxComponents, t, size, n);
    PopulatedForEachSafe(maxEntities, maxComponents, t, size, n);
    if m <= n {
      assert s.slots[m] == Entity(EntityHandle(true, 0, m), Zeros(maxComponents)[t := m]);
    } else {
      assert s.slots[m] == ThreadedEntry(maxEntities, maxComponents, m);
    }
  }

  lemma PopulatedForEachSafe(maxEntities: nat, maxComponents: nat, t: nat, size: nat, n: nat)
    requires n <= maxEntities < IdLimit && t < maxComponents < 256 && 2 <= maxComponents
    ensures ForEachSafe(Populated(maxEntities, maxComponents, t, size, n))
  {
    var s := Populated(maxEntities, maxComponents, t, size, n);
    forall i | 1 <= i < |s.slots|
      ensures s.slots[i].handle.id < |s.slots|
    {
      if i > n && i < maxEntities {
        assert s.slots[i].handle.id == (i + 1) / 16;
      }
    }
  }
}
