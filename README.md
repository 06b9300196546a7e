# TightECS entity/component engine in Dafny

This project models the storage engine of TightECS, a small C++ entity/component
system, and proves properties of the model. The engine has two revisions and
both are modelled:

- `include/tecs/tecs.h`, the current revision, is modelled by `arena.dfy`, `containers.dfy` and `tecs.dfy`. Its parts:
  - a bump arena allocator;
  - an entity table of `maxEntities + 1` slots, slot 0 reserved, each with a handle, a component mask and one component handle per type;
  - an intrusive free list of dead entity ids, plus the `liveEntities` bump counter;
  - one component container per type, with lazily created chunks of 128 slots each, at most 32 chunks, and a free list threaded through the free slots;
  - `forEach`, which scans the table and filters by mask.
- `tecs/tecs.h`, the earlier revision, is modelled by `tecs_legacy.dfy`. It has the same containers over a fixed-size table. `init` threads the table's free list in advance, and there is no live counter and no mask.

`handles.dfy` holds what both revisions share:
- the handle bit-fields (alive: 1 bit, generation: 3, id: 28);
- the raw-word view of a handle;
- 64-bit `unsigned long` arithmetic;
- masks as sets of bit positions.

## How the model is built

Each revision is modelled in two layers:
- A value type `EcsState` and one pure step function per operation (`NewEntityStep`, `RemoveEntityStep`, `AddComponentStep`, `RemoveComponentStep`). These functions are the specification.
- A class `Ecs` with the table and the containers as arrays updated in place. Each method ensures `Model() == Step(old(Model()))`. Methods that only read state return their result.

Lemmas about the step functions state what the engine does, including several places where the code as written goes wrong.

Modelling decisions:
- **Words.** `u32` is `unsigned long`, 64 bits on LP64. `++`/`--` on counters wrap modulo 2^64 (`Handles.Inc`, `Handles.Dec`).
- **Bit-fields.** Assigning to the 28-bit id keeps the low 28 bits, and the 3-bit generation wraps modulo 8.
- **Type punning.** The engine reads a dead entity slot through a `ChunkEmptyEntry` cast, i.e. as one raw word. The model makes this explicit as `RawWord(handle) = alive + 2*generation + 16*id`: the first bit-field lands in the least significant bits, and the padding above bit 31 stays zero.
  - Every raw write in the source is below 2^32, so the padding-is-zero assumption holds: `init` writes ids of at most 2^28, and `newEntity`/`init` write 0.
- **Masks.** A mask word is modelled as the set of its one-bit positions (`Handles.Bits`):
  - `|` is union, and `& x` non-zero is a non-empty intersection;
  - `(m & mask) == mask` is inclusion;
  - `& ~(1UL << t)` removes position `t`.
  - `Shaped` keeps every mask within positions 0..63.
- **Component storage.** A component container is modelled by the link words its free slots hold. A component's payload is not modelled; `Containers.SlotOffset` gives the byte offset `getComponent` computes.
- **Initial memory.** The arena memory is assumed to be zero when the current revision's table is taken from it. The engine's `init` does not clear the table.
- **`TECS_ASSERT`.** It expands to nothing. The conditions it states, and the conditions under which the code would index out of bounds, are preconditions:
  - `CanCreate`;
  - the arena room in `Alloc` and `AddComponent`;
  - `CanRemoveComponent`;
  - `ForEachSafe`.
- **Type ids.** `TypeProvider::TypeId<T>()` and `sizeof(T)` are the parameters `t` and `size`.
- **`forEach`.** It returns the sequence of visited ids in visiting order.

### Behaviour of the code as written

The lemmas below are proved about the model of the code as written. Each item
shows a behaviour that the code's own comments, names or test scenarios
indicate was not meant.

- **Corrupt entity free list.** `removeEntity` stores the old head into the dead handle's 28-bit id field. `newEntity` then pops the next head as the raw handle word, which is `2*generation + 16*head` (`Tecs.ReuseAfterRemove`).
  - With entities 1 and 2 alive, removing 1 and creating twice returns id 1 and then id 2 again, while entity 2 is alive (`Tecs.ReissuesLiveEntity`).
  - The legacy revision's reuse scenario leaves head 34 (`TecsLegacy.ReuseClearsComponents`).
  - As a result, the free list can hold the id of a live entity, and the live count can exceed the highest id issued (`Tecs.ReissuesLiveEntity`).
- **Generation reset on reuse.** `newEntity` saves the slot's old handle in `prevHandle` (include/tecs/tecs.h:207) and never uses it: `e = {}` and the self-assignment `e.handle = e.handle` reset the generation to 0 on reuse. A stale generation-0 handle is therefore valid again (`Tecs.ReuseAfterRemove`).
- **`forEach` range.** `forEach` scans ids `1..liveEntities` in the current revision and `1..MaxEntities` in the legacy one. The comment `TODO: Find smallest component array` (include/tecs/tecs.h:385) marks the scan as a placeholder.
  - Because of the current revision's range, a live matching entity is missed after a removal (`Tecs.ForEachMissesAfterRemoval`).
- **Mask mismatch.** `addComponent` ORs the type id itself into the mask (current revision), but `removeComponent` clears bit `1 << t`.
  - Type 3 therefore also counts as types 1 and 2 (`Tecs.MaskAliasesTypeIds`).
  - Type 1 survives its removal (`Tecs.RemoveComponentKeepsMembership`).
  - The legacy `entityHasComponent` tests the stored handle, which removal leaves in place (`TecsLegacy.RemoveComponentKeepsComponent`).
- **Shared component slots.** After `removeComponent` the slot is both on the free list and still referenced by the entity. The next add of that type to another entity hands out the same slot (`Tecs.RemovedSlotShared`).
- **Legacy `init` makes unissued handles valid.** It writes `i + 1` as raw words, which sets the alive bit of every even slot. The null handle and other handles nobody was given pass `isEntityHandleValid` (`TecsLegacy.InitValidHandles`).
  - Removing the null handle then empties the free list (`TecsLegacy.RemoveNullHandleFillsTable`).
- **Legacy `forEach` only looks at type 1.** `isMatchingComponents` tests `components[1]` and bit 0 of the requested type id.
  - An even type id visits nothing. An odd type id visits every alive entity that holds a type-1 component, whatever it holds of the requested type (`TecsLegacy.VisitsParity`).
  - On a table populated with type 1, every odd type visits all entities though none holds that type (`TecsLegacy.OddTypeVisitsTypeOneHolders`). On a table populated with another type, that type visits nothing (`TecsLegacy.VisitsPopulated`).

## Model

| member | source | states |
|---|---|---|
| Handles.RawWord | include/tecs/tecs.h:87-91 | The raw word of a handle has 32 bits, and its lowest bit is the alive bit. |
| Handles.RawWordRoundTrip | include/tecs/tecs.h:87-91 | Reading the three bit-fields back out of a handle's raw word gives the handle. |
| Handles.FromRawWordRoundTrip | tecs/tecs.h:98 | A raw write below 2^32 is read back unchanged through the handle view, so the threaded links of `init` survive. |
| Handles.BitsNonEmpty | include/tecs/tecs.h:257 | OR-ing a non-zero type id into a mask sets at least one bit. |
| Handles.BitsBelow | include/tecs/tecs.h:137 | A value below 2^w has no one bit at position w or above, so masks built from type ids below 256 fit the mask word. |
| Handles.IsComponentHandleValid | include/tecs/tecs.h:231-234 | A component handle is valid when it is above 0 and below `128 * 32`, the slots a container can address. |
| Arena.ArenaAllocator.Empty | include/tecs/tecs.h:56-58 | The default arena has base, size and cursor 0. |
| Arena.ArenaAllocator.constructor | include/tecs/tecs.h:59-61 | An arena over `size` bytes at `memory` starts with its cursor at `memory`. |
| Arena.ArenaAllocator.Copy | include/tecs/tecs.h:177 | The copy `init` makes has the same base, size and cursor. |
| Arena.ArenaAllocator.Alloc | include/tecs/tecs.h:68-76 | Under the overflow assertion as precondition, `alloc` returns the old cursor and advances it by `sizeof(T) * n`, and the cursor stays inside the buffer. |
| Arena.Addresses | include/tecs/tecs.h:68-76 | Successive `alloc` calls return one address per request, each the start plus the bytes of the requests before it. |
| Arena.AddressesMonotone | include/tecs/tecs.h:68-76 | The cursor never moves back: every address of a run of allocations lies between the start and the final cursor. |
| Arena.AddressesDisjoint | include/tecs/tecs.h:68-76 | Each allocation ends before the next one starts. |
| Arena.AddressesWithin | include/tecs/tecs.h:72 | When every request passes the strict overflow check, every region ends strictly inside the buffer. |
| Containers.FillChunk | include/tecs/tecs.h:361-364 | The loop of `newChunk` links slot `i` of chunk `k` to handle `k*128 + i + 1`, for all 128 slots. |
| Containers.EnsureContainer | include/tecs/tecs.h:319-327 | `ensureComponentContainer` sets the component size when it is still 0 and otherwise leaves the container as it is. |
| Containers.EnsureChunk | include/tecs/tecs.h:329-337 | `ensureComponentChunkHandle` creates chunk `h / 128`, with `newChunk`'s links, when it is missing; the container stays well formed. |
| Containers.SlotOffset | include/tecs/tecs.h:339-354 | `accessComponent` and `getComponent` address handle `h` at byte `componentSize * (h % 128)` of chunk `h / 128`. |
| Containers.Fetch | include/tecs/tecs.h:304-317 | `fetchNewComponentHandle`: a valid head is returned and popped after its chunk is made to exist; an invalid head gives 0 and no change. The container stays well formed. |
| Containers.Release | include/tecs/tecs.h:274-275 | The push of `removeComponent`: slot `h` links to the old head and `h` becomes the head; the container stays well formed. |
| Containers.EnsureContainerFixesSize | include/tecs/tecs.h:319-327 | The first `ensureComponentContainer` fixes the component size; later calls change nothing. |
| Containers.FreshContainer | include/tecs/tecs.h:113-120 | A fresh container, once sized, has head 1 and no chunk. |
| Containers.EnsureChunkFirstTouch | include/tecs/tecs.h:329-337 | A chunk is created only when missing, then holds the links `newChunk` writes; other chunks are untouched. |
| Containers.SlotsDisjoint | include/tecs/tecs.h:347-354 | The slot `getComponent` addresses lies within its chunk's `componentSize * 128` bytes, and two different handles never share a byte. |
| Containers.FetchAfter | include/tecs/tecs.h:304-317 | After `n` fetches from a fresh container, the next fetch returns `n + 1`. It creates a chunk exactly when `n + 1` is the first handle of its chunk that the free list reaches. |
| Containers.FreshHandlesInOrder | include/tecs/tecs.h:304-317 | `n` further fetches return `m+1, ..., m+n` and leave the closed-form container for `m + n`. |
| Containers.FreshHandlesDistinct | tests/tests.cpp:142-165 | A fresh container hands out the handles `1..n`, all valid and pairwise distinct. |
| Containers.FetchExhausted | include/tecs/tecs.h:231-234 | After 4095 fetches from a fresh container the head is 4096, which is not a valid handle: the next fetch returns 0 and changes nothing. |
| Containers.FetchAfterRelease | include/tecs/tecs.h:274-275 | The container free list is LIFO: after releasing `h`, a fetch returns `h` and restores the previous head. |
| Tecs.NewEntityStep | include/tecs/tecs.h:189-214 | `newEntity` keeps the table shape: sizes, masks within 64 bits, well-formed containers. |
| Tecs.RemoveEntityStep | include/tecs/tecs.h:216-229 | `removeEntity` keeps the table shape. |
| Tecs.AddComponentStep | include/tecs/tecs.h:241-261 | `addComponent` keeps the table shape, including masks within 64 bits. |
| Tecs.RemoveComponentStep | include/tecs/tecs.h:263-279 | `removeComponent` keeps the table shape. |
| Tecs.Init | include/tecs/tecs.h:174-182 | `init` leaves `maxEntities + 1` zeroed slots, head 0, no live entity and fresh containers. |
| Tecs.IsEntityAlive | include/tecs/tecs.h:291-293 | `isEntityAlive` reads the alive bit of the slot the handle's id names. |
| Tecs.IsEntityHandleValid | include/tecs/tecs.h:236-239 | `isEntityHandleValid`: that slot is alive and has the handle's generation. |
| Tecs.EntityHasComponent | include/tecs/tecs.h:286-289 | `entityHasComponent`: a valid entity handle whose mask shares a bit with the type id. |
| Tecs.GetEntityComponentHandle | include/tecs/tecs.h:299-302 | `getEntityComponentHandle` returns the stored handle for the type, unchecked. |
| Tecs.IsMatchingAllComponents | include/tecs/tecs.h:295-297 | `isMatchingAllComponents`: `(mask & m) == m`, i.e. every bit of `m` is in the entity's mask. |
| Tecs.BuildComponentMask | include/tecs/tecs.h:394-407 | `buildComponentMask` ORs the requested type ids. |
| Tecs.Visits | include/tecs/tecs.h:382-392 | The ids `forEach` hands to the visitor, scanning `1..liveEntities` in order. |
| Tecs.Ecs.constructor | include/tecs/tecs.h:163-182 | The arena is copied and the table of `maxEntities + 1` slots is taken from it, so the cursor advances by the table's size. The state is the zeroed table with an empty free list, no live entity and fresh containers. |
| Tecs.Ecs.NewEntity | include/tecs/tecs.h:189-214 | The in-place `newEntity` moves the state and returns the handle exactly as `NewEntityStep` says. |
| Tecs.Ecs.RemoveEntity | include/tecs/tecs.h:216-229 | The in-place `removeEntity` moves the state as `RemoveEntityStep` says. |
| Tecs.Ecs.AddComponent | include/tecs/tecs.h:241-261 | The in-place `addComponent` returns and changes what `AddComponentStep` says. The arena cursor moves by one chunk exactly when a chunk is created. |
| Tecs.Ecs.RemoveComponent | include/tecs/tecs.h:263-279 | The in-place `removeComponent` changes what `RemoveComponentStep` says. |
| Tecs.Ecs.EnsureComponentContainer | include/tecs/tecs.h:319-327 | Only container `t` changes: its size is fixed if it was 0. |
| Tecs.Ecs.FetchNewComponentHandle | include/tecs/tecs.h:304-317 | Returns and pops what `Fetch` says, and takes a chunk's bytes from the arena exactly when a chunk is created. |
| Tecs.Ecs.EnsureComponentChunkHandle | include/tecs/tecs.h:329-337 | Container `t` changes as `EnsureChunk` says, and the arena advances by one chunk only when the chunk was missing. |
| Tecs.Ecs.NewChunk | include/tecs/tecs.h:357-368 | A chunk takes a pointer plus `componentSize * 128` bytes from the arena, and its slots are threaded. |
| Tecs.Ecs.ForEach | include/tecs/tecs.h:382-392 | The scan returns exactly `Visits` of the OR-ed mask. |
| Tecs.InitIsFresh | include/tecs/tecs.h:174-182 | The state after `init` is the state with no entity created. |
| Tecs.SpawnNext | include/tecs/tecs.h:196-213 | With room left and an empty free list, `newEntity` bumps the counter and returns the next id alive with generation 0. |
| Tecs.SpawnFull | include/tecs/tecs.h:200 | Once `maxEntities` entities exist and none was removed, the capacity assertion forbids another `newEntity`. |
| Tecs.SpawnReachesFresh | include/tecs/tecs.h:189-214 | `n` more creations after `m` leave the state after `min(m + n, maxEntities)` creations. |
| Tecs.SpawnInOrder | include/tecs/tecs.h:189-214 | Those creations return the ids `m+1, m+2, ...` in order, alive, generation 0. |
| Tecs.CreateAllEntities | tests/tests.cpp:96-124 | From `init`, the entities created are exactly `1..maxEntities` in order, after which the table is full. |
| Tecs.NewEntityIsBlank | include/tecs/tecs.h:192-213 | A new entity is valid, alive, generation 0, and its slot is exactly `{handle, empty mask, all component handles 0}`. The head is popped through the raw word or stays 0, the live count is incremented, and no other slot or container changes. |
| Tecs.RemoveEntityInvalidates | include/tecs/tecs.h:216-229 | A valid handle becomes invalid and has no component. Its slot becomes {dead, generation + 1 mod 8, old head truncated}, keeping its mask and component handles, and its id becomes the head. The live count is decremented; other slots and all containers are unchanged. An invalid handle changes nothing. |
| Tecs.ReuseAfterRemove | include/tecs/tecs.h:195-209 | The next `newEntity` reuses the removed id with generation 0, which revalidates a stale generation-0 handle. The next head is `2*gen' + 16*oldHead`. |
| Tecs.ReissuesLiveEntity | include/tecs/tecs.h:195 | With 1 and 2 alive, remove 1 and create twice: ids 1 and 2 come out while 2 is alive, and the live count is 3. |
| Tecs.AddComponentBadHandle | include/tecs/tecs.h:245-260 | `addComponent` fails exactly for an invalid entity handle and then changes nothing. |
| Tecs.AddComponentRecords | include/tecs/tecs.h:254-257 | With no valid handle for the type, the head of the sized container is recorded; the container becomes the one `fetchNewComponentHandle` leaves (chunk made to exist, head popped), or stays as sized when exhausted. The mask becomes the old mask plus the bits of the type id, and the slot keeps its handle. `entityHasComponent` then holds exactly when the type id is non-zero. No other slot, handle, container, head or count changes. |
| Tecs.AddComponentIdempotent | include/tecs/tecs.h:249-251 | A successful `addComponent`, repeated, returns the same handle and changes nothing. |
| Tecs.AddComponentExisting | include/tecs/tecs.h:249-252 | When the entity already holds a valid handle for the type, `addComponent` returns it, creates no chunk and changes nothing. |
| Tecs.MaskAliasesTypeIds | include/tecs/tecs.h:257 | After adding type 3, `entityHasComponent` also holds for types 1 and 2. |
| Tecs.RemoveComponentEffect | include/tecs/tecs.h:263-279 | Bit `t` is cleared and no other bit changes, and the handle stays in the entity. The handle becomes the head of the sized container, linked to the old head; the container's size and every other slot's chunk and link are unchanged. Other slots, other containers, the entity free list and the live count are unchanged. |
| Tecs.RemoveComponentKeepsMembership | include/tecs/tecs.h:271 | After adding and removing type 1, `entityHasComponent` still holds for type 1. |
| Tecs.RemovedSlotShared | include/tecs/tecs.h:263-279 | After one entity removes its component, the next entity to add that type gets the same slot, which both valid entities then hold. |
| Tecs.BuildComponentMaskMatches | include/tecs/tecs.h:394-407 | An entity matches the OR-ed mask exactly when its mask holds every bit of every requested type id. |
| Tecs.VisitsExactly | include/tecs/tecs.h:382-392 | `forEach` visits, in ascending order, exactly the ids in `1..liveEntities` that name an alive slot and match the mask. |
| Tecs.PopulatedFromInit | include/tecs/tecs.h:174-182 | The populated table after zero rounds is the state `init` leaves, so the rounds of `PopulateStep` start from `init`. |
| Tecs.PopulateStep | tests/tests.cpp:168-176 | One create-and-add round on a populated table gives entity `n + 1` component `n + 1` and reaches the closed form for `n + 1`. |
| Tecs.VisitsPopulated | tests/tests.cpp:168-186 | After `n` create-and-add rounds, `forEach<T>` visits `1..n` in order. |
| Tecs.ForEachMissesAfterRemoval | include/tecs/tecs.h:385 | After removing entity 1 of a populated table, the valid matching entity `n` is not visited. |
| TecsLegacy.InitStep | tecs/tecs.h:91-102 | The state `init` leaves has the shape of the template arguments. |
| TecsLegacy.NewEntityStep | tecs/tecs.h:104-123 | `newEntity` keeps the table shape. |
| TecsLegacy.RemoveEntityStep | tecs/tecs.h:125-137 | `removeEntity` keeps the table shape. |
| TecsLegacy.AddComponentStep | tecs/tecs.h:149-168 | `addComponent` keeps the table shape. |
| TecsLegacy.RemoveComponentStep | tecs/tecs.h:170-185 | `removeComponent` keeps the table shape. |
| TecsLegacy.IsEntityAlive | tecs/tecs.h:197-199 | `isEntityAlive` reads the alive bit of the slot the handle's id names. |
| TecsLegacy.IsEntityHandleValid | tecs/tecs.h:144-147 | `isEntityHandleValid`: that slot is alive and has the handle's generation. |
| TecsLegacy.EntityHasComponent | tecs/tecs.h:192-195 | `entityHasComponent`: a valid entity handle and a valid component handle for the type. |
| TecsLegacy.GetEntityComponentHandle | tecs/tecs.h:205-208 | `getEntityComponentHandle` returns the stored handle for the type, unchecked. |
| TecsLegacy.IsMatchingComponents | tecs/tecs.h:201-203 | `isMatchingComponents`: a non-zero type-1 handle and bit 0 of the mask. |
| TecsLegacy.Visits | tecs/tecs.h:288-298 | The ids `forEach<T>` hands to the visitor, scanning `1..MaxEntities` in order. |
| TecsLegacy.Ecs.constructor | tecs/tecs.h:86-89 | `Ecs()` yields the state `init` leaves. |
| TecsLegacy.Ecs.Init | tecs/tecs.h:91-102 | The loop writes raw words `1, 2, ...` into the slots, the last slot gets 0 and the head is 1, as `InitStep` says. |
| TecsLegacy.Ecs.NewEntity | tecs/tecs.h:104-123 | The in-place `newEntity` moves the state and returns the handle exactly as `NewEntityStep` says. |
| TecsLegacy.Ecs.RemoveEntity | tecs/tecs.h:125-137 | The in-place `removeEntity` moves the state as `RemoveEntityStep` says. |
| TecsLegacy.Ecs.AddComponent | tecs/tecs.h:149-168 | The in-place `addComponent` returns and changes what `AddComponentStep` says. |
| TecsLegacy.Ecs.RemoveComponent | tecs/tecs.h:170-185 | The in-place `removeComponent` changes what `RemoveComponentStep` says. |
| TecsLegacy.Ecs.EnsureComponentContainer | tecs/tecs.h:225-233 | Only container `t` changes: its size is fixed if it was 0. |
| TecsLegacy.Ecs.FetchNewComponentHandle | tecs/tecs.h:210-223 | Returns and pops what `Fetch` says. |
| TecsLegacy.Ecs.EnsureComponentChunkHandle | tecs/tecs.h:235-243 | Container `t` changes as `EnsureChunk` says: a missing chunk is created with `newChunk`'s links. |
| TecsLegacy.Ecs.ForEach | tecs/tecs.h:288-298 | The scan of `1..MaxEntities` returns exactly `Visits` of the type id. |
| TecsLegacy.InitValidHandles | tecs/tecs.h:97-100 | After `init` exactly the even ids below `MaxEntities` look alive, and each passes `isEntityHandleValid` with generation `(k+1)/2 mod 8`. So does the null handle. |
| TecsLegacy.InitIsFresh | tecs/tecs.h:91-102 | The state after `init` is the state with no entity created. |
| TecsLegacy.SpawnNext | tecs/tecs.h:104-120 | With room left, `newEntity` returns the next id, alive, generation 0, and the threading makes the following id (or 0 at the end) the head. |
| TecsLegacy.SpawnFull | tecs/tecs.h:121-122 | With every slot taken the head is 0, and `newEntity` returns the null handle and changes nothing. |
| TecsLegacy.SpawnInOrder | tecs/tecs.h:104-120 | `n` creations after `m`, within capacity, return `m+1, ..., m+n` and leave the state after `m + n`. |
| TecsLegacy.CreateAllEntities | tests/tests.cpp:96-124 | From `init`, `MaxEntities` creations return `1..MaxEntities` in order, and the next returns the null handle. |
| TecsLegacy.RemoveNullHandleFillsTable | tecs/tecs.h:125-137 | Removing the null handle right after `init` makes head 0, so `newEntity` reports a full table. |
| TecsLegacy.NewEntityIsBlank | tecs/tecs.h:104-120 | A popped entity is valid and its slot is exactly `{handle, all component handles 0}`. The next head is the popped slot's raw word, and no other slot or container changes. |
| TecsLegacy.RemoveEntityInvalidates | tecs/tecs.h:125-137 | A valid handle becomes invalid: {dead, generation + 1 mod 8, old head}, keeping its component handles, and its id becomes the head. Other slots and all containers are unchanged. An invalid handle changes nothing. |
| TecsLegacy.ReuseAfterRemove | tecs/tecs.h:110 | The next `newEntity` reuses the removed id without components. The next head is `2*gen' + 16*oldHead`. |
| TecsLegacy.ReuseClearsComponents | tests/tests.cpp:126-139 | Create, add type 1, remove, create: id 1 again with no valid component handle, and the head is now 34. |
| TecsLegacy.AddComponentBadHandle | tecs/tecs.h:153-167 | `addComponent` fails exactly for an invalid entity handle and then changes nothing. |
| TecsLegacy.AddComponentRecords | tecs/tecs.h:162-164 | With no valid handle, the head of the sized container is recorded; the container becomes the one `fetchNewComponentHandle` leaves (chunk made to exist, head popped), or stays as sized when exhausted. `entityHasComponent` then holds exactly when the container was not exhausted. The slot keeps its handle, and no other slot, handle, container or head changes. |
| TecsLegacy.AddComponentIdempotent | tecs/tecs.h:157-159 | A successful `addComponent`, repeated, returns the same handle and changes nothing. |
| TecsLegacy.AddComponentExisting | tecs/tecs.h:157-160 | When the entity already holds a valid handle for the type, `addComponent` returns it and changes nothing. |
| TecsLegacy.RemoveComponentKeepsComponent | tecs/tecs.h:170-185 | `removeComponent` pushes the slot onto the sized container's free list, linked to the old head, but leaves the table, so `entityHasComponent` is unchanged. The container's size, every other slot's chunk and link, other containers and the entity free list are unchanged. |
| TecsLegacy.PopulatedFromInit | tecs/tecs.h:91-102 | The populated table after zero rounds is the state `init` leaves, so the rounds of `PopulateStep` start from `init`. |
| TecsLegacy.PopulateStep | tests/tests.cpp:168-176 | One create-and-add round on a populated table gives entity `n + 1` component `n + 1` and reaches the closed form for `n + 1`. |
| TecsLegacy.PopulatedVisited | tecs/tecs.h:201-203 | On a populated table, slot `m` is visited exactly when it holds an entity and type 1 was requested. |
| TecsLegacy.VisitsPredicted | tecs/tecs.h:288-298 | When exactly the slots `1..n` pass the type-1 filter, the scan of `1..m` returns `1..min(m, n)` for type 1 and nothing for other types. |
| TecsLegacy.VisitsPopulated | tecs/tecs.h:288-298 | On a table populated with type `t`, `forEach` for `t` visits `1..n` when `t` is 1 and nothing otherwise. |
| TecsLegacy.VisitsUpToParity | tecs/tecs.h:201-203 | Scanning `1..m`, an odd type id visits what type 1 visits and an even one visits nothing. |
| TecsLegacy.VisitsParity | tecs/tecs.h:288-298 | `forEach<T>` for an odd type id visits exactly what it visits for type 1; for an even type id it visits nothing. |
| TecsLegacy.OddTypeVisitsTypeOneHolders | tecs/tecs.h:201-203 | On a table populated with type 1, every odd type id visits `1..n`, though no entity holds a component of that type. |

## Left out

- Stream output (`operator<<` on handles): formatting only.
- The logging macros, and the type-registration macros other than as the parameters `t` and `size`: compile-time glue.
- Component payloads. The bytes a component stores while in use are not modelled, and neither are the references `addComponent` and `getComponent` return. So the 499500 sum in the loop test is not modelled, only the visited ids.
- Bit-field packing beyond the raw-word formula `alive + 2*gen + 16*id`. The model assumes the usual least-significant-first layout and zero padding above bit 31.
- `static_assert(sizeof(T) >= sizeof(ChunkEmptyEntry))`: stated as the precondition `size >= LinkBytes`.
- The current revision's default constructor `Ecs()`, which leaves the engine uninitialised. Calling `init` again on a used engine is also not modelled.
- Heap allocation in the legacy `newChunk`: modelled as chunk `k` now existing, with the links `newChunk` writes.
- `entityIterators` and `entityMatchingExact` in the legacy revision: unused and uninitialised.
- The variadic legacy `buildComponentMask`: it calls `TypeId` on `u32` and cannot link, so legacy `forEach` is modelled for a single type.
- The visitor: its side effects, and the `getComponent` dereference it receives, are not modelled. `forEach` returns the visited ids.
- Concurrency: neither header has locks or atomics, so single-threaded use is assumed.
- `tests/benchmark.cpp` and `example/example1.cpp`: timing and output only. `tests/tests.cpp` targets an API neither header has, so only its scenarios are modelled.
- Tecs.Ecs.constructor, TecsLegacy.Ecs.constructor: these require `maxEntities < 2^28`, so that every id fits the id bit-field, and `maxComponents < 256`, the range of the `unsigned char` template argument.
- Tecs.Ecs.RemoveComponent, TecsLegacy.Ecs.RemoveComponent: the source line that pushes the slot does not compile once instantiated, so both model its evident intent, a push onto the container's free list. Tecs.RemoveComponentStep also requires `t < 64`, because `1UL << t` is undefined beyond that.
- Tecs.Ecs.ForEach, TecsLegacy.Ecs.ForEach: `ForEachSafe` requires every scanned slot's handle id to index the table. The source reads out of bounds otherwise.
- Tecs.CanCreate: two cases of `newEntity` are excluded, because the source then writes out of bounds. The first is a bumped id past `maxEntities`, where the capacity assertion is compiled out. The second is a popped head at or beyond the table's size. The corrupt free list makes the second reachable: after a reuse the head is `2*gen' + 16*oldHead`.
- TecsLegacy.CanCreate: a full table (head 0) is modelled, and `newEntity` then returns the null handle unchanged. Only a popped head at or beyond the table's size is excluded, because the source then writes out of bounds. The corrupt free list makes it reachable: after a reuse the head is `2*gen' + 16*oldHead`.
