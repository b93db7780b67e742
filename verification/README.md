# R-Type core in Dafny

A model of the server and client core of the R-Type multiplayer shooter. It covers:

- **Component storages.** `HybridArray` (a vector of optional slots with an occupancy counter), `sparse_array`, `PackedArray` (dense storage with an entity-to-index map and swap-remove erase) and the `indexed_zipper` that joins storages on the indices where all of them hold a value (`HybridArray.dfy`, `SparseArray.dfy`, `PackedArray.dfy`, `Zipper.dfy`, with the slot-vector functions they are proved against in `Slots.dfy`).
- **The entity registry** (`Registry.dfy`). Handles come from a LIFO free list or a counter. Storages are registered per component kind, erase callbacks run on kill, and systems run in insertion order.
- **The wire formats.** The packed 9-byte UDP header, the payload layouts, `validatePacket` and the batch layout (`Protocol.dfy`). The `TYPE k=v k=v` text messages of the TCP channel (`TextProtocol.dfy`).
- **The simulation rules.**
  - The authoritative server of `src/GameServer.cpp`: input to velocity, shoot cooldown, movement with the screen clamp on every moved entity, lifetimes, bullet/enemy collisions, destroy bookkeeping and world-state batches (`SimRules.dfy` for the rules as functions, `SimServer.dfy` for the `GameServer` class).
  - The alternative game of `src/game/Game.cpp` (`Game.dfy`) and `position_system` (`Kinematics.dfy`, `Systems.dfy`).
  - The snapshot server of `Serveur/src/GameServer.cpp` (`SnapshotServer.dfy`).
- **The transport** of `src/Server.cpp` (`Transport.dfy`): UDP triage, CONNECT and DISCONNECT handling, the session list, broadcast, and newline framing of TCP reads.
- **The two clients' mirrors of the world.** `Serveur/src/GameClient.cpp` (`GameClient.dfy`) and `handleUdpPacket` of `src/client/ClientMain.cpp` (`ClientMain.dfy`).

Objects the source updates in place are classes. Their methods carry `modifies` clauses and are proved against specification functions. Algorithms with loops are methods with loop invariants. The rest is functions and lemmas.

Some things are passed in as parameters: time, `now`, random draws and the bytes waiting on a socket. Datagrams and lines that the source sends are appended to an outbox sequence. Positions, velocities and lifetimes are `real`. On the wire and in the clients, float fields are the 32-bit words the clients copy.

## Model

| member | source | states |
|---|---|---|
| BoundedInts.Wrap32 | src/GameServer.cpp:276 | a uint32_t result is the value modulo 2^32: unchanged below 2^32, one wrap subtracted just above it |
| BoundedInts.AdvanceWraps | src/game/Game.cpp:201 | k post-increments of a uint32_t counter add k modulo 2^32 |
| BoundedInts.Wrap32Add | src/GameServer.cpp:276 | wrapping after every increment or once at the end gives the same counter |
| BoundedInts.Trunc8 | src/Server.cpp:55 | static_cast<uint8_t> keeps a value below 256 and otherwise differs from it by a multiple of 256 |
| BoundedInts.Wrap32Increment | src/GameServer.cpp:276 | the network-id counter grows by one until 2^32 - 1, which wraps to 0 |
| Components.TruncRem | src/GameServer.cpp:273 | C++ `%` on int: the remainder lies in [0, b) for a non-negative dividend and in (-b, 0] for a negative one |
| Components.PlayerZeroIndexesBeforePalette | src/GameServer.cpp:273 | the palette index as written is -1 for player id 0 |
| Components.PaletteIndex | Serveur/src/GameClient.cpp:224 | the corrected palette index is always inside the four-colour palette and equals the written index for every player id from 1 on |
| Slots.Occupied | include/HybridArray.hpp:135 | the number of occupied slots never exceeds the number of slots |
| Slots.Empties | include/HybridArray.hpp:129-131 | the slots a resize adds are all empty |
| Slots.Grow | include/HybridArray.hpp:129-131 | ensure_sparse_capacity: at least n slots afterwards, every old slot kept, the new ones empty |
| Slots.Put | include/HybridArray.hpp:55-60 | after insert_at the slot holds the component, the storage has grown to cover the handle and every other slot is unchanged |
| Slots.Clear | include/HybridArray.hpp:80-85 | after erase the slot is empty, the size is unchanged and every other slot is unchanged |
| Slots.OccupiedUpdate | include/HybridArray.hpp:57 | overwriting one slot changes the occupied count by the difference of the two occupancies |
| Slots.OccupiedEmpties | include/HybridArray.hpp:130 | appending empty slots leaves the occupied count unchanged |
| Slots.OccupiedGrow | include/HybridArray.hpp:129-131 | growing the storage leaves the occupied count unchanged |
| Slots.OccupiedPut | include/HybridArray.hpp:56-58 | insert_at adds one to the count exactly when the slot was empty, which is what `++_sparse_count` does |
| Slots.OccupiedClear | include/HybridArray.hpp:81-84 | erase removes one from the count exactly when the slot was occupied, which is what `--_sparse_count` does |
| HybridArrays.HybridArray.constructor | include/HybridArray.hpp:47-52 | a new storage is empty, sparse, and keeps its switch density |
| HybridArrays.HybridArray.EnsureSparseCapacity | include/HybridArray.hpp:129-131 | the storage grows to the requested capacity, the counter is unchanged |
| HybridArrays.HybridArray.InsertAt | include/HybridArray.hpp:55-68 | the handle now has exactly the component, the storage covers it, every other handle reads as before and the counter tracks occupancy |
| HybridArrays.HybridArray.EmplaceAt | include/HybridArray.hpp:71-77 | emplace_at stores the constructed component like insert_at and keeps the counter equal to the occupied slots |
| HybridArrays.HybridArray.Erase | include/HybridArray.hpp:80-85 | the handle has no component, the size is kept, other handles are untouched, the counter drops only for an occupied slot |
| HybridArrays.HybridArray.Get | include/HybridArray.hpp:88-91 | get returns a component exactly when has is true, and nothing beyond the end |
| HybridArrays.HybridArray.GetRef | include/HybridArray.hpp:95-98 | get_ref grows the storage to cover the handle and returns its slot; no handle changes its component |
| HybridArrays.HybridArray.Count | include/HybridArray.hpp:135 | the counter equals the number of occupied slots and is at most size() |
| HybridArrays.HybridArray.ConvertToPacked | include/HybridArray.hpp:110-113 | the conversion is a no-op: contents and counter are unchanged |
| HybridArrays.HybridArray.ConvertToSparse | include/HybridArray.hpp:115-118 | the conversion is a no-op: contents and counter are unchanged |
| HybridArrays.HybridArray.IsPacked | include/HybridArray.hpp:120 | a valid storage is never packed |
| SparseArrays.SparseArray.constructor | Serveur/include/SparseArray.hpp:30 | a new sparse_array has no slots |
| SparseArrays.SparseArray.Index | Serveur/include/SparseArray.hpp:38-44 | the unchecked operator[] demands an in-range index and then agrees with get |
| SparseArrays.SparseArray.At | Serveur/include/SparseArray.hpp:47-54 | at fails with out_of_range exactly when the index is at or past size(), and otherwise returns the slot |
| SparseArrays.SparseArray.Get | Serveur/include/SparseArray.hpp:57-60 | get returns the slot, and nothing for an index past the end |
| SparseArrays.SparseArray.GetRef | Serveur/include/SparseArray.hpp:63-69 | get_ref resizes to idx + 1 only when idx is out of range, returns the slot and changes no component |
| SparseArrays.SparseArray.InsertAt | Serveur/include/SparseArray.hpp:81-92 | the slot holds the component, the storage covers pos, every other slot is unchanged |
| SparseArrays.SparseArray.EmplaceAt | Serveur/include/SparseArray.hpp:96-100 | emplace_at stores the constructed component in the slot like insert_at |
| SparseArrays.SparseArray.Erase | Serveur/include/SparseArray.hpp:103-105 | the slot is empty, the size is kept and every other slot is unchanged |
| PackedArrays.SwapRemove | Serveur/include/PackedArray.hpp:59-68 | moving the last entity and component into the hole and popping the back keeps entities, components and index_map_ mutually inverse and removes exactly the erased entity |
| PackedArrays.PackedArray.constructor | Serveur/include/PackedArray.hpp:15 | a new packed array holds nothing |
| PackedArrays.PackedArray.IndexOf | Serveur/include/PackedArray.hpp:72-76 | index_of is npos exactly for an absent entity, and otherwise the in-range position that holds it |
| PackedArrays.PackedArray.Count | Serveur/include/PackedArray.hpp:83 | count() is the number of stored entities |
| PackedArrays.PackedArray.Size | Serveur/include/PackedArray.hpp:88 | size() is the dense count, not a maximum entity id |
| PackedArrays.PackedArray.Insert | Serveur/include/PackedArray.hpp:18-40 | the entity now maps to the component; a stored entity is overwritten in place, a new one is appended at the back |
| PackedArrays.PackedArray.Emplace | Serveur/include/PackedArray.hpp:43-53 | emplace maps the entity to the constructed component, as insert does |
| PackedArrays.PackedArray.Erase | Serveur/include/PackedArray.hpp:55-69 | the entity is gone and every other entity keeps its component; the count drops by one when it was stored, and the last entity moves into the hole; an absent entity leaves both dense arrays as they were |
| Zippers.ComputeSize | Serveur/include/Zipper.hpp:88-91 | the zipper's size is the size of one of the storages and no storage is larger |
| Zippers.SkipFrom | Serveur/include/Zipper.hpp:30-37 | an iterator comes to rest at the first index from i on that is set in every storage, or at the bound; every index it skips is unset in some storage |
| Zippers.ZipperIterator.constructor | Serveur/include/Zipper.hpp:27-31 | the constructor advances past a starting index that is not set everywhere |
| Zippers.ZipperIterator.Next | Serveur/include/Zipper.hpp:35-38 | operator++ moves at least one step, to the next index set everywhere, and not past the bound |
| Zippers.ZipperIterator.Deref | Serveur/include/Zipper.hpp:46-67 | operator* yields the index and every storage's slot there; at a resting index every slot holds a component |
| Zippers.ZipperIterator.Equals | Serveur/include/Zipper.hpp:50-52 | equal iterators dereference to the same index and slots, and every iterator equals itself |
| Zippers.IndexedZipper.constructor | Serveur/include/Zipper.hpp:80-82 | the zipper's bound is the largest storage size |
| Zippers.IndexedZipper.Begin | Serveur/include/Zipper.hpp:84 | begin() rests at the first index set in every storage |
| Zippers.IndexedZipper.End | Serveur/include/Zipper.hpp:85 | end() sits at the bound |
| Zippers.TraversalMembers | Serveur/include/Zipper.hpp:35-62 | from a resting position the loop visits exactly the indices below the bound at which every storage has a component |
| Zippers.TraversalIncreasing | Serveur/include/Zipper.hpp:35-38 | the visited indices strictly increase, so none is visited twice |
| Zippers.ZipperVisitsExactlyAllSet | Serveur/include/Zipper.hpp:84-91 | a loop from begin() to end() visits, in increasing order, exactly the indices at which all storages hold a component |
| Zippers.ShortStorageBoundsTraversal | Serveur/include/Zipper.hpp:59-61 | no index at or past the end of the shortest storage is visited, though the bound is the largest size |
| Zippers.EmptyZipper | Serveur/include/Zipper.hpp:30-85 | when no index is set in every storage, begin() equals end() |
| Kinematics.IntegratedMeaning | Serveur/include/Systems.hpp:14-24 | an entity with both a position and a velocity moves by exactly its velocity; one without a velocity stays put; no position appears or disappears |
| Kinematics.ZeroVelocityStays | Serveur/include/Systems.hpp:18-23 | an entity with velocity (0, 0) does not move |
| Kinematics.IntegratedOccupied | Serveur/include/Systems.hpp:15-24 | the pass keeps the number of stored positions |
| Kinematics.IntegratedTwice | Serveur/include/Systems.hpp:21-22 | two passes with the same velocities move an entity by twice its velocity |
| Systems.PositionSystem | Serveur/include/Systems.hpp:9-25 | with both storages present the position storage becomes the integrated one; with either missing nothing changes; no other registry state changes |
| Registries.Registered | include/Registry.hpp:32-54 | register_component adds an empty storage for a missing kind and leaves every existing storage untouched |
| Registries.AddedMeaning | include/Registry.hpp:118-123 | add_component registers the kind if needed and stores the component in the entity's slot; every other slot and every other kind is unchanged |
| Registries.AddedAllStores | include/Registry.hpp:118-123 | after a run of add_component calls, each component not overridden by a later one of its kind is in the entity's slot |
| Registries.AddedAllFrame | include/Registry.hpp:118-123 | a run of add_component calls leaves the storage of any kind it does not name unchanged |
| Registries.AddedAllSlots | include/Registry.hpp:118-123 | a run of add_component calls for one entity leaves every other entity's slots unchanged |
| Registries.AddedAllKeys | include/Registry.hpp:120 | a run of add_component calls registers exactly the kinds of its components |
| Registries.AddedFrame | include/Registry.hpp:118-123 | add_component leaves the storage of every other kind unchanged |
| Registries.AddedSlots | include/Registry.hpp:122 | add_component leaves every other entity's slot unchanged |
| Registries.EraseAll | include/Registry.hpp:108-111 | the erase callbacks empty the entity's slot in every registered storage and register nothing |
| Registries.ClearTwice | include/Registry.hpp:134-140 | removing a component twice is removing it once |
| Registries.ErasedBy | include/Registry.hpp:109-111 | running erase callbacks registers and unregisters no kind |
| Registries.ErasedByMeaning | include/Registry.hpp:47-111 | running the callbacks of a list of kinds empties the slot in exactly the storages of those kinds, however often a kind repeats |
| Registries.Registry.OneCallbackPerKind | include/Registry.hpp:47-55 | no kind has two erase callbacks |
| Registries.Registry.constructor | include/Registry.hpp:24-186 | a new registry has no storages, no systems, no free handles, and hands out handle 0 first |
| Registries.Registry.RegisterComponent | include/Registry.hpp:29-55 | the kind's storage exists afterwards and is returned; an erase callback is installed only when the kind was new; entity bookkeeping is unchanged |
| Registries.Registry.GetComponents | include/Registry.hpp:59-61 | the non-const getter creates a missing storage and returns it |
| Registries.Registry.RegisterAll | include/Registry.hpp:29-55 | a run of register_component calls leaves the storages that registering each kind in turn gives, and keeps the handles, the systems and the bookkeeping invariants |
| Registries.RegisteredAllMeaning | include/Registry.hpp:29-55 | registering a list of kinds adds an empty storage for each new kind and keeps the storages already present |
| Registries.Registry.GetComponentsConst | include/Registry.hpp:65-72 | the const getter fails with out_of_range exactly when the kind is not registered, and otherwise returns its storage |
| Registries.Registry.GetComponentsIf | include/Registry.hpp:76-89 | get_components_if is null exactly when the kind is not registered, and otherwise returns its storage |
| Registries.Registry.HasComponentStorage | include/Registry.hpp:141-144 | true exactly when get_components_if finds a storage, and exactly when get_components does not fail |
| Registries.Registry.EntityFromIndex | include/Registry.hpp:104-106 | the handle with index idx, whose index is idx again (handles are modelled by their index) |
| Registries.Registry.SpawnEntity | include/Registry.hpp:92-102 | spawn_entity reuses the most recently freed handle, or else hands out the next fresh one; the alive count grows by one; under the bookkeeping invariant the handle is not live |
| Registries.Registry.EraseFromAll | include/Registry.hpp:109-111 | the loop over the erase callbacks empties the entity's slot in every storage |
| Registries.Registry.KillEntity | include/Registry.hpp:108-114 | kill_entity empties the entity's slots, pushes the handle on the free list unconditionally, and decrements the alive count unless it is 0 |
| Registries.Registry.KillEntityChecked | include/Registry.hpp:108-114 | the corrected kill acts only on a live handle, so a repeated kill is a no-op and the bookkeeping invariant survives any call |
| Registries.Registry.AddComponent | include/Registry.hpp:118-123 | the storages become those after add_component and the stored component is returned |
| Registries.Registry.AddComponents | include/Registry.hpp:118-123 | a run of add_component calls for one entity, in order |
| Registries.Registry.SpawnWith | include/Registry.hpp:92-123 | a freshly spawned, previously dead handle receives exactly the given components |
| Registries.Registry.EmplaceComponent | include/Registry.hpp:127-130 | emplace_component stores the constructed component like add_component |
| Registries.Registry.RemoveComponent | include/Registry.hpp:134-140 | remove_component empties the entity's slot of that kind, and is a no-op when the kind is not registered |
| Registries.Registry.WriteStorage | include/Registry.hpp:76-81 | a write through the pointer get_components_if returns replaces that one storage and nothing else |
| Registries.Registry.AddSystem | include/Registry.hpp:149-164 | add_system appends; nothing else changes |
| Registries.Registry.RunSystem | include/Registry.hpp:152-154 | a system fetches its storages with get_components, registering them if needed, then runs |
| Registries.Registry.RunSystems | include/Registry.hpp:166-170 | run_systems runs every system once in the order they were added |
| Registries.DoubleKillHandsOutHandleTwice | include/Registry.hpp:108-114 | killing a handle twice makes the next two spawns return the same handle |
| Registries.CheckedDoubleKillHandsOutDistinctHandles | include/Registry.hpp:92-102 | with the corrected kill, the same sequence yields two different handles |
| Registries.SpawnAfterCheckedKillsIsFresh | include/Registry.hpp:92-114 | after any run of corrected kills, a spawn returns a handle that was not live before unless it was killed in between |
| Games.FirstIndexOf | src/game/Game.cpp:186-192 | the position of the first occurrence: absent exactly when the value does not occur, and no earlier position holds it |
| Games.ViewOf | src/game/Game.cpp:134-183 | an entity has a snapshot entry exactly when it has a position; the entry carries its network id and health 100 |
| Games.SnapshotExactlyPositioned | src/game/Game.cpp:128-195 | the snapshot holds at most one entry per recorded pair, each entry is the view of a recorded entity, and every recorded entity with a position appears |
| Games.NetworkIdOf | src/game/Game.cpp:206-211 | a non-zero result is a recorded (entity, id) pair |
| Games.NetworkIdOfFirst | src/game/Game.cpp:207-209 | getNetworkId finds the id of the first pair recorded for the entity |
| Games.Steered | src/game/Game.cpp:67-96 | processInput changes only the velocity storage |
| Games.SteeredThenIntegrated | src/game/Game.cpp:46-91 | after an input, the next position integration moves the player by move times speed on each axis |
| Games.PlayerPartsStored | src/game/Game.cpp:99-103 | a spawned player has position (x, y), velocity (0, 0), a 48x48 drawable in (200, 30, 30) and speed 4 |
| Games.InitialPartsStored | src/game/Game.cpp:25-29 | the i-th starting entity sits at (100 + 150 i, 350) with a 64x32 drawable in (30, 100 + 30 i, 200) |
| Games.InitialPartsKeep | src/game/Game.cpp:28-29 | spawning a starting entity leaves every other entity's position and drawable unchanged |
| Games.PlacedSnoc | src/game/Game.cpp:24-31 | the loop of initialize keeps every earlier starting entity in place while it adds the next |
| Games.RecordedSnoc | src/game/Game.cpp:200-204 | each assignNetworkId records the next consecutive id |
| Games.Game.constructor | src/game/Game.cpp:7-11 | tick 0, network ids start at 1, an empty registry and no players |
| Games.Game.AssignNetworkId | src/game/Game.cpp:200-204 | the entity receives the current id, the counter advances with uint32_t wrap-around and the pair is appended |
| Games.Game.GetNetworkId | src/game/Game.cpp:206-211 | the loop returns the first recorded id of the entity, or 0 |
| Games.Game.Initialize | src/game/Game.cpp:13-34 | exactly the four kinds are added to the registered kinds, missing ones empty. The position system is appended. Exactly three distinct fresh entities join the live set, placed, drawn and numbered consecutively. Every other storage and every other entity's slot is unchanged |
| Games.Game.RegisterAndSetup | src/game/Game.cpp:15-53 | the registered kinds become the old ones plus the four, existing storages are kept and new ones are empty; exactly one system is appended and the live set is unchanged |
| Games.Game.SpawnStartingEntities | src/game/Game.cpp:24-31 | three distinct fresh entities at their starting positions and drawables, numbered with the next three ids. The live set gains exactly those three, and no kind is added. Only the Position and Drawable storages change, and there only in those three slots |
| Games.Game.SpawnInitialEntity | src/game/Game.cpp:25-30 | one pass of the loop: a fresh entity with its position and drawable and the next id. The live set gains exactly that entity; other kinds and every other entity's slots are untouched |
| Games.Game.Tick | src/game/Game.cpp:55-60 | every installed system runs once and the tick counter advances by one with uint32_t wrap-around |
| Games.Game.ProcessInput | src/game/Game.cpp:67-96 | the storages become Steered: an unknown player or a missing component leaves them unchanged |
| Games.Game.SpawnPlayer | src/game/Game.cpp:98-116 | a fresh entity is the only one added to the live set. The storages are the old ones with the four player components added for it and nothing else. It gets the next network id; the player slot holds it, slots below are padded, other slots kept |
| Games.Game.SetPlayerSlot | src/game/Game.cpp:108-111 | the player vector grows to cover the id with placeholder entity 0, the slot holds the player, other slots are kept |
| Games.Game.OwnerOf | src/game/Game.cpp:183-192 | the owner is the first player slot holding the entity, truncated to uint8_t, or 0 |
| Games.Game.GetSnapshot | src/game/Game.cpp:118-198 | the tick, a timestamp of tick * 16 modulo 2^32, and no entities without a position storage, otherwise one entry per recorded entity with a position, in record order |
| SimRules.Clamp | src/GameServer.cpp:115-118 | the boundary check keeps a coordinate inside [0, bound], leaves one already inside untouched, and sends one below or above to the nearer edge |
| SimRules.MovementClampingAll | src/GameServer.cpp:100-119 | the movement pass as written keeps the storage's size |
| SimRules.Movement | src/GameServer.cpp:100-119 | the movement pass with the boundary check on players only, as the comment at line 114 intends, keeps the storage's size |
| SimRules.ClampingAllKeepsEveryoneOnScreen | src/GameServer.cpp:111-118 | as written, every moved entity ends inside 800x600, so no moved enemy is ever past x = -100 and no moved bullet past x = 900 |
| SimRules.MovementClampingAllMeaning | src/GameServer.cpp:100-119 | as written, an entity with a position and a velocity moves by v * dt and is then held inside 800x600; an entity without a velocity stays put; no slot gains or loses its position |
| SimRules.EnemySpawnPulledBack | src/GameServer.cpp:564-613 | the enemy spawned at x = 850 moving left is pulled back to x = 800 by its first frame |
| SimRules.MovementMeaning | src/GameServer.cpp:100-119 | with the corrected check a non-player moves by exactly v * dt, a moving player stays inside the area, no slot gains or loses its position, and an entity without velocity stays put |
| SimRules.EnemyLeavesLeftEdge | src/GameServer.cpp:109-118 | with the corrected check an enemy at x = -50 moving left is past the off-screen line a second later |
| SimRules.AgedAll | src/GameServer.cpp:621-627 | the aging loop keeps exactly the occupied lifetime slots |
| SimRules.Expired | src/GameServer.cpp:621-631 | the handles collected are in increasing order, in range, and are exactly those whose remaining lifetime is at most 0 |
| SimRules.FirstHit | src/GameServer.cpp:673-703 | the enemy found is one the bullet overlaps; when none is found no enemy from there on is hit |
| SimRules.OffLeft | src/GameServer.cpp:708-717 | the off-left sweep queues only tracked enemies |
| SimRules.OffRight | src/GameServer.cpp:720-729 | the off-right sweep queues only tracked bullets |
| SimRules.HitPassQueuesTracked | src/GameServer.cpp:651-705 | the hit pass queues only tracked bullets and enemies |
| SimRules.HitPassOnlyLowersHealth | src/GameServer.cpp:693-698 | the hit pass never raises a health, never changes a maximum and never adds or removes a Health component |
| SimRules.BulletOutcomeMeaning | src/GameServer.cpp:686-703 | a bullet over no enemy changes nothing; on its first hit it is queued, and the enemy loses the damage or drops to 0 and is queued too |
| SimRules.FirstHitIsFirst | src/GameServer.cpp:702 | the inner loop stops at the first enemy the bullet overlaps |
| SimRules.InsertSorted | src/GameServer.cpp:732-733 | inserting keeps the list strictly increasing and adds exactly the new handle |
| SimRules.SortUnique | src/GameServer.cpp:732-733 | sort followed by unique yields the queued handles, each once, in increasing order |
| SimRules.EntriesBelowPrefix | src/GameServer.cpp:142-169 | scanning further only appends entries |
| SimRules.EntriesBelowSound | src/GameServer.cpp:147-166 | each entry comes from an index that has a position, a network id and a drawable |
| SimRules.FirstBatch | src/GameServer.cpp:142 | the batch holds at most MAX_BATCH_ENTITIES entries, all of them when there are that few |
| SimServer.StorageOf | src/GameServer.cpp:92-97 | a registered kind reads as its storage, a missing one as a storage with no component |
| SimServer.AddedAllLeavesKind | src/GameServer.cpp:263-279 | adding components of other kinds leaves a storage unchanged |
| SimServer.TrackedAfterDestroy | src/GameServer.cpp:753-764 | destroying an entity no player owns keeps the bullet, enemy and player lists consistent with the registry |
| SimServer.TrackedAfterConnect | src/GameServer.cpp:255-282 | a new player entity keeps the lists consistent; an id already mapped keeps its old entity, as std::map::insert does |
| SimServer.TrackedAfterDisconnect | src/GameServer.cpp:463-464 | killing a player's entity and forgetting the player keeps the lists consistent |
| SimServer.PartsKinds | src/GameServer.cpp:263-581 | neither a player nor an enemy receives a Lifetime |
| SimServer.PlayerPartsKeepLifetimes | src/GameServer.cpp:263-279 | a player entity never gets a lifetime, so updateLifetimes never destroys it |
| SimServer.Without | src/GameServer.cpp:754-761 | std::remove plus erase keeps exactly the other entries |
| SimServer.WithoutAllMembers | src/GameServer.cpp:634-738 | a run of destroyEntity calls removes exactly the destroyed entities from a list |
| SimServer.MembersMeaning | src/GameServer.cpp:619 | the members of a destroy list are exactly its entries |
| SimServer.MembersAt | src/GameServer.cpp:634-636 | in a list without repeats each entity is met once |
| SimServer.EraseEach | src/GameServer.cpp:634-636 | killing a list of entities registers and unregisters no kind |
| SimServer.EraseEachKeeps | src/GameServer.cpp:634-636 | killing other entities leaves an entity's slots alone |
| SimServer.EraseEachClears | src/GameServer.cpp:634-636 | every killed entity loses every component |
| SimServer.NoticesAnnounceOwnIds | src/GameServer.cpp:742-785 | when no entity is destroyed twice, each ENTITY_DESTROY carries the network id the entity had before the loop |
| SimServer.DestroyedPrefixStep | src/GameServer.cpp:634-636 | one more destroyEntity call extends the destroyed prefix by one entity |
| SimServer.AgedAllOfKind | src/GameServer.cpp:626 | aging keeps the Lifetime storage a storage of lifetimes |
| SimServer.IncreasingDistinct | src/GameServer.cpp:621-631 | the expired list, collected in index order, has no repeats |
| SimServer.LifetimesAfterUpdate | src/GameServer.cpp:615-637 | after updateLifetimes no lifetime left has run out, and each remaining one is the old one aged by dt |
| SimServer.StorageOfRegistered | src/GameServer.cpp:92-97 | a missing storage and a freshly registered one read alike |
| SimServer.AddedAllLifetimesElsewhere | src/GameServer.cpp:519-532 | spawning one entity leaves every other entity's lifetime unchanged |
| SimServer.TrackedAfterSpawn | src/GameServer.cpp:534-583 | a new entity appended to the bullet or enemy list keeps the lists consistent |
| SimServer.Steered | src/GameServer.cpp:226-240 | the input changes only the player entity's velocity, to move times 200 on each axis when it has one; positions are untouched |
| SimServer.AgeAll | src/GameServer.cpp:621-631 | the loop yields the aged storage and the expired indices, in increasing order |
| SimServer.ExpiredWereStored | src/GameServer.cpp:622-629 | every entity whose lifetime ran out had a lifetime |
| SimServer.MoveAll | src/GameServer.cpp:100-119 | the loop yields the position storage after the movement pass as written: every entity with both components moved by v * dt and clamped into 800x600, whatever its type |
| SimServer.MovementKeepsSlots | src/GameServer.cpp:100-119 | the movement pass as written keeps the position storage a storage of positions and changes no slot's occupancy |
| SimServer.ResolveHits | src/GameServer.cpp:651-705 | the nested loop yields the health storage and queue of the bullet-by-bullet hit pass |
| SimServer.CollectOffLeft | src/GameServer.cpp:708-717 | the loop yields the tracked enemies left of x = -100, in list order |
| SimServer.CollectOffRight | src/GameServer.cpp:720-729 | the loop yields the tracked bullets right of x = 900, in list order |
| SimServer.CollisionQueueTracked | src/GameServer.cpp:731-733 | checkCollisions destroys only tracked bullets and enemies, each once |
| SimServer.HitPassKeepsSlots | src/GameServer.cpp:693-698 | the hit pass keeps the health storage a storage of healths, with the same occupied slots |
| SimServer.Collide | src/GameServer.cpp:639-733 | the passes of checkCollisions yield the damaged health storage and the sorted, de-duplicated destroy list |
| SimServer.DoomedDisposable | src/GameServer.cpp:731-738 | the entities checkCollisions destroys are live, listed once, and belong to no player |
| SimServer.Min3 | src/GameServer.cpp:140 | std::min of three sizes is at most each of them and equal to one |
| SimServer.CollectBatch | src/GameServer.cpp:140-169 | the loop yields the first 10 entries, in index order, of the indices that have a position, a network id and a drawable, with health 100 when there is none |
| SimServer.WorldBatchSound | src/GameServer.cpp:140-169 | the world-state batch has at most MAX_BATCH_ENTITIES entries and each comes from an index that has the three components |
| SimServer.NewServerRegistry | src/GameServer.cpp:16-25 | the registry holds exactly the nine gameplay kinds, each with an empty storage, and no live entity |
| SimServer.GameServer.constructor | src/GameServer.cpp:9-28 | exactly the nine gameplay storages are registered, all empty; network ids start at 1, the first enemy is due after 3 seconds |
| SimServer.GameServer.DestroyEntity | src/GameServer.cpp:741-786 | the entity is killed and dropped from both lists, and ENTITY_DESTROY is broadcast only when it had a non-zero network id |
| SimServer.GameServer.DestroyAll | src/GameServer.cpp:634-738 | destroyEntity on each of a list of distinct live non-player entities, in order |
| SimServer.GameServer.SpawnPlayerEntity | src/GameServer.cpp:255-282 | a fresh entity with the given components, mapped to the player unless the id is already mapped |
| SimServer.GameServer.OnPlayerConnected | src/GameServer.cpp:249-285 | a fresh entity at (100 + 100 id, 300) with the player's components and the next network id, mapped to the player unless already mapped |
| SimServer.GameServer.OnPlayerDisconnected | src/GameServer.cpp:443-488 | an unknown player changes nothing; otherwise the entity is killed, the player forgotten, and ENTITY_DESTROY broadcast for a non-zero id |
| SimServer.GameServer.AgeLifetimes | src/GameServer.cpp:616-631 | the aged storage is written back; the expired entities are live, distinct, and belong to no player |
| SimServer.GameServer.UpdateLifetimes | src/GameServer.cpp:615-637 | without a Lifetime storage nothing changes; otherwise every expired entity is destroyed in increasing order, with its ENTITY_DESTROY |
| SimServer.GameServer.MovePositions | src/GameServer.cpp:92-119 | the pass runs exactly when both storages exist, and then replaces the position storage by the moved and clamped one of the movement pass as written |
| SimServer.GameServer.ApplyHits | src/GameServer.cpp:640-733 | with the four storages present the health storage is damaged and the destroy list computed; otherwise nothing changes |
| SimServer.GameServer.CheckCollisions | src/GameServer.cpp:639-739 | the damage pass, then destroyEntity on every hit bullet, dead enemy and off-screen entity, once each, in increasing order |
| SimServer.GameServer.BroadcastWorldState | src/GameServer.cpp:125-205 | one ENTITY_BATCH_UPDATE with token 0 is queued exactly when the three storages exist and the batch is not empty |
| SimServer.GameServer.UpdateGame | src/GameServer.cpp:75-123 | an enemy spawns exactly when the timer reaches the spawn time; the timer resets and the next spawn time becomes the draw; after a frame the timer is below the spawn time, which stays within [3, 5] |
| SimServer.GameServer.SpawnWhenDue | src/GameServer.cpp:76-86 | the enemy-spawning part of updateGame |
| SimServer.GameServer.RunSystems | src/GameServer.cpp:88-122 | lifetimes, movement and collisions leave the player map and the spawn timer alone |
| SimServer.GameServer.GameLoopStep | src/GameServer.cpp:60-68 | a frame runs exactly when a tick interval has passed; otherwise nothing changes. A frame spawns an enemy exactly when the timer reaches the spawn time, resetting the timer and taking the new interval. The last datagram queued is the world batch of the resulting storages, when there is one. The spawn interval stays within [3, 5] |
| SimServer.GameServer.SpawnListed | src/GameServer.cpp:519-610 | a fresh entity with the given components and the next network id is appended to the bullet or enemy list, and its ENTITY_SPAWN queued |
| SimServer.GameServer.SpawnBullet | src/GameServer.cpp:492-562 | a shot within 250 ms of the player's last accepted one is refused; otherwise the shot time is recorded and a bullet spawns at the player position + (60, 20) when there is one |
| SimServer.GameServer.SpawnEnemy | src/GameServer.cpp:564-613 | an enemy at (850, y) moving left at 150 with 50 health, listed as an enemy, and its ENTITY_SPAWN queued |
| SimServer.GameServer.Steer | src/GameServer.cpp:226-240 | the player entity's velocity is set in place |
| SimServer.GameServer.HandlePlayerInput | src/GameServer.cpp:207-247 | input for an unknown player, or arriving when no Velocity storage exists, is ignored; otherwise the velocity is steered and a bullet is fired when BTN_SHOOT is set |
| TextProtocol.LessIrreflexive | Serveur/src/Protocol.cpp:22 | std::string's operator< never orders a key before itself |
| TextProtocol.LessTransitive | Serveur/src/Protocol.cpp:22 | std::string's operator< is transitive |
| TextProtocol.LessAsymmetric | Serveur/src/Protocol.cpp:22 | std::string's operator< never orders two keys both ways |
| TextProtocol.LessTotal | Serveur/src/Protocol.cpp:22 | any two different keys are ordered one way, so the map's key order is total |
| TextProtocol.LookupAbsent | Serveur/src/Protocol.cpp:22 | a key below every key of the map is not in it |
| TextProtocol.InsertKeys | Serveur/src/Protocol.cpp:22 | inserting adds no key outside the bound that held before |
| TextProtocol.Insert | Serveur/src/Protocol.cpp:22 | `params[key] = value`: the key now maps to the value, every other key keeps its value, and the keys stay sorted |
| TextProtocol.InsertGreatest | Serveur/src/Protocol.cpp:22-34 | inserting a key above every present key appends it |
| TextProtocol.WordLen | Serveur/src/Protocol.cpp:13-17 | the length of the word `>>` reads: no whitespace in it, whitespace or the end right after it |
| TextProtocol.Tokens | Serveur/src/Protocol.cpp:13-17 | the words successive `>>` extractions read are non-empty and contain no whitespace |
| TextProtocol.FindEq | Serveur/src/Protocol.cpp:18 | find('=') returns the first '=', or npos when there is none |
| TextProtocol.Parse | Serveur/src/Protocol.cpp:8-27 | parse reads the first word as the type and every later word with an '=' as a parameter, in order |
| TextProtocol.ParamsOfStep | Serveur/src/Protocol.cpp:17-23 | one more iteration of the loop inserts the next word's key and value, or skips a word without '=' |
| TextProtocol.LastOccurrenceWins | Serveur/src/Protocol.cpp:17-23 | each key of a parsed line holds the value of its last occurrence, and a key that never occurs is absent |
| TextProtocol.BlankLine | Serveur/src/Protocol.cpp:8-27 | a line with no words parses to the empty type and no parameters |
| TextProtocol.BlankTokens | Serveur/src/Protocol.cpp:13 | a line of whitespace holds no words |
| TextProtocol.Serialize | Serveur/src/Protocol.cpp:30-40 | serialize writes the type, " key=value" for each parameter in key order, and a newline |
| TextProtocol.TokensOfJoin | Serveur/src/Protocol.cpp:34-38 | the serialized parameters read back as one word per parameter |
| TextProtocol.KeyValueOfText | Serveur/src/Protocol.cpp:18-35 | a serialized parameter splits back at its first '=' into its key and value when the key has no '=' |
| TextProtocol.ParamsOfTexts | Serveur/src/Protocol.cpp:17-36 | reading back the serialized parameters of a sorted map rebuilds that map |
| TextProtocol.SerializeParseRoundTrip | Serveur/src/Protocol.cpp:8-40 | parse(serialize(m)) == m for every message whose type is a non-empty word and whose keys and values contain no whitespace and whose keys contain no '=' |
| Transport.Numeral | src/Server.cpp:63-68 | std::to_string and std::hex write a non-empty string of digits |
| Transport.NumeralRoundTrip | src/Server.cpp:63-68 | reading the digits back in the same base gives the number written |
| Transport.DecimalIsWord | src/Server.cpp:63-105 | a decimal id is a single word without '=', so it survives the text protocol |
| Transport.ConnectOkParamsInOrder | src/Server.cpp:61-70 | the CONNECT_OK parameters are id, token and udp_port, in map order |
| Transport.ConnectOkRoundTrips | src/Server.cpp:61-72 | the CONNECT_OK message parses back to itself after serialisation |
| Transport.ConnectOkWords | src/Server.cpp:61-70 | the message type and parameter names of CONNECT_OK are words without spaces or '=' |
| Transport.ConnectOkReadsBack | src/Server.cpp:61-72 | a client parsing the CONNECT_OK line reads back the player id, the port and the hex token, which evaluates to the token |
| Transport.FanoutReachesOthers | src/Server.cpp:346-352 | a client gets the broadcast line exactly when it has a session and is not the excluded client, and only that line is queued |
| Transport.WithoutClient | src/Server.cpp:354-361 | remove_if never lengthens the session list |
| Transport.WithoutClientMembers | src/Server.cpp:354-361 | the sessions kept are exactly those with another client id |
| Transport.WithoutClientIncreasing | src/Server.cpp:354-361 | removing a client keeps the client ids strictly increasing |
| Transport.WithoutClientValid | src/Server.cpp:354-361 | removing a client keeps the session list valid: ids increasing and below the next id, every token holder consistent |
| Transport.Updated | src/Server.cpp:55-58 | updating a session's ClientInfo changes that session's info only and keeps every client id and the length |
| Transport.TokenOwner | src/Server.cpp:259-266 | the lookup finds nothing iff no session holds the token, else the first session holding it |
| Transport.SameTokensSameOwner | src/Server.cpp:259-266 | the lookup depends only on the tokens of the sessions |
| Transport.DispatchOf | src/Server.cpp:288-343 | an input is applied iff the type is PLAYER_INPUT with a payload of the input size, for the session's player; a PONG carrying the request's token answers exactly the PINGs |
| Transport.TriageAsWritten | src/Server.cpp:239-344 | as written, a datagram is delivered iff it is long enough, validates and some session holds its token, token 0 included; the first such session gets it, binds iff it had no endpoint yet, and inputs act for its player |
| Transport.Triage | src/Server.cpp:239-344 | a datagram is delivered iff it is long enough, validates and carries a non-zero token held by a session; the first such session gets it, binds iff it had no endpoint yet, and inputs act for its player |
| Transport.TriagesAgreeOffTokenZero | src/Server.cpp:259-273 | both triages agree on every datagram whose token is not 0 |
| Transport.TokenZeroReachesUnconnectedSession | src/Server.cpp:259-337 | a session that never sent CONNECT answers a token-0 PING as written; the corrected triage drops it |
| Transport.DeliveredToConnectedPlayer | src/Server.cpp:259-273 | with a valid session list, a delivered datagram belongs to a session that completed CONNECT, with a valid name and its client id as player id |
| Transport.BoundKeepsValid | src/Server.cpp:275-286 | binding a session's UDP endpoint leaves client ids, tokens, names and player ids as they were, so the session list stays valid |
| Transport.BindsOnce | src/Server.cpp:275-286 | as written, after a session's datagram, a later one with the same token reaches the same session and does not bind again |
| Transport.PayloadPlayerIdIgnored | src/Server.cpp:295-322 | as written, the player id carried in an input payload does not change what the server does |
| Transport.ConnectDecision | src/Server.cpp:30-52 | CONNECT is refused as server_full iff more than four sessions are open, accepted iff not and the username has 1 to 16 characters |
| Transport.HandledKeepsValid | src/Server.cpp:24-115 | handleMessage keeps the session list valid; when it changes the session's info, the session gets the token, its client id truncated to 8 bits as player id, a valid name and no UDP endpoint |
| Transport.DisconnectRemovesSession | src/Server.cpp:88-114 | DISCONNECT queues DISCONNECT_OK, removes exactly the session's entries and tells the game only when the session has a player id |
| Transport.FindNewline | src/Server.cpp:127 | find('\n') returns the first newline, or nothing when there is none |
| Transport.CompleteLines | src/Server.cpp:126-133 | the lines handed to handleMessage are non-empty and hold no newline |
| Transport.FramedLinesSplit | src/Server.cpp:126-133 | non-empty lines each sent with '\n' come back one by one, in order, whatever unterminated tail follows |
| Transport.SplitLines | src/Server.cpp:126-133 | the loop of doRead yields exactly the complete non-empty lines |
| Transport.FindSession | src/Server.cpp:260-266 | the lookup loop returns the first session holding the token |
| Transport.TriagePacket | src/Server.cpp:241-343 | the decisions of handleUDPPacket, in order, give the triage as written, with the session lookup matching token 0 too |
| Transport.FanoutLoop | src/Server.cpp:347-351 | the loop of broadcastMessage queues the line for every other session, in list order |
| Transport.KeepOthers | src/Server.cpp:355-361 | the remove_if pass keeps the sessions of other clients and reports whether one was removed |
| Transport.Server.constructor | src/Server.cpp:176-193 | a server has no sessions, hands out client ids from 1, and has queued nothing |
| Transport.Server.Accept | src/Server.cpp:204-216 | a new session is appended with the next client id and a default ClientInfo; the list stays valid |
| Transport.Server.HandleUdpPacket | src/Server.cpp:239-344 | the datagram is triaged as written (token 0 included), the endpoint bound on a session's first datagram, and the hooks and PONG reply issued accordingly |
| Transport.Server.BroadcastMessage | src/Server.cpp:346-352 | the line is queued for every session but the excluded one; nothing else changes |
| Transport.Server.RemoveSession | src/Server.cpp:354-368 | the sessions of that client are removed, in order, and the result says whether there was one |
| Transport.Server.HandleMessage | src/Server.cpp:24-115 | one line is handled as Handled says. The session list stays valid and the session consistent, and the session's ClientInfo stays the one the list holds for it |
| Transport.HandledKeepsInfo | src/Server.cpp:24-115 | handling a line keeps the session's ClientInfo equal to the entry the session list holds for it, whether the line connects, disconnects or is ignored |
| Transport.Server.Connect | src/Server.cpp:30-86 | the CONNECT branch: refusal lines, or the session's new info, CONNECT_OK, the game hook and PLAYER_JOIN to the others |
| Transport.Server.Depart | src/Server.cpp:90-153 | the game and the other players hear of a departure only for a session with a player id; the session is removed |
| Transport.Server.Receive | src/Server.cpp:117-135 | every complete line of a chunk is handled in order, the session's ClientInfo staying the one the list holds |
| Transport.Server.ConnectionLost | src/Server.cpp:136-154 | a failed read ends the session as a DISCONNECT does, without the DISCONNECT_OK line |
| Protocol.EntityTypeOf | include/Protocol.hpp:39-46 | a byte names an entity type iff it is at most 5, and then that type's code is the byte |
| Protocol.EntityTypeCodeRoundTrip | include/Protocol.hpp:39-46 | every entity type's code names it back |
| Protocol.U16RoundTrip | include/Protocol.hpp:53 | a little-endian uint16_t reads back as written |
| Protocol.U16BytesRoundTrip | include/Protocol.hpp:53 | every two bytes are the encoding of the value they decode to |
| Protocol.U32RoundTrip | include/Protocol.hpp:57 | a little-endian uint32_t reads back as written |
| Protocol.U32BytesRoundTrip | include/Protocol.hpp:57 | every four bytes are the encoding of the value they decode to |
| Protocol.I8RoundTrip | include/Protocol.hpp:68-69 | an int8_t reads back from its two's-complement byte |
| Protocol.EncodeHeader | include/Protocol.hpp:51-61 | the packed header is nine bytes |
| Protocol.HeaderRoundTrip | include/Protocol.hpp:51-61 | decoding an encoded header gives it back |
| Protocol.HeaderPrefix | include/Protocol.hpp:51-61 | the header is read from the first nine bytes whatever payload follows |
| Protocol.DecodeHeader | include/Protocol.hpp:51-61 | the first nine bytes of a datagram are exactly the encoding of the header read from them |
| Protocol.ValidatePacket | include/Protocol.hpp:149-170 | a validated datagram has the project's magic and version, 9 to 264 bytes, and a payload of exactly the declared size |
| Protocol.FramedPacketValidates | include/Protocol.hpp:149-171 | a header from the default constructor with a payload of the declared size validates and reads back as sent |
| Protocol.ButtonsAreDistinctBits | include/Protocol.hpp:73-78 | a byte holding one button flag tests as that button and as no other |
| Protocol.EncodeInput | include/Protocol.hpp:64-70 | the packed input payload is eight bytes |
| Protocol.InputRoundTrip | include/Protocol.hpp:64-70 | an input payload decodes back as encoded |
| Protocol.DecodeInput | include/Protocol.hpp:64-70 | every eight bytes are the encoding of the input they decode to |
| Protocol.EncodeSpawn | include/Protocol.hpp:81-91 | the packed spawn payload is 39 bytes |
| Protocol.SpawnRoundTrip | include/Protocol.hpp:81-91 | a spawn payload decodes back as encoded |
| Protocol.DecodeSpawn | include/Protocol.hpp:81-91 | every 39 bytes are the encoding of the spawn payload they decode to |
| Protocol.EncodeUpdate | include/Protocol.hpp:94-101 | the packed update payload is 21 bytes |
| Protocol.UpdateRoundTrip | include/Protocol.hpp:94-101 | an update payload decodes back as encoded |
| Protocol.DecodeUpdate | include/Protocol.hpp:94-101 | every 21 bytes are the encoding of the update payload they decode to |
| Protocol.EncodeDestroy | include/Protocol.hpp:104-106 | the destroy payload is four bytes |
| Protocol.DestroyRoundTrip | include/Protocol.hpp:104-106 | a destroy payload decodes back as encoded |
| Protocol.DecodeDestroy | include/Protocol.hpp:104-106 | every four bytes are the encoding of the destroy payload they decode to |
| Protocol.EncodeEntry | include/Protocol.hpp:109-114 | a batch entry is 13 bytes |
| Protocol.EntryRoundTrip | include/Protocol.hpp:109-114 | a batch entry decodes back as encoded |
| Protocol.DecodeEntry | include/Protocol.hpp:109-114 | every 13 bytes are the encoding of the entry they decode to |
| Protocol.EncodeEntries | include/Protocol.hpp:118-121 | entries back to back take 13 bytes each |
| Protocol.DecodeEntries | include/Protocol.hpp:118-121 | reading count entries gives count entries, and the first 13 * count bytes are exactly their encoding |
| Protocol.EntriesRoundTrip | include/Protocol.hpp:118-121 | entries written back to back read back in order, whatever follows them |
| Protocol.LastEntrySlice | include/Protocol.hpp:118-121 | the n-th 13-byte slot of a run of entries holds the n-th entry |
| Protocol.EncodeBatch | include/Protocol.hpp:116-121 | a batch payload is one count byte holding the number of entries, then 13 bytes per entry |
| Protocol.BatchRoundTrip | include/Protocol.hpp:116-121 | reading as many entries as the count byte says gives back the batch |
| Protocol.SpawnPacket | include/Protocol.hpp:80-91 | a spawn packet declares the spawn payload's size |
| Protocol.DestroyPacket | include/Protocol.hpp:103-106 | a destroy packet declares the destroy payload's size |
| Protocol.BatchPacket | include/Protocol.hpp:116-121 | a batch packet declares the count byte plus 13 bytes per entry |
| Protocol.BuiltPacketsValidate | include/Protocol.hpp:149-171 | spawn, destroy and batch packets as the servers build them pass validatePacket |
| Protocol.BuiltBatchesFit | include/Protocol.hpp:116-121 | every batch a server builds carries its entry count after the header and passes the receivers' batch guard |
| Protocol.BatchBytes | include/Protocol.hpp:116-121 | a server batch is its header followed by the batch payload: the count byte, then the entries |
| Protocol.BatchPacketReadsBack | include/Protocol.hpp:116-121 | a receiver of a server batch reads back the header that was sent, the entry count and every entry, in order |
| Protocol.LastFor | include/Protocol.hpp:109-114 | there is no entry for an id iff no entry names it; otherwise the entry found names it and sits at a position after which no entry names it |
| SnapshotServer.Entries | Serveur/src/GameServer.cpp:114-120 | each batch entry carries the network id, position and health of its snapshot entity, one entry per entity |
| SnapshotServer.BatchSlice | Serveur/src/GameServer.cpp:93-96 | every batch the loop cuts holds one to ten entities |
| SnapshotServer.SnapshotBatches | Serveur/src/GameServer.cpp:89-93 | a client is sent the number of ten-entity batches the snapshot needs, rounded up |
| SnapshotServer.BatchPacketsWellFormed | Serveur/src/GameServer.cpp:98-124 | an empty snapshot sends nothing; every packet is an ENTITY_BATCH_UPDATE with the client's token, one to ten entries and a payload size of the count byte plus 13 bytes per entry |
| SnapshotServer.EntriesSplit | Serveur/src/GameServer.cpp:93-120 | the entries of a prefix are those of a shorter prefix followed by those of the slice between |
| SnapshotServer.BatchPrefixCarries | Serveur/src/GameServer.cpp:93-120 | the first k batches carry exactly the first 10k entities, in order |
| SnapshotServer.BatchesCoverSnapshot | Serveur/src/GameServer.cpp:89-141 | the batches together carry every entity of the snapshot once, in snapshot order |
| SnapshotServer.SendSnapshotToClient | Serveur/src/GameServer.cpp:83-142 | the batching loop builds exactly the batches of the snapshot for the client's token |
| SnapshotServer.Addressed | Serveur/src/GameServer.cpp:134-137 | every packet goes to the client's endpoint, in order |
| SnapshotServer.AddressedMembers | Serveur/src/GameServer.cpp:134-137 | a datagram is addressed to an endpoint iff it goes there and is one of the packets |
| SnapshotServer.OnlyBoundSessionsReceive | Serveur/src/GameServer.cpp:71-81 | every datagram sent goes to a session whose UDP endpoint is known, and is one of the snapshot's batches with that session's token |
| SnapshotServer.EveryBoundSessionReceives | Serveur/src/GameServer.cpp:71-81 | every session whose endpoint is known is sent every batch of the snapshot with its token |
| SnapshotServer.UnboundSessionsSkipped | Serveur/src/GameServer.cpp:76-79 | an endpoint no bound session has is sent nothing |
| SnapshotServer.SendToBound | Serveur/src/GameServer.cpp:75-80 | the session loop sends exactly the snapshot datagrams |
| SnapshotServer.BroadcastEveryOtherTick | Serveur/src/GameServer.cpp:57-59 | of two successive ticks exactly one broadcasts, across the uint32_t wrap as well |
| SnapshotServer.GameServer.constructor | Serveur/src/GameServer.cpp:6-12 | a new server is stopped, has sent nothing, and holds a fresh game at tick 0 |
| SnapshotServer.GameServer.Start | Serveur/src/GameServer.cpp:18-30 | the first start does what initialize does. Three ids are appended and the counter advances by three. The entities they name are the three starting entities, placed and drawn, and they alone join the live set. The position system is appended, and every other storage and slot is as before. A second start changes nothing. Either way the server is running |
| SnapshotServer.GameServer.Stop | Serveur/src/GameServer.cpp:32-40 | the server is no longer running and has sent nothing more |
| SnapshotServer.GameServer.BroadcastSnapshot | Serveur/src/GameServer.cpp:71-81 | the snapshot datagrams for the bound sessions are sent |
| SnapshotServer.GameServer.GameLoopStep | Serveur/src/GameServer.cpp:45-60 | the tick advances by one modulo 2^32, the systems run once, and the snapshot is broadcast iff the new tick is even |
| SnapshotServer.GameServer.HandlePlayerInput | Serveur/src/GameServer.cpp:144-153 | the input reaches the game unchanged and steers that player's entity; no entity is created or killed |
| SnapshotServer.GameServer.AddPlayer | Serveur/src/GameServer.cpp:155-162 | player p gets a new entity, the only one added to the live set, whose four player components are the only change to the storages: at (100 + 100p, 100) with zero velocity, a 48x48 drawable in (200, 30, 30) and speed 4, recorded in its player slot (other slots kept, gaps padded with 0) and under the next network id; the counter advances with 32-bit wrap, tick and systems unchanged |
| GameClients.SpawnThenDestroy | Serveur/src/GameClient.cpp:203-288 | destroying an entity just spawned under a fresh id gives the mirror back as it was |
| GameClients.SpawnMeaning | Serveur/src/GameClient.cpp:203-238 | a spawn makes its id known with the payload's position and health, a 48x48 size, and a colour by type and owner; other ids are untouched |
| GameClients.PlayersColouredByOwner | Serveur/src/GameClient.cpp:216-227 | player spawns from up to four consecutive owners get different colours |
| GameClients.UpdateMeaning | Serveur/src/GameClient.cpp:240-250 | an update never adds or removes an id; a known id gets the payload's position and health and keeps its size and colour |
| GameClients.BatchEntryIsUpdate | Serveur/src/GameClient.cpp:264-276 | a batch entry does what an update with the same id, position and health does |
| GameClients.BatchLastWriteWins | Serveur/src/GameClient.cpp:264-276 | a batch never adds or removes an id; a known id ends with the last entry naming it, an id not named is untouched |
| GameClients.Received | Serveur/src/GameClient.cpp:144-149 | the receive buffer keeps its 1024 bytes |
| GameClients.ReceivedLength | Serveur/src/GameClient.cpp:144-149 | the received length is at most the datagram's and at most the buffer's size |
| GameClients.Step | Serveur/src/GameClient.cpp:136-195 | one pass of update's loop keeps the buffer's size |
| GameClients.Drained | Serveur/src/GameClient.cpp:136-195 | draining the socket keeps the buffer's size |
| GameClients.ReceivedPrefix | Serveur/src/GameClient.cpp:144-149 | a datagram that fits is at the start of the buffer after it is received |
| GameClients.ServerSpawnAbsorbed | Serveur/src/GameClient.cpp:156-178 | a spawn packet as the servers build it puts exactly its entity in the mirror |
| GameClients.ServerDestroyAbsorbed | Serveur/src/GameClient.cpp:156-190 | a destroy packet as the servers build it erases its id |
| GameClients.ReceivedWhole | Serveur/src/GameClient.cpp:144-149 | a datagram that fits is received whole, with the buffer's later bytes left as they were |
| GameClients.BatchLayout | Serveur/src/GameClient.cpp:252-266 | a received batch datagram puts its header, count byte and entries where the handler reads them |
| GameClients.AbsorbedBatch | Serveur/src/GameClient.cpp:165-186 | a valid batch whose entries lie inside the buffer applies exactly the entries its count byte announces |
| GameClients.ServerBatchAbsorbed | Serveur/src/GameClient.cpp:136-195 | a batch packet as the servers build it applies exactly its entries to the mirror |
| GameClients.EmptySpawnReadsStaleBytes | Serveur/src/GameClient.cpp:203-205 | a valid spawn datagram with an empty payload makes the client read the spawn from whatever bytes the buffer held before |
| GameClients.OversizedCountOverrunsBuffer | Serveur/src/GameClient.cpp:252-266 | a ten-byte batch with count 255 passes update's checks as written, and the handler reads past the datagram and past the 1024-byte buffer |
| GameClients.ShortBatchReadsStaleBytes | Serveur/src/GameClient.cpp:252-276 | a valid 10-byte batch datagram with count 2 fails the count guard, yet update applies two entries read from the stale bytes 10..35 of the buffer |
| GameClients.GuardedBatchReadsReceivedBytes | Serveur/src/GameClient.cpp:252-266 | where the count guard lets a batch through, every entry read lies within the received bytes and the buffer |
| GameClients.InputDatagram | Serveur/src/GameClient.cpp:96-124 | an input datagram is the nine-byte header plus the eight-byte payload |
| GameClients.InputDatagramReadsBack | Serveur/src/GameClient.cpp:96-124 | the input datagram a client sends passes validation and reads back as the header and the input payload that were sent |
| GameClients.InputReachesServer | Serveur/src/GameClient.cpp:96-124 | the server's triage as written delivers a client's input datagram to the session owning its token and applies the movement and buttons to that session's player, whatever player id the payload carries |
| GameClients.DigitRun | Serveur/src/GameClient.cpp:57-61 | the digit run is the longest prefix of digits |
| GameClients.Stoi | Serveur/src/GameClient.cpp:57-61 | a value std::stoi returns fits in an int; otherwise it throws |
| GameClients.ShortOf | Serveur/src/GameClient.cpp:61 | a value stored in a short is in the short range, and unchanged when it was already in it |
| GameClients.NumeralIsDecimal | Serveur/src/GameClient.cpp:57-61 | what std::to_string writes is all decimal digits |
| GameClients.StoiOfDecimal | Serveur/src/GameClient.cpp:57-61 | std::stoi reads back what std::to_string wrote |
| GameClients.HexToken | Serveur/src/GameClient.cpp:58-60 | a value starting with neither a sign nor a hex digit reads as token 0; after a `+` the hex magnitude is read; after a `-` it is negated modulo 2^32; a magnitude beyond uint32_t reads 0xFFFFFFFF |
| GameClients.HexMagnitude | Serveur/src/GameClient.cpp:58-60 | the unsigned hex value after an optional 0x prefix; no leading hex digit reads 0 |
| GameClients.PlusSignIgnored | Serveur/src/GameClient.cpp:58-60 | a single leading `+` does not change the token read ("+1f" reads 31) |
| GameClients.MinusSignNegates | Serveur/src/GameClient.cpp:58-60 | a single leading `-` negates the token modulo 2^32 ("-1" reads 0xFFFFFFFF) |
| GameClients.HandshakeOf | Serveur/src/GameClient.cpp:50-61 | a reply that is not CONNECT_OK is refused; a reply that is not refused has an id that reads as an int; a granted port is a short |
| GameClients.HexTokenOfHex | Serveur/src/GameClient.cpp:58-60 | reading the token with std::hex gives back the token the server wrote |
| GameClients.HandshakeOfGrant | Serveur/src/GameClient.cpp:50-61 | a CONNECT_OK reply whose id, token and port all read is granted with those values |
| GameClients.ServerGrantAccepted | Serveur/src/GameClient.cpp:50-61 | the client accepts the CONNECT_OK line the server writes, with the id, token and UDP port the server chose |
| GameClients.GameClient.constructor | Serveur/src/GameClient.cpp:7-16 | a new client has no id, token, port or entities, is not connected and has sent nothing |
| GameClients.GameClient.SendInput | Serveur/src/GameClient.cpp:96-124 | nothing is sent before the client is connected; otherwise one PLAYER_INPUT datagram with its token and player id |
| GameClients.GameClient.Authenticate | Serveur/src/GameClient.cpp:50-61 | the reply's handshake outcome is stored: id and token when they read, the port only when it reads too |
| GameClients.GameClient.ConnectAsWritten | Serveur/src/GameClient.cpp:27-94 | as written, connect succeeds iff the reply is granted, and a first connection sends no datagram |
| GameClients.GameClient.Connect | Serveur/src/GameClient.cpp:27-94 | connect succeeds iff the reply is granted, and then the client is connected with the server's id and token and has sent one empty input |
| GameClients.GameClient.HandleEntitySpawn | Serveur/src/GameClient.cpp:203-238 | the spawn payload in the buffer is applied to the mirror |
| GameClients.GameClient.HandleEntityUpdate | Serveur/src/GameClient.cpp:240-250 | the update payload in the buffer is applied to the mirror |
| GameClients.GameClient.HandleEntityBatchUpdate | Serveur/src/GameClient.cpp:252-277 | as written, the `count` entries after the count byte are applied, whatever the datagram's length |
| GameClients.GameClient.HandleEntityBatchUpdateChecked | Serveur/src/GameClient.cpp:252-277 | with the count checked against the received length first, a batch is applied only when every entry read lies within the datagram, and ignored otherwise |
| GameClients.GameClient.HandleEntityDestroy | Serveur/src/GameClient.cpp:279-288 | the id in the buffer's destroy payload is erased from the mirror |
| GameClients.GameClient.Receive | Serveur/src/GameClient.cpp:144-149 | the datagram, cut at the buffer's size, is copied to the start of the buffer |
| GameClients.GameClient.Dispatch | Serveur/src/GameClient.cpp:156-194 | a received datagram is checked for size and validity only and handed to its type's handler, which reads the buffer as written |
| GameClients.GameClient.Update | Serveur/src/GameClient.cpp:126-201 | nothing happens before the client is connected; otherwise every waiting datagram is received and dispatched, in order |
| GameClients.ApplyBatch | Serveur/src/GameClient.cpp:262-276 | the handler's loop applies the count entries in order |
| GameClients.BatchAppliedSnoc | Serveur/src/GameClient.cpp:264-276 | applying one more entry applies it after the others |
| RenderClients.EntryUpserted | src/client/ClientMain.cpp:206-224 | an entry makes its id known with the entry's position and leaves every other id untouched |
| RenderClients.UpsertedKeys | src/client/ClientMain.cpp:206-224 | a batch adds exactly the ids it names and removes none |
| RenderClients.UpsertLastWins | src/client/ClientMain.cpp:206-224 | an id ends with the position of the last entry naming it; a new id gets a 32x32 box of colour (100, 150, 200), a known one keeps its size and colour; an id not named is untouched |
| RenderClients.ServerBatchHandled | src/client/ClientMain.cpp:183-228 | a batch packet as the servers build it is applied entry by entry |
| RenderClients.PayloadSizeIgnored | src/client/ClientMain.cpp:183-200 | the header's payloadSize plays no part in how a datagram is handled |
| RenderClients.ElevenEntriesOverflowArray | src/client/ClientMain.cpp:195-203 | a 153-byte batch with count 11 passes the length check as written and overflows the ten-entry array; the corrected guard refuses it |
| RenderClients.UpsertAll | src/client/ClientMain.cpp:206-224 | the loop applies the entries in order |
| RenderClients.RTypeClient.constructor | src/client/ClientMain.cpp:321 | a new client draws no entity |
| RenderClients.RTypeClient.HandleUdpPacket | src/client/ClientMain.cpp:183-236 | the entity map after a datagram is the handled map: only a well-formed batch whose count fits changes it |

## Left out

- Socket I/O: asio accept, receive and send, `Session::doWrite` and its write queue, socket `close`, and endpoint resolution. A send is an append to an outbox. A receive is a parameter (the datagrams waiting, the bytes read, the CONNECT_OK reply).
- Threads, sleeping and clocks: `gameLoopThread`, the game-loop threads of both servers, `std::atomic`, and the mutex in `src/client/ClientMain.cpp`. One loop iteration is a method that takes the elapsed time as a parameter.
- Randomness: the enemy's y, the enemy spawn interval and `generateSessionToken` (src/Server.cpp:199-202) are inputs constrained to their ranges. The token is any non-zero 32-bit value.
- IEEE-754 rounding: positions, velocities and lifetimes are exact reals on the servers. On the wire they are opaque 32-bit words, and the conversion between the two is not modelled.
- Registries.Registry: the storages are held by value in a map from component kind to slot sequence. They are not `HybridArray` objects, so aliasing between a storage reference and the registry is not captured. The `std::function` erase callbacks and systems are a fixed enumeration of kinds and an ordered list of named systems.
- HybridArrays.HybridArray.GetRef: the growth of the storage is modelled; the returned reference is a copy of the slot, so a write through it is not captured (the simulation writes storages explicitly instead).
- SparseArrays.SparseArray.GetRef: as above, the slot is returned by value.
- SimServer.GameServer.UpdateGame: the contract states the spawn timer and the spawn decision. The effect of the three systems on the registry is stated by the contracts of the methods it calls (`UpdateLifetimes`, `MovePositions`, `CheckCollisions`), not restated here.
- SimServer.GameServer.RunSystems: states only that the registry stays valid and the player table, cooldowns and timers are unchanged. The storages after each pass are stated by the contracts of `UpdateLifetimes`, `MovePositions` and `CheckCollisions`.
- `onPlayerUdpReady` (src/GameServer.cpp:287-441) sends the newly bound client one ENTITY_SPAWN per existing entity. It is reduced to the `PlayerUdpReady` hook call that `handleUDPPacket` makes. Its per-entity spawn loop and username formatting are not modelled.
- The `lastShootTime` map is a field of the server class rather than a function-local static. The behaviour is the same because there is one server.
- `Session::handleMessage` ignores the CONNECT `version` parameter, and so does the model. Lines that arrive in the same read after a DISCONNECT are still handled, as the source does. The model does not stop at the closed socket.
- `removePlayer` (Serveur/src/GameServer.cpp:164-167) only logs, and its body is a TODO. It changes no state and is not modelled.
- `GameServer::start` and `stop` (Serveur/src/GameServer.cpp:18-40) are modelled without the thread they start and join.
- GameClients.HexToken: a sign is modelled as the extraction into an unsigned integer reads it, but the stream's failbit (set on no digit or on overflow) is not, because the client never inspects it. White space inside a parameter value cannot occur after parsing.
- GameClients.GameClient.Connect: the reply is taken to be the whole CONNECT_OK line. The partial read that `read_some` may return is not modelled.
- Failed receives on the client's UDP socket are not modelled. A receive error only skips the datagram.
- The initial bytes of the client's 1024-byte UDP buffer are indeterminate. The model leaves them unconstrained.
- `src/client/ClientMain.cpp` beyond `handleUdpPacket`: rendering, keyboard input, its TCP handshake and `sendInput`.
- `control_system` and the draw system in `Serveur/include/Systems.hpp`: they only read the keyboard and render.
- The 39-byte `EntitySpawnPayload`: the comment at include/Protocol.hpp:80 says 41 bytes. The fields add up to 39, which is what the model uses (`SPAWN_SIZE`). Every sender and receiver uses `sizeof`, so the mismatch has no effect on behaviour.
- Logging, including the verbose packet logging of the client.
- GameClients.GameClient.HandleEntityBatchUpdate: a count above 78 makes the handler read past the 1024-byte buffer, which has no defined outcome in C++. The model leaves the entities unchanged in that case, and `GameClients.Absorbed` does the same.
- Zippers.IndexedZipper: the zipped storages share one element type, and so do those of `Zippers.ZipperIterator`. The source's `indexed_zipper` is variadic over its container types. The model zips a sequence of storages of one type; since every storage of the model holds the one `Component` type, this covers the zips the systems make (positions with velocities).
- SimServer.GameServer.GameLoopStep: states the spawn decision and that the world batch is the last datagram queued. It does not list the ENTITY_SPAWN and ENTITY_DESTROY notices the frame queues before the batch; those are stated by the contracts of the methods `UpdateGame` calls.
- Zippers.ZipperIterator.Equals: compares the zipped storages by value. The source compares the tuple of pointers to them, so two iterators over distinct storages with equal contents are unequal there and equal here. For the iterators of one zipper, whose storages are the same objects, the two comparisons agree.
- SimServer.GameServer.Steer: reads the slot with `Slots.Get`. In the source, `get_ref` (include/HybridArray.hpp:95-98) grows a storage that is too short for the index before returning the slot; the growth adds only empty slots, which no output shows, and it is not modelled here (src/GameServer.cpp:232 is the call site).
- SimServer.GameServer.SpawnBullet: reads the shooter's position through `PositionOf`, without the read-time growth of `get_ref` described above.
- SimServer.PositionOf: reads with `Slots.Get`, without the read-time growth of `get_ref`.
- SimServer.MoveAll: reads each velocity with `Slots.Get`, without the read-time growth of `get_ref`.
- RenderClients.RTypeClient.HandleUdpPacket: a batch whose count byte exceeds 10 overflows the entries array in the source, which has no defined outcome in C++. The model leaves the entity map unchanged for such a batch (see Findings).
- SimServer.GameServer.OnPlayerConnected: for player id 0 the source indexes the colour palette at -1, which has no defined outcome. The model uses the corrected `Components.PaletteIndex`, which gives index 3 (see Findings).
- GameClients.GameClient.HandleEntitySpawn: for owner 0 it likewise uses the corrected `Components.PaletteIndex` instead of the index -1 the source computes.

## Findings

| source | as written | input that shows it | evidently intended | confidence | as-written member | corrected member |
|---|---|---|---|---|---|---|
| include/Registry.hpp:108-114 | `kill_entity` pushes the handle onto the free list without checking that it is live | kill the same live handle twice, then spawn twice: both spawns return that handle | a dead handle is not freed again | not executed | Registries.DoubleKillHandsOutHandleTwice | Registries.Registry.KillEntityChecked |
| src/GameServer.cpp:111-118 | the screen clamp applies to every moved entity, although the comment says players only | an enemy spawned at x = 850 moving left is pulled back to x = 800; the off-screen checks at lines 714 and 726 can never fire | only players are clamped | not executed | SimRules.EnemySpawnPulledBack | SimRules.Movement |
| src/Server.cpp:259-273 | the token lookup also matches sessions that never completed CONNECT, which hold token 0 | a PING with token 0 while a session is open but has not sent CONNECT is answered, and binds that session's endpoint | only tokens the server handed out (never 0) are matched | not executed | Transport.TokenZeroReachesUnconnectedSession | Transport.Triage |
| Serveur/src/GameClient.cpp:252-266 | the batch handler reads `count` entries without comparing the count with the payload or with 10 | a valid 10-byte batch datagram whose count byte is 255 makes the handler read up to byte 3325, past the 10 bytes received and past the 1024-byte buffer | the count is at most 10 and its entries lie within the received bytes | not executed | GameClients.OversizedCountOverrunsBuffer | GameClients.GameClient.HandleEntityBatchUpdateChecked |
| src/client/ClientMain.cpp:195-203 | the batch is copied into a 10-entry array after checking only that the datagram holds `count` entries | a 153-byte batch with count 11 passes the check, and 143 bytes are copied into a 130-byte array | the count is at most 10 | not executed | RenderClients.ElevenEntriesOverflowArray | RenderClients.RTypeClient.HandleUdpPacket |
| src/GameServer.cpp:273 | the palette index `(playerId - 1) % 4` is -1 for player id 0 | player ids are client ids cast to `uint8_t`, so the 256th connection is player 0 and indexes before the palette | a palette index in 0..3 for every player id | not executed | Components.PlayerZeroIndexesBeforePalette | Components.PaletteIndex |
| Serveur/src/GameClient.cpp:82-86 | `connect` sends its "initial UDP packet" through `sendInput` before setting `_connected`, so `sendInput` returns at once and nothing is sent | the first `connect` on a new client sends no datagram, so the server learns no endpoint until the first real input | the initial packet is sent after the client is marked connected | not executed | GameClients.GameClient.ConnectAsWritten | GameClients.GameClient.Connect |
