# Artemis entity-component storage core in Dafny

This project models the storage core of the Artemis entity-component-system
framework (Java). It covers the following parts:

- **Bag.** The growable, index-addressed container everything else is built
  on. Its quirks are kept: a `set` that moves `size` to exactly `index + 1`,
  swap-removal, and identity comparison.
- **ComponentType.** The registry that hands each component class a small,
  monotonically assigned index.
- **EntityManager and its IdentifierPool.** The pool recycles entity ids last
  in, first out. The manager also holds the live-entity bag, the disabled
  bitset and the lifecycle counters.
- **ComponentManager.** One bag per component type, indexed by entity id. It
  also holds the per-entity component bitsets and the queue of deleted
  entities that `clean` sweeps.
- **ComponentMapper.** A per-type handle for fast reads.
- **Tag, team and player managers.** The bookkeeping managers built on maps
  and bags.

Every operation is a pure function from the old state to the new one.

- Java `null` is `Option.None`, and object identity (`==`) is value equality.
- A Java call that throws IllegalArgumentException returns an
  `Outcome.IllegalArgument`.
- An array read that Java leaves unchecked becomes a precondition. The
  precondition demands exactly the bounds under which the Java read does not
  fault. The one exception is the mapper constructor, whose unguarded read
  is a defect of the source (see Findings): `ComponentMappers.NewMapper`
  models the corrected constructor, and `NewMapperAsWritten` the original.

Three points of representation:

- The Java `Entity` owns a component `BitSet` that `ComponentManager` mutates
  in place. Here those bitsets live inside the component manager's state, as
  a map from entity id to a set of type indices.
- The static counter and map of `ComponentType` are an explicit `Registry`
  value, passed in and returned.
- A Java `ComponentMapper` keeps a reference to its type's bag. That inner
  bag object is never replaced once created, so every write reaches the
  mapper through the reference. The model's mapper therefore keeps the type
  and reads the bag from the manager's current state.

Two invariants tie the component manager together:

- `InSync`: a bit is set exactly when a component is stored for it, and
  every set bit has a bag large enough for the entity's id.
- `Rostered`, for teams: each player is on exactly its team's roster, once.

Lemmas show that every operation keeps these invariants. The id pool is
shown never to issue an outstanding id.

## Model

| member | source | states |
|---|---|---|
| Bags.NewBag | src/main/java/com/artemis/utils/Bag.java:37-47 | a bag made with no argument is empty and has 64 null slots |
| Bags.WithCapacity | src/main/java/com/artemis/utils/Bag.java:55-57 | a bag made with a capacity is empty and has exactly that many null slots |
| Bags.Get | src/main/java/com/artemis/utils/Bag.java:165-167 | the unchecked read of a slot inside the backing array; inside the live range it is the live element at that position |
| Bags.Size | src/main/java/com/artemis/utils/Bag.java:175-177 | the number of live slots, never more than the capacity |
| Bags.IsEmpty | src/main/java/com/artemis/utils/Bag.java:204-206 | true exactly when there is no live slot |
| Bags.IsIndexWithinBounds | src/main/java/com/artemis/utils/Bag.java:194-196 | true exactly for indices inside the backing array, where the unchecked `get` is defined; it says nothing about whether the slot is occupied |
| Bags.Grow | src/main/java/com/artemis/utils/Bag.java:237-239 | capacity becomes max(request, 3/2 of the old capacity + 1), which is always larger than before; size and slot contents are kept and the new slots are null |
| Bags.Add | src/main/java/com/artemis/utils/Bag.java:214-221 | the live contents gain `e` at the end; capacity is kept unless the bag was full, when it becomes `capacity * 3 / 2 + 1` (the `grow` rule); slots above the new size are unchanged |
| Bags.Set | src/main/java/com/artemis/utils/Bag.java:229-235 | slot `index` holds `e` and no other slot changes; size becomes exactly index + 1, so it can shrink; capacity grows to max(2·index, 3/2·capacity + 1) only when index is past the end |
| Bags.SetOverwritesOneSlot | src/main/java/com/artemis/utils/Bag.java:229-235 | reading any position after `set`, with slots past the array read as null, gives `e` at the index and the old value everywhere else |
| Bags.EnsureCapacity | src/main/java/com/artemis/utils/Bag.java:241-245 | afterwards `index` is inside the array; the bag is untouched when it already was, otherwise the capacity follows the growth rule; size and contents are kept |
| Bags.RemoveLast | src/main/java/com/artemis/utils/Bag.java:78-87 | an empty bag gives null and is unchanged; otherwise the last live element is returned and dropped, and its slot is nulled |
| Bags.RemoveAt | src/main/java/com/artemis/utils/Bag.java:66-71 | returns the slot's old value; the slot receives the last live element (null when it was the last live slot itself), even for an index between size and capacity; the last live slot is nulled and every other slot keeps its value; for a live index the live sequence is the old one with the last element moved into the hole, so the live multiset loses exactly that element |
| Bags.Contains | src/main/java/com/artemis/utils/Bag.java:117-125 | true exactly when `e` occurs among the live slots, by identity |
| Bags.RemoveValue | src/main/java/com/artemis/utils/Bag.java:90-109 | reports true exactly when `e` was live; on a hit the bag is `remove(i)` at the FIRST live slot holding `e`, so the live multiset loses one occurrence of `e`; a miss leaves the bag unchanged |
| Bags.AddCounts | src/main/java/com/artemis/utils/Bag.java:214-221 | `add(e)` raises the count of `e` by one and leaves every other count alone |
| Bags.RemoveValueCounts | src/main/java/com/artemis/utils/Bag.java:97-109 | `remove(e)` lowers the count of `e` by one when it is present and leaves every other count alone |
| Bags.RemoveEachIsDifference | src/main/java/com/artemis/utils/Bag.java:139-155 | the removal loop leaves exactly the multiset difference of the live contents and the removed sequence |
| Bags.RemoveEachReportsChange | src/main/java/com/artemis/utils/Bag.java:139-155 | the loop reports a change exactly when some element of the other bag was live here |
| Bags.RemoveAll | src/main/java/com/artemis/utils/Bag.java:134-156 | rejects this bag itself and nothing else; otherwise leaves the multiset difference and reports true exactly when the size dropped, that is, when some element of the other bag was contained |
| Bags.RemoveEachOfLive | src/main/java/com/artemis/utils/Bag.java:139-155 | removing the other bag's live part leaves the multiset difference, and reports a change exactly when one of the other bag's live elements was contained here |
| Bags.AddEach | src/main/java/com/artemis/utils/Bag.java:270-272 | the live contents become the old ones followed by the added sequence |
| Bags.AddAll | src/main/java/com/artemis/utils/Bag.java:265-273 | rejects this bag itself and nothing else; otherwise appends the other bag's live elements in order, so the size is the sum of the sizes |
| Bags.Clear | src/main/java/com/artemis/utils/Bag.java:251-258 | the bag becomes empty with its capacity kept; live slots are nulled; stale slots above the old size stay |
| Bags.RemoveLastUndoesAdd | src/main/java/com/artemis/utils/Bag.java:78-87 | `removeLast` after `add(e)` returns `e` and restores the live contents |
| Bags.RemoveLastIsLifo | src/test/java/com/artemis/utils/BagTest.java:133-144 | after two adds into an empty bag, two `removeLast`s return them in reverse order and leave the bag empty |
| Bags.SetThenRemoveLastLeavesHole | src/test/java/com/artemis/utils/BagTest.java:66-73 | `set(capacity - 1, x)` then `removeLast()` leaves size capacity - 1, so the bag is not empty |
| Bags.SetCanShrinkSize | src/main/java/com/artemis/utils/Bag.java:229-235 | a `set` below the current size shrinks the size while the higher slot keeps its value |
| Bags.DrainReturnsReverse | src/main/java/com/artemis/utils/Bag.java:78-87 | size-many `removeLast`s return the live elements last first and empty the bag; one more returns null |
| Bags.AddsThenDrain | src/test/java/com/artemis/utils/BagTest.java:128-144 | filling an empty bag with adds and draining it gives the added values in reverse |
| Bags.AddsReadBackInOrder | src/test/java/com/artemis/utils/BagTest.java:89-102 | after n adds into an empty bag the size is n and `get(i)` is the i-th added value |
| Bags.Step | src/main/java/com/artemis/utils/Bag.java:66-273 | a call throws exactly when it is `remove(int)` past the backing array or on an empty bag, or `addAll`/`removeAll` given the bag itself; every other call completes |
| Bags.StepKeepsCapacity | src/main/java/com/artemis/utils/Bag.java:66-156 | none of the nine mutating calls (`add`, `set`, `removeLast`, `remove(int)`, `remove(e)`, `addAll`, `removeAll`, `ensureCapacity`, `clear`) shrinks the backing array when it completes, and `set`/`ensureCapacity` always leave their index inside it |
| Bags.CapacityNeverShrinks | src/main/java/com/artemis/utils/Bag.java:66-273 | over any run of the nine mutating calls that completes without an exception, the capacity never drops and every index passed to `set` or `ensureCapacity` ends inside the array |
| Bags.SizeIsHighWaterMark | src/main/java/com/artemis/utils/Bag.java:214-235 | a run of adds and sets never throws, and the size afterwards is the last set's index + 1 plus the adds after it, or the starting size plus the adds when there is no set |
| ComponentTypes.GetTypeFor | src/main/java/com/artemis/ComponentType.java:29-59 | an already registered class gets its old type and the registry is unchanged; a new class gets the counter as its index, the counter moves on by one, and validity is kept |
| ComponentTypes.GetIndexFor | src/main/java/com/artemis/ComponentType.java:61-63 | the index registered for the class, fresh or old |
| ComponentTypes.GetTypeForIsIdempotent | src/main/java/com/artemis/ComponentType.java:50-59 | a second lookup of the same class returns the same type and changes nothing |
| ComponentTypes.DistinctClassesGetDistinctIndices | src/main/java/com/artemis/ComponentType.java:34-59 | two distinct classes never share an index, and the first keeps its type |
| ComponentTypes.LookUpAllStaysValid | src/main/java/com/artemis/ComponentType.java:34-59 | any run of lookups keeps the index assignment injective and below the counter |
| ComponentTypes.LookUpAllRegistersSeen | src/main/java/com/artemis/ComponentType.java:48-59 | a run of lookups registers exactly the classes it saw and never changes an earlier entry |
| ComponentTypes.CounterCountsClasses | src/main/java/com/artemis/ComponentType.java:29-37 | from the initial state, the counter equals the number of distinct classes looked up and bounds every index |
| EntityManagers.NewPool | src/main/java/com/artemis/EntityManager.java:157-163 | a new pool has no recycled ids and starts issuing at 0 |
| EntityManagers.CheckOut | src/main/java/com/artemis/EntityManager.java:165-170 | a non-empty pool returns its most recently pooled id and pops it; an empty pool returns `nextAvailableId` and increments it |
| EntityManagers.CheckIn | src/main/java/com/artemis/EntityManager.java:172-174 | the id is pushed on top of the pooled ids |
| EntityManagers.CheckOutIssuesUnusedId | src/main/java/com/artemis/EntityManager.java:157-175 | in a sound pool, `checkOut` returns an id that is not outstanding, the pool stays sound, and the outstanding set gains exactly that id |
| EntityManagers.CheckInReturnsId | src/main/java/com/artemis/EntityManager.java:172-174 | returning an outstanding id keeps the pool sound and removes the id from the outstanding set |
| EntityManagers.CheckOutReturnsLastCheckIn | src/main/java/com/artemis/EntityManager.java:165-174 | `checkIn(id)` then `checkOut()` returns `id` and restores the pool (last in, first out) |
| EntityManagers.NewEntityManager | src/main/java/com/artemis/EntityManager.java:41-45 | a new manager has an entity bag of the default capacity with no active id, no disabled id, a fresh pool and all counters at 0 |
| EntityManagers.GetEntity | src/main/java/com/artemis/EntityManager.java:94-116 | the stored entity is non-null exactly when `isActive` holds for the id |
| EntityManagers.CreateEntityInstance | src/main/java/com/artemis/EntityManager.java:51-55 | the new entity's id is the pool's `checkOut`; `created` goes up by one; nothing else changes |
| EntityManagers.Added | src/main/java/com/artemis/EntityManager.java:57-62 | the id becomes active and holds the entity; no other id's activity or stored entity changes; `active` and `added` go up by one |
| EntityManagers.Enabled | src/main/java/com/artemis/EntityManager.java:64-67 | `isEnabled(id)` holds afterwards; other ids and all other fields are unchanged |
| EntityManagers.Disabled | src/main/java/com/artemis/EntityManager.java:69-72 | `isEnabled(id)` fails afterwards; other ids and all other fields are unchanged |
| EntityManagers.Deleted | src/main/java/com/artemis/EntityManager.java:74-84 | the id is inactive and enabled; no other id's activity, stored entity or disabled bit changes; the pool is the old pool with the id checked in, so the next `checkOut` reissues it; `active` goes down by one and `deleted` up by one |
| EntityManagers.EnableDisableIdempotent | src/main/java/com/artemis/EntityManager.java:64-72 | enabling or disabling twice is the same as once, and a later enable overrides a disable |
| EntityManagers.CountersCountEvents | src/main/java/com/artemis/EntityManager.java:122-150 | from a fresh manager, `created`/`added`/`deleted` count those events, the active count is added - deleted, and created ≥ added when every addition has a creation |
| ComponentManagers.NewComponentManager | src/main/java/com/artemis/ComponentManager.java:34-37 | a new manager stores nothing, has no bits set and an empty queue, and is in sync |
| ComponentManagers.AddComponent | src/main/java/com/artemis/ComponentManager.java:51-63 | the type's bag exists and holds the component at the entity's id; the entity's bit is set; no other slot or bitset changes; existing bags are kept and never shrink |
| ComponentManagers.AddComponentKeepsSync | src/main/java/com/artemis/ComponentManager.java:51-63 | adding keeps every set bit backed by a bag, and adding a non-null component keeps bits and bags in sync |
| ComponentManagers.RemoveComponent | src/main/java/com/artemis/ComponentManager.java:65-70 | with the bit clear, nothing changes; with it set, the slot becomes null and the bit is cleared; nothing else changes |
| ComponentManagers.RemoveComponentKeepsSync | src/main/java/com/artemis/ComponentManager.java:65-70 | removing keeps bits and bags in sync, and the entity then has no component of that type |
| ComponentManagers.GetComponentsByType | src/main/java/com/artemis/ComponentManager.java:72-79 | as written: defined only for a type index inside the outer bag; returns the existing bag, or installs and returns a new empty bag; no stored component changes |
| ComponentManagers.GetComponentsByTypeGrowing | src/main/java/com/artemis/ComponentManager.java:52-58 | for every type: returns the type's bag, creating an empty one when there is none; existing bags and stored components are unchanged |
| ComponentManagers.GetComponent | src/main/java/com/artemis/ComponentManager.java:81-87 | the component stored for the entity, or null without a bag; in a synced manager it is non-null exactly when the entity's bit is set |
| ComponentManagers.GetComponentAfterAddAndRemove | src/main/java/com/artemis/ComponentManager.java:51-87 | reading after `addComponent` gives the added component; reading after a following `removeComponent` gives null |
| ComponentManagers.SetBitsBelow | src/main/java/com/artemis/ComponentManager.java:92 | the `nextSetBit` walk: every set bit below the bound, exactly once, ascending |
| ComponentManagers.ComponentIndices | src/main/java/com/artemis/ComponentManager.java:45 | the indices visited are exactly the entity's set bits, ascending |
| ComponentManagers.GetComponentsFor | src/main/java/com/artemis/ComponentManager.java:89-97 | `fillBag` keeps its contents and gains, in ascending type order, the entity's stored component of each type whose bit is set |
| ComponentManagers.GetComponentsForListsEveryComponent | src/main/java/com/artemis/ComponentManager.java:89-97 | in a synced manager, the appended part has one entry per set bit, contains no null, and contains every component the entity holds |
| ComponentManagers.SetBitsBelowCount | src/main/java/com/artemis/ComponentManager.java:92 | the walk lists as many indices as there are set bits below the bound |
| ComponentManagers.GetComponentsForCountsBits | src/main/java/com/artemis/ComponentManager.java:89-97 | `fillBag` grows by exactly the number of set bits, and its prefix is kept |
| ComponentManagers.Deleted | src/main/java/com/artemis/ComponentManager.java:99-102 | the entity is appended to the sweep queue; bags and bits are untouched until `clean` |
| ComponentManagers.NullSlots | src/main/java/com/artemis/ComponentManager.java:45-47 | the loop nulls the entity's slot in every listed type's bag and touches nothing else |
| ComponentManagers.NullSlot | src/main/java/com/artemis/ComponentManager.java:46 | one iteration nulls one slot of one bag and touches nothing else |
| ComponentManagers.RemoveComponentsOfEntity | src/main/java/com/artemis/ComponentManager.java:43-49 | the entity's bits become empty; exactly the slots its bits pointed at become null; no other entity's bits or slots change |
| ComponentManagers.RemoveComponentsOfEntityKeepsSync | src/main/java/com/artemis/ComponentManager.java:43-49 | sweeping keeps bits and bags in sync and leaves the entity with no component at all |
| ComponentManagers.SweepPending | src/main/java/com/artemis/ComponentManager.java:106-108 | the loop over the queue keeps every bag and never shrinks one |
| ComponentManagers.SweepPendingBits | src/main/java/com/artemis/ComponentManager.java:106-108 | the loop clears the bits of exactly the queued entities |
| ComponentManagers.SweepPendingStored | src/main/java/com/artemis/ComponentManager.java:106-108 | the loop nulls, for each queued entity, exactly the slots its bits pointed at; other entities' slots are unchanged |
| ComponentManagers.Clean | src/main/java/com/artemis/ComponentManager.java:104-111 | the queue ends empty with its capacity kept, and every bag survives |
| ComponentManagers.CleanEffect | src/main/java/com/artemis/ComponentManager.java:104-111 | every queued entity loses all its bits and the components they pointed at; every other entity is unchanged |
| ComponentManagers.SweepPendingKeepsSync | src/main/java/com/artemis/ComponentManager.java:106-108 | sweeping a queue keeps bits and bags in sync and leaves each queued entity with no component |
| ComponentManagers.CleanKeepsSync | src/main/java/com/artemis/ComponentManager.java:104-111 | `clean` keeps bits and bags in sync, strips every queued entity of all its components, and empties the queue |
| ComponentManagers.QueueIsInvisible | src/main/java/com/artemis/ComponentManager.java:32 | the sweep queue plays no part in bags, bits or sync |
| ComponentMappers.NewMapper | src/main/java/com/artemis/ComponentMapper.java:41-45 | the corrected constructor (see Findings): the mapper's type is the registry's type for the class, and its bag exists afterwards for every type index, the outer bag growing when needed; stored components and bits are unchanged |
| ComponentMappers.NewMapperAsWritten | src/main/java/com/artemis/ComponentMapper.java:41-45 | the constructor as written: defined only when the type's index is inside the outer bag, where the unguarded fetch does not fault; then the same guarantees as the corrected one |
| ComponentMappers.NewMapperAgreesWhenInBounds | src/main/java/com/artemis/ComponentMapper.java:41-45 | wherever the constructor as written does not fault, the corrected one yields exactly the same registry, manager and mapper |
| ComponentMappers.LateTypeOutrunsOuterBag | src/main/java/com/artemis/ComponentMapper.java:41-45 | with 64 classes already registered, a new class gets index 64, which lies outside a fresh manager's outer bag; the guarded fetch still attaches the mapper to an empty bag |
| ComponentMappers.NewMapperKeepsSync | src/main/java/com/artemis/ComponentMapper.java:41-45 | making a mapper keeps bits and bags in sync |
| ComponentMappers.Get | src/main/java/com/artemis/ComponentMapper.java:55-57 | the unchecked read is the stored component; in a synced manager it is non-null exactly when the bit is set |
| ComponentMappers.GetSafe | src/main/java/com/artemis/ComponentMapper.java:66-71 | defined for every id: the stored component, or null past the bag; agrees with `get` inside the bag |
| ComponentMappers.Has | src/main/java/com/artemis/ComponentMapper.java:78-80 | true exactly when a component is stored; in a synced manager, exactly when the bit is set |
| ComponentMappers.MapperSeesLaterChanges | src/main/java/com/artemis/ComponentMapper.java:39-80 | a mapper made earlier sees a later `addComponent` and a later `removeComponent` |
| ComponentMappers.MapperStaysAttached | src/main/java/com/artemis/ComponentMapper.java:39-43 | no manager operation detaches a mapper from its bag |
| TagManagers.NewTagManager | src/main/java/com/artemis/managers/TagManager.java:44-47 | a new manager has no tags and its two maps mirror each other |
| TagManagers.Register | src/main/java/com/artemis/managers/TagManager.java:49-52 | the tag names the entity and the entity's reverse entry names the tag; other tags and other entities' entries are unchanged |
| TagManagers.Unregister | src/main/java/com/artemis/managers/TagManager.java:54-56 | the tag is gone, and so is the reverse entry of the entity it named, whatever tag that entry held; an unknown tag changes nothing |
| TagManagers.IsRegistered | src/main/java/com/artemis/managers/TagManager.java:58-60 | true exactly when `getEntity` is non-null |
| TagManagers.GetEntity | src/main/java/com/artemis/managers/TagManager.java:62-64 | null exactly for an unregistered tag |
| TagManagers.GetRegisteredTags | src/main/java/com/artemis/managers/TagManager.java:66-68 | the tags that some entity's reverse entry holds |
| TagManagers.Deleted | src/main/java/com/artemis/managers/TagManager.java:70-76 | the reverse map is the old one without the entity, and the tag its entry held is gone whichever entity that tag now names; every other tag keeps its entity |
| TagManagers.RegisteredTagsArePairedTags | src/main/java/com/artemis/managers/TagManager.java:58-68 | with mirrored maps, the listed tags are exactly the registered ones |
| TagManagers.OperationsKeepPaired | src/main/java/com/artemis/managers/TagManager.java:49-76 | unregister and delete keep the maps mirrored; so does register with a fresh tag and an untagged entity |
| TagManagers.DeleteIsUnregisterOfItsTag | src/main/java/com/artemis/managers/TagManager.java:54-76 | with mirrored maps, deleting an entity is the same as unregistering its tag |
| TagManagers.ReRegisteringLeavesStaleReverseEntry | src/main/java/com/artemis/managers/TagManager.java:49-52 | moving a tag to a second entity leaves the first entity's reverse entry, so the maps stop mirroring each other |
| TagManagers.DeletingStaleEntityDropsNewerTag | src/main/java/com/artemis/managers/TagManager.java:70-76 | deleting that first entity then unregisters the tag that now names the second |
| TagManagers.UnregisteringOldTagForgetsNewerTag | src/main/java/com/artemis/managers/TagManager.java:54-56 | giving an entity a second tag and unregistering the first drops the entity's reverse entry, so the second tag is no longer listed |
| TeamManagers.NewTeamManager | src/main/java/com/artemis/managers/TeamManager.java:48-51 | a new manager has no teams and satisfies the roster invariant |
| TeamManagers.GetTeam | src/main/java/com/artemis/managers/TeamManager.java:57-59 | null exactly for a player with no team |
| TeamManagers.GetPlayers | src/main/java/com/artemis/managers/TeamManager.java:74-76 | null exactly for a team never set |
| TeamManagers.RemoveFromTeam | src/main/java/com/artemis/managers/TeamManager.java:78-86 | the player has no team afterwards; a player with no team changes nothing; other players keep their teams; the old team's roster is that roster after `remove(player)` (swap-with-last at the first occurrence), and every other roster is the same bag |
| TeamManagers.Unroster | src/main/java/com/artemis/managers/TeamManager.java:81-84 | one team's roster becomes that roster after `remove(player)`; the team map and every other roster are unchanged |
| TeamManagers.SetTeam | src/main/java/com/artemis/managers/TeamManager.java:61-72 | the player's team is `t` and it is on `t`'s roster, which is created on first use; other players keep their teams; every roster other than `t`'s and the old team's is the same bag |
| TeamManagers.Enroll | src/main/java/com/artemis/managers/TeamManager.java:63-71 | the second half of `setTeam`: records the team; the team's roster is its old live contents (empty when new) with the player appended; every other roster is the same bag; other players keep their teams |
| TeamManagers.EnrollCountAt | src/main/java/com/artemis/managers/TeamManager.java:63-71 | enrolling adds exactly one occurrence of the player to the new team's roster and changes no other count on any roster |
| TeamManagers.RemoveFromTeamCountAt | src/main/java/com/artemis/managers/TeamManager.java:78-86 | on one existing roster, removal drops the player's count by one when that roster is its team's, and leaves every other count alone |
| TeamManagers.RemoveFromTeamCounts | src/main/java/com/artemis/managers/TeamManager.java:78-86 | one occurrence of the player leaves its old team's roster; no other roster count changes |
| TeamManagers.SetTeamCounts | src/main/java/com/artemis/managers/TeamManager.java:61-72 | `setTeam` counts as `removeFromTeam` plus one occurrence of the player on the new roster |
| TeamManagers.RemoveFromTeamKeepsRostered | src/main/java/com/artemis/managers/TeamManager.java:78-86 | removal keeps each player on exactly its team's roster, once, and the player is on no roster afterwards |
| TeamManagers.SetTeamKeepsRostered | src/main/java/com/artemis/managers/TeamManager.java:61-72 | `setTeam` keeps the roster invariant, and the player is on the new team's roster once and on no other |
| TeamManagers.EnrollKeepsRostered | src/main/java/com/artemis/managers/TeamManager.java:63-71 | enrolling a player that is on no roster keeps the roster invariant and puts it on the new team's roster once and on no other |
| TeamManagers.SwitchingTeamsLeavesOldRoster | src/main/java/com/artemis/managers/TeamManager.java:61-63 | moving a player between teams takes it off the old roster and puts it on the new one once |
| PlayerManagers.NewPlayerManager | src/main/java/com/artemis/managers/PlayerManager.java:46-49 | a new manager knows no owners and no rosters |
| PlayerManagers.GetPlayer | src/main/java/com/artemis/managers/PlayerManager.java:79-81 | null exactly for an entity no player owns |
| PlayerManagers.SetPlayer | src/main/java/com/artemis/managers/PlayerManager.java:51-59 | the entity's owner is the player, whose roster gains the entity at the end (created on first use); other owners and other rosters are unchanged |
| PlayerManagers.GetEntitiesOfPlayer | src/main/java/com/artemis/managers/PlayerManager.java:61-67 | the player's roster, or a fresh empty bag for an unknown player |
| PlayerManagers.RemoveFromPlayer | src/main/java/com/artemis/managers/PlayerManager.java:69-77 | the owner's roster loses one occurrence of the entity; the owner stays recorded; other rosters are unchanged |
| PlayerManagers.RemoveFromPlayerCounts | src/main/java/com/artemis/managers/PlayerManager.java:69-77 | the count of `e` in its owner's roster drops by one when it is there; no other count of any entity in any roster changes |
| PlayerManagers.Deleted | src/main/java/com/artemis/managers/PlayerManager.java:87-90 | `deleted(e)` is `removeFromPlayer(e)`: every owner stays recorded, no roster appears or disappears, exactly one occurrence of `e` leaves its owner's roster (when it is there), and no other count of any entity in any roster changes |
| PlayerManagers.OwnerIsLatestSetPlayer | src/main/java/com/artemis/managers/PlayerManager.java:51-90 | after `setPlayer(e, p)`, any run of `setPlayer`, `removeFromPlayer` and `deleted` calls that contains no other `setPlayer` of `e` leaves `e`'s owner `p` |
| PlayerManagers.SetPlayerKeepsOldRoster | src/main/java/com/artemis/managers/PlayerManager.java:51-59 | giving an entity to a second player leaves it on the first player's roster too |
| PlayerManagers.RemoveFromPlayerUndoesRoster | src/main/java/com/artemis/managers/PlayerManager.java:51-77 | `removeFromPlayer` after `setPlayer` restores the roster's multiset, while the owner stays recorded |
| PlayerManagers.UnknownPlayerStartsEmpty | src/main/java/com/artemis/managers/PlayerManager.java:61-67 | looking up an unknown player stores nothing, so a later `setPlayer` starts that player's roster afresh |

## Left out

- Java `int` arithmetic is not modelled. Integers are unbounded, so the
  overflow of `index * 2` in `set`, of `length * 3 / 2 + 1` in `grow`, and of
  the id counter after 2^31 ids cannot happen here.
- Negative indices are not modelled. Entity ids and type indices are
  natural numbers, so the out-of-bounds exception that `set(-1, x)` and
  `remove(-1)` throw in Java (BagTest.java:104-126) is outside the model.
  `Bags.IsIndexWithinBounds` does take any integer.
- Out-of-bounds reads are not modelled as exceptions. The unchecked reads
  (`get`, `remove(int)`, `isActive`, `getEntity`, `getComponent`, a mapper's
  `get`) carry preconditions instead.
- `World`, `Entity`, `Manager`, `ImmutableBag`, entity systems, aspects and
  the `initialize` hooks are not part of this model. An entity appears here
  only as its id, with its component bitset held by the component manager.
- The reflective `Class.cast` in a mapper's `get` is dropped. The model's
  components are already of the mapped type.
- Equality is value equality. Java compares bag elements by identity and map
  keys by `equals`/`hashCode`. In the model, two equal strings are the same
  player or tag, and equal ids are the same entity.
- TagManagers.GetRegisteredTags returns a set. Java returns the values view
  of the reverse map, which lists a tag twice when two entities' reverse
  entries hold it.
- Bitsets are keyed by entity id. A recycled id therefore shares its bitset
  with a deleted entity still waiting in the sweep queue. In Java the two are
  distinct objects with distinct bitsets.
- EntityManagers.IsActive and EntityManagers.IsEnabled have no rows of their
  own. They are direct reads, stated through the contracts of `GetEntity`,
  `Added`, `Deleted`, `Enabled` and `Disabled`.
- EntityManagers.CountersCountEvents states created ≥ added only under the
  global condition that there are no more additions than creations. It does
  not track that each added entity was created first, which the host's
  calling order guarantees.
- ComponentManagers.SweepPending states only that the bags survive. What
  the loop does to bits and slots is stated by `SweepPendingBits` and
  `SweepPendingStored`.
- ComponentMappers.NewMapper does not fault for a type index at or past the
  outer bag's capacity, where the Java constructor does; it grows the outer
  bag instead. The faulting constructor is `NewMapperAsWritten`, and
  `NewMapperAgreesWhenInBounds` shows the two agree wherever it is defined.
- Bags.Capacity has no row: it is the backing array's length
  (`getCapacity`, Bag.java:184-186), the quantity the other contracts state
  capacity in.
- The `Bag` constructor with a negative capacity is not modelled, since
  capacities are natural numbers.

## Findings

| source | as written | input that shows it | evidently intended | confidence | as-written member | corrected member |
|---|---|---|---|---|---|---|
| src/main/java/com/artemis/ComponentManager.java:72-79 | `getComponentsByType` reads the outer bag at the type's index without first calling `ensureCapacity`. The read is unchecked, and the `ComponentMapper` constructor (ComponentMapper.java:41-45) calls it. | The 65th distinct component class gets index 64. A mapper made for it on a world whose component manager has not yet grown its outer bag (64 slots) reads past the array. | Grow the outer bag to cover the index first, as `addComponent` does at ComponentManager.java:52. The mapper then gets a new empty bag for any type. | not executed | ComponentManagers.GetComponentsByType, ComponentMappers.NewMapperAsWritten, ComponentMappers.LateTypeOutrunsOuterBag | ComponentManagers.GetComponentsByTypeGrowing, ComponentMappers.NewMapper |
