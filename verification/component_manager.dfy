/** Component storage: one bag per component type, indexed by entity id,
    plus the component bitset of every entity and the queue of deleted
    entities waiting to be swept.

    The Java entity owns its component `BitSet` and the manager mutates it in
    place; here the bitsets live in `componentBits`, keyed by entity id, so
    that every operation is a function of one value. */
module ComponentManagers {
  import opened Nullable
  import opened Bags
  import opened Entities
  import opened ComponentTypes

  /** `componentsByType` holds, at a type's index, the bag of that type's
      components (null until first needed); `deleted` is the sweep queue. */
  datatype ComponentManager<C> = ComponentManager(
    componentsByType: Bag<Bag<C>>,
    deleted: Bag<EntityId>,
    componentBits: map<EntityId, set<nat>>)

  function NewComponentManager<C>(): (cm: ComponentManager<C>)
    ensures InSync(cm) && IsEmpty(cm.deleted)
    ensures forall i: nat, id: EntityId :: Stored(cm, i, id) == None && i !in Bits(cm, id)
  {
    ComponentManager(NewBag(), NewBag(), map[])
  }

  /** The component bitset of entity `id` (empty for an entity never seen). */
  function Bits<C>(cm: ComponentManager<C>, id: EntityId): set<nat> {
    if id in cm.componentBits then cm.componentBits[id] else {}
  }

  /** Whether the bag for type index `i` exists. */
  predicate HasStorage<C>(cm: ComponentManager<C>, i: nat) {
    i < Capacity(cm.componentsByType) && cm.componentsByType.data[i].Some?
  }

  function Storage<C>(cm: ComponentManager<C>, i: nat): Bag<C>
    requires HasStorage(cm, i)
  {
    cm.componentsByType.data[i].value
  }

  /** The component of type index `i` stored for entity `id`, reading a
      missing bag or a slot past its end as null. */
  function Stored<C>(cm: ComponentManager<C>, i: nat, id: EntityId): Option<C> {
    if HasStorage(cm, i) then At(Storage(cm, i), id) else None
  }

  /** Every set bit has a bag whose backing array covers the entity's id, so
      the unchecked reads made for that bit stay in bounds. */
  ghost predicate BitsBacked<C>(cm: ComponentManager<C>) {
    forall id: EntityId, i: nat :: i in Bits(cm, id) ==> HasStorage(cm, i) && id < Capacity(Storage(cm, i))
  }

  /** The bitsets and the bags agree: an entity's bit for a type is set
      exactly when a component of that type is stored for it. */
  ghost predicate InSync<C>(cm: ComponentManager<C>) {
    && BitsBacked(cm)
    && (forall i: nat, id: EntityId :: Stored(cm, i, id).Some? <==> i in Bits(cm, id))
  }

  /** What `removeComponentsOfEntity` demands: every set bit has a bag. */
  predicate Sweepable<C>(cm: ComponentManager<C>, id: EntityId) {
    forall i: nat :: i in Bits(cm, id) ==> HasStorage(cm, i)
  }

  /** `addComponent(e, type, component)`: make room for the type, create its
      bag on first use, store the component at the entity's id and set the
      entity's bit. */
  function AddComponent<C>(cm: ComponentManager<C>, id: EntityId, t: ComponentType, c: Option<C>)
    : (r: ComponentManager<C>)
    ensures HasStorage(r, t.index) && Stored(r, t.index, id) == c
    ensures id < Capacity(Storage(r, t.index))
    ensures forall i: nat, x: EntityId :: (i != t.index || x != id) ==> Stored(r, i, x) == Stored(cm, i, x)
    ensures Bits(r, id) == Bits(cm, id) + {t.index}
    ensures forall x: EntityId :: x != id ==> Bits(r, x) == Bits(cm, x)
    ensures forall i: nat :: HasStorage(cm, i) ==>
      HasStorage(r, i) && Capacity(Storage(r, i)) >= Capacity(Storage(cm, i))
    ensures r.deleted == cm.deleted
  {
    var idx := t.index;
    var outer1 := EnsureCapacity(cm.componentsByType, idx);
    var outer2 := if Get(outer1, idx).None? then Set(outer1, idx, Some(NewBag())) else outer1;
    var inner := Get(outer2, idx).value;
    var inner' := Set(inner, id, c);
    var outer3 := UpdateInPlace(outer2, idx, Some(inner'));
    var r := ComponentManager(outer3, cm.deleted, cm.componentBits[id := Bits(cm, id) + {idx}]);
    assert forall x: EntityId :: At(inner', x) == if x == id then c else At(inner, x) by {
      SetOverwritesOneSlot(inner, id, c);
    }
    assert forall i: nat :: i != idx && i < Capacity(outer3) ==> outer3.data[i] == At(cm.componentsByType, i);
    r
  }

  /** Adding a component keeps every bit backed, and adding a non-null one
      keeps the bitsets and the bags in sync. */
  lemma AddComponentKeepsSync<C>(cm: ComponentManager<C>, id: EntityId, t: ComponentType, c: Option<C>)
    ensures BitsBacked(cm) ==> BitsBacked(AddComponent(cm, id, t, c))
    ensures InSync(cm) && c.Some? ==> InSync(AddComponent(cm, id, t, c))
  {
  }

  /** `removeComponent(e, type)`: when the entity's bit is set, null its slot
      in the type's bag and clear the bit; otherwise do nothing. */
  function RemoveComponent<C>(cm: ComponentManager<C>, id: EntityId, t: ComponentType)
    : (r: ComponentManager<C>)
    requires t.index in Bits(cm, id) ==> HasStorage(cm, t.index)
    ensures t.index !in Bits(cm, id) ==> r == cm
    ensures t.index in Bits(cm, id) ==> Stored(r, t.index, id) == None
    ensures forall i: nat, x: EntityId :: (i != t.index || x != id) ==> Stored(r, i, x) == Stored(cm, i, x)
    ensures Bits(r, id) == Bits(cm, id) - {t.index}
    ensures forall x: EntityId :: x != id ==> Bits(r, x) == Bits(cm, x)
    ensures forall i: nat :: HasStorage(cm, i) <==> HasStorage(r, i)
    ensures forall i: nat :: HasStorage(cm, i) ==> Capacity(Storage(r, i)) >= Capacity(Storage(cm, i))
    ensures r.deleted == cm.deleted
  {
    var idx := t.index;
    if idx in Bits(cm, id) then
      var inner := Storage(cm, idx);
      var inner' := Set(inner, id, None);
      SetOverwritesOneSlot(inner, id, None);
      var outer := UpdateInPlace(cm.componentsByType, idx, Some(inner'));
      ComponentManager(outer, cm.deleted, cm.componentBits[id := Bits(cm, id) - {idx}])
    else
      cm
  }

  /** Removing a component keeps the bitsets and the bags in sync, and
      afterwards the entity holds no component of that type. */
  lemma RemoveComponentKeepsSync<C>(cm: ComponentManager<C>, id: EntityId, t: ComponentType)
    requires InSync(cm)
    ensures InSync(RemoveComponent(cm, id, t))
    ensures Stored(RemoveComponent(cm, id, t), t.index, id) == None
  {
  }

  /** `getComponentsByType(type)` as written: an unchecked read of the
      outer bag, creating the type's bag when the slot is null. */
  function GetComponentsByType<C>(cm: ComponentManager<C>, t: ComponentType)
    : (r: (ComponentManager<C>, Bag<C>))
    requires t.index < Capacity(cm.componentsByType)
    ensures HasStorage(r.0, t.index) && r.1 == Storage(r.0, t.index)
    ensures HasStorage(cm, t.index) ==> r == (cm, Storage(cm, t.index))
    ensures !HasStorage(cm, t.index) ==> IsEmpty(r.1) && Capacity(r.1) == DEFAULT_CAPACITY
    ensures forall i: nat, x: EntityId :: Stored(r.0, i, x) == Stored(cm, i, x)
    ensures forall i: nat :: HasStorage(cm, i) ==> HasStorage(r.0, i) && Storage(r.0, i) == Storage(cm, i)
    ensures r.0.componentBits == cm.componentBits && r.0.deleted == cm.deleted
  {
    var idx := t.index;
    match Get(cm.componentsByType, idx)
    case Some(components) => (cm, components)
    case None =>
      var components := NewBag();
      (cm.(componentsByType := Set(cm.componentsByType, idx, Some(components))), components)
  }

  /** `getComponentsByType(type)` with the outer bag first grown to cover
      the type's index, as `addComponent` does. Every type then has a bag,
      whatever its index. */
  function GetComponentsByTypeGrowing<C>(cm: ComponentManager<C>, t: ComponentType)
    : (r: (ComponentManager<C>, Bag<C>))
    ensures HasStorage(r.0, t.index) && r.1 == Storage(r.0, t.index)
    ensures HasStorage(cm, t.index) ==> r == (cm, Storage(cm, t.index))
    ensures !HasStorage(cm, t.index) ==> IsEmpty(r.1) && Capacity(r.1) == DEFAULT_CAPACITY
    ensures forall i: nat, x: EntityId :: Stored(r.0, i, x) == Stored(cm, i, x)
    ensures forall i: nat :: HasStorage(cm, i) ==> HasStorage(r.0, i) && Storage(r.0, i) == Storage(cm, i)
    ensures r.0.componentBits == cm.componentBits && r.0.deleted == cm.deleted
  {
    var grown := cm.(componentsByType := EnsureCapacity(cm.componentsByType, t.index));
    assert forall i: nat, x: EntityId :: Stored(grown, i, x) == Stored(cm, i, x);
    GetComponentsByType(grown, t)
  }

  /** `getComponent(e, type)`: the stored component, or null when the type
      has no bag yet. Both reads are unchecked. */
  function GetComponent<C>(cm: ComponentManager<C>, id: EntityId, t: ComponentType): (r: Option<C>)
    requires t.index < Capacity(cm.componentsByType)
    requires HasStorage(cm, t.index) ==> id < Capacity(Storage(cm, t.index))
    ensures r == Stored(cm, t.index, id)
    ensures InSync(cm) ==> (r.Some? <==> t.index in Bits(cm, id))
  {
    match Get(cm.componentsByType, t.index)
    case Some(components) => Get(components, id)
    case None => None
  }

  /** A component read back after it was added is the one added; after it
      was removed there is none. */
  lemma GetComponentAfterAddAndRemove<C>(cm: ComponentManager<C>, id: EntityId, t: ComponentType, c: C)
    ensures var added := AddComponent(cm, id, t, Some(c));
            GetComponent(added, id, t) == Some(c)
            && GetComponent(RemoveComponent(added, id, t), id, t) == None
  {
  }

  /** The type indices below `n` whose bit is set in `s`, in ascending order:
      the iteration order of `nextSetBit`. */
  function SetBitsBelow(s: set<nat>, n: nat): (r: seq<nat>)
    ensures forall k :: 0 <= k < |r| ==> r[k] in s && r[k] < n
    ensures forall i: nat :: i in s && i < n ==> i in r
    ensures forall j, k :: 0 <= j < k < |r| ==> r[j] < r[k]
    decreases n
  {
    if n == 0 then []
    else SetBitsBelow(s, n - 1) + (if n - 1 in s then [n - 1] else [])
  }

  /** The indices visited by the bitset loops: every set bit, ascending.
      (A bit that has a bag lies below the outer bag's capacity.) */
  function ComponentIndices<C>(cm: ComponentManager<C>, id: EntityId): (r: seq<nat>)
    requires Sweepable(cm, id)
    ensures forall i: nat :: i in r <==> i in Bits(cm, id)
    ensures forall j, k :: 0 <= j < k < |r| ==> r[j] < r[k]
  {
    SetBitsBelow(Bits(cm, id), Capacity(cm.componentsByType))
  }

  /** `getComponentsFor(e, fillBag)`: append to `fillBag` the entity's
      component of each type whose bit is set, in ascending type order. */
  function GetComponentsFor<C>(cm: ComponentManager<C>, id: EntityId, fillBag: Bag<C>): (r: Bag<C>)
    requires forall i: nat :: i in Bits(cm, id) ==> HasStorage(cm, i) && id < Capacity(Storage(cm, i))
    ensures var ks := ComponentIndices(cm, id);
            Live(r) == Live(fillBag) + seq(|ks|, k requires 0 <= k < |ks| => Stored(cm, ks[k], id))
  {
    var ks := ComponentIndices(cm, id);
    var found := seq(|ks|, k requires 0 <= k < |ks| => Get(Storage(cm, ks[k]), id));
    forall k | 0 <= k < |ks| ensures found[k] == Stored(cm, ks[k], id) {
      assert ks[k] in ks;
      assert ks[k] in Bits(cm, id);
      assert HasStorage(cm, ks[k]) && id < Capacity(Storage(cm, ks[k]));
      assert found[k] == Get(Storage(cm, ks[k]), id);
    }
    AddEach(fillBag, found)
  }

  /** With the bitsets in sync, `getComponentsFor` appends exactly one
      non-null component per set bit, each the one stored for that type. */
  lemma GetComponentsForListsEveryComponent<C>(cm: ComponentManager<C>, id: EntityId, fillBag: Bag<C>)
    requires InSync(cm)
    ensures var appended := Live(GetComponentsFor(cm, id, fillBag))[fillBag.size..];
            |appended| == |ComponentIndices(cm, id)|
            && None !in appended
            && (forall i: nat :: i in Bits(cm, id) ==> Stored(cm, i, id) in appended)
  {
    var ks := ComponentIndices(cm, id);
    var found := seq(|ks|, k requires 0 <= k < |ks| => Stored(cm, ks[k], id));
    AppendedAreFound(cm, id, fillBag);
    SetBitsAreStored(cm, id);
    FoundCoversBits(cm, id);
  }

  /** Every set bit's component is among those the loop reads. */
  lemma FoundCoversBits<C>(cm: ComponentManager<C>, id: EntityId)
    requires Sweepable(cm, id)
    ensures var ks := ComponentIndices(cm, id);
            forall i: nat :: i in Bits(cm, id) ==>
              Stored(cm, i, id) in seq(|ks|, k requires 0 <= k < |ks| => Stored(cm, ks[k], id))
  {
    var ks := ComponentIndices(cm, id);
    var found := seq(|ks|, k requires 0 <= k < |ks| => Stored(cm, ks[k], id));
    forall i: nat | i in Bits(cm, id) ensures Stored(cm, i, id) in found {
      var k :| 0 <= k < |ks| && ks[k] == i;
      assert found[k] == Stored(cm, i, id);
    }
  }

  /** What `getComponentsFor` appends, one entry per visited index. */
  lemma AppendedAreFound<C>(cm: ComponentManager<C>, id: EntityId, fillBag: Bag<C>)
    requires forall i: nat :: i in Bits(cm, id) ==> HasStorage(cm, i) && id < Capacity(Storage(cm, i))
    ensures var ks := ComponentIndices(cm, id);
            Live(GetComponentsFor(cm, id, fillBag))[fillBag.size..]
            == seq(|ks|, k requires 0 <= k < |ks| => Stored(cm, ks[k], id))
  {
    var ks := ComponentIndices(cm, id);
    var found := seq(|ks|, k requires 0 <= k < |ks| => Stored(cm, ks[k], id));
    SuffixOfConcat(Live(fillBag), found);
  }

  /** In a synced manager, every index the loop visits holds a component. */
  lemma SetBitsAreStored<C>(cm: ComponentManager<C>, id: EntityId)
    requires InSync(cm)
    ensures var ks := ComponentIndices(cm, id);
            forall k :: 0 <= k < |ks| ==> Stored(cm, ks[k], id).Some?
  {
    var ks := ComponentIndices(cm, id);
    forall k | 0 <= k < |ks| ensures Stored(cm, ks[k], id).Some? {
      assert ks[k] in ks;
    }
  }

  lemma SuffixOfConcat<T>(a: seq<T>, b: seq<T>)
    ensures (a + b)[|a|..] == b
  {
  }

  /** `SetBitsBelow` lists each bit below `n` once. */
  lemma {:induction false} SetBitsBelowCount(s: set<nat>, n: nat)
    ensures |SetBitsBelow(s, n)| == |BitsBelow(s, n)|
    decreases n
  {
    if n > 0 {
      SetBitsBelowCount(s, n - 1);
      BitsBelowStep(s, n);
    }
  }

  /** The bits of `s` below `n`. */
  function BitsBelow(s: set<nat>, n: nat): set<nat> {
    set i: nat | i in s && i < n
  }

  lemma BitsBelowStep(s: set<nat>, n: nat)
    requires n > 0
    ensures |BitsBelow(s, n)| == |BitsBelow(s, n - 1)| + if n - 1 in s then 1 else 0
  {
    if n - 1 in s {
      assert BitsBelow(s, n) == BitsBelow(s, n - 1) + {n - 1};
    } else {
      assert BitsBelow(s, n) == BitsBelow(s, n - 1);
    }
  }

  /** `getComponentsFor` grows `fillBag` by exactly the number of set bits,
      keeping what it held. */
  lemma GetComponentsForCountsBits<C>(cm: ComponentManager<C>, id: EntityId, fillBag: Bag<C>)
    requires forall i: nat :: i in Bits(cm, id) ==> HasStorage(cm, i) && id < Capacity(Storage(cm, i))
    ensures GetComponentsFor(cm, id, fillBag).size == fillBag.size + |Bits(cm, id)|
    ensures Live(GetComponentsFor(cm, id, fillBag))[..fillBag.size] == Live(fillBag)
  {
    var n := Capacity(cm.componentsByType);
    SetBitsBelowCount(Bits(cm, id), n);
    assert BitsBelow(Bits(cm, id), n) == Bits(cm, id);
  }

  /** `deleted(e)`: queue the entity for the next `clean`. */
  function Deleted<C>(cm: ComponentManager<C>, id: EntityId): (r: ComponentManager<C>)
    ensures Live(r.deleted) == Live(cm.deleted) + [Some(id)]
    ensures r.componentsByType == cm.componentsByType && r.componentBits == cm.componentBits
  {
    cm.(deleted := Add(cm.deleted, Some(id)))
  }

  /** The loop of `removeComponentsOfEntity`: for each type index of `ks`
      in turn, null slot `id` of that type's bag. */
  function NullSlots<C>(cm: ComponentManager<C>, id: EntityId, ks: seq<nat>): (r: ComponentManager<C>)
    requires forall k :: 0 <= k < |ks| ==> HasStorage(cm, ks[k])
    ensures forall i: nat :: i in ks ==> Stored(r, i, id) == None
    ensures forall i: nat :: i !in ks ==> Stored(r, i, id) == Stored(cm, i, id)
    ensures forall i: nat, x: EntityId :: x != id ==> Stored(r, i, x) == Stored(cm, i, x)
    ensures forall i: nat :: HasStorage(cm, i) <==> HasStorage(r, i)
    ensures forall i: nat :: HasStorage(cm, i) ==> Capacity(Storage(r, i)) >= Capacity(Storage(cm, i))
    ensures r.componentBits == cm.componentBits && r.deleted == cm.deleted
    decreases |ks|
  {
    if ks == [] then cm
    else
      var nulled := NullSlot(cm, id, ks[0]);
      assert forall k :: 1 <= k < |ks| ==> HasStorage(nulled, ks[k]);
      var r := NullSlots(nulled, id, ks[1..]);
      assert forall j: nat :: j in ks <==> j == ks[0] || j in ks[1..];
      r
  }

  /** One pass of that loop: `componentsByType.get(i).set(id, null)`. */
  function NullSlot<C>(cm: ComponentManager<C>, id: EntityId, i: nat): (r: ComponentManager<C>)
    requires HasStorage(cm, i)
    ensures Stored(r, i, id) == None
    ensures forall j: nat, x: EntityId :: (j != i || x != id) ==> Stored(r, j, x) == Stored(cm, j, x)
    ensures forall j: nat :: HasStorage(cm, j) <==> HasStorage(r, j)
    ensures forall j: nat :: HasStorage(cm, j) ==> Capacity(Storage(r, j)) >= Capacity(Storage(cm, j))
    ensures r.componentBits == cm.componentBits && r.deleted == cm.deleted
  {
    var inner := Set(Storage(cm, i), id, None);
    SetOverwritesOneSlot(Storage(cm, i), id, None);
    cm.(componentsByType := UpdateInPlace(cm.componentsByType, i, Some(inner)))
  }

  /** `removeComponentsOfEntity(e)`: null the entity's slot in the bag of
      every type whose bit is set, in ascending type order, then clear all
      its bits. */
  function RemoveComponentsOfEntity<C>(cm: ComponentManager<C>, id: EntityId): (r: ComponentManager<C>)
    requires Sweepable(cm, id)
    ensures forall x: EntityId :: Bits(r, x) == if x == id then {} else Bits(cm, x)
    ensures forall i: nat, x: EntityId ::
              Stored(r, i, x) == if x == id && i in Bits(cm, id) then None else Stored(cm, i, x)
    ensures forall i: nat :: HasStorage(cm, i) <==> HasStorage(r, i)
    ensures forall i: nat :: HasStorage(cm, i) ==> Capacity(Storage(r, i)) >= Capacity(Storage(cm, i))
    ensures r.deleted == cm.deleted
  {
    var ks := ComponentIndices(cm, id);
    assert forall k :: 0 <= k < |ks| ==> ks[k] in ks;
    var nulled := NullSlots(cm, id, ks);
    var r := nulled.(componentBits := cm.componentBits[id := {}]);
    SameBagsSameSlots(nulled, r);
    r
  }

  /** Two managers with the same outer bag store the same components. */
  lemma SameBagsSameSlots<C>(a: ComponentManager<C>, b: ComponentManager<C>)
    requires a.componentsByType == b.componentsByType
    ensures forall i: nat :: HasStorage(a, i) == HasStorage(b, i)
    ensures forall i: nat :: HasStorage(a, i) ==> Storage(a, i) == Storage(b, i)
    ensures forall i: nat, x: EntityId :: Stored(a, i, x) == Stored(b, i, x)
  {
    forall i: nat ensures HasStorage(a, i) == HasStorage(b, i) {}
    forall i: nat | HasStorage(a, i) ensures Storage(a, i) == Storage(b, i) {}
    forall i: nat, x: EntityId ensures Stored(a, i, x) == Stored(b, i, x) {}
  }

  /** Sweeping an entity keeps the bitsets and the bags in sync and leaves
      it with no component at all. */
  lemma RemoveComponentsOfEntityKeepsSync<C>(cm: ComponentManager<C>, id: EntityId)
    requires InSync(cm)
    ensures InSync(RemoveComponentsOfEntity(cm, id))
    ensures forall i: nat :: Stored(RemoveComponentsOfEntity(cm, id), i, id) == None
  {
    var r := RemoveComponentsOfEntity(cm, id);
    forall x: EntityId, i: nat | i in Bits(r, x)
      ensures HasStorage(r, i) && x < Capacity(Storage(r, i))
    {
      assert x != id && i in Bits(cm, x);
    }
    forall i: nat, x: EntityId ensures Stored(r, i, x).Some? <==> i in Bits(r, x) {
      if x == id {
        assert Stored(r, i, id) == None by {
          if i !in Bits(cm, id) {
            assert Stored(cm, i, id).None?;
          }
        }
      } else {
        assert Stored(r, i, x) == Stored(cm, i, x) && Bits(r, x) == Bits(cm, x);
      }
    }
    assert forall i: nat :: i !in Bits(cm, id) ==> Stored(cm, i, id).None?;
  }

  /** The entities a queue names. */
  ghost function QueuedIds(pending: seq<Option<EntityId>>): set<EntityId> {
    set k | 0 <= k < |pending| && pending[k].Some? :: pending[k].value
  }

  /** The loop of `clean`: sweep each queued entity in order. */
  function SweepPending<C>(cm: ComponentManager<C>, pending: seq<Option<EntityId>>): (r: ComponentManager<C>)
    requires forall k :: 0 <= k < |pending| ==> pending[k].Some? && Sweepable(cm, pending[k].value)
    ensures forall i: nat :: HasStorage(cm, i) <==> HasStorage(r, i)
    ensures forall i: nat :: HasStorage(cm, i) ==> Capacity(Storage(r, i)) >= Capacity(Storage(cm, i))
    ensures r.deleted == cm.deleted
    decreases |pending|
  {
    if pending == [] then cm
    else
      RestStaysSweepable(cm, pending);
      SweepPending(RemoveComponentsOfEntity(cm, pending[0].value), pending[1..])
  }

  /** Sweeping a queue clears the bits of every queued entity and of no
      other. */
  lemma {:induction false} SweepPendingBits<C>(cm: ComponentManager<C>, pending: seq<Option<EntityId>>)
    requires forall k :: 0 <= k < |pending| ==> pending[k].Some? && Sweepable(cm, pending[k].value)
    ensures forall x: EntityId ::
              Bits(SweepPending(cm, pending), x) == if x in QueuedIds(pending) then {} else Bits(cm, x)
    decreases |pending|
  {
    if pending != [] {
      var id := pending[0].value;
      var rest := pending[1..];
      var swept := RemoveComponentsOfEntity(cm, id);
      var r := SweepPending(cm, pending);
      assert r == SweepPending(swept, rest);
      RestStaysSweepable(cm, pending);
      SweepPendingBits(swept, rest);
      QueuedIdsOfHeadTail(pending);
      ComposeClearedBits(cm, swept, r, id, QueuedIds(rest));
    } else {
      assert QueuedIds(pending) == {};
    }
  }

  /** Sweeping a queue removes, for every queued entity, the components its
      bits pointed at, and touches no other slot. */
  lemma {:induction false} SweepPendingStored<C>(cm: ComponentManager<C>, pending: seq<Option<EntityId>>)
    requires forall k :: 0 <= k < |pending| ==> pending[k].Some? && Sweepable(cm, pending[k].value)
    ensures forall i: nat, x: EntityId ::
              Stored(SweepPending(cm, pending), i, x)
              == if x in QueuedIds(pending) && i in Bits(cm, x) then None else Stored(cm, i, x)
    decreases |pending|
  {
    if pending != [] {
      var id := pending[0].value;
      var rest := pending[1..];
      var swept := RemoveComponentsOfEntity(cm, id);
      var r := SweepPending(cm, pending);
      assert r == SweepPending(swept, rest);
      RestStaysSweepable(cm, pending);
      SweepPendingStored(swept, rest);
      QueuedIdsOfHeadTail(pending);
      ComposeNulledSlots(cm, swept, r, id, QueuedIds(rest));
    } else {
      assert QueuedIds(pending) == {};
    }
  }

  /** Sweeping `id` and then the entities of `later` clears the bits of
      `{id} + later` and of no other entity. */
  lemma ComposeClearedBits<C>(cm: ComponentManager<C>, swept: ComponentManager<C>, r: ComponentManager<C>,
                              id: EntityId, later: set<EntityId>)
    requires forall x: EntityId :: Bits(swept, x) == if x == id then {} else Bits(cm, x)
    requires forall x: EntityId :: Bits(r, x) == if x in later then {} else Bits(swept, x)
    ensures forall x: EntityId :: Bits(r, x) == if x in {id} + later then {} else Bits(cm, x)
  {
  }

  /** Sweeping `id` and then the entities of `later` nulls, for each of
      them, the slots its original bits pointed at, and no other slot. */
  lemma ComposeNulledSlots<C>(cm: ComponentManager<C>, swept: ComponentManager<C>, r: ComponentManager<C>,
                              id: EntityId, later: set<EntityId>)
    requires forall x: EntityId :: Bits(swept, x) == if x == id then {} else Bits(cm, x)
    requires forall i: nat, x: EntityId ::
               Stored(swept, i, x) == if x == id && i in Bits(cm, id) then None else Stored(cm, i, x)
    requires forall i: nat, x: EntityId ::
               Stored(r, i, x) == if x in later && i in Bits(swept, x) then None else Stored(swept, i, x)
    ensures forall i: nat, x: EntityId ::
              Stored(r, i, x) == if x in {id} + later && i in Bits(cm, x) then None else Stored(cm, i, x)
  {
    forall i: nat, x: EntityId
      ensures Stored(r, i, x) == if x in {id} + later && i in Bits(cm, x) then None else Stored(cm, i, x)
    {
      assert Bits(swept, x) == if x == id then {} else Bits(cm, x);
    }
  }

  /** After the head of the queue is swept, the rest of the queue still
      meets `removeComponentsOfEntity`'s demand. */
  lemma RestStaysSweepable<C>(cm: ComponentManager<C>, pending: seq<Option<EntityId>>)
    requires pending != []
    requires forall k :: 0 <= k < |pending| ==> pending[k].Some? && Sweepable(cm, pending[k].value)
    ensures var swept := RemoveComponentsOfEntity(cm, pending[0].value);
            forall k :: 0 <= k < |pending[1..]| ==> pending[1..][k].Some? && Sweepable(swept, pending[1..][k].value)
  {
    var id := pending[0].value;
    var swept := RemoveComponentsOfEntity(cm, id);
    forall k | 1 <= k < |pending| ensures Sweepable(swept, pending[k].value) {
      var x := pending[k].value;
      forall i: nat | i in Bits(swept, x) ensures HasStorage(swept, i) {
        assert x != id && i in Bits(cm, x);
        assert Sweepable(cm, x);
      }
    }
  }

  lemma QueuedIdsOfHeadTail(pending: seq<Option<EntityId>>)
    requires pending != [] && pending[0].Some?
    ensures QueuedIds(pending) == {pending[0].value} + QueuedIds(pending[1..])
  {
    assert pending == [pending[0]] + pending[1..];
  }

  /** `clean()`: when the queue is non-empty, sweep every queued entity and
      empty the queue. */
  function Clean<C>(cm: ComponentManager<C>): (r: ComponentManager<C>)
    requires forall k :: 0 <= k < cm.deleted.size ==>
      cm.deleted.data[k].Some? && Sweepable(cm, cm.deleted.data[k].value)
    ensures IsEmpty(r.deleted) && Capacity(r.deleted) == Capacity(cm.deleted)
    ensures forall i: nat :: HasStorage(cm, i) <==> HasStorage(r, i)
  {
    if cm.deleted.size > 0 then
      var pending := Live(cm.deleted);
      var swept := SweepPending(cm, pending);
      swept.(deleted := Clear(cm.deleted))
    else
      cm
  }

  /** What `clean` does: every queued entity loses all its bits and the
      components those bits pointed at; no other entity changes. */
  lemma CleanEffect<C>(cm: ComponentManager<C>)
    requires forall k :: 0 <= k < cm.deleted.size ==>
      cm.deleted.data[k].Some? && Sweepable(cm, cm.deleted.data[k].value)
    ensures var r := Clean(cm);
            && (forall x: EntityId :: x in QueuedIds(Live(cm.deleted)) ==> Bits(r, x) == {})
            && (forall i: nat, x: EntityId :: x in QueuedIds(Live(cm.deleted)) && i in Bits(cm, x) ==> Stored(r, i, x) == None)
            && (forall x: EntityId :: x !in QueuedIds(Live(cm.deleted)) ==> Bits(r, x) == Bits(cm, x))
            && (forall i: nat, x: EntityId :: x !in QueuedIds(Live(cm.deleted)) ==> Stored(r, i, x) == Stored(cm, i, x))
  {
    var pending := Live(cm.deleted);
    if cm.deleted.size > 0 {
      SweepPendingBits(cm, pending);
      SweepPendingStored(cm, pending);
      QueueIsInvisible(SweepPending(cm, pending), Clear(cm.deleted));
    } else {
      assert QueuedIds(pending) == {};
    }
  }

  /** Sweeping a queue keeps the bitsets and the bags in sync and leaves
      every queued entity with no component at all. */
  lemma SweepPendingKeepsSync<C>(cm: ComponentManager<C>, pending: seq<Option<EntityId>>)
    requires InSync(cm)
    requires forall k :: 0 <= k < |pending| ==> pending[k].Some?
    ensures InSync(SweepPending(cm, pending))
    ensures forall i: nat, x: EntityId :: x in QueuedIds(pending) ==> Stored(SweepPending(cm, pending), i, x) == None
  {
    var r := SweepPending(cm, pending);
    SweepPendingBits(cm, pending);
    SweepPendingStored(cm, pending);
    forall i: nat, x: EntityId | x in QueuedIds(pending) ensures Stored(r, i, x) == None {
      if i !in Bits(cm, x) {
        assert Stored(cm, i, x).None?;
      }
    }
    forall x: EntityId, i: nat | i in Bits(r, x) ensures HasStorage(r, i) && x < Capacity(Storage(r, i)) {
      assert x !in QueuedIds(pending) && i in Bits(cm, x);
    }
    forall i: nat, x: EntityId ensures Stored(r, i, x).Some? <==> i in Bits(r, x) {
      if x !in QueuedIds(pending) {
        assert Stored(r, i, x) == Stored(cm, i, x) && Bits(r, x) == Bits(cm, x);
      }
    }
  }

  /** With the bitsets in sync, `clean` keeps them in sync, strips every
      queued entity of all its components and empties the queue. */
  lemma CleanKeepsSync<C>(cm: ComponentManager<C>)
    requires InSync(cm)
    requires forall k :: 0 <= k < cm.deleted.size ==> cm.deleted.data[k].Some?
    ensures InSync(Clean(cm)) && IsEmpty(Clean(cm).deleted)
    ensures forall i: nat, x: EntityId :: x in QueuedIds(Live(cm.deleted)) ==> Stored(Clean(cm), i, x) == None
  {
    var pending := Live(cm.deleted);
    if cm.deleted.size > 0 {
      SweepPendingKeepsSync(cm, pending);
      QueueIsInvisible(SweepPending(cm, pending), Clear(cm.deleted));
    } else {
      assert QueuedIds(pending) == {};
    }
  }

  /** The sweep queue plays no part in the bitsets or the bags. */
  lemma QueueIsInvisible<C>(cm: ComponentManager<C>, q: Bag<EntityId>)
    ensures forall i: nat :: HasStorage(cm.(deleted := q), i) == HasStorage(cm, i)
    ensures forall i: nat :: HasStorage(cm, i) ==> Storage(cm.(deleted := q), i) == Storage(cm, i)
    ensures forall x: EntityId :: Bits(cm.(deleted := q), x) == Bits(cm, x)
    ensures forall i: nat, x: EntityId :: Stored(cm.(deleted := q), i, x) == Stored(cm, i, x)
    ensures InSync(cm) ==> InSync(cm.(deleted := q))
  {
    var r := cm.(deleted := q);
    SameBagsSameSlots(cm, r);
    forall x: EntityId ensures Bits(r, x) == Bits(cm, x) {}
  }
}
