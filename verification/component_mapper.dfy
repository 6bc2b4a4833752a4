/** Component mappers: a handle on the bag of one component type, for fast
    per-entity reads.

    The Java mapper keeps a reference to the type's bag. That bag object is
    never replaced once created (the manager only fills a null slot), and
    every later write to it is seen through the reference; so here the
    mapper keeps the type and reads the bag from the manager's current
    state. */
module ComponentMappers {
  import opened Nullable
  import opened Bags
  import opened Entities
  import opened ComponentTypes
  import opened ComponentManagers

  /** `componentType` is the mapped type; its index locates the bag. */
  datatype ComponentMapper = ComponentMapper(componentType: ComponentType)

  /** The mapper's bag exists in `cm`. */
  predicate Attached<C>(cm: ComponentManager<C>, m: ComponentMapper) {
    HasStorage(cm, m.componentType.index)
  }

  /** The mapper constructor: look the class's type up in the registry, then
      fetch (creating if needed) the type's bag. The fetch grows the outer
      bag first; see `LateTypeOutrunsOuterBag` for the unguarded fetch. */
  function NewMapper<C>(reg: Registry, cm: ComponentManager<C>, componentClass: ClassName)
    : (r: (Registry, ComponentManager<C>, ComponentMapper))
    ensures (r.0, r.2.componentType) == GetTypeFor(reg, componentClass)
    ensures Attached(r.1, r.2)
    ensures forall i: nat, x: EntityId :: Stored(r.1, i, x) == Stored(cm, i, x)
    ensures forall i: nat :: HasStorage(cm, i) ==> HasStorage(r.1, i) && Storage(r.1, i) == Storage(cm, i)
    ensures r.1.componentBits == cm.componentBits && r.1.deleted == cm.deleted
  {
    var (reg', t) := GetTypeFor(reg, componentClass);
    var (cm', _) := GetComponentsByTypeGrowing(cm, t);
    (reg', cm', ComponentMapper(t))
  }

  /** The mapper constructor as written: the unguarded fetch, whose
      unchecked read of the outer bag demands that the type's index is
      inside it. */
  function NewMapperAsWritten<C>(reg: Registry, cm: ComponentManager<C>, componentClass: ClassName)
    : (r: (Registry, ComponentManager<C>, ComponentMapper))
    requires GetTypeFor(reg, componentClass).1.index < Capacity(cm.componentsByType)
    ensures (r.0, r.2.componentType) == GetTypeFor(reg, componentClass)
    ensures Attached(r.1, r.2)
    ensures forall i: nat, x: EntityId :: Stored(r.1, i, x) == Stored(cm, i, x)
    ensures forall i: nat :: HasStorage(cm, i) ==> HasStorage(r.1, i) && Storage(r.1, i) == Storage(cm, i)
    ensures r.1.componentBits == cm.componentBits && r.1.deleted == cm.deleted
  {
    var (reg', t) := GetTypeFor(reg, componentClass);
    var (cm', _) := GetComponentsByType(cm, t);
    (reg', cm', ComponentMapper(t))
  }

  /** Wherever the constructor as written does not fault, the corrected one
      gives the same registry, manager and mapper. */
  lemma NewMapperAgreesWhenInBounds<C>(reg: Registry, cm: ComponentManager<C>, componentClass: ClassName)
    requires GetTypeFor(reg, componentClass).1.index < Capacity(cm.componentsByType)
    ensures NewMapper(reg, cm, componentClass) == NewMapperAsWritten(reg, cm, componentClass)
  {
    var t := GetTypeFor(reg, componentClass).1;
    assert EnsureCapacity(cm.componentsByType, t.index) == cm.componentsByType;
    assert cm.(componentsByType := EnsureCapacity(cm.componentsByType, t.index)) == cm;
  }

  /** Once 64 classes are registered, the next class gets index 64. On a
      fresh manager the outer bag has 64 slots, so the unguarded
      `getComponentsByType` cannot serve it (its unchecked read would be out
      of bounds), while the guarded fetch the mapper uses gives it an empty
      bag. */
  lemma LateTypeOutrunsOuterBag<C>(reg: Registry, componentClass: ClassName)
    requires Valid(reg) && reg.next == DEFAULT_CAPACITY && componentClass !in reg.types
    ensures var t := GetTypeFor(reg, componentClass).1;
            t.index == 64 && !(t.index < Capacity(NewComponentManager<C>().componentsByType))
    ensures var r := NewMapper(reg, NewComponentManager<C>(), componentClass);
            Attached(r.1, r.2) && IsEmpty(Storage(r.1, r.2.componentType.index))
  {
  }

  /** A new mapper leaves the bitsets and the bags in sync. */
  lemma NewMapperKeepsSync<C>(reg: Registry, cm: ComponentManager<C>, componentClass: ClassName)
    requires InSync(cm)
    ensures InSync(NewMapper(reg, cm, componentClass).1)
  {
    var r := NewMapper(reg, cm, componentClass).1;
    forall x: EntityId, i: nat | i in Bits(r, x)
      ensures HasStorage(r, i) && x < Capacity(Storage(r, i))
    {
      assert i in Bits(cm, x);
    }
  }

  /** `get(e)`: the unchecked read of the entity's slot. */
  function Get<C>(cm: ComponentManager<C>, m: ComponentMapper, id: EntityId): (r: Option<C>)
    requires Attached(cm, m)
    requires id < Capacity(Storage(cm, m.componentType.index))
    ensures r == Stored(cm, m.componentType.index, id)
    ensures InSync(cm) ==> (r.Some? <==> m.componentType.index in Bits(cm, id))
  {
    Bags.Get(Storage(cm, m.componentType.index), id)
  }

  /** `getSafe(e)`: the entity's slot when its id is within the bag's
      backing array, null otherwise. Defined for every entity id. */
  function GetSafe<C>(cm: ComponentManager<C>, m: ComponentMapper, id: EntityId): (r: Option<C>)
    requires Attached(cm, m)
    ensures r == Stored(cm, m.componentType.index, id)
    ensures id < Capacity(Storage(cm, m.componentType.index)) ==> r == Get(cm, m, id)
    ensures InSync(cm) ==> (r.Some? <==> m.componentType.index in Bits(cm, id))
  {
    var components := Storage(cm, m.componentType.index);
    if IsIndexWithinBounds(components, id) then Bags.Get(components, id) else None
  }

  /** `has(e)`: whether `getSafe(e)` is non-null. */
  function Has<C>(cm: ComponentManager<C>, m: ComponentMapper, id: EntityId): (r: bool)
    requires Attached(cm, m)
    ensures r <==> Stored(cm, m.componentType.index, id).Some?
    ensures InSync(cm) ==> (r <==> m.componentType.index in Bits(cm, id))
  {
    GetSafe(cm, m, id) != None
  }

  /** A mapper made before a component is added sees it afterwards, and
      stops seeing it once it is removed: the bag it reads is the one the
      manager writes. */
  lemma MapperSeesLaterChanges<C>(cm: ComponentManager<C>, m: ComponentMapper, id: EntityId, c: C)
    requires Attached(cm, m)
    ensures var added := AddComponent(cm, id, m.componentType, Some(c));
            Attached(added, m) && GetSafe(added, m, id) == Some(c) && Has(added, m, id)
            && Get(added, m, id) == Some(c)
            && !Has(RemoveComponent(added, id, m.componentType), m, id)
  {
  }

  /** A mapper stays attached through every manager operation. */
  lemma MapperStaysAttached<C>(cm: ComponentManager<C>, m: ComponentMapper, id: EntityId, t: ComponentType, c: Option<C>)
    requires Attached(cm, m)
    ensures Attached(AddComponent(cm, id, t, c), m)
    ensures (t.index in Bits(cm, id) ==> HasStorage(cm, t.index)) ==> Attached(RemoveComponent(cm, id, t), m)
    ensures Sweepable(cm, id) ==> Attached(RemoveComponentsOfEntity(cm, id), m)
    ensures Attached(Deleted(cm, id), m)
  {
  }
}
