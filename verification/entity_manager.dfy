/** Entity identity: the id-recycling pool, the live-entity bag, the
    disabled bitset and the lifecycle counters. */
module EntityManagers {
  import opened Nullable
  import opened Bags
  import opened Entities

  /** `IdentifierPool`: a LIFO stack of recycled ids and the next id never
      issued. */
  datatype IdentifierPool = IdentifierPool(ids: Bag<EntityId>, nextAvailableId: nat)

  /** Every pooled slot holds an id (only `checkIn` writes to the pool, and it
      never writes null), so `checkOut` never unboxes a null. */
  predicate PoolWellFormed(p: IdentifierPool) {
    None !in Live(p.ids)
  }

  function NewPool(): (p: IdentifierPool)
    ensures PoolWellFormed(p) && IsEmpty(p.ids) && p.nextAvailableId == 0
  {
    IdentifierPool(NewBag(), 0)
  }

  /** `checkOut()`: the most recently checked-in id if there is one,
      otherwise `nextAvailableId`, which then moves on by one. */
  function CheckOut(p: IdentifierPool): (r: (IdentifierPool, EntityId))
    requires PoolWellFormed(p)
    ensures PoolWellFormed(r.0)
    ensures !IsEmpty(p.ids) ==>
      Some(r.1) == p.ids.data[p.ids.size - 1]
      && Live(r.0.ids) == Live(p.ids)[..p.ids.size - 1]
      && r.0.nextAvailableId == p.nextAvailableId
    ensures IsEmpty(p.ids) ==>
      r.1 == p.nextAvailableId && r.0.nextAvailableId == p.nextAvailableId + 1
      && r.0.ids == p.ids
  {
    if p.ids.size > 0 then
      var (ids', id) := RemoveLast(p.ids);
      assert id == Live(p.ids)[p.ids.size - 1];
      assert Live(ids') <= Live(p.ids);
      (IdentifierPool(ids', p.nextAvailableId), id.value)
    else
      (IdentifierPool(p.ids, p.nextAvailableId + 1), p.nextAvailableId)
  }

  /** `checkIn(id)`: push `id` for reuse. */
  function CheckIn(p: IdentifierPool, id: EntityId): (r: IdentifierPool)
    requires PoolWellFormed(p)
    ensures PoolWellFormed(r)
    ensures Live(r.ids) == Live(p.ids) + [Some(id)]
    ensures r.nextAvailableId == p.nextAvailableId
  {
    IdentifierPool(Add(p.ids, Some(id)), p.nextAvailableId)
  }

  /** The ids issued so far and not yet returned. */
  function Outstanding(p: IdentifierPool): set<EntityId> {
    set id | 0 <= id < p.nextAvailableId && Some(id) !in Live(p.ids)
  }

  /** A pool that only ever received ids it had issued, each at most once:
      every pooled id is below `nextAvailableId` and no id is pooled twice. */
  predicate PoolSound(p: IdentifierPool) {
    && PoolWellFormed(p)
    && (forall k :: 0 <= k < p.ids.size ==> p.ids.data[k].value < p.nextAvailableId)
    && (forall j, k :: 0 <= j < k < p.ids.size ==> p.ids.data[j] != p.ids.data[k])
  }

  /** `checkOut` never hands out an id that is still outstanding: a recycled
      id was returned, and a fresh id was never issued before. */
  lemma CheckOutIssuesUnusedId(p: IdentifierPool)
    requires PoolSound(p)
    ensures var (p', id) := CheckOut(p);
            id !in Outstanding(p) && id < p'.nextAvailableId
            && PoolSound(p') && Outstanding(p') == Outstanding(p) + {id}
  {
    var (p', id) := CheckOut(p);
    if IsEmpty(p.ids) {
      assert Live(p'.ids) == [];
      assert Outstanding(p') == Outstanding(p) + {id};
    } else {
      var n := p.ids.size;
      assert Live(p.ids) == Live(p'.ids) + [Some(id)];
      assert Some(id) !in Live(p'.ids) by {
        forall k | 0 <= k < n - 1 ensures Live(p'.ids)[k] != Some(id) {
          assert Live(p'.ids)[k] == p.ids.data[k];
        }
      }
      forall k | 0 <= k < p'.ids.size ensures p'.ids.data[k] == p.ids.data[k] {
        assert Live(p'.ids)[k] == Live(p.ids)[k];
      }
      assert Outstanding(p') == Outstanding(p) + {id};
    }
  }

  /** Checking in an outstanding id keeps the pool sound and makes the id
      available again. */
  lemma CheckInReturnsId(p: IdentifierPool, id: EntityId)
    requires PoolSound(p) && id in Outstanding(p)
    ensures PoolSound(CheckIn(p, id))
    ensures Outstanding(CheckIn(p, id)) == Outstanding(p) - {id}
  {
    var p' := CheckIn(p, id);
    forall k | 0 <= k < p'.ids.size
      ensures p'.ids.data[k] == if k < p.ids.size then p.ids.data[k] else Some(id)
    {
      assert Live(p'.ids)[k] == p'.ids.data[k];
      if k < p.ids.size {
        assert Live(p.ids)[k] == p.ids.data[k];
      }
    }
  }

  /** `checkIn(id)` followed by `checkOut()` returns `id` and restores the
      pooled ids (last in, first out). */
  lemma CheckOutReturnsLastCheckIn(p: IdentifierPool, id: EntityId)
    requires PoolWellFormed(p)
    ensures var (p', out) := CheckOut(CheckIn(p, id));
            out == id && Live(p'.ids) == Live(p.ids) && p'.nextAvailableId == p.nextAvailableId
  {
    var q := CheckIn(p, id);
    assert Live(q.ids)[q.ids.size - 1] == Some(id);
    assert Live(q.ids)[..q.ids.size - 1] == Live(p.ids);
  }

  /** `EntityManager`: `entities` holds each added entity at its id,
      `disabled` is the disabled bitset, then the four counters and the pool.
      `active` is a Java `int` and can go negative if more entities are
      deleted than added; the others only grow. */
  datatype EntityManager = EntityManager(
    entities: Bag<EntityId>,
    disabled: set<EntityId>,
    active: int,
    added: nat,
    created: nat,
    deleted: nat,
    pool: IdentifierPool)

  function NewEntityManager(): (em: EntityManager)
    ensures PoolWellFormed(em.pool) && em.pool == NewPool()
    ensures em.disabled == {} && Capacity(em.entities) == DEFAULT_CAPACITY
    ensures forall id: EntityId :: id < DEFAULT_CAPACITY ==> !IsActive(em, id)
    ensures em.active == 0 && em.added == 0 && em.created == 0 && em.deleted == 0
  {
    EntityManager(NewBag(), {}, 0, 0, 0, 0, NewPool())
  }

  /** `isActive(id)`: an unchecked read of the entity bag. */
  function IsActive(em: EntityManager, id: EntityId): bool
    requires id < Capacity(em.entities)
  {
    Get(em.entities, id) != None
  }

  /** `isEnabled(id)`: true unless the id's disabled bit is set. */
  function IsEnabled(em: EntityManager, id: EntityId): bool {
    id !in em.disabled
  }

  /** `getEntity(id)`: an unchecked read of the entity bag. */
  function GetEntity(em: EntityManager, id: EntityId): (r: Option<EntityId>)
    requires id < Capacity(em.entities)
    ensures r.Some? <==> IsActive(em, id)
  {
    Get(em.entities, id)
  }

  /** `createEntityInstance()`: take an id from the pool and count the
      creation. */
  function CreateEntityInstance(em: EntityManager): (r: (EntityManager, EntityId))
    requires PoolWellFormed(em.pool)
    ensures r.0.created == em.created + 1
    ensures (r.0.pool, r.1) == CheckOut(em.pool)
    ensures r.0.entities == em.entities && r.0.disabled == em.disabled
    ensures r.0.active == em.active && r.0.added == em.added && r.0.deleted == em.deleted
  {
    var (pool', id) := CheckOut(em.pool);
    (em.(pool := pool', created := em.created + 1), id)
  }

  /** `added(e)`: store the entity at its id and count it as active. */
  function Added(em: EntityManager, id: EntityId): (r: EntityManager)
    ensures id < Capacity(r.entities) && IsActive(r, id) && GetEntity(r, id) == Some(id)
    ensures Capacity(r.entities) >= Capacity(em.entities)
    ensures forall other: EntityId :: other != id && other < Capacity(em.entities) ==>
      IsActive(r, other) == IsActive(em, other) && GetEntity(r, other) == GetEntity(em, other)
    ensures r.active == em.active + 1 && r.added == em.added + 1
    ensures r.created == em.created && r.deleted == em.deleted
    ensures r.disabled == em.disabled && r.pool == em.pool
  {
    em.(active := em.active + 1, added := em.added + 1,
        entities := Set(em.entities, id, Some(id)))
  }

  /** `enabled(e)`: clear the disabled bit. */
  function Enabled(em: EntityManager, id: EntityId): (r: EntityManager)
    ensures IsEnabled(r, id)
    ensures forall other :: other != id ==> IsEnabled(r, other) == IsEnabled(em, other)
    ensures r.(disabled := em.disabled) == em
  {
    em.(disabled := em.disabled - {id})
  }

  /** `disabled(e)`: set the disabled bit. */
  function Disabled(em: EntityManager, id: EntityId): (r: EntityManager)
    ensures !IsEnabled(r, id)
    ensures forall other :: other != id ==> IsEnabled(r, other) == IsEnabled(em, other)
    ensures r.(disabled := em.disabled) == em
  {
    em.(disabled := em.disabled + {id})
  }

  /** `deleted(e)`: null the entity's slot, clear its disabled bit, return
      its id to the pool and update the counters. */
  function Deleted(em: EntityManager, id: EntityId): (r: EntityManager)
    requires PoolWellFormed(em.pool)
    ensures PoolWellFormed(r.pool)
    ensures id < Capacity(r.entities) && !IsActive(r, id) && IsEnabled(r, id)
    ensures Capacity(r.entities) >= Capacity(em.entities)
    ensures forall other: EntityId :: other != id && other < Capacity(em.entities) ==>
      IsActive(r, other) == IsActive(em, other) && GetEntity(r, other) == GetEntity(em, other)
    ensures forall other :: other != id ==> IsEnabled(r, other) == IsEnabled(em, other)
    ensures r.pool == CheckIn(em.pool, id)
    ensures CheckOut(r.pool).1 == id
    ensures r.active == em.active - 1 && r.deleted == em.deleted + 1
    ensures r.created == em.created && r.added == em.added
  {
    var r := em.(entities := Set(em.entities, id, None),
                 disabled := em.disabled - {id},
                 pool := CheckIn(em.pool, id),
                 active := em.active - 1,
                 deleted := em.deleted + 1);
    CheckOutReturnsLastCheckIn(em.pool, id);
    r
  }

  /** Enabling and disabling are idempotent. */
  lemma EnableDisableIdempotent(em: EntityManager, id: EntityId)
    ensures Enabled(Enabled(em, id), id) == Enabled(em, id)
    ensures Disabled(Disabled(em, id), id) == Disabled(em, id)
    ensures Enabled(Disabled(em, id), id) == Enabled(em, id)
  {
  }

  /** Lifecycle events the host reports to the entity manager. */
  datatype Event = Create | AddEntity(id: EntityId) | Enable(id: EntityId)
                 | Disable(id: EntityId) | DeleteEntity(id: EntityId)

  function Apply(em: EntityManager, ev: Event): (r: EntityManager)
    requires PoolWellFormed(em.pool)
    ensures PoolWellFormed(r.pool)
  {
    match ev
    case Create => CreateEntityInstance(em).0
    case AddEntity(id) => Added(em, id)
    case Enable(id) => Enabled(em, id)
    case Disable(id) => Disabled(em, id)
    case DeleteEntity(id) => Deleted(em, id)
  }

  /** The manager after the events `evs`, in order. */
  function Replay(em: EntityManager, evs: seq<Event>): (r: EntityManager)
    requires PoolWellFormed(em.pool)
    ensures PoolWellFormed(r.pool)
    decreases |evs|
  {
    if evs == [] then em else Apply(Replay(em, evs[..|evs| - 1]), evs[|evs| - 1])
  }

  function CountCreates(evs: seq<Event>): nat {
    if evs == [] then 0 else CountCreates(evs[..|evs| - 1]) + (if evs[|evs| - 1].Create? then 1 else 0)
  }

  function CountAdds(evs: seq<Event>): nat {
    if evs == [] then 0 else CountAdds(evs[..|evs| - 1]) + (if evs[|evs| - 1].AddEntity? then 1 else 0)
  }

  function CountDeletes(evs: seq<Event>): nat {
    if evs == [] then 0 else CountDeletes(evs[..|evs| - 1]) + (if evs[|evs| - 1].DeleteEntity? then 1 else 0)
  }

  /** From a fresh manager, the counters count the events, `active` is
      always `added - deleted`, and whenever every addition is preceded by a
      creation, `created >= added` as the accessors' documentation states. */
  lemma {:induction false} CountersCountEvents(evs: seq<Event>)
    ensures var em := Replay(NewEntityManager(), evs);
            em.created == CountCreates(evs) && em.added == CountAdds(evs)
            && em.deleted == CountDeletes(evs)
            && em.active == em.added - em.deleted
    ensures CountAdds(evs) <= CountCreates(evs) ==>
      Replay(NewEntityManager(), evs).created >= Replay(NewEntityManager(), evs).added
    decreases |evs|
  {
    if evs != [] {
      var init := evs[..|evs| - 1];
      CountersCountEvents(init);
      var prev := Replay(NewEntityManager(), init);
      assert Replay(NewEntityManager(), evs) == Apply(prev, evs[|evs| - 1]);
    }
  }
}
