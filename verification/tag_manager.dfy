/** Tags: unique string names for single entities, kept as a forward map
    (tag to entity) and a reverse map (entity to tag). */
module TagManagers {
  import opened Nullable
  import opened Entities

  datatype TagManager = TagManager(entitiesByTag: map<string, EntityId>, tagsByEntity: map<EntityId, string>)

  function NewTagManager(): (tm: TagManager)
    ensures Paired(tm) && tm.entitiesByTag == map[] && tm.tagsByEntity == map[]
  {
    TagManager(map[], map[])
  }

  /** The two maps mirror each other. `register` alone does not keep this:
      see `ReRegisteringLeavesStaleReverseEntry`. */
  ghost predicate Paired(tm: TagManager) {
    && (forall t :: t in tm.entitiesByTag ==>
          tm.entitiesByTag[t] in tm.tagsByEntity && tm.tagsByEntity[tm.entitiesByTag[t]] == t)
    && (forall e :: e in tm.tagsByEntity ==>
          tm.tagsByEntity[e] in tm.entitiesByTag && tm.entitiesByTag[tm.tagsByEntity[e]] == e)
  }

  /** `register(tag, e)`: point the tag at the entity and the entity at the
      tag, overwriting whatever either pointed at before. */
  function Register(tm: TagManager, tag: string, e: EntityId): (r: TagManager)
    ensures IsRegistered(r, tag) && GetEntity(r, tag) == Some(e)
    ensures e in r.tagsByEntity && r.tagsByEntity[e] == tag
    ensures forall t :: t != tag ==> GetEntity(r, t) == GetEntity(tm, t)
    ensures forall x :: x != e ==> (x in r.tagsByEntity <==> x in tm.tagsByEntity)
    ensures forall x :: x != e && x in tm.tagsByEntity ==> r.tagsByEntity[x] == tm.tagsByEntity[x]
  {
    TagManager(tm.entitiesByTag[tag := e], tm.tagsByEntity[e := tag])
  }

  /** `unregister(tag)`: drop the tag and the reverse entry of the entity it
      pointed at, whatever tag that entry now names. An unknown tag changes
      nothing. */
  function Unregister(tm: TagManager, tag: string): (r: TagManager)
    ensures !IsRegistered(r, tag)
    ensures tag !in tm.entitiesByTag ==> r == tm
    ensures tag in tm.entitiesByTag ==>
      r.tagsByEntity == map x | x in tm.tagsByEntity && x != tm.entitiesByTag[tag] :: tm.tagsByEntity[x]
    ensures forall t :: t != tag ==> GetEntity(r, t) == GetEntity(tm, t)
  {
    if tag in tm.entitiesByTag then
      var e := tm.entitiesByTag[tag];
      TagManager(tm.entitiesByTag - {tag}, tm.tagsByEntity - {e})
    else
      tm
  }

  /** `isRegistered(tag)`. */
  function IsRegistered(tm: TagManager, tag: string): (r: bool)
    ensures r <==> GetEntity(tm, tag).Some?
  {
    tag in tm.entitiesByTag
  }

  /** `getEntity(tag)`: null for an unregistered tag. */
  function GetEntity(tm: TagManager, tag: string): (r: Option<EntityId>)
    ensures r.Some? <==> tag in tm.entitiesByTag
    ensures r.Some? ==> r.value == tm.entitiesByTag[tag]
  {
    if tag in tm.entitiesByTag then Some(tm.entitiesByTag[tag]) else None
  }

  /** `getRegisteredTags()`: the tags the reverse map holds. */
  function GetRegisteredTags(tm: TagManager): (r: set<string>)
    ensures forall t :: t in r <==> exists e :: e in tm.tagsByEntity && tm.tagsByEntity[e] == t
  {
    tm.tagsByEntity.Values
  }

  /** `deleted(e)`: drop the entity's reverse entry and, if it had one, the
      tag that entry names, whichever entity that tag now points at. */
  function Deleted(tm: TagManager, e: EntityId): (r: TagManager)
    ensures e !in r.tagsByEntity
    ensures e !in tm.tagsByEntity ==> r == tm
    ensures e in tm.tagsByEntity ==>
      !IsRegistered(r, tm.tagsByEntity[e])
      && (forall t :: t != tm.tagsByEntity[e] ==> GetEntity(r, t) == GetEntity(tm, t))
    ensures forall x :: x != e && x in tm.tagsByEntity ==>
      x in r.tagsByEntity && r.tagsByEntity[x] == tm.tagsByEntity[x]
    ensures e in tm.tagsByEntity ==> r.tagsByEntity == tm.tagsByEntity - {e}
  {
    if e in tm.tagsByEntity then
      var tag := tm.tagsByEntity[e];
      TagManager(tm.entitiesByTag - {tag}, tm.tagsByEntity - {e})
    else
      tm
  }

  /** With the maps paired, the registered tags are exactly the tags
      `getRegisteredTags` lists. */
  lemma RegisteredTagsArePairedTags(tm: TagManager)
    requires Paired(tm)
    ensures forall t :: t in GetRegisteredTags(tm) <==> IsRegistered(tm, t)
  {
    forall t | IsRegistered(tm, t) ensures t in GetRegisteredTags(tm) {
      var e := tm.entitiesByTag[t];
      assert e in tm.tagsByEntity && tm.tagsByEntity[e] == t;
    }
  }

  /** Registering an unused tag on an untagged entity, unregistering, and
      deleting all keep the maps paired. */
  lemma OperationsKeepPaired(tm: TagManager, tag: string, e: EntityId)
    requires Paired(tm)
    ensures tag !in tm.entitiesByTag && e !in tm.tagsByEntity ==> Paired(Register(tm, tag, e))
    ensures Paired(Unregister(tm, tag))
    ensures Paired(Deleted(tm, e))
  {
  }

  /** In a paired manager, deleting an entity unregisters exactly its tag,
      and unregistering a tag forgets exactly its entity: the two are
      inverse views of the same removal. */
  lemma DeleteIsUnregisterOfItsTag(tm: TagManager, e: EntityId)
    requires Paired(tm) && e in tm.tagsByEntity
    ensures Deleted(tm, e) == Unregister(tm, tm.tagsByEntity[e])
  {
  }

  /** Giving a tag to a second entity leaves the first entity's reverse
      entry behind, so the maps stop mirroring each other. */
  lemma ReRegisteringLeavesStaleReverseEntry(tag: string, e1: EntityId, e2: EntityId)
    requires e1 != e2
    ensures var tm := Register(Register(NewTagManager(), tag, e1), tag, e2);
            GetEntity(tm, tag) == Some(e2) && e1 in tm.tagsByEntity && tm.tagsByEntity[e1] == tag
            && !Paired(tm)
  {
  }

  /** ... and deleting that first entity then unregisters the tag, although
      the tag names the second entity. */
  lemma DeletingStaleEntityDropsNewerTag(tag: string, e1: EntityId, e2: EntityId)
    requires e1 != e2
    ensures var tm := Register(Register(NewTagManager(), tag, e1), tag, e2);
            !IsRegistered(Deleted(tm, e1), tag) && e2 in Deleted(tm, e1).tagsByEntity
  {
  }

  /** Giving an entity a second tag and then unregistering the first tag
      forgets the entity's reverse entry, although the second tag still
      names it. */
  lemma UnregisteringOldTagForgetsNewerTag(t1: string, t2: string, e: EntityId)
    requires t1 != t2
    ensures var tm := Register(Register(NewTagManager(), t1, e), t2, e);
            var r := Unregister(tm, t1);
            GetEntity(r, t2) == Some(e) && e !in r.tagsByEntity && t2 !in GetRegisteredTags(r)
  {
  }
}
