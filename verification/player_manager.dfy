/** Players: each entity is owned by at most one player name, and every
    player has a roster bag of the entities it was given. */
module PlayerManagers {
  import opened Nullable
  import opened Bags
  import opened Entities

  type Player = string

  datatype PlayerManager = PlayerManager(
    playerByEntity: map<EntityId, Player>,
    entitiesByPlayer: map<Player, Bag<EntityId>>)

  function NewPlayerManager(): (pm: PlayerManager)
    ensures pm.playerByEntity == map[] && pm.entitiesByPlayer == map[]
  {
    PlayerManager(map[], map[])
  }

  /** `getPlayer(e)`: null for an entity no player owns. */
  function GetPlayer(pm: PlayerManager, e: EntityId): (r: Option<Player>)
    ensures r.Some? <==> e in pm.playerByEntity
    ensures r.Some? ==> r.value == pm.playerByEntity[e]
  {
    if e in pm.playerByEntity then Some(pm.playerByEntity[e]) else None
  }

  /** How often entity `e` occurs in the roster of player `p` (0 for an
      unknown player). */
  function CountIn(pm: PlayerManager, p: Player, e: EntityId): nat {
    if p in pm.entitiesByPlayer then Occurrences(pm.entitiesByPlayer[p], Some(e)) else 0
  }

  /** `setPlayer(e, player)`: record the owner and append the entity to the
      player's roster, creating the roster on first use. The previous owner's
      roster is left as it was. */
  function SetPlayer(pm: PlayerManager, e: EntityId, p: Player): (r: PlayerManager)
    ensures GetPlayer(r, e) == Some(p)
    ensures forall x :: x != e ==> GetPlayer(r, x) == GetPlayer(pm, x)
    ensures p in r.entitiesByPlayer
    ensures Live(r.entitiesByPlayer[p]) == Live(GetEntitiesOfPlayer(pm, p)) + [Some(e)]
    ensures r.entitiesByPlayer.Keys == pm.entitiesByPlayer.Keys + {p}
    ensures forall q :: q != p && q in pm.entitiesByPlayer ==> r.entitiesByPlayer[q] == pm.entitiesByPlayer[q]
  {
    var roster := if p in pm.entitiesByPlayer then pm.entitiesByPlayer[p] else NewBag();
    PlayerManager(pm.playerByEntity[e := p], pm.entitiesByPlayer[p := Add(roster, Some(e))])
  }

  /** `getEntitiesOfPlayer(player)`: the roster, or a fresh empty bag (not
      stored) for an unknown player. */
  function GetEntitiesOfPlayer(pm: PlayerManager, p: Player): (r: Bag<EntityId>)
    ensures p in pm.entitiesByPlayer ==> r == pm.entitiesByPlayer[p]
    ensures p !in pm.entitiesByPlayer ==> IsEmpty(r) && Capacity(r) == DEFAULT_CAPACITY
  {
    if p in pm.entitiesByPlayer then pm.entitiesByPlayer[p] else NewBag()
  }

  /** `removeFromPlayer(e)`: remove one occurrence of the entity from its
      owner's roster. The owner itself stays recorded. */
  function RemoveFromPlayer(pm: PlayerManager, e: EntityId): (r: PlayerManager)
    ensures r.playerByEntity == pm.playerByEntity
    ensures r.entitiesByPlayer.Keys == pm.entitiesByPlayer.Keys
    ensures e !in pm.playerByEntity ==> r == pm
    ensures e in pm.playerByEntity && pm.playerByEntity[e] in pm.entitiesByPlayer ==>
      var p := pm.playerByEntity[e];
      multiset(Live(r.entitiesByPlayer[p])) == multiset(Live(pm.entitiesByPlayer[p])) - multiset{Some(e)}
    ensures forall q :: q in pm.entitiesByPlayer && GetPlayer(pm, e) != Some(q) ==>
      r.entitiesByPlayer[q] == pm.entitiesByPlayer[q]
  {
    if e in pm.playerByEntity && pm.playerByEntity[e] in pm.entitiesByPlayer then
      var p := pm.playerByEntity[e];
      PlayerManager(pm.playerByEntity, pm.entitiesByPlayer[p := RemoveValue(pm.entitiesByPlayer[p], Some(e)).0])
    else
      pm
  }

  /** `deleted(e)`: exactly `removeFromPlayer(e)`. The entity leaves its
      owner's roster (one occurrence of it); every owner stays recorded, no
      roster appears or disappears, and no other count changes. */
  function Deleted(pm: PlayerManager, e: EntityId): (r: PlayerManager)
    ensures r == RemoveFromPlayer(pm, e)
    ensures r.playerByEntity == pm.playerByEntity
    ensures r.entitiesByPlayer.Keys == pm.entitiesByPlayer.Keys
    ensures forall p, x :: CountIn(r, p, x) == if x == e && GetPlayer(pm, e) == Some(p) && CountIn(pm, p, e) > 0
                                                then CountIn(pm, p, x) - 1 else CountIn(pm, p, x)
    ensures forall q :: q in pm.entitiesByPlayer && GetPlayer(pm, e) != Some(q) ==>
      r.entitiesByPlayer[q] == pm.entitiesByPlayer[q]
  {
    RemoveFromPlayerCounts(pm, e);
    RemoveFromPlayer(pm, e)
  }

  /** `removeFromPlayer(e)` lowers the count of `e` in its owner's roster by
      one, when it is there, and changes no other count. */
  lemma RemoveFromPlayerCounts(pm: PlayerManager, e: EntityId)
    ensures forall p, x :: CountIn(RemoveFromPlayer(pm, e), p, x)
                           == if x == e && GetPlayer(pm, e) == Some(p) && CountIn(pm, p, e) > 0
                              then CountIn(pm, p, x) - 1 else CountIn(pm, p, x)
  {
    forall p, x ensures CountIn(RemoveFromPlayer(pm, e), p, x)
                        == if x == e && GetPlayer(pm, e) == Some(p) && CountIn(pm, p, e) > 0
                           then CountIn(pm, p, x) - 1 else CountIn(pm, p, x)
    {
      RemoveFromPlayerCountAt(pm, e, p, x);
    }
  }

  lemma RemoveFromPlayerCountAt(pm: PlayerManager, e: EntityId, p: Player, x: EntityId)
    ensures CountIn(RemoveFromPlayer(pm, e), p, x)
            == if x == e && GetPlayer(pm, e) == Some(p) && CountIn(pm, p, e) > 0
               then CountIn(pm, p, x) - 1 else CountIn(pm, p, x)
  {
    if e in pm.playerByEntity && pm.playerByEntity[e] == p && p in pm.entitiesByPlayer {
      RemoveValueCounts(pm.entitiesByPlayer[p], Some(e));
    }
  }

  /** One call on the manager. */
  datatype PlayerOp =
    | SetPlayerOp(entity: EntityId, player: Player)
    | RemoveFromPlayerOp(entity: EntityId)
    | DeletedOp(entity: EntityId)

  function Apply(pm: PlayerManager, op: PlayerOp): PlayerManager {
    match op
    case SetPlayerOp(x, q) => SetPlayer(pm, x, q)
    case RemoveFromPlayerOp(x) => RemoveFromPlayer(pm, x)
    case DeletedOp(x) => Deleted(pm, x)
  }

  /** The manager after applying `ops` in order. */
  function ApplyAll(pm: PlayerManager, ops: seq<PlayerOp>): PlayerManager
    decreases |ops|
  {
    if ops == [] then pm else Apply(ApplyAll(pm, ops[..|ops| - 1]), ops[|ops| - 1])
  }

  /** Each entity has one owner: the player of its latest `setPlayer`,
      whatever calls follow, short of another `setPlayer` of the same entity
      (removals and deletions of it included). */
  lemma {:induction false} OwnerIsLatestSetPlayer(pm: PlayerManager, e: EntityId, p: Player, ops: seq<PlayerOp>)
    requires forall k :: 0 <= k < |ops| ==> !(ops[k].SetPlayerOp? && ops[k].entity == e)
    ensures GetPlayer(ApplyAll(SetPlayer(pm, e, p), ops), e) == Some(p)
    decreases |ops|
  {
    if ops != [] {
      var init := ops[..|ops| - 1];
      assert forall k :: 0 <= k < |init| ==> init[k] == ops[k];
      OwnerIsLatestSetPlayer(pm, e, p, init);
    }
  }

  /** Handing an entity to a new player leaves it on the old player's
      roster: `setPlayer` does not purge the previous owner. */
  lemma SetPlayerKeepsOldRoster(pm: PlayerManager, e: EntityId, p: Player, q: Player)
    requires p != q
    ensures var r := SetPlayer(SetPlayer(pm, e, p), e, q);
            GetPlayer(r, e) == Some(q) && CountIn(r, p, e) == CountIn(pm, p, e) + 1
            && CountIn(r, q, e) == CountIn(pm, q, e) + 1
  {
    var first := SetPlayer(pm, e, p);
    var r := SetPlayer(first, e, q);
    AddCounts(GetEntitiesOfPlayer(pm, p), Some(e));
    AddCounts(GetEntitiesOfPlayer(first, q), Some(e));
    assert CountIn(pm, p, e) == Occurrences(GetEntitiesOfPlayer(pm, p), Some(e));
    assert CountIn(first, q, e) == CountIn(pm, q, e);
    assert CountIn(first, q, e) == Occurrences(GetEntitiesOfPlayer(first, q), Some(e));
  }

  /** `removeFromPlayer` undoes the roster half of `setPlayer`: afterwards
      the roster holds what it held before (as a multiset), while the entity
      keeps its recorded owner. */
  lemma RemoveFromPlayerUndoesRoster(pm: PlayerManager, e: EntityId, p: Player)
    ensures var r := RemoveFromPlayer(SetPlayer(pm, e, p), e);
            GetPlayer(r, e) == Some(p)
            && multiset(Live(r.entitiesByPlayer[p])) == multiset(Live(GetEntitiesOfPlayer(pm, p)))
  {
    var set1 := SetPlayer(pm, e, p);
    assert multiset(Live(set1.entitiesByPlayer[p])) == multiset(Live(GetEntitiesOfPlayer(pm, p))) + multiset{Some(e)};
  }

  /** Looking up an unknown player registers nothing: the manager is a value
      and `getEntitiesOfPlayer` returns only a bag, so a later `setPlayer`
      for that player still starts from an empty roster. */
  lemma UnknownPlayerStartsEmpty(pm: PlayerManager, e: EntityId, p: Player)
    requires p !in pm.entitiesByPlayer
    ensures IsEmpty(GetEntitiesOfPlayer(pm, p))
    ensures Live(SetPlayer(pm, e, p).entitiesByPlayer[p]) == [Some(e)]
  {
  }
}
