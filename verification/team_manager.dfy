/** Teams: each player belongs to at most one team; every team has a roster
    bag of its players. Players and teams are named by strings, and a
    roster compares players by value. */
module TeamManagers {
  import opened Nullable
  import opened Bags

  type Player = string
  type Team = string

  datatype TeamManager = TeamManager(playersByTeam: map<Team, Bag<Player>>, teamByPlayer: map<Player, Team>)

  function NewTeamManager(): (tm: TeamManager)
    ensures Rostered(tm) && tm.playersByTeam == map[] && tm.teamByPlayer == map[]
  {
    TeamManager(map[], map[])
  }

  /** `getTeam(player)`: null for a player with no team. */
  function GetTeam(tm: TeamManager, p: Player): (r: Option<Team>)
    ensures r.Some? <==> p in tm.teamByPlayer
    ensures r.Some? ==> r.value == tm.teamByPlayer[p]
  {
    if p in tm.teamByPlayer then Some(tm.teamByPlayer[p]) else None
  }

  /** `getPlayers(team)`: the roster, or null for a team never set. */
  function GetPlayers(tm: TeamManager, t: Team): (r: Option<Bag<Player>>)
    ensures r.Some? <==> t in tm.playersByTeam
    ensures r.Some? ==> r.value == tm.playersByTeam[t]
  {
    if t in tm.playersByTeam then Some(tm.playersByTeam[t]) else None
  }

  /** How often `p` occurs in the roster of `t` (0 for a team never set). */
  function CountIn(tm: TeamManager, t: Team, p: Player): nat {
    if t in tm.playersByTeam then Occurrences(tm.playersByTeam[t], Some(p)) else 0
  }

  /** The rosters agree with the team map: a player occurs exactly once in
      the roster of its team and nowhere else, every player's team has a
      roster, and no roster holds null. */
  ghost predicate Rostered(tm: TeamManager) {
    && (forall p :: p in tm.teamByPlayer ==> tm.teamByPlayer[p] in tm.playersByTeam)
    && (forall t, p :: CountIn(tm, t, p) == if GetTeam(tm, p) == Some(t) then 1 else 0)
    && (forall t :: t in tm.playersByTeam ==> Occurrences(tm.playersByTeam[t], None) == 0)
  }

  /** `removeFromTeam(player)`: forget the player's team and remove one
      occurrence of the player from that team's roster, if there is one. */
  function RemoveFromTeam(tm: TeamManager, p: Player): (r: TeamManager)
    ensures GetTeam(r, p) == None
    ensures p !in tm.teamByPlayer ==> r == tm
    ensures forall q :: q != p ==> GetTeam(r, q) == GetTeam(tm, q)
    ensures r.playersByTeam.Keys == tm.playersByTeam.Keys
    ensures forall u :: u in tm.playersByTeam && GetTeam(tm, p) != Some(u) ==>
      r.playersByTeam[u] == tm.playersByTeam[u]
    ensures GetTeam(tm, p).Some? && GetTeam(tm, p).value in tm.playersByTeam ==>
      var was := GetTeam(tm, p).value;
      r.playersByTeam[was] == RemoveValue(tm.playersByTeam[was], Some(p)).0
  {
    if p in tm.teamByPlayer then
      Unroster(TeamManager(tm.playersByTeam, tm.teamByPlayer - {p}), tm.teamByPlayer[p], p)
    else
      tm
  }

  /** The roster half of `removeFromTeam`: remove one occurrence of the
      player from team `t`'s roster, if that roster exists; the team map and
      every other roster are left as they were. */
  function Unroster(tm: TeamManager, t: Team, p: Player): (r: TeamManager)
    ensures r.teamByPlayer == tm.teamByPlayer
    ensures r.playersByTeam.Keys == tm.playersByTeam.Keys
    ensures forall u :: u in tm.playersByTeam && u != t ==> r.playersByTeam[u] == tm.playersByTeam[u]
    ensures t in tm.playersByTeam ==> r.playersByTeam[t] == RemoveValue(tm.playersByTeam[t], Some(p)).0
  {
    if t in tm.playersByTeam then
      TeamManager(tm.playersByTeam[t := RemoveValue(tm.playersByTeam[t], Some(p)).0], tm.teamByPlayer)
    else
      tm
  }

  /** `setTeam(player, team)`: take the player off its old team, then
      enroll it in the new one. */
  function SetTeam(tm: TeamManager, p: Player, t: Team): (r: TeamManager)
    ensures GetTeam(r, p) == Some(t)
    ensures t in r.playersByTeam && Contains(r.playersByTeam[t], Some(p))
    ensures forall q :: q != p ==> GetTeam(r, q) == GetTeam(tm, q)
    ensures r.playersByTeam.Keys == tm.playersByTeam.Keys + {t}
    ensures forall u :: u != t && u in tm.playersByTeam && GetTeam(tm, p) != Some(u) ==>
      r.playersByTeam[u] == tm.playersByTeam[u]
  {
    Enroll(RemoveFromTeam(tm, p), p, t)
  }

  /** The second half of `setTeam`: record the team and append the player
      to that team's roster, creating the roster on first use; every other
      roster is left as it was. */
  function Enroll(tm: TeamManager, p: Player, t: Team): (r: TeamManager)
    ensures GetTeam(r, p) == Some(t)
    ensures t in r.playersByTeam && Contains(r.playersByTeam[t], Some(p))
    ensures forall q :: q != p ==> GetTeam(r, q) == GetTeam(tm, q)
    ensures r.playersByTeam.Keys == tm.playersByTeam.Keys + {t}
    ensures Live(r.playersByTeam[t])
            == (if t in tm.playersByTeam then Live(tm.playersByTeam[t]) else []) + [Some(p)]
    ensures forall u :: u != t && u in tm.playersByTeam ==> r.playersByTeam[u] == tm.playersByTeam[u]
  {
    var roster := if t in tm.playersByTeam then tm.playersByTeam[t] else NewBag();
    var roster' := Add(roster, Some(p));
    assert Live(roster') == Live(roster) + [Some(p)];
    TeamManager(tm.playersByTeam[t := roster'], tm.teamByPlayer[p := t])
  }

  /** Enrolling adds one occurrence of the player to the new team's roster
      and changes no other count, null included. */
  lemma EnrollCountAt(tm: TeamManager, p: Player, t: Team, u: Team, x: Option<Player>)
    ensures var r := Enroll(tm, p, t);
            u in r.playersByTeam ==>
              Occurrences(r.playersByTeam[u], x)
              == (if x == Some(p) && u == t then 1 else 0)
                 + (if u in tm.playersByTeam then Occurrences(tm.playersByTeam[u], x) else 0)
  {
    var r := Enroll(tm, p, t);
    if u == t {
      var roster := if t in tm.playersByTeam then tm.playersByTeam[t] else NewBag();
      AddCounts(roster, Some(p));
      assert r.playersByTeam[t] == Add(roster, Some(p));
      assert t !in tm.playersByTeam ==> Live(roster) == [];
    } else if u in r.playersByTeam {
      assert r.playersByTeam[u] == tm.playersByTeam[u];
    }
  }

  /** `removeFromTeam(p)` takes one occurrence of `p` off the roster of its
      old team and changes no other count; the null count stays as it was. */
  lemma RemoveFromTeamCounts(tm: TeamManager, p: Player)
    ensures forall t, q ::
              CountIn(RemoveFromTeam(tm, p), t, q)
              == if q == p && GetTeam(tm, p) == Some(t) && CountIn(tm, t, p) > 0
                 then CountIn(tm, t, q) - 1 else CountIn(tm, t, q)
    ensures forall t :: t in tm.playersByTeam ==>
              Occurrences(RemoveFromTeam(tm, p).playersByTeam[t], None)
              == Occurrences(tm.playersByTeam[t], None)
  {
    forall t, q ensures CountIn(RemoveFromTeam(tm, p), t, q)
                        == if q == p && GetTeam(tm, p) == Some(t) && CountIn(tm, t, p) > 0
                           then CountIn(tm, t, q) - 1 else CountIn(tm, t, q)
    {
      if t in tm.playersByTeam {
        RemoveFromTeamCountAt(tm, p, t, Some(q));
      }
    }
    forall t | t in tm.playersByTeam
      ensures Occurrences(RemoveFromTeam(tm, p).playersByTeam[t], None) == Occurrences(tm.playersByTeam[t], None)
    {
      RemoveFromTeamCountAt(tm, p, t, None);
    }
  }

  /** One roster count after `removeFromTeam(p)`; `x` is a player or null. */
  lemma RemoveFromTeamCountAt(tm: TeamManager, p: Player, t: Team, x: Option<Player>)
    requires t in tm.playersByTeam
    ensures t in RemoveFromTeam(tm, p).playersByTeam
    ensures Occurrences(RemoveFromTeam(tm, p).playersByTeam[t], x)
            == if x == Some(p) && GetTeam(tm, p) == Some(t) && Occurrences(tm.playersByTeam[t], x) > 0
               then Occurrences(tm.playersByTeam[t], x) - 1 else Occurrences(tm.playersByTeam[t], x)
  {
    if p in tm.teamByPlayer && tm.teamByPlayer[p] == t {
      RemoveValueCounts(tm.playersByTeam[t], Some(p));
    }
  }

  /** `setTeam(p, t)` is `removeFromTeam(p)` followed by one more
      occurrence of `p` on the roster of `t`; no other count changes. */
  lemma SetTeamCounts(tm: TeamManager, p: Player, t: Team)
    ensures forall u, q ::
              CountIn(SetTeam(tm, p, t), u, q)
              == (if q == p && u == t then 1 else 0) + CountIn(RemoveFromTeam(tm, p), u, q)
  {
    var cleared := RemoveFromTeam(tm, p);
    forall u, q ensures CountIn(Enroll(cleared, p, t), u, q)
                        == (if q == p && u == t then 1 else 0) + CountIn(cleared, u, q)
    {
      EnrollCountAt(cleared, p, t, u, Some(q));
    }
  }

  /** `removeFromTeam` keeps the rosters in agreement with the team map. */
  lemma RemoveFromTeamKeepsRostered(tm: TeamManager, p: Player)
    requires Rostered(tm)
    ensures Rostered(RemoveFromTeam(tm, p))
    ensures forall t :: CountIn(RemoveFromTeam(tm, p), t, p) == 0
  {
    RemoveKeepsCounts(tm, p);
    RemoveKeepsNullFree(tm, p);
    var r := RemoveFromTeam(tm, p);
    forall q | q in r.teamByPlayer ensures r.teamByPlayer[q] in r.playersByTeam {
      assert GetTeam(r, q) == GetTeam(tm, q);
    }
  }

  lemma RemoveKeepsCounts(tm: TeamManager, p: Player)
    requires forall t, q :: CountIn(tm, t, q) == if GetTeam(tm, q) == Some(t) then 1 else 0
    ensures forall t, q :: CountIn(RemoveFromTeam(tm, p), t, q)
                           == if GetTeam(RemoveFromTeam(tm, p), q) == Some(t) then 1 else 0
  {
    forall t, q ensures CountIn(RemoveFromTeam(tm, p), t, q)
                        == if GetTeam(RemoveFromTeam(tm, p), q) == Some(t) then 1 else 0
    {
      RemoveKeepsCountAt(tm, p, t, q);
    }
  }

  lemma RemoveKeepsNullFree(tm: TeamManager, p: Player)
    requires forall t :: t in tm.playersByTeam ==> Occurrences(tm.playersByTeam[t], None) == 0
    ensures forall t :: t in RemoveFromTeam(tm, p).playersByTeam ==>
              Occurrences(RemoveFromTeam(tm, p).playersByTeam[t], None) == 0
  {
    forall t | t in RemoveFromTeam(tm, p).playersByTeam
      ensures Occurrences(RemoveFromTeam(tm, p).playersByTeam[t], None) == 0
    {
      RemoveFromTeamCountAt(tm, p, t, None);
    }
  }

  /** One roster count after `removeFromTeam`, given the invariant at that
      point before. */
  lemma RemoveKeepsCountAt(tm: TeamManager, p: Player, t: Team, q: Player)
    requires CountIn(tm, t, q) == if GetTeam(tm, q) == Some(t) then 1 else 0
    ensures CountIn(RemoveFromTeam(tm, p), t, q)
            == if GetTeam(RemoveFromTeam(tm, p), q) == Some(t) then 1 else 0
  {
    if t in tm.playersByTeam {
      RemoveFromTeamCountAt(tm, p, t, Some(q));
    }
  }

  /** `setTeam` keeps the rosters in agreement with the team map: the
      player ends up exactly once, in its new team's roster. */
  lemma SetTeamKeepsRostered(tm: TeamManager, p: Player, t: Team)
    requires Rostered(tm)
    ensures Rostered(SetTeam(tm, p, t))
    ensures forall u :: CountIn(SetTeam(tm, p, t), u, p) == if u == t then 1 else 0
  {
    RemoveFromTeamKeepsRostered(tm, p);
    EnrollKeepsRostered(RemoveFromTeam(tm, p), p, t);
  }

  /** Enrolling a player that is on no roster keeps the rosters in
      agreement with the team map. */
  lemma EnrollKeepsRostered(tm: TeamManager, p: Player, t: Team)
    requires Rostered(tm) && GetTeam(tm, p) == None
    ensures Rostered(Enroll(tm, p, t))
    ensures forall u :: CountIn(Enroll(tm, p, t), u, p) == if u == t then 1 else 0
  {
    EnrollKeepsCounts(tm, p, t);
    EnrollKeepsNullFree(tm, p, t);
  }

  lemma EnrollKeepsCounts(tm: TeamManager, p: Player, t: Team)
    requires GetTeam(tm, p) == None
    requires forall u, q :: CountIn(tm, u, q) == if GetTeam(tm, q) == Some(u) then 1 else 0
    ensures forall u, q :: CountIn(Enroll(tm, p, t), u, q)
                           == if GetTeam(Enroll(tm, p, t), q) == Some(u) then 1 else 0
  {
    forall u, q ensures CountIn(Enroll(tm, p, t), u, q)
                        == if GetTeam(Enroll(tm, p, t), q) == Some(u) then 1 else 0
    {
      EnrollKeepsCountAt(tm, p, t, u, q);
    }
  }

  lemma EnrollKeepsNullFree(tm: TeamManager, p: Player, t: Team)
    requires forall u :: u in tm.playersByTeam ==> Occurrences(tm.playersByTeam[u], None) == 0
    ensures forall u :: u in Enroll(tm, p, t).playersByTeam ==>
              Occurrences(Enroll(tm, p, t).playersByTeam[u], None) == 0
  {
    forall u | u in Enroll(tm, p, t).playersByTeam
      ensures Occurrences(Enroll(tm, p, t).playersByTeam[u], None) == 0
    {
      EnrollCountAt(tm, p, t, u, None);
    }
  }

  /** One roster count after enrolling, given the invariant at that point
      before. */
  lemma EnrollKeepsCountAt(tm: TeamManager, p: Player, t: Team, u: Team, q: Player)
    requires GetTeam(tm, p) == None
    requires CountIn(tm, u, q) == if GetTeam(tm, q) == Some(u) then 1 else 0
    ensures CountIn(Enroll(tm, p, t), u, q) == if GetTeam(Enroll(tm, p, t), q) == Some(u) then 1 else 0
  {
    EnrollCountAt(tm, p, t, u, Some(q));
    assert u in tm.playersByTeam ==> u in Enroll(tm, p, t).playersByTeam;
  }

  /** Moving a player from one team to another takes it off the old roster:
      the player is then on the new roster only. */
  lemma SwitchingTeamsLeavesOldRoster(tm: TeamManager, p: Player, from: Team, to: Team)
    requires Rostered(tm) && GetTeam(tm, p) == Some(from) && from != to
    ensures var r := SetTeam(tm, p, to);
            CountIn(r, from, p) == 0 && CountIn(r, to, p) == 1
            && CountIn(r, from, p) == CountIn(tm, from, p) - 1
  {
    SetTeamKeepsRostered(tm, p, to);
  }
}
