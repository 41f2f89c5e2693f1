/** `TeamRepository`: the team collection and its membership updates. */
module Teams {
  import opened Wrappers
  import opened Queries

  datatype Team = Team(
    id: string,
    title: string,
    description: string,
    leader: string,
    members: seq<string>,
    projectId: string)

  /** Position of the first team with this id: the document that
      `ReplaceOne`, `DeleteOne` and `FindOneAndUpdate` act on. */
  function IdIndex(teams: seq<Team>, id: string): Option<nat>
  {
    FirstIndex(teams, (t: Team) => t.id == id)
  }

  /** Position of the first team with this id that does not yet list
      `username`: the document `AddMemberAsync`'s combined filter matches. */
  function AddTarget(teams: seq<Team>, id: string, username: string): Option<nat>
  {
    FirstIndex(teams, (t: Team) => t.id == id && username !in t.members)
  }

  /** No two teams share an id, as the store's `_id` index guarantees. */
  ghost predicate UniqueIds(teams: seq<Team>)
  {
    forall i, j :: 0 <= i < j < |teams| ==> teams[i].id != teams[j].id
  }

  class TeamRepository {
    var teams: seq<Team>

    constructor ()
      ensures teams == []
    {
      teams := [];
    }

    /** `CreateAsync`: insert the team and hand it back. */
    method Create(team: Team) returns (created: Team)
      modifies this
      ensures created == team
      ensures teams == old(teams) + [team]
    {
      teams := teams + [team];
      created := team;
    }

    /** `GetAllAsync`: every stored team, in collection order. */
    method GetAll() returns (r: seq<Team>)
      ensures r == teams
    {
      r := teams;
    }

    /** `GetByIdAsync`: the first team with this id, or none. */
    method GetById(id: string) returns (r: Option<Team>)
      ensures r.None? <==> forall t :: t in teams ==> t.id != id
      ensures r.Some? ==> r.value in teams && r.value.id == id
      ensures r.Some? ==> IdIndex(teams, id).Some? && r.value == teams[IdIndex(teams, id).value]
    {
      var k := IdIndex(teams, id);
      if k.Some? {
        r := Some(teams[k.value]);
      } else {
        r := None;
        forall t | t in teams ensures t.id != id {
          var i :| 0 <= i < |teams| && teams[i] == t;
        }
      }
    }

    /** `GetByProjectIdAsync`: every team of this project, each as often as
        it is stored. */
    method GetByProjectId(projectId: string) returns (r: seq<Team>)
      ensures r == Filter(teams, (t: Team) => t.projectId == projectId)
      ensures forall t :: t in r ==> t in teams && t.projectId == projectId
      ensures forall t :: t in teams && t.projectId == projectId ==> t in r
      ensures forall t :: t in teams && t.projectId == projectId ==> multiset(r)[t] == multiset(teams)[t]
    {
      r := Filter(teams, (t: Team) => t.projectId == projectId);
    }

    /** `GetByMemberAsync`: every team whose member list contains
        `username`, each as often as it is stored. */
    method GetByMember(username: string) returns (r: seq<Team>)
      ensures r == Filter(teams, (t: Team) => username in t.members)
      ensures forall t :: t in r ==> t in teams && username in t.members
      ensures forall t :: t in teams && username in t.members ==> t in r
      ensures forall t :: t in teams && username in t.members ==> multiset(r)[t] == multiset(teams)[t]
    {
      r := Filter(teams, (t: Team) => username in t.members);
    }

    /** `UpdateAsync`: replace the whole first team with this id and return
        the replacement; when no team has the id, return none and change
        nothing. */
    method Update(id: string, team: Team) returns (r: Option<Team>)
      modifies this
      ensures r.None? <==> forall t :: t in old(teams) ==> t.id != id
      ensures r.None? ==> teams == old(teams)
      ensures r.Some? ==> r.value == team && IdIndex(old(teams), id).Some?
      ensures r.Some? ==> teams == old(teams)[IdIndex(old(teams), id).value := team]
    {
      var k := IdIndex(teams, id);
      if k.Some? {
        teams := teams[k.value := team];
        r := Some(team);
      } else {
        r := None;
        forall t | t in teams ensures t.id != id {
          var i :| 0 <= i < |teams| && teams[i] == t;
        }
      }
    }

    /** `DeleteAsync`: remove the first team with this id and say whether
        there was one. With unique ids no team with that id remains. */
    method Delete(id: string) returns (deleted: bool)
      modifies this
      ensures deleted <==> exists t :: t in old(teams) && t.id == id
      ensures !deleted ==> teams == old(teams)
      ensures deleted ==> (IdIndex(old(teams), id).Some? &&
        var k := IdIndex(old(teams), id).value;
        teams == old(teams)[..k] + old(teams)[k + 1..])
      ensures UniqueIds(old(teams)) ==> UniqueIds(teams) && forall t :: t in teams ==> t.id != id
    {
      var k := IdIndex(teams, id);
      if k.Some? {
        var i := k.value;
        assert teams[i] in teams;
        forall t | t in teams[..i] + teams[i + 1..] && UniqueIds(teams)
          ensures t.id != id
        {
          var j :| 0 <= j < |teams[..i] + teams[i + 1..]| && (teams[..i] + teams[i + 1..])[j] == t;
          if j < i { assert t == teams[j]; } else { assert t == teams[j + 1]; }
        }
        teams := teams[..i] + teams[i + 1..];
        deleted := true;
      } else {
        deleted := false;
        forall t | t in teams ensures t.id != id {
          var i :| 0 <= i < |teams| && teams[i] == t;
        }
      }
    }

    /** `SetLeaderAsync`: set only the leader of the first team with this id
        (it need not be a member) and return the updated team; none, and no
        change, when no team has the id. */
    method SetLeader(id: string, leaderUsername: string) returns (r: Option<Team>)
      modifies this
      ensures r.None? <==> forall t :: t in old(teams) ==> t.id != id
      ensures r.None? ==> teams == old(teams)
      ensures r.Some? ==> (IdIndex(old(teams), id).Some? &&
        var k := IdIndex(old(teams), id).value;
        && r.value == old(teams)[k].(leader := leaderUsername)
        && r.value.members == old(teams)[k].members
        && teams == old(teams)[k := r.value])
    {
      var k := IdIndex(teams, id);
      if k.Some? {
        var updated := teams[k.value].(leader := leaderUsername);
        teams := teams[k.value := updated];
        r := Some(updated);
      } else {
        r := None;
        forall t | t in teams ensures t.id != id {
          var i :| 0 <= i < |teams| && teams[i] == t;
        }
      }
    }

    /** `AddMemberAsync`: append `username` to the first team with this id
        that does not list it yet and return that team as updated; when
        there is none, change nothing and return the current team with
        this id (none for an unknown id). */
    method AddMember(id: string, username: string) returns (r: Option<Team>)
      modifies this
      ensures r.None? <==> forall t :: t in old(teams) ==> t.id != id
      ensures r.Some? ==> r.value.id == id && username in r.value.members
      ensures AddTarget(old(teams), id, username).Some? ==>
        var k := AddTarget(old(teams), id, username).value;
        && r == Some(old(teams)[k].(members := old(teams)[k].members + [username]))
        && teams == old(teams)[k := r.value]
      ensures AddTarget(old(teams), id, username).None? ==>
        teams == old(teams) && (r.None? || r.value == old(teams)[IdIndex(old(teams), id).value])
      ensures (forall t :: t in old(teams) && t.id == id ==> username in t.members) ==> teams == old(teams)
      ensures |teams| == |old(teams)|
      ensures forall i :: 0 <= i < |teams| && username in old(teams)[i].members ==> teams[i] == old(teams)[i]
      ensures forall i :: 0 <= i < |teams| && teams[i] != old(teams)[i] ==>
        multiset(teams[i].members)[username] == 1
    {
      var target := AddTarget(teams, id, username);
      if target.Some? {
        var k := target.value;
        var updated := teams[k].(members := teams[k].members + [username]);
        teams := teams[k := updated];
        r := Some(updated);
      } else {
        forall t | t in teams && t.id == id ensures username in t.members {
          var i :| 0 <= i < |teams| && teams[i] == t;
        }
        r := GetById(id);
      }
    }

    /** `RemoveMemberAsync`: pull every occurrence of `username` from the
        first team with this id, keeping the other members in order, and
        return the updated team; none, and no change, for an unknown id. */
    method RemoveMember(id: string, username: string) returns (r: Option<Team>)
      modifies this
      ensures r.None? <==> forall t :: t in old(teams) ==> t.id != id
      ensures r.None? ==> teams == old(teams)
      ensures r.Some? ==> (IdIndex(old(teams), id).Some? &&
        var k := IdIndex(old(teams), id).value;
        && r.value == old(teams)[k].(members := RemoveAll(old(teams)[k].members, username))
        && username !in r.value.members
        && teams == old(teams)[k := r.value])
    {
      var k := IdIndex(teams, id);
      if k.Some? {
        var updated := teams[k.value].(members := RemoveAll(teams[k.value].members, username));
        teams := teams[k.value := updated];
        r := Some(updated);
      } else {
        r := None;
        forall t | t in teams ensures t.id != id {
          var i :| 0 <= i < |teams| && teams[i] == t;
        }
      }
    }
  }

  /** Adding a member twice is the same as adding it once: the second call
      changes nothing and returns the same team. */
  method AddMemberTwice(repo: TeamRepository, id: string, username: string)
      returns (first: Option<Team>, second: Option<Team>, ghost afterFirst: seq<Team>)
    requires UniqueIds(repo.teams)
    modifies repo
    ensures second == first && repo.teams == afterFirst
    ensures first.Some? ==> username in first.value.members
  {
    first := repo.AddMember(id, username);
    afterFirst := repo.teams;
    second := repo.AddMember(id, username);
  }
}
