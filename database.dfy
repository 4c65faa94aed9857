/**
 * The backend's three tables as one mutable database, with the request handlers of
 * app.py that change them.  Each handler is proved to leave exactly the tables that
 * its specification in module Backend describes, and to keep the tables valid.
 */
module Store {
  import opened Common
  import opened Seqs
  import opened Backend

  class Database {
    var teams: seq<Team>
    var players: seq<Player>
    var transfers: seq<Transfer>

    ghost predicate Valid()
      reads this
    {
      ValidTables(teams, players, transfers)
    }

    constructor ()
      ensures Valid() && teams == [] && players == [] && transfers == []
    {
      teams, players, transfers := [], [], [];
    }

    /**
     * The find-or-create step: a scan for the first team with the name, else an insert
     * committed at once.
     */
    method FindOrCreateTeam(name: Value) returns (r: Result<int, ServerError>)
      modifies this`teams
      ensures r.Ok? ==> EnsureTeam(old(teams), name) == Ok((teams, r.value))
      ensures r.Err? ==> EnsureTeam(old(teams), name) == Err(r.error) && teams == old(teams)
    {
      var i := 0;
      while i < |teams|
        invariant 0 <= i <= |teams|
        invariant forall j :: 0 <= j < i ==> teams[j].name != name
      {
        if teams[i].name == name {
          assert FindTeam(teams, name) == Some(i);
          return Ok(teams[i].id);
        }
        i := i + 1;
      }
      assert FindTeam(teams, name).None?;
      if name == Null {
        return Err(IntegrityError("name"));
      }
      var id := NextId(TeamIds(teams));
      teams := teams + [Team(id, name, Null)];
      r := Ok(id);
    }

    /** POST /players. */
    method AddPlayer(data: Payload) returns (r: Result<int, ServerError>)
      requires Valid()
      modifies this`teams, this`players
      ensures Valid()
      ensures AddPlayerSpec(old(teams), old(players), data) == AddOutcome(r, teams, players)
    {
      AddPlayerKeepsValid(teams, players, transfers, data);
      if "team" !in data {
        return Err(KeyError("team"));
      }
      var team := FindOrCreateTeam(data["team"]);
      if team.Err? {
        return Err(team.error);
      }
      var player := NewPlayer(data, NextId(PlayerIds(players)), team.value);
      if player.Err? {
        return Err(player.error);
      }
      players := players + [player.value];
      r := Ok(player.value.id);
    }

    /** POST /transfers. */
    method AddTransfer(data: Payload) returns (r: Result<int, ServerError>)
      requires Valid()
      modifies this`teams, this`transfers
      ensures Valid()
      ensures AddTransferSpec(old(teams), old(transfers), data) == AddOutcome(r, teams, transfers)
    {
      AddTransferKeepsValid(teams, players, transfers, data);
      if "from_team" !in data {
        return Err(KeyError("from_team"));
      }
      var from := FindOrCreateTeam(data["from_team"]);
      if from.Err? {
        return Err(from.error);
      }
      if "to_team" !in data {
        return Err(KeyError("to_team"));
      }
      var to := FindOrCreateTeam(data["to_team"]);
      if to.Err? {
        return Err(to.error);
      }
      var transfer := NewTransfer(data, NextId(TransferIds(transfers)));
      if transfer.Err? {
        return Err(transfer.error);
      }
      transfers := transfers + [transfer.value];
      r := Ok(transfer.value.id);
    }

    /** PUT /players/<id>: never touches the team table. */
    method UpdatePlayer(playerId: int, data: Payload) returns (r: Result<(), ServerError>)
      requires Valid()
      modifies this`players
      ensures Valid()
      ensures UpdatePlayerSpec(teams, old(players), playerId, data) == UpdateOutcome(r, players)
    {
      UpdatePlayerKeepsValid(teams, players, transfers, playerId, data);
      r := ApplyPlayerUpdate(playerId, data);
    }

    /** `update_player` from the lookup to the commit. */
    method ApplyPlayerUpdate(playerId: int, data: Payload) returns (r: Result<(), ServerError>)
      modifies this`players
      ensures UpdatePlayerSpec(teams, old(players), playerId, data) == UpdateOutcome(r, players)
    {
      var found := FindPlayer(players, playerId);
      if found.None? {
        return Err(NotFound);
      }
      var i := found.value;
      var patched := PatchPlayer(players[i], data);
      if patched.Err? {
        return Err(patched.error);
      }
      players := players[i := patched.value];
      r := Ok(());
    }

    /**
     * The body of `update_player` on a found player: the team reassignment, the `setattr`
     * loop, the two dates, then the NOT NULL check of the commit.
     */
    method PatchPlayer(player: Player, data: Payload) returns (r: Result<Player, ServerError>)
      ensures r == PatchedPlayer(player, teams, data)
    {
      var teamId := ReassignedTeam(player.teamId, teams, data);
      var merged := CopyFields(player.attrs, data, Whitelist);
      var dated := PatchedDates(merged, data);
      if dated.Err? {
        return Err(dated.error);
      }
      var unfilled := FindFirst(NotNullColumns, NullIn(dated.value));
      if unfilled.Some? {
        return Err(IntegrityError(Key(NotNullColumns[unfilled.value])));
      }
      r := Ok(Player(player.id, teamId, dated.value));
    }

    /** PUT /teams/<id>. */
    method UpdateTeam(teamId: int, data: Payload) returns (r: Result<(), ServerError>)
      requires Valid()
      modifies this`teams
      ensures Valid()
      ensures UpdateTeamSpec(old(teams), teamId, data) == UpdateOutcome(r, teams)
    {
      UpdateTeamKeepsValid(teams, players, transfers, teamId, data);
      var found := FindTeamById(teams, teamId);
      if found.None? {
        return Err(NotFound);
      }
      var i := found.value;
      var patched := PatchedTeam(teams[i], data);
      if patched.Err? {
        return Err(patched.error);
      }
      teams := teams[i := patched.value];
      r := Ok(());
    }
  }
}
