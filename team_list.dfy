/**
 * The team list view (src/components/TeamList.js): after a successful delete the list
 * held in state is patched locally with `filter` instead of being fetched again.
 */
module TeamList {
  import opened Common
  import opened Seqs
  import opened Api

  const LoadError := "Failed to load teams. Please try again later."
  const DeleteError := "Failed to delete team. Please try again."

  function KeepOtherIds(teamId: int): TeamRow -> bool
  {
    (t: TeamRow) => t.id != teamId
  }

  /** `teams.filter(team => team.id !== teamId)`. */
  function RemoveById(teams: seq<TeamRow>, teamId: int): (r: seq<TeamRow>)
    ensures forall t :: t in r ==> t.id != teamId
    ensures forall t :: t in teams && t.id != teamId ==> t in r
    ensures IsSubsequence(r, teams)
  {
    Filter(teams, KeepOtherIds(teamId))
  }

  /** The number of entries carrying `teamId`. */
  function CountWithId(teams: seq<TeamRow>, teamId: int): nat
  {
    if teams == [] then 0
    else (if teams[0].id == teamId then 1 else 0) + CountWithId(teams[1..], teamId)
  }

  /** The patched list is shorter by exactly the number of entries with that id. */
  lemma {:induction false} RemoveByIdLength(teams: seq<TeamRow>, teamId: int)
    ensures |RemoveById(teams, teamId)| == |teams| - CountWithId(teams, teamId)
  {
    if teams != [] {
      RemoveByIdLength(teams[1..], teamId);
    }
  }

  /** Removing an id that is not present leaves the list as it was. */
  lemma RemoveAbsentId(teams: seq<TeamRow>, teamId: int)
    requires forall t :: t in teams ==> t.id != teamId
    ensures RemoveById(teams, teamId) == teams
  {
    FilterKeepsAll(teams, KeepOtherIds(teamId));
  }

  /** Removing the same id twice is removing it once. */
  lemma RemoveByIdTwice(teams: seq<TeamRow>, teamId: int)
    ensures RemoveById(RemoveById(teams, teamId), teamId) == RemoveById(teams, teamId)
  {
    FilterIdempotent(teams, KeepOtherIds(teamId));
  }

  /** What the component renders. */
  datatype Screen = Spinner | ErrorMessage(text: string) | Table(rows: seq<TeamRow>)

  class TeamListView {
    var teams: seq<TeamRow>
    var loading: bool
    var error: Option<string>
    /** The API calls issued so far, oldest first. */
    var requests: seq<Call>

    constructor ()
      ensures teams == [] && loading && error == None && requests == []
    {
      teams, loading, error, requests := [], true, None, [];
    }

    /** The spinner while loading, else only the error once one is set, else the table. */
    function Render(): (screen: Screen)
      reads this
      ensures screen == Spinner <==> loading
      ensures screen.ErrorMessage? <==> !loading && error.Some?
      ensures screen.Table? ==> screen.rows == teams && error.None?
    {
      if loading then Spinner
      else if error.Some? then ErrorMessage(error.value)
      else Table(teams)
    }

    /** The mount-time fetch; a failure sets the error and a success does not clear one. */
    method FetchTeams(outcome: Option<seq<TeamRow>>)
      modifies this
      ensures requests == old(requests) + [GetTeams] && !loading
      ensures outcome.Some? ==> teams == outcome.value && error == old(error)
      ensures outcome.None? ==> teams == old(teams) && error == Some(LoadError)
    {
      loading := true;
      requests := requests + [GetTeams];
      match outcome {
        case Some(data) => teams := data;
        case None => error := Some(LoadError);
      }
      loading := false;
    }

    /**
     * `handleDelete`: `deleted` is the outcome of the DELETE call.  On success the list is
     * patched locally; on failure it is kept and the error replaces the table.
     */
    method HandleDelete(teamId: int, deleted: bool)
      modifies this`teams, this`error, this`requests
      ensures requests == old(requests) + [DeleteTeam(teamId)]
      ensures deleted ==> teams == RemoveById(old(teams), teamId) && error == old(error)
      ensures deleted ==> |teams| == |old(teams)| - CountWithId(old(teams), teamId)
      ensures !deleted ==> teams == old(teams) && error == Some(DeleteError)
      ensures !deleted && !loading ==> Render() == ErrorMessage(DeleteError)
    {
      requests := requests + [DeleteTeam(teamId)];
      if deleted {
        RemoveByIdLength(teams, teamId);
        teams := RemoveById(teams, teamId);
      } else {
        error := Some(DeleteError);
      }
    }
  }
}
