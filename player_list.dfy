/**
 * The player list view (src/components/PlayerList.js): the conjunctive search/position/team
 * filter over the fetched players, the team-logo lookup, and the two-phase delete.
 */
module PlayerList {
  import opened Common
  import opened Text
  import opened Seqs
  import opened Api

  /** The sentinel value of the position and team drop-downs that disables that filter. */
  const All := "All"

  const LoadError := "Failed to load data. Please try again."
  const DeleteError := "Failed to delete player. Please try again."

  /** The three filter inputs of the view. */
  datatype Criteria = Criteria(searchTerm: string, position: string, team: string)

  /** The filter inputs when the view is first shown. */
  const InitialCriteria := Criteria("", All, All)

  predicate MatchesSearch(p: PlayerRow, term: string)
  {
    Contains(Lower(p.name), Lower(term))
  }

  predicate MatchesPosition(p: PlayerRow, position: string)
  {
    position == All || p.position == position
  }

  predicate MatchesTeam(p: PlayerRow, team: string)
  {
    team == All || p.team == team
  }

  predicate Matches(p: PlayerRow, c: Criteria)
  {
    MatchesSearch(p, c.searchTerm) && MatchesPosition(p, c.position) && MatchesTeam(p, c.team)
  }

  function KeepMatching(c: Criteria): PlayerRow -> bool
  {
    (p: PlayerRow) => Matches(p, c)
  }

  /**
   * `filterData`: the players to show.  The result only drops players, never reorders them,
   * and keeps a player exactly when its lowered name contains the lowered search term, the
   * position filter is "All" or equal to its position, and the team filter is "All" or equal
   * to its team.  A kept player appears as many times as in the fetched list.
   */
  function FilterData(data: seq<PlayerRow>, c: Criteria): (r: seq<PlayerRow>)
    ensures IsSubsequence(r, data)
    ensures forall p :: p in r <==>
      && p in data
      && Contains(Lower(p.name), Lower(c.searchTerm))
      && (c.position == All || p.position == c.position)
      && (c.team == All || p.team == c.team)
    ensures forall p :: multiset(r)[p] == if Matches(p, c) then multiset(data)[p] else 0
  {
    FilterCounts(data, KeepMatching(c));
    Filter(data, KeepMatching(c))
  }

  /** With an empty search term and both drop-downs on "All", every player is shown. */
  lemma InitialFilterKeepsAll(data: seq<PlayerRow>)
    ensures FilterData(data, InitialCriteria) == data
  {
    forall i | 0 <= i < |data| ensures KeepMatching(InitialCriteria)(data[i]) {
      ContainsEmpty(Lower(data[i].name));
    }
    FilterKeepsAll(data, KeepMatching(InitialCriteria));
  }

  /** Filtering the filtered list again with the same inputs changes nothing. */
  lemma FilterDataIdempotent(data: seq<PlayerRow>, c: Criteria)
    ensures FilterData(FilterData(data, c), c) == FilterData(data, c)
  {
    FilterIdempotent(data, KeepMatching(c));
  }

  /**
   * The filter is the intersection of its three parts: filtering by the search term alone,
   * then by the position alone, then by the team alone, gives the same list.
   */
  lemma FilterDataConjunctive(data: seq<PlayerRow>, c: Criteria)
    ensures FilterData(data, c)
         == FilterData(FilterData(FilterData(data, Criteria(c.searchTerm, All, All)),
                                  Criteria("", c.position, All)),
                       Criteria("", All, c.team))
  {
    var bySearch := KeepMatching(Criteria(c.searchTerm, All, All));
    var byPosition := KeepMatching(Criteria("", c.position, All));
    var byTeam := KeepMatching(Criteria("", All, c.team));
    var first2 := (p: PlayerRow) => bySearch(p) && byPosition(p);
    var all3 := (p: PlayerRow) => first2(p) && byTeam(p);
    forall p: PlayerRow ensures MatchesSearch(p, "") {
      ContainsEmpty(Lower(p.name));
    }
    FilterCompose(data, bySearch, byPosition, first2);
    FilterCompose(Filter(data, bySearch), byPosition, byTeam, (p: PlayerRow) => byPosition(p) && byTeam(p));
    FilterCompose(data, first2, byTeam, all3);
    FilterCompose(data, bySearch, (p: PlayerRow) => byPosition(p) && byTeam(p), all3);
    FilterAgree(data, all3, KeepMatching(c));
  }

  /** `getTeamLogo`: the logo of the first team with that name, or "" when there is none. */
  function GetTeamLogo(teams: seq<TeamRow>, name: string): (logo: string)
    ensures (forall t :: t in teams ==> t.name != name) ==> logo == ""
    ensures forall i :: 0 <= i < |teams| && teams[i].name == name
                        && (forall j :: 0 <= j < i ==> teams[j].name != name)
                        ==> logo == teams[i].teamLogo
  {
    if teams == [] then ""
    else if teams[0].name == name then teams[0].teamLogo
    else
      var rest := GetTeamLogo(teams[1..], name);
      assert forall i :: 1 <= i < |teams| ==> teams[i] == teams[1..][i - 1];
      rest
  }

  /** The state of the player list component. */
  class PlayerListView {
    var players: seq<PlayerRow>
    var teams: seq<TeamRow>
    var loading: bool
    var error: Option<string>
    var searchTerm: string
    var positionFilter: string
    var teamFilter: string
    var deleteDialogVisible: bool
    var selectedPlayer: Option<PlayerRow>
    /** The API calls issued so far, oldest first. */
    var requests: seq<Call>

    constructor ()
      ensures players == [] && teams == [] && loading && error == None
      ensures searchTerm == "" && positionFilter == All && teamFilter == All
      ensures !deleteDialogVisible && selectedPlayer == None && requests == []
    {
      players, teams, loading, error := [], [], true, None;
      searchTerm, positionFilter, teamFilter := "", All, All;
      deleteDialogVisible, selectedPlayer, requests := false, None, [];
    }

    function CurrentCriteria(): Criteria
      reads this
    {
      Criteria(searchTerm, positionFilter, teamFilter)
    }

    /** The rows handed to the table. */
    function Visible(): (rows: seq<PlayerRow>)
      reads this
      ensures IsSubsequence(rows, players)
      ensures CurrentCriteria() == InitialCriteria ==> rows == players
    {
      InitialFilterKeepsAll(players);
      FilterData(players, CurrentCriteria())
    }

    /**
     * `fetchData`: both lists are requested together; `outcome` is None when either request
     * fails, in which case neither list is replaced and the load error is shown.
     */
    method FetchData(outcome: Option<(seq<PlayerRow>, seq<TeamRow>)>)
      modifies this`loading, this`error, this`requests, this`players, this`teams
      ensures requests == old(requests) + [GetPlayers, GetTeams]
      ensures !loading
      ensures outcome.Some? ==> players == outcome.value.0 && teams == outcome.value.1 && error == None
      ensures outcome.None? ==> players == old(players) && teams == old(teams) && error == Some(LoadError)
    {
      loading := true;
      error := None;
      requests := requests + [GetPlayers, GetTeams];
      match outcome {
        case Some(fetched) =>
          players := fetched.0;
          teams := fetched.1;
        case None =>
          error := Some(LoadError);
      }
      loading := false;
    }

    method SetSearchTerm(term: string)
      modifies this`searchTerm
      ensures searchTerm == term
    {
      searchTerm := term;
    }

    method SetPositionFilter(position: string)
      modifies this`positionFilter
      ensures positionFilter == position
    {
      positionFilter := position;
    }

    method SetTeamFilter(team: string)
      modifies this`teamFilter
      ensures teamFilter == team
    {
      teamFilter := team;
    }

    /** The trash button of a row: stages that row and opens the dialog, calling nothing. */
    method StageDelete(row: PlayerRow)
      modifies this`selectedPlayer, this`deleteDialogVisible
      ensures selectedPlayer == Some(row) && deleteDialogVisible
      ensures requests == old(requests) && players == old(players) && error == old(error)
    {
      selectedPlayer := Some(row);
      deleteDialogVisible := true;
    }

    /** The Cancel button (and closing the dialog): only hides the dialog. */
    method CancelDelete()
      modifies this`deleteDialogVisible
      ensures !deleteDialogVisible
      ensures selectedPlayer == old(selectedPlayer) && requests == old(requests)
    {
      deleteDialogVisible := false;
    }

    /**
     * The Delete button (`handleDelete`).  With nothing staged, reading `selectedPlayer.id`
     * throws before any call.  Otherwise the staged id is deleted (`deleted` says whether
     * that call succeeded); on success the lists are re-fetched (`refetched` is that outcome;
     * `fetchData` catches its own failure) and the dialog is hidden; on failure the error is
     * shown and the dialog stays open.
     */
    method ConfirmDelete(deleted: bool, refetched: Option<(seq<PlayerRow>, seq<TeamRow>)>)
      modifies this`loading, this`error, this`requests, this`players, this`teams, this`deleteDialogVisible
      ensures old(selectedPlayer).None? ==>
        && requests == old(requests) && error == Some(DeleteError)
        && deleteDialogVisible == old(deleteDialogVisible)
        && players == old(players) && teams == old(teams) && loading == old(loading)
      ensures old(selectedPlayer).Some? && !deleted ==>
        && requests == old(requests) + [DeletePlayer(old(selectedPlayer).value.id)]
        && error == Some(DeleteError)
        && deleteDialogVisible == old(deleteDialogVisible)
        && players == old(players) && teams == old(teams) && loading == old(loading)
      ensures old(selectedPlayer).Some? && deleted ==>
        && requests == old(requests) + [DeletePlayer(old(selectedPlayer).value.id), GetPlayers, GetTeams]
        && !deleteDialogVisible && !loading
        && (refetched.Some? ==> players == refetched.value.0 && teams == refetched.value.1 && error == None)
        && (refetched.None? ==> players == old(players) && teams == old(teams) && error == Some(LoadError))
    {
      match selectedPlayer {
        case None =>
          error := Some(DeleteError);
        case Some(p) =>
          requests := requests + [DeletePlayer(p.id)];
          if deleted {
            FetchData(refetched);
            deleteDialogVisible := false;
          } else {
            error := Some(DeleteError);
          }
      }
    }
  }
}
