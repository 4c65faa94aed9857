/**
 * The transfer page (src/components/TransferPage.js): the transfer form with its
 * type-ahead suggestions, and the sortable transfer list.  The sort engine itself is
 * module TransferSort; this module holds the form helpers, the direction label and the
 * component state with its handlers.
 */
module TransferPage {
  import opened Common
  import opened Api
  import opened TransferSort

  // ---------------------------------------------------------------- the form record

  const PlayerIdField := "player_id"
  const PlayerNameField := "player_name"
  const FromTeamField := "from_team"
  const ToTeamField := "to_team"
  const NationalityField := "nationality"
  const NationalityFlagField := "nationality_flag"

  /** The fields a chosen player suggestion fills in. */
  const PlayerFields: set<string> := {PlayerIdField, PlayerNameField, NationalityField, NationalityFlagField}

  /** The empty form, also what a successful submit resets to: every field blank but the window. */
  const InitialForm: Form := map[
    PlayerIdField := Text(""),
    PlayerNameField := Text(""),
    FromTeamField := Text(""),
    ToTeamField := Text(""),
    "transfer_date" := Text(""),
    "transfer_window" := Text("summer"),
    "fee" := Text(""),
    NationalityField := Text(""),
    NationalityFlagField := Text("")]

  /** A row of GET /players/search as the suggestion list holds it; absent fields are None. */
  datatype PlayerSuggestion = PlayerSuggestion(
    id: int,
    name: string,
    nationality: Option<string>,
    nationalityFlag: Option<string>)

  /**
   * The form update of `handlePlayerSelect`: the player's id, name, nationality and flag
   * (missing values as `''`) and nothing else.
   */
  function SelectPlayer(form: Form, player: PlayerSuggestion): (r: Form)
    ensures r.Keys == form.Keys + PlayerFields
    ensures r[PlayerIdField] == Id(player.id)
    ensures r[PlayerNameField] == Text(player.name)
    ensures r[NationalityField] == Text(OrEmpty(player.nationality))
    ensures r[NationalityFlagField] == Text(OrEmpty(player.nationalityFlag))
    ensures forall k :: k in form && k !in PlayerFields ==> r[k] == form[k]
  {
    form[PlayerIdField := Id(player.id)]
        [PlayerNameField := Text(player.name)]
        [NationalityField := Text(OrEmpty(player.nationality))]
        [NationalityFlagField := Text(OrEmpty(player.nationalityFlag))]
  }

  /** The form update of `handleTeamSelect`: the chosen field takes the team's name, nothing else changes. */
  function SelectTeam(form: Form, field: string, teamName: string): (r: Form)
    ensures r.Keys == form.Keys + {field}
    ensures r[field] == Text(teamName)
    ensures forall k :: k in form && k != field ==> r[k] == form[k]
  {
    form[field := Text(teamName)]
  }

  /** Choosing a second player overwrites everything the first choice filled in. */
  lemma SelectPlayerLastWins(form: Form, first: PlayerSuggestion, second: PlayerSuggestion)
    ensures SelectPlayer(SelectPlayer(form, first), second) == SelectPlayer(form, second)
  {
    var lhs := SelectPlayer(SelectPlayer(form, first), second);
    var rhs := SelectPlayer(form, second);
    assert lhs.Keys == rhs.Keys;
    forall k | k in lhs ensures lhs[k] == rhs[k] {
      if k !in PlayerFields {
        assert k in form;
      }
    }
  }

  /** Choosing a team for either end and choosing a player touch disjoint fields, so their order is irrelevant. */
  lemma SelectTeamAndPlayerCommute(form: Form, field: string, teamName: string, player: PlayerSuggestion)
    requires field == FromTeamField || field == ToTeamField
    ensures SelectPlayer(SelectTeam(form, field, teamName), player)
         == SelectTeam(SelectPlayer(form, player), field, teamName)
  {
    assert field !in PlayerFields;
    var lhs := SelectPlayer(SelectTeam(form, field, teamName), player);
    var rhs := SelectTeam(SelectPlayer(form, player), field, teamName);
    assert lhs.Keys == rhs.Keys;
    forall k | k in lhs ensures lhs[k] == rhs[k] {
      if k != field && k !in PlayerFields {
        assert k in form;
      }
    }
  }

  // ---------------------------------------------------------------- the list

  /** The Outgoing/Incoming/N/A line under a transfer's teams. */
  function DirectionLabel(fromTeam: string, toTeam: string): (text: string)
    ensures text == "N/A" <==> fromTeam == toTeam
    ensures text == "Outgoing" <==> fromTeam != toTeam && fromTeam != ""
    ensures text == "Incoming" <==> fromTeam != toTeam && fromTeam == ""
  {
    if fromTeam == toTeam then "N/A"
    else if fromTeam != "" then "Outgoing"
    else "Incoming"
  }

  // ---------------------------------------------------------------- the component

  /**
   * The component state.  Each handler that awaits the API receives the outcome of that
   * call as a parameter (None for a rejected call) and appends the call to `requests`.
   */
  class TransferPageView {
    var players: seq<PlayerRow>
    var formData: Form
    var suggestedTeams: seq<TeamRow>
    var suggestedPlayers: seq<PlayerSuggestion>
    var transfers: seq<TransferRow>
    var sortConfig: SortConfig
    /** The API calls issued so far, oldest first. */
    var requests: seq<Call>

    constructor ()
      ensures players == [] && formData == InitialForm
      ensures suggestedTeams == [] && suggestedPlayers == [] && transfers == []
      ensures sortConfig == InitialSortConfig && requests == []
    {
      players, formData := [], InitialForm;
      suggestedTeams, suggestedPlayers, transfers := [], [], [];
      sortConfig, requests := InitialSortConfig, [];
    }

    /** The mount effect: players and transfers together; a failure is only logged. */
    method Mount(outcome: Option<(seq<PlayerRow>, seq<TransferRow>)>)
      modifies this`players, this`transfers, this`requests
      ensures requests == old(requests) + [GetPlayers, GetTransfers]
      ensures outcome.Some? ==> players == outcome.value.0 && transfers == outcome.value.1
      ensures outcome.None? ==> players == old(players) && transfers == old(transfers)
    {
      requests := requests + [GetPlayers, GetTransfers];
      if outcome.Some? {
        players := outcome.value.0;
        transfers := outcome.value.1;
      }
    }

    /**
     * `handleChange` of an input named `name`: the field takes the typed text; typing in a
     * team field searches teams (`teamsFound`), typing the player name searches players
     * (`playersFound`); a failed search is only logged.
     */
    method HandleChange(name: string, value: string,
                        teamsFound: Option<seq<TeamRow>>, playersFound: Option<seq<PlayerSuggestion>>)
      modifies this`formData, this`suggestedTeams, this`suggestedPlayers, this`requests
      ensures formData == old(formData)[name := Text(value)]
      ensures name == FromTeamField || name == ToTeamField ==>
        && requests == old(requests) + [SearchTeams(value)]
        && suggestedTeams == (if teamsFound.Some? then teamsFound.value else old(suggestedTeams))
        && suggestedPlayers == old(suggestedPlayers)
      ensures name == PlayerNameField ==>
        && requests == old(requests) + [SearchPlayers(value)]
        && suggestedPlayers == (if playersFound.Some? then playersFound.value else old(suggestedPlayers))
        && suggestedTeams == old(suggestedTeams)
      ensures name != FromTeamField && name != ToTeamField && name != PlayerNameField ==>
        requests == old(requests) && suggestedTeams == old(suggestedTeams) && suggestedPlayers == old(suggestedPlayers)
    {
      formData := formData[name := Text(value)];
      if name == FromTeamField || name == ToTeamField {
        requests := requests + [SearchTeams(value)];
        if teamsFound.Some? {
          suggestedTeams := teamsFound.value;
        }
      }
      if name == PlayerNameField {
        requests := requests + [SearchPlayers(value)];
        if playersFound.Some? {
          suggestedPlayers := playersFound.value;
        }
      }
    }

    /** `handleTeamSelect`: fills the field and closes the team suggestions. */
    method HandleTeamSelect(teamName: string, field: string)
      modifies this`formData, this`suggestedTeams
      ensures formData == SelectTeam(old(formData), field, teamName)
      ensures suggestedTeams == []
    {
      formData := SelectTeam(formData, field, teamName);
      suggestedTeams := [];
    }

    /** `handlePlayerSelect`: fills the player's fields and closes the player suggestions. */
    method HandlePlayerSelect(player: PlayerSuggestion)
      modifies this`formData, this`suggestedPlayers
      ensures formData == SelectPlayer(old(formData), player)
      ensures suggestedPlayers == []
    {
      formData := SelectPlayer(formData, player);
      suggestedPlayers := [];
    }

    /**
     * `handleSubmit`: posts the form (`added` says whether that succeeded), then re-reads
     * the transfers (`refreshed`).  Only when both succeed are the transfers replaced and
     * the form reset; an error at either step is only logged.
     */
    method HandleSubmit(added: bool, refreshed: Option<seq<TransferRow>>)
      modifies this`formData, this`transfers, this`requests
      ensures !added ==>
        requests == old(requests) + [AddTransfer(old(formData))]
        && formData == old(formData) && transfers == old(transfers)
      ensures added ==> requests == old(requests) + [AddTransfer(old(formData)), GetTransfers]
      ensures added && refreshed.Some? ==> transfers == refreshed.value && formData == InitialForm
      ensures added && refreshed.None? ==> transfers == old(transfers) && formData == old(formData)
    {
      requests := requests + [AddTransfer(formData)];
      if added {
        requests := requests + [GetTransfers];
        if refreshed.Some? {
          transfers := refreshed.value;
          formData := InitialForm;
        }
      }
    }

    /** `handleSort`. */
    method HandleSort(key: string)
      modifies this`sortConfig
      ensures sortConfig == NextSortConfig(old(sortConfig), key)
    {
      sortConfig := NextSortConfig(sortConfig, key);
    }

    /** A click on a column header sorts by the key that header maps to. */
    method ClickHeader(header: string)
      modifies this`sortConfig
      ensures sortConfig == NextSortConfig(old(sortConfig), HeaderKey(header))
    {
      HandleSort(HeaderKey(header));
    }

    /**
     * `sortedTransfers`, recomputed on every render: a sorted copy of `transfers`, which
     * stays as it is; before any header is clicked it is `transfers` in order.
     */
    method SortedTransfers() returns (rows: seq<TransferRow>)
      ensures multiset(rows) == multiset(transfers)
      ensures SortedBy(rows, sortConfig)
      ensures StableFrom(rows, transfers, sortConfig)
      ensures sortConfig.key.None? ==> rows == transfers
      ensures SortedBy(transfers, sortConfig) ==> rows == transfers
    {
      if sortConfig.key.None? {
        NoKeyTiesAll(transfers, sortConfig.direction);
      }
      rows := SortCopy(transfers, sortConfig);
    }
  }
}
