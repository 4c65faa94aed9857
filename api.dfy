/**
 * What the views exchange with the REST API (src/components/api.js): the rows of the
 * GET payloads they keep in state, and the calls they issue.  The HTTP exchange itself
 * is not modelled; each handler that awaits a call receives that call's outcome as a
 * parameter, and appends the call it issued to a request log.
 */
module Api {
  import opened Common

  /** A row of GET /players; the remaining columns are display-only. */
  datatype PlayerRow = PlayerRow(id: int, name: string, position: string, team: string)

  /** A row of GET /teams; a missing logo (null) is the empty string. */
  datatype TeamRow = TeamRow(id: int, name: string, teamLogo: string)

  /** The `fee` column as the transfer list receives it: null, a number, or stored text. */
  datatype Fee = NoFee | FeeNumber(amount: int) | FeeText(text: string)

  /** A nested player object on a transfer row (never sent by GET /transfers). */
  datatype NestedPlayer = NestedPlayer(name: Option<string>)

  /** A row of GET /transfers, plus the optional nested `player` the sort engine reads. */
  datatype TransferRow = TransferRow(
    id: int,
    playerId: int,
    fromTeam: string,
    toTeam: string,
    transferDate: string,
    transferWindow: string,
    fee: Fee,
    player: Option<NestedPlayer>)

  /** A field of the transfer form: text typed by the user, or the numeric id of a chosen player. */
  datatype FormValue = Text(text: string) | Id(id: int)

  type Form = map<string, FormValue>

  /** One call through the API client. */
  datatype Call =
    | GetPlayers
    | GetTeams
    | GetTransfers
    | DeletePlayer(playerId: int)
    | DeleteTeam(teamId: int)
    | SearchTeams(teamQuery: string)
    | SearchPlayers(playerQuery: string)
    | AddTransfer(payload: Form)
}
