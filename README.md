# footyTransfer core, modelled in Dafny

footyTransfer is a football transfer manager. It has a React front end (a player list, a
team list and a transfer page) and a Flask/SQLAlchemy back end over SQLite. This project
models the logic that these parts carry beyond plain CRUD, and proves properties of it:

- **Player list** (`PlayerList.js`): the conjunctive search/position/team filter, the
  team-logo lookup, and the two-phase delete (stage, then confirm or cancel). The component
  state is the class `PlayerList.PlayerListView`.
- **Team list** (`TeamList.js`): after a successful delete, the list is patched locally with
  `filter`; a failed delete shows the error. The component state is `TeamList.TeamListView`.
- **Transfer page** (`TransferPage.js`):
  - module `TransferSort` holds the sort configuration toggle, the key-to-value extraction
    with its defaults, the comparator, the stable insertion sort of a fresh copy, and the
    header-to-key mapping;
  - module `TransferPage` holds the form helpers and the direction label, and the class
    `TransferPage.TransferPageView` holds the component state and its handlers.
- **Back end** (`app.py`):
  - module `Backend` states every request handler as a function from the tables before the
    request to its response and the tables after it. This covers find-or-create of teams
    for `add_player` and `add_transfer`, the whitelisted `update_player`, the defaulting
    `update_team`, and `allowed_file`;
  - the class `Store.Database` holds the three tables and applies the handlers step by
    step: the scan loop of the team lookup and the `setattr` loop over the whitelist.

Shared modules:
- `Common`: Option and Result.
- `Text`: ASCII lowering, substring search, and an order on strings by character code that
  stands in for `localeCompare`.
- `Seqs`: a generic `filter` together with the subsequence relation.
- `Api`: the rows the views receive and the API calls they issue.

The HTTP layer is not modelled. A view handler that awaits an API call takes that call's
outcome as a parameter (None or false for a rejected promise). It also appends the call it
made to a `requests` log, so the contracts say which calls are issued and in what order. On
the back end a request body is a map from strings to JSON values. A failed request is a
`ServerError`:
- `KeyError`: `data[...]` on a missing key;
- `TypeError`: `strptime` given a value that is not a string;
- `IntegrityError`: a NOT NULL column is null at commit;
- `NotFound`: `get_or_404` on an unknown id.

Ids are SQLite rowids: one more than the largest id in the table, or 1 in an empty table.

## Model

| member | source | states |
|---|---|---|
| Text.Lower | src/components/PlayerList.js:70 | the lowered string has the same length, and each character is the lowered character of the input |
| Text.ContainsEmpty | src/components/PlayerList.js:70 | every string includes the empty string, so an empty search term matches every name |
| Text.StrCompare | src/components/TransferPage.js:135-137 | a three-way comparison giving -1, 0 or 1, standing in for `localeCompare`; the three lemmas below make it a total order |
| Text.StrCompareZeroIff | src/components/TransferPage.js:135-137 | the string comparison is zero exactly when the strings are equal |
| Text.StrCompareAntisymmetric | src/components/TransferPage.js:135-137 | swapping the operands negates the comparison |
| Text.StrCompareTransitive | src/components/TransferPage.js:135-137 | the string order is transitive |
| Seqs.Filter | src/components/PlayerList.js:69 | `filter` returns a subsequence of its input; an element is in the result iff it is in the input and satisfies the predicate |
| Seqs.FilterCounts | src/components/PlayerList.js:69 | an element satisfying the predicate appears in the result as often as in the input, any other element not at all |
| Seqs.FindFirst | app.py:74 | the index of the first element satisfying the predicate (`.first()` of a query), or none when no element does |
| PlayerList.FilterData | src/components/PlayerList.js:68-75 | the result is a subsequence of the players; a player is in it iff its lowered name contains the lowered term, the position filter is "All" or equal, and the team filter is "All" or equal; a shown player appears as often as in the list |
| PlayerList.InitialFilterKeepsAll | src/components/PlayerList.js:26-28 | with the initial inputs (empty term, "All", "All") every player is shown, in order |
| PlayerList.FilterDataIdempotent | src/components/PlayerList.js:68-75 | filtering the filtered list again with the same inputs changes nothing |
| PlayerList.FilterDataConjunctive | src/components/PlayerList.js:70-73 | the filter equals filtering by the term alone, then the position alone, then the team alone |
| PlayerList.GetTeamLogo | src/components/PlayerList.js:53-56 | the logo of the first team with that name, or "" when no team has it |
| PlayerList.PlayerListView.constructor | src/components/PlayerList.js:22-30 | the initial state: empty lists, loading, no error, empty term, both filters "All", dialog closed, nothing selected |
| PlayerList.PlayerListView.Visible | src/components/PlayerList.js:207 | the table rows are a subsequence of the players, and all of them under the initial inputs |
| PlayerList.PlayerListView.FetchData | src/components/PlayerList.js:36-51 | players and teams are requested together; on success both are replaced and the error cleared; on failure neither is replaced and the load error is set; loading ends false either way |
| PlayerList.PlayerListView.SetSearchTerm | src/components/PlayerList.js:141 | the search input sets the term |
| PlayerList.PlayerListView.SetPositionFilter | src/components/PlayerList.js:151 | the position drop-down sets the position filter |
| PlayerList.PlayerListView.SetTeamFilter | src/components/PlayerList.js:162 | the team drop-down sets the team filter |
| PlayerList.PlayerListView.StageDelete | src/components/PlayerList.js:126-129 | the trash button records the row and opens the dialog, with no API call and no change to the list or the error |
| PlayerList.PlayerListView.CancelDelete | src/components/PlayerList.js:176 | Cancel only hides the dialog; the staged row and the request log are unchanged |
| PlayerList.PlayerListView.ConfirmDelete | src/components/PlayerList.js:58-66 | with nothing staged, only the delete error is set; otherwise the staged id is deleted; on success the lists are re-fetched and the dialog is hidden; on failure the error is set and the dialog stays as it was |
| TeamList.RemoveById | src/components/TeamList.js:36 | no entry with the id remains, every other entry remains, and the result is a subsequence (order kept) |
| TeamList.RemoveByIdLength | src/components/TeamList.js:36 | the length drops by exactly the number of entries with that id |
| TeamList.RemoveAbsentId | src/components/TeamList.js:36 | removing an id that is not present leaves the list unchanged |
| TeamList.RemoveByIdTwice | src/components/TeamList.js:36 | removing the same id twice is removing it once |
| TeamList.TeamListView.constructor | src/components/TeamList.js:13-15 | the initial state: no teams, loading, no error |
| TeamList.TeamListView.Render | src/components/TeamList.js:85-109 | the spinner exactly while loading, else only the error message exactly when an error is set, else the table of the teams |
| TeamList.TeamListView.FetchTeams | src/components/TeamList.js:18-31 | one GET of the teams; success replaces the list, failure keeps it and sets the load error; loading ends false |
| TeamList.TeamListView.HandleDelete | src/components/TeamList.js:33-40 | the DELETE is issued; on success the list becomes `RemoveById` of the old one (shorter by the count of that id) and the error is untouched; on failure the list is kept, the error set, and the view renders only the error |
| TransferSort.NextSortConfig | src/components/TransferPage.js:103-108 | the clicked key becomes the key; the direction is descending exactly when that key was active and ascending |
| TransferSort.ClickNewKeyAscends | src/components/TransferPage.js:103-108 | clicking a key other than the active one sorts ascending by it |
| TransferSort.ClickActiveKeyFlips | src/components/TransferPage.js:103-108 | clicking the active key keeps the key and flips the direction |
| TransferSort.ClickActiveKeyTwice | src/components/TransferPage.js:103-108 | clicking the active key twice restores the configuration |
| TransferSort.FeeValue | src/components/TransferPage.js:116 | a null fee is 0, a number is itself, a text without digits is 0, and a text of digits alone is its decimal value |
| TransferSort.LeadingNumberFee | src/components/TransferPage.js:116 | a text whose first non-blank characters are digits reads as those digits, whatever non-digit text follows ("12m" is 12) |
| TransferSort.SignedNumberFee | src/components/TransferPage.js:116 | a '-' before the digits negates their value and a '+' keeps it ("-3" is -3) |
| TransferSort.LeadingSpaceFee | src/components/TransferPage.js:116 | a leading white space character (ECMAScript's set, form feed and no-break space included) does not change the value |
| TransferSort.FeeDefaults | src/components/TransferPage.js:116 | a missing fee and a fee text without digits both count as 0 |
| TransferSort.GetValue | src/components/TransferPage.js:113-126 | the value is a number exactly for `fee`, `id` and `player_id`, and `player_name` of a row without a nested player is "" |
| TransferSort.ValueKindDependsOnKey | src/components/TransferPage.js:113-126 | whether the extracted value is a number depends only on the key, never on the row |
| TransferSort.Compare | src/components/TransferPage.js:110-137 | 0 when no key is chosen; otherwise 0 exactly when both rows extract the same value |
| TransferSort.CompareAntisymmetric | src/components/TransferPage.js:131-137 | the comparator is antisymmetric in both directions |
| TransferSort.CompareTransitive | src/components/TransferPage.js:131-137 | the comparator is transitive, for numeric and string keys and both directions |
| TransferSort.CompareTiesTransitive | src/components/TransferPage.js:131-137 | two rows that tie with a common row tie with each other |
| TransferSort.SwapNeighboursKeepsTies | src/components/TransferPage.js:110 | exchanging neighbouring rows that do not tie keeps every tie class in order |
| TransferSort.StableAllTiedIsIdentity | src/components/TransferPage.js:110-111 | a stable permutation of a list whose rows all tie is that list itself |
| TransferSort.NoKeyTiesAll | src/components/TransferPage.js:111 | with no key chosen the comparator returns 0 for every pair |
| TransferSort.InsertAt | src/components/TransferPage.js:110 | one insertion pass orders the next prefix, permutes the array and keeps ties in order |
| TransferSort.SortCopy | src/components/TransferPage.js:110-138 | the sorted copy is a permutation of the input, ordered by the comparator, stable, and the input itself when all rows tie or the input is already sorted, so sorting a sorted list again changes nothing |
| TransferSort.ReplaceFirstAt | src/components/TransferPage.js:252 | `replace(' ', '_')` changes only the first occurrence of the space |
| TransferSort.ReplaceFirstAbsent | src/components/TransferPage.js:252 | without a space, `replace` changes nothing |
| TransferSort.HeaderKey | src/components/TransferPage.js:252 | the key has the header's length, and each character is the lowered header character or `_` where that is a space |
| TransferSort.PlayerNameHeaderKey | src/components/TransferPage.js:249-252 | the header "Player Name" requests the key `player_name` |
| TransferSort.TeamHeaderKey | src/components/TransferPage.js:249-252 | the header "Team" requests the key `team` |
| TransferSort.TransferFeeHeaderKey | src/components/TransferPage.js:249-252 | the header "Transfer Fee" requests the key `transfer_fee` |
| TransferSort.SeasonHeaderKey | src/components/TransferPage.js:249-252 | the header "Season" requests the key `season` |
| TransferSort.SortedStableUnique | src/components/TransferPage.js:110-138 | sorting has one answer: two permutations of each other that are both sorted and stable against each other are equal, so every render under the same configuration gives the same rows |
| TransferSort.UnknownKeyValue | src/components/TransferPage.js:123-124 | a key that is neither a `getValue` case nor an own field of the row reads `undefined` |
| TransferSort.UnknownKeyTiesAll | src/components/TransferPage.js:123-124 | under such a key every pair of rows ties |
| TransferSort.PlayerNameTiesAll | src/components/TransferPage.js:119-120 | rows without a nested player (as GET /transfers sends them) all tie under `player_name` |
| TransferSort.HeadersWithoutEffect | src/components/TransferPage.js:249-252 | on the fetched rows, the "Transfer Fee" and "Player Name" headers make all rows tie, so sorting by them keeps the order |
| TransferSort.SortedByFee | src/components/TransferPage.js:115-116 | sorted by `fee`, the fee values (missing or unparseable as 0) rise, or fall when descending |
| TransferSort.SortedByTeamAndSeason | src/components/TransferPage.js:117-122 | sorted by `team` or `season`, the destination team or the window is in string order, operands swapped when descending |
| TransferPage.SelectPlayer | src/components/TransferPage.js:69-78 | the form gains the four player fields (id, name, nationality and flag, missing ones as "") and every other field is unchanged |
| TransferPage.SelectTeam | src/components/TransferPage.js:61-67 | only the chosen field changes, to the team's name |
| TransferPage.SelectPlayerLastWins | src/components/TransferPage.js:69-78 | choosing a second player overwrites everything the first choice filled in |
| TransferPage.SelectTeamAndPlayerCommute | src/components/TransferPage.js:61-78 | choosing a team for either end and choosing a player commute |
| TransferPage.DirectionLabel | src/components/TransferPage.js:279-281 | "N/A" iff the teams are equal; "Outgoing" iff they differ and the source team is non-empty; "Incoming" iff they differ and it is empty |
| TransferPage.TransferPageView.constructor | src/components/TransferPage.js:5-20 | the initial state: empty lists, the blank form with window "summer", no sort key, ascending |
| TransferPage.TransferPageView.Mount | src/components/TransferPage.js:22-36 | players and transfers are requested together and replaced only when both arrive |
| TransferPage.TransferPageView.HandleChange | src/components/TransferPage.js:38-59 | the field takes the typed text; a team field searches teams, the player name searches players, any other field calls nothing; a failed search keeps the suggestions |
| TransferPage.TransferPageView.HandleTeamSelect | src/components/TransferPage.js:61-67 | the form is updated by `SelectTeam` and the team suggestions are cleared |
| TransferPage.TransferPageView.HandlePlayerSelect | src/components/TransferPage.js:69-78 | the form is updated by `SelectPlayer` and the player suggestions are cleared |
| TransferPage.TransferPageView.HandleSubmit | src/components/TransferPage.js:80-101 | the form is posted; after a successful post the transfers are re-read; only when both succeed are the transfers replaced and the form reset to the blank form |
| TransferPage.TransferPageView.HandleSort | src/components/TransferPage.js:103-108 | the configuration becomes `NextSortConfig` of the old one |
| TransferPage.TransferPageView.ClickHeader | src/components/TransferPage.js:252 | a header click sorts by the header's key |
| TransferPage.TransferPageView.SortedTransfers | src/components/TransferPage.js:110-138 | the rendered rows are a stable, sorted permutation of `transfers`, exactly `transfers` before any header is clicked, and exactly `transfers` when they are already in order |
| Backend.Truthy | app.py:93 | Python truthiness: exactly None, False, zero and the empty string, list and dict are falsy |
| Backend.Strptime | app.py:90 | `strptime` succeeds exactly on strings, giving a date; anything else is a TypeError |
| Backend.NextId | app.py:20 | a new row's id exceeds every id in the table; it is 1 in an empty table, else one more than the largest |
| Backend.FindTeam | app.py:74 | `filter_by(name=...).first()`: the index of the first team with the name, or none when no team has it |
| Backend.EnsureTeam | app.py:74-78 | the first team with the name is used and nothing is added; otherwise one team with that name and no logo is appended with a fresh id; a null name fails with an IntegrityError |
| Backend.EnsureTeamIdempotent | app.py:74-78 | a second lookup of the same name creates nothing and returns the same team |
| Backend.EnsureTeamCounts | app.py:74-78 | afterwards exactly one team has the name when none had it, the count is unchanged otherwise, and no other name's count changes |
| Backend.EnsureTeamKeepsValid | app.py:74-78 | find-or-create keeps team ids distinct and names non-null |
| Backend.SigningOnInsert | app.py:93 | a falsy `signing_date` gives null, a truthy one is parsed |
| Backend.InsertedAttrs | app.py:80-96 | the new row has every column, each with the value `Player(...)` gives it |
| Backend.InsertedFilled | app.py:80-98 | the NOT NULL columns of the inserted row are all filled exactly when the start date is and the body gives non-null name, position, price, contract duration, years left and loan flag |
| Backend.InsertedRow | app.py:80-96 | the row holds the two parsed dates, `sell_on_clause` false when absent or null and the body value otherwise, and `data.get` of its key in every other column |
| Backend.NewPlayer | app.py:80-98 | the first missing required key is the KeyError; the insert succeeds exactly when every required key is present, the start date is a string, the signing date is falsy or a string, and no copied NOT NULL column is null; the row is then the inserted one |
| Backend.ParsedPlayer | app.py:90-98 | a non-string start date is a TypeError, then a truthy non-string signing date; it succeeds exactly when both dates parse and no copied NOT NULL column is null |
| Backend.BuildPlayer | app.py:97-98 | the commit succeeds exactly when the start date and the copied NOT NULL columns are non-null, storing the inserted row; otherwise it fails with the IntegrityError of a NOT NULL column left null |
| Backend.NewPlayerRow | app.py:80-96 | the new player has the given id and team, every column, the parsed dates, `sell_on_clause` false when absent or null, and `data.get` of its key in every other column |
| Backend.NullSellOnClauseDefaults | app.py:91 | an explicit null `sell_on_clause` is left out of the INSERT: the insert succeeds and stores the column default false (the default of line 31) |
| Backend.AddPlayerSpec | app.py:70-99 | a missing `team` is a KeyError and a failing lookup an IntegrityError with nothing changed; otherwise the teams are the find-or-create result, and the request succeeds exactly when the body is insertable, appending `NewPlayer` of the next id in the first team of its name and answering that id; an insert error is `NewPlayer`'s and adds no player |
| Backend.AddPlayerTeam | app.py:74-84 | an existing team is reused, with the team table unchanged; otherwise exactly one team of that name is added, and the player joins it |
| Backend.AddPlayerKeepsCreatedTeam | app.py:74-81 | a body without `name` fails with KeyError("name") but keeps the team the lookup committed |
| Backend.AddPlayerKeepsValid | app.py:70-99 | `add_player` keeps ids distinct, team names non-null and player rows complete |
| Backend.NewTransfer | app.py:241-250 | a missing `player_id`, `transfer_date` or `transfer_window` is a KeyError, in that order, and a non-string date a TypeError; it succeeds exactly when these are present, the date is a string, and the player, both teams and the window are non-null; the transfer then holds them, the parsed date and the fee or null |
| Backend.AddTransferSpec | app.py:223-251 | a missing key or failing lookup of `from_team`, then of `to_team`, is the error, keeping the teams committed so far; after both lookups the teams are find-or-create of `from_team` then of `to_team`; it succeeds exactly when `NewTransfer` does, appending that transfer and answering its id; on error no transfer is added |
| Backend.AddTransferKnownTeams | app.py:227-238 | two names that teams already have add no team |
| Backend.AddTransferSameUnknownTeam | app.py:227-238 | equal unknown source and destination names create exactly one team |
| Backend.AddTransferTwoUnknownTeams | app.py:227-238 | two different unknown names create one team each |
| Backend.AddTransferKeepsValid | app.py:223-251 | `add_transfer` keeps the tables valid |
| Backend.MergeFields | app.py:197-202 | after copying `fields`, a column is present iff it was or its key is in the body, and has the body's value iff it is one of the fields and its key is present |
| Backend.CopyFields | app.py:197-202 | the `setattr` loop computes `MergeFields` over the fields |
| Backend.ReassignedTeam | app.py:192-195 | the player moves to the first team of the given name when one exists, and otherwise keeps its team |
| Backend.PatchedDates | app.py:204-207 | it succeeds exactly when a present start date and a present truthy signing date are strings (else a TypeError); a present start date is parsed; a present falsy `signing_date` becomes null, a truthy one is parsed; absent dates and all other columns are kept |
| Backend.PatchedPlayer | app.py:187-209 | the patched player keeps its id and gets the reassigned team and the whitelisted copy with the dates; a non-string start date is a TypeError; the commit fails on a null NOT NULL column |
| Backend.PatchedPlayerCommits | app.py:197-209 | the update commits exactly when the dates parse and every NOT NULL column keeps a value: the body's non-null value when it has the key, else the stored one |
| Backend.PatchEmptyBodyIdentity | app.py:187-209 | an empty body commits for a player with its NOT NULL columns filled and leaves it exactly as it was |
| Backend.PatchCopiesWhitelisted | app.py:197-202 | every whitelisted key in the body is copied into the row |
| Backend.PatchKeepsAbsent | app.py:197-207 | a column whose key is absent from the body keeps its value |
| Backend.PatchClearsEmptySigningDate | app.py:206-207 | a present but falsy `signing_date` clears the date |
| Backend.PatchKeepsComplete | app.py:187-209 | no column is lost |
| Backend.PatchIgnoresUnknownKeys | app.py:192-207 | a key that is neither a column nor `team` (such as `jersey_number` or `id`) changes nothing |
| Backend.PatchUnknownTeamKeepsTeam | app.py:192-195 | a team name no team has keeps the player's team |
| Backend.FindPlayer | app.py:188 | the index of the first player with the id, or none |
| Backend.UpdatePlayerSpec | app.py:187-210 | an unknown id is NotFound; otherwise a failing patch is that error with the table unchanged, and a successful one replaces the found row by `PatchedPlayer` of it; the answer carries no value, only the success message |
| Backend.UpdatePlayerOnlyFound | app.py:187-210 | the table keeps its length, no row without the id changes, NotFound exactly when no player has the id, and any error rolls back to the old table |
| Backend.UpdateRow | app.py:209-210 | the commit of an update: NotFound without a row, the table unchanged on a failed patch, else the found row replaced by the patched one |
| Backend.UpdateEmptyBodyIdentity | app.py:187-210 | on valid tables an empty body changes no row, and succeeds exactly when a player has the id |
| Backend.UpdatePlayerKeepsValid | app.py:187-210 | `update_player` keeps the tables valid |
| Backend.PatchedTeam | app.py:307-308 | `name` and `team_logo` default to their current values; a null name fails the commit |
| Backend.PatchedTeamDefaults | app.py:307-308 | an empty body leaves a named team as it is, and applying the same body twice is applying it once |
| Backend.FindTeamById | app.py:304 | the index of the first team with the id, or none |
| Backend.UpdateTeamSpec | app.py:303-311 | an unknown id is NotFound; a name that ends up null is an IntegrityError with the table unchanged; otherwise the found team becomes `PatchedTeam` of it; every other team is unchanged |
| Backend.UpdateTeamKeepsValid | app.py:303-311 | `update_team` keeps the tables valid |
| Backend.LastDot | app.py:118 | the index of the last dot, or none when there is no dot |
| Backend.AllowedFile | app.py:117-118 | true iff there is a last dot and the lowered text after it is png, jpg, jpeg or gif |
| Backend.AllowedFileIgnoresCase | app.py:118 | lowering the filename first does not change the answer |
| Backend.AllowedUpperCase | app.py:117-118 | "a.PNG" is accepted |
| Backend.AllowedLastOfTwoExtensions | app.py:117-118 | "x.tar.gif" is accepted |
| Backend.RejectedWithoutDot | app.py:117-118 | "png" is rejected |
| Backend.RejectedLastExtension | app.py:117-118 | "a.png.exe" is rejected |
| Store.Database.constructor | app.py:62-64 | the tables start empty and valid |
| Store.Database.FindOrCreateTeam | app.py:74-78 | the scan and insert compute `EnsureTeam`; on error the teams are unchanged |
| Store.Database.AddPlayer | app.py:69-99 | the request leaves exactly what `AddPlayerSpec` describes, and the tables valid |
| Store.Database.AddTransfer | app.py:222-251 | the request leaves exactly what `AddTransferSpec` describes, and the tables valid |
| Store.Database.UpdatePlayer | app.py:186-210 | the request changes only the player table, leaves exactly what `UpdatePlayerSpec` describes, and keeps the tables valid; no team is created |
| Store.Database.ApplyPlayerUpdate | app.py:188-209 | the lookup, the patch, and the commit or rollback compute `UpdatePlayerSpec` |
| Store.Database.PatchPlayer | app.py:192-209 | the reassignment, the `setattr` loop, the dates and the NOT NULL check compute `PatchedPlayer` |
| Store.Database.UpdateTeam | app.py:302-311 | the request leaves exactly what `UpdateTeamSpec` describes, and the tables valid |

## Left out

- `src/components/api.js` is one-line HTTP calls. The views take each call's outcome as a parameter and log the call.
- `src/App.js`, the add/edit forms, `PlayerStatistics.js` and `PlayerDetails.js` are not part of this model. They are presentation and form glue.
- The table library's sorting and pagination in the player and team lists are not modelled.
- Concurrency is not modelled: the parallel fetches and the order in which type-ahead responses arrive. Each handler runs to completion, with its awaited outcomes given up front.
- Floating point: prices and fees are integers. `FeeValue` keeps the integer part of the literal `parseFloat` reads and does not model exponents, `Infinity`, or fractions. The leading white space it skips is ECMAScript's set (`IsSpace`), so a form feed or a no-break space before the digits is skipped as in the source. A number value, and the sign and digits that start a text, read exactly as `parseFloat` reads their integer part; a text starting with `.5` or `Infinity` reads as 0 here.
- TransferSort.UnknownKeyValue: a key naming a member the row inherits from `Object.prototype` (`constructor`, `toString`, `__proto__`) reads `undefined` here, where the source reads that member. Every row still reads the same value, so the rows tie as modelled, and no header produces such a key.
- Locale behaviour: lowering is ASCII-only, and `localeCompare` is the order by character code (`StrCompare`).
- Which `ServerError` the client gets is not modelled beyond the error value; there are no HTTP status codes.
- Backend.Strptime: a string that is not a `%Y-%m-%d` date is accepted as a date. Only non-strings are TypeErrors.
- Backend.InsertedAttrs: a value of the wrong type for its column is stored as given. In the source, SQLAlchemy's Boolean check rejects a non-boolean `on_loan` or `sell_on_clause` (such as "yes"), and sqlite3 cannot bind a list or object outside the JSON `statistics` column; either makes `add_player` a server error.
- Backend.MergeFields: the same holds for `update_player`: a non-boolean flag, or a list or object for a column other than `statistics`, is copied, where the source fails at the commit.
- Backend.EnsureTeam: a list or object as the team name creates a team of that name, where sqlite3 cannot bind it and the request fails.
- Backend.ReassignedTeam: a list or object as the `team` of `update_player` finds no team, so the player keeps its team and the update commits; in the source sqlite3 cannot bind it in the lookup query and the request fails.
- Backend.PatchedTeam: a list or object as `name` or `team_logo` of `update_team` is stored; in the source sqlite3 cannot bind it at the commit and the request fails.
- The database layer: SQLite type affinity is not modelled, and names are compared as JSON values. Foreign keys are not enforced, which matches SQLite's default.
- A request body that is not a JSON object is not modelled.
- `get_players`, `get_transfers`, `get_teams`, `get_player` and `get_team` are not modelled. These reads only serialise rows. The views take their rows as given; `TransferRow` is the shape of GET /transfers.
- `add_team`, `delete_player` and `delete_team` on the back end are not modelled. The views model only their client side.
- The search endpoints (`ilike`) and image serving are not modelled.
- The upload route is modelled only through `allowed_file`. `secure_filename` and the file save are I/O.
- `TeamRow.teamLogo`: a null `team_logo` is the empty string. So `GetTeamLogo` returns "" for a team without a logo, where the source returns null. Both are falsy where the logo is used.
- The `onTransferSuccess` callback of the transfer page is not modelled: the parent component is not part of this model.
- Rendering is modelled only as the direction label, the rows handed to the tables, and which screen the team list shows.
