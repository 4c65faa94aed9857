/**
 * The record rules of the Flask backend (app.py): the values a request body carries, the
 * three tables, the find-or-create of a team by name, the whitelisted player update, the
 * defaulting team update and the upload filename check.  Every request handler is stated
 * here as a function from the tables before the request to its response and the tables
 * after it; the class in module Store applies them to a database.
 */
module Backend {
  import opened Common
  import opened Text
  import opened Seqs

  // ---------------------------------------------------------------- request values

  /**
   * A JSON value of a request body, plus `Date`, the value `strptime` produces and a
   * Date column stores.  Numbers are integers.
   */
  datatype Value =
    | Null
    | Bool(b: bool)
    | Num(n: int)
    | Str(s: string)
    | Arr(items: seq<Value>)
    | Obj(entries: map<string, Value>)
    | Date(iso: string)

  /** Python truthiness: the falsy values are None, False, zero and the empty string, list and dict. */
  predicate Truthy(v: Value)
    ensures !Truthy(v) <==> v == Null || v == Bool(false) || v == Num(0) || v == Str("") || v == Arr([]) || v == Obj(map[])
  {
    match v
    case Null => false
    case Bool(b) => b
    case Num(n) => n != 0
    case Str(s) => s != ""
    case Arr(items) => items != []
    case Obj(entries) => entries != map[]
    case Date(_) => true
  }

  /** The parsed JSON object of a request. */
  type Payload = map<string, Value>

  /** `data.get(key)`. */
  function Get(data: Payload, key: string): Value
  {
    if key in data then data[key] else Null
  }

  /** `data.get(key, default)`. */
  function GetOr(data: Payload, key: string, default: Value): Value
  {
    if key in data then data[key] else default
  }

  /** Why a request fails; each aborts the request with a server error (404 for NotFound). */
  datatype ServerError =
    | KeyError(key: string)         // `data[key]` on an absent key
    | TypeError(key: string)        // `strptime` given something other than a string
    | IntegrityError(column: string) // a NOT NULL column is null at commit
    | NotFound                      // `get_or_404` on an unknown id

  /** `datetime.strptime(v, '%Y-%m-%d')`; a string that is not a date is not modelled. */
  function Strptime(v: Value, key: string): (r: Result<Value, ServerError>)
    ensures r.Ok? <==> v.Str?
    ensures r.Ok? ==> r.value == Date(v.s)
    ensures r.Err? ==> r.error == TypeError(key)
  {
    match v
    case Str(s) => Ok(Date(s))
    case _ => Err(TypeError(key))
  }

  // ---------------------------------------------------------------- tables

  datatype Team = Team(id: int, name: Value, teamLogo: Value)

  /** The columns of the player table other than `id` and `team_id`. */
  datatype Column =
    | Name | Position | Price | ContractDuration | YearsLeft | OnLoan | LoanTeam | Statistics
    | ContractStartDate | SellOnClause | SellOnPercentage | SigningDate | Nationality | NationalityFlag

  /** The JSON key, and attribute name, of a column. */
  function Key(c: Column): string
  {
    match c
    case Name => "name"
    case Position => "position"
    case Price => "price"
    case ContractDuration => "contract_duration"
    case YearsLeft => "years_left"
    case OnLoan => "on_loan"
    case LoanTeam => "loan_team"
    case Statistics => "statistics"
    case ContractStartDate => "contract_start_date"
    case SellOnClause => "sell_on_clause"
    case SellOnPercentage => "sell_on_percentage"
    case SigningDate => "signing_date"
    case Nationality => "nationality"
    case NationalityFlag => "nationality_flag"
  }

  datatype Player = Player(id: int, teamId: int, attrs: map<Column, Value>)

  datatype Transfer = Transfer(
    id: int,
    playerId: Value,
    fromTeam: Value,
    toTeam: Value,
    transferDate: Value,
    transferWindow: Value,
    fee: Value)

  /**
   * The NOT NULL player columns, in table order.  `statistics` is a JSON column, which
   * stores a null as the JSON text `null`, so it never fails the check.
   */
  const NotNullColumns: seq<Column> := CopiedNotNull + [ContractStartDate, SellOnClause]

  /**
   * The NOT NULL columns whose inserted value is the body's own: all but the parsed start
   * date and `sell_on_clause`, whose insert never stores a null.
   */
  const CopiedNotNull: seq<Column> := [Name, Position, Price, ContractDuration, YearsLeft, OnLoan]

  /** Every column has a value (a null one is `Null`). */
  predicate Complete(p: Player)
  {
    forall c: Column :: c in p.attrs
  }

  function TeamIds(teams: seq<Team>): seq<int>
  {
    seq(|teams|, i requires 0 <= i < |teams| => teams[i].id)
  }

  function PlayerIds(players: seq<Player>): seq<int>
  {
    seq(|players|, i requires 0 <= i < |players| => players[i].id)
  }

  function TransferIds(transfers: seq<Transfer>): seq<int>
  {
    seq(|transfers|, i requires 0 <= i < |transfers| => transfers[i].id)
  }

  predicate Distinct(ids: seq<int>)
  {
    forall i, j :: 0 <= i < j < |ids| ==> ids[i] != ids[j]
  }

  /** The row holds a non-null value in every NOT NULL column, as the database enforces on each stored player. */
  predicate NotNullFilled(attrs: map<Column, Value>)
  {
    forall j :: 0 <= j < |NotNullColumns| ==> Filled(attrs, NotNullColumns[j])
  }

  /** What every request keeps: unique ids, named teams, and complete player rows with their NOT NULL columns filled. */
  predicate ValidTables(teams: seq<Team>, players: seq<Player>, transfers: seq<Transfer>)
  {
    && Distinct(TeamIds(teams))
    && (forall i :: 0 <= i < |teams| ==> teams[i].name != Null)
    && Distinct(PlayerIds(players))
    && (forall i :: 0 <= i < |players| ==> Complete(players[i]) && NotNullFilled(players[i].attrs))
    && Distinct(TransferIds(transfers))
  }

  /** The id SQLite gives a new row of a table without AUTOINCREMENT: one more than the largest, 1 in an empty table. */
  function NextId(ids: seq<int>): (next: int)
    ensures forall i :: 0 <= i < |ids| ==> ids[i] < next
    ensures ids == [] ==> next == 1
    ensures ids != [] ==> next - 1 in ids
  {
    if ids == [] then 1
    else
      var rest := NextId(ids[1..]);
      if ids[1..] == [] || ids[0] + 1 > rest then ids[0] + 1 else rest
  }

  /** Appending a row whose id is fresh keeps the ids distinct. */
  lemma AppendFreshId(ids: seq<int>, id: int)
    requires Distinct(ids) && forall i :: 0 <= i < |ids| ==> ids[i] < id
    ensures Distinct(ids + [id])
  {
  }

  // ---------------------------------------------------------------- find-or-create team

  /** `Team.query.filter_by(name=name).first()`: the index of the first team with that name. */
  function FindTeam(teams: seq<Team>, name: Value): (r: Option<nat>)
    ensures r.None? ==> forall i :: 0 <= i < |teams| ==> teams[i].name != name
    ensures r.Some? ==> r.value < |teams| && teams[r.value].name == name
    ensures r.Some? ==> forall i :: 0 <= i < r.value ==> teams[i].name != name
  {
    FindFirst(teams, NamedAs(name))
  }

  function NamedAs(name: Value): Team -> bool
  {
    (t: Team) => t.name == name
  }

  /** The number of teams with a name. */
  function CountNamed(teams: seq<Team>, name: Value): nat
  {
    if teams == [] then 0
    else (if teams[0].name == name then 1 else 0) + CountNamed(teams[1..], name)
  }

  lemma {:induction false} CountNamedAppend(teams: seq<Team>, t: Team, name: Value)
    ensures CountNamed(teams + [t], name) == CountNamed(teams, name) + (if t.name == name then 1 else 0)
  {
    if teams != [] {
      assert (teams + [t])[1..] == teams[1..] + [t];
      CountNamedAppend(teams[1..], t, name);
    }
  }

  lemma {:induction false} CountNamedZero(teams: seq<Team>, name: Value)
    ensures CountNamed(teams, name) == 0 <==> FindTeam(teams, name).None?
  {
    if teams != [] {
      CountNamedZero(teams[1..], name);
    }
  }

  /**
   * The team lookup of `add_player` and `add_transfer`: the first team with the name, or,
   * when there is none, a new team with that name and no logo, committed at once.  A null
   * name fails the NOT NULL constraint at that commit.  The result is the teams after the
   * step and the id of the team used.
   */
  function EnsureTeam(teams: seq<Team>, name: Value): (r: Result<(seq<Team>, int), ServerError>)
    ensures r.Err? <==> FindTeam(teams, name).None? && name == Null
    ensures r.Err? ==> r.error == IntegrityError("name")
    ensures r.Ok? ==>
      var (after, id) := r.value;
      && |after| == |teams| + (if FindTeam(teams, name).Some? then 0 else 1)
      && after[..|teams|] == teams
      && FindTeam(after, name).Some?
      && after[FindTeam(after, name).value].id == id
      && (|after| > |teams| ==> after[|teams|] == Team(id, name, Null) && forall i :: 0 <= i < |teams| ==> teams[i].id < id)
  {
    match FindTeam(teams, name)
    case Some(i) => Ok((teams, teams[i].id))
    case None =>
      if name == Null then Err(IntegrityError("name"))
      else
        var id := NextId(TeamIds(teams));
        assert forall i :: 0 <= i < |teams| ==> TeamIds(teams)[i] == teams[i].id;
        FindTeamAppend(teams, Team(id, name, Null));
        Ok((teams + [Team(id, name, Null)], id))
  }

  lemma FindTeamAppend(teams: seq<Team>, t: Team)
    requires FindTeam(teams, t.name).None?
    ensures FindTeam(teams + [t], t.name) == Some(|teams|)
  {
    assert (teams + [t])[|teams|] == t;
    assert forall i :: 0 <= i < |teams| ==> (teams + [t])[i] == teams[i];
  }

  /** Looking the same name up again finds the team the first lookup used or created, and creates nothing. */
  lemma EnsureTeamIdempotent(teams: seq<Team>, name: Value)
    requires EnsureTeam(teams, name).Ok?
    ensures EnsureTeam(EnsureTeam(teams, name).value.0, name) == EnsureTeam(teams, name)
  {
  }

  /** Find-or-create never duplicates a name: it adds one team of that name only when there was none, and no other name. */
  lemma EnsureTeamCounts(teams: seq<Team>, name: Value, other: Value)
    requires EnsureTeam(teams, name).Ok?
    ensures CountNamed(EnsureTeam(teams, name).value.0, name) == if CountNamed(teams, name) == 0 then 1 else CountNamed(teams, name)
    ensures other != name ==> CountNamed(EnsureTeam(teams, name).value.0, other) == CountNamed(teams, other)
  {
    var after := EnsureTeam(teams, name).value.0;
    CountNamedZero(teams, name);
    if |after| > |teams| {
      assert after == teams + [after[|teams|]];
      CountNamedAppend(teams, after[|teams|], name);
      CountNamedAppend(teams, after[|teams|], other);
    } else {
      assert after == teams;
    }
  }

  /** Find-or-create keeps team ids distinct and names non-null. */
  lemma EnsureTeamKeepsValid(teams: seq<Team>, players: seq<Player>, transfers: seq<Transfer>, name: Value)
    requires ValidTables(teams, players, transfers) && EnsureTeam(teams, name).Ok?
    ensures ValidTables(EnsureTeam(teams, name).value.0, players, transfers)
  {
    var (after, id) := EnsureTeam(teams, name).value;
    if |after| > |teams| {
      assert after == teams + [after[|teams|]];
      assert TeamIds(after) == TeamIds(teams) + [id];
      AppendFreshId(TeamIds(teams), id);
    } else {
      assert after == teams;
    }
  }

  // ---------------------------------------------------------------- add_player

  /** The request body has the column's key. */
  predicate Present(data: Payload, c: Column)
  {
    Key(c) in data
  }

  /** The row has a non-null value for the column. */
  predicate Filled(attrs: map<Column, Value>, c: Column)
  {
    c in attrs && attrs[c] != Null
  }

  function AbsentFrom(data: Payload): Column -> bool
  {
    (c: Column) => !Present(data, c)
  }

  function NullIn(attrs: map<Column, Value>): Column -> bool
  {
    (c: Column) => !Filled(attrs, c)
  }

  /** The columns `add_player` reads with `data[...]`, in the order it reads them. */
  const RequiredOnInsert: seq<Column> :=
    [Name, Position, Price, ContractDuration, YearsLeft, OnLoan, Statistics, ContractStartDate]

  /** `signing_date` on insert: parsed when truthy, else null. */
  function SigningOnInsert(data: Payload): (r: Result<Value, ServerError>)
    ensures !Truthy(Get(data, Key(SigningDate))) ==> r == Ok(Null)
    ensures Truthy(Get(data, Key(SigningDate))) ==> r == Strptime(data[Key(SigningDate)], Key(SigningDate))
  {
    var v := Get(data, Key(SigningDate));
    if Truthy(v) then Strptime(v, Key(SigningDate)) else Ok(Null)
  }

  const AllColumns: set<Column> :=
    {Name, Position, Price, ContractDuration, YearsLeft, OnLoan, LoanTeam, Statistics,
     ContractStartDate, SellOnClause, SellOnPercentage, SigningDate, Nationality, NationalityFlag}

  lemma AllColumnsListed(c: Column)
    ensures c in AllColumns
  {
  }

  /** The value `Player(...)` gives a column, given the two parsed dates. */
  function InsertedValue(data: Payload, start: Value, signing: Value, c: Column): Value
  {
    match c
    case ContractStartDate => start
    case SigningDate => signing
    case SellOnClause =>
      // SQLAlchemy leaves a null out of the INSERT, so the column default (false) applies
      var v := Get(data, Key(SellOnClause));
      if v == Null then Bool(false) else v
    case _ => Get(data, Key(c))
  }

  /** The row `Player(...)` builds: every column, each with its inserted value. */
  function InsertedAttrs(data: Payload, start: Value, signing: Value): (m: map<Column, Value>)
    ensures forall c: Column :: c in m && m[c] == InsertedValue(data, start, signing, c)
  {
    var m := map c | c in AllColumns :: InsertedValue(data, start, signing, c);
    assert forall c: Column :: c in m by {
      forall c: Column ensures c in m { AllColumnsListed(c); }
    }
    m
  }

  /** The body has a non-null value for every NOT NULL column whose value it gives. */
  predicate CopiedFilled(data: Payload)
  {
    forall j :: 0 <= j < |CopiedNotNull| ==> Get(data, Key(CopiedNotNull[j])) != Null
  }

  /**
   * A body `add_player` stores: every key it reads with `data[...]`, a string start date,
   * a falsy or string signing date, and no null for a NOT NULL column it copies.
   */
  predicate Insertable(data: Payload)
  {
    && (forall j :: 0 <= j < |RequiredOnInsert| ==> Present(data, RequiredOnInsert[j]))
    && Present(data, ContractStartDate) && data[Key(ContractStartDate)].Str?
    && SigningOnInsert(data).Ok?
    && CopiedFilled(data)
  }

  /** The NOT NULL columns of an inserted row are all filled exactly when the start date is and the body fills the copied ones. */
  lemma InsertedFilled(data: Payload, start: Value, signing: Value)
    ensures (forall j :: 0 <= j < |NotNullColumns| ==> Filled(InsertedAttrs(data, start, signing), NotNullColumns[j]))
        <==> start != Null && CopiedFilled(data)
  {
    var m := InsertedAttrs(data, start, signing);
    var n := |CopiedNotNull|;
    assert NotNullColumns[n] == ContractStartDate && NotNullColumns[n + 1] == SellOnClause;
    InsertedColumnFilled(data, start, signing, ContractStartDate);
    InsertedColumnFilled(data, start, signing, SellOnClause);
    forall j | 0 <= j < n
      ensures NotNullColumns[j] == CopiedNotNull[j]
      ensures Filled(m, CopiedNotNull[j]) <==> Get(data, Key(CopiedNotNull[j])) != Null
    {
      InsertedColumnFilled(data, start, signing, CopiedNotNull[j]);
    }
    if start != Null && CopiedFilled(data) {
      forall j | 0 <= j < |NotNullColumns| ensures Filled(m, NotNullColumns[j]) {
        if j < n {
          assert Get(data, Key(CopiedNotNull[j])) != Null;
        }
      }
    }
  }

  lemma InsertedColumnFilled(data: Payload, start: Value, signing: Value, c: Column)
    ensures Filled(InsertedAttrs(data, start, signing), c) <==>
      if c == ContractStartDate then start != Null
      else if c == SigningDate then signing != Null
      else c == SellOnClause || Get(data, Key(c)) != Null
  {
  }

  /**
   * The new player of `add_player` with id `id` in team `teamId`, or the error that stops
   * it: the first absent required key, a non-string contract start date, a truthy
   * non-string signing date, or the first NOT NULL column left null.
   */
  function NewPlayer(data: Payload, id: int, teamId: int): (r: Result<Player, ServerError>)
    ensures FindFirst(RequiredOnInsert, AbsentFrom(data)).Some? ==>
      r == Err(KeyError(Key(RequiredOnInsert[FindFirst(RequiredOnInsert, AbsentFrom(data)).value])))
    ensures r.Ok? <==> Insertable(data)
    ensures r.Ok? ==>
      r.value == Player(id, teamId, InsertedAttrs(data, Date(data[Key(ContractStartDate)].s), SigningOnInsert(data).value))
    ensures r.Ok? ==> forall j :: 0 <= j < |NotNullColumns| ==> Filled(r.value.attrs, NotNullColumns[j])
    ensures r.Err? ==> !r.error.NotFound?
  {
    match FindFirst(RequiredOnInsert, AbsentFrom(data))
    case Some(j) => Err(KeyError(Key(RequiredOnInsert[j])))
    case None =>
      assert Present(data, RequiredOnInsert[7]);
      ParsedPlayer(data, id, teamId)
  }

  /** The two date parses of `add_player`, then the commit. */
  function ParsedPlayer(data: Payload, id: int, teamId: int): (r: Result<Player, ServerError>)
    requires Present(data, ContractStartDate)
    ensures r.Ok? ==>
      && data[Key(ContractStartDate)].Str? && SigningOnInsert(data).Ok?
      && r.value == Player(id, teamId, InsertedAttrs(data, Date(data[Key(ContractStartDate)].s), SigningOnInsert(data).value))
    ensures r.Ok? ==> forall j :: 0 <= j < |NotNullColumns| ==> Filled(r.value.attrs, NotNullColumns[j])
    ensures r.Ok? <==> data[Key(ContractStartDate)].Str? && SigningOnInsert(data).Ok? && CopiedFilled(data)
    ensures !data[Key(ContractStartDate)].Str? ==> r == Err(TypeError(Key(ContractStartDate)))
    ensures data[Key(ContractStartDate)].Str? && SigningOnInsert(data).Err? ==> r == Err(TypeError(Key(SigningDate)))
    ensures r.Err? ==> !r.error.NotFound?
  {
    match Strptime(data[Key(ContractStartDate)], Key(ContractStartDate))
    case Err(e) => Err(e)
    case Ok(start) =>
      match SigningOnInsert(data)
      case Err(e) => Err(e)
      case Ok(signing) => BuildPlayer(data, id, teamId, start, signing)
  }

  /** The commit of a new row: the first NOT NULL column left null fails it. */
  function BuildPlayer(data: Payload, id: int, teamId: int, start: Value, signing: Value): (r: Result<Player, ServerError>)
    ensures r.Ok? <==> start != Null && CopiedFilled(data)
    ensures r.Ok? ==> r.value == Player(id, teamId, InsertedAttrs(data, start, signing))
    ensures r.Ok? ==> forall j :: 0 <= j < |NotNullColumns| ==> Filled(r.value.attrs, NotNullColumns[j])
    ensures r.Err? ==>
      exists j :: 0 <= j < |NotNullColumns| && !Filled(InsertedAttrs(data, start, signing), NotNullColumns[j])
        && r.error == IntegrityError(Key(NotNullColumns[j]))
  {
    var attrs := InsertedAttrs(data, start, signing);
    InsertedFilled(data, start, signing);
    match FindFirst(NotNullColumns, NullIn(attrs))
    case Some(j) => Err(IntegrityError(Key(NotNullColumns[j])))
    case None => Ok(Player(id, teamId, attrs))
  }

  /** Every column but the two dates and `sell_on_clause` takes `data.get` of its key. */
  lemma InsertedValueOther(data: Payload, start: Value, signing: Value, c: Column)
    requires c != ContractStartDate && c != SigningDate && c != SellOnClause
    ensures InsertedValue(data, start, signing, c) == Get(data, Key(c))
  {
  }

  /** The inserted row column by column. */
  lemma InsertedRow(data: Payload, start: Value, signing: Value)
    ensures var m := InsertedAttrs(data, start, signing);
      && m[ContractStartDate] == start && m[SigningDate] == signing
      && m[SellOnClause] == (if Get(data, Key(SellOnClause)) == Null then Bool(false) else data[Key(SellOnClause)])
      && (forall c :: c != ContractStartDate && c != SigningDate && c != SellOnClause ==> m[c] == Get(data, Key(c)))
  {
    var m := InsertedAttrs(data, start, signing);
    forall c | c != ContractStartDate && c != SigningDate && c != SellOnClause
      ensures m[c] == Get(data, Key(c))
    {
      InsertedValueOther(data, start, signing, c);
    }
  }

  /**
   * The row of a new player: every column present, the dates parsed, `sell_on_clause`
   * false when absent or null, and every other column `data.get` of its key.
   */
  lemma NewPlayerRow(data: Payload, id: int, teamId: int)
    requires NewPlayer(data, id, teamId).Ok?
    ensures var p := NewPlayer(data, id, teamId).value;
      && p.id == id && p.teamId == teamId && Complete(p)
      && p.attrs[ContractStartDate] == Date(data[Key(ContractStartDate)].s)
      && (Truthy(Get(data, Key(SigningDate))) ==>
            data[Key(SigningDate)].Str? && p.attrs[SigningDate] == Date(data[Key(SigningDate)].s))
      && (!Truthy(Get(data, Key(SigningDate))) ==> p.attrs[SigningDate] == Null)
      && p.attrs[SellOnClause] == (if Get(data, Key(SellOnClause)) == Null then Bool(false) else data[Key(SellOnClause)])
      && (forall c :: c != ContractStartDate && c != SigningDate && c != SellOnClause ==> p.attrs[c] == Get(data, Key(c)))
  {
    var start, signing := Date(data[Key(ContractStartDate)].s), SigningOnInsert(data).value;
    InsertedRow(data, start, signing);
  }

  /** An explicit null `sell_on_clause` does not fail the insert: the column default false is stored. */
  lemma NullSellOnClauseDefaults(data: Payload, id: int, teamId: int)
    requires Insertable(data) && Key(SellOnClause) in data && data[Key(SellOnClause)] == Null
    ensures NewPlayer(data, id, teamId).Ok?
    ensures NewPlayer(data, id, teamId).value.attrs[SellOnClause] == Bool(false)
  {
    InsertedRow(data, Date(data[Key(ContractStartDate)].s), SigningOnInsert(data).value);
  }

  /** What `add_player` answers (the new id or an error) and leaves: teams, players. */
  datatype AddOutcome<R> = AddOutcome(response: Result<int, ServerError>, teams: seq<Team>, rows: seq<R>)

  /**
   * `add_player`: find-or-create the team named `data['team']`, then insert the player.
   * A team the first step committed stays when the second step fails.
   */
  function AddPlayerSpec(teams: seq<Team>, players: seq<Player>, data: Payload): (r: AddOutcome<Player>)
    ensures "team" !in data ==> r == AddOutcome(Err(KeyError("team")), teams, players)
    ensures "team" in data && EnsureTeam(teams, data["team"]).Err? ==>
      r == AddOutcome(Err(IntegrityError("name")), teams, players)
    ensures "team" in data && EnsureTeam(teams, data["team"]).Ok? ==> r.teams == EnsureTeam(teams, data["team"]).value.0
    ensures r.response.Ok? <==> "team" in data && EnsureTeam(teams, data["team"]).Ok? && Insertable(data)
    ensures r.response.Ok? ==>
      var teamId := EnsureTeam(teams, data["team"]).value.1;
      && r.rows == players + [NewPlayer(data, NextId(PlayerIds(players)), teamId).value]
      && r.response.value == NextId(PlayerIds(players))
      && teamId == r.teams[FindTeam(r.teams, data["team"]).value].id
    ensures "team" in data && EnsureTeam(teams, data["team"]).Ok? && !Insertable(data) ==>
      r.response == Err(NewPlayer(data, NextId(PlayerIds(players)), EnsureTeam(teams, data["team"]).value.1).error)
    ensures r.response.Err? ==> r.rows == players
  {
    if "team" !in data then AddOutcome(Err(KeyError("team")), teams, players)
    else match EnsureTeam(teams, data["team"])
      case Err(e) => AddOutcome(Err(e), teams, players)
      case Ok((after, teamId)) =>
        match NewPlayer(data, NextId(PlayerIds(players)), teamId)
        case Err(e) => AddOutcome(Err(e), after, players)
        case Ok(p) => AddOutcome(Ok(p.id), after, players + [p])
  }

  /**
   * A new player joins the first team of its name; the team is created, exactly once,
   * only when no team has that name.
   */
  lemma AddPlayerTeam(teams: seq<Team>, players: seq<Player>, data: Payload)
    requires AddPlayerSpec(teams, players, data).response.Ok?
    ensures FindTeam(teams, data["team"]).Some? ==>
      var r := AddPlayerSpec(teams, players, data);
      r.teams == teams && r.rows[|players|].teamId == teams[FindTeam(teams, data["team"]).value].id
    ensures FindTeam(teams, data["team"]).None? ==>
      var r := AddPlayerSpec(teams, players, data);
      |r.teams| == |teams| + 1 && CountNamed(r.teams, data["team"]) == 1
      && r.rows[|players|].teamId == r.teams[|teams|].id
  {
    var name := data["team"];
    EnsureTeamCounts(teams, name, name);
    CountNamedZero(teams, name);
    var r := AddPlayerSpec(teams, players, data);
    if FindTeam(teams, name).None? {
      FindTeamAppend(teams, r.teams[|teams|]);
      assert r.teams == teams + [r.teams[|teams|]];
    }
  }

  /** A body without `name` still commits a missing team before the lookup of `name` fails. */
  lemma AddPlayerKeepsCreatedTeam(teams: seq<Team>, players: seq<Player>, data: Payload)
    requires "team" in data && data["team"] != Null && FindTeam(teams, data["team"]).None?
    requires "name" !in data
    ensures AddPlayerSpec(teams, players, data).response == Err(KeyError("name"))
    ensures |AddPlayerSpec(teams, players, data).teams| == |teams| + 1
    ensures AddPlayerSpec(teams, players, data).rows == players
  {
    assert AbsentFrom(data)(RequiredOnInsert[0]);
  }

  lemma AddPlayerKeepsValid(teams: seq<Team>, players: seq<Player>, transfers: seq<Transfer>, data: Payload)
    requires ValidTables(teams, players, transfers)
    ensures var r := AddPlayerSpec(teams, players, data); ValidTables(r.teams, r.rows, transfers)
  {
    var r := AddPlayerSpec(teams, players, data);
    if "team" in data && EnsureTeam(teams, data["team"]).Ok? {
      EnsureTeamKeepsValid(teams, players, transfers, data["team"]);
      if r.response.Ok? {
        var (after, teamId) := EnsureTeam(teams, data["team"]).value;
        var id := NextId(PlayerIds(players));
        NewPlayerRow(data, id, teamId);
        AppendPlayerKeepsValid(after, players, transfers, NewPlayer(data, id, teamId).value);
      }
    }
  }

  /** Appending a complete, filled player with the next id keeps the tables valid. */
  lemma AppendPlayerKeepsValid(teams: seq<Team>, players: seq<Player>, transfers: seq<Transfer>, p: Player)
    requires ValidTables(teams, players, transfers) && Complete(p) && NotNullFilled(p.attrs)
    requires p.id == NextId(PlayerIds(players))
    ensures ValidTables(teams, players + [p], transfers)
  {
    assert PlayerIds(players + [p]) == PlayerIds(players) + [p.id];
    AppendFreshId(PlayerIds(players), p.id);
  }

  // ---------------------------------------------------------------- add_transfer

  /** The transfer `add_transfer` inserts after both team lookups, or the error that stops it. */
  function NewTransfer(data: Payload, id: int): (r: Result<Transfer, ServerError>)
    requires "from_team" in data && "to_team" in data
    ensures "player_id" !in data ==> r == Err(KeyError("player_id"))
    ensures "player_id" in data && "transfer_date" !in data ==> r == Err(KeyError("transfer_date"))
    ensures "player_id" in data && "transfer_date" in data && !data["transfer_date"].Str? ==>
      r == Err(TypeError("transfer_date"))
    ensures "player_id" in data && "transfer_date" in data && data["transfer_date"].Str? && "transfer_window" !in data ==>
      r == Err(KeyError("transfer_window"))
    ensures r.Ok? <==>
      && "player_id" in data && "transfer_date" in data && data["transfer_date"].Str? && "transfer_window" in data
      && data["player_id"] != Null && data["from_team"] != Null && data["to_team"] != Null && data["transfer_window"] != Null
    ensures r.Err? ==> !r.error.NotFound?
    ensures r.Ok? ==>
      && r.value.id == id
      && r.value.playerId == data["player_id"] && r.value.playerId != Null
      && r.value.fromTeam == data["from_team"] && r.value.toTeam == data["to_team"]
      && "transfer_date" in data && data["transfer_date"].Str?
      && r.value.transferDate == Date(data["transfer_date"].s)
      && "transfer_window" in data && r.value.transferWindow == data["transfer_window"] && r.value.transferWindow != Null
      && r.value.fee == Get(data, "fee")
  {
    if "player_id" !in data then Err(KeyError("player_id"))
    else if "transfer_date" !in data then Err(KeyError("transfer_date"))
    else match Strptime(data["transfer_date"], "transfer_date")
      case Err(e) => Err(e)
      case Ok(date) =>
        if "transfer_window" !in data then Err(KeyError("transfer_window"))
        else
          var t := Transfer(id, data["player_id"], data["from_team"], data["to_team"], date,
                            data["transfer_window"], Get(data, "fee"));
          if t.playerId == Null then Err(IntegrityError("player_id"))
          else if t.fromTeam == Null then Err(IntegrityError("from_team"))
          else if t.toTeam == Null then Err(IntegrityError("to_team"))
          else if t.transferWindow == Null then Err(IntegrityError("transfer_window"))
          else Ok(t)
  }

  /** Both team lookups of `add_transfer` succeed: the keys are there and neither find-or-create fails. */
  predicate TeamsResolve(teams: seq<Team>, data: Payload)
  {
    && "from_team" in data && "to_team" in data
    && EnsureTeam(teams, data["from_team"]).Ok?
    && EnsureTeam(EnsureTeam(teams, data["from_team"]).value.0, data["to_team"]).Ok?
  }

  /** The teams after find-or-create of `from_team` and then of `to_team`. */
  function ResolvedTeams(teams: seq<Team>, data: Payload): seq<Team>
    requires TeamsResolve(teams, data)
  {
    EnsureTeam(EnsureTeam(teams, data["from_team"]).value.0, data["to_team"]).value.0
  }

  /**
   * `add_transfer`: find-or-create `from_team`, then `to_team`, each committed on its own,
   * then insert the transfer; the teams committed before a failure stay.
   */
  function AddTransferSpec(teams: seq<Team>, transfers: seq<Transfer>, data: Payload): (r: AddOutcome<Transfer>)
    ensures "from_team" !in data ==> r == AddOutcome(Err(KeyError("from_team")), teams, transfers)
    ensures "from_team" in data && EnsureTeam(teams, data["from_team"]).Err? ==>
      r == AddOutcome(Err(IntegrityError("name")), teams, transfers)
    ensures "from_team" in data && EnsureTeam(teams, data["from_team"]).Ok? && "to_team" !in data ==>
      r == AddOutcome(Err(KeyError("to_team")), EnsureTeam(teams, data["from_team"]).value.0, transfers)
    ensures "from_team" in data && "to_team" in data && EnsureTeam(teams, data["from_team"]).Ok? ==>
      var afterFrom := EnsureTeam(teams, data["from_team"]).value.0;
      EnsureTeam(afterFrom, data["to_team"]).Err? ==> r == AddOutcome(Err(IntegrityError("name")), afterFrom, transfers)
    ensures TeamsResolve(teams, data) ==> r.teams == ResolvedTeams(teams, data)
    ensures r.response.Ok? <==> TeamsResolve(teams, data) && NewTransfer(data, NextId(TransferIds(transfers))).Ok?
    ensures r.response.Ok? ==>
      && r.rows == transfers + [NewTransfer(data, NextId(TransferIds(transfers))).value]
      && r.response.value == NextId(TransferIds(transfers))
    ensures TeamsResolve(teams, data) && NewTransfer(data, NextId(TransferIds(transfers))).Err? ==>
      r.response == Err(NewTransfer(data, NextId(TransferIds(transfers))).error)
    ensures r.response.Err? ==> r.rows == transfers
    ensures |teams| <= |r.teams| <= |teams| + 2 && r.teams[..|teams|] == teams
  {
    if "from_team" !in data then AddOutcome(Err(KeyError("from_team")), teams, transfers)
    else match EnsureTeam(teams, data["from_team"])
      case Err(e) => AddOutcome(Err(e), teams, transfers)
      case Ok((afterFrom, _)) =>
        if "to_team" !in data then AddOutcome(Err(KeyError("to_team")), afterFrom, transfers)
        else match EnsureTeam(afterFrom, data["to_team"])
          case Err(e) => AddOutcome(Err(e), afterFrom, transfers)
          case Ok((afterTo, _)) =>
            assert afterTo[..|teams|] == teams by {
              assert afterTo[..|teams|] == afterTo[..|afterFrom|][..|teams|];
            }
            match NewTransfer(data, NextId(TransferIds(transfers)))
            case Err(e) => AddOutcome(Err(e), afterTo, transfers)
            case Ok(t) => AddOutcome(Ok(t.id), afterTo, transfers + [t])
  }

  /**
   * A transfer between two equal names that no team has creates exactly one team, since
   * the first one is committed before the second lookup.
   */
  lemma AddTransferSameUnknownTeam(teams: seq<Team>, transfers: seq<Transfer>, data: Payload)
    requires "from_team" in data && "to_team" in data && data["from_team"] == data["to_team"]
    requires data["from_team"] != Null && FindTeam(teams, data["from_team"]).None?
    ensures |AddTransferSpec(teams, transfers, data).teams| == |teams| + 1
    ensures CountNamed(AddTransferSpec(teams, transfers, data).teams, data["from_team"]) == 1
  {
    var name := data["from_team"];
    EnsureTeamCounts(teams, name, name);
    CountNamedZero(teams, name);
    EnsureTeamIdempotent(teams, name);
  }

  /** Two names that teams already have create no team. */
  lemma AddTransferKnownTeams(teams: seq<Team>, transfers: seq<Transfer>, data: Payload)
    requires "from_team" in data && "to_team" in data
    requires FindTeam(teams, data["from_team"]).Some? && FindTeam(teams, data["to_team"]).Some?
    ensures AddTransferSpec(teams, transfers, data).teams == teams
  {
  }

  /** Two different names that no team has create one team each. */
  lemma AddTransferTwoUnknownTeams(teams: seq<Team>, transfers: seq<Transfer>, data: Payload)
    requires "from_team" in data && "to_team" in data && data["from_team"] != data["to_team"]
    requires data["from_team"] != Null && FindTeam(teams, data["from_team"]).None?
    requires data["to_team"] != Null && FindTeam(teams, data["to_team"]).None?
    ensures |AddTransferSpec(teams, transfers, data).teams| == |teams| + 2
    ensures CountNamed(AddTransferSpec(teams, transfers, data).teams, data["from_team"]) == 1
    ensures CountNamed(AddTransferSpec(teams, transfers, data).teams, data["to_team"]) == 1
  {
    var from, to := data["from_team"], data["to_team"];
    var afterFrom := EnsureTeam(teams, from).value.0;
    EnsureTeamCounts(teams, from, to);
    EnsureTeamCounts(teams, from, from);
    CountNamedZero(teams, from);
    CountNamedZero(teams, to);
    CountNamedZero(afterFrom, to);
    EnsureTeamCounts(afterFrom, to, from);
    EnsureTeamCounts(afterFrom, to, to);
  }

  lemma AddTransferKeepsValid(teams: seq<Team>, players: seq<Player>, transfers: seq<Transfer>, data: Payload)
    requires ValidTables(teams, players, transfers)
    ensures var r := AddTransferSpec(teams, transfers, data); ValidTables(r.teams, players, r.rows)
  {
    var r := AddTransferSpec(teams, transfers, data);
    if "from_team" in data && EnsureTeam(teams, data["from_team"]).Ok? {
      var afterFrom := EnsureTeam(teams, data["from_team"]).value.0;
      EnsureTeamKeepsValid(teams, players, transfers, data["from_team"]);
      if "to_team" in data && EnsureTeam(afterFrom, data["to_team"]).Ok? {
        EnsureTeamKeepsValid(afterFrom, players, transfers, data["to_team"]);
        if r.response.Ok? {
          var afterTo := EnsureTeam(afterFrom, data["to_team"]).value.0;
          var t := NewTransfer(data, NextId(TransferIds(transfers))).value;
          assert r.rows == transfers + [t];
          AppendTransferKeepsValid(afterTo, players, transfers, t);
        }
      }
    }
  }

  lemma AppendTransferKeepsValid(teams: seq<Team>, players: seq<Player>, transfers: seq<Transfer>, t: Transfer)
    requires ValidTables(teams, players, transfers) && t.id == NextId(TransferIds(transfers))
    ensures ValidTables(teams, players, transfers + [t])
  {
    assert TransferIds(transfers + [t]) == TransferIds(transfers) + [t.id];
    AppendFreshId(TransferIds(transfers), t.id);
  }

  // ---------------------------------------------------------------- update_player

  /** The attributes `update_player` copies with `setattr` when their key is present. */
  const Whitelist: seq<Column> :=
    [Name, Position, Price, ContractDuration, YearsLeft, OnLoan, LoanTeam, Statistics,
     SellOnClause, SellOnPercentage, Nationality, NationalityFlag]

  /** The attributes after the copy loop has run over `fields`: each present key overrides. */
  function MergeFields(attrs: map<Column, Value>, data: Payload, fields: seq<Column>): (m: map<Column, Value>)
    ensures forall c :: c in m <==> c in attrs || (c in fields && Key(c) in data)
    ensures forall c :: c in m ==> m[c] == if c in fields && Key(c) in data then data[Key(c)] else attrs[c]
  {
    if fields == [] then attrs
    else
      var m := MergeFields(attrs, data, fields[..|fields| - 1]);
      var f := fields[|fields| - 1];
      assert forall c :: c in fields <==> c in fields[..|fields| - 1] || c == f;
      if Key(f) in data then m[f := data[Key(f)]] else m
  }

  /** One more field of the copy loop. */
  lemma MergeFieldsSnoc(attrs: map<Column, Value>, data: Payload, fields: seq<Column>, f: Column)
    ensures MergeFields(attrs, data, fields + [f])
         == var m := MergeFields(attrs, data, fields); if Key(f) in data then m[f := data[Key(f)]] else m
  {
    assert (fields + [f])[..|fields|] == fields;
  }

  /** The `setattr` loop over `fields` (the whitelist, in `update_player`). */
  method CopyFields(attrs: map<Column, Value>, data: Payload, fields: seq<Column>) returns (merged: map<Column, Value>)
    ensures merged == MergeFields(attrs, data, fields)
  {
    merged := attrs;
    for k := 0 to |fields|
      invariant merged == MergeFields(attrs, data, fields[..k])
    {
      var field := fields[k];
      assert fields[..k + 1] == fields[..k] + [field];
      MergeFieldsSnoc(attrs, data, fields[..k], field);
      if Key(field) in data {
        merged := merged[field := data[Key(field)]];
      }
    }
    assert fields[..|fields|] == fields;
  }

  /** The team `update_player` assigns: the first team of the given name, else the current one. */
  function ReassignedTeam(teamId: int, teams: seq<Team>, data: Payload): (id: int)
    ensures "team" !in data || FindTeam(teams, data["team"]).None? ==> id == teamId
    ensures "team" in data && FindTeam(teams, data["team"]).Some? ==>
      id == teams[FindTeam(teams, data["team"]).value].id
  {
    if "team" in data then
      match FindTeam(teams, data["team"])
      case Some(i) => teams[i].id
      case None => teamId
    else teamId
  }

  /** The dates of an `update_player` body parse: a present start date is a string, and so is a present truthy signing date. */
  predicate DatesParse(data: Payload)
  {
    && (Key(ContractStartDate) in data ==> data[Key(ContractStartDate)].Str?)
    && (Key(SigningDate) in data && Truthy(data[Key(SigningDate)]) ==> data[Key(SigningDate)].Str?)
  }

  /** A date column of `update_player`: parsed when its key is present, kept when absent. */
  function PatchedDates(attrs: map<Column, Value>, data: Payload): (r: Result<map<Column, Value>, ServerError>)
    ensures r.Ok? ==> forall c :: c in r.value <==>
      c in attrs || (c == ContractStartDate && Key(c) in data) || (c == SigningDate && Key(c) in data)
    ensures r.Ok? ==> forall c :: c in attrs && c != ContractStartDate && c != SigningDate ==> r.value[c] == attrs[c]
    ensures Key(ContractStartDate) in data && !data[Key(ContractStartDate)].Str? ==> r == Err(TypeError(Key(ContractStartDate)))
    ensures r.Ok? && Key(ContractStartDate) in data ==> r.value[ContractStartDate] == Date(data[Key(ContractStartDate)].s)
    ensures r.Ok? && Key(ContractStartDate) !in data && ContractStartDate in attrs ==> r.value[ContractStartDate] == attrs[ContractStartDate]
    ensures r.Ok? && Key(SigningDate) in data && !Truthy(data[Key(SigningDate)]) ==> r.value[SigningDate] == Null
    ensures r.Ok? && Key(SigningDate) in data && Truthy(data[Key(SigningDate)]) ==>
      data[Key(SigningDate)].Str? && r.value[SigningDate] == Date(data[Key(SigningDate)].s)
    ensures r.Ok? && Key(SigningDate) !in data && SigningDate in attrs ==> r.value[SigningDate] == attrs[SigningDate]
    ensures r.Ok? <==> DatesParse(data)
    ensures r.Err? ==> r.error.TypeError?
  {
    var start :=
      if Key(ContractStartDate) in data then Strptime(data[Key(ContractStartDate)], Key(ContractStartDate))
      else Ok(Null);
    if start.Err? then Err(start.error)
    else
      var attrs1 := if Key(ContractStartDate) in data then attrs[ContractStartDate := start.value] else attrs;
      var sdKey := Key(SigningDate);
      if sdKey !in data then Ok(attrs1)
      else if !Truthy(data[sdKey]) then Ok(attrs1[SigningDate := Null])
      else match Strptime(data[sdKey], sdKey)
        case Err(e) => Err(e)
        case Ok(d) => Ok(attrs1[SigningDate := d])
  }

  /**
   * A NOT NULL column is filled after `update_player`: the body's value is not null when
   * the body has the key (a start date always parses to a date), else the stored one is.
   */
  predicate StaysFilled(attrs: map<Column, Value>, data: Payload, c: Column)
  {
    if Key(c) in data then c == ContractStartDate || data[Key(c)] != Null else Filled(attrs, c)
  }

  /** A body `update_player` commits for a player: its dates parse and every NOT NULL column stays filled. */
  predicate Updatable(p: Player, data: Payload)
  {
    DatesParse(data) && forall j :: 0 <= j < |NotNullColumns| ==> StaysFilled(p.attrs, data, NotNullColumns[j])
  }

  /** After the copy loop and the dates, a NOT NULL column is filled exactly when it stays filled. */
  lemma PatchedFilled(attrs: map<Column, Value>, data: Payload)
    requires PatchedDates(MergeFields(attrs, data, Whitelist), data).Ok?
    ensures var m := PatchedDates(MergeFields(attrs, data, Whitelist), data).value;
      forall j :: 0 <= j < |NotNullColumns| ==> (Filled(m, NotNullColumns[j]) <==> StaysFilled(attrs, data, NotNullColumns[j]))
  {
    forall j | 0 <= j < |NotNullColumns|
      ensures Filled(PatchedDates(MergeFields(attrs, data, Whitelist), data).value, NotNullColumns[j])
        == StaysFilled(attrs, data, NotNullColumns[j])
    {
      PatchedColumnFilled(attrs, data, NotNullColumns[j]);
    }
  }

  lemma PatchedColumnFilled(attrs: map<Column, Value>, data: Payload, c: Column)
    requires PatchedDates(MergeFields(attrs, data, Whitelist), data).Ok? && c in NotNullColumns
    ensures Filled(PatchedDates(MergeFields(attrs, data, Whitelist), data).value, c) == StaysFilled(attrs, data, c)
  {
    if c == ContractStartDate {
      PatchedStart(attrs, data);
    } else {
      NotNullWhitelisted(c);
      PatchedCopied(attrs, data, c);
    }
  }

  /** Every NOT NULL column but the start date is copied by `update_player`. */
  lemma NotNullWhitelisted(c: Column)
    requires c in NotNullColumns && c != ContractStartDate
    ensures c in Whitelist
  {
  }

  /** The start date after `update_player`: the parsed body value when it has the key, else the stored one. */
  lemma PatchedStart(attrs: map<Column, Value>, data: Payload)
    requires PatchedDates(MergeFields(attrs, data, Whitelist), data).Ok?
    ensures var m := PatchedDates(MergeFields(attrs, data, Whitelist), data).value;
      && (ContractStartDate in m <==> ContractStartDate in attrs || Key(ContractStartDate) in data)
      && (Key(ContractStartDate) in data ==> m[ContractStartDate] == Date(data[Key(ContractStartDate)].s))
      && (Key(ContractStartDate) !in data && ContractStartDate in attrs ==> m[ContractStartDate] == attrs[ContractStartDate])
  {
    assert ContractStartDate !in Whitelist;
  }

  /** A whitelisted column after the copy loop and the dates: the body's value when it has the key, else the stored one. */
  lemma PatchedCopied(attrs: map<Column, Value>, data: Payload, c: Column)
    requires PatchedDates(MergeFields(attrs, data, Whitelist), data).Ok? && c in Whitelist
    ensures var m := PatchedDates(MergeFields(attrs, data, Whitelist), data).value;
      && (c in m <==> c in attrs || Key(c) in data)
      && (c in m ==> m[c] == if Key(c) in data then data[Key(c)] else attrs[c])
  {
    WhitelistSkipsDates(c);
  }

  /**
   * The player after `update_player`, or the error that rolls the request back: a date that
   * is not a string, or a NOT NULL column set to null.
   */
  function PatchedPlayer(p: Player, teams: seq<Team>, data: Payload): (r: Result<Player, ServerError>)
    ensures r.Ok? ==> r.value.id == p.id && r.value.teamId == ReassignedTeam(p.teamId, teams, data)
    ensures r.Ok? ==>
      && PatchedDates(MergeFields(p.attrs, data, Whitelist), data).Ok?
      && r.value.attrs == PatchedDates(MergeFields(p.attrs, data, Whitelist), data).value
    ensures r.Ok? ==> forall j :: 0 <= j < |NotNullColumns| ==> Filled(r.value.attrs, NotNullColumns[j])
    ensures Key(ContractStartDate) in data && !data[Key(ContractStartDate)].Str? ==> r == Err(TypeError(Key(ContractStartDate)))
    ensures r.Err? ==> r.error.TypeError? || r.error.IntegrityError?
  {
    var merged := MergeFields(p.attrs, data, Whitelist);
    match PatchedDates(merged, data)
    case Err(e) => Err(e)
    case Ok(attrs) =>
      match FindFirst(NotNullColumns, NullIn(attrs))
      case Some(j) => Err(IntegrityError(Key(NotNullColumns[j])))
      case None => Ok(Player(p.id, ReassignedTeam(p.teamId, teams, data), attrs))
  }

  /** `update_player` commits exactly when the dates parse and no NOT NULL column ends up null. */
  lemma PatchedPlayerCommits(p: Player, teams: seq<Team>, data: Payload)
    ensures PatchedPlayer(p, teams, data).Ok? <==> Updatable(p, data)
  {
    var merged := MergeFields(p.attrs, data, Whitelist);
    if PatchedDates(merged, data).Ok? {
      PatchedFilled(p.attrs, data);
      var m := PatchedDates(merged, data).value;
      assert PatchedPlayer(p, teams, data).Ok? <==> FindFirst(NotNullColumns, NullIn(m)).None?;
    }
  }

  lemma WhitelistSkipsDates(c: Column)
    requires c in Whitelist
    ensures c != ContractStartDate && c != SigningDate
  {
  }

  /** `update_player` copies every whitelisted key the body has. */
  lemma PatchCopiesWhitelisted(p: Player, teams: seq<Team>, data: Payload, c: Column)
    requires PatchedPlayer(p, teams, data).Ok? && c in Whitelist && Key(c) in data
    ensures PatchedPlayer(p, teams, data).value.attrs[c] == data[Key(c)]
  {
    var merged := MergeFields(p.attrs, data, Whitelist);
    WhitelistSkipsDates(c);
    assert c in merged && merged[c] == data[Key(c)];
    assert PatchedDates(merged, data).Ok?;
  }

  /** An empty body commits for a player whose NOT NULL columns are filled, and changes nothing. */
  lemma PatchEmptyBodyIdentity(p: Player, teams: seq<Team>)
    requires NotNullFilled(p.attrs)
    ensures PatchedPlayer(p, teams, map[]) == Ok(p)
  {
    var empty: Payload := map[];
    PatchedPlayerCommits(p, teams, empty);
    assert Updatable(p, empty);
    var merged := MergeFields(p.attrs, empty, Whitelist);
    assert merged == p.attrs;
    assert PatchedDates(merged, empty) == Ok(p.attrs);
  }

  /** A column whose key the body lacks keeps its value. */
  lemma PatchKeepsAbsent(p: Player, teams: seq<Team>, data: Payload, c: Column)
    requires PatchedPlayer(p, teams, data).Ok? && c in p.attrs && Key(c) !in data
    ensures c in PatchedPlayer(p, teams, data).value.attrs
    ensures PatchedPlayer(p, teams, data).value.attrs[c] == p.attrs[c]
  {
    var merged := MergeFields(p.attrs, data, Whitelist);
    assert c in merged && merged[c] == p.attrs[c];
  }

  /** A present but empty (falsy) `signing_date` clears the date. */
  lemma PatchClearsEmptySigningDate(p: Player, teams: seq<Team>, data: Payload)
    requires PatchedPlayer(p, teams, data).Ok?
    requires Key(SigningDate) in data && !Truthy(data[Key(SigningDate)])
    ensures PatchedPlayer(p, teams, data).value.attrs[SigningDate] == Null
  {
  }

  /** No column is lost. */
  lemma PatchKeepsComplete(p: Player, teams: seq<Team>, data: Payload)
    requires PatchedPlayer(p, teams, data).Ok? && Complete(p)
    ensures Complete(PatchedPlayer(p, teams, data).value)
  {
    var merged := MergeFields(p.attrs, data, Whitelist);
    assert forall c: Column :: c in merged;
  }

  /** Two bodies with the same keys and values for every column. */
  predicate AgreeOnColumns(data: Payload, data': Payload)
  {
    forall c: Column :: (Key(c) in data <==> Key(c) in data') && (Key(c) in data ==> data[Key(c)] == data'[Key(c)])
  }

  lemma MergeFieldsAgree(attrs: map<Column, Value>, data: Payload, data': Payload, fields: seq<Column>)
    requires AgreeOnColumns(data, data')
    ensures MergeFields(attrs, data, fields) == MergeFields(attrs, data', fields)
  {
  }

  lemma PatchedDatesAgree(attrs: map<Column, Value>, data: Payload, data': Payload)
    requires AgreeOnColumns(data, data')
    ensures PatchedDates(attrs, data) == PatchedDates(attrs, data')
  {
    assert Key(ContractStartDate) in data <==> Key(ContractStartDate) in data';
    assert Key(SigningDate) in data <==> Key(SigningDate) in data';
  }

  /** Keys that name no column and are not `team` (say `jersey_number` or `id`) change nothing. */
  lemma PatchIgnoresUnknownKeys(p: Player, teams: seq<Team>, data: Payload, key: string, v: Value)
    requires key != "team" && forall c: Column :: Key(c) != key
    requires key !in data
    ensures PatchedPlayer(p, teams, data[key := v]) == PatchedPlayer(p, teams, data)
  {
    var data' := data[key := v];
    assert AgreeOnColumns(data, data');
    MergeFieldsAgree(p.attrs, data, data', Whitelist);
    var m := MergeFields(p.attrs, data, Whitelist);
    PatchedDatesAgree(m, data, data');
    assert ("team" in data' <==> "team" in data) && ("team" in data ==> data'["team"] == data["team"]);
    assert ReassignedTeam(p.teamId, teams, data') == ReassignedTeam(p.teamId, teams, data);
  }

  /** `update_player` reassigns only to an existing team: an unknown name keeps the team. */
  lemma PatchUnknownTeamKeepsTeam(p: Player, teams: seq<Team>, data: Payload)
    requires "team" in data && CountNamed(teams, data["team"]) == 0
    requires PatchedPlayer(p, teams, data).Ok?
    ensures PatchedPlayer(p, teams, data).value.teamId == p.teamId
  {
    CountNamedZero(teams, data["team"]);
  }

  /** The first player with an id (ids are unique, so the only one). */
  function FindPlayer(players: seq<Player>, id: int): (r: Option<nat>)
    ensures r.None? ==> forall i :: 0 <= i < |players| ==> players[i].id != id
    ensures r.Some? ==> r.value < |players| && players[r.value].id == id
    ensures r.Some? ==> forall i :: 0 <= i < r.value ==> players[i].id != id
  {
    FindFirst(players, (p: Player) => p.id == id)
  }

  /** What an update answers (its success message carries no value) and the table it leaves. */
  datatype UpdateOutcome<R> = UpdateOutcome(response: Result<(), ServerError>, rows: seq<R>)

  /**
   * The commit of an update: NotFound when no row has the id, the table as it was when
   * the patch fails, else the found row replaced by its patched value.
   */
  function UpdateRow<R>(rows: seq<R>, found: Option<nat>, patched: Result<R, ServerError>): (r: UpdateOutcome<R>)
    requires found.Some? ==> found.value < |rows|
    ensures found.None? ==> r == UpdateOutcome(Err(NotFound), rows)
    ensures found.Some? && patched.Err? ==> r == UpdateOutcome(Err(patched.error), rows)
    ensures found.Some? && patched.Ok? ==> r == UpdateOutcome(Ok(()), rows[found.value := patched.value])
  {
    match found
    case None => UpdateOutcome(Err(NotFound), rows)
    case Some(i) =>
      match patched
      case Err(e) => UpdateOutcome(Err(e), rows)
      case Ok(q) => UpdateOutcome(Ok(()), rows[i := q])
  }

  /**
   * `update_player`: the player with `playerId` replaced by its patched row; on any error
   * the session is not committed and the table is as before.  It never adds a team.
   */
  function UpdatePlayerSpec(teams: seq<Team>, players: seq<Player>, playerId: int, data: Payload): (r: UpdateOutcome<Player>)
    ensures FindPlayer(players, playerId).None? ==> r == UpdateOutcome(Err(NotFound), players)
    ensures FindPlayer(players, playerId).Some? ==>
      var i := FindPlayer(players, playerId).value;
      var patched := PatchedPlayer(players[i], teams, data);
      && (patched.Err? ==> r == UpdateOutcome(Err(patched.error), players))
      && (patched.Ok? ==> r == UpdateOutcome(Ok(()), players[i := patched.value]))
  {
    var found := FindPlayer(players, playerId);
    UpdateRow(players, found, if found.Some? then PatchedPlayer(players[found.value], teams, data) else Err(NotFound))
  }

  /**
   * `update_player` changes no row but the one with that id,
   * and on any error leaves the table as it was.
   */
  lemma UpdatePlayerOnlyFound(teams: seq<Team>, players: seq<Player>, playerId: int, data: Payload)
    ensures var r := UpdatePlayerSpec(teams, players, playerId, data);
      && |r.rows| == |players|
      && (forall i :: 0 <= i < |players| && players[i].id != playerId ==> r.rows[i] == players[i])
      && (r.response.Err? ==> r.rows == players)
      && (r.response == Err(NotFound) <==> forall i :: 0 <= i < |players| ==> players[i].id != playerId)
  {
  }

  /** On valid tables an empty body changes no row, and succeeds exactly when a player has the id. */
  lemma UpdateEmptyBodyIdentity(teams: seq<Team>, players: seq<Player>, transfers: seq<Transfer>, playerId: int)
    requires ValidTables(teams, players, transfers)
    ensures var r := UpdatePlayerSpec(teams, players, playerId, map[]);
      && r.rows == players
      && (r.response.Ok? <==> exists i :: 0 <= i < |players| && players[i].id == playerId)
  {
    var found := FindPlayer(players, playerId);
    if found.Some? {
      PatchEmptyBodyIdentity(players[found.value], teams);
    }
  }

  lemma UpdatePlayerKeepsValid(teams: seq<Team>, players: seq<Player>, transfers: seq<Transfer>, playerId: int, data: Payload)
    requires ValidTables(teams, players, transfers)
    ensures ValidTables(teams, UpdatePlayerSpec(teams, players, playerId, data).rows, transfers)
  {
    var r := UpdatePlayerSpec(teams, players, playerId, data);
    if r.response.Ok? {
      var i := FindPlayer(players, playerId).value;
      var q := PatchedPlayer(players[i], teams, data).value;
      PatchKeepsComplete(players[i], teams, data);
      ReplacePlayerKeepsValid(teams, players, transfers, i, q);
    }
  }

  /** Replacing a player by a complete, filled row with the same id keeps the tables valid. */
  lemma ReplacePlayerKeepsValid(teams: seq<Team>, players: seq<Player>, transfers: seq<Transfer>, i: nat, q: Player)
    requires ValidTables(teams, players, transfers) && i < |players| && q.id == players[i].id
    requires Complete(q) && NotNullFilled(q.attrs)
    ensures ValidTables(teams, players[i := q], transfers)
  {
    assert PlayerIds(players[i := q]) == PlayerIds(players);
  }

  // ---------------------------------------------------------------- update_team

  /** `update_team` on one team: `name` and `team_logo` default to their current values. */
  function PatchedTeam(t: Team, data: Payload): (r: Result<Team, ServerError>)
    ensures r.Ok? ==> r.value.id == t.id
    ensures r.Ok? ==> r.value.name == (if "name" in data then data["name"] else t.name)
    ensures r.Ok? ==> r.value.teamLogo == (if "team_logo" in data then data["team_logo"] else t.teamLogo)
    ensures r.Err? <==> GetOr(data, "name", t.name) == Null
  {
    var name := GetOr(data, "name", t.name);
    if name == Null then Err(IntegrityError("name"))
    else Ok(Team(t.id, name, GetOr(data, "team_logo", t.teamLogo)))
  }

  /** An empty body leaves a named team as it is; applying the same body twice is applying it once. */
  lemma PatchedTeamDefaults(t: Team, data: Payload)
    ensures t.name != Null ==> PatchedTeam(t, map[]) == Ok(t)
    ensures PatchedTeam(t, data).Ok? ==> PatchedTeam(PatchedTeam(t, data).value, data) == PatchedTeam(t, data)
  {
  }

  /** `Team.query.get_or_404(team_id)`: the first team with an id (ids are unique, so the only one). */
  function FindTeamById(teams: seq<Team>, id: int): (r: Option<nat>)
    ensures r.None? ==> forall i :: 0 <= i < |teams| ==> teams[i].id != id
    ensures r.Some? ==> r.value < |teams| && teams[r.value].id == id
    ensures r.Some? ==> forall i :: 0 <= i < r.value ==> teams[i].id != id
  {
    FindFirst(teams, (t: Team) => t.id == id)
  }

  /** `update_team`: the team with `teamId` patched, every other team unchanged. */
  function UpdateTeamSpec(teams: seq<Team>, teamId: int, data: Payload): (r: UpdateOutcome<Team>)
    ensures FindTeamById(teams, teamId).None? ==> r == UpdateOutcome(Err(NotFound), teams)
    ensures FindTeamById(teams, teamId).Some? ==>
      var i := FindTeamById(teams, teamId).value;
      && (GetOr(data, "name", teams[i].name) == Null ==> r == UpdateOutcome(Err(IntegrityError("name")), teams))
      && (GetOr(data, "name", teams[i].name) != Null ==> r == UpdateOutcome(Ok(()), teams[i := PatchedTeam(teams[i], data).value]))
    ensures |r.rows| == |teams|
    ensures forall i :: 0 <= i < |teams| && teams[i].id != teamId ==> r.rows[i] == teams[i]
  {
    var found := FindTeamById(teams, teamId);
    UpdateRow(teams, found, if found.Some? then PatchedTeam(teams[found.value], data) else Err(NotFound))
  }

  lemma UpdateTeamKeepsValid(teams: seq<Team>, players: seq<Player>, transfers: seq<Transfer>, teamId: int, data: Payload)
    requires ValidTables(teams, players, transfers)
    ensures ValidTables(UpdateTeamSpec(teams, teamId, data).rows, players, transfers)
  {
    var r := UpdateTeamSpec(teams, teamId, data);
    if r.response.Ok? {
      assert TeamIds(r.rows) == TeamIds(teams);
    }
  }

  // ---------------------------------------------------------------- allowed_file

  const AllowedExtensions: set<string> := {"png", "jpg", "jpeg", "gif"}

  /** The lowered text is one of the allowed image extensions. */
  predicate ImageExtension(ext: string)
  {
    Lower(ext) in AllowedExtensions
  }

  /** `s[k]` is the last `'.'` of `s`. */
  predicate LastDotAt(s: string, k: int)
  {
    0 <= k < |s| && s[k] == '.' && forall i :: k < i < |s| ==> s[i] != '.'
  }

  /** A string has at most one last dot. */
  lemma LastDotUnique(s: string, k: int)
    requires LastDotAt(s, k)
    ensures forall k' :: LastDotAt(s, k') ==> k' == k
  {
  }

  /** The index of the last `'.'`. */
  function LastDot(s: string): (r: Option<nat>)
    ensures r.None? ==> forall i :: 0 <= i < |s| ==> s[i] != '.'
    ensures r.Some? ==> LastDotAt(s, r.value)
  {
    if s == [] then None
    else if s[|s| - 1] == '.' then Some(|s| - 1)
    else LastDot(s[..|s| - 1])
  }

  /** `allowed_file`: a dot, and after the last dot one of the image extensions, in any case. */
  function AllowedFile(filename: string): (ok: bool)
    ensures ok <==> exists k :: LastDotAt(filename, k) && ImageExtension(filename[k + 1..])
  {
    match LastDot(filename)
    case None => false
    case Some(k) =>
      LastDotUnique(filename, k);
      ImageExtension(filename[k + 1..])
  }

  /** Lowering keeps every dot where it is. */
  lemma LowerDots(s: string)
    ensures forall i :: 0 <= i < |s| ==> (Lower(s)[i] == '.' <==> s[i] == '.')
  {
  }

  /** The check ignores case. */
  lemma AllowedFileIgnoresCase(filename: string)
    ensures AllowedFile(Lower(filename)) == AllowedFile(filename)
  {
    var lowered := Lower(filename);
    LowerDots(filename);
    assert LastDot(lowered) == LastDot(filename) by {
      LastDotAgrees(filename, lowered);
    }
    if LastDot(filename).Some? {
      var k := LastDot(filename).value;
      LowerSuffix(filename, k + 1);
      LowerIdempotent(filename[k + 1..]);
    }
  }

  /** An upper-case extension passes. */
  lemma AllowedUpperCase()
    ensures AllowedFile("a.PNG")
  {
    assert LastDotAt("a.PNG", 1);
    assert "a.PNG"[2..] == "PNG";
    LowerIs("PNG", "png");
  }

  /** Only the text after the last dot is the extension. */
  lemma AllowedLastOfTwoExtensions()
    ensures AllowedFile("x.tar.gif")
  {
    assert LastDotAt("x.tar.gif", 5);
    assert "x.tar.gif"[6..] == "gif";
    LowerIs("gif", "gif");
  }

  /** A name that is only an extension has no dot. */
  lemma RejectedWithoutDot()
    ensures !AllowedFile("png")
  {
    assert forall i :: 0 <= i < |"png"| ==> "png"[i] != '.';
  }

  /** An image extension followed by another one does not pass. */
  lemma RejectedLastExtension()
    ensures !AllowedFile("a.png.exe")
  {
    assert LastDotAt("a.png.exe", 5);
    assert "a.png.exe"[6..] == "exe";
    LowerIs("exe", "exe");
  }

  lemma {:induction false} LastDotAgrees(s: string, t: string)
    requires |s| == |t| && forall i :: 0 <= i < |s| ==> (t[i] == '.' <==> s[i] == '.')
    ensures LastDot(t) == LastDot(s)
  {
    if s != [] {
      LastDotAgrees(s[..|s| - 1], t[..|t| - 1]);
    }
  }
}
