/**
 * The Windows Search backend: a query string goes through the search
 * manager's query helper to become SQL, the SQL runs on the OLE DB
 * provider `Search.CollatorDSO.1`, and the resulting rowset is walked one
 * row at a time, each row read column by column through a fixed 512-unit
 * UTF-16 buffer.
 *
 * The COM layer is an oracle: every native call that can fail is named by a
 * `Stage` (before the rowset exists) or a `NativeCall` (on the rowset), and a
 * map says which of them fail and with which HRESULT text.
 */
module WindowsSearch {
  import opened Wrappers
  import opened Text

  /** One hit: (System.FileName, System.ItemUrl, System.Size). */
  type SearchData = (string, string, string)

  /**
   * The error taxonomy. `GetData` and `ReleaseAccessor` carry the number of
   * rows completed so far and then the column index; `ReleaseRows` carries
   * the row count after the row was counted. `Exeute` keeps the source's
   * spelling.
   */
  datatype SearchLocalFileError =
    | CreateAccessor(message: string)
    | Cast(message: string, castTo: string)
    | GetData(message: string, row: nat, column: nat)
    | ReleaseAccessor(message: string, row: nat, column: nat)
    | ReleaseRows(message: string, count: nat)
    | CoCreateInstance(message: string, castTo: string)
    | GetDataSource(message: string)
    | CreateSession(message: string)
    | CreateCommand(message: string)
    | DBInitialize(message: string)
    | SetCommandText(message: string, sql: string)
    | Exeute(message: string, sql: string)
    | NotMatched(sql: string)
    | GetCatalog(message: string)
    | GetQueryHelper(message: string)
    | SetQuery(message: string, kind: string)
    | GenerateSQLFromUserQuery(message: string)
    | OleInitialize(message: string)

  // ---------------------------------------------------------------------
  // Constants of the query
  // ---------------------------------------------------------------------

  /** Width, in UTF-16 units, of the buffer each column is read into. */
  const BufferUnits: nat := 512

  /** Columns read per row, bound to ordinals 1, 2, 3. */
  const ColumnCount: nat := 3

  const CatalogName: string := "SystemIndex"
  const SelectColumns: string := "System.FileName, System.ItemUrl, System.Size"
  const WhereRestrictions: string :=
    "AND (System.FileExtension = '.pdf' OR System.FileExtension = '.png') AND System.Size < 10000000"
  const MaxResults: nat := 100

  /** What the query helper has been told before it generates SQL. */
  datatype QueryHelperConfig = QueryHelperConfig(selectColumns: string, whereRestrictions: string, maxResults: nat)

  const HelperConfig: QueryHelperConfig := QueryHelperConfig(SelectColumns, WhereRestrictions, MaxResults)

  /** The three selected properties, in ordinal order, name the fields of a record. */
  lemma SelectedPropertiesInOrdinalOrder()
    ensures SplitOn(SelectColumns, ", ") == ["System.FileName", "System.ItemUrl", "System.Size"]
  {
    var parts := ["System.FileName", "System.ItemUrl", "System.Size"];
    SelectColumnsJoined();
    assert forall k | 0 <= k < |parts| :: ',' !in parts[k] by {
      assert ',' !in parts[0] && ',' !in parts[1] && ',' !in parts[2];
    }
    SplitJoin(parts, ", ");
  }

  lemma SelectColumnsJoined()
    ensures Join(["System.FileName", "System.ItemUrl", "System.Size"], ", ") == SelectColumns
  {
    JoinThree("System.FileName", "System.ItemUrl", "System.Size", ", ");
  }

  // ---------------------------------------------------------------------
  // string_to_pcwstr and pwstr_to_string
  // ---------------------------------------------------------------------

  /**
   * The wide string handed to the query helper: the UTF-16 units of `s`
   * pushed one character at a time, then one terminating zero.
   */
  method StringToPcwstr(s: string) returns (v: seq<u16>)
    ensures v == Encode(s) + [0]
    ensures v[|v| - 1] == 0 && DecodeLossy(v[..|v| - 1]) == s
    ensures Nul !in s ==> UpTo(v, 0) == Encode(s)
  {
    v := [];
    for k := 0 to |s|
      invariant v == Encode(s[..k])
    {
      assert s[..k + 1] == s[..k] + [s[k]];
      EncodeSnoc(s[..k], s[k]);
      v := v + EncodeChar(s[k]);
    }
    assert s[..|s|] == s;
    v := v + [0];
    assert v[..|v| - 1] == Encode(s);
    DecodeEncode(s);
    if Nul !in s {
      EncodeNul(s);
      UpToTerminated(Encode(s));
    }
  }

  /** The units before an appended terminator are all that `UpTo` keeps. */
  lemma {:induction false} UpToTerminated(us: seq<u16>)
    requires 0 !in us
    ensures UpTo(us + [0], 0) == us
    decreases |us|
  {
    if us != [] {
      assert (us + [0])[1..] == us[1..] + [0];
      UpToTerminated(us[1..]);
    }
  }

  /**
   * `PWSTR::to_string().unwrap_or(String::new())`: the units up to the
   * terminator, strictly decoded, or the empty string when they are not
   * well-formed UTF-16.
   */
  function PwstrToString(sql: seq<u16>): (r: string)
    ensures Nul !in r
    ensures WellFormed(UpTo(sql, 0)) ==> Encode(r) == UpTo(sql, 0)
  {
    var body := UpTo(sql, 0);
    DecodeNul(body);
    if WellFormed(body) then
      EncodeDecode(body);
      DecodeLossy(body)
    else ""
  }

  /** Well-formed units are the encoding of what they decode to. */
  lemma {:induction false} EncodeDecode(us: seq<u16>)
    requires WellFormed(us)
    ensures Encode(DecodeLossy(us)) == us
    decreases |us|
  {
    if us != [] {
      if IsHighSurrogate(us[0]) {
        var c := PairToChar(us[0], us[1]);
        EncodeDecode(us[2..]);
        assert DecodeLossy(us) == [c] + DecodeLossy(us[2..]);
        assert EncodeChar(c) == us[..2];
        assert us == us[..2] + us[2..];
      } else {
        EncodeDecode(us[1..]);
        assert DecodeLossy(us) == [us[0] as char] + DecodeLossy(us[1..]);
        assert us == [us[0]] + us[1..];
      }
    }
  }

  // ---------------------------------------------------------------------
  // The stage chain: OLE init, SQL generation, data source, session,
  // command, execute
  // ---------------------------------------------------------------------

  /** Every native call made before a rowset exists, in the order the code makes them. */
  datatype Stage =
    | OleInit
    | CoCreateSearchManager | GetCatalogCall | GetQueryHelperCall
    | SetSelectColumns | SetWhereRestrictions | SetMaxResults | GenerateSql
    | CoCreateDataInitialize | GetDataSourceCall | CastToDBInitialize | InitializeCall
    | CastToCreateSession | CreateSessionCall | CastToCreateCommand | CreateCommandCall
    | CastToCommandText | SetCommandTextCall | ExecuteCall

  /**
   * The COM environment of one call: the stages that fail (with their
   * HRESULT text), the SQL the query helper of a named catalog generates
   * for a configuration and a wide user query, and whether `Execute` hands
   * back a rowset.
   */
  datatype ComEnv = ComEnv(
    failures: map<Stage, string>,
    generate: (string, QueryHelperConfig, seq<u16>) -> seq<u16>,
    rowsetReturned: bool)

  /** The raw outcome of one native call. */
  function Call(env: ComEnv, s: Stage): (r: Result<(), string>)
    ensures r.Failure? <==> s in env.failures
  {
    if s in env.failures then Failure(env.failures[s]) else Success(())
  }

  /**
   * The error each call's `map_err` turns its HRESULT text into; the two
   * calls that take the SQL also carry its text.
   */
  function StageError(s: Stage, message: string, sqlText: string): SearchLocalFileError
  {
    match s
    case OleInit => OleInitialize(message)
    case CoCreateSearchManager => CoCreateInstance(message, "ISearchManager")
    case GetCatalogCall => GetCatalog(message)
    case GetQueryHelperCall => GetQueryHelper(message)
    case SetSelectColumns => SetQuery(message, "QuerySelectColumns")
    case SetWhereRestrictions => SetQuery(message, "QueryWhereRestrictions")
    case SetMaxResults => SetQuery(message, "QueryMaxResults")
    case GenerateSql => GenerateSQLFromUserQuery(message)
    case CoCreateDataInitialize => CoCreateInstance(message, "IDataInitialize")
    case GetDataSourceCall => GetDataSource(message)
    case CastToDBInitialize => Cast(message, "IDBInitialize")
    case InitializeCall => DBInitialize(message)
    case CastToCreateSession => Cast(message, "IDBCreateSession")
    case CreateSessionCall => CreateSession(message)
    case CastToCreateCommand => Cast(message, "IDBCreateCommand")
    case CreateCommandCall => CreateCommand(message)
    case CastToCommandText => Cast(message, "ICommandText")
    case SetCommandTextCall => SetCommandText(message, sqlText)
    case ExecuteCall => Exeute(message, sqlText)
  }

  /** A run of calls each followed by `map_err(..)?`: stop at the first failure. */
  function RunStages(env: ComEnv, stages: seq<Stage>, sqlText: string): Result<(), SearchLocalFileError>
    decreases |stages|
  {
    if stages == [] then Success(())
    else
      var _ :- Call(env, stages[0]).MapError(e => StageError(stages[0], e, sqlText));
      RunStages(env, stages[1..], sqlText)
  }

  const SearchQueryStages: seq<Stage> := [
    CoCreateSearchManager, GetCatalogCall, GetQueryHelperCall,
    SetSelectColumns, SetWhereRestrictions, SetMaxResults, GenerateSql]

  const DbInitializeStages: seq<Stage> := [CoCreateDataInitialize, GetDataSourceCall, CastToDBInitialize]

  const CommandStages: seq<Stage> := [
    CastToCreateSession, CreateSessionCall, CastToCreateCommand, CreateCommandCall, CastToCommandText]

  const CommandTextStages: seq<Stage> := [SetCommandTextCall, ExecuteCall]

  /**
   * The SQL the query helper of the `SystemIndex` catalog generates for
   * `query` (given as a NUL-terminated wide string).
   */
  function GeneratedSql(env: ComEnv, query: string): seq<u16>
  {
    env.generate(CatalogName, HelperConfig, Encode(query) + [0])
  }

  /**
   * A run of calls succeeds exactly when none of them fails, and otherwise
   * carries the tagged error of the first one that does.
   */
  lemma RunStagesOutcome(env: ComEnv, stages: seq<Stage>, sqlText: string)
    ensures RunStages(env, stages, sqlText).Success? <==> forall s | s in stages :: s !in env.failures
    ensures RunStages(env, stages, sqlText).Failure? ==>
      FirstFailure(env.failures, stages).Some? &&
      RunStages(env, stages, sqlText).error ==
        StageError(FirstFailure(env.failures, stages).value, env.failures[FirstFailure(env.failures, stages).value], sqlText)
  {
    RunStagesIsChain(env, stages, sqlText);
    if FirstFailure(env.failures, stages).None? {
      assert forall s | s in stages :: s !in env.failures by {
        forall s | s in stages ensures s !in env.failures {
          var k :| 0 <= k < |stages| && stages[k] == s;
        }
      }
    }
  }

  /** The errors the calls of `create_search_query` map their failures to. */
  lemma SearchQueryErrors()
    ensures forall s, m, t | s in SearchQueryStages :: var e := StageError(s, m, t);
      (e.CoCreateInstance? && e.castTo == "ISearchManager") || e.GetCatalog? ||
      e.GetQueryHelper? || e.GenerateSQLFromUserQuery? ||
      (e.SetQuery? && e.kind in {"QuerySelectColumns", "QueryWhereRestrictions", "QueryMaxResults"})
  {
  }

  /** The errors the calls of `create_db_initialize` map their failures to. */
  lemma DbInitializeErrors()
    ensures forall s, m, t | s in DbInitializeStages :: var e := StageError(s, m, t);
      (e.CoCreateInstance? && e.castTo == "IDataInitialize") || e.GetDataSource? ||
      (e.Cast? && e.castTo == "IDBInitialize")
  {
  }

  /** The errors the calls of `create_command` map their failures to. */
  lemma CommandErrors()
    ensures forall s, m, t | s in CommandStages :: var e := StageError(s, m, t);
      (e.Cast? && e.castTo in {"IDBCreateSession", "IDBCreateCommand", "ICommandText"}) ||
      e.CreateSession? || e.CreateCommand?
  {
  }

  /**
   * `create_search_query`: the search manager, the `SystemIndex` catalog, a
   * query helper told the columns, restrictions and result cap, then the
   * generated SQL.
   */
  function CreateSearchQuery(env: ComEnv, query: string): (r: Result<seq<u16>, SearchLocalFileError>)
    ensures r.Success? <==> forall s | s in SearchQueryStages :: s !in env.failures
    ensures r.Success? ==> r.value == GeneratedSql(env, query)
    ensures r.Failure? ==>
      (r.error.CoCreateInstance? && r.error.castTo == "ISearchManager") || r.error.GetCatalog? ||
      r.error.GetQueryHelper? || r.error.GenerateSQLFromUserQuery? ||
      (r.error.SetQuery? && r.error.kind in {"QuerySelectColumns", "QueryWhereRestrictions", "QueryMaxResults"})
  {
    RunStagesOutcome(env, SearchQueryStages, "");
    SearchQueryErrors();
    var _ :- RunStages(env, SearchQueryStages, "");
    Success(GeneratedSql(env, query))
  }

  /**
   * `create_db_initialize`: the data source for the `Search.CollatorDSO.1`
   * provider, cast to `IDBInitialize`.
   */
  function CreateDbInitialize(env: ComEnv): (r: Result<(), SearchLocalFileError>)
    ensures r.Success? <==> forall s | s in DbInitializeStages :: s !in env.failures
    ensures r.Failure? ==>
      (r.error.CoCreateInstance? && r.error.castTo == "IDataInitialize") || r.error.GetDataSource? ||
      (r.error.Cast? && r.error.castTo == "IDBInitialize")
  {
    RunStagesOutcome(env, DbInitializeStages, "");
    DbInitializeErrors();
    RunStages(env, DbInitializeStages, "")
  }

  /** `create_command`: a session on the data source and a command text object on it. */
  function CreateCommandText(env: ComEnv): (r: Result<(), SearchLocalFileError>)
    ensures r.Success? <==> forall s | s in CommandStages :: s !in env.failures
    ensures r.Failure? ==>
      (r.error.Cast? && r.error.castTo in {"IDBCreateSession", "IDBCreateCommand", "ICommandText"}) ||
      r.error.CreateSession? || r.error.CreateCommand?
  {
    RunStagesOutcome(env, CommandStages, "");
    CommandErrors();
    RunStages(env, CommandStages, "")
  }

  /** The calls of `execute_search_query`, list by list. */
  lemma ExecuteStagesMembers()
    ensures forall s :: s in ExecuteStages <==>
      s in DbInitializeStages || s == InitializeCall || s in CommandStages || s in CommandTextStages
  {
  }

  /** No call's failure is reported as `NotMatched`. */
  lemma StageErrorIsNotNotMatched()
    ensures forall s, m, t :: !StageError(s, m, t).NotMatched?
  {
  }

  /** `execute_search_query`: run the SQL; success means a rowset came back. */
  function ExecuteSearchQuery(env: ComEnv, sql: seq<u16>): (r: Result<(), SearchLocalFileError>)
    ensures r.Success? <==> env.rowsetReturned && forall s | s in ExecuteStages :: s !in env.failures
    ensures r.Failure? && r.error.NotMatched? <==> !env.rowsetReturned && forall s | s in ExecuteStages :: s !in env.failures
    ensures r.Failure? && r.error.NotMatched? ==> r.error.sql == PwstrToString(sql)
  {
    RunStagesOutcome(env, [InitializeCall], "");
    RunStagesOutcome(env, CommandTextStages, PwstrToString(sql));
    ExecuteStagesMembers();
    StageErrorIsNotNotMatched();
    var _ :- CreateDbInitialize(env);
    var _ :- RunStages(env, [InitializeCall], "");
    var _ :- CreateCommandText(env);
    var _ :- RunStages(env, CommandTextStages, PwstrToString(sql));
    if env.rowsetReturned then Success(()) else Failure(NotMatched(PwstrToString(sql)))
  }

  /**
   * Everything `search_local_files_by_query` does before materialising:
   * OLE initialisation, SQL generation and execution. The value is the SQL.
   */
  function Prepare(env: ComEnv, query: string): (r: Result<seq<u16>, SearchLocalFileError>)
    ensures r.Success? <==> env.rowsetReturned && forall s | s in PrepareStages :: s !in env.failures
    ensures r.Success? ==> r.value == GeneratedSql(env, query)
  {
    RunStagesOutcome(env, [OleInit], "");
    var _ :- RunStages(env, [OleInit], "");
    var sql :- CreateSearchQuery(env, query);
    var _ :- ExecuteSearchQuery(env, sql);
    Success(sql)
  }

  // Reference definition of the chain: the first failing stage of the
  // whole ordered list decides the error.

  const PrepareStages: seq<Stage> :=
    [OleInit] + SearchQueryStages + DbInitializeStages + [InitializeCall] + CommandStages + CommandTextStages

  /** The first stage of `stages` that fails. */
  function FirstFailure(failures: map<Stage, string>, stages: seq<Stage>): (r: Option<Stage>)
    ensures r.Some? ==> r.value in failures && r.value in stages
    ensures r.None? <==> forall k | 0 <= k < |stages| :: stages[k] !in failures
    decreases |stages|
  {
    if stages == [] then None
    else if stages[0] in failures then Some(stages[0])
    else FirstFailure(failures, stages[1..])
  }

  /** The tagged error of the first failing stage, or success. */
  function Chain(failures: map<Stage, string>, stages: seq<Stage>, sqlText: string): Result<(), SearchLocalFileError>
  {
    match FirstFailure(failures, stages)
    case Some(s) => Failure(StageError(s, failures[s], sqlText))
    case None => Success(())
  }

  /** Running the calls one by one stops exactly at the first failing one. */
  lemma {:induction false} RunStagesIsChain(env: ComEnv, stages: seq<Stage>, sqlText: string)
    ensures RunStages(env, stages, sqlText) == Chain(env.failures, stages, sqlText)
    decreases |stages|
  {
    if stages != [] {
      RunStagesIsChain(env, stages[1..], sqlText);
    }
  }

  /** The first failure of two lists run one after the other. */
  lemma {:induction false} FirstFailureConcat(failures: map<Stage, string>, a: seq<Stage>, b: seq<Stage>)
    ensures FirstFailure(failures, a + b) ==
      if FirstFailure(failures, a).Some? then FirstFailure(failures, a) else FirstFailure(failures, b)
    decreases |a|
  {
    if a == [] {
      assert a + b == b;
    } else {
      assert (a + b)[1..] == a[1..] + b;
      FirstFailureConcat(failures, a[1..], b);
    }
  }

  /** Running two lists one after the other. */
  lemma ChainConcat(failures: map<Stage, string>, a: seq<Stage>, b: seq<Stage>, sqlText: string)
    ensures Chain(failures, a + b, sqlText) ==
      if Chain(failures, a, sqlText).Failure? then Chain(failures, a, sqlText) else Chain(failures, b, sqlText)
  {
    FirstFailureConcat(failures, a, b);
  }

  /** Only the two calls that take the SQL carry its text. */
  lemma ChainWithoutSql(failures: map<Stage, string>, stages: seq<Stage>, t1: string, t2: string)
    requires SetCommandTextCall !in stages && ExecuteCall !in stages
    ensures Chain(failures, stages, t1) == Chain(failures, stages, t2)
  {
  }

  const ExecuteStages: seq<Stage> := DbInitializeStages + ([InitializeCall] + (CommandStages + CommandTextStages))

  /** `execute_search_query` fails at its first failing stage, or for want of a rowset. */
  lemma ExecuteIsChain(env: ComEnv, sql: seq<u16>)
    ensures ExecuteSearchQuery(env, sql) ==
      match Chain(env.failures, ExecuteStages, PwstrToString(sql))
      case Failure(e) => Failure(e)
      case Success(_) => if env.rowsetReturned then Success(()) else Failure(NotMatched(PwstrToString(sql)))
  {
    var f, t := env.failures, PwstrToString(sql);
    var c, d, e, g := DbInitializeStages, [InitializeCall], CommandStages, CommandTextStages;
    RunStagesIsChain(env, c, "");
    RunStagesIsChain(env, d, "");
    RunStagesIsChain(env, e, "");
    RunStagesIsChain(env, g, t);
    ChainWithoutSql(f, c, "", t);
    ChainWithoutSql(f, d, "", t);
    ChainWithoutSql(f, e, "", t);
    ChainConcat(f, e, g, t);
    ChainConcat(f, d, e + g, t);
    ChainConcat(f, c, d + (e + g), t);
  }

  lemma PrepareStagesSplit()
    ensures PrepareStages == [OleInit] + (SearchQueryStages + ExecuteStages)
  {
  }

  /**
   * The stages run in a fixed order and the first failing one decides the
   * error; when none fails, a missing rowset is `NotMatched` with the SQL
   * text, and otherwise the SQL is the value.
   */
  lemma FirstFailingStageWins(env: ComEnv, query: string)
    ensures Prepare(env, query) ==
      match Chain(env.failures, PrepareStages, PwstrToString(GeneratedSql(env, query)))
      case Failure(e) => Failure(e)
      case Success(_) =>
        if env.rowsetReturned then Success(GeneratedSql(env, query))
        else Failure(NotMatched(PwstrToString(GeneratedSql(env, query))))
  {
    var f, sql := env.failures, GeneratedSql(env, query);
    var t := PwstrToString(sql);
    var a, b := [OleInit], SearchQueryStages;
    RunStagesIsChain(env, a, "");
    RunStagesIsChain(env, b, "");
    ChainWithoutSql(f, a, "", t);
    ChainWithoutSql(f, b, "", t);
    ExecuteIsChain(env, sql);
    ChainConcat(f, b, ExecuteStages, t);
    ChainConcat(f, a, b + ExecuteStages, t);
    PrepareStagesSplit();
    var whole := Chain(f, PrepareStages, t);
    assert Prepare(env, query) ==
      match RunStages(env, a, "")
      case Failure(e) => Failure(e)
      case Success(_) =>
        match RunStages(env, b, "")
        case Failure(e) => Failure(e)
        case Success(_) =>
          match ExecuteSearchQuery(env, sql)
          case Failure(e) => Failure(e)
          case Success(_) => Success(sql);
    if Chain(f, a, t).Failure? {
      assert whole == Chain(f, a, t);
    } else if Chain(f, b, t).Failure? {
      assert whole == Chain(f, b, t);
    } else {
      assert whole == Chain(f, ExecuteStages, t);
    }
  }

  // ---------------------------------------------------------------------
  // The rowset oracle
  // ---------------------------------------------------------------------

  /** A native call on the rowset, named by the row position and column index it concerns. */
  datatype NativeCall =
    | CastToAccessor
    | FetchAt(position: nat)
    | CreateAccessorAt(position: nat, column: nat)
    | GetDataAt(position: nat, column: nat)
    | ReleaseAccessorAt(position: nat, column: nat)
    | ReleaseRowsAt(position: nat)

  /** A row as the provider delivers it: for each column, the units it writes into the buffer. */
  type Row = seq<seq<u16>>

  /** The rows behind a rowset and the calls on it that fail, with their HRESULT text. */
  datatype Provider = Provider(rows: seq<Row>, failures: map<NativeCall, string>)

  predicate WellFormedRow(row: Row)
  {
    |row| == ColumnCount && forall c | 0 <= c < |row| :: |row[c]| <= BufferUnits
  }

  predicate WellFormedProvider(p: Provider)
  {
    forall k | 0 <= k < |p.rows| :: WellFormedRow(p.rows[k])
  }

  /** Resource counters: accessors created and released, rows fetched and released. */
  datatype Tally = Tally(accessorsCreated: nat, accessorsReleased: nat, rowsFetched: nat, rowsReleased: nat)

  /** An accessor handle binds one column ordinal as a wide string of at most `BufferUnits` bytes. */
  datatype Accessor = Accessor(ordinal: nat)

  /** The OLE DB rowset (with its `IAccessor` side) as seen by the materialiser. */
  class NativeRowset {
    const provider: Provider
    var position: nat
    var tally: Tally

    ghost predicate Valid()
      reads this
    {
      WellFormedProvider(provider) && position <= |provider.rows|
    }

    constructor (p: Provider)
      requires WellFormedProvider(p)
      ensures Valid() && provider == p && position == 0 && tally == Tally(0, 0, 0, 0)
    {
      provider := p;
      position := 0;
      tally := Tally(0, 0, 0, 0);
    }

    /** `rowset.cast::<IAccessor>()`. */
    method CastAccessor() returns (r: Result<(), string>)
      ensures r == if CastToAccessor in provider.failures then Failure(provider.failures[CastToAccessor]) else Success(())
    {
      r := if CastToAccessor in provider.failures then Failure(provider.failures[CastToAccessor]) else Success(());
    }

    /** `GetNextRows` for one row: the number of rows fetched, and the row's handle. */
    method GetNextRows() returns (r: Result<nat, string>, handle: nat)
      requires Valid()
      modifies this
      ensures Valid()
      ensures FetchAt(old(position)) in provider.failures ==>
        r == Failure(provider.failures[FetchAt(old(position))]) && position == old(position) && tally == old(tally)
      ensures FetchAt(old(position)) !in provider.failures && old(position) == |provider.rows| ==>
        r == Success(0) && position == old(position) && tally == old(tally)
      ensures FetchAt(old(position)) !in provider.failures && old(position) < |provider.rows| ==>
        r == Success(1) && handle == old(position) && position == old(position) + 1 &&
        tally == old(tally).(rowsFetched := old(tally).rowsFetched + 1)
    {
      handle := position;
      if FetchAt(position) in provider.failures {
        r := Failure(provider.failures[FetchAt(position)]);
      } else if position == |provider.rows| {
        r := Success(0);
      } else {
        r := Success(1);
        position := position + 1;
        tally := tally.(rowsFetched := tally.rowsFetched + 1);
      }
    }

    /** `CreateAccessor` for column `ordinal` of the row fetched last. */
    method CreateAccessor(ordinal: nat) returns (r: Result<Accessor, string>)
      requires Valid() && 0 < position && 1 <= ordinal <= ColumnCount
      modifies this
      ensures Valid() && position == old(position)
      ensures var call := CreateAccessorAt(position - 1, ordinal - 1);
        if call in provider.failures then r == Failure(provider.failures[call]) && tally == old(tally)
        else r == Success(Accessor(ordinal)) && tally == old(tally).(accessorsCreated := old(tally).accessorsCreated + 1)
    {
      var call := CreateAccessorAt(position - 1, ordinal - 1);
      if call in provider.failures {
        r := Failure(provider.failures[call]);
      } else {
        r := Success(Accessor(ordinal));
        tally := tally.(accessorsCreated := tally.accessorsCreated + 1);
      }
    }

    /** `GetData`: copy the column the accessor binds, of row `row`, into the front of `buffer`. */
    method GetData(row: nat, accessor: Accessor, buffer: array<u16>) returns (r: Result<(), string>)
      requires Valid() && row < |provider.rows| && 1 <= accessor.ordinal <= ColumnCount
      requires buffer.Length == BufferUnits
      modifies buffer
      ensures var call := GetDataAt(row, accessor.ordinal - 1);
        if call in provider.failures then r == Failure(provider.failures[call]) && buffer[..] == old(buffer[..])
        else
          var column := provider.rows[row][accessor.ordinal - 1];
          r == Success(()) && buffer[..] == column + old(buffer[..])[|column|..]
    {
      var call := GetDataAt(row, accessor.ordinal - 1);
      if call in provider.failures {
        r := Failure(provider.failures[call]);
      } else {
        var column := provider.rows[row][accessor.ordinal - 1];
        ghost var before := buffer[..];
        forall j | 0 <= j < |column| {
          buffer[j] := column[j];
        }
        assert buffer[..] == column + before[|column|..];
        r := Success(());
      }
    }

    /** `ReleaseAccessor` for the accessor of the row fetched last. */
    method ReleaseAccessor(accessor: Accessor) returns (r: Result<(), string>)
      requires Valid() && 0 < position && 1 <= accessor.ordinal <= ColumnCount
      modifies this
      ensures Valid() && position == old(position)
      ensures var call := ReleaseAccessorAt(position - 1, accessor.ordinal - 1);
        if call in provider.failures then r == Failure(provider.failures[call]) && tally == old(tally)
        else r == Success(()) && tally == old(tally).(accessorsReleased := old(tally).accessorsReleased + 1)
    {
      var call := ReleaseAccessorAt(position - 1, accessor.ordinal - 1);
      if call in provider.failures {
        r := Failure(provider.failures[call]);
      } else {
        r := Success(());
        tally := tally.(accessorsReleased := tally.accessorsReleased + 1);
      }
    }

    /** `ReleaseRows` for one row handle. */
    method ReleaseRows(row: nat) returns (r: Result<(), string>)
      requires Valid()
      modifies this
      ensures Valid() && position == old(position)
      ensures if ReleaseRowsAt(row) in provider.failures then r == Failure(provider.failures[ReleaseRowsAt(row)]) && tally == old(tally)
        else r == Success(()) && tally == old(tally).(rowsReleased := old(tally).rowsReleased + 1)
    {
      if ReleaseRowsAt(row) in provider.failures {
        r := Failure(provider.failures[ReleaseRowsAt(row)]);
      } else {
        r := Success(());
        tally := tally.(rowsReleased := tally.rowsReleased + 1);
      }
    }
  }

  // ---------------------------------------------------------------------
  // Specification of the materialiser
  // ---------------------------------------------------------------------

  /** The fixed buffer after the provider wrote `column` into its front. */
  function Filled(column: seq<u16>): (buffer: seq<u16>)
    requires |column| <= BufferUnits
    ensures |buffer| == BufferUnits
  {
    column + Zeros(BufferUnits - |column|)
  }

  /** One column's text: what the provider wrote, decoded lossily, trailing NULs trimmed. */
  function ColumnText(column: seq<u16>): string
  {
    TrimEndNul(DecodeLossy(column))
  }

  /**
   * Decoding the whole buffer, as the code does, gives the column's text:
   * the result never ends in NUL, NULs inside it are kept, and the buffer's
   * text is exactly it followed by NULs.
   */
  lemma ColumnTextMeaning(column: seq<u16>)
    requires |column| <= BufferUnits
    ensures TrimEndNul(DecodeLossy(Filled(column))) == ColumnText(column)
    ensures ColumnText(column) == [] || ColumnText(column)[|ColumnText(column)| - 1] != Nul
    ensures exists n: nat :: DecodeLossy(Filled(column)) == ColumnText(column) + Nuls(n)
  {
    var d := DecodeLossy(Filled(column));
    FilledColumnText(column);
    TrimEndNulMeaning(DecodeLossy(column));
    TrimEndNulSplit(d);
  }

  /** The padding behind a column in the buffer is trimmed away again. */
  lemma FilledColumnText(column: seq<u16>)
    requires |column| <= BufferUnits
    ensures TrimEndNul(DecodeLossy(Filled(column))) == ColumnText(column)
  {
    DecodePadded(column, BufferUnits - |column|);
    TrimEndNulPadded(DecodeLossy(column), BufferUnits - |column|);
  }

  lemma TextsSnoc(columns: seq<seq<u16>>, column: seq<u16>)
    ensures Texts(columns + [column]) == Texts(columns) + [ColumnText(column)]
  {
  }

  /** A text written by the provider comes back unchanged when it does not end in NUL. */
  lemma ColumnTextRoundTrip(s: string)
    requires |Encode(s)| <= BufferUnits
    requires s == [] || s[|s| - 1] != Nul
    ensures ColumnText(Encode(s)) == s
  {
    ColumnTextMeaning(Encode(s));
    DecodeEncode(s);
  }

  /** Every gathered row has its three columns. */
  predicate Complete(rows: seq<Row>)
  {
    forall k | 0 <= k < |rows| :: |rows[k]| == ColumnCount
  }

  /** The texts of some column buffers, in order. */
  function Texts(columns: seq<seq<u16>>): (texts: seq<string>)
    ensures |texts| == |columns|
  {
    seq(|columns|, k requires 0 <= k < |columns| => ColumnText(columns[k]))
  }

  /** A text with no NUL as its last character. */
  predicate NoTrailingNul(s: string)
  {
    s == [] || s[|s| - 1] != Nul
  }

  /**
   * The record a row yields: its three column texts, in ordinal order; no
   * field of it ends in NUL, and each is a prefix of its column's decoding.
   */
  function RecordOf(row: Row): (r: SearchData)
    requires |row| == ColumnCount
    ensures NoTrailingNul(r.0) && NoTrailingNul(r.1) && NoTrailingNul(r.2)
    ensures r.0 <= DecodeLossy(row[0]) && r.1 <= DecodeLossy(row[1]) && r.2 <= DecodeLossy(row[2])
  {
    TrimEndNulMeaning(DecodeLossy(row[0]));
    TrimEndNulMeaning(DecodeLossy(row[1]));
    TrimEndNulMeaning(DecodeLossy(row[2]));
    (ColumnText(row[0]), ColumnText(row[1]), ColumnText(row[2]))
  }

  /** The records of some complete rows, in order. */
  function Records(rows: seq<Row>): (records: seq<SearchData>)
    requires Complete(rows)
    ensures |records| == |rows|
  {
    seq(|rows|, k requires 0 <= k < |rows| => RecordOf(rows[k]))
  }

  /** Gathering one more row adds its record at the end. */
  lemma RecordsSnoc(rows: seq<Row>, row: Row)
    requires Complete(rows) && |row| == ColumnCount
    ensures Complete(rows + [row])
    ensures Records(rows + [row]) == Records(rows) + [RecordOf(row)]
  {
    assert Records(rows + [row])[|rows|] == RecordOf(row);
  }

  /**
   * The column loop on the row at `pos`, from column index `i` (ordinal
   * `i + 1`), with `read` holding the columns read so far: the columns it
   * reads, or the error it stops on, and the tally after it.
   */
  function ReadColumns(p: Provider, pos: nat, count: nat, i: nat, read: seq<seq<u16>>, t: Tally)
    : (out: (Result<seq<seq<u16>>, SearchLocalFileError>, Tally))
    requires pos < |p.rows| && WellFormedRow(p.rows[pos]) && i <= ColumnCount
    ensures out.0.Success? ==> |out.0.value| == |read| + ColumnCount - i
    decreases ColumnCount - i
  {
    if i == ColumnCount then (Success(read), t)
    else if CreateAccessorAt(pos, i) in p.failures then
      (Failure(CreateAccessor(p.failures[CreateAccessorAt(pos, i)])), t)
    else
      var t1 := t.(accessorsCreated := t.accessorsCreated + 1);
      if GetDataAt(pos, i) in p.failures then
        (Failure(GetData(p.failures[GetDataAt(pos, i)], count, i)), t1)
      else if ReleaseAccessorAt(pos, i) in p.failures then
        (Failure(ReleaseAccessor(p.failures[ReleaseAccessorAt(pos, i)], count, i)), t1)
      else
        ReadColumns(p, pos, count, i + 1, read + [p.rows[pos][i]], t1.(accessorsReleased := t1.accessorsReleased + 1))
  }

  /** On success, the column loop has read every remaining column of the row, in ordinal order. */
  lemma {:induction false} ReadColumnsSuccess(p: Provider, pos: nat, count: nat, i: nat, read: seq<seq<u16>>, t: Tally)
    requires pos < |p.rows| && WellFormedRow(p.rows[pos]) && i <= ColumnCount
    requires ReadColumns(p, pos, count, i, read, t).0.Success?
    ensures ReadColumns(p, pos, count, i, read, t).0.value == read + p.rows[pos][i..]
    decreases ColumnCount - i
  {
    if i < ColumnCount {
      var t1 := t.(accessorsCreated := t.accessorsCreated + 1);
      ReadColumnsSuccess(p, pos, count, i + 1, read + [p.rows[pos][i]], t1.(accessorsReleased := t1.accessorsReleased + 1));
      assert read + [p.rows[pos][i]] + p.rows[pos][i + 1..] == read + p.rows[pos][i..];
    } else {
      assert p.rows[pos][i..] == [];
    }
  }

  /** The row loop from position `pos`, after `count` rows and with `gathered` read. */
  function Materialise(p: Provider, pos: nat, count: nat, gathered: seq<Row>, t: Tally)
    : (out: (Result<seq<Row>, SearchLocalFileError>, Tally))
    requires WellFormedProvider(p) && pos <= |p.rows|
    ensures Complete(gathered) && out.0.Success? ==> Complete(out.0.value)
    decreases |p.rows| - pos
  {
    if FetchAt(pos) in p.failures || pos == |p.rows| then (Success(gathered), t)
    else
      var t1 := t.(rowsFetched := t.rowsFetched + 1);
      var (cols, t2) := ReadColumns(p, pos, count, 0, [], t1);
      if cols.Failure? then (Failure(cols.error), t2)
      else if ReleaseRowsAt(pos) in p.failures then (Failure(ReleaseRows(p.failures[ReleaseRowsAt(pos)], count + 1)), t2)
      else Materialise(p, pos + 1, count + 1, gathered + [cols.value], t2.(rowsReleased := t2.rowsReleased + 1))
  }

  /** `process_query_data` on a rowset positioned at `pos`: the rows it reads, or its error. */
  function ProcessQueryDataSpec(p: Provider, pos: nat, t: Tally): (out: (Result<seq<Row>, SearchLocalFileError>, Tally))
    requires WellFormedProvider(p) && pos <= |p.rows|
    ensures out.0.Success? ==> Complete(out.0.value)
  {
    if CastToAccessor in p.failures then (Failure(Cast(p.failures[CastToAccessor], "IAccessor")), t)
    else Materialise(p, pos, 0, [], t)
  }

  /** The records of the rows read, or the error. */
  function Decoded(read: Result<seq<Row>, SearchLocalFileError>): Result<seq<SearchData>, SearchLocalFileError>
    requires read.Success? ==> Complete(read.value)
  {
    if read.Success? then Success(Records(read.value)) else Failure(read.error)
  }

  /** The texts of the columns read, or the error. */
  function DecodedColumns(read: Result<seq<seq<u16>>, SearchLocalFileError>): Result<seq<string>, SearchLocalFileError>
  {
    if read.Success? then Success(Texts(read.value)) else Failure(read.error)
  }

  /** The row loop ends quietly when the fetch fails or finds no row. */
  lemma MaterialiseStops(p: Provider, pos: nat, count: nat, gathered: seq<Row>, t: Tally)
    requires WellFormedProvider(p) && pos <= |p.rows|
    requires FetchAt(pos) in p.failures || pos == |p.rows|
    ensures Materialise(p, pos, count, gathered, t) == (Success(gathered), t)
  {
  }

  /** A fetched row whose columns fail ends the loop with that failure. */
  lemma MaterialiseRowFails(p: Provider, pos: nat, count: nat, gathered: seq<Row>, t: Tally)
    requires WellFormedProvider(p) && pos < |p.rows| && FetchAt(pos) !in p.failures
    requires ReadColumns(p, pos, count, 0, [], t.(rowsFetched := t.rowsFetched + 1)).0.Failure?
    ensures var (r, t2) := ReadColumns(p, pos, count, 0, [], t.(rowsFetched := t.rowsFetched + 1));
      Materialise(p, pos, count, gathered, t) == (Failure(r.error), t2)
  {
  }

  /** A fetched row whose columns were read: the row is gathered, then released. */
  lemma MaterialiseRowRead(p: Provider, pos: nat, count: nat, gathered: seq<Row>, t: Tally, cols: seq<seq<u16>>, t2: Tally)
    requires WellFormedProvider(p) && pos < |p.rows| && FetchAt(pos) !in p.failures
    requires ReadColumns(p, pos, count, 0, [], t.(rowsFetched := t.rowsFetched + 1)) == (Success(cols), t2)
    ensures Materialise(p, pos, count, gathered, t) ==
      if ReleaseRowsAt(pos) in p.failures then (Failure(ReleaseRows(p.failures[ReleaseRowsAt(pos)], count + 1)), t2)
      else Materialise(p, pos + 1, count + 1, gathered + [cols], t2.(rowsReleased := t2.rowsReleased + 1))
  {
  }

  /** A column loop over a whole row that succeeds has read exactly that row. */
  lemma ReadColumnsRow(p: Provider, pos: nat, count: nat, t: Tally)
    requires pos < |p.rows| && WellFormedRow(p.rows[pos])
    requires ReadColumns(p, pos, count, 0, [], t).0.Success?
    ensures ReadColumns(p, pos, count, 0, [], t).0.value == p.rows[pos]
  {
    ReadColumnsSuccess(p, pos, count, 0, [], t);
    assert [] + p.rows[pos][0..] == p.rows[pos];
  }

  // ---------------------------------------------------------------------
  // What the materialiser yields
  // ---------------------------------------------------------------------

  /** No call on columns `i..` of row `pos` fails. */
  predicate ColumnsSucceed(p: Provider, pos: nat, i: nat)
  {
    forall j | i <= j < ColumnCount ::
      CreateAccessorAt(pos, j) !in p.failures && GetDataAt(pos, j) !in p.failures &&
      ReleaseAccessorAt(pos, j) !in p.failures
  }

  /** No call on row `k` fails: its accessors, its reads, and its release. */
  predicate RowSucceeds(p: Provider, k: nat)
  {
    ColumnsSucceed(p, k, 0) && ReleaseRowsAt(k) !in p.failures
  }

  /** Where the row loop stops fetching: the first fetch that fails, or the end of the rowset. */
  function StopAt(p: Provider, pos: nat): (stop: nat)
    requires pos <= |p.rows|
    ensures pos <= stop <= |p.rows|
    ensures FetchAt(stop) in p.failures || stop == |p.rows|
    ensures forall k | pos <= k < stop :: FetchAt(k) !in p.failures
    decreases |p.rows| - pos
  {
    if FetchAt(pos) in p.failures || pos == |p.rows| then pos else StopAt(p, pos + 1)
  }

  /** The first fetched row on which some call fails; `StopAt` when there is none. */
  function FirstBadRow(p: Provider, pos: nat): (k: nat)
    requires pos <= |p.rows|
    ensures pos <= k <= StopAt(p, pos)
    ensures forall j | pos <= j < k :: RowSucceeds(p, j)
    ensures k < StopAt(p, pos) ==> !RowSucceeds(p, k)
    decreases |p.rows| - pos
  {
    if FetchAt(pos) in p.failures || pos == |p.rows| then pos
    else if !RowSucceeds(p, pos) then pos
    else FirstBadRow(p, pos + 1)
  }

  /** `t` after `accessors` accessors and `rows` rows were each acquired and released. */
  function Balanced(t: Tally, accessors: nat, rows: nat): Tally
  {
    Tally(t.accessorsCreated + accessors, t.accessorsReleased + accessors, t.rowsFetched + rows, t.rowsReleased + rows)
  }

  /** The first column from `i` on which some call fails; `ColumnCount` when there is none. */
  function FirstFailingColumn(p: Provider, pos: nat, i: nat): (c: nat)
    requires i <= ColumnCount
    ensures i <= c <= ColumnCount
    ensures c == ColumnCount <==> ColumnsSucceed(p, pos, i)
    ensures forall j | i <= j < c ::
      CreateAccessorAt(pos, j) !in p.failures && GetDataAt(pos, j) !in p.failures && ReleaseAccessorAt(pos, j) !in p.failures
    ensures c < ColumnCount ==>
      CreateAccessorAt(pos, c) in p.failures || GetDataAt(pos, c) in p.failures || ReleaseAccessorAt(pos, c) in p.failures
    decreases ColumnCount - i
  {
    if i == ColumnCount then i
    else if CreateAccessorAt(pos, i) in p.failures || GetDataAt(pos, i) in p.failures ||
            ReleaseAccessorAt(pos, i) in p.failures then i
    else FirstFailingColumn(p, pos, i + 1)
  }

  /**
   * The error a failing column ends the column loop with: its first failing
   * call in call order (create, read, release), with that call's HRESULT
   * text; a read or release failure is tagged with the completed-row count
   * and then the column index.
   */
  function ColumnError(p: Provider, pos: nat, count: nat, c: nat): (e: SearchLocalFileError)
    requires CreateAccessorAt(pos, c) in p.failures || GetDataAt(pos, c) in p.failures ||
             ReleaseAccessorAt(pos, c) in p.failures
    ensures e.CreateAccessor? <==> CreateAccessorAt(pos, c) in p.failures
    ensures e.GetData? ==> GetDataAt(pos, c) in p.failures && e.message == p.failures[GetDataAt(pos, c)]
    ensures e.ReleaseAccessor? ==>
      GetDataAt(pos, c) !in p.failures && e.message == p.failures[ReleaseAccessorAt(pos, c)]
    ensures !e.CreateAccessor? ==> (e.GetData? || e.ReleaseAccessor?) && e.row == count && e.column == c
  {
    if CreateAccessorAt(pos, c) in p.failures then CreateAccessor(p.failures[CreateAccessorAt(pos, c)])
    else if GetDataAt(pos, c) in p.failures then GetData(p.failures[GetDataAt(pos, c)], count, c)
    else ReleaseAccessor(p.failures[ReleaseAccessorAt(pos, c)], count, c)
  }

  /**
   * The column loop succeeds exactly when no call on the remaining columns
   * fails, and then releases every accessor it creates. A failure leaves the
   * accessor it created unreleased unless `CreateAccessor` itself failed,
   * and tags a read or release failure with the count of completed rows.
   */
  lemma {:induction false} ReadColumnsOutcome(p: Provider, pos: nat, count: nat, i: nat, read: seq<seq<u16>>, t: Tally)
    requires pos < |p.rows| && WellFormedRow(p.rows[pos]) && i <= ColumnCount
    ensures var (r, t') := ReadColumns(p, pos, count, i, read, t);
      && (r.Success? <==> ColumnsSucceed(p, pos, i))
      && (r.Success? ==> t' == Balanced(t, ColumnCount - i, 0))
      && (r.Failure? ==>
        && (r.error.CreateAccessor? || r.error.GetData? || r.error.ReleaseAccessor?)
        && t'.rowsFetched == t.rowsFetched && t'.rowsReleased == t.rowsReleased
        && t'.accessorsCreated - t'.accessorsReleased ==
           t.accessorsCreated - t.accessorsReleased + (if r.error.CreateAccessor? then 0 else 1)
        && (!r.error.CreateAccessor? ==> r.error.row == count)
        && FirstFailingColumn(p, pos, i) < ColumnCount
        && r.error == ColumnError(p, pos, count, FirstFailingColumn(p, pos, i)))
    decreases ColumnCount - i
  {
    if i < ColumnCount && CreateAccessorAt(pos, i) !in p.failures && GetDataAt(pos, i) !in p.failures &&
       ReleaseAccessorAt(pos, i) !in p.failures {
      var t1 := t.(accessorsCreated := t.accessorsCreated + 1);
      ReadColumnsOutcome(p, pos, count, i + 1, read + [p.rows[pos][i]], t1.(accessorsReleased := t1.accessorsReleased + 1));
    }
  }

  /** The row loop succeeds exactly when every row it fetches succeeds. */
  lemma {:induction false} MaterialiseSucceeds(p: Provider, pos: nat, count: nat, gathered: seq<Row>, t: Tally)
    requires WellFormedProvider(p) && pos <= |p.rows|
    ensures Materialise(p, pos, count, gathered, t).0.Success? <==>
      forall k | pos <= k < StopAt(p, pos) :: RowSucceeds(p, k)
    decreases |p.rows| - pos
  {
    if FetchAt(pos) in p.failures || pos == |p.rows| {
      MaterialiseStops(p, pos, count, gathered, t);
    } else {
      var t1 := t.(rowsFetched := t.rowsFetched + 1);
      assert StopAt(p, pos) == StopAt(p, pos + 1);
      ReadColumnsOutcome(p, pos, count, 0, [], t1);
      var (cols, t2) := ReadColumns(p, pos, count, 0, [], t1);
      if cols.Failure? {
        MaterialiseRowFails(p, pos, count, gathered, t);
        assert !RowSucceeds(p, pos);
      } else {
        MaterialiseRowRead(p, pos, count, gathered, t, cols.value, t2);
        if ReleaseRowsAt(pos) in p.failures {
          assert !RowSucceeds(p, pos);
        } else {
          MaterialiseSucceeds(p, pos + 1, count + 1, gathered + [cols.value], t2.(rowsReleased := t2.rowsReleased + 1));
        }
      }
    }
  }

  lemma SliceSnoc<T>(front: seq<T>, xs: seq<T>, lo: nat, hi: nat)
    requires lo < hi <= |xs|
    ensures front + [xs[lo]] + xs[lo + 1..hi] == front + xs[lo..hi]
  {
    assert xs[lo..hi] == [xs[lo]] + xs[lo + 1..hi];
  }

  lemma BalancedAdd(t: Tally, a1: nat, r1: nat, a2: nat, r2: nat)
    ensures Balanced(Balanced(t, a1, r1), a2, r2) == Balanced(t, a1 + a2, r1 + r2)
  {
  }

  /**
   * One row read and released without a failure: the loop goes on at the
   * next row, with that row gathered and its accessors and handle balanced.
   */
  lemma MaterialiseRowDone(p: Provider, pos: nat, count: nat, gathered: seq<Row>, t: Tally)
    requires WellFormedProvider(p) && pos <= |p.rows|
    requires Materialise(p, pos, count, gathered, t).0.Success?
    requires FetchAt(pos) !in p.failures && pos < |p.rows|
    ensures StopAt(p, pos) == StopAt(p, pos + 1)
    ensures Materialise(p, pos, count, gathered, t) ==
      Materialise(p, pos + 1, count + 1, gathered + [p.rows[pos]], Balanced(t, ColumnCount, 1))
  {
    var t1 := t.(rowsFetched := t.rowsFetched + 1);
    ReadColumnsOutcome(p, pos, count, 0, [], t1);
    var (cols, t2) := ReadColumns(p, pos, count, 0, [], t1);
    if cols.Failure? {
      MaterialiseRowFails(p, pos, count, gathered, t);
      assert false;
    }
    ReadColumnsRow(p, pos, count, t1);
    MaterialiseRowRead(p, pos, count, gathered, t, cols.value, t2);
  }

  /**
   * A successful row loop yields the rows from `pos` up to where fetching
   * stops, in rowset order.
   */
  lemma {:induction false} MaterialiseYields(p: Provider, pos: nat, count: nat, gathered: seq<Row>, t: Tally)
    requires WellFormedProvider(p) && pos <= |p.rows|
    requires Materialise(p, pos, count, gathered, t).0.Success?
    ensures Materialise(p, pos, count, gathered, t).0.value == gathered + p.rows[pos..StopAt(p, pos)]
    decreases |p.rows| - pos
  {
    if FetchAt(pos) in p.failures || pos == |p.rows| {
      MaterialiseStops(p, pos, count, gathered, t);
      assert gathered + p.rows[pos..pos] == gathered;
    } else {
      MaterialiseRowDone(p, pos, count, gathered, t);
      MaterialiseYields(p, pos + 1, count + 1, gathered + [p.rows[pos]], Balanced(t, ColumnCount, 1));
      SliceSnoc(gathered, p.rows, pos, StopAt(p, pos));
    }
  }

  /**
   * A successful row loop releases every row handle and every accessor it
   * acquired: three accessors and one handle per row fetched.
   */
  lemma {:induction false} MaterialiseBalanced(p: Provider, pos: nat, count: nat, gathered: seq<Row>, t: Tally)
    requires WellFormedProvider(p) && pos <= |p.rows|
    requires Materialise(p, pos, count, gathered, t).0.Success?
    ensures var n := StopAt(p, pos) - pos;
      Materialise(p, pos, count, gathered, t).1 == Balanced(t, ColumnCount * n, n)
    decreases |p.rows| - pos
  {
    if FetchAt(pos) in p.failures || pos == |p.rows| {
      MaterialiseStops(p, pos, count, gathered, t);
      assert StopAt(p, pos) - pos == 0;
    } else {
      MaterialiseRowDone(p, pos, count, gathered, t);
      MaterialiseBalanced(p, pos + 1, count + 1, gathered + [p.rows[pos]], Balanced(t, ColumnCount, 1));
      var m := StopAt(p, pos + 1) - (pos + 1);
      assert ColumnCount + ColumnCount * m == ColumnCount * (m + 1);
      BalancedAdd(t, ColumnCount, 1, ColumnCount * m, m);
    }
  }

  /**
   * When the row loop fails, the first failing row decides the error: no
   * row is returned, the failing row stays fetched but unreleased, a failed
   * read or accessor release also leaves that accessor unreleased, and the
   * error is tagged with the rows completed before it (plus one for
   * `ReleaseRows`, which is counted after the row was read).
   */
  lemma {:induction false} MaterialiseFailure(p: Provider, pos: nat, count: nat, gathered: seq<Row>, t: Tally)
    requires WellFormedProvider(p) && pos <= |p.rows|
    requires Materialise(p, pos, count, gathered, t).0.Failure?
    ensures var (r, t') := Materialise(p, pos, count, gathered, t);
      var n := FirstBadRow(p, pos) - pos;
      var leaked := if r.error.GetData? || r.error.ReleaseAccessor? then 1 else 0;
      && FirstBadRow(p, pos) < StopAt(p, pos)
      && (r.error.CreateAccessor? || r.error.GetData? || r.error.ReleaseAccessor? || r.error.ReleaseRows?)
      && t'.rowsFetched == t.rowsFetched + n + 1 && t'.rowsReleased == t.rowsReleased + n
      && t'.accessorsCreated - t'.accessorsReleased == t.accessorsCreated - t.accessorsReleased + leaked
      && ((r.error.GetData? || r.error.ReleaseAccessor?) ==> r.error.row == count + n)
      && (r.error.ReleaseRows? ==> r.error.count == count + n + 1)
      && (r.error.ReleaseRows? ==>
        ColumnsSucceed(p, FirstBadRow(p, pos), 0) && r.error.message == p.failures[ReleaseRowsAt(FirstBadRow(p, pos))])
      && (!r.error.ReleaseRows? ==>
        FirstFailingColumn(p, FirstBadRow(p, pos), 0) < ColumnCount &&
        r.error == ColumnError(p, FirstBadRow(p, pos), count + n, FirstFailingColumn(p, FirstBadRow(p, pos), 0)))
    decreases |p.rows| - pos
  {
    MaterialiseFailureError(p, pos, count, gathered, t);
    if FetchAt(pos) in p.failures || pos == |p.rows| {
      MaterialiseStops(p, pos, count, gathered, t);
    } else {
      var t1 := t.(rowsFetched := t.rowsFetched + 1);
      ReadColumnsOutcome(p, pos, count, 0, [], t1);
      var (cols, t2) := ReadColumns(p, pos, count, 0, [], t1);
      if cols.Failure? {
        MaterialiseRowFails(p, pos, count, gathered, t);
      } else {
        MaterialiseRowRead(p, pos, count, gathered, t, cols.value, t2);
        ReadColumnsRow(p, pos, count, t1);
        if ReleaseRowsAt(pos) !in p.failures {
          var t3 := t2.(rowsReleased := t2.rowsReleased + 1);
          MaterialiseFailure(p, pos + 1, count + 1, gathered + [p.rows[pos]], t3);
        }
      }
    }
  }

  /**
   * The error of a failed row loop is the first failing call on the first
   * bad row: a column call (see `ColumnError`), or else its `ReleaseRows`.
   */
  lemma {:induction false} MaterialiseFailureError(p: Provider, pos: nat, count: nat, gathered: seq<Row>, t: Tally)
    requires WellFormedProvider(p) && pos <= |p.rows|
    requires Materialise(p, pos, count, gathered, t).0.Failure?
    ensures var r := Materialise(p, pos, count, gathered, t).0;
      var k := FirstBadRow(p, pos);
      && k < StopAt(p, pos)
      && (r.error.ReleaseRows? ==>
        ColumnsSucceed(p, k, 0) && ReleaseRowsAt(k) in p.failures && r.error.message == p.failures[ReleaseRowsAt(k)])
      && (!r.error.ReleaseRows? ==>
        FirstFailingColumn(p, k, 0) < ColumnCount &&
        r.error == ColumnError(p, k, count + (k - pos), FirstFailingColumn(p, k, 0)))
    decreases |p.rows| - pos
  {
    if FetchAt(pos) in p.failures || pos == |p.rows| {
      MaterialiseStops(p, pos, count, gathered, t);
    } else {
      var t1 := t.(rowsFetched := t.rowsFetched + 1);
      ReadColumnsOutcome(p, pos, count, 0, [], t1);
      var (cols, t2) := ReadColumns(p, pos, count, 0, [], t1);
      if cols.Failure? {
        MaterialiseRowFails(p, pos, count, gathered, t);
      } else {
        MaterialiseRowRead(p, pos, count, gathered, t, cols.value, t2);
        ReadColumnsRow(p, pos, count, t1);
        if ReleaseRowsAt(pos) !in p.failures {
          var t3 := t2.(rowsReleased := t2.rowsReleased + 1);
          MaterialiseFailureError(p, pos + 1, count + 1, gathered + [p.rows[pos]], t3);
        }
      }
    }
  }

  /**
   * `process_query_data` succeeds exactly when the cast succeeds and every
   * row fetched succeeds, and then reads the rows from the current position
   * up to where fetching stops, in rowset order.
   */
  lemma ProcessQueryDataYields(p: Provider, pos: nat, t: Tally)
    requires WellFormedProvider(p) && pos <= |p.rows|
    ensures var r := ProcessQueryDataSpec(p, pos, t).0;
      && (r.Success? <==> CastToAccessor !in p.failures && forall k | pos <= k < StopAt(p, pos) :: RowSucceeds(p, k))
      && (r.Success? ==> r.value == p.rows[pos..StopAt(p, pos)])
  {
    if CastToAccessor !in p.failures {
      MaterialiseSucceeds(p, pos, 0, [], t);
      if ProcessQueryDataSpec(p, pos, t).0.Success? {
        MaterialiseYields(p, pos, 0, [], t);
      }
    }
  }

  // ---------------------------------------------------------------------
  // The materialiser
  // ---------------------------------------------------------------------

  /** `create_accessor_handle`: an accessor for column `index` (an ordinal). */
  method CreateAccessorHandle(accessor: NativeRowset, index: nat) returns (r: Result<Accessor, SearchLocalFileError>)
    requires accessor.Valid() && 0 < accessor.position && 1 <= index <= ColumnCount
    modifies accessor
    ensures accessor.Valid() && accessor.position == old(accessor.position)
    ensures var call := CreateAccessorAt(accessor.position - 1, index - 1);
      if call in accessor.provider.failures then
        r == Failure(CreateAccessor(accessor.provider.failures[call])) && accessor.tally == old(accessor.tally)
      else
        r == Success(Accessor(index)) &&
        accessor.tally == old(accessor.tally).(accessorsCreated := old(accessor.tally).accessorsCreated + 1)
  {
    var handle := accessor.CreateAccessor(index);
    if handle.Failure? {
      return Failure(CreateAccessor(handle.error));
    }
    return Success(handle.value);
  }

  /**
   * One pass of the column loop of `process_query_data` on the row fetched
   * last, for ordinal `i + 1`: a zeroed 512-unit buffer, an accessor,
   * `GetData`, the decoded text without trailing NULs, and the accessor's
   * release. It moves the column loop of `ReadColumns` on by one column, or
   * ends it with the same error. The pass releases its accessor before it
   * returns, so at most one accessor is ever outstanding.
   */
  method ReadColumn(rowset: NativeRowset, handle: nat, count: nat, i: nat, ghost read: seq<seq<u16>>)
    returns (r: Result<string, SearchLocalFileError>)
    requires rowset.Valid() && 0 < rowset.position && handle == rowset.position - 1 && i < ColumnCount
    modifies rowset
    ensures rowset.Valid() && rowset.position == old(rowset.position)
    ensures r.Failure? ==>
      ReadColumns(rowset.provider, handle, count, i, read, old(rowset.tally)) == (Failure(r.error), rowset.tally)
    ensures r.Success? ==>
      var column := rowset.provider.rows[handle][i];
      r.value == ColumnText(column) &&
      ReadColumns(rowset.provider, handle, count, i, read, old(rowset.tally)) ==
      ReadColumns(rowset.provider, handle, count, i + 1, read + [column], rowset.tally)
    ensures r.Success? ==> rowset.tally == Balanced(old(rowset.tally), 1, 0)
    ensures rowset.tally.accessorsCreated - rowset.tally.accessorsReleased <=
            old(rowset.tally.accessorsCreated - rowset.tally.accessorsReleased) + 1
  {
    var p := rowset.provider;
    var itemName := new u16[BufferUnits](_ => 0);
    assert itemName[..] == Zeros(BufferUnits);
    var accessorHandle := CreateAccessorHandle(rowset, i + 1);
    if accessorHandle.Failure? {
      return Failure(accessorHandle.error);
    }
    var got := rowset.GetData(handle, accessorHandle.value, itemName);
    if got.Failure? {
      return Failure(GetData(got.error, count, i));
    }
    assert itemName[..] == Filled(p.rows[handle][i]);
    FilledColumnText(p.rows[handle][i]);
    var name := DecodeLossy(itemName[..]);
    var released := rowset.ReleaseAccessor(accessorHandle.value);
    if released.Failure? {
      return Failure(ReleaseAccessor(released.error, count, i));
    }
    return Success(TrimEndNul(name));
  }

  /** The column loop of `process_query_data` on the row fetched last, for ordinals 1, 2, 3. */
  method ReadRowColumns(rowset: NativeRowset, handle: nat, count: nat) returns (r: Result<seq<string>, SearchLocalFileError>)
    requires rowset.Valid() && 0 < rowset.position && handle == rowset.position - 1
    modifies rowset
    ensures rowset.Valid() && rowset.position == old(rowset.position)
    ensures var (read, t) := ReadColumns(rowset.provider, handle, count, 0, [], old(rowset.tally));
      r == DecodedColumns(read) && rowset.tally == t
  {
    var p := rowset.provider;
    ghost var t0 := rowset.tally;
    ghost var read: seq<seq<u16>> := [];
    var data: seq<string> := [];
    for i := 0 to ColumnCount
      invariant rowset.Valid() && rowset.position == old(rowset.position)
      invariant data == Texts(read)
      invariant ReadColumns(p, handle, count, i, read, rowset.tally) == ReadColumns(p, handle, count, 0, [], t0)
    {
      var name := ReadColumn(rowset, handle, count, i, read);
      if name.Failure? {
        return Failure(name.error);
      }
      data := data + [name.value];
      TextsSnoc(read, p.rows[handle][i]);
      read := read + [p.rows[handle][i]];
    }
    return Success(data);
  }

  /**
   * The body of the row loop of `process_query_data` once a row has been
   * fetched: read its columns, append its record and release it. `stop`
   * says the loop ends here, with `r` as its outcome; otherwise `r` holds
   * the records gathered so far and `gathered'` the rows behind them.
   */
  method ReadFetchedRow(rowset: NativeRowset, handle: nat, count: nat, output: seq<SearchData>,
                        ghost gathered: seq<Row>, ghost before: Tally)
    returns (stop: bool, r: Result<seq<SearchData>, SearchLocalFileError>, ghost gathered': seq<Row>)
    requires rowset.Valid() && rowset.position == handle + 1
    requires FetchAt(handle) !in rowset.provider.failures
    requires rowset.tally == before.(rowsFetched := before.rowsFetched + 1)
    requires Complete(gathered) && output == Records(gathered)
    modifies rowset
    ensures rowset.Valid() && rowset.position == old(rowset.position)
    ensures stop ==> var (read, t) := Materialise(rowset.provider, handle, count, gathered, before);
      r == Decoded(read) && rowset.tally == t
    ensures !stop ==> (r.Success? && Complete(gathered') && r.value == Records(gathered') &&
      Materialise(rowset.provider, handle + 1, count + 1, gathered', rowset.tally) ==
      Materialise(rowset.provider, handle, count, gathered, before))
  {
    var p := rowset.provider;
    gathered' := gathered;
    ghost var (read, _) := ReadColumns(p, handle, count, 0, [], rowset.tally);
    var data := ReadRowColumns(rowset, handle, count);
    if data.Failure? {
      MaterialiseRowFails(p, handle, count, gathered, before);
      return true, Failure(data.error), gathered';
    }
    MaterialiseRowRead(p, handle, count, gathered, before, read.value, rowset.tally);
    ReadColumnsRow(p, handle, count, before.(rowsFetched := before.rowsFetched + 1));
    gathered' := gathered + [p.rows[handle]];
    RecordsSnoc(gathered, p.rows[handle]);
    var output' := output + [(data.value[0], data.value[1], data.value[2])];
    var rowsReleased := rowset.ReleaseRows(handle);
    if rowsReleased.Failure? {
      return true, Failure(ReleaseRows(rowsReleased.error, count + 1)), gathered';
    }
    return false, Success(output'), gathered';
  }

  /**
   * One pass of the row loop of `process_query_data`: fetch the next row
   * and, when there is one, read it and release it. `stop` says the loop
   * ends here, with `r` as its outcome; otherwise `r` holds the records
   * gathered so far and the rowset has moved to the next row.
   */
  method ReadNextRow(rowset: NativeRowset, count: nat, output: seq<SearchData>, ghost gathered: seq<Row>)
    returns (stop: bool, r: Result<seq<SearchData>, SearchLocalFileError>, ghost gathered': seq<Row>)
    requires rowset.Valid()
    requires Complete(gathered) && output == Records(gathered)
    modifies rowset
    ensures rowset.Valid()
    ensures stop ==> var (read, t) := Materialise(rowset.provider, old(rowset.position), count, gathered, old(rowset.tally));
      r == Decoded(read) && rowset.tally == t
    ensures !stop ==> (r.Success? && rowset.position == old(rowset.position) + 1 &&
      Complete(gathered') && r.value == Records(gathered') &&
      Materialise(rowset.provider, rowset.position, count + 1, gathered', rowset.tally) ==
      Materialise(rowset.provider, old(rowset.position), count, gathered, old(rowset.tally)))
  {
    ghost var before := rowset.tally;
    var fetched, handle := rowset.GetNextRows();
    if fetched.Failure? || fetched.value == 0 {
      MaterialiseStops(rowset.provider, rowset.position, count, gathered, rowset.tally);
      return true, Success(output), gathered;
    }
    assert handle == old(rowset.position) && handle < |rowset.provider.rows|;
    stop, r, gathered' := ReadFetchedRow(rowset, handle, count, output, gathered, before);
  }

  /**
   * The row loop of `process_query_data`: fetch rows one at a time, read
   * columns 1..3 of each and release the row; stop quietly when a fetch
   * fails or yields no row.
   */
  method MaterialiseRows(rowset: NativeRowset) returns (r: Result<seq<SearchData>, SearchLocalFileError>)
    requires rowset.Valid()
    modifies rowset
    ensures rowset.Valid()
    ensures var (read, t) := Materialise(rowset.provider, old(rowset.position), 0, [], old(rowset.tally));
      r == Decoded(read) && rowset.tally == t
  {
    var output: seq<SearchData> := [];
    var count: nat := 0;
    ghost var gathered: seq<Row> := [];
    ghost var goal := Materialise(rowset.provider, rowset.position, 0, [], rowset.tally);
    while true
      invariant rowset.Valid()
      invariant Complete(gathered) && output == Records(gathered)
      invariant Materialise(rowset.provider, rowset.position, count, gathered, rowset.tally) == goal
      decreases |rowset.provider.rows| - rowset.position
    {
      var stop, next;
      stop, next, gathered := ReadNextRow(rowset, count, output, gathered);
      if stop {
        return next;
      }
      output, count := next.value, count + 1;
    }
  }

  /** `process_query_data`: cast the rowset to `IAccessor`, then run the row loop. */
  method ProcessQueryData(rowset: NativeRowset) returns (r: Result<seq<SearchData>, SearchLocalFileError>)
    requires rowset.Valid()
    modifies rowset
    ensures rowset.Valid()
    ensures var (read, t) := ProcessQueryDataSpec(rowset.provider, old(rowset.position), old(rowset.tally));
      r == Decoded(read) && rowset.tally == t
  {
    var cast := rowset.CastAccessor();
    if cast.Failure? {
      return Failure(Cast(cast.error, "IAccessor"));
    }
    r := MaterialiseRows(rowset);
  }

  // ---------------------------------------------------------------------
  // search_local_files_by_query
  // ---------------------------------------------------------------------

  /**
   * `search_local_files_by_query`: initialise OLE, build and execute the
   * SQL, materialise the rowset, and uninitialise OLE. `rowset` is the
   * rowset the executed command returns; `uninitialized` says whether
   * `OleUninitialize` ran, which only happens on the success path.
   */
  method SearchLocalFilesByQuery(env: ComEnv, rowset: NativeRowset, query: string)
    returns (r: Result<seq<SearchData>, SearchLocalFileError>, uninitialized: bool)
    requires rowset.Valid()
    modifies rowset
    ensures rowset.Valid()
    ensures uninitialized <==> r.Success?
    ensures Prepare(env, query).Failure? ==>
      r == Failure(Prepare(env, query).error) && rowset.tally == old(rowset.tally)
    ensures Prepare(env, query).Success? ==>
      var (read, t) := ProcessQueryDataSpec(rowset.provider, old(rowset.position), old(rowset.tally));
      r == Decoded(read) && rowset.tally == t
  {
    var initialized := RunStages(env, [OleInit], "");
    if initialized.Failure? {
      return Failure(initialized.error), false;
    }
    var sql := CreateSearchQuery(env, query);
    if sql.Failure? {
      return Failure(sql.error), false;
    }
    var executed := ExecuteSearchQuery(env, sql.value);
    if executed.Failure? {
      return Failure(executed.error), false;
    }
    r := ProcessQueryData(rowset);
    if r.Failure? {
      return r, false;
    }
    uninitialized := true;
  }
}
