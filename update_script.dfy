/**
 * The command-line updater of scripts/update_cds_data.py: it picks the
 * store from the settings and the `--force-csv` / `--force-db` flags,
 * fetches the table and saves it, and exits with 0 or 1.  The fetch and
 * save outcomes are parameters; logging and timing are left out.
 */
module UpdateScript {
  import opened Wrappers
  import opened Observations
  import opened Records
  import opened InvestingTables
  import InvestingMain
  import Config

  /** The flag the script was started with. */
  datatype ForceMode = Auto | ForceCsv | ForceDb

  datatype Store = Database | CsvFile

  /** `settings.database_url` is set to a non-empty value. */
  predicate Configured(databaseUrl: Option<string>) {
    databaseUrl.Some? && databaseUrl.value != []
  }

  /**
   * The store `run_update` picks, or `None` when `--force-db` is given
   * without a database URL (the run then stops before fetching).
   */
  function StorageMode(databaseUrl: Option<string>, environment: string, force: ForceMode): (r: Option<Store>)
    ensures r == None <==> force == ForceDb && !Configured(databaseUrl)
    ensures r == Some(Database) ==> Configured(databaseUrl)
    ensures force == ForceCsv ==> r == Some(CsvFile)
    ensures force == Auto ==> (r == Some(Database) <==> InvestingMain.UseDatabase(databaseUrl, environment))
  {
    match force
    case ForceCsv => Some(CsvFile)
    case ForceDb => if Configured(databaseUrl) then Some(Database) else None
    case Auto => if InvestingMain.UseDatabase(databaseUrl, environment) then Some(Database) else Some(CsvFile)
  }

  /** What `run_update` did: the save it attempted, if any, and the value it returned. */
  datatype RunOutcome = RunOutcome(attempted: seq<InvestingMain.Action>, success: bool)

  /**
   * `run_update`: `fetched` stands for `fetch_investing_cds()` and
   * `saveFailed` for an exception raised by the store.  A table lacking a
   * column makes the save function raise before any store is written; the
   * script catches it and reports failure.
   */
  function RunUpdate(databaseUrl: Option<string>, environment: string, force: ForceMode,
                     fetched: Result<Frame, FetchError>, saveFailed: bool): (o: RunOutcome)
    ensures o.success <==>
      StorageMode(databaseUrl, environment, force).Some? && fetched.Ok? && ToRecords(fetched.value).Ok? && !saveFailed
    ensures o.attempted == [] <==>
      StorageMode(databaseUrl, environment, force).None? || fetched.Err? || ToRecords(fetched.value).Err?
    ensures |o.attempted| <= 1
    ensures o.attempted != [] ==>
      (o.attempted[0].SaveToDatabase? <==> StorageMode(databaseUrl, environment, force) == Some(Database))
      && |o.attempted[0].records| == |fetched.value.rows|
  {
    match StorageMode(databaseUrl, environment, force)
    case None => RunOutcome([], false)
    case Some(store) =>
      match fetched
      case Err(_) => RunOutcome([], false)
      case Ok(frame) =>
        match ToRecords(frame)
        case Err(_) => RunOutcome([], false)
        case Ok(records) =>
          var save := if store == Database then InvestingMain.SaveToDatabase(records)
                      else InvestingMain.SaveToCsv(records);
          RunOutcome([save], !saveFailed)
  }

  /** Without a flag the script saves exactly what the scraper's own entry point saves. */
  lemma AutoMatchesScraper(databaseUrl: Option<string>, environment: string,
                           fetched: Result<Frame, FetchError>, saveFailed: bool)
    ensures RunUpdate(databaseUrl, environment, Auto, fetched, saveFailed).attempted
         == InvestingMain.AsyncMain(databaseUrl, environment, fetched).saves
  {
  }

  /**
   * The automatic choice compares the environment with its case, unlike
   * `Settings.is_production`: an environment written "Production" counts as
   * production for the settings but sends the data to the CSV file.
   */
  lemma AutoIsCaseSensitive(s: Config.Settings)
    requires s.environment == "Production" && Configured(s.databaseUrl)
    ensures Config.IsProduction(s)
    ensures StorageMode(s.databaseUrl, s.environment, Auto) == Some(CsvFile)
  {
    Config.ProductionAnyCase(s);
  }

  /** The exit status of `main`. */
  const ExitSuccess := 0
  const ExitFailure := 1

  /**
   * `main`: both flags together stop the script with status 1 before
   * anything runs; otherwise the status is 0 exactly when the update
   * succeeded.
   */
  function RunScript(forceCsv: bool, forceDb: bool, databaseUrl: Option<string>, environment: string,
                     fetched: Result<Frame, FetchError>, saveFailed: bool): (r: (int, seq<InvestingMain.Action>))
    ensures forceCsv && forceDb ==> r == (ExitFailure, [])
    ensures r.0 == ExitSuccess || r.0 == ExitFailure
    ensures r.0 == ExitSuccess <==>
      !(forceCsv && forceDb)
      && fetched.Ok? && ToRecords(fetched.value).Ok? && !saveFailed
      && (forceDb ==> Configured(databaseUrl))
    ensures forceCsv && !forceDb ==> forall i :: 0 <= i < |r.1| ==> r.1[i].SaveToCsv?
  {
    if forceCsv && forceDb then (ExitFailure, [])
    else
      var force := if forceCsv then ForceCsv else if forceDb then ForceDb else Auto;
      var o := RunUpdate(databaseUrl, environment, force, fetched, saveFailed);
      (if o.success then ExitSuccess else ExitFailure, o.attempted)
  }
}
