/**
 * The entry point of the Investing.com scraper (update_cds_investing.py):
 * the BetterStack ingestion URL built from the configured host, and the
 * run itself, which fetches the table and hands the rows to the database
 * or the CSV store.
 */
module InvestingMain {
  import opened Wrappers
  import opened Strings
  import opened Observations
  import opened Records
  import opened InvestingTables

  /** The host used when `BETTERSTACK_INGESTING_HOST` is not set. */
  const DefaultIngestHost := "in.logtail.com"
  /** The URL returned for an empty host. */
  const DefaultIngestUrl := "https://in.logtail.com"

  /** `u` carries an http or https scheme and no trailing slash. */
  predicate IsIngestUrl(u: string) {
    (StartsWith(u, "http:") || StartsWith(u, "https:")) && u[|u| - 1] != '/'
  }

  /** Prefixes `https://` unless a scheme is there, then drops trailing slashes. */
  function WithScheme(h: string): string {
    var u := if !StartsWith(h, "http://") && !StartsWith(h, "https://") then "https://" + h else h;
    RStripChars(u, {'/'})
  }

  /** `_build_ingest_url` as written: the emptiness test comes before the strip. */
  function BuildIngestUrl(host: string): string {
    if host == [] then DefaultIngestUrl else WithScheme(Strip(host))
  }

  /** `_build_ingest_url` with the emptiness test after the strip. */
  function BuildIngestUrlFixed(host: string): string {
    var h := Strip(host);
    if h == [] then DefaultIngestUrl else WithScheme(h)
  }

  /** The scheme survives the trailing-slash strip, since it ends in ':'. */
  lemma WithSchemeShape(h: string)
    ensures IsIngestUrl(WithScheme(h))
  {
    var u := if !StartsWith(h, "http://") && !StartsWith(h, "https://") then "https://" + h else h;
    var r := RStripChars(u, {'/'});
    var k := if StartsWith(u, "https://") then 6 else 5;
    assert u[k - 1] == ':';
    assert u[k - 1] !in {'/'};
    assert r[..k] == u[..k];
  }

  /** Whatever the host, the result has a scheme and no trailing slash. */
  lemma IngestUrlShape(host: string)
    ensures IsIngestUrl(BuildIngestUrl(host))
    ensures IsIngestUrl(BuildIngestUrlFixed(host))
  {
    if host != [] { WithSchemeShape(Strip(host)); }
    if Strip(host) != [] { WithSchemeShape(Strip(host)); }
  }

  /** A bare host without slashes gets `https://` in front and is otherwise kept. */
  lemma IngestUrlBareHost(host: string)
    requires host != [] && Strip(host) == host
    requires forall i :: 0 <= i < |host| ==> host[i] != '/'
    requires !StartsWith(host, "http://") && !StartsWith(host, "https://")
    ensures BuildIngestUrl(host) == "https://" + host
  {
    var u := "https://" + host;
    assert u[|u| - 1] == host[|host| - 1];
  }

  /** The default host and the empty-host fallback name the same endpoint. */
  lemma IngestDefaultAgrees()
    ensures BuildIngestUrl(DefaultIngestHost) == DefaultIngestUrl
  {
    IngestUrlBareHost(DefaultIngestHost);
    DefaultUrlSpelling();
  }

  /** The default URL is the default host behind `https://`. */
  lemma DefaultUrlSpelling()
    ensures "https://" + DefaultIngestHost == DefaultIngestUrl
  {
  }

  /** A host made of blank characters only passes the emptiness test and leaves a bare scheme. */
  lemma IngestBlankHost()
    ensures BuildIngestUrl("   ") == "https:"
  {
    assert Strip("   ") == [];
    assert RStripChars("https://", {'/'}) == "https:";
  }

  /** The corrected version falls back to the default for every blank host. */
  lemma IngestBlankHostFixed(host: string)
    requires Strip(host) == []
    ensures BuildIngestUrlFixed(host) == DefaultIngestUrl
  {
  }

  /** Both versions agree on every host that is not blank. */
  lemma IngestFixedAgrees(host: string)
    requires Strip(host) != []
    ensures BuildIngestUrlFixed(host) == BuildIngestUrl(host)
  {
  }

  // ---------------------------------------------------------------- the run

  /** `bool(settings.database_url and settings.environment == "production")`. */
  predicate UseDatabase(databaseUrl: Option<string>, environment: string) {
    databaseUrl.Some? && databaseUrl.value != [] && environment == "production"
  }

  /** What a run does after logging is set up. */
  datatype Action = SaveToDatabase(records: seq<InputRecord>) | SaveToCsv(records: seq<InputRecord>)

  /**
   * How `async_main` ended: the saves it handed to a store, and the column
   * whose `KeyError` the save function re-raised, if any.
   */
  datatype MainRun = MainRun(saves: seq<Action>, raised: Option<Column>)

  /**
   * `async_main`: the fetch outcome stands for `fetch_investing_cds()`; a
   * failed fetch ends the run with nothing saved; a frame lacking a column
   * the conversion reads makes the save function raise before any store is
   * written; otherwise the rows go, converted, to the store the settings
   * choose.
   */
  function AsyncMain(databaseUrl: Option<string>, environment: string,
                     fetched: Result<Frame, FetchError>): (r: MainRun)
    ensures r.saves == [] <==> fetched.Err? || ToRecords(fetched.value).Err?
    ensures r.raised.Some? <==> fetched.Ok? && ToRecords(fetched.value).Err?
    ensures r.raised.Some? ==> r.raised.value !in fetched.value.columns
    ensures |r.saves| <= 1
    ensures r.saves != [] ==> |r.saves[0].records| == |fetched.value.rows|
    ensures r.saves != [] ==> (r.saves[0].SaveToDatabase? <==> UseDatabase(databaseUrl, environment))
  {
    match fetched
    case Err(_) => MainRun([], None)
    case Ok(frame) =>
      match ToRecords(frame)
      case Err(c) => MainRun([], Some(c))
      case Ok(records) =>
        if UseDatabase(databaseUrl, environment) then MainRun([SaveToDatabase(records)], None)
        else MainRun([SaveToCsv(records)], None)
  }

  /** A fetched table with rows but without one of the six columns is never saved: the run raises instead. */
  lemma MissingColumnSavesNothing(databaseUrl: Option<string>, environment: string, f: Frame, c: Column)
    requires f.rows != [] && c !in f.columns
    ensures AsyncMain(databaseUrl, environment, Ok(f)).saves == []
    ensures AsyncMain(databaseUrl, environment, Ok(f)).raised.Some?
  {
  }

  /**
   * A run over a table with rows, whose rows carry a close wherever it has
   * a close column, saves exactly when no column is missing, and then
   * hands over complete records, each with a close.
   */
  lemma SavedFrame(databaseUrl: Option<string>, environment: string, f: Frame)
    requires f.rows != []
    requires CloseCol in f.columns ==> forall k :: 0 <= k < |f.rows| ==> f.rows[k].close.Some?
    ensures var run := AsyncMain(databaseUrl, environment, Ok(f));
      (run.saves == [] <==> exists c: Column :: c !in f.columns)
      && (run.saves != [] ==>
            run.saves[0].records != []
            && (forall i :: 0 <= i < |run.saves[0].records| ==> MissingFields(run.saves[0].records[i]) == [])
            && (forall i :: 0 <= i < |run.saves[0].records| ==>
                  run.saves[0].records[i].close.Present? && run.saves[0].records[i].close.value.Some?))
  {
    if ToRecords(f).Ok? {
      ToRecordsComplete(f);
      assert CloseCol in f.columns;
    }
  }

  /**
   * Whatever the scraped page held, a run that saves hands the store one
   * record per fetched row, each with all its keys and a close; a run
   * over a table missing a column saves nothing.
   */
  lemma {:induction false} SavedRecordsComplete(databaseUrl: Option<string>, environment: string,
                                                 tables: Option<seq<RawTable>>, html: Option<HtmlTable>)
    requires tables.Some? ==> forall k :: 0 <= k < |tables.value| ==> Rectangular(tables.value[k])
    requires FetchInvestingCds(tables, html).Ok?
    ensures var f := FetchInvestingCds(tables, html).value;
      var run := AsyncMain(databaseUrl, environment, Ok(f));
      (run.saves == [] <==> exists c: Column :: c !in f.columns)
      && (run.saves != [] ==>
            run.saves[0].records != []
            && (forall i :: 0 <= i < |run.saves[0].records| ==> MissingFields(run.saves[0].records[i]) == [])
            && (forall i :: 0 <= i < |run.saves[0].records| ==>
                  run.saves[0].records[i].close.Present? && run.saves[0].records[i].close.value.Some?))
  {
    var f := FetchInvestingCds(tables, html).value;
    FetchNormalized(tables, html);
    SavedFrame(databaseUrl, environment, f);
  }
}
