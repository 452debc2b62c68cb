/**
 * Table normalisation and the two extraction strategies of the
 * Investing.com scraper (update_cds_investing.py).  The HTML parsers
 * themselves are outside the model: `read_html` is represented by the
 * tables it returns, the XPath query by the header and cell texts it finds.
 */
module InvestingTables {
  import opened Wrappers
  import opened Strings
  import opened Dates
  import opened Sorting
  import opened InvestingCells
  import opened Observations

  /**
   * A cell as pandas holds it: text, the NaN `read_html` leaves in an empty
   * cell, or the `None` that pads a short XPath row.
   */
  datatype Cell = Text(text: string) | Nan | Null

  /** The canonical columns, in their output order. */
  datatype Column = DateCol | OpenCol | HighCol | LowCol | CloseCol | ChangeCol

  /** A parsed table before normalisation: column labels and rows of cells. */
  datatype RawTable = RawTable(headers: seq<string>, rows: seq<seq<Cell>>)

  /** Every row has one cell per column, as in any DataFrame. */
  predicate Rectangular(t: RawTable) {
    forall i :: 0 <= i < |t.rows| ==> |t.rows[i]| == |t.headers|
  }

  /** A normalised table: the canonical columns it holds, and its rows. */
  datatype Frame = Frame(columns: seq<Column>, rows: seq<Obs>)

  /** Why normalisation raises. */
  datatype TableError =
    | DuplicateColumn   // two headers renamed to the same canonical column
    | MissingDate       // no date column: `df["date"]` raises KeyError
    | NanChange         // `_parse_change_pct` calls `.strip()` on a NaN cell

  // ------------------------------------------------------------ header rules

  /** Position of a column's rule in the rule table. */
  function Rank(c: Column): nat {
    match c
    case DateCol => 0
    case OpenCol => 1
    case HighCol => 2
    case LowCol => 3
    case CloseCol => 4
    case ChangeCol => 5
  }

  /** The substring rule for each column, on a lower-cased header. */
  predicate RuleMatches(c: Column, cl: string) {
    match c
    case DateCol => Contains(cl, "data") || Contains(cl, "date")
    case OpenCol => Contains(cl, "abert") || Contains(cl, "open")
    case HighCol => Contains(cl, "máxima") || Contains(cl, "maxima") || Contains(cl, "high")
    case LowCol => Contains(cl, "mínima") || Contains(cl, "minima") || Contains(cl, "low")
    case CloseCol =>
      Contains(cl, "último") || Contains(cl, "ultimo") || Contains(cl, "close")
      || Contains(cl, "price") || Contains(cl, "fech")
    case ChangeCol => Contains(cl, "var") && Contains(cl, "%")
  }

  /**
   * The `col_map` loop for one header: the first rule, in table order,
   * that matches wins; a header no rule matches is not renamed.
   */
  function RuleTarget(cl: string): (r: Option<Column>)
    ensures r.Some? ==> RuleMatches(r.value, cl)
    ensures r.Some? ==> forall c :: Rank(c) < Rank(r.value) ==> !RuleMatches(c, cl)
    ensures r.None? ==> forall c :: !RuleMatches(c, cl)
  {
    if Contains(cl, "data") || Contains(cl, "date") then Some(DateCol)
    else if Contains(cl, "abert") || Contains(cl, "open") then Some(OpenCol)
    else if Contains(cl, "máxima") || Contains(cl, "maxima") || Contains(cl, "high") then Some(HighCol)
    else if Contains(cl, "mínima") || Contains(cl, "minima") || Contains(cl, "low") then Some(LowCol)
    else if Contains(cl, "último") || Contains(cl, "ultimo") || Contains(cl, "close")
         || Contains(cl, "price") || Contains(cl, "fech") then Some(CloseCol)
    else if Contains(cl, "var") && Contains(cl, "%") then Some(ChangeCol)
    else None
  }

  /** The column name after the first rename: stripped and lower-cased. */
  function HeaderName(h: string): string { Lower(Strip(h)) }

  /**
   * The canonical column a header ends up as, if any: the rule target, or,
   * for a header no rule renames, its own name when that is already
   * canonical (only "change_pct" can be, as every other canonical name
   * matches its own rule).
   */
  function Target(h: string): (r: Option<Column>)
    ensures RuleTarget(Lower(HeaderName(h))).Some? ==> r == RuleTarget(Lower(HeaderName(h)))
  {
    var name := HeaderName(h);
    match RuleTarget(Lower(name))
    case Some(c) => Some(c)
    case None => if name == "change_pct" then Some(ChangeCol) else None
  }

  function Targets(headers: seq<string>): (r: seq<Option<Column>>)
    ensures |r| == |headers|
    ensures forall i :: 0 <= i < |r| ==> r[i] == Target(headers[i])
    decreases |headers|
  {
    if headers == [] then [] else [Target(headers[0])] + Targets(headers[1..])
  }

  /** Two headers are renamed to the same canonical column. */
  predicate HasDuplicate(targets: seq<Option<Column>>) {
    exists i, j :: 0 <= i < j < |targets| && targets[i].Some? && targets[i] == targets[j]
  }

  /** The columns `cs` that some header became, in the order of `cs`. */
  function KeepColumns(cs: seq<Column>, targets: seq<Option<Column>>): (r: seq<Column>)
    requires forall i, j :: 0 <= i < j < |cs| ==> Rank(cs[i]) < Rank(cs[j])
    ensures forall c :: c in r <==> c in cs && Some(c) in targets
    ensures forall i, j :: 0 <= i < j < |r| ==> Rank(r[i]) < Rank(r[j])
    decreases |cs|
  {
    if cs == [] then []
    else
      var rest := KeepColumns(cs[1..], targets);
      assert forall c :: c in rest ==> Rank(cs[0]) < Rank(c) by {
        forall c | c in rest ensures Rank(cs[0]) < Rank(c) {
          var k :| 0 <= k < |cs[1..]| && cs[1..][k] == c;
          assert cs[k + 1] == c;
        }
      }
      if Some(cs[0]) in targets then [cs[0]] + rest else rest
  }

  const Canonical: seq<Column> := [DateCol, OpenCol, HighCol, LowCol, CloseCol, ChangeCol]

  /** Index of the header renamed to `c`. */
  function ColumnIndex(targets: seq<Option<Column>>, c: Column): (i: nat)
    requires Some(c) in targets
    ensures i < |targets| && targets[i] == Some(c)
    decreases |targets|
  {
    if targets[0] == Some(c) then 0 else 1 + ColumnIndex(targets[1..], c)
  }

  // ------------------------------------------------------------ cell values

  /** What `_clean_number` sees: `str(nan)` is "nan"; a `None` pad stays `None`. */
  function CellText(c: Cell): Option<string> {
    match c
    case Text(s) => Some(s)
    case Nan => Some("nan")
    case Null => None
  }

  /** `pd.to_datetime(..., errors="coerce", dayfirst=True)` on one cell; NaN and `None` give NaT. */
  function CellDate(c: Cell): Option<Date> {
    match c
    case Text(s) => ParseDayFirst(Some(s))
    case Nan => None
    case Null => None
  }

  /** `_parse_change_pct` on one cell that is not NaN. */
  function CellChange(c: Cell): Option<real>
    requires c != Nan
  {
    match c
    case Text(s) => ParseChangePct(Some(s))
    case Null => None
  }

  /** A row after the type conversions, before rows are dropped. */
  datatype Parsed = Parsed(
    date: Option<Date>,
    open: Option<real>,
    high: Option<real>,
    low: Option<real>,
    close: Option<real>,
    changePct: Option<real>)

  /** A price column converted by `_clean_number`; an absent column holds nothing. */
  function Number(targets: seq<Option<Column>>, row: seq<Cell>, c: Column): (r: Option<real>)
    requires |row| == |targets|
    ensures Some(c) !in targets ==> r.None?
  {
    if Some(c) in targets then CleanNumber(CellText(row[ColumnIndex(targets, c)])) else None
  }

  /** Some row holds NaN in the change column. */
  predicate NanInChange(targets: seq<Option<Column>>, rows: seq<seq<Cell>>)
    requires forall i :: 0 <= i < |rows| ==> |rows[i]| == |targets|
  {
    Some(ChangeCol) in targets
    && exists i :: 0 <= i < |rows| && rows[i][ColumnIndex(targets, ChangeCol)] == Nan
  }

  /** The conversions of lines 191-201 applied to one row. */
  function ParseRow(targets: seq<Option<Column>>, row: seq<Cell>): (p: Parsed)
    requires |row| == |targets|
    requires Some(ChangeCol) in targets ==> row[ColumnIndex(targets, ChangeCol)] != Nan
    ensures Some(ChangeCol) !in targets ==> p.changePct.None?
  {
    Parsed(
      if Some(DateCol) in targets then CellDate(row[ColumnIndex(targets, DateCol)]) else None,
      Number(targets, row, OpenCol),
      Number(targets, row, HighCol),
      Number(targets, row, LowCol),
      Number(targets, row, CloseCol),
      if Some(ChangeCol) in targets then CellChange(row[ColumnIndex(targets, ChangeCol)]) else None)
  }

  /** The conversions applied to every row, in order. */
  function ParseRows(targets: seq<Option<Column>>, rows: seq<seq<Cell>>): (ps: seq<Parsed>)
    requires forall i :: 0 <= i < |rows| ==> |rows[i]| == |targets|
    requires !NanInChange(targets, rows)
    ensures |ps| == |rows|
    ensures forall i :: 0 <= i < |rows| ==> ps[i] == ParseRow(targets, rows[i])
  {
    seq(|rows|, i requires 0 <= i < |rows| => ParseRow(targets, rows[i]))
  }

  // ------------------------------------------------------------ row filtering

  /** The `dropna` calls: a row stays when it has a date and, if there is a close column, a close. */
  predicate Kept(p: Parsed, hasClose: bool) {
    p.date.Some? && (!hasClose || p.close.Some?)
  }

  function ToObs(p: Parsed): Obs
    requires p.date.Some?
  {
    Obs(p.date.value, p.open, p.high, p.low, p.close, p.changePct)
  }

  /** The rows both `dropna` calls keep, in their original order. */
  function KeepRows(ps: seq<Parsed>, hasClose: bool): seq<Obs>
    decreases |ps|
  {
    if ps == [] then []
    else (if Kept(ps[0], hasClose) then [ToObs(ps[0])] else []) + KeepRows(ps[1..], hasClose)
  }

  /** A row survives exactly when some input row is kept and becomes it. */
  lemma {:induction false} KeepRowsSpec(ps: seq<Parsed>, hasClose: bool, o: Obs)
    ensures o in KeepRows(ps, hasClose)
        <==> exists i :: 0 <= i < |ps| && Kept(ps[i], hasClose) && ToObs(ps[i]) == o
    decreases |ps|
  {
    if ps != [] {
      KeepRowsSpec(ps[1..], hasClose, o);
      var head := if Kept(ps[0], hasClose) then [ToObs(ps[0])] else [];
      assert KeepRows(ps, hasClose) == head + KeepRows(ps[1..], hasClose);
      if exists i :: 0 <= i < |ps| && Kept(ps[i], hasClose) && ToObs(ps[i]) == o {
        var i :| 0 <= i < |ps| && Kept(ps[i], hasClose) && ToObs(ps[i]) == o;
        if i > 0 { assert ps[1..][i - 1] == ps[i]; }
      }
      if o in KeepRows(ps[1..], hasClose) {
        var i :| 0 <= i < |ps[1..]| && Kept(ps[1..][i], hasClose) && ToObs(ps[1..][i]) == o;
        assert ps[i + 1] == ps[1..][i];
      }
    }
  }

  /** With a close column, no kept row lacks a close. */
  lemma {:induction false} KeepRowsClose(ps: seq<Parsed>, o: Obs)
    requires o in KeepRows(ps, true)
    ensures o.close.Some?
  {
    KeepRowsSpec(ps, true, o);
  }

  // ------------------------------------------------------------ normalisation

  /**
   * `_normalize_investing_table`: rename headers by the rule table, keep
   * the canonical columns in canonical order, convert dates and numbers,
   * drop rows without a date (and without a close when there is a close
   * column) and sort ascending by date.
   */
  function Normalize(t: RawTable): (r: Result<Frame, TableError>)
    requires Rectangular(t)
  {
    var targets := Targets(t.headers);
    if HasDuplicate(targets) then Err(DuplicateColumn)
    else if Some(DateCol) !in targets then Err(MissingDate)
    else if NanInChange(targets, t.rows) then Err(NanChange)
    else
      CanonicalRanked();
      var cols := KeepColumns(Canonical, targets);
      var rows := KeepRows(ParseRows(targets, t.rows), Some(CloseCol) in targets);
      Ok(Frame(cols, Sort(rows, DateOf, false)))
  }

  /** The normalised rows are in ascending date order. */
  lemma {:induction false} NormalizeSorted(t: RawTable)
    requires Rectangular(t) && Normalize(t).Ok?
    ensures Sorted(Normalize(t).value.rows, DateOf, false)
  {
    var targets := Targets(t.headers);
    var rows := KeepRows(ParseRows(targets, t.rows), Some(CloseCol) in targets);
    SortSpec(rows, DateOf, false);
  }

  /**
   * The normalised columns are exactly the canonical columns some header
   * was renamed to, each once and in canonical order; the date column is
   * always among them.
   */
  lemma {:induction false} NormalizeColumns(t: RawTable)
    requires Rectangular(t) && Normalize(t).Ok?
    ensures forall c :: c in Normalize(t).value.columns <==> exists i :: 0 <= i < |t.headers| && Target(t.headers[i]) == Some(c)
    ensures forall i, j :: 0 <= i < j < |Normalize(t).value.columns| ==>
      Rank(Normalize(t).value.columns[i]) < Rank(Normalize(t).value.columns[j])
    ensures DateCol in Normalize(t).value.columns
  {
    NormalizeParts(t);
    ColumnsOfTargets(t);
    TargetsHit(t.headers);
  }

  /** A column is among the targets exactly when some header is renamed to it. */
  lemma TargetsHit(headers: seq<string>)
    ensures forall c :: Some(c) in Targets(headers) <==> exists i :: 0 <= i < |headers| && Target(headers[i]) == Some(c)
  {
    var targets := Targets(headers);
    forall c ensures Some(c) in targets <==> exists i :: 0 <= i < |headers| && Target(headers[i]) == Some(c) {
      if Some(c) in targets {
        var i :| 0 <= i < |targets| && targets[i] == Some(c);
        assert Target(headers[i]) == Some(c);
      }
    }
  }

  /** The normalised columns are the renamed headers, in rank order. */
  lemma {:induction false} ColumnsOfTargets(t: RawTable)
    requires Rectangular(t) && Normalize(t).Ok?
    ensures forall c :: c in Normalize(t).value.columns <==> Some(c) in Targets(t.headers)
    ensures forall i, j :: 0 <= i < j < |Normalize(t).value.columns| ==>
      Rank(Normalize(t).value.columns[i]) < Rank(Normalize(t).value.columns[j])
  {
    CanonicalRanked();
    var cols := KeepColumns(Canonical, Targets(t.headers));
    assert Normalize(t).value.columns == cols;
    CanonicalComplete();
  }

  /** The canonical columns are listed by rank. */
  lemma {:induction false} CanonicalRanked()
    ensures forall i, j :: 0 <= i < j < |Canonical| ==> Rank(Canonical[i]) < Rank(Canonical[j])
  {
    forall i, j | 0 <= i < j < |Canonical| ensures Rank(Canonical[i]) < Rank(Canonical[j]) {
      assert Rank(Canonical[i]) == i && Rank(Canonical[j]) == j;
    }
  }

  /** Every column is canonical. */
  lemma {:induction false} CanonicalComplete()
    ensures forall c :: c in Canonical
  {
    forall c ensures c in Canonical {
      assert Canonical[Rank(c)] == c;
    }
  }

  /** What a successful normalisation holds, spelled out once. */
  lemma {:induction false} NormalizeParts(t: RawTable)
    requires Rectangular(t) && Normalize(t).Ok?
    ensures Some(DateCol) in Targets(t.headers) && !NanInChange(Targets(t.headers), t.rows)
    ensures Normalize(t).value.rows
         == Sort(KeepRows(ParseRows(Targets(t.headers), t.rows), Some(CloseCol) in Targets(t.headers)), DateOf, false)
  {
  }

  /**
   * A row is in the normalised table exactly when some input row, after
   * conversion, has a date (and a close, when there is a close column)
   * and converts to it.
   */
  lemma {:induction false} NormalizeRows(t: RawTable, o: Obs)
    requires Rectangular(t) && Normalize(t).Ok?
    ensures var targets := Targets(t.headers);
      o in Normalize(t).value.rows <==>
        exists i :: 0 <= i < |t.rows| && Kept(ParseRow(targets, t.rows[i]), Some(CloseCol) in targets)
                 && ToObs(ParseRow(targets, t.rows[i])) == o
  {
    NormalizeParts(t);
    var targets := Targets(t.headers);
    var ps := ParseRows(targets, t.rows);
    var hasClose := Some(CloseCol) in targets;
    var rows := KeepRows(ps, hasClose);
    SortSpec(rows, DateOf, false);
    assert o in Normalize(t).value.rows <==> o in rows by {
      assert o in Normalize(t).value.rows <==> o in multiset(Sort(rows, DateOf, false));
    }
    KeepRowsSpec(ps, hasClose, o);
    RowsOfParsed(targets, t.rows, ps, hasClose, o);
  }

  /** A kept parsed row is the parse of the input row at the same index. */
  lemma {:induction false} RowsOfParsed(targets: seq<Option<Column>>, rows: seq<seq<Cell>>, ps: seq<Parsed>,
                                        hasClose: bool, o: Obs)
    requires forall i :: 0 <= i < |rows| ==> |rows[i]| == |targets|
    requires !NanInChange(targets, rows) && ps == ParseRows(targets, rows)
    ensures (exists i :: 0 <= i < |ps| && Kept(ps[i], hasClose) && ToObs(ps[i]) == o)
        <==> exists i :: 0 <= i < |rows| && Kept(ParseRow(targets, rows[i]), hasClose)
                      && ToObs(ParseRow(targets, rows[i])) == o
  {
    if exists i :: 0 <= i < |ps| && Kept(ps[i], hasClose) && ToObs(ps[i]) == o {
      var i :| 0 <= i < |ps| && Kept(ps[i], hasClose) && ToObs(ps[i]) == o;
      assert ps[i] == ParseRow(targets, rows[i]);
    }
    if exists i :: 0 <= i < |rows| && Kept(ParseRow(targets, rows[i]), hasClose)
                   && ToObs(ParseRow(targets, rows[i])) == o {
      var i :| 0 <= i < |rows| && Kept(ParseRow(targets, rows[i]), hasClose)
               && ToObs(ParseRow(targets, rows[i])) == o;
      assert ps[i] == ParseRow(targets, rows[i]);
    }
  }

  /** With a close column, every normalised row has a close; an absent column leaves its field empty. */
  lemma {:induction false} NormalizeFields(t: RawTable, o: Obs)
    requires Rectangular(t) && Normalize(t).Ok? && o in Normalize(t).value.rows
    ensures CloseCol in Normalize(t).value.columns ==> o.close.Some?
    ensures OpenCol !in Normalize(t).value.columns ==> o.open.None?
    ensures HighCol !in Normalize(t).value.columns ==> o.high.None?
    ensures LowCol !in Normalize(t).value.columns ==> o.low.None?
    ensures CloseCol !in Normalize(t).value.columns ==> o.close.None?
    ensures ChangeCol !in Normalize(t).value.columns ==> o.changePct.None?
  {
    var targets := Targets(t.headers);
    NormalizeRows(t, o);
    ColumnsOfTargets(t);
    var i :| 0 <= i < |t.rows| && Kept(ParseRow(targets, t.rows[i]), Some(CloseCol) in targets)
             && ToObs(ParseRow(targets, t.rows[i])) == o;
  }

  // ------------------------------------------------------------ read_html

  /** Python `str(c).lower()` containment used by the candidate filter (no strip). */
  predicate HeaderHas(headers: seq<string>, w: string) {
    exists i :: 0 <= i < |headers| && Contains(Lower(headers[i]), w)
  }

  /** A table `read_html` returned is a candidate: a "data" header and a close header. */
  predicate IsCandidate(t: RawTable) {
    HeaderHas(t.headers, "data")
    && (HeaderHas(t.headers, "último") || HeaderHas(t.headers, "ultimo") || HeaderHas(t.headers, "close"))
  }

  /** Index of the first candidate table, if any. */
  function FirstCandidate(ts: seq<RawTable>): (r: Option<nat>)
    ensures r.Some? ==> r.value < |ts| && IsCandidate(ts[r.value])
    ensures r.Some? ==> forall k :: 0 <= k < r.value ==> !IsCandidate(ts[k])
    ensures r.None? ==> forall k :: 0 <= k < |ts| ==> !IsCandidate(ts[k])
    decreases |ts|
  {
    if ts == [] then None
    else if IsCandidate(ts[0]) then Some(0)
    else
      match FirstCandidate(ts[1..])
      case None => None
      case Some(k) => Some(k + 1)
  }

  /**
   * `parse_table_with_read_html`: `tables` is `None` when `read_html`
   * raises ValueError (no table in the page).  The first candidate is
   * normalised; a normalisation error is not caught here.
   */
  function ReadHtmlStrategy(tables: Option<seq<RawTable>>): (r: Result<Option<Frame>, TableError>)
    requires tables.Some? ==> forall k :: 0 <= k < |tables.value| ==> Rectangular(tables.value[k])
    ensures tables.None? ==> r == Ok(None)
    ensures r.Ok? && r.value.Some? ==> Sorted(r.value.value.rows, DateOf, false)
  {
    match tables
    case None => Ok(None)
    case Some(ts) =>
      match FirstCandidate(ts)
      case None => Ok(None)
      case Some(k) =>
        match Normalize(ts[k])
        case Ok(f) => NormalizeSorted(ts[k]); Ok(Some(f))
        case Err(e) => Err(e)
  }

  /** The read_html strategy returns a table only by normalising the first candidate, and nothing when there is none. */
  lemma {:induction false} ReadHtmlFirstCandidate(ts: seq<RawTable>)
    requires forall k :: 0 <= k < |ts| ==> Rectangular(ts[k])
    ensures (forall k :: 0 <= k < |ts| ==> !IsCandidate(ts[k])) ==> ReadHtmlStrategy(Some(ts)) == Ok(None)
    ensures forall k ::
              0 <= k < |ts| && IsCandidate(ts[k]) && (forall m :: 0 <= m < k ==> !IsCandidate(ts[m])) ==>
                (ReadHtmlStrategy(Some(ts)).Ok? <==> Normalize(ts[k]).Ok?)
                && (Normalize(ts[k]).Ok? ==> ReadHtmlStrategy(Some(ts)) == Ok(Some(Normalize(ts[k]).value)))
  {
    var r := FirstCandidate(ts);
    forall k | 0 <= k < |ts| && IsCandidate(ts[k]) && (forall m :: 0 <= m < k ==> !IsCandidate(ts[m]))
      ensures r == Some(k)
    {
    }
  }

  // ------------------------------------------------------------ XPath

  /** What the XPath query finds: the raw header texts and, per body row, the raw cell texts. */
  datatype HtmlTable = HtmlTable(headerTexts: seq<string>, rowTexts: seq<seq<string>>)

  function StripAll(ss: seq<string>): (r: seq<string>)
    ensures |r| == |ss|
    ensures forall i :: 0 <= i < |ss| ==> r[i] == Strip(ss[i])
    decreases |ss|
  {
    if ss == [] then [] else [Strip(ss[0])] + StripAll(ss[1..])
  }

  /** The stripped cell lists of the body rows that have at least one cell. */
  function BodyRows(rowTexts: seq<seq<string>>): (r: seq<seq<string>>)
    ensures forall i :: 0 <= i < |r| ==> |r[i]| > 0
    decreases |rowTexts|
  {
    if rowTexts == [] then []
    else (if rowTexts[0] == [] then [] else [StripAll(rowTexts[0])]) + BodyRows(rowTexts[1..])
  }

  function Width(rows: seq<seq<string>>): (w: nat)
    ensures forall i :: 0 <= i < |rows| ==> |rows[i]| <= w
    decreases |rows|
  {
    if rows == [] then 0
    else
      var w := Width(rows[1..]);
      assert forall i :: 1 <= i < |rows| ==> rows[i] == rows[1..][i - 1];
      if |rows[0]| > w then |rows[0]| else w
  }

  /** A text row as DataFrame cells, padded with `None` to `n` columns. */
  function PadRow(cells: seq<string>, n: nat): (r: seq<Cell>)
    requires |cells| <= n
    ensures |r| == n
    ensures forall k :: 0 <= k < |cells| ==> r[k] == Text(cells[k])
    ensures forall k :: |cells| <= k < n ==> r[k] == Null
  {
    seq(|cells|, k requires 0 <= k < |cells| => Text(cells[k])) + seq(n - |cells|, _ => Null)
  }

  function PadRows(rows: seq<seq<string>>, n: nat): (r: seq<seq<Cell>>)
    requires forall i :: 0 <= i < |rows| ==> |rows[i]| <= n
    ensures |r| == |rows|
    ensures forall i :: 0 <= i < |r| ==> |r[i]| == n && r[i] == PadRow(rows[i], n)
    decreases |rows|
  {
    if rows == [] then []
    else
      assert forall i :: 1 <= i < |rows| ==> rows[i] == rows[1..][i - 1];
      [PadRow(rows[0], n)] + PadRows(rows[1..], n)
  }

  /**
   * The DataFrame `pd.DataFrame(rows, columns=headers)` builds from what the
   * XPath query found: `None` when there are no headers or no non-empty
   * body rows (the function returns early), or when the widest row does not
   * have exactly one cell per header (the constructor raises).
   */
  function XPathRaw(ht: HtmlTable): (r: Option<RawTable>)
    ensures r.None? <==>
      ht.headerTexts == [] || BodyRows(ht.rowTexts) == [] || Width(BodyRows(ht.rowTexts)) != |ht.headerTexts|
    ensures r.Some? ==> r.value.headers == StripAll(ht.headerTexts)
    ensures r.Some? ==> |r.value.rows| == |BodyRows(ht.rowTexts)| && Rectangular(r.value)
    ensures r.Some? ==>
      forall i, k :: 0 <= i < |r.value.rows| && 0 <= k < |r.value.headers| ==>
           r.value.rows[i][k] == if k < |BodyRows(ht.rowTexts)[i]| then Text(BodyRows(ht.rowTexts)[i][k]) else Null
  {
    var headers := StripAll(ht.headerTexts);
    var rows := BodyRows(ht.rowTexts);
    if headers == [] || rows == [] || Width(rows) != |headers| then None
    else Some(RawTable(headers, PadRows(rows, |headers|)))
  }

  /**
   * `parse_table_with_xpath`: `None` when no table matches, when the
   * DataFrame cannot be built, or when normalisation raises (every
   * exception is caught); otherwise the normalised DataFrame.
   */
  function XPathStrategy(table: Option<HtmlTable>): (r: Option<Frame>)
    ensures table.None? ==> r.None?
    ensures table.Some? ==>
      (r.Some? <==> XPathRaw(table.value).Some? && Normalize(XPathRaw(table.value).value).Ok?)
    ensures r.Some? ==> Normalize(XPathRaw(table.value).value) == Ok(r.value)
    ensures r.Some? ==> Sorted(r.value.rows, DateOf, false)
  {
    match table
    case None => None
    case Some(ht) =>
      match XPathRaw(ht)
      case None => None
      case Some(t) =>
        match Normalize(t)
        case Ok(f) =>
          NormalizeSorted(t);
          Some(f)
        case Err(_) => None
  }

  // ------------------------------------------------------------ strategy order

  datatype FetchError = ParseError(cause: TableError) | NoTable

  /** A DataFrame with rows (a normalised frame always has the date column). */
  predicate NonEmpty(r: Option<Frame>) { r.Some? && |r.value.rows| > 0 }

  /**
   * `fetch_investing_cds`: the read_html result when it has rows, else the
   * XPath result when it has rows, else failure.  An error raised while
   * normalising the read_html candidate propagates.
   */
  function FetchInvestingCds(tables: Option<seq<RawTable>>, html: Option<HtmlTable>): (r: Result<Frame, FetchError>)
    requires tables.Some? ==> forall k :: 0 <= k < |tables.value| ==> Rectangular(tables.value[k])
    ensures r.Ok? ==> |r.value.rows| > 0
    ensures ReadHtmlStrategy(tables).Err? ==> r == Err(ParseError(ReadHtmlStrategy(tables).error))
    ensures r == Err(NoTable) <==>
      ReadHtmlStrategy(tables).Ok? && !NonEmpty(ReadHtmlStrategy(tables).value) && !NonEmpty(XPathStrategy(html))
    ensures r.Ok? <==>
      (ReadHtmlStrategy(tables).Ok? && NonEmpty(ReadHtmlStrategy(tables).value)) || 
      (ReadHtmlStrategy(tables).Ok? && NonEmpty(XPathStrategy(html)))
  {
    match ReadHtmlStrategy(tables)
    case Err(e) => Err(ParseError(e))
    case Ok(a) =>
      if NonEmpty(a) then Ok(a.value)
      else
        var b := XPathStrategy(html);
        if NonEmpty(b) then Ok(b.value) else Err(NoTable)
  }

  /**
   * read_html wins whenever it yields rows, and the XPath input is then
   * irrelevant; otherwise the XPath frame is returned when it has rows.
   */
  lemma {:induction false} FetchStrategyOrder(tables: Option<seq<RawTable>>, h1: Option<HtmlTable>, h2: Option<HtmlTable>)
    requires tables.Some? ==> forall k :: 0 <= k < |tables.value| ==> Rectangular(tables.value[k])
    ensures ReadHtmlStrategy(tables).Ok? && NonEmpty(ReadHtmlStrategy(tables).value)
      ==> FetchInvestingCds(tables, h1) == Ok(ReadHtmlStrategy(tables).value.value)
    ensures ReadHtmlStrategy(tables).Err? || NonEmpty(ReadHtmlStrategy(tables).value)
      ==> FetchInvestingCds(tables, h1) == FetchInvestingCds(tables, h2)
    ensures ReadHtmlStrategy(tables).Ok? && !NonEmpty(ReadHtmlStrategy(tables).value) && NonEmpty(XPathStrategy(h1))
      ==> FetchInvestingCds(tables, h1) == Ok(XPathStrategy(h1).value)
  {
  }

  /** Whatever strategy succeeds, the fetched table is a normalised one: sorted by date, with closes where there is a close column. */
  lemma {:induction false} FetchNormalized(tables: Option<seq<RawTable>>, html: Option<HtmlTable>)
    requires tables.Some? ==> forall k :: 0 <= k < |tables.value| ==> Rectangular(tables.value[k])
    requires FetchInvestingCds(tables, html).Ok?
    ensures var f := FetchInvestingCds(tables, html).value;
      Sorted(f.rows, DateOf, false)
      && DateCol in f.columns
      && (CloseCol in f.columns ==> forall k :: 0 <= k < |f.rows| ==> f.rows[k].close.Some?)
  {
    var f := FetchInvestingCds(tables, html).value;
    var t: RawTable;
    var a := ReadHtmlStrategy(tables);
    if a.Ok? && NonEmpty(a.value) {
      var k := FirstCandidate(tables.value).value;
      t := tables.value[k];
    } else {
      t := XPathRaw(html.value).value;
    }
    assert Normalize(t) == Ok(f);
    NormalizeSorted(t);
    NormalizeColumns(t);
    forall k | 0 <= k < |f.rows| && CloseCol in f.columns ensures f.rows[k].close.Some? {
      NormalizeFields(t, f.rows[k]);
    }
  }
}
