/**
 * The HTML-table version of the fish browser: `filter_given_months`, which
 * renders the projected rows that are active in the chosen months, and the
 * callback that delegates to it.
 * Its `filter_backend_table` is the same code as the DataTable version's and
 * is modelled once, as `DashtableApp.FilterBackendTable`.
 */
module HtmltableApp {
  import opened Frame
  import opened PersonalDashTools
  import AcDfTools
  import DashtableApp

  /** `generate_table(p.loc[mask])`: the first 100 of the rows of the
      projection `p` that `mask` selects, in table order, under all of its
      columns. */
  function Render(p: Table, mask: Mask): (h: HtmlTable)
    requires |mask| == |p.rows|
    ensures h.header == p.columns
    ensures |h.body| == ShownCount(|Indices(mask)|, DefaultMaxRows)
    ensures forall i | 0 <= i < |h.body| :: |h.body[i]| == |p.columns|
    ensures forall i, j | 0 <= i < |h.body| && 0 <= j < |p.columns| ::
      h.body[i][j] == At(p.rows[Indices(mask)[i]], p.columns[j])
  {
    GenerateTable(Select(p, mask), DefaultMaxRows)
  }

  /** What the `try` block of `filter_given_months` returns for the
      projection `p` of `t`: every exception in it becomes `None`. */
  function MonthsTable(t: Table, p: Table, months: Value): (r: Option<HtmlTable>)
    requires |p.rows| == |t.rows|
    ensures months.Str? ==> (r.Some? <==> IsFlagColumn(t, months.s))
    ensures months.StrList? ==> (r.Some? <==> forall m | m in months.items :: IsFlagColumn(t, m))
    ensures !months.Str? && !months.StrList? ==> r == None
  {
    if months.Str? then
      match FlagsOf(t, months.s)
      case Err(_) => None
      case Ok(selected) => Some(Render(p, selected))
    else if months.StrList? then
      AndFlagsMeaning(t, AllTrue(|p.rows|), months.items);
      match AndFlags(t, AllTrue(|p.rows|), months.items)
      case Err(_) => None
      case Ok(selected) => Some(Render(p, selected))
    else None
  }

  /** `filter_given_months`: a month or a non-empty list of months renders
      the first 100 projected rows active in all of them; an empty list
      renders the first 100 projected rows; `None`, any other value and any
      exception inside the `try` give `None`; the projection itself runs
      outside the `try`, so its error escapes. */
  function GivenMonths(t: Table, months: Value): (r: Result<Option<HtmlTable>>)
    ensures r.Err? <==> DashtableApp.FilterBackendTable(t).Err?
    ensures r.Err? ==> r.error == DashtableApp.FilterBackendTable(t).error
    ensures r.Ok? && (months.PyNone? || months.Other?) ==> r.value == None
    ensures r.Ok? && months == StrList([]) ==>
      r.value == Some(GenerateTable(DashtableApp.FilterBackendTable(t).value, DefaultMaxRows))
    ensures r.Ok? && months.Str? ==> (r.value.Some? <==> FlagsOf(t, months.s).Ok?)
    ensures r.Ok? && months.Str? && r.value.Some? ==>
      |DashtableApp.FilterBackendTable(t).value.rows| == |FlagsOf(t, months.s).value| &&
      r.value.value == Render(DashtableApp.FilterBackendTable(t).value, FlagsOf(t, months.s).value)
    ensures r.Ok? && Truthy(months) && months.StrList? ==>
      (r.value.Some? <==> AcDfTools.MonthLogic(t, months).Ok?)
    ensures r.Ok? && Truthy(months) && months.StrList? && r.value.Some? ==>
      |DashtableApp.FilterBackendTable(t).value.rows| == |AcDfTools.MonthLogic(t, months).value| &&
      r.value.value == Render(DashtableApp.FilterBackendTable(t).value, AcDfTools.MonthLogic(t, months).value)
  {
    match DashtableApp.FilterBackendTable(t)
    case Err(e) => Err(e)
    case Ok(p) =>
      if months.Str? then
        Ok(MonthsTable(t, p, months))
      else if months == StrList([]) then
        FilterConstant(p.rows, true);
        assert AllTrue(|p.rows|) == seq(|p.rows|, _ => true);
        Ok(MonthsTable(t, p, months))
      else if months.StrList? then
        assert Truthy(months);
        Ok(MonthsTable(t, p, months))
      else
        Ok(None)
  }

  /** An empty string is still a string: it names no column and gives `None`. */
  lemma EmptyMonthName(t: Table)
    requires "" !in t.columns
    requires DashtableApp.FilterBackendTable(t).Ok?
    ensures GivenMonths(t, Str("")) == Ok(None)
  {
  }

  /** The empty list and the cleared selection disagree between the two
      versions: here the first 100 rows are shown, in the table tools no row
      is selected. */
  lemma EmptyListDisagrees(t: Table)
    requires DashtableApp.FilterBackendTable(t).Ok? && |t.rows| > 0
    ensures AcDfTools.MonthLogic(t, StrList([])) == Ok(AllFalse(|t.rows|))
    ensures GivenMonths(t, StrList([])).value.Some?
    ensures |GivenMonths(t, StrList([])).value.value.body| == ShownCount(|t.rows|, DefaultMaxRows) > 0
  {
  }

  /** `filter_given_months` with its month loop as the code runs it. */
  method FilterGivenMonths(t: Table, months: Value) returns (r: Result<Option<HtmlTable>>)
    ensures r == GivenMonths(t, months)
  {
    var projected := DashtableApp.FilterBackendTable(t);
    if projected.Err? {
      return Err(projected.error);
    }
    var p := projected.value;
    if months.Str? {
      var selected := FlagsOf(t, months.s);
      if selected.Err? {
        return Ok(None);
      }
      return Ok(Some(Render(p, selected.value)));
    } else if months.StrList? {
      var ms := months.items;
      var selected := AllTrue(|p.rows|);
      var k := 0;
      while k < |ms|
        invariant 0 <= k <= |ms|
        invariant |selected| == |p.rows|
        invariant AndFlags(t, selected, ms[k..]) == AndFlags(t, AllTrue(|p.rows|), ms)
      {
        var column := FlagsOf(t, ms[k]);
        assert ms[k..][0] == ms[k] && ms[k..][1..] == ms[k + 1..];
        if column.Err? {
          return Ok(None);
        }
        selected := And(selected, column.value);
        k := k + 1;
      }
      return Ok(Some(Render(p, selected)));
    }
    return Ok(None);
  }

  /** `update_table`: the callback renders exactly what `filter_given_months` does. */
  method UpdateTable(t: Table, monthsToFilter: Value) returns (r: Result<Option<HtmlTable>>)
    ensures r == GivenMonths(t, monthsToFilter)
  {
    r := FilterGivenMonths(t, monthsToFilter);
  }
}
