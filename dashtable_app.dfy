/**
 * The DataTable version of the fish browser: its own copies of the display
 * projection and of the two mask builders, the callback that turns the four
 * dropdown values into the rows and columns shown, and the callback that
 * enables, disables and clears the dropdowns.
 */
module DashtableApp {
  import opened Frame
  import opened PersonalDashTools
  import AcDfTools

  /** `filter_backend_table`: as in the table tools, except that a table that
      is neither a bug nor a fish table reaches `return df` with `df` unbound. */
  function FilterBackendTable(t: Table): (r: Result<Table>)
    ensures r.Err? <==> t.columns == [] || (t.columns[0] != "Bug" && t.columns[0] != "Fish")
    ensures r.Err? ==> r.error == if t.columns == [] then IndexError else UnboundLocalError("df")
    ensures r.Ok? ==> AcDfTools.FilterBackendTable(t) == Ok(Some(r.value))
  {
    if t.columns == [] then Err(IndexError)
    else if t.columns[0] == "Bug" then Ok(Project(t, BugItems(t.columns[0])))
    else if t.columns[0] == "Fish" then Ok(Project(t, FishItems(t.columns[0])))
    else Err(UnboundLocalError("df"))
  }

  /** The fish loop `for f in names: selected = selected & (df["Fish"] == f)`. */
  function AndNames(t: Table, seed: Mask, names: seq<string>): (r: Result<Mask>)
    requires |seed| == |t.rows|
    ensures r.Ok? ==> |r.value| == |seed|
    decreases |names|
  {
    if names == [] then Ok(seed)
    else match Series(t, "Fish")
      case Err(e) => Err(e)
      case Ok(col) => AndNames(t, And(seed, EqualsText(col, names[0])), names[1..])
  }

  /** The fish loop fails only for a table without a "Fish" column; otherwise
      a row stays selected only if its name equals every listed name. */
  lemma {:induction false} AndNamesMeaning(t: Table, seed: Mask, names: seq<string>)
    requires |seed| == |t.rows|
    ensures AndNames(t, seed, names).Ok? <==> names == [] || "Fish" in t.columns
    ensures AndNames(t, seed, names).Err? ==> AndNames(t, seed, names).error == KeyError("Fish")
    ensures AndNames(t, seed, names).Ok? ==> forall i | 0 <= i < |seed| ::
      AndNames(t, seed, names).value[i] == (seed[i] && forall f | f in names :: AcDfTools.NameIs(t, i, f))
    decreases |names|
  {
    if names != [] && "Fish" in t.columns {
      var col := Series(t, "Fish").value;
      var seed' := And(seed, EqualsText(col, names[0]));
      assert AndNames(t, seed, names) == AndNames(t, seed', names[1..]);
      AndNamesMeaning(t, seed', names[1..]);
      assert forall f :: f in names <==> f == names[0] || f in names[1..];
      forall i | 0 <= i < |seed| ensures seed'[i] == (seed[i] && AcDfTools.NameIs(t, i, names[0])) {
        assert col[i] == At(t.rows[i], "Fish");
      }
    }
  }

  /** `get_fish_logic` as written here: no selection selects no row, a single
      name always fails because `pd_vector` is printed before it is assigned,
      a list keeps the rows whose name equals every listed name, and any other
      value selects no row. */
  function FishLogic(t: Table, sel: Value): (r: Result<Mask>)
    ensures r.Ok? ==> |r.value| == |t.rows|
    ensures !Truthy(sel) || sel.Other? ==> r == Ok(AllFalse(|t.rows|))
    ensures Truthy(sel) && sel.Str? ==> r == Err(UnboundLocalError("pd_vector"))
    ensures Truthy(sel) && sel.StrList? ==> (r.Ok? <==> "Fish" in t.columns)
    ensures Truthy(sel) && sel.StrList? && r.Err? ==> r.error == KeyError("Fish")
    ensures Truthy(sel) && sel.StrList? && r.Ok? ==> forall i | 0 <= i < |t.rows| ::
      r.value[i] == forall f | f in sel.items :: AcDfTools.NameIs(t, i, f)
  {
    var n := |t.rows|;
    if !Truthy(sel) then Ok(AllFalse(n))
    else if sel.Str? then Err(UnboundLocalError("pd_vector"))
    else if sel.StrList? then
      AndNamesMeaning(t, AllTrue(n), sel.items);
      AndNames(t, AllTrue(n), sel.items)
    else Ok(AllFalse(n))
  }

  /** For a single listed name the AND of equalities agrees with set membership. */
  lemma SingleNameAgreesWithIsin(t: Table, name: string)
    ensures FishLogic(t, StrList([name])) == AcDfTools.FishLogic(t, StrList([name]))
  {
    var a, b := FishLogic(t, StrList([name])), AcDfTools.FishLogic(t, StrList([name]));
    assert forall f :: f in [name] <==> f == name;
    if a.Ok? {
      forall i | 0 <= i < |t.rows| ensures a.value[i] == b.value[i] {
        assert AcDfTools.NameIs(t, i, name) <==> AcDfTools.NameIn(t, i, [name]);
      }
      assert a.value == b.value;
    }
  }

  /** Listing two different names selects no row at all. */
  lemma TwoNamesSelectNothing(t: Table, names: seq<string>, a: string, b: string)
    requires a in names && b in names && a != b
    requires FishLogic(t, StrList(names)).Ok?
    ensures FishLogic(t, StrList(names)) == Ok(AllFalse(|t.rows|))
  {
    var r := FishLogic(t, StrList(names));
    forall i | 0 <= i < |t.rows| ensures !r.value[i] {
      assert AcDfTools.NameIs(t, i, a) ==> !AcDfTools.NameIs(t, i, b);
    }
    assert r.value == AllFalse(|t.rows|);
  }

  /** The list branch of `get_fish_logic` as the loop the code runs. */
  method GetFishLogic(t: Table, sel: Value) returns (r: Result<Mask>)
    ensures r == FishLogic(t, sel)
  {
    var n := |t.rows|;
    if !Truthy(sel) {
      return Ok(AllFalse(n));
    }
    if sel.Str? {
      r := Err(UnboundLocalError("pd_vector"));
    } else if sel.StrList? {
      var names := sel.items;
      var selected := AllTrue(n);
      var k := 0;
      while k < |names|
        invariant 0 <= k <= |names|
        invariant |selected| == n
        invariant AndNames(t, selected, names[k..]) == AndNames(t, AllTrue(n), names)
      {
        var fish := Series(t, "Fish");
        assert names[k..][0] == names[k] && names[k..][1..] == names[k + 1..];
        if fish.Err? {
          return Err(fish.error);
        }
        selected := And(selected, EqualsText(fish.value, names[k]));
        k := k + 1;
      }
      r := Ok(selected);
    } else {
      r := Ok(AllFalse(n));
    }
  }

  /** `get_month_logic` here: the same loop as in the table tools, with the
      same meaning. */
  method GetMonthLogic(t: Table, sel: Value) returns (r: Result<Mask>)
    ensures r == AcDfTools.MonthLogic(t, sel)
  {
    var n := |t.rows|;
    if !Truthy(sel) {
      return Ok(AllFalse(n));
    }
    if sel.Str? {
      r := FlagsOf(t, sel.s);
    } else if sel.StrList? {
      var months := sel.items;
      var selected := AllTrue(n);
      var k := 0;
      while k < |months|
        invariant 0 <= k <= |months|
        invariant |selected| == n
        invariant AndFlags(t, selected, months[k..]) == AndFlags(t, AllTrue(n), months)
      {
        var column := FlagsOf(t, months[k]);
        assert months[k..][0] == months[k] && months[k..][1..] == months[k + 1..];
        if column.Err? {
          return Err(column.error);
        }
        selected := And(selected, column.value);
        k := k + 1;
      }
      r := Ok(selected);
    } else {
      r := Ok(AllFalse(n));
    }
  }

  /** What a DataTable callback returns: the records and the column descriptors. */
  datatype TableOutput = TableOutput(data: seq<Row>, columns: seq<ColumnSpec>)

  /** `return_original_fish_table`: every projected record and one descriptor
      per projected column. */
  function ReturnOriginalFishTable(t: Table): (r: Result<TableOutput>)
    ensures r.Ok? <==> FilterBackendTable(t).Ok?
    ensures r.Err? ==> r.error == FilterBackendTable(t).error
    ensures r.Ok? ==> |r.value.data| == |t.rows|
    ensures r.Ok? ==> forall k | 0 <= k < |t.rows| ::
      r.value.data[k] == Restrict(t.rows[k], FilterBackendTable(t).value.columns)
    ensures r.Ok? ==> |r.value.columns| == |FilterBackendTable(t).value.columns|
    ensures r.Ok? ==> forall i | 0 <= i < |r.value.columns| ::
      r.value.columns[i] == ColumnSpec(FilterBackendTable(t).value.columns[i], FilterBackendTable(t).value.columns[i])
  {
    match FilterBackendTable(t)
    case Err(e) => Err(e)
    case Ok(p) => Ok(TableOutput(p.rows, DfColsToDashtableCols(p)))
  }

  /** Python's `a or b` on two lists: `a` unless it is empty. */
  function ListOr(a: Mask, b: Mask): (r: Mask)
    ensures r == a || r == b
    ensures a != [] ==> r == a
    ensures a == [] ==> r == b
  {
    if a != [] then a else b
  }

  /** The arriving and leaving placeholders, and a pair of empty filters,
      raise `PreventUpdate` before anything is computed. */
  predicate Prevented(month: Value, fish: Value, arriving: Value, leaving: Value): (b: bool)
    ensures b <==> (
      || arriving.Str?
      || leaving.Str?
      || ((month == PyNone || month == Str("") || month == StrList([]) || month == Other(false)) &&
          (fish == PyNone || fish == Str("") || fish == StrList([]) || fish == Other(false))))
  {
    arriving.Str? || leaving.Str? || (!Truthy(month) && !Truthy(fish))
  }

  /** `update_table` as written: the arriving and leaving placeholders and an
      empty pair of filters prevent the update; otherwise both masks are
      computed, combined by `log1 or log2`, and applied to the projection. */
  function UpdateTable(t: Table, month: Value, fish: Value, arriving: Value, leaving: Value): (r: Result<TableOutput>)
    ensures r == Err(PreventUpdate) <==> Prevented(month, fish, arriving, leaving)
    ensures r.Ok? <==>
      && !Prevented(month, fish, arriving, leaving)
      && AcDfTools.MonthLogic(t, month).Ok?
      && FishLogic(t, fish).Ok?
      && FilterBackendTable(t).Ok?
    ensures !Prevented(month, fish, arriving, leaving) && AcDfTools.MonthLogic(t, month).Err? ==>
      r == Err(AcDfTools.MonthLogic(t, month).error)
    ensures !Prevented(month, fish, arriving, leaving) && AcDfTools.MonthLogic(t, month).Ok? && FishLogic(t, fish).Err? ==>
      r == Err(FishLogic(t, fish).error)
    ensures (!Prevented(month, fish, arriving, leaving) && AcDfTools.MonthLogic(t, month).Ok? &&
             FishLogic(t, fish).Ok? && FilterBackendTable(t).Err?) ==>
      r == Err(FilterBackendTable(t).error)
    ensures r.Ok? ==>
      && r.value.data == Filter(FilterBackendTable(t).value.rows, AcDfTools.MonthLogic(t, month).value)
      && r.value.columns == DfColsToDashtableCols(FilterBackendTable(t).value)
  {
    if arriving.Str? then Err(PreventUpdate)
    else if leaving.Str? then Err(PreventUpdate)
    else if !Truthy(month) && !Truthy(fish) then Err(PreventUpdate)
    else
      match AcDfTools.MonthLogic(t, month)
      case Err(e) => Err(e)
      case Ok(log1) =>
        match FishLogic(t, fish)
        case Err(e) => Err(e)
        case Ok(log2) =>
          var selected := ListOr(log1, log2);
          match FilterBackendTable(t)
          case Err(e) => Err(e)
          case Ok(p) =>
            var shown := Select(p, selected);
            Ok(TableOutput(shown.rows, DfColsToDashtableCols(shown)))
  }

  /** Because the month mask is never an empty list for a non-empty table,
      `log1 or log2` is always the month mask: a cleared month dropdown shows
      no row whatever fish are selected. */
  lemma FishFilterIgnored(t: Table, month: Value, fish: Value, arriving: Value, leaving: Value)
    requires !Truthy(month)
    requires UpdateTable(t, month, fish, arriving, leaving).Ok?
    ensures UpdateTable(t, month, fish, arriving, leaving).value.data == []
  {
    var p := FilterBackendTable(t).value;
    FilterConstant(p.rows, false);
    assert AllFalse(|t.rows|) == seq(|p.rows|, _ => false);
  }

  /** Two fish selections that both pass through give the same table. */
  lemma FishSelectionIrrelevant(t: Table, month: Value, fish1: Value, fish2: Value, arriving: Value, leaving: Value)
    requires UpdateTable(t, month, fish1, arriving, leaving).Ok?
    requires UpdateTable(t, month, fish2, arriving, leaving).Ok?
    ensures UpdateTable(t, month, fish1, arriving, leaving) == UpdateTable(t, month, fish2, arriving, leaving)
  {
  }

  /** `update_table` with the combination its comments describe: a row is
      shown when it matches the month filter or the fish filter, the fish
      filter taking the set-membership meaning of the table tools. */
  function UpdateTableAsIntended(t: Table, month: Value, fish: Value, arriving: Value, leaving: Value): (r: Result<TableOutput>)
    ensures r == Err(PreventUpdate) <==> Prevented(month, fish, arriving, leaving)
    ensures r.Ok? <==>
      && !Prevented(month, fish, arriving, leaving)
      && AcDfTools.MonthLogic(t, month).Ok?
      && AcDfTools.FishLogic(t, fish).Ok?
      && FilterBackendTable(t).Ok?
    ensures !Prevented(month, fish, arriving, leaving) && AcDfTools.MonthLogic(t, month).Err? ==>
      r == Err(AcDfTools.MonthLogic(t, month).error)
    ensures !Prevented(month, fish, arriving, leaving) && AcDfTools.MonthLogic(t, month).Ok? && AcDfTools.FishLogic(t, fish).Err? ==>
      r == Err(AcDfTools.FishLogic(t, fish).error)
    ensures (!Prevented(month, fish, arriving, leaving) && AcDfTools.MonthLogic(t, month).Ok? &&
             AcDfTools.FishLogic(t, fish).Ok? && FilterBackendTable(t).Err?) ==>
      r == Err(FilterBackendTable(t).error)
    ensures r.Ok? ==>
      && r.value.data == Filter(FilterBackendTable(t).value.rows,
                                Or(AcDfTools.MonthLogic(t, month).value, AcDfTools.FishLogic(t, fish).value))
      && r.value.columns == DfColsToDashtableCols(FilterBackendTable(t).value)
  {
    if arriving.Str? then Err(PreventUpdate)
    else if leaving.Str? then Err(PreventUpdate)
    else if !Truthy(month) && !Truthy(fish) then Err(PreventUpdate)
    else
      match AcDfTools.MonthLogic(t, month)
      case Err(e) => Err(e)
      case Ok(log1) =>
        match AcDfTools.FishLogic(t, fish)
        case Err(e) => Err(e)
        case Ok(log2) =>
          match FilterBackendTable(t)
          case Err(e) => Err(e)
          case Ok(p) =>
            var shown := Select(p, Or(log1, log2));
            Ok(TableOutput(shown.rows, DfColsToDashtableCols(shown)))
  }

  /** With the intended combination every row of a selected fish is shown,
      also when the month dropdown is cleared. */
  lemma IntendedShowsSelectedFish(t: Table, month: Value, names: seq<string>, arriving: Value, leaving: Value, i: nat)
    requires !arriving.Str? && !leaving.Str? && names != []
    requires FilterBackendTable(t).Ok? && "Fish" in t.columns && AcDfTools.MonthLogic(t, month).Ok?
    requires i < |t.rows| && AcDfTools.NameIn(t, i, names)
    ensures UpdateTableAsIntended(t, month, StrList(names), arriving, leaving).Ok?
    ensures FilterBackendTable(t).value.rows[i] in UpdateTableAsIntended(t, month, StrList(names), arriving, leaving).value.data
  {
    var p := FilterBackendTable(t).value;
    var mask := Or(AcDfTools.MonthLogic(t, month).value, AcDfTools.FishLogic(t, StrList(names)).value);
    assert mask[i];
    var ix := Indices(mask);
    var k :| 0 <= k < |ix| && ix[k] == i;
    assert Filter(p.rows, mask)[k] == p.rows[i];
  }

  /** The dropdown outputs of `erase_fish_and_month`. */
  datatype DropdownState = DropdownState(
    monthDisabled: bool, fishDisabled: bool,
    monthValue: Value, fishValue: Value,
    arrivingDisabled: bool, leavingDisabled: bool)

  /** `erase_fish_and_month`: choosing an arriving or leaving month disables
      and clears the month and fish dropdowns and disables the other
      transition dropdown; clearing both re-enables everything; anything else
      prevents the update. */
  function EraseFishAndMonth(arriving: Value, leaving: Value): (r: Result<DropdownState>)
    ensures r.Err? <==> !arriving.Str? && !leaving.Str? && (Truthy(arriving) || Truthy(leaving))
    ensures r.Err? ==> r.error == PreventUpdate
    ensures r.Ok? ==> r.value.monthValue == StrList([]) && r.value.fishValue == StrList([])
    ensures r.Ok? ==> (r.value.monthDisabled <==> arriving.Str? || leaving.Str?)
    ensures r.Ok? ==> (r.value.fishDisabled <==> arriving.Str? || leaving.Str?)
    ensures r.Ok? ==> (r.value.arrivingDisabled <==> !arriving.Str? && leaving.Str?)
    ensures r.Ok? ==> (r.value.leavingDisabled <==> arriving.Str?)
  {
    if arriving.Str? then Ok(DropdownState(true, true, StrList([]), StrList([]), false, true))
    else if leaving.Str? then Ok(DropdownState(true, true, StrList([]), StrList([]), true, false))
    else if !Truthy(arriving) && !Truthy(leaving) then
      Ok(DropdownState(false, false, StrList([]), StrList([]), false, false))
    else Err(PreventUpdate)
  }

  /** The dropdown values `erase_fish_and_month` writes back never make the
      table callback update: the two callbacks agree. */
  lemma ErasedFiltersPreventUpdate(t: Table, arriving: Value, leaving: Value)
    requires EraseFishAndMonth(arriving, leaving).Ok?
    ensures var s := EraseFishAndMonth(arriving, leaving).value;
      UpdateTable(t, s.monthValue, s.fishValue, arriving, leaving) == Err(PreventUpdate)
  {
  }
}
