/**
 * The table tools of the fish browser: the display projection of a bug or
 * fish table, and the row masks for a fish-name selection (set membership)
 * and for a month selection (intersection of the month flags).
 */
module AcDfTools {
  import opened Frame

  /** `filter_backend_table`: a bug or fish table loses its month flags and
      keeps its display columns; any other table gives `None`. */
  function FilterBackendTable(t: Table): (r: Result<Option<Table>>)
    ensures r.Err? <==> t.columns == []
    ensures r.Err? ==> r.error == IndexError
    ensures r.Ok? ==> (r.value.Some? <==> t.columns[0] == "Bug" || t.columns[0] == "Fish")
    ensures r.Ok? && t.columns[0] == "Bug" ==> DisplayProjection(t, BugItems("Bug"), r.value.value)
    ensures r.Ok? && t.columns[0] == "Fish" ==> DisplayProjection(t, FishItems("Fish"), r.value.value)
  {
    if t.columns == [] then Err(IndexError)
    else if t.columns[0] == "Bug" then
      DisplayProjectionHolds(t, BugItems(t.columns[0]));
      Ok(Some(Project(t, BugItems(t.columns[0]))))
    else if t.columns[0] == "Fish" then
      DisplayProjectionHolds(t, FishItems(t.columns[0]));
      Ok(Some(Project(t, FishItems(t.columns[0]))))
    else Ok(None)
  }

  /** With every display column present, a fish table shows exactly the
      identity, location, shadow size, price and hour columns, in that order. */
  lemma FishTableColumns(t: Table)
    requires t.columns != [] && t.columns[0] == "Fish"
    requires forall c | c in FishItems("Fish") :: c in t.columns
    ensures FilterBackendTable(t) == Ok(Some(Project(t, FishItems("Fish"))))
    ensures Project(t, FishItems("Fish")).columns
         == ["Fish", "Location", "Shadow size", "Price", "Active start hours", "Active end hour"]
  {
    KeepPresentAll(FishItems("Fish"), t.columns);
  }

  /** With every display column present, a bug table shows exactly the
      identity, location, price and hour columns, in that order. */
  lemma BugTableColumns(t: Table)
    requires t.columns != [] && t.columns[0] == "Bug"
    requires forall c | c in BugItems("Bug") :: c in t.columns
    ensures FilterBackendTable(t) == Ok(Some(Project(t, BugItems("Bug"))))
    ensures Project(t, BugItems("Bug")).columns
         == ["Bug", "Location", "Price", "Active start hours", "Active end hour"]
  {
    KeepPresentAll(BugItems("Bug"), t.columns);
  }

  /** Row `i` is the fish named `s`. */
  predicate NameIs(t: Table, i: int, s: string)
    requires 0 <= i < |t.rows|
  {
    At(t.rows[i], "Fish") == Text(s)
  }

  /** Row `i` is a fish whose name is listed in `xs`. */
  predicate NameIn(t: Table, i: int, xs: seq<string>)
    requires 0 <= i < |t.rows|
  {
    At(t.rows[i], "Fish").Text? && At(t.rows[i], "Fish").s in xs
  }

  /** `get_fish_logic`: no selection selects no row, a name selects the rows
      of that fish, a list selects the rows of every listed fish, and any
      other value selects no row. */
  function FishLogic(t: Table, sel: Value): (r: Result<Mask>)
    ensures r.Ok? ==> |r.value| == |t.rows|
    ensures !Truthy(sel) || sel.Other? ==> r == Ok(AllFalse(|t.rows|))
    ensures Truthy(sel) && !sel.Other? ==> (r.Ok? <==> "Fish" in t.columns)
    ensures r.Err? ==> r.error == KeyError("Fish")
    ensures r.Ok? && Truthy(sel) && sel.Str? ==>
      forall i | 0 <= i < |t.rows| :: r.value[i] == NameIs(t, i, sel.s)
    ensures r.Ok? && Truthy(sel) && sel.StrList? ==>
      forall i | 0 <= i < |t.rows| :: r.value[i] == NameIn(t, i, sel.items)
  {
    if !Truthy(sel) then Ok(AllFalse(|t.rows|))
    else if sel.Str? then
      match Series(t, "Fish")
      case Err(e) => Err(e)
      case Ok(col) => Ok(EqualsText(col, sel.s))
    else if sel.StrList? then
      match Series(t, "Fish")
      case Err(e) => Err(e)
      case Ok(col) => Ok(IsIn(col, sel.items))
    else Ok(AllFalse(|t.rows|))
  }

  /** The fish mask depends only on which names are listed, not on their
      order or repetition. */
  lemma FishLogicSetInvariant(t: Table, xs: seq<string>, ys: seq<string>)
    requires forall x :: x in xs <==> x in ys
    ensures FishLogic(t, StrList(xs)) == FishLogic(t, StrList(ys))
  {
    if xs != [] {
      assert xs[0] in ys;
    }
    if ys != [] {
      assert ys[0] in xs;
    }
    var a, b := FishLogic(t, StrList(xs)), FishLogic(t, StrList(ys));
    if a.Ok? && xs != [] {
      assert a.value == b.value;
    }
  }

  /** `get_month_logic`: no selection selects no row, a month selects the
      rows whose flag for it is set, a non-empty list selects the rows whose
      flags are set for every listed month, any other value selects no row;
      a month that is not a boolean column is an error. */
  function MonthLogic(t: Table, sel: Value): (r: Result<Mask>)
    ensures r.Ok? ==> |r.value| == |t.rows|
    ensures !Truthy(sel) || sel.Other? ==> r == Ok(AllFalse(|t.rows|))
    ensures Truthy(sel) && sel.Str? ==> r == FlagsOf(t, sel.s)
    ensures Truthy(sel) && sel.Str? ==> (r.Ok? <==> IsFlagColumn(t, sel.s))
    ensures Truthy(sel) && sel.Str? && r.Ok? ==>
      forall i | 0 <= i < |t.rows| :: r.value[i] == FlagAt(t, sel.s, i)
    ensures Truthy(sel) && sel.StrList? ==> (r.Ok? <==> forall m | m in sel.items :: IsFlagColumn(t, m))
    ensures Truthy(sel) && sel.StrList? && r.Ok? ==>
      forall i | 0 <= i < |t.rows| :: r.value[i] == forall m | m in sel.items :: FlagAt(t, m, i)
    ensures r.Err? && sel.StrList? ==> r.error == FlagsOf(t, sel.items[FirstBadColumn(t, sel.items)]).error
  {
    var n := |t.rows|;
    if !Truthy(sel) then Ok(AllFalse(n))
    else if sel.Str? then FlagsOf(t, sel.s)
    else if sel.StrList? then
      AndFlagsMeaning(t, AllTrue(n), sel.items);
      AndFlags(t, AllTrue(n), sel.items)
    else Ok(AllFalse(n))
  }

  /** The month mask is the same for any listing of the same months (when
      every month can be read, which also does not depend on the listing). */
  lemma MonthLogicSetInvariant(t: Table, ms: seq<string>, ns: seq<string>)
    requires forall m :: m in ms <==> m in ns
    ensures MonthLogic(t, StrList(ms)).Ok? <==> MonthLogic(t, StrList(ns)).Ok?
    ensures MonthLogic(t, StrList(ms)).Ok? ==> MonthLogic(t, StrList(ms)) == MonthLogic(t, StrList(ns))
  {
    if ns != [] {
      assert ns[0] in ms;
    }
    if ms != [] {
      assert ms[0] in ns;
      AndFlagsSetInvariant(t, AllTrue(|t.rows|), ms, ns);
    }
  }

  /** A one-month list selects what the month alone selects. */
  lemma SingleMonthList(t: Table, m: string)
    requires m != ""
    ensures MonthLogic(t, StrList([m])) == MonthLogic(t, Str(m))
  {
    var a, b := MonthLogic(t, StrList([m])), MonthLogic(t, Str(m));
    assert forall x :: x in [m] <==> x == m;
    if a.Ok? {
      assert a.value == b.value;
    }
  }

  /** The list branch of `get_month_logic` as the loop the code runs: start
      from an all-true vector and `&` in each month's column. */
  method GetMonthLogic(t: Table, sel: Value) returns (r: Result<Mask>)
    ensures r == MonthLogic(t, sel)
  {
    var n := |t.rows|;
    if !Truthy(sel) {
      return Ok(AllFalse(n));
    }
    if sel.Str? {
      r := FlagsOf(t, sel.s);
    } else if sel.StrList? {
      var ms := sel.items;
      var selected := AllTrue(n);
      var k := 0;
      while k < |ms|
        invariant 0 <= k <= |ms|
        invariant |selected| == n
        invariant AndFlags(t, selected, ms[k..]) == AndFlags(t, AllTrue(n), ms)
      {
        var column := FlagsOf(t, ms[k]);
        assert ms[k..][0] == ms[k] && ms[k..][1..] == ms[k + 1..];
        if column.Err? {
          return Err(column.error);
        }
        selected := And(selected, column.value);
        k := k + 1;
      }
      r := Ok(selected);
    } else {
      r := Ok(AllFalse(n));
    }
  }
}
