# ACNH fish browser: row selection and column projection

This project models the part of the Animal Crossing fish browser that decides
what the user sees. The backend table has one row per fish (or bug). It has an
identity column ("Fish" or "Bug"), display columns and twelve boolean month
columns. The model covers:

- `filter_backend_table`: projects the table onto its display columns and
  drops the month flags.
- `get_month_logic` and `get_fish_logic`: turn a dropdown value (`None`, a
  string, a list of strings) into a boolean row mask.
- `update_table`, in both app versions, and `filter_given_months`: apply
  those masks to the projection.
- `erase_fish_and_month`: enables, disables and clears the dropdowns.
- The list-shaping helpers: column descriptors, dropdown options, and the
  HTML table of at most `max_rows` rows.

Modules follow the source files:

| module | file |
|---|---|
| `Frame` | the pandas and Python behaviour the code relies on (`df[c]`, masks with `&`, `==`, `isin`, `DataFrame.filter(items=...)`, `.loc[mask]`, truthiness, the exceptions raised) |
| `AcDfTools` | `webapp/ac_df_tools.py` |
| `PersonalDashTools` | `webapp/personal_dash_tools.py` (and the copies of the same code for its helpers at `webapp/dashtable_app.py:26-75` and `webapp/htmltable_app.py:24-37`) |
| `DashtableApp` | `webapp/dashtable_app.py` |
| `HtmltableApp` | `webapp/htmltable_app.py` (its `filter_backend_table`, lines 40-65, is the same code as the one in `webapp/dashtable_app.py` and is modelled once, as `DashtableApp.FilterBackendTable`) |

A table is a list of column names plus one record per row, keyed by column
name. A dropdown value is `PyNone`, `Str`, `StrList` or `Other`, and Python
truthiness is modelled exactly (`None`, `""` and `[]` are false). Every
exception the code can raise is an `Err` value: `KeyError`, `IndexError`,
`UnboundLocalError`, `TypeError` for a month column that does not hold
booleans, and Dash's `PreventUpdate`. Each source loop that builds a mask is
a method with a `while` loop. Its invariant ties the running mask to a
recursive specification fold (`Frame.AndFlags`, `DashtableApp.AndNames`),
and lemmas give that fold its meaning.

## Model

| member | source | states |
|---|---|---|
| Frame.Series | webapp/ac_df_tools.py:62 | `df[c]` succeeds exactly when `c` is a column and gives that column's cell in every row; otherwise `KeyError(c)` |
| Frame.Truthy | webapp/ac_df_tools.py:54 | a dropdown value is falsy exactly when it is `None`, `""`, `[]` or a falsy other value |
| Frame.FlagsOf | webapp/ac_df_tools.py:91 | a month column used as a mask succeeds exactly when it is a boolean column, and each entry is that row's flag; an unknown month is `KeyError`, a non-boolean one `TypeError` |
| Frame.AllFalse | webapp/ac_df_tools.py:55 | `[False] * n` has length `n` and selects no row |
| Frame.AllTrue | webapp/ac_df_tools.py:98 | `[True] * n` has length `n` and selects every row |
| Frame.And | webapp/ac_df_tools.py:102-104 | elementwise `&` of two aligned masks |
| Frame.EqualsText | webapp/ac_df_tools.py:61-63 | `series == s` is true exactly at the rows holding the text `s` |
| Frame.IsIn | webapp/ac_df_tools.py:68-70 | `series.isin(xs)` is true exactly at the rows whose text is listed in `xs` |
| Frame.AndFlags | webapp/ac_df_tools.py:101-104 | the month loop over the listed months, stopping at the first month that cannot be read; the mask keeps the table's length. Its meaning is `Frame.AndFlagsMeaning` |
| Frame.AndFlagsMeaning | webapp/ac_df_tools.py:98-106 | the month loop succeeds exactly when every listed month is a boolean column. Its mask is then the seed intersected with every listed month's flags; otherwise its error is that of the first unreadable month |
| Frame.AndFlagsSetInvariant | webapp/ac_df_tools.py:94-106 | the intersection of months does not depend on their order or repetition |
| Frame.KeepPresent | webapp/ac_df_tools.py:17-25 | `DataFrame.filter(items=...)` keeps exactly the listed items that are columns, never more than are listed |
| Frame.KeepPresentInOrder | webapp/ac_df_tools.py:17-25 | the kept columns appear in the order the items list them |
| Frame.KeepPresentAll | webapp/ac_df_tools.py:29-38 | when every listed item is a column, the kept columns are the item list itself |
| Frame.KeepPresentDistinct | webapp/ac_df_tools.py:17-25 | distinct items give distinct kept columns |
| Frame.Restrict | webapp/ac_df_tools.py:17-38 | a record cut down by `filter(items=...)` keeps exactly its entries for the kept columns, with their values |
| Frame.Project | webapp/ac_df_tools.py:17-38 | a projection keeps the listed columns that exist and every row, each record cut down to the kept columns |
| Frame.ProjectValid | webapp/ac_df_tools.py:17-38 | projecting a well-formed table gives a well-formed table whose cells are the original cells |
| Frame.Indices | webapp/dashtable_app.py:502 | the positions a mask selects, increasing, exactly the true positions |
| Frame.IndicesConstant | webapp/ac_df_tools.py:98 | an all-true mask selects every position, in order, and an all-false one none |
| Frame.Filter | webapp/dashtable_app.py:502 | `rows.loc[mask]` is exactly the rows at the mask's true positions, in table order |
| Frame.FilterConstant | webapp/ac_df_tools.py:55 | an all-false mask selects no row and an all-true mask selects every row |
| Frame.Select | webapp/htmltable_app.py:90 | `df.loc[mask]` keeps every column and exactly the rows the mask selects, in table order |
| Frame.DisplayProjectionHolds | webapp/ac_df_tools.py:15-38 | the bug or fish projection keeps the identity column first, keeps only listed columns in listed order, keeps every row restricted to them, and drops every month flag |
| AcDfTools.FilterBackendTable | webapp/ac_df_tools.py:5-38 | a table without columns raises `IndexError`. A bug or fish table gives its display projection, and any other table gives `None` |
| AcDfTools.FishTableColumns | webapp/ac_df_tools.py:27-38 | a complete fish table shows exactly Fish, Location, Shadow size, Price, Active start hours, Active end hour |
| AcDfTools.BugTableColumns | webapp/ac_df_tools.py:15-25 | a complete bug table shows exactly Bug, Location, Price, Active start hours, Active end hour |
| AcDfTools.FishLogic | webapp/ac_df_tools.py:41-76 | no selection or an unexpected value selects no row. A name selects the rows of that fish, a list the rows of every listed fish; without a "Fish" column this is a `KeyError` |
| AcDfTools.FishLogicSetInvariant | webapp/ac_df_tools.py:67-71 | the fish mask depends only on which names are listed |
| AcDfTools.MonthLogic | webapp/ac_df_tools.py:79-111 | no selection or an unexpected value selects no row. A month selects the rows whose flag is set, and a list the rows whose flags are all set; the first unreadable month decides the error |
| AcDfTools.MonthLogicSetInvariant | webapp/ac_df_tools.py:95-106 | the month mask depends only on which months are listed |
| AcDfTools.SingleMonthList | webapp/ac_df_tools.py:89-106 | a one-month list selects what that month alone selects |
| AcDfTools.GetMonthLogic | webapp/ac_df_tools.py:79-111 | the loop as written computes `AcDfTools.MonthLogic` |
| PersonalDashTools.DfColsToDashtableCols | webapp/personal_dash_tools.py:6-9 | one descriptor per column, in column order, whose name and id are the column |
| PersonalDashTools.IteratableToDropdownOptions | webapp/personal_dash_tools.py:12-16 | one option per element, in order, whose label and value are the element |
| PersonalDashTools.DictToDropdownOptions | webapp/personal_dash_tools.py:19-29 | one option per dictionary entry, in insertion order, labelled by the key |
| PersonalDashTools.Keys | webapp/personal_dash_tools.py:29 | `for key in dic` visits one key per entry, in insertion order |
| PersonalDashTools.Lookup | webapp/personal_dash_tools.py:29 | `dic[key]` is the value of the first entry with that key |
| PersonalDashTools.DictOptionValue | webapp/personal_dash_tools.py:29 | the option for an entry carries the value stored under its key |
| PersonalDashTools.LookupEntry | webapp/personal_dash_tools.py:29 | in a dictionary, looking up an entry's key gives that entry's value |
| PersonalDashTools.ShownCount | webapp/personal_dash_tools.py:51 | `min(len(df), max_rows)` rows are shown: never more than either bound, all of them when they fit, and none for a negative bound |
| PersonalDashTools.RowCells | webapp/personal_dash_tools.py:50 | `df.iloc[i][col]` for each column gives one cell per column, in column order, each the record's value |
| PersonalDashTools.GenerateTable | webapp/personal_dash_tools.py:32-55 | the header is the columns in order. The body is the first `min(len(df), max_rows)` records, one cell per column, each the record's value |
| PersonalDashTools.RenderedRowsRoundTrip | webapp/personal_dash_tools.py:45-55 | reading a rendered body row back under the header gives the record it came from |
| PersonalDashTools.DefaultShowsSmallTables | webapp/personal_dash_tools.py:32 | with the default bound of 100, a table of at most 100 records is shown whole |
| DashtableApp.FilterBackendTable | webapp/dashtable_app.py:78-113 | fails exactly for a table without columns (`IndexError`) or one that is neither a bug nor a fish table (`df` unbound). Otherwise it is the table tools' projection |
| DashtableApp.AndNames | webapp/dashtable_app.py:135-138 | the fish loop over the listed names; the mask keeps the table's length. Its meaning is `DashtableApp.AndNamesMeaning` |
| DashtableApp.AndNamesMeaning | webapp/dashtable_app.py:133-143 | the fish loop fails only without a "Fish" column (`KeyError`). A row stays selected only if its name equals every listed name |
| DashtableApp.FishLogic | webapp/dashtable_app.py:116-148 | no selection or an unexpected value selects no row. A single name always raises `UnboundLocalError` for `pd_vector`; a list keeps the rows whose name equals every listed name |
| DashtableApp.SingleNameAgreesWithIsin | webapp/dashtable_app.py:133-143 | for a one-name list the AND of equalities agrees with the table tools' set membership |
| DashtableApp.TwoNamesSelectNothing | webapp/dashtable_app.py:133-143 | listing two different fish selects no row |
| DashtableApp.GetFishLogic | webapp/dashtable_app.py:116-148 | the loop as written computes `DashtableApp.FishLogic` |
| DashtableApp.GetMonthLogic | webapp/dashtable_app.py:151-209 | this copy of the month loop computes `AcDfTools.MonthLogic` |
| DashtableApp.ReturnOriginalFishTable | webapp/dashtable_app.py:428-433 | the records are every projected row and the descriptors name every projected column, in order |
| DashtableApp.ListOr | webapp/dashtable_app.py:494 | Python's `a or b` on lists is `a` unless `a` is empty, and `b` when it is |
| DashtableApp.Prevented | webapp/dashtable_app.py:465-475 | the update is prevented exactly when an arriving or leaving month is a string, or both the month and the fish value are `None`, `""`, `[]` or another falsy value |
| DashtableApp.UpdateTable | webapp/dashtable_app.py:445-504 | an arriving or leaving month, or two empty filters, prevent the update. Otherwise it goes through exactly when the month mask, the fish mask and the projection all succeed, and the first of them to fail, in that order, gives the error. When it goes through, the rows shown are the projection filtered by the month mask alone, under all the projected columns |
| DashtableApp.FishFilterIgnored | webapp/dashtable_app.py:494 | with the month dropdown cleared, no row is shown, whatever fish are selected |
| DashtableApp.FishSelectionIrrelevant | webapp/dashtable_app.py:483-504 | any two fish selections that both go through give the same table |
| DashtableApp.UpdateTableAsIntended | webapp/dashtable_app.py:456-463 | the same preventions, success condition and error order as `update_table`. A row is shown when the month filter or the fish filter selects it |
| DashtableApp.IntendedShowsSelectedFish | webapp/dashtable_app.py:456-463 | with the intended combination, every row of a selected fish is shown |
| DashtableApp.EraseFishAndMonth | webapp/dashtable_app.py:521-540 | an arriving month disables and clears month and fish and disables leaving, and a leaving month does the same but disables arriving. Clearing both re-enables everything; anything else prevents the update |
| DashtableApp.ErasedFiltersPreventUpdate | webapp/dashtable_app.py:507-540 | the values `erase_fish_and_month` writes back never make `update_table` refresh the table |
| HtmltableApp.GivenMonths | webapp/htmltable_app.py:68-112 | the projection's error escapes. Any string, `""` included, is looked up as a month column and renders the first 100 of the projected rows it flags, or `None` when it cannot be read. A non-empty list renders the first 100 of the projected rows the month mask selects, or `None`, and an empty list renders the first 100 projected rows. Any other value gives `None` |
| HtmltableApp.MonthsTable | webapp/htmltable_app.py:79-112 | inside the `try`, a string gives a table exactly when it names a boolean column, and a list exactly when every listed month does; anything else gives `None` |
| HtmltableApp.Render | webapp/htmltable_app.py:90 | `generate_table(presentable_df.loc[selected])` has the projection's columns as header and shows the first `min(k, 100)` of the `k` selected rows, in table order, one cell per column |
| HtmltableApp.EmptyMonthName | webapp/htmltable_app.py:82-90 | an empty month string is still looked up as a column and gives `None` |
| HtmltableApp.EmptyListDisagrees | webapp/htmltable_app.py:93-104 | an empty month list shows rows here, the first `min(n, 100)` of them, while `get_month_logic` selects none for it |
| HtmltableApp.FilterGivenMonths | webapp/htmltable_app.py:68-112 | the loop as written computes `HtmltableApp.GivenMonths` |
| HtmltableApp.UpdateTable | webapp/htmltable_app.py:157-160 | the callback shows what `filter_given_months` renders |

## Left out

- Dash itself is left out: the layout, component classes, callback registration and the server. Callbacks are modelled as functions of their input values.
- Reading the pickled table (`get_backend_fish_df`, the module-level `pd.read_pickle`) and the derived `available_fish` and `available_months` lists are left out. The table is a parameter instead of a global.
- `print` calls are not modelled, except where printing an unassigned name raises, in the dashtable `get_fish_logic`.
- `generate_table` returns `HtmlTable`, an abstract header and body. It does not build `html.Table`, `html.Tr` or `html.Td` objects.
- pandas index alignment is not modelled: every table has the default 0..n-1 index, so `pd.Series([True] * n) & df[m]` is positional.
- Table cells are text, integers, booleans or missing. Floating-point cells are not distinguished.
- Dropdown lists hold strings only. Any other non-string, non-list value is `Other` with its truthiness.
- Frame.FlagsOf: a month column that is not wholly boolean gives `TypeError`. This narrowing assumes the month flags are always present and boolean. In the source nothing fails at that point. The single-month branch returns the raw values. `&` treats a missing flag as False and combines an integer column bitwise. `.loc` fails only on values it cannot use as a mask. So a missing flag, or an integer column used as a month, still selects rows there. The model reports `TypeError`, which `AcDfTools.MonthLogic` passes on and the HTML-table version turns into `None`.
- The arriving and leaving branches of `update_table` are placeholders in the source that only raise `PreventUpdate`. The model stops at that point too.
- The commented-out `filter_given_months` in `webapp/dashtable_app.py` is not code and is not modelled.
- PersonalDashTools.DictToDropdownOptions: its ensures gives the labels for every entry. The values are stated per entry by `PersonalDashTools.DictOptionValue`, for a dictionary with distinct keys (Python dictionaries always have them).

## Findings

| source | as written | input that shows it | evidently intended | confidence | as-written member | corrected member |
|---|---|---|---|---|---|---|
| webapp/dashtable_app.py:494 | `selected = log1 or log2` takes the month mask whenever it is a non-empty list, which is always the case for a non-empty table | month dropdown cleared (`[]`), fish dropdown `["Bass"]`, a table with a Bass row: no row is shown | the comment at lines 461-462 asks for the elementwise OR of the two masks | not executed | DashtableApp.FishFilterIgnored | DashtableApp.UpdateTableAsIntended |
| webapp/dashtable_app.py:133-143 | the fish list is combined with `&` of `df["Fish"] == name` over the names | fish dropdown `["Bass", "Carp"]`: no row is shown | show the rows of every listed fish, as `isin` does in `webapp/ac_df_tools.py:67-71` | not executed | DashtableApp.TwoNamesSelectNothing | AcDfTools.FishLogic |
| webapp/dashtable_app.py:126-131 | `print((pd_vector))` runs before `pd_vector` is assigned | fish dropdown `"Bass"` (a single string): `UnboundLocalError` | the rows of that fish, as in `webapp/ac_df_tools.py:60-64` | not executed | DashtableApp.FishLogic | AcDfTools.FishLogic |
