/**
 * The small slice of pandas and Python that the fish browser relies on:
 * a table of named columns whose rows are records keyed by column name,
 * column lookup (`df[c]`), boolean masks and their `&`, `==` and `isin`,
 * `DataFrame.filter(items=...)`, `.loc[mask]`, the shapes a dropdown value
 * can take and Python's truthiness of them, and the exceptions the code
 * can raise.
 */
module Frame {

  /** A cell of the fish or bug table. `Missing` stands for a value a row lacks. */
  datatype Cell = Text(s: string) | Number(n: int) | Flag(b: bool) | Missing

  /** One record, keyed by column name: an entry of `to_dict("records")`. */
  type Row = map<string, Cell>

  /** A data frame with the default 0..n-1 row index. */
  datatype Table = Table(columns: seq<string>, rows: seq<Row>) {
    /** Column names are distinct and every row is keyed by exactly the columns. */
    predicate Valid() {
      && Distinct(columns)
      && forall k | 0 <= k < |rows| :: rows[k].Keys == set c | c in columns
    }
  }

  predicate Distinct<T(==)>(s: seq<T>) {
    forall i, j | 0 <= i < j < |s| :: s[i] != s[j]
  }

  /** The cell of `r` in column `c`. */
  function At(r: Row, c: string): Cell {
    if c in r then r[c] else Missing
  }

  /** The twelve month-flag columns, in calendar order. */
  const Months: seq<string> := [
    "January", "February", "March", "April", "May", "June",
    "July", "August", "September", "October", "November", "December"
  ]

  /** A dropdown value as Python hands it to a callback. */
  datatype Value = PyNone | Str(s: string) | StrList(items: seq<string>) | Other(truthy: bool)

  /** Python truthiness: `None`, `""` and `[]` are false. */
  predicate Truthy(v: Value): (b: bool)
    ensures !b <==> v == PyNone || v == Str("") || v == StrList([]) || v == Other(false)
  {
    match v
    case PyNone => false
    case Str(s) => s != ""
    case StrList(xs) => xs != []
    case Other(b) => b
  }

  /** The exceptions the modelled code raises, and Dash's `PreventUpdate`. */
  datatype Error =
    | KeyError(key: string)
    | IndexError
    | TypeError(column: string)
    | UnboundLocalError(name: string)
    | PreventUpdate

  datatype Result<T> = Ok(value: T) | Err(error: Error)

  datatype Option<T> = None | Some(value: T)

  // ---------------------------------------------------------------------
  // Columns and masks

  type Mask = seq<bool>

  /** `df[c]`: the column as a sequence of cells, or a `KeyError`. */
  function Series(t: Table, c: string): (r: Result<seq<Cell>>)
    ensures r.Ok? <==> c in t.columns
    ensures r.Err? ==> r.error == KeyError(c)
    ensures r.Ok? ==> |r.value| == |t.rows| && forall i | 0 <= i < |t.rows| :: r.value[i] == At(t.rows[i], c)
  {
    if c in t.columns then Ok(seq(|t.rows|, i requires 0 <= i < |t.rows| => At(t.rows[i], c)))
    else Err(KeyError(c))
  }

  /** Column `c` exists and holds only booleans. */
  predicate IsFlagColumn(t: Table, c: string) {
    c in t.columns && forall i | 0 <= i < |t.rows| :: At(t.rows[i], c).Flag?
  }

  /** Row `i` has flag `c` set. */
  predicate FlagAt(t: Table, c: string, i: int)
    requires 0 <= i < |t.rows|
  {
    At(t.rows[i], c) == Flag(true)
  }

  function FlagValue(c: Cell): bool {
    match c
    case Flag(b) => b
    case _ => false
  }

  /** `df[c]` used as a boolean vector: a `KeyError` for an unknown column,
      a `TypeError` for a column that does not hold booleans. */
  function FlagsOf(t: Table, c: string): (r: Result<Mask>)
    ensures r.Ok? <==> IsFlagColumn(t, c)
    ensures r.Err? ==> r.error == if c in t.columns then TypeError(c) else KeyError(c)
    ensures r.Ok? ==> |r.value| == |t.rows| && forall i | 0 <= i < |t.rows| :: r.value[i] == FlagAt(t, c, i)
  {
    if c !in t.columns then Err(KeyError(c))
    else if forall i | 0 <= i < |t.rows| :: At(t.rows[i], c).Flag? then
      Ok(seq(|t.rows|, i requires 0 <= i < |t.rows| => FlagValue(At(t.rows[i], c))))
    else Err(TypeError(c))
  }

  /** `[False] * n` */
  function AllFalse(n: nat): (m: Mask)
    ensures |m| == n && forall i | 0 <= i < n :: !m[i]
  {
    seq(n, _ => false)
  }

  /** `[True] * n` */
  function AllTrue(n: nat): (m: Mask)
    ensures |m| == n && forall i | 0 <= i < n :: m[i]
  {
    seq(n, _ => true)
  }

  /** Elementwise `&` of two aligned boolean vectors. */
  function And(a: Mask, b: Mask): (m: Mask)
    requires |a| == |b|
    ensures |m| == |a| && forall i | 0 <= i < |a| :: m[i] == (a[i] && b[i])
  {
    seq(|a|, i requires 0 <= i < |a| => a[i] && b[i])
  }

  /** Elementwise `|` of two aligned boolean vectors. */
  function Or(a: Mask, b: Mask): (m: Mask)
    requires |a| == |b|
    ensures |m| == |a| && forall i | 0 <= i < |a| :: m[i] == (a[i] || b[i])
  {
    seq(|a|, i requires 0 <= i < |a| => a[i] || b[i])
  }

  /** `series == s` */
  function EqualsText(col: seq<Cell>, s: string): (m: Mask)
    ensures |m| == |col| && forall i | 0 <= i < |col| :: m[i] == (col[i] == Text(s))
  {
    seq(|col|, i requires 0 <= i < |col| => col[i] == Text(s))
  }

  /** `series.isin(xs)` */
  function IsIn(col: seq<Cell>, xs: seq<string>): (m: Mask)
    ensures |m| == |col| && forall i | 0 <= i < |col| :: m[i] == (col[i].Text? && col[i].s in xs)
  {
    seq(|col|, i requires 0 <= i < |col| => col[i].Text? && col[i].s in xs)
  }

  /** The month loop `for m in ms: selected = selected & df[m]`, stopping at
      the first column that cannot be read. */
  function AndFlags(t: Table, seed: Mask, ms: seq<string>): (r: Result<Mask>)
    requires |seed| == |t.rows|
    ensures r.Ok? ==> |r.value| == |seed|
    decreases |ms|
  {
    if ms == [] then Ok(seed)
    else match FlagsOf(t, ms[0])
      case Err(e) => Err(e)
      case Ok(f) => AndFlags(t, And(seed, f), ms[1..])
  }

  /** Index of the first month of `ms` that is not a flag column. */
  function FirstBadColumn(t: Table, ms: seq<string>): (k: nat)
    requires exists m :: m in ms && !IsFlagColumn(t, m)
    ensures k < |ms| && !IsFlagColumn(t, ms[k])
    ensures forall j | 0 <= j < k :: IsFlagColumn(t, ms[j])
  {
    if !IsFlagColumn(t, ms[0]) then 0
    else
      assert exists m :: m in ms[1..] && !IsFlagColumn(t, m) by {
        var m :| m in ms && !IsFlagColumn(t, m);
        assert m != ms[0];
      }
      1 + FirstBadColumn(t, ms[1..])
  }

  /** The month loop succeeds exactly when every month names a flag column;
      its result is then the seed intersected with every month's flags, and
      otherwise the error of the first month that cannot be read. */
  lemma {:induction false} AndFlagsMeaning(t: Table, seed: Mask, ms: seq<string>)
    requires |seed| == |t.rows|
    ensures AndFlags(t, seed, ms).Ok? <==> forall m | m in ms :: IsFlagColumn(t, m)
    ensures AndFlags(t, seed, ms).Ok? ==> forall i | 0 <= i < |seed| ::
      AndFlags(t, seed, ms).value[i] == (seed[i] && forall m | m in ms :: FlagAt(t, m, i))
    ensures AndFlags(t, seed, ms).Err? ==>
      (exists m :: m in ms && !IsFlagColumn(t, m)) &&
      AndFlags(t, seed, ms).error == FlagsOf(t, ms[FirstBadColumn(t, ms)]).error
    decreases |ms|
  {
    if ms != [] {
      var f := FlagsOf(t, ms[0]);
      assert forall m :: m in ms <==> m == ms[0] || m in ms[1..];
      if f.Ok? {
        AndFlagsMeaning(t, And(seed, f.value), ms[1..]);
        if AndFlags(t, seed, ms).Err? {
          var k := FirstBadColumn(t, ms[1..]);
          assert FirstBadColumn(t, ms) == 1 + k;
          assert ms[1..][k] == ms[1 + k];
        }
      }
    }
  }

  /** Intersection does not depend on the order or repetition of the months. */
  lemma AndFlagsSetInvariant(t: Table, seed: Mask, ms: seq<string>, ns: seq<string>)
    requires |seed| == |t.rows|
    requires forall m :: m in ms <==> m in ns
    ensures AndFlags(t, seed, ms).Ok? <==> AndFlags(t, seed, ns).Ok?
    ensures AndFlags(t, seed, ms).Ok? ==> AndFlags(t, seed, ms) == AndFlags(t, seed, ns)
  {
    AndFlagsMeaning(t, seed, ms);
    AndFlagsMeaning(t, seed, ns);
    var a, b := AndFlags(t, seed, ms), AndFlags(t, seed, ns);
    if a.Ok? {
      forall i | 0 <= i < |seed| ensures a.value[i] == b.value[i] {
        assert (forall m | m in ms :: FlagAt(t, m, i)) <==> (forall m | m in ns :: FlagAt(t, m, i));
      }
      assert |a.value| == |b.value| == |seed|;
      assert a.value == b.value;
    }
  }

  // ---------------------------------------------------------------------
  // Projection and row selection

  /** The items of `items` that are columns of the table, in the order of `items`. */
  function KeepPresent(items: seq<string>, cols: seq<string>): (r: seq<string>)
    ensures forall c :: c in r <==> c in items && c in cols
    ensures |r| <= |items|
  {
    if items == [] then []
    else (if items[0] in cols then [items[0]] else []) + KeepPresent(items[1..], cols)
  }

  /** `a` is `b` with some elements deleted. */
  ghost predicate Subsequence<T>(a: seq<T>, b: seq<T>)
    decreases |b|
  {
    if a == [] then true
    else if b == [] then false
    else (a[0] == b[0] && Subsequence(a[1..], b[1..])) || Subsequence(a, b[1..])
  }

  /** The kept columns are in the order the items list them. */
  lemma {:induction false} KeepPresentInOrder(items: seq<string>, cols: seq<string>)
    ensures Subsequence(KeepPresent(items, cols), items)
    decreases |items|
  {
    if items != [] {
      KeepPresentInOrder(items[1..], cols);
      var rest := KeepPresent(items[1..], cols);
      if items[0] in cols {
        assert KeepPresent(items, cols) == [items[0]] + rest;
        assert ([items[0]] + rest)[1..] == rest;
      } else {
        assert KeepPresent(items, cols) == rest;
        SkipHead(rest, items);
      }
    }
  }

  lemma SkipHead<T>(a: seq<T>, b: seq<T>)
    requires b != [] && Subsequence(a, b[1..])
    ensures Subsequence(a, b)
  {
  }

  /** When every item is a column, nothing is dropped. */
  lemma {:induction false} KeepPresentAll(items: seq<string>, cols: seq<string>)
    requires forall c | c in items :: c in cols
    ensures KeepPresent(items, cols) == items
    decreases |items|
  {
    if items != [] {
      KeepPresentAll(items[1..], cols);
    }
  }

  /** The record `r` restricted to the columns `keep`. */
  function Restrict(r: Row, keep: seq<string>): (r': Row)
    ensures r'.Keys == set c | c in r && c in keep
    ensures forall c | c in r' :: r'[c] == r[c]
  {
    map c | c in r && c in keep :: r[c]
  }

  /** `t.filter(items=items)`: keep the listed columns that exist, in the
      listed order, and every row. */
  function Project(t: Table, items: seq<string>): (p: Table)
    ensures forall c :: c in p.columns <==> c in items && c in t.columns
    ensures |p.rows| == |t.rows|
    ensures forall k | 0 <= k < |t.rows| :: p.rows[k] == Restrict(t.rows[k], p.columns)
  {
    var keep := KeepPresent(items, t.columns);
    Table(keep, seq(|t.rows|, k requires 0 <= k < |t.rows| => Restrict(t.rows[k], keep)))
  }

  /** The kept items of a list with distinct items are distinct. */
  lemma {:induction false} KeepPresentDistinct(items: seq<string>, cols: seq<string>)
    requires Distinct(items)
    ensures Distinct(KeepPresent(items, cols))
    decreases |items|
  {
    if items != [] {
      assert Distinct(items[1..]) by {
        forall i, j | 0 <= i < j < |items[1..]| ensures items[1..][i] != items[1..][j] {
          assert items[1..][i] == items[i + 1] && items[1..][j] == items[j + 1];
        }
      }
      KeepPresentDistinct(items[1..], cols);
      var rest := KeepPresent(items[1..], cols);
      assert items[0] !in items[1..] by {
        forall j | 0 <= j < |items[1..]| ensures items[1..][j] != items[0] {
          assert items[1..][j] == items[j + 1];
        }
      }
    }
  }

  /** Projecting a well-formed table with distinct items gives a well-formed
      table whose records are the original records cut down to its columns. */
  lemma ProjectValid(t: Table, items: seq<string>)
    requires t.Valid() && Distinct(items)
    ensures Project(t, items).Valid()
    ensures forall k | 0 <= k < |t.rows| :: forall c | c in Project(t, items).columns ::
      Project(t, items).rows[k][c] == t.rows[k][c]
  {
    KeepPresentDistinct(items, t.columns);
    var p := Project(t, items);
    forall k | 0 <= k < |p.rows| ensures p.rows[k].Keys == set c | c in p.columns {
      assert t.rows[k].Keys == set c | c in t.columns;
    }
  }

  /** The positions where the mask is true, in increasing order. */
  function Indices(mask: Mask): (r: seq<nat>)
    ensures forall k | 0 <= k < |r| :: r[k] < |mask| && mask[r[k]]
    ensures forall i | 0 <= i < |mask| && mask[i] :: i in r
    ensures forall k, l | 0 <= k < l < |r| :: r[k] < r[l]
    ensures |r| <= |mask|
    decreases |mask|
  {
    if mask == [] then []
    else
      var n := |mask| - 1;
      var prefix := Indices(mask[..n]);
      assert forall i | 0 <= i < n && mask[i] :: i in prefix by {
        forall i | 0 <= i < n && mask[i] ensures i in prefix {
          assert mask[..n][i] == mask[i];
        }
      }
      prefix + (if mask[n] then [n] else [])
  }

  /** `rows.loc[mask]`: exactly the rows at the mask's true positions, in
      table order. */
  function Filter(rows: seq<Row>, mask: Mask): (r: seq<Row>)
    requires |mask| == |rows|
    ensures |r| == |Indices(mask)| <= |rows|
    ensures forall k | 0 <= k < |r| :: r[k] == rows[Indices(mask)[k]]
    decreases |rows|
  {
    if rows == [] then []
    else
      var n := |rows| - 1;
      var fx := Filter(rows[..n], mask[..n]);
      var ix := Indices(mask[..n]);
      var r := fx + (if mask[n] then [rows[n]] else []);
      assert Indices(mask) == ix + (if mask[n] then [n] else []);
      assert forall k | 0 <= k < |r| :: r[k] == rows[Indices(mask)[k]] by {
        forall k | 0 <= k < |r| ensures r[k] == rows[Indices(mask)[k]] {
          if k < |fx| {
            assert r[k] == fx[k] == rows[..n][ix[k]];
            assert Indices(mask)[k] == ix[k];
          } else {
            assert Indices(mask)[k] == n;
          }
        }
      }
      r
  }

  /** An all-true mask selects every position and an all-false one none. */
  lemma {:induction false} IndicesConstant(mask: Mask, b: bool)
    requires forall i | 0 <= i < |mask| :: mask[i] == b
    ensures Indices(mask) == if b then seq(|mask|, i => i) else []
    decreases |mask|
  {
    if mask != [] {
      var n := |mask| - 1;
      IndicesConstant(mask[..n], b);
      assert Indices(mask) == Indices(mask[..n]) + (if mask[n] then [n] else []);
      if b {
        assert seq(n + 1, i => i) == seq(n, i => i) + [n];
      }
    }
  }

  /** An all-false mask selects nothing and an all-true mask selects everything. */
  lemma FilterConstant(rows: seq<Row>, b: bool)
    ensures Filter(rows, seq(|rows|, _ => b)) == if b then rows else []
  {
    IndicesConstant(seq(|rows|, _ => b), b);
  }

  /** `t.loc[mask]`: the same columns, the selected rows. */
  function Select(t: Table, mask: Mask): (s: Table)
    requires |mask| == |t.rows|
    ensures s.columns == t.columns
    ensures |s.rows| == |Indices(mask)|
    ensures forall k | 0 <= k < |s.rows| :: s.rows[k] == t.rows[Indices(mask)[k]]
  {
    Table(t.columns, Filter(t.rows, mask))
  }

  // ---------------------------------------------------------------------
  // The column lists handed to `DataFrame.filter` by `filter_backend_table`

  /** Display columns of a bug table, whose identity column is `first`. */
  function BugItems(first: string): seq<string> {
    [first, "Location", "Price", "Active start hours", "Active end hour"]
  }

  /** Display columns of a fish table: the bug columns plus "Shadow size". */
  function FishItems(first: string): seq<string> {
    [first, "Location", "Shadow size", "Price", "Active start hours", "Active end hour"]
  }

  /** `p` is the display projection of `t` for the item list `items`. */
  ghost predicate DisplayProjection(t: Table, items: seq<string>, p: Table)
    requires items != []
  {
    && (forall c :: c in p.columns <==> c in items && c in t.columns)
    && Subsequence(p.columns, items)
    && |p.rows| == |t.rows|
    && (forall k | 0 <= k < |t.rows| :: p.rows[k] == Restrict(t.rows[k], p.columns))
    && (forall c | c in p.columns :: c !in Months)
    && (t.columns != [] && t.columns[0] == items[0] ==> p.columns != [] && p.columns[0] == t.columns[0])
  }

  /** Neither display list names a month. */
  lemma NoMonthInDisplayItems(first: string)
    requires first == "Bug" || first == "Fish"
    ensures forall c | c in BugItems(first) :: c !in Months
    ensures forall c | c in FishItems(first) :: c !in Months
  {
  }

  /** Projecting on the bug or fish display list keeps the identity column
      first, keeps only listed columns in the listed order, and drops every
      month flag. */
  lemma DisplayProjectionHolds(t: Table, items: seq<string>)
    requires t.columns != []
    requires t.columns[0] == "Bug" || t.columns[0] == "Fish"
    requires items == BugItems(t.columns[0]) || items == FishItems(t.columns[0])
    ensures DisplayProjection(t, items, Project(t, items))
  {
    KeepPresentInOrder(items, t.columns);
    NoMonthInDisplayItems(t.columns[0]);
    var p := Project(t, items);
    assert items[0] in t.columns;
    assert p.columns == [items[0]] + KeepPresent(items[1..], t.columns);
  }
}
