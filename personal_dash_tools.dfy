/**
 * The list-shaping helpers that turn a table, a list or a dictionary into
 * the shapes Dash components accept: column descriptors for a DataTable,
 * dropdown options, and an HTML table of at most `max_rows` rows.
 */
module PersonalDashTools {
  import opened Frame

  /** A DataTable column descriptor `{"name": .., "id": ..}`. */
  datatype ColumnSpec = ColumnSpec(name: string, id: string)

  /** A dropdown option `{"label": text, "value": value}` (`label` is a Dafny keyword). */
  datatype DropdownOption<L, V> = DropdownOption(text: L, value: V)

  /** What `generate_table` renders: one header cell per column, one body row
      of cells per shown record. */
  datatype HtmlTable = HtmlTable(header: seq<string>, body: seq<seq<Cell>>)

  /** The default of `generate_table`'s `max_rows`. */
  const DefaultMaxRows: int := 100

  function ColumnSpecs(cols: seq<string>): (r: seq<ColumnSpec>)
    ensures |r| == |cols|
    ensures forall i | 0 <= i < |cols| :: r[i].name == cols[i] && r[i].id == cols[i]
  {
    if cols == [] then [] else [ColumnSpec(cols[0], cols[0])] + ColumnSpecs(cols[1..])
  }

  /** One descriptor per column, in column order, naming the column twice. */
  function DfColsToDashtableCols(t: Table): (r: seq<ColumnSpec>)
    ensures |r| == |t.columns|
    ensures forall i | 0 <= i < |r| :: r[i].name == t.columns[i] && r[i].id == t.columns[i]
  {
    ColumnSpecs(t.columns)
  }

  /** One option per element, in order, whose label and value are the element. */
  function IteratableToDropdownOptions<T>(xs: seq<T>): (r: seq<DropdownOption<T, T>>)
    ensures |r| == |xs|
    ensures forall i | 0 <= i < |xs| :: r[i].text == xs[i] && r[i].value == xs[i]
  {
    if xs == [] then [] else [DropdownOption(xs[0], xs[0])] + IteratableToDropdownOptions(xs[1..])
  }

  // A Python dictionary is modelled as its entries in insertion order.

  /** The keys of a dictionary, in insertion order (`for key in dic`). */
  function Keys<K, V>(d: seq<(K, V)>): (ks: seq<K>)
    ensures |ks| == |d|
    ensures forall i | 0 <= i < |d| :: ks[i] == d[i].0
  {
    if d == [] then [] else [d[0].0] + Keys(d[1..])
  }

  /** `dic[key]`. */
  function Lookup<K(==), V>(d: seq<(K, V)>, k: K): (v: V)
    requires k in Keys(d)
    ensures exists i | 0 <= i < |d| :: d[i].0 == k && d[i].1 == v && forall j | 0 <= j < i :: d[j].0 != k
  {
    if d[0].0 == k then d[0].1
    else
      assert forall i | 0 <= i < |d| - 1 :: d[1..][i] == d[i + 1];
      Lookup(d[1..], k)
  }

  function OptionsFor<K(==), V>(d: seq<(K, V)>, keys: seq<K>): (r: seq<DropdownOption<K, V>>)
    requires forall k | k in keys :: k in Keys(d)
    ensures |r| == |keys|
    ensures forall i | 0 <= i < |keys| :: r[i].text == keys[i] && r[i].value == Lookup(d, keys[i])
  {
    if keys == [] then [] else [DropdownOption(keys[0], Lookup(d, keys[0]))] + OptionsFor(d, keys[1..])
  }

  /** One option per key, in insertion order: the key is the label and the
      key's value is the value. */
  function DictToDropdownOptions<K(==), V>(d: seq<(K, V)>): (r: seq<DropdownOption<K, V>>)
    ensures |r| == |d|
    ensures forall i | 0 <= i < |d| :: r[i].text == d[i].0
  {
    OptionsFor(d, Keys(d))
  }

  /** In a dictionary, whose keys are distinct, looking up an entry's key
      gives that entry's value. */
  lemma {:induction false} LookupEntry<K, V>(d: seq<(K, V)>, i: nat)
    requires Distinct(Keys(d)) && i < |d|
    ensures d[i].0 in Keys(d) && Lookup(d, d[i].0) == d[i].1
    decreases |d|
  {
    assert Keys(d)[i] == d[i].0;
    if i > 0 {
      assert Keys(d)[0] != Keys(d)[i];
      assert Keys(d)[1..] == Keys(d[1..]);
      assert Distinct(Keys(d[1..])) by {
        forall a, b | 0 <= a < b < |d| - 1 ensures Keys(d[1..])[a] != Keys(d[1..])[b] {
          assert Keys(d)[a + 1] != Keys(d)[b + 1];
        }
      }
      assert d[1..][i - 1] == d[i];
      LookupEntry(d[1..], i - 1);
    }
  }

  /** The option for entry `i` carries the value stored under its label. */
  lemma DictOptionValue<K, V>(d: seq<(K, V)>, i: nat)
    requires Distinct(Keys(d)) && i < |d|
    ensures DictToDropdownOptions(d)[i].value == d[i].1
  {
    LookupEntry(d, i);
    assert Keys(d)[i] == d[i].0;
  }

  /** The cells of record `r` under the columns `cols` (`df.iloc[i][col]` for each col). */
  function RowCells(cols: seq<string>, r: Row): (cells: seq<Cell>)
    ensures |cells| == |cols|
    ensures forall j | 0 <= j < |cols| :: cells[j] == At(r, cols[j])
  {
    seq(|cols|, j requires 0 <= j < |cols| => At(r, cols[j]))
  }

  /** `len(range(min(n, maxRows)))`: a negative bound shows nothing. */
  function ShownCount(n: nat, maxRows: int): (k: nat)
    ensures k <= n
    ensures maxRows >= 0 ==> k == n || k == maxRows
    ensures maxRows >= 0 ==> k <= maxRows
    ensures maxRows < 0 ==> k == 0
  {
    if maxRows < 0 then 0 else if n < maxRows then n else maxRows
  }

  /** The header has one cell per column in column order; the body holds the
      first min(len(df), max_rows) records, each as one cell per column. */
  function GenerateTable(t: Table, maxRows: int): (h: HtmlTable)
    ensures h.header == t.columns
    ensures |h.body| == ShownCount(|t.rows|, maxRows)
    ensures forall i | 0 <= i < |h.body| :: |h.body[i]| == |t.columns|
    ensures forall i, j | 0 <= i < |h.body| && 0 <= j < |t.columns| :: h.body[i][j] == At(t.rows[i], t.columns[j])
  {
    var k := ShownCount(|t.rows|, maxRows);
    HtmlTable(t.columns, seq(k, i requires 0 <= i < k => RowCells(t.columns, t.rows[i])))
  }

  /** A rendered row read back under the header cells. */
  function RowOf(cols: seq<string>, cells: seq<Cell>): Row
    requires |cells| == |cols|
  {
    if cols == [] then map[] else RowOf(cols[1..], cells[1..])[cols[0] := cells[0]]
  }

  lemma {:induction false} RowOfCells(cols: seq<string>, r: Row)
    ensures RowOf(cols, RowCells(cols, r)) == map c | c in cols :: At(r, c)
    decreases |cols|
  {
    if cols != [] {
      var cells := RowCells(cols, r);
      assert cells[1..] == RowCells(cols[1..], r);
      RowOfCells(cols[1..], r);
      assert forall c :: c in cols <==> c == cols[0] || c in cols[1..];
    }
  }

  /** Reading a rendered body row back under the header gives the record it
      was rendered from: the table shows every shown record in full. */
  lemma RenderedRowsRoundTrip(t: Table, maxRows: int)
    requires t.Valid()
    ensures forall i | 0 <= i < |GenerateTable(t, maxRows).body| ::
      RowOf(GenerateTable(t, maxRows).header, GenerateTable(t, maxRows).body[i]) == t.rows[i]
  {
    var h := GenerateTable(t, maxRows);
    forall i | 0 <= i < |h.body| ensures RowOf(h.header, h.body[i]) == t.rows[i] {
      assert h.body[i] == RowCells(t.columns, t.rows[i]);
      RowOfCells(t.columns, t.rows[i]);
      assert t.rows[i].Keys == set c | c in t.columns;
    }
  }

  /** With the default bound, a table of at most 100 records is shown whole. */
  lemma DefaultShowsSmallTables(t: Table)
    requires |t.rows| <= DefaultMaxRows
    ensures |GenerateTable(t, DefaultMaxRows).body| == |t.rows|
  {
  }
}
