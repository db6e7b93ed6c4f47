/** The species table the viewer works on (app.py lines 11-18): loaded
    once, every cell normalised, and the sorted list of distinct species
    names offered for selection. */
module Data {
  import opened Options
  import opened Text
  import opened Normalizer

  /** A cell: a string, or missing (pandas' NaN). */
  type Cell = Option<string>

  /** A row: the cell under each column name. */
  type Row = map<string, Cell>

  /** A table: its column names in file order and its rows in file order. */
  datatype Table = Table(columns: seq<string>, rows: seq<Row>)

  /** The column that names each row's species. */
  const SpeciesColumn: string := "species_name"

  /** `row[c]`; a column the row does not have reads as missing. */
  function Get(row: Row, c: string): Cell {
    if c in row then row[c] else None
  }

  /** Every row has a cell under exactly the table's columns. */
  predicate WellFormed(t: Table) {
    forall i | 0 <= i < |t.rows| :: t.rows[i].Keys == (set c | c in t.columns)
  }

  /** Every cell of the table is one the normaliser can have produced. */
  predicate Loaded(t: Table) {
    forall i | 0 <= i < |t.rows| :: forall c | c in t.rows[i] :: IsNormal(t.rows[i][c])
  }

  /** `applymap` of the normaliser over one row. */
  function NormalizeRow(row: Row): (r: Row)
    ensures r.Keys == row.Keys
    ensures forall c | c in r :: IsNormal(r[c]) && (r[c].None? <==> row[c].None?)
  {
    map c | c in row :: NormalizeFixesNormal(row[c]); Normalize(row[c])
  }

  /** `load_data` after the file is read: the same columns and rows, every
      cell normalised. A missing cell stays missing. */
  function Load(raw: Table): (t: Table)
    ensures t.columns == raw.columns && |t.rows| == |raw.rows|
    ensures Loaded(t)
    ensures WellFormed(raw) ==> WellFormed(t)
    ensures forall i | 0 <= i < |t.rows| :: forall c :: Get(t.rows[i], c).None? <==> Get(raw.rows[i], c).None?
    ensures forall i, c | 0 <= i < |raw.rows| && c in raw.rows[i] ::
      c in t.rows[i] && t.rows[i][c] == Normalize(raw.rows[i][c])
  {
    Table(raw.columns, seq(|raw.rows|, i requires 0 <= i < |raw.rows| => NormalizeRow(raw.rows[i])))
  }

  /** A loaded table is left unchanged by loading it again, and only a
      loaded table is. */
  lemma {:induction false} LoadFixesLoaded(t: Table)
    ensures Load(t) == t <==> Loaded(t)
  {
    var l := Load(t);
    if Loaded(t) {
      forall i | 0 <= i < |t.rows| ensures l.rows[i] == t.rows[i] {
        forall c | c in t.rows[i] ensures l.rows[i][c] == t.rows[i][c] {
          NormalizeFixesNormal(t.rows[i][c]);
        }
      }
    }
  }

  /** Loading twice is loading once. */
  lemma LoadIdempotent(raw: Table)
    ensures Load(Load(raw)) == Load(raw)
  {
    LoadFixesLoaded(Load(raw));
  }

  /** The species names of the rows that have one, in row order
      (`df["species_name"].dropna()`). */
  function Names(rows: seq<Row>): (r: seq<string>)
    ensures |r| <= |rows|
  {
    if rows == [] then []
    else
      var rest := Names(rows[1..]);
      match Get(rows[0], SpeciesColumn)
      case None => rest
      case Some(n) => [n] + rest
  }

  /** A name is among the names exactly when some row carries it. */
  lemma {:induction false} NamesMembers(rows: seq<Row>, n: string)
    ensures n in Names(rows) <==> exists i | 0 <= i < |rows| :: Get(rows[i], SpeciesColumn) == Some(n)
  {
    if rows != [] {
      NamesMembers(rows[1..], n);
      if Get(rows[0], SpeciesColumn) != Some(n) {
        assert forall i | 1 <= i < |rows| :: rows[i] == rows[1..][i - 1];
      }
    }
  }

  /** `sorted(df["species_name"].dropna().unique())`. */
  function SpeciesList(t: Table): (r: seq<string>)
    ensures StrictlyAscending(r)
  {
    SortedDistinct(Names(t.rows))
  }

  /** The species list holds each name some row carries, once, and nothing
      else; being strictly ascending, it is the only list that does. */
  lemma SpeciesListMembers(t: Table, n: string)
    ensures n in SpeciesList(t) <==> exists i | 0 <= i < |t.rows| :: Get(t.rows[i], SpeciesColumn) == Some(n)
  {
    NamesMembers(t.rows, n);
  }

  /** The index of the first row of species `n`
      (`df[df["species_name"] == n].iloc[0]`), if there is one. */
  function FirstRow(rows: seq<Row>, n: string): (r: Option<nat>)
    ensures r.Some? ==> r.value < |rows| && Get(rows[r.value], SpeciesColumn) == Some(n)
    ensures r.Some? ==> forall j | 0 <= j < r.value :: Get(rows[j], SpeciesColumn) != Some(n)
    ensures r.None? ==> forall j | 0 <= j < |rows| :: Get(rows[j], SpeciesColumn) != Some(n)
  {
    if rows == [] then None
    else if Get(rows[0], SpeciesColumn) == Some(n) then Some(0)
    else
      match FirstRow(rows[1..], n)
      case None => None
      case Some(k) => Some(k + 1)
  }

  /** Every species offered for selection has a first row. */
  lemma ListedHasFirstRow(t: Table, n: string)
    requires n in SpeciesList(t)
    ensures FirstRow(t.rows, n).Some?
  {
    SpeciesListMembers(t, n);
  }
}
