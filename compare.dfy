/** The "Compare Traits" page (app.py lines 124-132): every row whose
    species is among those selected, with all its columns, in table order;
    with no species selected, an advisory instead. */
module Compare {
  import opened Options
  import opened Seqs
  import opened Data

  /** `df["species_name"].isin(selected)`: a row without a species name
      is never selected. */
  predicate InSelection(row: Row, selected: seq<string>) {
    Get(row, SpeciesColumn).Some? && Get(row, SpeciesColumn).value in selected
  }

  /** The page. The species column becoming the index is presentation
      and is not modelled. */
  function CompareTraits(t: Table, selected: seq<string>): (r: Outcome<Table>)
    ensures r.Advise? <==> selected == []
    ensures r.Advise? ==> r.advisory == NoSelection
    ensures r.Shown? ==> r.result.columns == t.columns
    ensures r.Shown? ==> forall row | row in r.result.rows :: row in t.rows && InSelection(row, selected)
  {
    if selected == [] then Advise(NoSelection)
    else Shown(Table(t.columns, Filter(t.rows, row => InSelection(row, selected))))
  }

  /** The rows compared keep their table order, and each row of a selected
      species appears as often as in the table; no other row appears. */
  lemma CompareRows(t: Table, selected: seq<string>, row: Row)
    requires selected != []
    ensures IsSubsequence(CompareTraits(t, selected).result.rows, t.rows)
    ensures multiset(CompareTraits(t, selected).result.rows)[row] ==
      if InSelection(row, selected) then multiset(t.rows)[row] else 0
  {
    FilterIsSubsequence(t.rows, row => InSelection(row, selected));
    FilterCounts(t.rows, row => InSelection(row, selected), row);
  }

  /** Every species selected from the species list is compared, starting
      with the row the "View Traits" page shows for it. */
  lemma SelectedSpeciesCompared(t: Table, selected: seq<string>, n: string)
    requires n in selected && n in SpeciesList(t)
    ensures FirstRow(t.rows, n).Some?
    ensures t.rows[FirstRow(t.rows, n).value] in CompareTraits(t, selected).result.rows
  {
    ListedHasFirstRow(t, n);
    var row := t.rows[FirstRow(t.rows, n).value];
    FilterMembership(t.rows, row => InSelection(row, selected), row);
  }
}
