/** The "Find Flowers by Trait" page (app.py lines 76-119): the traits of
    the chosen groups the table has, the options offered for each trait,
    the filters built from the values picked, the rows that pass every
    filter, and what the page shows. */
module Find {
  import opened Options
  import opened Text
  import opened Seqs
  import opened Dicts
  import opened Tokenizer
  import opened Data
  import opened Taxonomy

  /** `available_traits` after the groups `selected` of `groups`: each
      group's traits that are columns of the table, group after group. */
  function Available(groups: seq<Group>, columns: seq<string>, selected: seq<string>): seq<string>
    requires forall g | g in selected :: Lookup(groups, g).Some?
  {
    if selected == [] then []
    else
      var g := selected[|selected| - 1];
      Available(groups, columns, selected[..|selected| - 1]) + Filter(Lookup(groups, g).value, tr => tr in columns)
  }

  /** A trait is available exactly when it is a column and one of the
      selected groups lists it. */
  lemma {:induction false} AvailableMembers(groups: seq<Group>, columns: seq<string>, selected: seq<string>, tr: string)
    requires forall g | g in selected :: Lookup(groups, g).Some?
    ensures tr in Available(groups, columns, selected) <==>
      tr in columns && exists g | g in selected :: tr in Lookup(groups, g).value
  {
    if selected != [] {
      var init := selected[..|selected| - 1];
      var g := selected[|selected| - 1];
      AvailableMembers(groups, columns, init, tr);
      FilterMembership(Lookup(groups, g).value, tr' => tr' in columns, tr);
      InitLast(selected);
      assert Available(groups, columns, selected) ==
        Available(groups, columns, init) + Filter(Lookup(groups, g).value, tr' => tr' in columns);
      assert forall h | h in selected :: h in init || h == g;
    }
  }

  /** Lines 80-82, over the group table `groups` (the page passes
      `TraitGroups`). */
  method AvailableTraits(groups: seq<Group>, t: Table, selectedGroups: seq<string>) returns (r: seq<string>)
    requires forall g | g in selectedGroups :: Lookup(groups, g).Some?
    ensures r == Available(groups, t.columns, selectedGroups)
  {
    r := [];
    var i := 0;
    while i < |selectedGroups|
      invariant 0 <= i <= |selectedGroups|
      invariant r == Available(groups, t.columns, selectedGroups[..i])
    {
      var group := selectedGroups[i];
      assert selectedGroups[..i + 1][..i] == selectedGroups[..i];
      r := r + Filter(Lookup(groups, group).value, tr => tr in t.columns);
      i := i + 1;
    }
    assert selectedGroups[..i] == selectedGroups;
  }

  /** The options a cell contributes: the tokens of its text lower-cased
      first. A missing cell contributes none. */
  function CellOptions(cell: Cell): seq<string> {
    match cell
    case None => []
    case Some(s) => SplitTraitValues(Some(Lower(s)))
  }

  /** `v` is offered for `column`: it is a token of some row's
      lower-cased cell in that column. */
  predicate IsOption(rows: seq<Row>, column: string, v: string) {
    exists i | 0 <= i < |rows| :: v in CellOptions(Get(rows[i], column))
  }

  lemma OptionOfRow(rows: seq<Row>, column: string, i: nat, v: string)
    requires i < |rows| && v in CellOptions(Get(rows[i], column))
    ensures IsOption(rows, column, v)
  {
  }

  /** Every option splits back into itself alone, so picking it selects
      exactly it. */
  lemma OptionsSplitToThemselves(rows: seq<Row>, column: string, v: string)
    requires IsOption(rows, column, v)
    ensures SplitTraitValues(Some(v)) == [v]
  {
    var i :| 0 <= i < |rows| && v in CellOptions(Get(rows[i], column));
    var s := Get(rows[i], column).value;
    TokenIsFixedPoint(Lower(s), v);
  }

  /** The inner loop of lines 91-92: every item added to the set. */
  method AddAll(s: set<string>, items: seq<string>) returns (r: set<string>)
    ensures forall v | v in r :: v in s || v in items
    ensures forall v | v in s || v in items :: v in r
  {
    r := s;
    var j := 0;
    while j < |items|
      invariant 0 <= j <= |items|
      invariant forall v | v in r :: v in s || v in items[..j]
      invariant forall v | v in s || v in items[..j] :: v in r
    {
      assert items[..j + 1] == items[..j] + [items[j]];
      r := r + {items[j]};
      j := j + 1;
    }
    assert items[..j] == items;
  }

  lemma CollectStep(rows: seq<Row>, column: string, i: nat, valueSet: set<string>, next: set<string>)
    requires i < |rows|
    requires forall v | v in valueSet :: IsOption(rows, column, v)
    requires forall k, v | 0 <= k < i && v in CellOptions(Get(rows[k], column)) :: v in valueSet
    requires forall v | v in next :: v in valueSet || v in CellOptions(Get(rows[i], column))
    requires forall v | v in valueSet || v in CellOptions(Get(rows[i], column)) :: v in next
    ensures forall v | v in next :: IsOption(rows, column, v)
    ensures forall k, v | 0 <= k <= i && v in CellOptions(Get(rows[k], column)) :: v in next
  {
    forall v | v in next ensures IsOption(rows, column, v) {
      if v !in valueSet {
        OptionOfRow(rows, column, i, v);
      }
    }
  }

  /** Lines 87-92: `value_set`, the tokens of every non-missing cell of
      `column`, each cell lower-cased before it is split. */
  method CollectOptions(t: Table, column: string) returns (valueSet: set<string>)
    ensures forall v | v in valueSet :: IsOption(t.rows, column, v)
    ensures forall i, v | 0 <= i < |t.rows| && v in CellOptions(Get(t.rows[i], column)) :: v in valueSet
  {
    valueSet := {};
    var i := 0;
    while i < |t.rows|
      invariant 0 <= i <= |t.rows|
      invariant forall v | v in valueSet :: IsOption(t.rows, column, v)
      invariant forall k, v | 0 <= k < i && v in CellOptions(Get(t.rows[k], column)) :: v in valueSet
    {
      var cell := Get(t.rows[i], column);
      var next := valueSet;
      if cell.Some? {
        var items := CellOptions(cell);
        next := AddAll(valueSet, items);
      }
      CollectStep(t.rows, column, i, valueSet, next);
      valueSet := next;
      i := i + 1;
    }
  }

  /** `sorted(value_set)`: the members of a set of strings in ascending
      order, by repeated insertion. */
  method SortedSet(s: set<string>) returns (r: seq<string>)
    ensures StrictlyAscending(r)
    ensures forall v | v in r :: v in s
    ensures forall v | v in s :: v in r
  {
    r := [];
    var rest := s;
    while rest != {}
      invariant StrictlyAscending(r)
      invariant rest <= s
      invariant forall v | v in r :: v in s
      invariant forall v | v in s :: v in r || v in rest
      decreases |rest|
    {
      var x :| x in rest;
      r := Insert(r, x);
      rest := rest - {x};
    }
  }

  /** `extract_unique_values` (lines 86-93): the options offered for
      `column`, sorted, each once. Being strictly ascending, the result is
      the only list with these members. */
  method ExtractUniqueValues(t: Table, column: string) returns (r: seq<string>)
    ensures StrictlyAscending(r)
    ensures forall v | v in r :: IsOption(t.rows, column, v)
    ensures forall i, v | 0 <= i < |t.rows| && v in CellOptions(Get(t.rows[i], column)) :: v in r
  {
    var valueSet := CollectOptions(t, column);
    r := SortedSet(valueSet);
  }

  /** The values picked for a trait; a trait with no pick has none. */
  function PicksFor(picks: map<string, seq<string>>, column: string): seq<string> {
    if column in picks then picks[column] else []
  }

  /** `selected_vals`: the tokens of the picked values, in pick order. */
  function SelectedTokens(picked: seq<string>): seq<string> {
    if picked == [] then []
    else SelectedTokens(picked[..|picked| - 1]) + SplitTraitValues(Some(picked[|picked| - 1]))
  }

  /** A token is selected exactly when it is a token of a picked value. */
  lemma {:induction false} SelectedTokensMembers(picked: seq<string>, v: string)
    ensures v in SelectedTokens(picked) <==> exists p | p in picked :: v in SplitTraitValues(Some(p))
  {
    if picked != [] {
      var init, last := picked[..|picked| - 1], picked[|picked| - 1];
      SelectedTokensMembers(init, v);
      InitLast(picked);
      assert forall p | p in picked :: p in init || p == last;
    }
  }

  /** Values picked from the options offered select themselves: the
      re-split at line 101 changes nothing. */
  lemma {:induction false} PicksFromOptions(rows: seq<Row>, column: string, picked: seq<string>)
    requires forall v | v in picked :: IsOption(rows, column, v)
    ensures SelectedTokens(picked) == picked
  {
    if picked != [] {
      var init, last := picked[..|picked| - 1], picked[|picked| - 1];
      assert forall v | v in init :: v in picked;
      PicksFromOptions(rows, column, init);
      OptionsSplitToThemselves(rows, column, last);
      assert SelectedTokens(picked) == init + [last];
      InitLast(picked);
    }
  }

  /** Some value picked for `trait` has a token. */
  predicate HasTokens(picks: map<string, seq<string>>, column: string) {
    SelectedTokens(PicksFor(picks, column)) != []
  }

  /** `a` and `b` have the same members. */
  predicate SameMembers(a: seq<string>, b: seq<string>) {
    (forall x | x in a :: x in b) && (forall x | x in b :: x in a)
  }

  /** The selected traits with a token picked, in selection order. */
  function TraitsWithTokens(traits: seq<string>, picks: map<string, seq<string>>): seq<string> {
    if traits == [] then []
    else
      var last := traits[|traits| - 1];
      TraitsWithTokens(traits[..|traits| - 1], picks) + (if HasTokens(picks, last) then [last] else [])
  }

  lemma TraitsWithTokensAppend(traits: seq<string>, picks: map<string, seq<string>>, column: string)
    ensures TraitsWithTokens(traits + [column], picks) ==
      TraitsWithTokens(traits, picks) + (if HasTokens(picks, column) then [column] else [])
  {
    assert (traits + [column])[..|traits|] == traits;
  }

  /** A trait is among them exactly when it was selected and has a token. */
  lemma {:induction false} TraitsWithTokensMembers(traits: seq<string>, picks: map<string, seq<string>>, tr: string)
    ensures tr in TraitsWithTokens(traits, picks) <==> tr in traits && HasTokens(picks, tr)
  {
    if traits != [] {
      var init, last := traits[..|traits| - 1], traits[|traits| - 1];
      TraitsWithTokensMembers(init, picks, tr);
      InitLast(traits);
      assert tr in traits <==> tr in init || tr == last;
    }
  }

  /** The filtered traits: those with a token picked, once each, in the
      order they were first selected. */
  function FilteredTraits(traits: seq<string>, picks: map<string, seq<string>>): seq<string> {
    Distinct(TraitsWithTokens(traits, picks))
  }

  /** `filters` as lines 95-103 leave it: one entry per filtered trait, in
      that order, holding the tokens picked for it once each
      (`list(set(...))`, whose order Python leaves open). */
  predicate IsFilters(filters: Dict<string, seq<string>>, traits: seq<string>, picks: map<string, seq<string>>) {
    && Keys(filters) == FilteredTraits(traits, picks)
    && forall k | k in Keys(filters) ::
         NoDuplicates(Lookup(filters, k).value) && SameMembers(Lookup(filters, k).value, SelectedTokens(PicksFor(picks, k)))
  }

  /** The tokens of the values picked for one trait (lines 99-101). */
  method PickedTokens(raw: seq<string>) returns (selectedVals: seq<string>)
    ensures selectedVals == SelectedTokens(raw)
  {
    selectedVals := [];
    var j := 0;
    while j < |raw|
      invariant 0 <= j <= |raw|
      invariant selectedVals == SelectedTokens(raw[..j])
    {
      selectedVals := selectedVals + SplitTraitValues(Some(raw[j]));
      assert raw[..j + 1][..j] == raw[..j];
      j := j + 1;
    }
    assert raw[..j] == raw;
  }

  /** A selected trait with no token picked leaves the filters as they are. */
  lemma FiltersSkip(filters: Dict<string, seq<string>>, traits: seq<string>, picks: map<string, seq<string>>, column: string)
    requires IsFilters(filters, traits, picks) && !HasTokens(picks, column)
    ensures IsFilters(filters, traits + [column], picks)
  {
    TraitsWithTokensAppend(traits, picks, column);
    AppendNothing(TraitsWithTokens(traits, picks));
  }

  /** A selected trait with tokens picked is assigned those tokens. */
  lemma FiltersAdd(filters: Dict<string, seq<string>>, traits: seq<string>, picks: map<string, seq<string>>, column: string)
    requires IsFilters(filters, traits, picks) && HasTokens(picks, column)
    ensures IsFilters(Assign(filters, column, Distinct(SelectedTokens(PicksFor(picks, column)))), traits + [column], picks)
  {
    TraitsWithTokensAppend(traits, picks, column);
    DistinctAppend(TraitsWithTokens(traits, picks), column);
    var vals := Distinct(SelectedTokens(PicksFor(picks, column)));
    var f' := Assign(filters, column, vals);
    forall k | k in Keys(f') ensures
      NoDuplicates(Lookup(f', k).value) && SameMembers(Lookup(f', k).value, SelectedTokens(PicksFor(picks, k)))
    {
      AssignLookup(filters, column, vals, k);
    }
  }

  /** Lines 95-103: the filters for the selected traits and the values
      picked for each. */
  method BuildFilters(selectedTraits: seq<string>, picks: map<string, seq<string>>) returns (filters: Dict<string, seq<string>>)
    ensures IsFilters(filters, selectedTraits, picks)
  {
    filters := [];
    var i := 0;
    while i < |selectedTraits|
      invariant 0 <= i <= |selectedTraits|
      invariant IsFilters(filters, selectedTraits[..i], picks)
    {
      var column := selectedTraits[i];
      var selectedVals := PickedTokens(PicksFor(picks, column));
      if selectedVals != [] {
        FiltersAdd(filters, selectedTraits[..i], picks, column);
        filters := Assign(filters, column, Distinct(selectedVals));
      } else {
        FiltersSkip(filters, selectedTraits[..i], picks, column);
      }
      TakeNext(selectedTraits, i);
      i := i + 1;
    }
    assert selectedTraits[..i] == selectedTraits;
  }

  /** `match_any` (lines 108-110): the cell, split as it is (not
      lower-cased first), has one of the values among its tokens. */
  predicate MatchAny(cell: Cell, vals: seq<string>)
    ensures MatchAny(cell, vals) ==> cell.Some? && vals != []
  {
    exists v | v in vals :: v in SplitTraitValues(cell)
  }

  /** The row passes every filter. */
  predicate MatchesAll(row: Row, filters: Dict<string, seq<string>>) {
    forall i | 0 <= i < |filters| :: MatchAny(Get(row, filters[i].0), filters[i].1)
  }

  lemma MatchesAllAppend(row: Row, filters: Dict<string, seq<string>>, i: nat)
    requires i < |filters|
    ensures MatchesAll(row, filters[..i + 1]) <==>
      MatchesAll(row, filters[..i]) && MatchAny(Get(row, filters[i].0), filters[i].1)
  {
    var longer, shorter := filters[..i + 1], filters[..i];
    if MatchesAll(row, longer) {
      forall j | 0 <= j < i ensures MatchAny(Get(row, shorter[j].0), shorter[j].1) {
        assert shorter[j] == longer[j];
      }
      assert longer[i] == filters[i];
    }
    if MatchesAll(row, shorter) && MatchAny(Get(row, filters[i].0), filters[i].1) {
      forall j | 0 <= j < i + 1 ensures MatchAny(Get(row, longer[j].0), longer[j].1) {
        if j < i { assert longer[j] == shorter[j]; }
      }
    }
  }

  /** Lines 105-111: the rows that pass every filter, in table order. */
  method ApplyFilters(rows: seq<Row>, filters: Dict<string, seq<string>>) returns (r: seq<Row>)
    ensures r == Filter(rows, row => MatchesAll(row, filters))
  {
    r := rows;
    FilterAll(rows, row => MatchesAll(row, filters[..0]));
    var i := 0;
    while i < |filters|
      invariant 0 <= i <= |filters|
      invariant r == Filter(rows, row => MatchesAll(row, filters[..i]))
    {
      var (column, vals) := filters[i];
      forall row | row in rows ensures MatchesAll(row, filters[..i + 1]) ==
        (MatchesAll(row, filters[..i]) && MatchAny(Get(row, column), vals))
      {
        MatchesAllAppend(row, filters, i);
      }
      FilterTwice(rows, row => MatchesAll(row, filters[..i]), row => MatchAny(Get(row, column), vals),
        row => MatchesAll(row, filters[..i + 1]));
      r := Filter(r, row => MatchAny(Get(row, column), vals));
      i := i + 1;
    }
    assert filters[..i] == filters;
  }

  /** The rows the page is meant to keep, stated without the filters: for
      every selected trait with a token picked, the row's cell has one of
      the tokens picked for it. */
  predicate Wanted(row: Row, traits: seq<string>, picks: map<string, seq<string>>) {
    forall tr | tr in traits && HasTokens(picks, tr) :: MatchAny(Get(row, tr), SelectedTokens(PicksFor(picks, tr)))
  }

  /** Cells that share the same candidate tokens match alike. */
  lemma MatchAnySameMembers(cell: Cell, a: seq<string>, b: seq<string>)
    requires SameMembers(a, b)
    ensures MatchAny(cell, a) == MatchAny(cell, b)
  {
  }

  /** The keys of the filters are the selected traits with a token
      picked. */
  lemma FilterKeysMembers(filters: Dict<string, seq<string>>, traits: seq<string>, picks: map<string, seq<string>>, tr: string)
    requires IsFilters(filters, traits, picks)
    ensures tr in Keys(filters) <==> tr in traits && HasTokens(picks, tr)
  {
    TraitsWithTokensMembers(traits, picks, tr);
  }

  /** Passing the filters is being wanted. */
  lemma FiltersMeanWanted(filters: Dict<string, seq<string>>, traits: seq<string>, picks: map<string, seq<string>>, row: Row)
    requires IsFilters(filters, traits, picks)
    ensures MatchesAll(row, filters) <==> Wanted(row, traits, picks)
  {
    if MatchesAll(row, filters) {
      forall tr | tr in traits && HasTokens(picks, tr)
        ensures MatchAny(Get(row, tr), SelectedTokens(PicksFor(picks, tr)))
      {
        FilterKeysMembers(filters, traits, picks, tr);
        var i :| 0 <= i < |filters| && Keys(filters)[i] == tr;
        EntryIsLookup(filters, i);
        MatchAnySameMembers(Get(row, tr), filters[i].1, SelectedTokens(PicksFor(picks, tr)));
      }
    }
    if Wanted(row, traits, picks) {
      forall i | 0 <= i < |filters| ensures MatchAny(Get(row, filters[i].0), filters[i].1) {
        var k := filters[i].0;
        assert k == Keys(filters)[i];
        FilterKeysMembers(filters, traits, picks, k);
        EntryIsLookup(filters, i);
        MatchAnySameMembers(Get(row, k), filters[i].1, SelectedTokens(PicksFor(picks, k)));
      }
    }
  }

  /** A row whose cell is missing for a filtered trait is never kept. */
  lemma MissingCellNeverKept(row: Row, traits: seq<string>, picks: map<string, seq<string>>, tr: string)
    requires tr in traits && HasTokens(picks, tr) && Get(row, tr).None?
    ensures !Wanted(row, traits, picks)
  {
    assert !MatchAny(Get(row, tr), SelectedTokens(PicksFor(picks, tr)));
  }

  /** The rows the page is meant to show, in table order. */
  function WantedRows(rows: seq<Row>, traits: seq<string>, picks: map<string, seq<string>>): seq<Row> {
    Filter(rows, row => Wanted(row, traits, picks))
  }

  /** Filtering trait by trait keeps exactly the wanted rows. */
  lemma FilteredAreWanted(rows: seq<Row>, filters: Dict<string, seq<string>>, traits: seq<string>, picks: map<string, seq<string>>)
    requires IsFilters(filters, traits, picks)
    ensures Filter(rows, row => MatchesAll(row, filters)) == WantedRows(rows, traits, picks)
  {
    forall row | row in rows ensures MatchesAll(row, filters) == Wanted(row, traits, picks) {
      FiltersMeanWanted(filters, traits, picks, row);
    }
    FilterCongruent(rows, row => MatchesAll(row, filters), row => Wanted(row, traits, picks));
  }

  /** `df[columns]` on the kept rows: each row cut down to `columns`. */
  function Project(rows: seq<Row>, columns: seq<string>): (r: seq<Row>)
    ensures |r| == |rows|
    ensures forall i | 0 <= i < |rows| :: r[i].Keys == (set c | c in columns)
    ensures forall i | 0 <= i < |rows| :: forall c | c in columns :: r[i][c] == Get(rows[i], c)
  {
    seq(|rows|, i requires 0 <= i < |rows| => map c | c in columns :: Get(rows[i], c))
  }

  /** The page (lines 95-119). With no token picked it advises picking
      one; when no row is wanted it advises that nothing matched;
      otherwise it shows the wanted rows, in table order, with the species
      column and the filtered traits' columns. */
  method FindFlowers(t: Table, selectedTraits: seq<string>, picks: map<string, seq<string>>) returns (r: Outcome<Table>)
    requires forall tr | tr in selectedTraits :: tr in t.columns
    ensures r == Advise(NoSelection) <==> forall tr | tr in selectedTraits :: !HasTokens(picks, tr)
    ensures r == Advise(NoMatches) <==>
      (exists tr | tr in selectedTraits :: HasTokens(picks, tr)) && WantedRows(t.rows, selectedTraits, picks) == []
    ensures r.Shown? ==> r.result.columns == [SpeciesColumn] + FilteredTraits(selectedTraits, picks)
    ensures r.Shown? ==> r.result.rows == Project(WantedRows(t.rows, selectedTraits, picks), r.result.columns)
  {
    var filters := BuildFilters(selectedTraits, picks);
    forall tr | tr in selectedTraits ensures HasTokens(picks, tr) ==> tr in Keys(filters) {
      FilterKeysMembers(filters, selectedTraits, picks, tr);
    }
    forall k | k in Keys(filters) ensures k in selectedTraits && HasTokens(picks, k) {
      FilterKeysMembers(filters, selectedTraits, picks, k);
    }
    if filters == [] {
      r := Advise(NoSelection);
    } else {
      assert filters[0].0 in Keys(filters);
      var kept := ApplyFilters(t.rows, filters);
      FilteredAreWanted(t.rows, filters, selectedTraits, picks);
      if kept == [] {
        r := Advise(NoMatches);
      } else {
        var columns := [SpeciesColumn] + Keys(filters);
        r := Shown(Table(columns, Project(kept, columns)));
      }
    }
  }

  /** A lower-case cell matches every option it contributes. */
  lemma LowerCellMatchesItsOptions(s: string, v: string)
    requires IsLower(s) && v in CellOptions(Some(s))
    ensures MatchAny(Some(s), [v])
  {
    LowerOfLower(s);
  }

  /** An option offered for a trait can fail to select the very row it
      came from: options are read from lower-cased cells, matching splits
      the cell as written, and " TO " separates only in lower case. */
  lemma OfferedOptionCanMissItsRow(column: string)
    ensures var row: Row := map[column := Some("A TO B")];
      IsOption([row], column, "a") && !MatchAny(Get(row, column), ["a"])
  {
    var row: Row := map[column := Some("A TO B")];
    LowerUpperCaseText();
    LowerCaseToExample();
    UpperCaseToExample();
    assert "a" in CellOptions(Get([row][0], column));
  }
}
