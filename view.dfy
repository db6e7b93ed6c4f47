/** The "View Traits" page (app.py lines 57-71): for each selected species,
    its first row, shown group by group with the traits it has a value
    for; with no species selected, an advisory instead. */
module View {
  import opened Options
  import opened Seqs
  import opened Dicts
  import opened Data
  import opened Taxonomy

  /** One group as the page shows it: its name and its trait/value table. */
  datatype GroupView = GroupView(group: string, entries: Dict<string, string>)

  /** The traits of `traits` that the row has a value for, with those
      values, in order. */
  function Entries(row: Row, traits: seq<string>): (r: Dict<string, string>)
    ensures forall e | e in r :: e.0 in traits && Get(row, e.0) == Some(e.1)
    ensures forall tr | tr in traits && Get(row, tr).Some? :: (tr, Get(row, tr).value) in r
  {
    if traits == [] then []
    else
      var rest := Entries(row, traits[1..]);
      assert forall tr | tr in traits :: tr == traits[0] || tr in traits[1..];
      match Get(row, traits[0])
      case None => rest
      case Some(v) => [(traits[0], v)] + rest
  }

  /** The keys of the entries are the traits that have a value, in order. */
  lemma {:induction false} EntriesKeys(row: Row, traits: seq<string>)
    ensures Keys(Entries(row, traits)) == Filter(traits, tr => Get(row, tr).Some?)
  {
    if traits != [] {
      EntriesKeys(row, traits[1..]);
      var rest := Entries(row, traits[1..]);
      var p := tr => Get(row, tr).Some?;
      assert Filter(traits, p) == (if p(traits[0]) then [traits[0]] else []) + Filter(traits[1..], p);
      if Get(row, traits[0]).Some? {
        var e := (traits[0], Get(row, traits[0]).value);
        assert Entries(row, traits) == [e] + rest;
        assert Keys([e] + rest) == [traits[0]] + Keys(rest);
      } else {
        assert Entries(row, traits) == rest;
      }
    }
  }

  /** `{trait: row[trait] for trait in traits if trait in row and
      pd.notna(row[trait])}`: a repeated trait keeps its first place. */
  function GroupData(row: Row, traits: seq<string>): (r: Dict<string, string>)
    ensures forall e | e in r :: e.0 in traits && Get(row, e.0) == Some(e.1)
    ensures forall tr | tr in traits && Get(row, tr).Some? :: (tr, Get(row, tr).value) in r
  {
    Entries(row, Distinct(traits))
  }

  /** A group's table lists each trait of the group that has a value,
      once, with that value, in the group's order, and nothing else. */
  lemma GroupDataMeaning(row: Row, traits: seq<string>)
    ensures Keys(GroupData(row, traits)) == Filter(Distinct(traits), tr => Get(row, tr).Some?)
    ensures NoDuplicates(Keys(GroupData(row, traits)))
    ensures forall e | e in GroupData(row, traits) :: e.0 in traits && Get(row, e.0) == Some(e.1)
    ensures forall tr | tr in traits && Get(row, tr).Some? :: (tr, Get(row, tr).value) in GroupData(row, traits)
  {
    EntriesKeys(row, Distinct(traits));
    FilterNoDuplicates(Distinct(traits), tr => Get(row, tr).Some?);
  }

  /** The loop over `trait_groups.items()`: every group whose table is not
      empty, in group order. */
  function SpeciesGroups(row: Row, groups: seq<Group>): (r: seq<GroupView>)
    ensures forall gv | gv in r :: gv.entries != []
    ensures |r| <= |groups|
  {
    if groups == [] then []
    else
      var data := GroupData(row, groups[0].1);
      var rest := SpeciesGroups(row, groups[1..]);
      if data != [] then [GroupView(groups[0].0, data)] + rest else rest
  }

  /** A group is shown, with its table, exactly when its table is not
      empty. */
  lemma {:induction false} SpeciesGroupsMembers(row: Row, groups: seq<Group>, gv: GroupView)
    ensures gv in SpeciesGroups(row, groups) <==>
      gv.entries != [] && exists i | 0 <= i < |groups| :: gv == GroupView(groups[i].0, GroupData(row, groups[i].1))
  {
    if groups != [] {
      SpeciesGroupsMembers(row, groups[1..], gv);
      assert forall i | 1 <= i < |groups| :: groups[i] == groups[1..][i - 1];
    }
  }

  /** The groups are shown in the order of the group table, each at most
      once: exactly the groups whose table is not empty. */
  lemma {:induction false} SpeciesGroupsInOrder(row: Row, groups: seq<Group>)
    ensures SpeciesGroups(row, groups) ==
      Map(Filter(groups, (g: Group) => GroupData(row, g.1) != []), (g: Group) => GroupView(g.0, GroupData(row, g.1)))
  {
    if groups != [] {
      SpeciesGroupsInOrder(row, groups[1..]);
      var p := (g: Group) => GroupData(row, g.1) != [];
      if p(groups[0]) {
        assert Filter(groups, p) == [groups[0]] + Filter(groups[1..], p);
      }
    }
  }

  /** The species a page shows and, for each, the groups of its row. */
  type Shown = seq<(string, seq<GroupView>)>

  function ShowEach(t: Table, groups: seq<Group>, selected: seq<string>): (r: Shown)
    requires forall s | s in selected :: s in SpeciesList(t)
    ensures |r| == |selected|
    ensures forall i | 0 <= i < |selected| :: r[i].0 == selected[i]
    ensures forall i | 0 <= i < |selected| ::
      FirstRow(t.rows, selected[i]).Some? && r[i].1 == SpeciesGroups(t.rows[FirstRow(t.rows, selected[i]).value], groups)
  {
    if selected == [] then []
    else
      var s := selected[0];
      ListedHasFirstRow(t, s);
      var k := FirstRow(t.rows, s).value;
      var rest := ShowEach(t, groups, selected[1..]);
      assert forall i | 1 <= i < |selected| :: selected[i] == selected[1..][i - 1];
      [(s, SpeciesGroups(t.rows[k], groups))] + rest
  }

  /** The page. Every species offered is one of the species list. */
  function ViewTraits(t: Table, selected: seq<string>): (r: Outcome<Shown>)
    requires forall s | s in selected :: s in SpeciesList(t)
    ensures r.Advise? <==> selected == []
    ensures r.Advise? ==> r.advisory == NoSelection
    ensures r.Shown? ==> |r.result| == |selected|
    ensures r.Shown? ==> forall i | 0 <= i < |selected| :: r.result[i].0 == selected[i]
  {
    if selected == [] then Advise(NoSelection) else Shown(ShowEach(t, TraitGroups, selected))
  }

  /** Every value shown for a species is the value of that trait in the
      species' first row, under a group that lists the trait. */
  lemma ShownValuesComeFromFirstRow(t: Table, selected: seq<string>, i: nat, gv: GroupView, e: (string, string))
    requires forall s | s in selected :: s in SpeciesList(t)
    requires i < |selected|
    requires ViewTraits(t, selected).Shown?
    requires gv in ViewTraits(t, selected).result[i].1 && e in gv.entries
    ensures exists k | 0 <= k < |t.rows| ::
      && FirstRow(t.rows, selected[i]) == Some(k)
      && Get(t.rows[k], e.0) == Some(e.1)
      && GroupTraits(gv.group).Some? && e.0 in GroupTraits(gv.group).value
  {
    var r := ViewTraits(t, selected).result;
    var k := FirstRow(t.rows, selected[i]).value;
    SpeciesGroupsMembers(t.rows[k], TraitGroups, gv);
    var g :| 0 <= g < |TraitGroups| && gv == GroupView(TraitGroups[g].0, GroupData(t.rows[k], TraitGroups[g].1));
    GroupDataMeaning(t.rows[k], TraitGroups[g].1);
    GroupTraitsOfEach(g);
  }
}
