/** The trait groups (app.py lines 23-38): fourteen named groups, in the
    order the dictionary literal lists them, each with its traits in order. */
module Taxonomy {
  import opened Options
  import opened Seqs
  import opened Dicts

  /** A group: its name and the traits it shows, in order. */
  type Group = (string, seq<string>)

  /** `trait_groups`, in insertion order. */
  const TraitGroups: seq<Group> := [
      ("Blossoming", ["flowering_cues", "flowering_time"]),
      ("Botany", [
        "bud_bank_location", "clonal_spread_mechanism", "flower_structural_sex_type",
        "genome_size", "ploidy", "root_system_type", "sex_type"]),
      ("Descriptive", [
        "flower_colour", "fruit_colour", "leaf_type", "parasitic", "plant_climbing_mechanism",
        "plant_growth_form", "plant_growth_substrate", "plant_height",
        "plant_physical_defence_structures"]),
      ("Fire recovery", [
        "fire_time_from_fire_to_50_percent_flowering",
        "fire_time_from_fire_to_50_percent_fruiting", "fire_time_from_fire_to_flowering",
        "fire_time_from_fire_to_flowering_decline", "fire_time_from_fire_to_fruiting",
        "fire_time_from_fire_to_peak_flowering"]),
      ("Fire response", [
        "life_history_ephemeral_class", "plant_tolerance_fire", "post_fire_flowering",
        "post_fire_recruitment", "resprouting_capacity", "resprouting_capacity_juvenile",
        "resprouting_capacity_proportion_individuals",
        "resprouting_capacity_time_from_germination"]),
      ("Germination", [
        "establishment_light_environment_index", "recruitment_time",
        "reproductive_light_environment_index", "root_structure", "seed_germination",
        "seed_germination_time", "seedling_establishment_conditions",
        "seedling_germination_location"]),
      ("Life history", ["life_history", "lifespan"]),
      ("Natural Growth", [
        "competitive_stratum", "dispersal_syndrome", "dispersers", "nitrogen_fixing",
        "resprouting_capacity_non_fire_disturbance", "sprout_depth", "stem_growth_habit",
        "storage_organ", "vegetative_reproduction_ability"]),
      ("Pollination", ["pollination_syndrome", "pollination_system"]),
      ("Seedbank", ["seedbank_location", "seedbank_longevity", "seedbank_longevity_class"]),
      ("Seeds", [
        "dispersal_unit", "fruiting_time", "reproductive_maturity", "seed_viability",
        "serotiny"]),
      ("Propagation", [
        "seed_dormancy_class", "seed_germination_treatment", "germination_treatment"]),
      ("Soil tolerances", [
        "plant_tolerance_calcicole", "plant_tolerance_salt", "plant_tolerance_soil_salinity",
        "plant_type_by_resource_use"]),
      ("Water response", [
        "plant_flood_regime_classification", "plant_tolerance_inundation",
        "plant_tolerance_snow", "plant_tolerance_water_logged_soils"])
    ]

  /** `list(trait_groups.keys())`: the group names, in order. */
  function GroupNames(): seq<string> {
    Keys(TraitGroups)
  }

  /** The traits of group `name`, if there is such a group. */
  function GroupTraits(name: string): (r: Option<seq<string>>)
    ensures r.Some? <==> name in GroupNames()
  {
    Lookup(TraitGroups, name)
  }

  /** The group names, in the order the page offers them. */
  lemma GroupNamesInOrder()
    ensures GroupNames() == ["Blossoming", "Botany", "Descriptive", "Fire recovery",
      "Fire response", "Germination", "Life history", "Natural Growth", "Pollination",
      "Seedbank", "Seeds", "Propagation", "Soil tolerances", "Water response"]
  {
  }

  /** No two groups share a name, so every group is found by its name. */
  lemma GroupNamesDistinct()
    ensures NoDuplicates(GroupNames())
  {
    GroupNamesInOrder();
  }

  /** `trait_groups[name]` gives each group's own traits. */
  lemma GroupTraitsOfEach(i: nat)
    requires i < |TraitGroups|
    ensures GroupTraits(TraitGroups[i].0) == Some(TraitGroups[i].1)
  {
    GroupNamesDistinct();
    EntryIsLookup(TraitGroups, i);
  }
}
