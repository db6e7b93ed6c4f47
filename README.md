# Species Trait Viewer — verified model

The viewer is a single-page Streamlit app (`app.py`). It loads one table of plant species: one row per species, one column per trait. It groups the trait columns into fourteen named trait groups and offers three pages:

- **View Traits.** For each chosen species, its first row, shown group by group with the traits it has a value for.
- **Find Flowers by Trait.** The user picks trait groups, then traits, then values offered for each trait. The page shows the species whose cells match every filtered trait.
- **Compare Traits.** Every row of the chosen species, with all columns.

This project models the data pipeline under the widgets and proves what it computes:

| module | file | models |
|---|---|---|
| `Options` | options.dfy | `Option`, and the page outcome: an advisory (`NoSelection`, `NoMatches`) or a result |
| `Text` | text.dfy | `str.strip`, ASCII `str.lower`, Python's string order and `sorted(set(...))` |
| `Seqs` | seqs.dfy | boolean-mask row selection (`Filter`), subsequences, `list(set(...))` (`Distinct`) |
| `Dicts` | dicts.dfy | a Python `dict` as an insertion-ordered list of pairs |
| `Normalizer` | normalizer.dfy | the cell normaliser applied at load time |
| `Tokenizer` | tokenizer.dfy | `split_trait_values`: `re.split` on the fixed separator pattern, strip, lower |
| `Data` | data.dfy | the loaded table, the species list and the first-row lookup |
| `Taxonomy` | taxonomy.dfy | the fourteen trait groups, in declaration order |
| `View`, `Find`, `Compare` | view.dfy, find.dfy, compare.dfy | the three pages |

A cell is `Option<string>`, where `None` is a missing value. A row maps column names to cells, and a column the row lacks reads as missing.

The user's choices are parameters:

- the selected species;
- the selected groups;
- the selected traits;
- the values picked for each trait, given as a map from trait to the picked values.

An advisory is a result value, not a message.

The loops of the Find page are methods.

- `AvailableTraits`, `PickedTokens`, `BuildFilters`, `ApplyFilters` and `FindFlowers` are proved equal to a function or predicate that states what they compute.
- `AddAll`, `CollectOptions`, `SortedSet` and `ExtractUniqueValues` are proved against membership and order properties: what the result contains, that it is sorted, and that it has no repetition.

The rest is functions and lemmas.

**Tokenising.** `split_trait_values` (app.py:46) runs `re.split` on the cell *as written* and lower-cases each fragment afterwards. It returns a list, so it keeps order and keeps duplicates. So `" to "` and `" and "` separate only when written in lower case, and `"A TO B"` is one token, `"a to b"`.

`extract_unique_values` lower-cases each cell *before* splitting (app.py:90-91), but `match_any` splits the raw cell (app.py:109). The model keeps this asymmetry. `Find.OfferedOptionCanMissItsRow` proves its consequence: a row whose cell is `"A TO B"` offers the option `"a"`, yet picking `"a"` does not select that row.

## Model

| member | source | states |
|---|---|---|
| Normalizer.BeforeParen | app.py:14 | `split(" (")[0]` is a prefix of the text that contains no `" ("` and is either the whole text or followed by `" ("` |
| Normalizer.Normalize | app.py:14 | a missing cell stays missing; a string cell comes out with no `" ("` in it and no whitespace at either end |
| Normalizer.NormalizeKeepsInfix | app.py:14 | the normalised string is the part before the first `" ("`, with only whitespace removed at its two ends |
| Normalizer.NormalizeFixesNormal | app.py:14 | every normalised cell is normal, and a cell is left unchanged exactly when it is already normal |
| Normalizer.NormalizeIdempotent | app.py:14 | normalising twice gives the same cell as normalising once |
| Normalizer.NormalizeExampleAnnotated | app.py:14 | `"Red (RGB ff0000)"` becomes `"Red"` |
| Normalizer.NormalizeExamplePlain | app.py:14 | a plain value such as `"Blue"` is kept as it is |
| Text.Strip | app.py:14 | `str.strip` leaves no whitespace at either end, and its result is empty exactly when the text is all whitespace |
| Text.StripKeepsInfix | app.py:14 | `str.strip` keeps a contiguous part of the text and removes only whitespace before and after it |
| Text.Lower | app.py:46 | `str.lower` keeps the length, turns each upper-case letter into its own lower-case letter (`'A'` to `'a'`, …, `'Z'` to `'z'`), keeps every other character and leaves no upper-case letter |
| Text.LowerOfLower | app.py:46 | lower-casing text that has no upper-case letter changes nothing |
| Text.Less | app.py:18 | Python's `<` on `str` never holds between a string and itself, and a proper prefix comes first |
| Text.LessIrreflexive | app.py:18 | no string is below itself |
| Text.LessAsymmetric | app.py:18 | two strings are never each below the other |
| Text.LessTransitive | app.py:18 | the order is transitive |
| Text.LessTotal | app.py:18 | any two different strings are ordered one way or the other, so `sorted` has one answer |
| Text.SortedDistinct | app.py:18 | `sorted(set(xs))` is strictly ascending and has exactly the members of `xs` |
| Text.AscendingUnique | app.py:93 | two strictly ascending lists with the same members are equal, so the sorted result is determined by its members |
| Data.Load | app.py:12-15 | loading keeps the columns and the number of rows, and each cell of each row becomes the normaliser's result for that cell, so missing cells stay missing and every cell is normal |
| Data.LoadFixesLoaded | app.py:14 | loading leaves a table unchanged exactly when every cell is already normal |
| Data.LoadIdempotent | app.py:14 | loading a loaded table changes nothing |
| Data.Names | app.py:18 | `dropna()` keeps at most one name per row |
| Data.NamesMembers | app.py:18 | a name survives `dropna()` exactly when some row carries it as its species name |
| Data.SpeciesList | app.py:18 | the species list is strictly ascending, so it is sorted and has no duplicates |
| Data.SpeciesListMembers | app.py:18 | a name is in the species list exactly when some row has it as its non-missing species name |
| Data.FirstRow | app.py:64 | the lookup finds the index of a row of that species with no such row before it, and finds nothing only when no row has that species |
| Data.ListedHasFirstRow | app.py:64 | `.iloc[0]` is defined for every species in the species list |
| Seqs.Distinct | app.py:103 | `list(set(xs))` has no repetition and exactly the members of `xs` |
| Seqs.FilterIsSubsequence | app.py:111 | a boolean-mask selection keeps the selected rows in table order |
| Seqs.FilterCounts | app.py:129 | a boolean-mask selection keeps each selected row as often as it occurs, and no other row |
| Seqs.FilterTwice | app.py:107-111 | selecting by one mask and then another is selecting by both at once |
| Dicts.Lookup | app.py:82 | a dict lookup finds nothing exactly when the key is absent, and otherwise returns a value stored under that key |
| Dicts.Assign | app.py:103 | assigning to a key keeps the existing key order and appends a new key at the end |
| Dicts.AssignLookup | app.py:103 | after assigning `v` to `k`, `k` maps to `v` and every other key keeps its value |
| Dicts.EntryIsLookup | app.py:107 | iterating `items()` of a dict with distinct keys yields each key with its looked-up value |
| Taxonomy.GroupNamesInOrder | app.py:23-38 | the group names come in declaration order, from "Blossoming" to "Water response" |
| Taxonomy.GroupNamesDistinct | app.py:23-38 | the fourteen group names are distinct |
| Taxonomy.GroupTraits | app.py:82 | `trait_groups[group]` is defined exactly for the fourteen group names |
| Taxonomy.GroupTraitsOfEach | app.py:23-38 | looking up each declared group gives the trait list declared for it |
| Tokenizer.FirstPrefix | app.py:46 | an alternative the alternation picks is one of the alternatives and a prefix of the text |
| Tokenizer.FirstPrefixIsFirst | app.py:46 | the alternation picks the earliest alternative that fits at that position |
| Tokenizer.FirstPrefixNone | app.py:46 | the alternation fails exactly when no alternative fits |
| Tokenizer.MatchDelimiter | app.py:46 | a separator matched at a position is one of `,`, ` - `, `–`, ` to `, ` and `, `+`, `-`, and it is a non-empty prefix of the rest of the text |
| Tokenizer.Split | app.py:46 | `re.split` returns one more fragment than it found separators |
| Tokenizer.SplitRejoins | app.py:46 | putting the matched separators back between the fragments of `re.split` gives the original text, and each separator is an alternative of the pattern |
| Tokenizer.SplitFragmentsFree | app.py:46 | no fragment of the split contains a match of the pattern |
| Tokenizer.SplitIsLeftmost | app.py:46 | `re.split` cuts the text the left-to-right way: the first fragment holds no position where the pattern matches, the separator is the match found right after it, and the rest is cut the same way |
| Tokenizer.LeftmostUnique | app.py:46 | there is only one left-to-right cut of a text |
| Tokenizer.LeftmostIsSplit | app.py:46 | fragments and separators are a left-to-right cut of the text if and only if they are what `re.split` returns |
| Tokenizer.ScanFree | app.py:46 | text containing no separator is not split |
| Tokenizer.Tokens | app.py:46 | every non-blank fragment contributes its stripped, lower-cased text, and there are no more tokens than fragments |
| Tokenizer.TokensInOrder | app.py:46 | the tokens are the non-blank fragments, stripped and lower-cased, in fragment order, duplicates kept |
| Tokenizer.TokenSource | app.py:46 | every token is the stripped, lower-cased text of some non-blank fragment |
| Tokenizer.SplitTraitValues | app.py:43-46 | a missing cell gives no tokens; every token is non-empty, stripped, lower-case and free of `,` `–` `+` `-` |
| Tokenizer.TokenIsFixedPoint | app.py:90-91 | every token of lower-case text splits into exactly itself |
| Tokenizer.UpperSplitsToItself | app.py:46 | text with no lower-case letter and no separator character is kept whole, as one lower-cased token |
| Tokenizer.UpperCaseToExample | app.py:46 | `"A TO B"` gives the single token `"a to b"`: the separator is case-sensitive |
| Tokenizer.LowerCaseToExample | app.py:46 | `"a to b"` is split at `" to "` and gives the token `"a"` |
| Find.AvailableMembers | app.py:80-82 | a trait is available exactly when it is a table column and some selected group lists it |
| Find.AvailableTraits | app.py:80-82 | the loop builds each selected group's traits that are columns, group after group, in group order |
| Find.OptionsSplitToThemselves | app.py:100-101 | every offered value splits back into exactly itself |
| Find.AddAll | app.py:91-92 | after the inner loop, the set holds exactly its old members and the items added |
| Find.CollectOptions | app.py:87-92 | the value set holds exactly the tokens of the lower-cased non-missing cells of the column |
| Find.SortedSet | app.py:93 | `sorted(value_set)` is strictly ascending and has exactly the members of the set |
| Find.ExtractUniqueValues | app.py:86-93 | the options are strictly ascending, every option is a token of some lower-cased cell of the column, and every such token is an option |
| Find.SelectedTokensMembers | app.py:99-101 | a token is selected exactly when it is a token of some picked value |
| Find.PicksFromOptions | app.py:98-101 | when every picked value is an offered option, re-splitting the picks returns them unchanged |
| Find.PickedTokens | app.py:99-101 | the loop collects the tokens of the picked values, in pick order |
| Find.TraitsWithTokensMembers | app.py:96-103 | a trait gets a filter exactly when it was selected and its picked values yield a token |
| Find.FiltersSkip | app.py:102 | a selected trait whose picks yield no token leaves the filters valid for the longer selection |
| Find.FiltersAdd | app.py:102-103 | assigning the deduplicated tokens of a trait keeps the filters valid for the longer selection |
| Find.BuildFilters | app.py:95-103 | the filters have one key per selected trait with a token picked, in selection order; each holds the trait's picked tokens, once each |
| Find.FilterKeysMembers | app.py:95-103 | a trait is a filter key exactly when it was selected and has a token picked |
| Find.MatchAny | app.py:108-110 | `match_any` can hold only for a present cell and a non-empty list of values |
| Find.MatchesAllAppend | app.py:107-111 | a row survives the first `i+1` filters exactly when it survives the first `i` and matches filter `i` |
| Find.ApplyFilters | app.py:105-111 | the filtering loop keeps, in table order, exactly the rows that match every filter |
| Find.MatchAnySameMembers | app.py:108-110 | matching depends only on the members of the value list, not on its order or repetitions |
| Find.FiltersMeanWanted | app.py:105-111 | a row passes the filters exactly when, for every selected trait with a token picked, the row's cell has one of those tokens |
| Find.MissingCellNeverKept | app.py:108-110 | a row whose cell is missing for a filtered trait is never kept |
| Find.FilteredAreWanted | app.py:105-111 | filtering trait by trait selects exactly the wanted rows, in table order |
| Find.Project | app.py:115 | each shown row has exactly the listed columns, with the row's own cells |
| Find.FindFlowers | app.py:95-119 | no token picked gives "no selection"; tokens picked but no wanted row gives "no matches"; otherwise the wanted rows are shown in table order, with the species column and the filtered traits |
| Find.LowerCellMatchesItsOptions | app.py:90-110 | a cell already in lower case matches every option it contributes |
| Find.OfferedOptionCanMissItsRow | app.py:90-110 | a cell `"A TO B"` offers the option `"a"`, but picking `"a"` does not match that cell |
| View.Entries | app.py:66 | a group's table holds exactly the pairs (trait, value) for the group's traits that have a value in the row |
| View.EntriesKeys | app.py:66 | the traits listed are the group's traits that have a value, in the group's order |
| View.GroupData | app.py:66 | the dict comprehension holds only traits of the group with their value in the row, and holds every such trait |
| View.GroupDataMeaning | app.py:66 | the dict comprehension lists each group trait that has a value once, with that value, in group order, and nothing else |
| View.SpeciesGroups | app.py:65-69 | no group shown is empty, and at most every group is shown |
| View.SpeciesGroupsInOrder | app.py:65-69 | the groups shown are exactly the groups with a non-empty table, in the group table's order, each once |
| View.SpeciesGroupsMembers | app.py:65-69 | a group is shown, with its table, exactly when its table is not empty |
| View.ShowEach | app.py:62-69 | each selected species is shown in selection order, with the groups of its first row |
| View.ViewTraits | app.py:61-71 | an empty selection gives "no selection"; otherwise one entry per selected species, in selection order |
| View.ShownValuesComeFromFirstRow | app.py:62-69 | every value shown is the species' first-row value for a trait that its group lists |
| Compare.CompareTraits | app.py:128-132 | an empty selection gives "no selection"; otherwise all columns are kept, and only rows of selected species are shown |
| Compare.CompareRows | app.py:129 | the compared rows keep table order, and every row of a selected species appears as often as in the table |
| Compare.SelectedSpeciesCompared | app.py:129 | the first row of every selected listed species is among the compared rows |

## Left out

- Streamlit is not modelled: page configuration, titles, the sidebar, multiselect widgets and `st.dataframe`/`st.info`/`st.warning` rendering. Selections are parameters and advisories are result values.
- `pd.read_csv` and `@st.cache_data` (app.py:11-13) are not modelled. `Data.Load` takes the table as read and models only the normalising step. A file that cannot be read is not modelled.
- Cells are only strings or missing. Numeric cells, pandas NaN floats and the `astype(str)`/`str(val)` conversions are not modelled.
- `set_index("Trait")` and `set_index("species_name")` only change presentation. `Find.Project` and `Compare.CompareTraits` keep the species column as an ordinary column.
- Text.Lower: only ASCII letters change case. The full Unicode `str.lower` is not modelled.
- Tokenizer.SplitTraitValues: the regex engine is not general. The fixed alternation is modelled directly, as a left-to-right scan where the first alternative wins.
- Find.BuildFilters: `list(set(...))` is modelled as first-occurrence order, but the contract promises only the members and no repetition. Python leaves that order open, and matching does not depend on it (`Find.MatchAnySameMembers`).
- Find.FindFlowers: the values picked for a trait are a free parameter, so they need not be the offered options. The link between them is `Find.PicksFromOptions`.
- Find.AvailableTraits and View.ShowEach take the group table as a parameter; the pages pass `Taxonomy.TraitGroups`.
- Find.FindFlowers requires every selected trait to be a table column. The page only offers available traits, which are columns. Any other trait would raise `KeyError` when `extract_unique_values` evaluates `df[trait]` (app.py:87, called at app.py:97).
- Find.ApplyFilters: does not model a crash in the source. Once one filter leaves no row, pandas gives the next `apply` an empty Series that is not boolean. Indexing with it selects no columns, so the filter after that raises `KeyError` at `filtered_df[trait]` (app.py:111). This needs at least three filters. The model keeps filtering and returns no rows. This is pandas dtype behaviour, which is not modelled.
- Find.FindFlowers: for the same reason, where the source raises `KeyError` at app.py:111 after a filter has left no row, the model returns "no matches".
- A table without a `species_name` column raises `KeyError` in the source (app.py:18, 64, 115, 129). The model reads a missing column as missing in every row, so `Data.Names` gives no species and `Find.Project` gives missing cells.
- View.ViewTraits requires the selected species to come from the species list, because the widget offers only those. For any other name `.iloc[0]` would raise `IndexError` at app.py:64.
