# Emission-line table: a Dafny model

This project models the core of *emission-lines*, a small web application
that lists astrophysical emission lines. The core has three parts.

- **The scraper's row normaliser** (`scripts/parseEmissionLines.js`). Every
  row of an HTML table becomes at most one emission-line record. The records
  are sorted by wavelength and renumbered 1..N.
- **The wavelength conversion** (`src/utils/wavelengthConversion.js`). It
  converts between vacuum and air wavelengths through the refractive index of
  standard air, and picks the wavelength to display for the chosen unit
  system.
- **The table component's query engine** (`src/components/EmissionLinesTable.jsx`).
  It covers:
  - common-line highlighting;
  - Greek-letter expansion of search terms ("Lyb" also finds "Lyβ");
  - the filter pipeline (search, wavelength range, common lines only);
  - the three-way column sort;
  - the state changes of a column click and of "clear filters".

## Modules

| File | Contents |
|---|---|
| `wrappers.dfy` | `Option` |
| `js_string.dfy` | The JavaScript string operations the code relies on: `trim`, the whitespace collapse `replace(/\s+/g, ' ')`, `toLowerCase`, `endsWith`, `includes` and `<` on strings. |
| `js_array.dfy` | `filter`, `map` and `some`, plus the sort. The sort is specified as a stable insertion sort, `SortBy`. It is proved to be a permutation, ordered and stable, and to be the only order with those three properties. It is implemented in place on an array. |
| `emission_data.dfy` | The record `EmissionLine` and the 2000 Å vacuum/air threshold. |
| `wavelength_conversion.dfy` | `vacuumToAir`, the ten-step `airToVacuum` loop and `getDisplayWavelength`. |
| `parse_emission_lines.dfy` | The per-row record builder, the row loop, the wavelength sort and the renumbering. |
| `emission_lines_table.dfy` | `isCommonLine`, `expandSearchTerm`, the `processedData` pipeline and the component state (`TableState`), with `handleSort` and `clearFilters`. |

## Modelling choices

### Numbers and parsing

- Floating point is modelled by `real`. `parseFloat` is a parameter of type
  `string -> Option<real>`, where `None` stands for `NaN`.
- JavaScript's falsy tests are written out:
  - `parseFloat(..) || null` maps both `NaN` and `0` to null (`NumberOrNull`);
  - `ionizationPotential || 0` becomes `GetOr(0.0)`;
  - `if (wavelengthMin)` tests for the empty string (`ParseBound`).

### The table and its component

- The scraper's HTML table is a sequence of rows. Each row is the list of
  its cells' text contents.
- The React state of the table is the class `TableState`. The handlers that
  change it are methods. `processedData` is a method that reassigns the row
  list stage by stage and sorts a copy in place. It is proved equal to the
  function `Process`, which states the pipeline as one expression.

### Behaviour of the code that the model keeps

The code behaves as follows, and so does the model:

- The code never checks that a wavelength is positive. A parsed record may
  carry any number.
- `VacuumToAir(0)` is 0. In the code, n becomes `Infinity` and `0 / Infinity`
  is 0.
- `airToVacuum(0)` is `NaN` in the code: `0 * Infinity`. The model therefore
  requires a non-zero air wavelength wherever one is converted. It proves
  that every record the normaliser produces meets this requirement
  (`NormalizedRecordsDisplayable`).
- The code's clean-up of the ion name replaces each Greek letter by itself.
  The ion text therefore passes through unchanged.
- The `transitionType === ' '` test can never fire, because a cleaned cell is
  never a lone space (`GetTextNeverSpace`).

## Model

| member | source | states |
|---|---|---|
| `WavelengthConversion.RefractiveIndex` | src/utils/wavelengthConversion.js:10 | The refractive index n(λ) of standard air exceeds 1 + 2.735182e-4 for every non-zero λ |
| `WavelengthConversion.VacuumToAir` | src/utils/wavelengthConversion.js:9-12 | The air wavelength keeps the sign of the vacuum wavelength and lies strictly closer to 0; 0 maps to 0 |
| `WavelengthConversion.AirToVacuumAfter` | src/utils/wavelengthConversion.js:26-29 | The iterate after any number of steps of λ ← λ_air · n(λ) is never 0, so the next step is always defined |
| `WavelengthConversion.AirToVacuumAfterMovesAway` | src/utils/wavelengthConversion.js:26-29 | After at least one step the iterate lies strictly further from 0 than λ_air, on the same side |
| `WavelengthConversion.AirToVacuum` | src/utils/wavelengthConversion.js:21-32 | The loop returns the iterate after exactly ten steps, starting from λ_air |
| `WavelengthConversion.FixedPointInvertsVacuumToAir` | src/utils/wavelengthConversion.js:14-16 | An exact fixed point of the step λ ← λ_air · n(λ) maps back to λ_air under `vacuumToAir`; the ten-step value is not claimed to be one |
| `WavelengthConversion.ConsistentIsDisplayable` | src/utils/wavelengthConversion.js:44-52 | A record whose vacuum flag agrees with the 2000 Å threshold never reaches the air-to-vacuum conversion with a 0 wavelength |
| `WavelengthConversion.GetDisplayWavelength` | src/utils/wavelengthConversion.js:41-63 | The stored wavelength when the record is already in the requested system; otherwise the ten-step air-to-vacuum value or `vacuumToAir` of it |
| `WavelengthConversion.DisplayChangesIffConverted` | src/utils/wavelengthConversion.js:41-63 | For a positive wavelength the display differs from the stored value exactly when a conversion applies; vacuum display never lowers it, air display never raises it |
| `ParseEmissionLines.GetText` | scripts/parseEmissionLines.js:24-26 | The cleaned text has no leading or trailing whitespace, no two adjacent spaces and only plain spaces, and the same non-space characters as the cell |
| `JsString.CollapseSpacesRun` | scripts/parseEmissionLines.js:25 | `replace(/\s+/g, ' ')` turns a whitespace run between a non-space end and a non-space start into exactly one space and collapses each side on its own, so "He  I" becomes "He I" and not "HeI" |
| `JsString.CollapseSpacesNoSpace` | scripts/parseEmissionLines.js:25 | Text without whitespace passes the collapse unchanged |
| `ParseEmissionLines.GetTextNeverSpace` | scripts/parseEmissionLines.js:68 | A cleaned cell is never a lone space |
| `ParseEmissionLines.NumberOrNull` | scripts/parseEmissionLines.js:39-40 | A number exactly when the text parses to a non-zero value, and then that value |
| `ParseEmissionLines.TransitionTypeOf` | scripts/parseEmissionLines.js:44 | Never empty; a text that is neither empty nor a lone space is kept; an empty text or a lone space gives "E1" |
| `ParseEmissionLines.TransitionTypeOfCell` | scripts/parseEmissionLines.js:68 | For a cleaned cell the type is "E1" exactly when the cell is empty or reads "E1"; a non-empty cell is kept |
| `ParseEmissionLines.BuildRecord` | scripts/parseEmissionLines.js:16-72 | A record exactly when the row is not the header, has at least 10 cells and its first cell parses; the record has the row index as id, the parsed wavelength, the cleaned wavelength text, and a vacuum flag agreeing with the 2000 Å threshold |
| `ParseEmissionLines.BuildRecordFields` | scripts/parseEmissionLines.js:38-47 | The ion, energies, configurations, terms, J transition, ionization potential and references come from cells 1 to 6, 8 and 9; the transition type is "E1" for an empty cell 7 and the cell text otherwise; the note is cell 10, or empty when there is no eleventh cell |
| `ParseEmissionLines.CollectRecords` | scripts/parseEmissionLines.js:16-73 | The row loop pushes at most one record per row |
| `ParseEmissionLines.CollectedRecordsFromRows` | scripts/parseEmissionLines.js:16-73 | Every pushed record is exactly what its own row (the one indexed by its id) builds |
| `ParseEmissionLines.CollectedRecordsInRowOrder` | scripts/parseEmissionLines.js:16-73 | Pushed records keep row order: their ids strictly increase |
| `ParseEmissionLines.CollectedRecordsComplete` | scripts/parseEmissionLines.js:16-73 | Every row that builds a record contributes it |
| `ParseEmissionLines.CollectedRecordsWellFormed` | scripts/parseEmissionLines.js:18-21 | No pushed record comes from the header or a short row, and each is consistent with the threshold |
| `ParseEmissionLines.WavelengthComparatorAgrees` | scripts/parseEmissionLines.js:76 | The comparator `a.wavelength - b.wavelength` is negative, positive or zero exactly as the ascending wavelength key orders the two records |
| `ParseEmissionLines.CollectRows` | scripts/parseEmissionLines.js:13-73 | The row loop over the table leaves exactly the collected records on the list, in row order |
| `ParseEmissionLines.Renumber` | scripts/parseEmissionLines.js:79-81 | Record k gets id k + 1; apart from the id, nothing changes |
| `ParseEmissionLines.AssignIds` | scripts/parseEmissionLines.js:79-81 | The in-place loop leaves the array renumbered |
| `ParseEmissionLines.NormalizeRows` | scripts/parseEmissionLines.js:16-81 | The row loop, the in-place sort and the renumbering give the collected records sorted by wavelength and renumbered |
| `ParseEmissionLines.Normalize` | scripts/parseEmissionLines.js:16-81 | The output has one record per collected record, numbered 1..N in order |
| `ParseEmissionLines.NormalizeNumbered` | scripts/parseEmissionLines.js:79-81 | The output has one entry per collected record, ids 1..N, and every entry is consistent |
| `ParseEmissionLines.NormalizeIsSortedRecords` | scripts/parseEmissionLines.js:76-81 | Apart from the ids, the output is the collected records stably sorted by wavelength |
| `ParseEmissionLines.NormalizePermutes` | scripts/parseEmissionLines.js:76 | Apart from the ids, the output is a permutation of the collected records |
| `ParseEmissionLines.NormalizeOrdered` | scripts/parseEmissionLines.js:76 | The output is in non-decreasing wavelength order |
| `ParseEmissionLines.NormalizeStable` | scripts/parseEmissionLines.js:76 | Records of equal wavelength keep their row order |
| `JsArray.SortInPlace` | src/components/EmissionLinesTable.jsx:101-123 | `Array.prototype.sort` in place: the array ends up holding the stable sort of its old contents |
| `JsArray.SortByPermutes` | src/components/EmissionLinesTable.jsx:101-123 | Sorting permutes its input |
| `JsArray.SortBySorted` | src/components/EmissionLinesTable.jsx:101-123 | Sorting leaves no element strictly before its predecessor in the chosen direction |
| `JsArray.SortByStable` | src/components/EmissionLinesTable.jsx:101-123 | Elements with equal keys keep their relative order |
| `JsArray.SortedStableUnique` | src/components/EmissionLinesTable.jsx:101-123 | Two orderings of the same elements that are both sorted and both keep the same relative order among equal keys are identical |
| `JsArray.SortByUnique` | src/components/EmissionLinesTable.jsx:101-123 | Any permutation that is sorted and stable is `SortBy`'s result, so every stable sort with this comparator gives the same order |
| `JsArray.SortByIdempotent` | src/components/EmissionLinesTable.jsx:101-123 | Sorting a sorted list changes nothing |
| `EmissionLinesTable.StripBrackets` | src/components/EmissionLinesTable.jsx:19 | `replace(/[\[\]]/g, '')` leaves no bracket, keeps every other character and changes a bracket-free label not at all |
| `EmissionLinesTable.StripBracketsConcat` | src/components/EmissionLinesTable.jsx:19 | Removing brackets from a concatenation removes them from each part separately |
| `EmissionLinesTable.BracketedLabelStripped` | src/components/EmissionLinesTable.jsx:19 | A label written as "[" + inner + "]" with no bracket inside strips to exactly inner, so "[O III]" gives "O III" |
| `EmissionLinesTable.StripBracketsAround` | src/components/EmissionLinesTable.jsx:19 | Parts that strip to nothing, added on both sides, leave only the middle's stripped text |
| `EmissionLinesTable.IsCommonLine` | src/components/EmissionLinesTable.jsx:17-21 | Common exactly when some listed label occurs in the ion text, or the ion text equals that label without brackets |
| `EmissionLinesTable.ContainingLabelIsCommon` | src/components/EmissionLinesTable.jsx:17-21 | Any ion text containing a listed label is common |
| `EmissionLinesTable.BareLabelIsCommon` | src/components/EmissionLinesTable.jsx:17-21 | A listed label written without its brackets is common |
| `EmissionLinesTable.CommonLineExample` | src/components/EmissionLinesTable.jsx:17-21 | The substring match also makes "Mg III" common, through "Mg II" |
| `EmissionLinesTable.DropLast` | src/components/EmissionLinesTable.jsx:43 | `slice(0, -n)` drops exactly the last n characters; it gives the empty string when n exceeds the length, and for n = 0, since `-0` is `0` |
| `EmissionLinesTable.AliasVariants` | src/components/EmissionLinesTable.jsx:40-46 | The loop body pushes at most one variant per alias entry |
| `EmissionLinesTable.AliasVariantsFilterMap` | src/components/EmissionLinesTable.jsx:40-46 | The alias variants are the table's entries whose Roman spelling ends the term, in table order, each rewritten to its Greek form |
| `EmissionLinesTable.AliasVariantsMeaning` | src/components/EmissionLinesTable.jsx:40-46 | A string is a variant exactly when some entry's Roman spelling ends the term and the string is the term with that suffix replaced by the entry's Greek letter |
| `EmissionLinesTable.SearchVariants` | src/components/EmissionLinesTable.jsx:35-49 | The lower-cased term comes first, followed by the alias variants |
| `EmissionLinesTable.ExpandSearchTerm` | src/components/EmissionLinesTable.jsx:35-49 | The loop over the alias table returns exactly the lower-cased term followed by the alias variants |
| `EmissionLinesTable.SuffixVariantSearched` | src/components/EmissionLinesTable.jsx:40-46 | A term ending in a Roman spelling is also searched for with the Greek letter in its place ("Lyb" as "lyβ") |
| `EmissionLinesTable.NormalizedRecordsDisplayable` | src/components/EmissionLinesTable.jsx:60-64 | Every record the normaliser produces can be augmented in either unit system |
| `EmissionLinesTable.Augment` | src/components/EmissionLinesTable.jsx:60-64 | One row per record, in order, carrying the display wavelength and the common-line flag of its record |
| `EmissionLinesTable.AugmentKeepsRecords` | src/components/EmissionLinesTable.jsx:60-64 | Dropping the two added fields gives back the records, unchanged and in order |
| `EmissionLinesTable.KeepMembership` | src/components/EmissionLinesTable.jsx:69-97 | Each filter keeps exactly the rows that satisfy its condition: some variant occurs in the lower-cased ion, configurations or references; display wavelength ≥ min; ≤ max, bounds included; common |
| `EmissionLinesTable.SortValueOf` | src/components/EmissionLinesTable.jsx:104-118 | The wavelength column reads the display wavelength; the ionization-potential column reads the potential, 0 when missing; the ion and transition-type columns read their own field, lower-cased |
| `EmissionLinesTable.ComparatorConsistent` | src/components/EmissionLinesTable.jsx:101-123 | The comparator is negative exactly when the key puts a strictly first in the configured direction, zero exactly on equal keys, and antisymmetric |
| `EmissionLinesTable.NextSortConfig` | src/components/EmissionLinesTable.jsx:128-133 | The clicked column becomes the sort column; the order is descending exactly when that column was already sorted ascending |
| `EmissionLinesTable.NextSortConfigTwice` | src/components/EmissionLinesTable.jsx:128-133 | Two clicks on the sort column restore the configuration; two clicks on another column leave it sorted descending |
| `EmissionLinesTable.ParseBound` | src/components/EmissionLinesTable.jsx:82-93 | A bound exists exactly when the field is non-empty and parses, and it is the parsed value |
| `EmissionLinesTable.SearchStage` | src/components/EmissionLinesTable.jsx:67-79 | The search never adds rows, and with an empty term it keeps every row |
| `EmissionLinesTable.MinStage` | src/components/EmissionLinesTable.jsx:82-87 | The minimum filter never adds rows, and without a bound it keeps every row |
| `EmissionLinesTable.MaxStage` | src/components/EmissionLinesTable.jsx:88-93 | The maximum filter never adds rows, and without a bound it keeps every row |
| `EmissionLinesTable.CommonStage` | src/components/EmissionLinesTable.jsx:96-98 | The common-only filter never adds rows, and when unticked it keeps every row |
| `EmissionLinesTable.Filtered` | src/components/EmissionLinesTable.jsx:60-98 | The filter stages never add rows |
| `EmissionLinesTable.FilteredMembership` | src/components/EmissionLinesTable.jsx:60-98 | A row survives the filters exactly when it is an augmented record that passes every active filter; a bound that is empty or fails to parse is ignored |
| `EmissionLinesTable.Process` | src/components/EmissionLinesTable.jsx:59-126 | The sort keeps every filtered row, so the table shows as many rows as pass the filters and never more than there are records |
| `EmissionLinesTable.ProcessMembership` | src/components/EmissionLinesTable.jsx:59-126 | A row is shown exactly when it is an augmented record that passes every active filter |
| `EmissionLinesTable.ProcessIsStableSort` | src/components/EmissionLinesTable.jsx:101-125 | The shown rows are a permutation of the filtered rows, ordered by the column in the configured direction, with rows of equal key in filtered order |
| `EmissionLinesTable.ProcessSorted` | src/components/EmissionLinesTable.jsx:101-123 | No shown row's column value comes strictly before an earlier row's in the configured direction |
| `EmissionLinesTable.ProcessWavelengthOrdered` | src/components/EmissionLinesTable.jsx:104-106 | Sorted by wavelength, the shown display wavelengths never decrease (ascending) or never increase (descending) |
| `EmissionLinesTable.ProcessPotentialOrdered` | src/components/EmissionLinesTable.jsx:107-109 | Sorted by ionization potential, the shown potentials, 0 when missing, never decrease (ascending) or never increase (descending) |
| `EmissionLinesTable.ProcessIonOrdered` | src/components/EmissionLinesTable.jsx:110-121 | Sorted by ion, the lower-cased ions are in lexicographic order, or its reverse when descending |
| `EmissionLinesTable.NoFilterShowsAll` | src/components/EmissionLinesTable.jsx:59-126 | With no search term, no bound that parses and common-only off, every record is shown |
| `EmissionLinesTable.TableState.constructor` | src/components/EmissionLinesTable.jsx:52-56 | The initial state sorts by wavelength, ascending, and sets no filter |
| `EmissionLinesTable.TableState.HandleSort` | src/components/EmissionLinesTable.jsx:128-133 | Only the sort configuration changes, to `NextSortConfig` of the old one |
| `EmissionLinesTable.TableState.ClearFilters` | src/components/EmissionLinesTable.jsx:140-145 | The search term, both bounds and the common-only flag are reset; the sort configuration is kept |
| `EmissionLinesTable.TableState.ProcessedData` | src/components/EmissionLinesTable.jsx:59-126 | The stage-by-stage filtering and the in-place sort give exactly `Process` of the current state |

## Left out

- `formatWavelength` (`toFixed`) is not modelled. It only formats numbers as text, and the model has no decimal formatting.
- Reading the HTML file, cheerio's DOM traversal, the unused `getHtml` helper, writing the JSON file and the console output are not modelled: they are I/O. The model starts from the cells' text contents.
- `src/App.jsx` is not part of this model. It only loads the data and holds the vacuum/air switch, which is a parameter here.
- The JSX rendering, `getSortIndicator` and the input `onChange` setters are not modelled. They are presentation, and the setters only store the typed text in state.
- React's memoisation and re-rendering are not modelled. `processedData` is a method over the current state.
- Floating point is modelled by reals. Rounding, `Infinity` and `NaN` values beyond those named above, and the convergence of the ten-step loop are not modelled.
- `parseFloat`'s grammar is not modelled. It is a parameter.
- `toLowerCase` is modelled for ASCII A–Z and the unaccented Greek capitals Α–Ω (U+0391–U+03A9) only. Σ always becomes σ, where JavaScript gives ς at the end of a word. Every other character, accented Greek capitals such as Ά included, is left unchanged.
- String `<` compares code points here, not UTF-16 code units. The two differ only outside the Basic Multilingual Plane.
- Engine sorting: `Array.prototype.sort` is modelled as a stable insertion sort. The algorithm an engine uses is not modelled; every stable sort with this comparator gives the same order (`SortByUnique`, with `ComparatorConsistent` relating the comparator to the key order).
- `EmissionLinesTable.TableState.ProcessedData`: sorts an array copy of the row list rather than the JavaScript array itself. The two are observably the same, because the list is fresh.
- `WavelengthConversion.AirToVacuum`: requires a non-zero air wavelength. The code returns `NaN` for 0.
- `EmissionLinesTable.Augment`: requires that no record is an air wavelength of 0 shown in vacuum, for the same reason. The same holds for `Filtered`, `Process` and `ProcessedData`, which call it.
- `EmissionLinesTable.KeepMatching`, `KeepAtLeast`, `KeepAtMost`, `KeepCommon`: their own contracts bound the length only. Membership is stated by `KeepMembership`. That the kept rows keep their relative order is not stated; it shows only through the stability clause of `ProcessIsStableSort`.
- `EmissionLinesTable.Comparator`: has no contract of its own. Its meaning is stated by `ComparatorConsistent`.
- `EmissionLinesTable.SearchVariants`: no concrete term is expanded to its exact list. The suffix rule is proved for every term and every alias (`SuffixVariantSearched`, `AliasVariantsMeaning`).
