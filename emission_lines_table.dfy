/**
 * The query engine of the emission-line table: common-line classification,
 * Greek-alias expansion of search terms, the filter pipeline, the column sort
 * and the component state that drives them.
 */
module EmissionLinesTable {
  import opened Wrappers
  import opened JsString
  import opened JsArray
  import opened EmissionData
  import opened WavelengthConversion
  import ParseEmissionLines

  // ---------------------------------------------------------------------
  // Common lines
  // ---------------------------------------------------------------------

  /** The labels of the lines highlighted as common, in table order. */
  const COMMON_LINES: seq<string> := [
    "Hα", "Hβ", "Hγ", "Hδ", "Lyα", "Lyβ",
    "[O III]", "[O II]", "[O I]",
    "[N II]", "[N I]",
    "[S II]", "[S III]",
    "[Ne III]", "[Ne V]",
    "He I", "He II",
    "C IV", "C III]", "C II]",
    "Mg II", "Ca II",
    "[Fe VII]", "[Fe X]", "[Fe XIV]"
  ]

  predicate IsBracket(c: char) {
    c == '[' || c == ']'
  }

  /** `common.replace(/[\[\]]/g, '')`: the label with every square bracket removed. */
  function StripBrackets(common: string): (bare: string)
    ensures |bare| <= |common|
    ensures forall i :: 0 <= i < |bare| ==> !IsBracket(bare[i])
    ensures forall i :: 0 <= i < |common| && !IsBracket(common[i]) ==> common[i] in bare
    ensures (forall i :: 0 <= i < |common| ==> !IsBracket(common[i])) ==> bare == common
  {
    if common == [] then []
    else
      var rest := StripBrackets(common[1..]);
      assert forall i :: 1 <= i < |common| ==> common[i] == common[1..][i - 1];
      (if IsBracket(common[0]) then [] else [common[0]]) + rest
  }

  /** Bracket removal works character by character: it distributes over concatenation. */
  lemma {:induction false} StripBracketsConcat(a: string, b: string)
    ensures StripBrackets(a + b) == StripBrackets(a) + StripBrackets(b)
    decreases |a|
  {
    if a == [] {
      assert a + b == b;
    } else {
      assert (a + b)[0] == a[0] && (a + b)[1..] == a[1..] + b;
      StripBracketsConcat(a[1..], b);
    }
  }

  /**
   * A bracketed label such as "[O III]" loses exactly its two brackets: the
   * characters inside are kept in order and in number.
   */
  lemma BracketedLabelStripped(inner: string)
    requires forall i :: 0 <= i < |inner| ==> !IsBracket(inner[i])
    ensures StripBrackets("[" + inner + "]") == inner
  {
    var open, close := "[", "]";
    assert StripBrackets(open) == [] && StripBrackets(close) == [];
    StripBracketsAround(open, inner, close);
  }

  /** Text that strips to nothing on either side leaves only the middle's stripped text. */
  lemma StripBracketsAround(a: string, b: string, c: string)
    requires StripBrackets(a) == [] && StripBrackets(c) == []
    ensures StripBrackets(a + b + c) == StripBrackets(b)
  {
    StripBracketsConcat(a + b, c);
    StripBracketsConcat(a, b);
    assert StripBrackets(a + b) + [] == StripBrackets(a + b);
    assert [] + StripBrackets(b) == StripBrackets(b);
  }

  /** A label marks `ion` as common: the label occurs in it, or `ion` is the label without brackets. */
  predicate MatchesLabel(ion: string, common: string) {
    Includes(ion, common) || ion == StripBrackets(common)
  }

  /** `isCommonLine`: some label of `COMMON_LINES` marks the ion as common. */
  function IsCommonLine(ion: string): (common: bool)
    ensures common <==> exists i :: 0 <= i < |COMMON_LINES| && MatchesLabel(ion, COMMON_LINES[i])
  {
    Any(COMMON_LINES, common => MatchesLabel(ion, common))
  }

  /** Any ion whose text contains a common label, bracketed as listed, is common. */
  lemma ContainingLabelIsCommon(prefix: string, i: nat, suffix: string)
    requires i < |COMMON_LINES|
    ensures IsCommonLine(prefix + COMMON_LINES[i] + suffix)
  {
    IncludesInfix(prefix, COMMON_LINES[i], suffix);
  }

  /** A listed label written without its brackets is still common. */
  lemma BareLabelIsCommon(i: nat)
    requires i < |COMMON_LINES|
    ensures IsCommonLine(StripBrackets(COMMON_LINES[i]))
  {
  }

  /**
   * The match is by substring, so an ion whose name merely extends a label
   * is common as well: "Mg III" contains "Mg II".
   */
  lemma CommonLineExample()
    ensures IsCommonLine("Mg III")
  {
    IncludesInfix([], "Mg II", "I");
    assert [] + "Mg II" + "I" == "Mg III";
    assert MatchesLabel("Mg III", COMMON_LINES[20]);
  }

  // ---------------------------------------------------------------------
  // Search-term expansion
  // ---------------------------------------------------------------------

  /** The Roman spellings of Greek letters and the letters they stand for, in table order. */
  const GREEK_ALIASES: seq<(string, string)> := [
    ("a", "α"), ("alpha", "α"),
    ("b", "β"), ("beta", "β"),
    ("g", "γ"), ("gamma", "γ"),
    ("d", "δ"), ("delta", "δ"),
    ("e", "ε"), ("epsilon", "ε"),
    ("z", "ζ"), ("zeta", "ζ"),
    ("h", "η"), ("eta", "η")
  ]

  /**
   * `s.slice(0, -n)`: `s` without its last `n` characters, empty if it is
   * shorter; `-0` is `0`, so `n = 0` gives the empty string as well.
   */
  function DropLast(s: string, n: nat): (r: string)
    ensures 0 < n <= |s| ==> s == r + s[|s| - n..]
    ensures n == 0 || n > |s| ==> r == []
  {
    s[..if 0 < n <= |s| then |s| - n else 0]
  }

  /** The alias applies: the lower-cased term ends with its Roman spelling. */
  function EndsWithAlias(lower: string): ((string, string)) -> bool {
    (alias: (string, string)) => EndsWith(lower, alias.0)
  }

  /** The variant an alias gives: the Roman suffix replaced by the Greek letter. */
  function ReplaceAlias(lower: string): ((string, string)) -> string {
    (alias: (string, string)) => DropLast(lower, |alias.0|) + alias.1
  }

  /**
   * The variants the alias entries `aliases` give for the lower-cased term,
   * in table order: one per entry whose Roman spelling ends the term.
   */
  function AliasVariants(lower: string, aliases: seq<(string, string)>): (variants: seq<string>)
    ensures |variants| <= |aliases|
  {
    if aliases == [] then []
    else
      var alias := aliases[|aliases| - 1];
      AliasVariants(lower, aliases[..|aliases| - 1]) +
        (if EndsWith(lower, alias.0) then [DropLast(lower, |alias.0|) + alias.1] else [])
  }

  /**
   * The variants are the entries whose Roman spelling ends the term, kept in
   * table order (a filter), each rewritten to its Greek form (a map).
   */
  lemma {:induction false} AliasVariantsFilterMap(lower: string, aliases: seq<(string, string)>)
    ensures AliasVariants(lower, aliases) == Map(Filter(aliases, EndsWithAlias(lower)), ReplaceAlias(lower))
    decreases |aliases|
  {
    if aliases != [] {
      var init := aliases[..|aliases| - 1];
      var alias := aliases[|aliases| - 1];
      AliasVariantsFilterMap(lower, init);
      assert aliases == init + [alias];
      FilterSnoc(init, alias, EndsWithAlias(lower));
      if EndsWith(lower, alias.0) {
        MapSnoc(Filter(init, EndsWithAlias(lower)), alias, ReplaceAlias(lower));
      } else {
        assert Filter(aliases, EndsWithAlias(lower)) == Filter(init, EndsWithAlias(lower));
      }
    }
  }

  /**
   * A string is one of the variants exactly when some entry's Roman spelling
   * ends the term and the string is the term with that suffix replaced by
   * the entry's Greek letter; the part before the suffix is kept.
   */
  lemma AliasVariantsMeaning(lower: string, aliases: seq<(string, string)>, variant: string)
    ensures variant in AliasVariants(lower, aliases) <==>
      exists k :: 0 <= k < |aliases| && EndsWith(lower, aliases[k].0) &&
        variant == DropLast(lower, |aliases[k].0|) + aliases[k].1
  {
    AliasVariantsFilterMap(lower, aliases);
    MapFilterMembership(aliases, EndsWithAlias(lower), ReplaceAlias(lower), variant);
  }

  /** What `expandSearchTerm` returns: the lower-cased term, then its alias variants. */
  function SearchVariants(term: string): (variants: seq<string>)
    ensures |variants| >= 1 && variants[0] == ToLower(term)
    ensures variants[1..] == AliasVariants(ToLower(term), GREEK_ALIASES)
  {
    var lower := ToLower(term);
    [lower] + AliasVariants(lower, GREEK_ALIASES)
  }

  /** `expandSearchTerm`: pushes a variant for every alias that ends the lower-cased term. */
  method ExpandSearchTerm(term: string) returns (variants: seq<string>)
    ensures variants == SearchVariants(term)
  {
    var lowerTerm := ToLower(term);
    variants := [lowerTerm];
    for k := 0 to |GREEK_ALIASES|
      invariant variants == [lowerTerm] + AliasVariants(lowerTerm, GREEK_ALIASES[..k])
    {
      var (roman, greek) := GREEK_ALIASES[k];
      AliasVariantsStep(lowerTerm, GREEK_ALIASES, k);
      if EndsWith(lowerTerm, roman) {
        variants := variants + [DropLast(lowerTerm, |roman|) + greek];
      }
    }
    assert GREEK_ALIASES[..|GREEK_ALIASES|] == GREEK_ALIASES;
  }

  /** Taking one more entry of the table adds its variant, if any, at the end. */
  lemma AliasVariantsStep(lower: string, aliases: seq<(string, string)>, k: nat)
    requires k < |aliases|
    ensures AliasVariants(lower, aliases[..k + 1]) == AliasVariants(lower, aliases[..k]) +
      (if EndsWith(lower, aliases[k].0) then [DropLast(lower, |aliases[k].0|) + aliases[k].1] else [])
  {
    assert aliases[..k + 1][..k] == aliases[..k];
  }

  /**
   * A term whose lower-cased form ends with a Roman spelling from the table
   * is also searched for with that spelling replaced by the Greek letter:
   * "Lyb" is searched for as "lyβ" too, "Ha" as "hα".
   */
  lemma SuffixVariantSearched(term: string, prefix: string, k: nat)
    requires k < |GREEK_ALIASES|
    requires ToLower(term) == prefix + GREEK_ALIASES[k].0
    ensures prefix + GREEK_ALIASES[k].1 in SearchVariants(term)
  {
    var roman := GREEK_ALIASES[k].0;
    assert DropLast(prefix + roman, |roman|) == prefix;
    assert (prefix + roman)[|prefix + roman| - |roman|..] == roman;
    AliasVariantsMeaning(prefix + roman, GREEK_ALIASES, prefix + GREEK_ALIASES[k].1);
  }

  // ---------------------------------------------------------------------
  // Rows as displayed
  // ---------------------------------------------------------------------

  /** A record together with the two fields the table adds to it. */
  datatype DisplayLine = DisplayLine(line: EmissionLine, displayWavelength: real, isCommon: bool)

  /** No record is an air wavelength of 0 shown in vacuum, which JavaScript turns into NaN. */
  predicate AllDisplayable(data: seq<EmissionLine>, showVacuum: bool) {
    forall k :: 0 <= k < |data| ==> Displayable(data[k], showVacuum)
  }

  /** The records the normaliser produces can all be displayed, in either unit system. */
  lemma NormalizedRecordsDisplayable(rows: seq<ParseEmissionLines.Row>, parse: FloatParser, showVacuum: bool)
    ensures AllDisplayable(ParseEmissionLines.Normalize(rows, parse), showVacuum)
  {
    var data := ParseEmissionLines.Normalize(rows, parse);
    ParseEmissionLines.NormalizeNumbered(rows, parse);
    forall k | 0 <= k < |data|
      ensures Displayable(data[k], showVacuum)
    {
      ConsistentIsDisplayable(data[k], showVacuum);
    }
  }

  /** `data.map(...)`: every record, in order, with its display wavelength and common-line flag. */
  function Augment(data: seq<EmissionLine>, showVacuum: bool): (rows: seq<DisplayLine>)
    requires AllDisplayable(data, showVacuum)
    ensures |rows| == |data|
    ensures forall k :: 0 <= k < |data| ==>
      rows[k].displayWavelength == GetDisplayWavelength(data[k], showVacuum) &&
      rows[k].isCommon == IsCommonLine(data[k].ion)
  {
    seq(|data|, k requires 0 <= k < |data| =>
      DisplayLine(data[k], GetDisplayWavelength(data[k], showVacuum), IsCommonLine(data[k].ion)))
  }

  /** Dropping the two added fields gives back the records unchanged and in order. */
  lemma AugmentKeepsRecords(data: seq<EmissionLine>, showVacuum: bool)
    requires AllDisplayable(data, showVacuum)
    ensures Map(Augment(data, showVacuum), (row: DisplayLine) => row.line) == data
  {
  }

  // ---------------------------------------------------------------------
  // Filters
  // ---------------------------------------------------------------------

  /** The variant occurs in the lower-cased ion, configurations or references. */
  predicate MatchesVariant(row: DisplayLine, variant: string) {
    Includes(ToLower(row.line.ion), variant) ||
    Includes(ToLower(row.line.configurations), variant) ||
    Includes(ToLower(row.line.references), variant)
  }

  /** Some search variant matches the row. */
  predicate MatchesSearch(row: DisplayLine, variants: seq<string>) {
    Any(variants, variant => MatchesVariant(row, variant))
  }

  /** The search filter: the rows some variant matches. */
  function KeepMatching(rows: seq<DisplayLine>, variants: seq<string>): (kept: seq<DisplayLine>)
    ensures |kept| <= |rows|
  {
    Filter(rows, row => MatchesSearch(row, variants))
  }

  /** The minimum filter: the rows displayed at `min` or above. */
  function KeepAtLeast(rows: seq<DisplayLine>, min: real): (kept: seq<DisplayLine>)
    ensures |kept| <= |rows|
  {
    Filter(rows, (row: DisplayLine) => row.displayWavelength >= min)
  }

  /** The maximum filter: the rows displayed at `max` or below. */
  function KeepAtMost(rows: seq<DisplayLine>, max: real): (kept: seq<DisplayLine>)
    ensures |kept| <= |rows|
  {
    Filter(rows, (row: DisplayLine) => row.displayWavelength <= max)
  }

  /** The common-only filter. */
  function KeepCommon(rows: seq<DisplayLine>): (kept: seq<DisplayLine>)
    ensures |kept| <= |rows|
  {
    Filter(rows, (row: DisplayLine) => row.isCommon)
  }

  /**
   * Each filter keeps exactly the rows meeting its condition: some variant
   * matches; the display wavelength is at least the minimum, or at most the
   * maximum, bounds included; the line is common.
   */
  lemma KeepMembership(rows: seq<DisplayLine>, row: DisplayLine, variants: seq<string>, min: real, max: real)
    ensures row in KeepMatching(rows, variants) <==>
      row in rows && exists i :: 0 <= i < |variants| && MatchesVariant(row, variants[i])
    ensures row in KeepAtLeast(rows, min) <==> row in rows && row.displayWavelength >= min
    ensures row in KeepAtMost(rows, max) <==> row in rows && row.displayWavelength <= max
    ensures row in KeepCommon(rows) <==> row in rows && row.isCommon
  {
  }

  /** A bound field sets a bound only when it is non-empty and `parseFloat` does not give NaN. */
  function ParseBound(parse: FloatParser, text: string): (bound: Option<real>)
    ensures bound.Some? <==> text != [] && parse(text).Some?
    ensures bound.Some? ==> bound == parse(text)
  {
    if text == [] then None else parse(text)
  }

  // ---------------------------------------------------------------------
  // Sorting
  // ---------------------------------------------------------------------

  /** The sortable columns. */
  datatype SortKey = Wavelength | Ion | TransitionType | IonizationPotential

  datatype SortConfig = SortConfig(key: SortKey, direction: Direction)

  /**
   * The value the comparator reads for a column: the display wavelength; the
   * ionization potential, 0 when there is none; the lower-cased text otherwise.
   */
  function SortValueOf(key: SortKey, row: DisplayLine): (v: SortValue)
    ensures v.Num? <==> key == Wavelength || key == IonizationPotential
    ensures key == Wavelength ==> v == Num(row.displayWavelength)
    ensures key == IonizationPotential ==> v == Num(row.line.ionizationPotential.GetOr(0.0))
    ensures key == IonizationPotential && row.line.ionizationPotential.None? ==> v == Num(0.0)
    ensures key == Ion ==> v == Text(ToLower(row.line.ion))
    ensures key == TransitionType ==> v == Text(ToLower(row.line.transitionType))
    ensures v.Text? ==> ToLower(v.text) == v.text
  {
    match key
    case Wavelength => Num(row.displayWavelength)
    case IonizationPotential => Num(row.line.ionizationPotential.GetOr(0.0))
    case Ion => ToLowerIdempotent(row.line.ion); Text(ToLower(row.line.ion))
    case TransitionType => ToLowerIdempotent(row.line.transitionType); Text(ToLower(row.line.transitionType))
  }

  function SortKeyOf(key: SortKey): DisplayLine -> SortValue {
    row => SortValueOf(key, row)
  }

  /** The comparator handed to `sort`: -1, 1 or 0. */
  function Comparator(config: SortConfig, a: DisplayLine, b: DisplayLine): int {
    var x := SortValueOf(config.key, a);
    var y := SortValueOf(config.key, b);
    if ValueLess(x, y) then (if config.direction == Asc then -1 else 1)
    else if ValueLess(y, x) then (if config.direction == Asc then 1 else -1)
    else 0
  }

  /**
   * The comparator is negative exactly when the sort puts `a` strictly first,
   * zero exactly on equal keys, and antisymmetric: it is a consistent
   * comparator, so every stable sort by it gives the same order as `SortBy`.
   */
  lemma ComparatorConsistent(config: SortConfig, a: DisplayLine, b: DisplayLine)
    ensures Comparator(config, a, b) < 0 <==>
      Before(config.direction, SortValueOf(config.key, a), SortValueOf(config.key, b))
    ensures Comparator(config, a, b) == 0 <==> SortValueOf(config.key, a) == SortValueOf(config.key, b)
    ensures Comparator(config, a, b) == -Comparator(config, b, a)
  {
    var x := SortValueOf(config.key, a);
    var y := SortValueOf(config.key, b);
    BeforeTotal(Asc, x, y);
    BeforeIrreflexive(Asc, x);
    if ValueLess(x, y) && ValueLess(y, x) {
      BeforeTransitive(Asc, x, y, x);
    }
  }

  /** `handleSort`: a second click on the ascending column reverses it; any other click sorts ascending. */
  function NextSortConfig(prev: SortConfig, key: SortKey): (next: SortConfig)
    ensures next.key == key
    ensures next.direction == Desc <==> prev.key == key && prev.direction == Asc
  {
    SortConfig(key, if prev.key == key && prev.direction == Asc then Desc else Asc)
  }

  /** Clicking the same column twice restores its order; a new column ends up descending. */
  lemma NextSortConfigTwice(prev: SortConfig, key: SortKey)
    ensures NextSortConfig(NextSortConfig(prev, key), key) ==
      if prev.key == key then prev else SortConfig(key, Desc)
  {
  }

  // ---------------------------------------------------------------------
  // The pipeline
  // ---------------------------------------------------------------------

  /** The component state the pipeline reads. */
  datatype Query = Query(
    sortConfig: SortConfig,
    searchTerm: string,
    wavelengthMin: string,
    wavelengthMax: string,
    showCommonOnly: bool)

  /** The search stage: active only for a non-empty term. */
  function SearchStage(rows: seq<DisplayLine>, searchTerm: string): (kept: seq<DisplayLine>)
    ensures |kept| <= |rows|
    ensures searchTerm == [] ==> kept == rows
  {
    if searchTerm == [] then rows else KeepMatching(rows, SearchVariants(searchTerm))
  }

  /** The minimum stage: active only when the field gives a bound. */
  function MinStage(rows: seq<DisplayLine>, min: Option<real>): (kept: seq<DisplayLine>)
    ensures |kept| <= |rows|
    ensures min.None? ==> kept == rows
  {
    if min.Some? then KeepAtLeast(rows, min.value) else rows
  }

  /** The maximum stage: active only when the field gives a bound. */
  function MaxStage(rows: seq<DisplayLine>, max: Option<real>): (kept: seq<DisplayLine>)
    ensures |kept| <= |rows|
    ensures max.None? ==> kept == rows
  {
    if max.Some? then KeepAtMost(rows, max.value) else rows
  }

  /** The common-only stage: active only when the box is ticked. */
  function CommonStage(rows: seq<DisplayLine>, showCommonOnly: bool): (kept: seq<DisplayLine>)
    ensures |kept| <= |rows|
    ensures !showCommonOnly ==> kept == rows
  {
    if showCommonOnly then KeepCommon(rows) else rows
  }

  /** Augment, then search, minimum, maximum and common-only, each stage filtering the previous one. */
  function Filtered(data: seq<EmissionLine>, showVacuum: bool, query: Query, parse: FloatParser): (rows: seq<DisplayLine>)
    requires AllDisplayable(data, showVacuum)
    ensures |rows| <= |data|
  {
    var searched := SearchStage(Augment(data, showVacuum), query.searchTerm);
    var aboveMin := MinStage(searched, ParseBound(parse, query.wavelengthMin));
    var belowMax := MaxStage(aboveMin, ParseBound(parse, query.wavelengthMax));
    CommonStage(belowMax, query.showCommonOnly)
  }

  /** `processedData`: the filtered rows, stably sorted by the configured column and direction. */
  function Process(data: seq<EmissionLine>, showVacuum: bool, query: Query, parse: FloatParser): (rows: seq<DisplayLine>)
    requires AllDisplayable(data, showVacuum)
    ensures |rows| == |Filtered(data, showVacuum, query, parse)| && |rows| <= |data|
  {
    SortBy(Filtered(data, showVacuum, query, parse), SortKeyOf(query.sortConfig.key), query.sortConfig.direction)
  }

  /** What a row must satisfy to stay in the table. */
  predicate Passes(row: DisplayLine, query: Query, parse: FloatParser) {
    var min := ParseBound(parse, query.wavelengthMin);
    var max := ParseBound(parse, query.wavelengthMax);
    (query.searchTerm != [] ==>
      exists i :: 0 <= i < |SearchVariants(query.searchTerm)| && MatchesVariant(row, SearchVariants(query.searchTerm)[i])) &&
    (min.Some? ==> row.displayWavelength >= min.value) &&
    (max.Some? ==> row.displayWavelength <= max.value) &&
    (query.showCommonOnly ==> row.isCommon)
  }

  /** A row survives the filters exactly when it is an augmented record that passes every active one. */
  lemma FilteredMembership(data: seq<EmissionLine>, showVacuum: bool, query: Query, parse: FloatParser, row: DisplayLine)
    requires AllDisplayable(data, showVacuum)
    ensures row in Filtered(data, showVacuum, query, parse) <==>
      row in Augment(data, showVacuum) && Passes(row, query, parse)
  {
    var min := ParseBound(parse, query.wavelengthMin);
    var max := ParseBound(parse, query.wavelengthMax);
    var variants := SearchVariants(query.searchTerm);
    var augmented := Augment(data, showVacuum);
    var searched := SearchStage(augmented, query.searchTerm);
    var aboveMin := MinStage(searched, min);
    var belowMax := MaxStage(aboveMin, max);
    KeepMembership(augmented, row, variants, min.GetOr(0.0), max.GetOr(0.0));
    KeepMembership(searched, row, variants, min.GetOr(0.0), max.GetOr(0.0));
    KeepMembership(aboveMin, row, variants, min.GetOr(0.0), max.GetOr(0.0));
    KeepMembership(belowMax, row, variants, min.GetOr(0.0), max.GetOr(0.0));
  }

  /** A row is shown exactly when it is an augmented record that passes every active filter. */
  lemma ProcessMembership(data: seq<EmissionLine>, showVacuum: bool, query: Query, parse: FloatParser, row: DisplayLine)
    requires AllDisplayable(data, showVacuum)
    ensures row in Process(data, showVacuum, query, parse) <==>
      row in Augment(data, showVacuum) && Passes(row, query, parse)
  {
    var filtered := Filtered(data, showVacuum, query, parse);
    FilteredMembership(data, showVacuum, query, parse, row);
    SortByPermutes(filtered, SortKeyOf(query.sortConfig.key), query.sortConfig.direction);
    assert row in Process(data, showVacuum, query, parse) <==> row in multiset(filtered);
  }

  /**
   * The shown rows are a permutation of the filtered rows, ordered by the
   * column in the configured direction, with rows of equal key in their
   * filtered order.
   */
  lemma ProcessIsStableSort(data: seq<EmissionLine>, showVacuum: bool, query: Query, parse: FloatParser, v: SortValue)
    requires AllDisplayable(data, showVacuum)
    ensures multiset(Process(data, showVacuum, query, parse)) == multiset(Filtered(data, showVacuum, query, parse))
    ensures SortedBy(Process(data, showVacuum, query, parse), SortKeyOf(query.sortConfig.key), query.sortConfig.direction)
    ensures Select(Process(data, showVacuum, query, parse), SortKeyOf(query.sortConfig.key), v) ==
      Select(Filtered(data, showVacuum, query, parse), SortKeyOf(query.sortConfig.key), v)
  {
    var filtered := Filtered(data, showVacuum, query, parse);
    var key := SortKeyOf(query.sortConfig.key);
    SortByPermutes(filtered, key, query.sortConfig.direction);
    SortBySorted(filtered, key, query.sortConfig.direction);
    SortByStable(filtered, key, query.sortConfig.direction, v);
  }

  /** Sorted by wavelength, the shown rows' display wavelengths rise (ascending) or fall (descending). */
  lemma ProcessWavelengthOrdered(data: seq<EmissionLine>, showVacuum: bool, query: Query, parse: FloatParser)
    requires AllDisplayable(data, showVacuum)
    requires query.sortConfig.key == Wavelength
    ensures forall i, j :: 0 <= i < j < |Process(data, showVacuum, query, parse)| ==>
      var rows := Process(data, showVacuum, query, parse);
      if query.sortConfig.direction == Asc then rows[i].displayWavelength <= rows[j].displayWavelength
      else rows[i].displayWavelength >= rows[j].displayWavelength
  {
    var rows := Process(data, showVacuum, query, parse);
    var dir := query.sortConfig.direction;
    ProcessSorted(data, showVacuum, query, parse);
    forall i, j | 0 <= i < j < |rows|
      ensures if dir == Asc then rows[i].displayWavelength <= rows[j].displayWavelength
        else rows[i].displayWavelength >= rows[j].displayWavelength
    {
      assert !Before(dir, SortValueOf(Wavelength, rows[j]), SortValueOf(Wavelength, rows[i]));
    }
  }

  /** Sorted by ionization potential, the shown rows' potentials (0 when missing) rise or fall. */
  lemma ProcessPotentialOrdered(data: seq<EmissionLine>, showVacuum: bool, query: Query, parse: FloatParser)
    requires AllDisplayable(data, showVacuum)
    requires query.sortConfig.key == IonizationPotential
    ensures forall i, j :: 0 <= i < j < |Process(data, showVacuum, query, parse)| ==>
      var rows := Process(data, showVacuum, query, parse);
      if query.sortConfig.direction == Asc
      then rows[i].line.ionizationPotential.GetOr(0.0) <= rows[j].line.ionizationPotential.GetOr(0.0)
      else rows[i].line.ionizationPotential.GetOr(0.0) >= rows[j].line.ionizationPotential.GetOr(0.0)
  {
    var rows := Process(data, showVacuum, query, parse);
    var dir := query.sortConfig.direction;
    ProcessSorted(data, showVacuum, query, parse);
    forall i, j | 0 <= i < j < |rows|
      ensures if dir == Asc
        then rows[i].line.ionizationPotential.GetOr(0.0) <= rows[j].line.ionizationPotential.GetOr(0.0)
        else rows[i].line.ionizationPotential.GetOr(0.0) >= rows[j].line.ionizationPotential.GetOr(0.0)
    {
      assert !Before(dir, SortValueOf(IonizationPotential, rows[j]), SortValueOf(IonizationPotential, rows[i]));
    }
  }

  /** Sorted by ion, no shown row's lower-cased ion comes strictly before the previous ones' in the chosen direction. */
  lemma ProcessIonOrdered(data: seq<EmissionLine>, showVacuum: bool, query: Query, parse: FloatParser)
    requires AllDisplayable(data, showVacuum)
    requires query.sortConfig.key == Ion
    ensures forall i, j :: 0 <= i < j < |Process(data, showVacuum, query, parse)| ==>
      var rows := Process(data, showVacuum, query, parse);
      if query.sortConfig.direction == Asc then !LexLess(ToLower(rows[j].line.ion), ToLower(rows[i].line.ion))
      else !LexLess(ToLower(rows[i].line.ion), ToLower(rows[j].line.ion))
  {
    var rows := Process(data, showVacuum, query, parse);
    var dir := query.sortConfig.direction;
    ProcessSorted(data, showVacuum, query, parse);
    forall i, j | 0 <= i < j < |rows|
      ensures if dir == Asc then !LexLess(ToLower(rows[j].line.ion), ToLower(rows[i].line.ion))
        else !LexLess(ToLower(rows[i].line.ion), ToLower(rows[j].line.ion))
    {
      assert !Before(dir, SortValueOf(Ion, rows[j]), SortValueOf(Ion, rows[i]));
    }
  }

  /** The shown rows are in order of the configured column and direction. */
  lemma ProcessSorted(data: seq<EmissionLine>, showVacuum: bool, query: Query, parse: FloatParser)
    requires AllDisplayable(data, showVacuum)
    ensures var rows := Process(data, showVacuum, query, parse);
      forall i, j :: 0 <= i < j < |rows| ==>
        !Before(query.sortConfig.direction, SortValueOf(query.sortConfig.key, rows[j]), SortValueOf(query.sortConfig.key, rows[i]))
  {
    var rows := Process(data, showVacuum, query, parse);
    var key := SortKeyOf(query.sortConfig.key);
    SortBySorted(Filtered(data, showVacuum, query, parse), key, query.sortConfig.direction);
    forall i, j | 0 <= i < j < |rows|
      ensures !Before(query.sortConfig.direction, SortValueOf(query.sortConfig.key, rows[j]), SortValueOf(query.sortConfig.key, rows[i]))
    {
      assert key(rows[j]) == SortValueOf(query.sortConfig.key, rows[j]);
      assert key(rows[i]) == SortValueOf(query.sortConfig.key, rows[i]);
    }
  }

  /** No search term, no bound that parses and common-only off: every record is shown. */
  lemma NoFilterShowsAll(data: seq<EmissionLine>, showVacuum: bool, query: Query, parse: FloatParser)
    requires AllDisplayable(data, showVacuum)
    requires query.searchTerm == [] && !query.showCommonOnly
    requires ParseBound(parse, query.wavelengthMin).None? && ParseBound(parse, query.wavelengthMax).None?
    ensures Filtered(data, showVacuum, query, parse) == Augment(data, showVacuum)
    ensures |Process(data, showVacuum, query, parse)| == |data|
  {
  }

  // ---------------------------------------------------------------------
  // Component state
  // ---------------------------------------------------------------------

  /** The table's state: the sort column and direction and the four filter inputs. */
  class TableState {
    var sortConfig: SortConfig
    var searchTerm: string
    var wavelengthMin: string
    var wavelengthMax: string
    var showCommonOnly: bool

    /** The initial state: ascending by wavelength, no filter. */
    constructor()
      ensures sortConfig == SortConfig(Wavelength, Asc)
      ensures searchTerm == [] && wavelengthMin == [] && wavelengthMax == [] && !showCommonOnly
    {
      sortConfig := SortConfig(Wavelength, Asc);
      searchTerm := [];
      wavelengthMin := [];
      wavelengthMax := [];
      showCommonOnly := false;
    }

    function CurrentQuery(): Query
      reads this
    {
      Query(sortConfig, searchTerm, wavelengthMin, wavelengthMax, showCommonOnly)
    }

    /** `handleSort`: only the sort configuration changes. */
    method HandleSort(key: SortKey)
      modifies this
      ensures sortConfig == NextSortConfig(old(sortConfig), key)
      ensures searchTerm == old(searchTerm) && wavelengthMin == old(wavelengthMin)
      ensures wavelengthMax == old(wavelengthMax) && showCommonOnly == old(showCommonOnly)
    {
      sortConfig := NextSortConfig(sortConfig, key);
    }

    /** `clearFilters`: every filter input is reset; the sort configuration is kept. */
    method ClearFilters()
      modifies this
      ensures sortConfig == old(sortConfig)
      ensures searchTerm == [] && wavelengthMin == [] && wavelengthMax == [] && !showCommonOnly
    {
      searchTerm := [];
      wavelengthMin := [];
      wavelengthMax := [];
      showCommonOnly := false;
    }

    /**
     * `processedData`: reassigns the row list stage by stage, then sorts it
     * (in place, on an array copy).
     */
    method ProcessedData(data: seq<EmissionLine>, showVacuum: bool, parse: FloatParser) returns (rows: seq<DisplayLine>)
      requires AllDisplayable(data, showVacuum)
      ensures rows == Process(data, showVacuum, CurrentQuery(), parse)
    {
      var augmented := Augment(data, showVacuum);
      var filtered := augmented;
      if searchTerm != [] {
        var variants := ExpandSearchTerm(searchTerm);
        filtered := KeepMatching(filtered, variants);
      }
      assert filtered == SearchStage(augmented, searchTerm);
      var searched := filtered;
      if wavelengthMin != [] {
        var min := parse(wavelengthMin);
        if min.Some? {
          filtered := KeepAtLeast(filtered, min.value);
        }
      }
      assert filtered == MinStage(searched, ParseBound(parse, wavelengthMin));
      var aboveMin := filtered;
      if wavelengthMax != [] {
        var max := parse(wavelengthMax);
        if max.Some? {
          filtered := KeepAtMost(filtered, max.value);
        }
      }
      assert filtered == MaxStage(aboveMin, ParseBound(parse, wavelengthMax));
      var belowMax := filtered;
      if showCommonOnly {
        filtered := KeepCommon(filtered);
      }
      assert filtered == CommonStage(belowMax, showCommonOnly);
      rows := SortCopy(filtered, SortKeyOf(sortConfig.key), sortConfig.direction);
    }
  }
}
