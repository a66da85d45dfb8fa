/**
 * The row normaliser of the table scraper: every `<tr>` of the source HTML
 * table, given as the text content of its `<td>` cells, becomes at most one
 * emission-line record; the records are then sorted by wavelength and
 * renumbered 1..N.
 */
module ParseEmissionLines {
  import opened Wrappers
  import opened JsString
  import opened JsArray
  import opened EmissionData

  /** Rows with fewer cells than this are skipped. */
  const MIN_CELLS: nat := 10

  /** The transition type a row gets when its cell is blank. */
  const DEFAULT_TRANSITION_TYPE: string := "E1"

  /** A table row: the text content of each of its cells, in order. */
  type Row = seq<string>

  /** `getText`: the cell text trimmed, then every run of whitespace replaced by one space. */
  function GetText(cell: string): (text: string)
    ensures text == [] || (!IsSpace(text[0]) && !IsSpace(text[|text| - 1]))
    ensures NoSpaceRuns(text) && OnlyPlainSpaces(text)
    ensures NonSpace(text) == NonSpace(cell)
  {
    CollapseSpaces(Trim(cell))
  }

  /** A cleaned cell is never a lone space, so the second half of the `transitionType` test is dead. */
  lemma GetTextNeverSpace(cell: string)
    ensures GetText(cell) != " "
  {
  }

  /** `parseFloat(text) || null`: both `NaN` and `0` are falsy, so both give null. */
  function NumberOrNull(parse: FloatParser, text: string): (value: Option<real>)
    ensures value.Some? <==> parse(text).Some? && parse(text).value != 0.0
    ensures value.Some? ==> value.value == parse(text).value
  {
    match parse(text)
    case None => None
    case Some(number) => if number == 0.0 then None else Some(number)
  }

  /** `getText(..) || 'E1'`, then the explicit test for `''` and `' '`. */
  function TransitionTypeOf(text: string): (transitionType: string)
    ensures transitionType != []
    ensures text != [] && text != " " ==> transitionType == text
    ensures text == [] || text == " " ==> transitionType == DEFAULT_TRANSITION_TYPE
  {
    var withDefault := if text == [] then DEFAULT_TRANSITION_TYPE else text;
    if withDefault == [] || withDefault == " " then DEFAULT_TRANSITION_TYPE else withDefault
  }

  /** For a cleaned cell the transition type is the cell text, or "E1" exactly when that text is empty. */
  lemma TransitionTypeOfCell(cell: string)
    ensures TransitionTypeOf(GetText(cell)) == DEFAULT_TRANSITION_TYPE <==> GetText(cell) == [] || GetText(cell) == DEFAULT_TRANSITION_TYPE
    ensures GetText(cell) != [] ==> TransitionTypeOf(GetText(cell)) == GetText(cell)
  {
    GetTextNeverSpace(cell);
  }

  /**
   * The body of the per-row callback: the header row, short rows and rows
   * whose wavelength does not parse yield nothing; any other row yields a
   * record whose id is its row index.
   */
  function BuildRecord(index: nat, cells: Row, parse: FloatParser): (record: Option<EmissionLine>)
    ensures record.Some? <==> index != 0 && |cells| >= MIN_CELLS && parse(GetText(cells[0])).Some?
    ensures record.Some? ==> record.value.id == index
    ensures record.Some? ==> Some(record.value.wavelength) == parse(GetText(cells[0]))
    ensures record.Some? ==> record.value.wavelengthOriginal == GetText(cells[0])
    ensures record.Some? ==> Consistent(record.value)
  {
    if index == 0 || |cells| < MIN_CELLS then None
    else
      var wavelengthText := GetText(cells[0]);
      match parse(wavelengthText)
      case None => None
      case Some(wavelength) =>
        Some(EmissionLine(
          id := index,
          wavelength := wavelength,
          wavelengthOriginal := wavelengthText,
          isVacuum := wavelength < VACUUM_THRESHOLD,
          ion := GetText(cells[1]),
          energyInitial := NumberOrNull(parse, GetText(cells[2])),
          energyFinal := NumberOrNull(parse, GetText(cells[3])),
          configurations := GetText(cells[4]),
          terms := GetText(cells[5]),
          jTransition := GetText(cells[6]),
          transitionType := TransitionTypeOf(GetText(cells[7])),
          ionizationPotential := NumberOrNull(parse, GetText(cells[8])),
          references := GetText(cells[9]),
          note := if |cells| > MIN_CELLS then GetText(cells[MIN_CELLS]) else ""))
  }

  /** Every field of a record is a cleaned cell, a parsed number or a default. */
  lemma BuildRecordFields(index: nat, cells: Row, parse: FloatParser)
    requires BuildRecord(index, cells, parse).Some?
    ensures var line := BuildRecord(index, cells, parse).value;
      && line.ion == GetText(cells[1])
      && line.energyInitial == NumberOrNull(parse, GetText(cells[2]))
      && line.energyFinal == NumberOrNull(parse, GetText(cells[3]))
      && line.ionizationPotential == NumberOrNull(parse, GetText(cells[8]))
      && line.configurations == GetText(cells[4])
      && line.terms == GetText(cells[5])
      && line.jTransition == GetText(cells[6])
      && line.references == GetText(cells[9])
      && line.transitionType != []
      && (GetText(cells[7]) != [] ==> line.transitionType == GetText(cells[7]))
      && (GetText(cells[7]) == [] ==> line.transitionType == DEFAULT_TRANSITION_TYPE)
      && (|cells| == MIN_CELLS ==> line.note == [])
      && (|cells| > MIN_CELLS ==> line.note == GetText(cells[MIN_CELLS]))
  {
  }

  /** The records the row loop pushes, in row order; the index of a row is its position. */
  function CollectRecords(rows: seq<Row>, parse: FloatParser): (records: seq<EmissionLine>)
    ensures |records| <= |rows|
  {
    if rows == [] then []
    else
      var prior := CollectRecords(rows[..|rows| - 1], parse);
      match BuildRecord(|rows| - 1, rows[|rows| - 1], parse)
      case None => prior
      case Some(record) => prior + [record]
  }

  /** Each collected record is what its own row builds. */
  lemma {:induction false} CollectedRecordsFromRows(rows: seq<Row>, parse: FloatParser)
    ensures forall k :: 0 <= k < |CollectRecords(rows, parse)| ==>
      var line := CollectRecords(rows, parse)[k];
      0 < line.id < |rows| && BuildRecord(line.id, rows[line.id], parse) == Some(line)
  {
    if rows != [] {
      var init := rows[..|rows| - 1];
      var prior := CollectRecords(init, parse);
      var records := CollectRecords(rows, parse);
      CollectedRecordsFromRows(init, parse);
      assert records[..|prior|] == prior;
      forall k | 0 <= k < |records|
        ensures 0 < records[k].id < |rows|
        ensures BuildRecord(records[k].id, rows[records[k].id], parse) == Some(records[k])
      {
        if k < |prior| {
          assert records[k] == prior[k];
          assert init[prior[k].id] == rows[prior[k].id];
        } else {
          var last := BuildRecord(|rows| - 1, rows[|rows| - 1], parse);
          assert last.Some? && records[k] == last.value;
        }
      }
    }
  }

  /** The records keep row order: their ids strictly increase. */
  lemma {:induction false} CollectedRecordsInRowOrder(rows: seq<Row>, parse: FloatParser)
    ensures forall k, j :: 0 <= k < j < |CollectRecords(rows, parse)| ==>
      CollectRecords(rows, parse)[k].id < CollectRecords(rows, parse)[j].id
  {
    if rows != [] {
      var init := rows[..|rows| - 1];
      var prior := CollectRecords(init, parse);
      var records := CollectRecords(rows, parse);
      CollectedRecordsInRowOrder(init, parse);
      CollectedRecordsFromRows(init, parse);
      assert records[..|prior|] == prior;
      forall k, j | 0 <= k < j < |records|
        ensures records[k].id < records[j].id
      {
        if j == |prior| {
          assert records[j] == BuildRecord(|rows| - 1, rows[|rows| - 1], parse).value;
        }
      }
    }
  }

  /** Every row that builds a record contributes it. */
  lemma {:induction false} CollectedRecordsComplete(rows: seq<Row>, parse: FloatParser, index: nat)
    requires index < |rows| && BuildRecord(index, rows[index], parse).Some?
    ensures BuildRecord(index, rows[index], parse).value in CollectRecords(rows, parse)
  {
    var init := rows[..|rows| - 1];
    if index < |rows| - 1 {
      assert init[index] == rows[index];
      CollectedRecordsComplete(init, parse, index);
    }
  }

  /** Every collected record is consistent, and neither the header nor a short row contributes. */
  lemma CollectedRecordsWellFormed(rows: seq<Row>, parse: FloatParser)
    ensures forall k :: 0 <= k < |CollectRecords(rows, parse)| ==>
      var line := CollectRecords(rows, parse)[k];
      Consistent(line) && 0 < line.id < |rows| && |rows[line.id]| >= MIN_CELLS
  {
    CollectedRecordsFromRows(rows, parse);
  }

  /** A record with its id erased: what the sort and renumbering must preserve. */
  function Unnumbered(line: EmissionLine): EmissionLine {
    line.(id := 0)
  }

  /** The sort key of the comparator `a.wavelength - b.wavelength`. */
  function ByWavelength(line: EmissionLine): SortValue {
    Num(line.wavelength)
  }

  /** The comparator `a.wavelength - b.wavelength` orders records exactly as the key `ByWavelength` ascending. */
  lemma WavelengthComparatorAgrees(a: EmissionLine, b: EmissionLine)
    ensures a.wavelength - b.wavelength < 0.0 <==> Before(Asc, ByWavelength(a), ByWavelength(b))
    ensures a.wavelength - b.wavelength > 0.0 <==> Before(Asc, ByWavelength(b), ByWavelength(a))
    ensures a.wavelength - b.wavelength == 0.0 <==> ByWavelength(a) == ByWavelength(b)
  {
  }

  /** The ids `forEach` assigns after the sort: record k gets id k + 1, nothing else changes. */
  function Renumber(lines: seq<EmissionLine>): (renumbered: seq<EmissionLine>)
    ensures |renumbered| == |lines|
    ensures forall k :: 0 <= k < |lines| ==> renumbered[k].id == k + 1
    ensures Map(renumbered, Unnumbered) == Map(lines, Unnumbered)
  {
    seq(|lines|, k requires 0 <= k < |lines| => lines[k].(id := k + 1))
  }

  /** The normaliser's output: the collected records, stably sorted by wavelength, renumbered. */
  function Normalize(rows: seq<Row>, parse: FloatParser): (lines: seq<EmissionLine>)
    ensures |lines| == |CollectRecords(rows, parse)|
    ensures forall k :: 0 <= k < |lines| ==> lines[k].id == k + 1
  {
    Renumber(SortBy(CollectRecords(rows, parse), ByWavelength, Asc))
  }

  /** The `forEach` loop: `line.id = idx + 1` for every record, in place. */
  method AssignIds(lines: array<EmissionLine>)
    modifies lines
    ensures lines[..] == Renumber(old(lines[..]))
  {
    for k := 0 to lines.Length
      invariant forall j :: 0 <= j < k ==> lines[j] == old(lines[j]).(id := j + 1)
      invariant forall j :: k <= j < lines.Length ==> lines[j] == old(lines[j])
    {
      lines[k] := lines[k].(id := k + 1);
    }
  }

  /** The row loop: `each` row's record, if any, is pushed onto the list. */
  method CollectRows(rows: seq<Row>, parse: FloatParser) returns (emitted: seq<EmissionLine>)
    ensures emitted == CollectRecords(rows, parse)
  {
    emitted := [];
    for index := 0 to |rows|
      invariant emitted == CollectRecords(rows[..index], parse)
    {
      assert rows[..index + 1][..index] == rows[..index];
      var record := BuildRecord(index, rows[index], parse);
      if record.Some? {
        emitted := emitted + [record.value];
      }
    }
    assert rows[..|rows|] == rows;
  }

  /** The whole normaliser: the row loop pushes records, then the array is sorted and renumbered. */
  method NormalizeRows(rows: seq<Row>, parse: FloatParser) returns (lines: seq<EmissionLine>)
    ensures lines == Normalize(rows, parse)
  {
    var emitted := CollectRows(rows, parse);
    var table := new EmissionLine[|emitted|](k requires 0 <= k < |emitted| => emitted[k]);
    assert table[..] == emitted;
    SortInPlace(table, ByWavelength, Asc);
    AssignIds(table);
    lines := table[..];
  }

  /** The output is numbered 1..N and every record in it is consistent. */
  lemma NormalizeNumbered(rows: seq<Row>, parse: FloatParser)
    ensures |Normalize(rows, parse)| == |CollectRecords(rows, parse)|
    ensures forall k :: 0 <= k < |Normalize(rows, parse)| ==> Normalize(rows, parse)[k].id == k + 1
    ensures forall k :: 0 <= k < |Normalize(rows, parse)| ==> Consistent(Normalize(rows, parse)[k])
  {
    var records := CollectRecords(rows, parse);
    var sorted := SortBy(records, ByWavelength, Asc);
    CollectedRecordsWellFormed(rows, parse);
    SortByPermutes(records, ByWavelength, Asc);
    forall k | 0 <= k < |sorted|
      ensures Consistent(sorted[k])
    {
      assert sorted[k] in multiset(records);
    }
  }

  /** Ids aside, the output is the collected records stably sorted by wavelength. */
  lemma NormalizeIsSortedRecords(rows: seq<Row>, parse: FloatParser)
    ensures Map(Normalize(rows, parse), Unnumbered) ==
      SortBy(Map(CollectRecords(rows, parse), Unnumbered), ByWavelength, Asc)
  {
    SortByMap(CollectRecords(rows, parse), ByWavelength, Unnumbered, ByWavelength, Asc);
  }

  /** Ids aside, the output is a permutation of the collected records. */
  lemma NormalizePermutes(rows: seq<Row>, parse: FloatParser)
    ensures multiset(Map(Normalize(rows, parse), Unnumbered)) == multiset(Map(CollectRecords(rows, parse), Unnumbered))
  {
    NormalizeIsSortedRecords(rows, parse);
    SortByPermutes(Map(CollectRecords(rows, parse), Unnumbered), ByWavelength, Asc);
  }

  /** The output is in non-decreasing wavelength order. */
  lemma NormalizeOrdered(rows: seq<Row>, parse: FloatParser)
    ensures forall i, j :: 0 <= i < j < |Normalize(rows, parse)| ==>
      Normalize(rows, parse)[i].wavelength <= Normalize(rows, parse)[j].wavelength
  {
    var sorted := SortBy(CollectRecords(rows, parse), ByWavelength, Asc);
    SortBySorted(CollectRecords(rows, parse), ByWavelength, Asc);
    forall i, j | 0 <= i < j < |sorted|
      ensures sorted[i].wavelength <= sorted[j].wavelength
    {
      assert !Before(Asc, ByWavelength(sorted[j]), ByWavelength(sorted[i]));
    }
  }

  /** Records with equal wavelengths keep their row order: the sort is stable. */
  lemma NormalizeStable(rows: seq<Row>, parse: FloatParser, wavelength: real)
    ensures Select(Map(Normalize(rows, parse), Unnumbered), ByWavelength, Num(wavelength)) ==
      Select(Map(CollectRecords(rows, parse), Unnumbered), ByWavelength, Num(wavelength))
  {
    NormalizeIsSortedRecords(rows, parse);
    SortByStable(Map(CollectRecords(rows, parse), Unnumbered), ByWavelength, Asc, Num(wavelength));
  }
}
