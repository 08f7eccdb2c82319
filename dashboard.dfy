/**
 The dashboard's callbacks over the summary table: the department drop-down's
 options, the welcome message's close button, and the record selection that
 feeds the three charts. The summary table is a module-wide value in the
 program; here it is passed to each callback that reads it as the parameter
 `resumen`.
 */
module Dashboard {
  import opened Selection
  import opened Loader

  /** The drop-down value that stands for "every department". */
  const AllDepartments: string := "todos"

  const AllDepartmentsLabel: string := "Seleccionar todos los departamentos"

  // ---------------------------------------------------------------------------
  // The department drop-down
  // ---------------------------------------------------------------------------

  /** One entry of a drop-down: what it shows and the value it selects. */
  datatype DropdownOption = DropdownOption(text: string, value: string)

  /** The DEPARTAMENTO column of the summary table, row by row. */
  function DepartmentColumn(resumen: seq<Record>): seq<string>
  {
    seq(|resumen|, k requires 0 <= k < |resumen| => resumen[k].departamento)
  }

  /** Python truthiness of a department name: only the empty string is false. */
  predicate IsNonEmpty(departamento: string)
  {
    departamento != ""
  }

  /** The departments the comprehension lists: `unique()` of the column, the falsy ones dropped. */
  function ListedDepartments(resumen: seq<Record>): seq<string>
  {
    Filter(IsNonEmpty, Unique(DepartmentColumn(resumen)))
  }

  /** `departamento_options`: an entry per listed department, then the "all" entry inserted at the front. */
  function DepartmentOptions(resumen: seq<Record>): seq<DropdownOption>
  {
    var listed := ListedDepartments(resumen);
    var comprehension := seq(|listed|, k requires 0 <= k < |listed| => DropdownOption(listed[k], listed[k]));
    [DropdownOption(AllDepartmentsLabel, AllDepartments)] + comprehension
  }

  /** The "all" entry comes first; every other entry shows and selects one listed department, in order. */
  lemma {:induction false} DepartmentOptionsShape(resumen: seq<Record>)
    ensures var options, listed := DepartmentOptions(resumen), ListedDepartments(resumen);
      && |options| == 1 + |listed|
      && options[0] == DropdownOption(AllDepartmentsLabel, AllDepartments)
      && forall k :: 0 <= k < |listed| ==> options[k + 1] == DropdownOption(listed[k], listed[k])
  {
    var listed := ListedDepartments(resumen);
    var comprehension := seq(|listed|, k requires 0 <= k < |listed| => DropdownOption(listed[k], listed[k]));
    var options := [DropdownOption(AllDepartmentsLabel, AllDepartments)] + comprehension;
    assert DepartmentOptions(resumen) == options;
    assert forall k :: 0 <= k < |listed| ==> options[k + 1] == comprehension[k];
  }

  /**
   The listed departments are the non-empty departments of the summary table,
   each listed once: every listed name is the department of some row, and
   every row's non-empty department is listed.
   */
  lemma {:induction false} ListedDepartmentsExactly(resumen: seq<Record>)
    ensures var listed := ListedDepartments(resumen);
      && (forall k :: 0 <= k < |listed| ==>
            IsNonEmpty(listed[k]) && exists i :: 0 <= i < |resumen| && resumen[i].departamento == listed[k])
      && (forall i :: 0 <= i < |resumen| && IsNonEmpty(resumen[i].departamento) ==> resumen[i].departamento in listed)
      && (forall j, k :: 0 <= j < k < |listed| ==> listed[j] != listed[k])
  {
    var column := DepartmentColumn(resumen);
    var u := Unique(column);
    var listed := ListedDepartments(resumen);
    FilterAtKeptIndices(IsNonEmpty, u);
    forall k | 0 <= k < |listed|
      ensures exists i :: 0 <= i < |resumen| && resumen[i].departamento == listed[k]
    {
      var i :| 0 <= i < |column| && column[i] == listed[k];
      assert resumen[i].departamento == listed[k];
    }
    forall i | 0 <= i < |resumen| && IsNonEmpty(resumen[i].departamento)
      ensures resumen[i].departamento in listed
    {
      assert column[i] == resumen[i].departamento;
      var m :| 0 <= m < |u| && u[m] == column[i];
      assert IsNonEmpty(u[m]);
    }
  }

  /** The listed departments are in the order of their first row in the summary table. */
  lemma {:induction false} ListedDepartmentsFirstOccurrenceOrder(resumen: seq<Record>)
    ensures var column, listed := DepartmentColumn(resumen), ListedDepartments(resumen);
      forall j, k :: 0 <= j < k < |listed| ==>
        listed[j] in column && listed[k] in column && FirstIndex(column, listed[j]) < FirstIndex(column, listed[k])
  {
    var column := DepartmentColumn(resumen);
    var u := Unique(column);
    var idx := KeptIndices(IsNonEmpty, u);
    FilterAtKeptIndices(IsNonEmpty, u);
    UniqueFirstOccurrenceOrder(column);
  }

  // ---------------------------------------------------------------------------
  // The welcome message
  // ---------------------------------------------------------------------------

  /** The style of the welcome message: `{'display': 'block'}` or `{'display': 'none'}`. */
  datatype WelcomeStyle = DisplayBlock | DisplayNone

  /** `close_welcome_message`: the message is hidden once the close button has been clicked. */
  function CloseWelcomeMessage(nClicks: int): (style: WelcomeStyle)
    ensures style == DisplayNone <==> nClicks > 0
    ensures style == DisplayBlock <==> nClicks <= 0
  {
    if nClicks > 0 then DisplayNone else DisplayBlock
  }

  /** The message is shown before any click, and further clicks never bring it back. */
  lemma WelcomeStaysClosed(m: int, n: int)
    requires m <= n
    ensures CloseWelcomeMessage(0) == DisplayBlock
    ensures CloseWelcomeMessage(m) == DisplayNone ==> CloseWelcomeMessage(n) == DisplayNone
  {
  }

  // ---------------------------------------------------------------------------
  // The record selection behind the three charts
  // ---------------------------------------------------------------------------

  /** The year slider's value `[year_range[0], year_range[1]]`. */
  datatype YearRange = YearRange(low: int, high: int)

  /** `resumen_df['SECTOR'].isin(sector_value)` */
  function SectorMask(sectorValue: seq<string>): Record -> bool
  {
    (r: Record) => r.sector in sectorValue
  }

  /** `resumen_df['DEPARTAMENTO'].isin(departamento_value)` */
  function DepartmentMask(departamentoValue: seq<string>): Record -> bool
  {
    (r: Record) => r.departamento in departamentoValue
  }

  /** `FECHA_REGISTRO.dt.year.between(year_range[0], year_range[1])`, both ends included. */
  function YearMask(yearRange: YearRange): Record -> bool
  {
    (r: Record) => yearRange.low <= r.fechaRegistro.year <= yearRange.high
  }

  /** `filtered_df` as `update_graphs` builds it: sector (and department) mask, then the year mask. */
  function SelectRows(resumen: seq<Record>, sectorValue: seq<string>, departamentoValue: seq<string>,
                      yearRange: YearRange): seq<Record>
  {
    var byColumns :=
      if AllDepartments in departamentoValue then
        Filter(SectorMask(sectorValue), resumen)
      else
        Filter(Both(SectorMask(sectorValue), DepartmentMask(departamentoValue)), resumen);
    Filter(YearMask(yearRange), byColumns)
  }

  /** The selection policy in one piece: sector chosen, department chosen or "all" chosen, year in range. */
  predicate Matches(sectorValue: seq<string>, departamentoValue: seq<string>, yearRange: YearRange, r: Record)
  {
    && r.sector in sectorValue
    && (AllDepartments in departamentoValue || r.departamento in departamentoValue)
    && yearRange.low <= r.fechaRegistro.year <= yearRange.high
  }

  function MatchMask(sectorValue: seq<string>, departamentoValue: seq<string>, yearRange: YearRange): Record -> bool
  {
    (r: Record) => Matches(sectorValue, departamentoValue, yearRange, r)
  }

  /** The two-stage masking of `update_graphs` selects exactly the rows that match the policy, in table order. */
  lemma {:induction false} SelectRowsIsPolicyMask(resumen: seq<Record>, sectorValue: seq<string>, departamentoValue: seq<string>,
                               yearRange: YearRange)
    ensures SelectRows(resumen, sectorValue, departamentoValue, yearRange)
         == Filter(MatchMask(sectorValue, departamentoValue, yearRange), resumen)
  {
    var sector, year := SectorMask(sectorValue), YearMask(yearRange);
    var policy := MatchMask(sectorValue, departamentoValue, yearRange);
    if AllDepartments in departamentoValue {
      FilterFilter(sector, year, resumen);
      FilterAgree(Both(sector, year), policy, resumen);
    } else {
      var columns := Both(sector, DepartmentMask(departamentoValue));
      FilterFilter(columns, year, resumen);
      FilterAgree(Both(columns, year), policy, resumen);
    }
  }

  /**
   No false positives: every selected row is a row of the summary table whose
   sector is selected, whose department is selected unless "all" is, and whose
   year lies in the slider's range, both ends included.
   */
  lemma {:induction false} SelectRowsSound(resumen: seq<Record>, sectorValue: seq<string>, departamentoValue: seq<string>,
                        yearRange: YearRange)
    ensures forall r :: r in SelectRows(resumen, sectorValue, departamentoValue, yearRange) ==>
      && r in resumen
      && r.sector in sectorValue
      && (AllDepartments !in departamentoValue ==> r.departamento in departamentoValue)
      && yearRange.low <= r.fechaRegistro.year <= yearRange.high
  {
    var policy := MatchMask(sectorValue, departamentoValue, yearRange);
    SelectRowsIsPolicyMask(resumen, sectorValue, departamentoValue, yearRange);
    FilterMembers(policy, resumen);
    var selected := Filter(policy, resumen);
    forall r | r in selected
      ensures r in resumen && Matches(sectorValue, departamentoValue, yearRange, r)
    {
      var k :| 0 <= k < |selected| && selected[k] == r;
      assert policy(selected[k]);
    }
  }

  /** No false negatives: every row of the summary table that matches the policy is selected. */
  lemma {:induction false} SelectRowsComplete(resumen: seq<Record>, sectorValue: seq<string>, departamentoValue: seq<string>,
                           yearRange: YearRange)
    ensures forall i :: 0 <= i < |resumen| && Matches(sectorValue, departamentoValue, yearRange, resumen[i]) ==>
      resumen[i] in SelectRows(resumen, sectorValue, departamentoValue, yearRange)
  {
    var policy := MatchMask(sectorValue, departamentoValue, yearRange);
    SelectRowsIsPolicyMask(resumen, sectorValue, departamentoValue, yearRange);
    FilterMembers(policy, resumen);
    assert forall i :: 0 <= i < |resumen| ==>
      (policy(resumen[i]) <==> Matches(sectorValue, departamentoValue, yearRange, resumen[i]));
  }

  /**
   The selection is the summary table read at the matching positions in
   increasing order: a subsequence in the table's own order, holding every
   matching row as often as the table does.
   */
  lemma {:induction false} SelectRowsInTableOrder(resumen: seq<Record>, sectorValue: seq<string>, departamentoValue: seq<string>,
                               yearRange: YearRange)
    ensures var selected := SelectRows(resumen, sectorValue, departamentoValue, yearRange);
      var idx := KeptIndices(MatchMask(sectorValue, departamentoValue, yearRange), resumen);
      && |selected| == |idx|
      && StrictlyIncreasing(idx)
      && (forall k :: 0 <= k < |idx| ==> idx[k] < |resumen| && selected[k] == resumen[idx[k]])
      && (forall i :: 0 <= i < |resumen| ==>
            (i in idx <==> Matches(sectorValue, departamentoValue, yearRange, resumen[i])))
  {
    var policy := MatchMask(sectorValue, departamentoValue, yearRange);
    SelectRowsIsPolicyMask(resumen, sectorValue, departamentoValue, yearRange);
    FilterAtKeptIndices(policy, resumen);
    var idx := KeptIndices(policy, resumen);
    forall i | 0 <= i < |resumen| && i in idx
      ensures Matches(sectorValue, departamentoValue, yearRange, resumen[i])
    {
      var k :| 0 <= k < |idx| && idx[k] == i;
      assert policy(resumen[idx[k]]);
    }
  }

  /**
   Once "all" is among the selected departments the department list is
   ignored, whatever else it holds: the selection is by sector and year alone.
   */
  lemma {:induction false} AllDepartmentsTakesPrecedence(resumen: seq<Record>, sectorValue: seq<string>, departamentoValue: seq<string>,
                                      yearRange: YearRange)
    requires AllDepartments in departamentoValue
    ensures SelectRows(resumen, sectorValue, departamentoValue, yearRange)
         == Filter(Both(SectorMask(sectorValue), YearMask(yearRange)), resumen)
    ensures SelectRows(resumen, sectorValue, departamentoValue, yearRange)
         == SelectRows(resumen, sectorValue, [AllDepartments], yearRange)
  {
    FilterFilter(SectorMask(sectorValue), YearMask(yearRange), resumen);
  }

  /** Selecting every department that occurs in the table selects what "all" selects. */
  lemma {:induction false} EveryDepartmentSelectsAsAll(resumen: seq<Record>, sectorValue: seq<string>, departamentoValue: seq<string>,
                                    yearRange: YearRange)
    requires forall k :: 0 <= k < |resumen| ==> resumen[k].departamento in departamentoValue
    ensures SelectRows(resumen, sectorValue, departamentoValue, yearRange)
         == SelectRows(resumen, sectorValue, [AllDepartments], yearRange)
  {
    SelectRowsIsPolicyMask(resumen, sectorValue, departamentoValue, yearRange);
    SelectRowsIsPolicyMask(resumen, sectorValue, [AllDepartments], yearRange);
    FilterAgree(MatchMask(sectorValue, departamentoValue, yearRange),
                MatchMask(sectorValue, [AllDepartments], yearRange), resumen);
  }

  /** A range whose lower end lies above its upper end selects nothing. */
  lemma {:induction false} InvertedYearRangeSelectsNothing(resumen: seq<Record>, sectorValue: seq<string>, departamentoValue: seq<string>,
                                        yearRange: YearRange)
    requires yearRange.low > yearRange.high
    ensures SelectRows(resumen, sectorValue, departamentoValue, yearRange) == []
  {
    var byColumns :=
      if AllDepartments in departamentoValue then
        Filter(SectorMask(sectorValue), resumen)
      else
        Filter(Both(SectorMask(sectorValue), DepartmentMask(departamentoValue)), resumen);
    FilterNone(YearMask(yearRange), byColumns);
  }

  // ---------------------------------------------------------------------------
  // The three figures
  // ---------------------------------------------------------------------------

  /** A figure, as the rows it is drawn from; the charting itself is outside the model. */
  datatype Figure =
    | EmptyScatter                       // `px.scatter()` with no data
    | LineChart(rows: seq<Record>)       // financial evolution over FECHA_REGISTRO, a line per ENTIDAD
    | Treemap(rows: seq<Record>)         // MONTO_VIABLE nested by SECTOR then ENTIDAD
    | HorizontalBars(rows: seq<Record>)  // AVANCE_FISICO per ENTIDAD

  /** The callback's three outputs, in the order of its `Output` list. */
  datatype Graphs = Graphs(evolucion: Figure, distribucion: Figure, avance: Figure)

  /** `update_graphs`: select the rows, then either three copies of one empty figure or the three charts. */
  function UpdateGraphs(resumen: seq<Record>, sectorValue: seq<string>, departamentoValue: seq<string>,
                        yearRange: YearRange): Graphs
  {
    var filtered := SelectRows(resumen, sectorValue, departamentoValue, yearRange);
    if |filtered| == 0 then
      var emptyFig := EmptyScatter;
      Graphs(emptyFig, emptyFig, emptyFig)
    else
      Graphs(LineChart(filtered), Treemap(filtered), HorizontalBars(filtered))
  }

  /**
   The three outputs are the same empty figure when no row of the summary
   table matches; otherwise the three charts are drawn from one and the same
   non-empty list, the matching rows in table order.
   */
  lemma {:induction false} UpdateGraphsFromMatchingRows(resumen: seq<Record>, sectorValue: seq<string>, departamentoValue: seq<string>,
                                     yearRange: YearRange)
    ensures var matching := Filter(MatchMask(sectorValue, departamentoValue, yearRange), resumen);
      UpdateGraphs(resumen, sectorValue, departamentoValue, yearRange)
      == if matching == [] then Graphs(EmptyScatter, EmptyScatter, EmptyScatter)
         else Graphs(LineChart(matching), Treemap(matching), HorizontalBars(matching))
  {
    SelectRowsIsPolicyMask(resumen, sectorValue, departamentoValue, yearRange);
  }

  /** The outputs are all the empty figure exactly when no row of the summary table matches. */
  lemma {:induction false} UpdateGraphsEmptyIffNoMatch(resumen: seq<Record>, sectorValue: seq<string>, departamentoValue: seq<string>,
                                    yearRange: YearRange)
    ensures UpdateGraphs(resumen, sectorValue, departamentoValue, yearRange) == Graphs(EmptyScatter, EmptyScatter, EmptyScatter)
      <==> forall i :: 0 <= i < |resumen| ==> !Matches(sectorValue, departamentoValue, yearRange, resumen[i])
  {
    var selected := SelectRows(resumen, sectorValue, departamentoValue, yearRange);
    SelectRowsComplete(resumen, sectorValue, departamentoValue, yearRange);
    SelectRowsSound(resumen, sectorValue, departamentoValue, yearRange);
    if selected != [] {
      assert selected[0] in selected;
    }
  }

  /** The single-record scenario: a TACNA row of 2023 in GOBIERNOS LOCALES, entity MUNI-X. */
  function TacnaRecord(): Record
  {
    // MONTO_VIABLE 1000, COSTO_ACTUALIZADO 900 and AVANCE_FISICO 50, as float64 bit patterns
    Record("TACNA", Date(2023, 5, 1), Float64(0x408F400000000000), Float64(0x408C200000000000),
           "GOBIERNOS LOCALES", "MUNI-X", Float64(0x4049000000000000))
  }

  /** It is charted under its own sector, department and years, and dropped by another year range or sector. */
  lemma TacnaScenario()
    ensures UpdateGraphs([TacnaRecord()], ["GOBIERNOS LOCALES"], ["TACNA"], YearRange(2023, 2024))
         == Graphs(LineChart([TacnaRecord()]), Treemap([TacnaRecord()]), HorizontalBars([TacnaRecord()]))
    ensures UpdateGraphs([TacnaRecord()], ["GOBIERNOS LOCALES"], ["TACNA"], YearRange(2020, 2021))
         == Graphs(EmptyScatter, EmptyScatter, EmptyScatter)
    ensures UpdateGraphs([TacnaRecord()], ["SALUD"], ["TACNA"], YearRange(2023, 2024))
         == Graphs(EmptyScatter, EmptyScatter, EmptyScatter)
  {
    var t := TacnaRecord();
    assert AllDepartments !in ["TACNA"];
    var columns := Both(SectorMask(["GOBIERNOS LOCALES"]), DepartmentMask(["TACNA"]));
    FilterSingleton(columns, t);
    FilterSingleton(YearMask(YearRange(2023, 2024)), t);
    FilterSingleton(YearMask(YearRange(2020, 2021)), t);
    var other := Both(SectorMask(["SALUD"]), DepartmentMask(["TACNA"]));
    FilterSingleton(other, t);
    assert !other(t);
    FilterNone(YearMask(YearRange(2023, 2024)), []);
  }
}
