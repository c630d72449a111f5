/** The results file of a batch run: the decision whether there is
    anything to offer (line 162 of the script) and the sheets written into
    the workbook (lines 174-179). The spreadsheet encoding itself is not
    modelled: a workbook is the list of its sheets, in writing order. */
module Export {
  import opened Lookup
  import opened Batch

  const FoundSheet: string := "CEPs encontrados"
  const InvalidSheet: string := "CEPs inválidos"

  /** The contents of a sheet: a table of found rows or of invalid rows,
      written without an index column. */
  datatype Table = FoundTable(found: seq<FoundRow>) | InvalidTable(invalid: seq<InvalidRow>)

  datatype Sheet = Sheet(name: string, table: Table)

  /** The sheet names of a workbook, in writing order. */
  function SheetNames(sheets: seq<Sheet>): (names: seq<string>)
    ensures |names| == |sheets|
    ensures forall k :: 0 <= k < |sheets| ==> names[k] == sheets[k].name
  {
    if sheets == [] then [] else [sheets[0].name] + SheetNames(sheets[1..])
  }

  /** The condition of line 162: at least one of the two tables has rows. */
  predicate HasResults(report: Report)
  {
    report.found != [] || report.invalid != []
  }

  /** The sheets written for a report: one per non-empty table, the found
      table first, each holding exactly that table. */
  function Workbook(report: Report): (sheets: seq<Sheet>)
    ensures FoundSheet in SheetNames(sheets) <==> report.found != []
    ensures InvalidSheet in SheetNames(sheets) <==> report.invalid != []
    ensures |sheets| == (if report.found != [] then 1 else 0) + (if report.invalid != [] then 1 else 0)
    ensures forall k :: 0 <= k < |sheets| ==>
      || (sheets[k].name == FoundSheet && sheets[k].table == FoundTable(report.found))
      || (sheets[k].name == InvalidSheet && sheets[k].table == InvalidTable(report.invalid))
    ensures report.found != [] ==> sheets[0].name == FoundSheet
  {
    (if report.found != [] then [Sheet(FoundSheet, FoundTable(report.found))] else [])
    + (if report.invalid != [] then [Sheet(InvalidSheet, InvalidTable(report.invalid))] else [])
  }

  /** The results file offered for download: none when both tables are
      empty, otherwise a workbook with at least one sheet. */
  function ExportResults(report: Report): (r: Option<seq<Sheet>>)
    ensures r.None? <==> report.found == [] && report.invalid == []
    ensures r.Some? ==> r.value == Workbook(report) && |r.value| >= 1
  {
    if HasResults(report) then Some(Workbook(report)) else None
  }

  /** A batch run offers a results file exactly when the CEP column has at
      least one present cell. */
  lemma ExportIffCodesPresent(service: Service, cells: Column)
    ensures ExportResults(Partition(service, DropMissing(cells))).Some? <==> multiset(cells)[None] < |cells|
  {
    var ceps := DropMissing(cells);
    var report := Partition(service, ceps);
    PartitionCount(service, ceps);
    assert ceps == [] <==> report.found == [] && report.invalid == [];
    assert ceps == [] <==> multiset(cells)[None] == |cells|;
  }
}
