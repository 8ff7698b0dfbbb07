/** The record parser of OrganizationalAnalyser.java (getColumnIndices,
    createEmployeeMap, getColumnValue) as specification functions: which header
    is accepted, why a data row is rejected, and which registry the accepted rows
    build. The methods that run these steps are in the Analyser class. */
module Parsing {
  import opened Wrappers
  import opened Collections
  import opened JavaLang
  import opened Employees
  import opened Errors

  const REQUIRED_HEADERS: seq<string> := ["Id", "firstName", "lastName", "salary", "managerId"]

  /** The most data rows one input may have. */
  const MAX_DATA_ROWS: nat := 1000

  /** Column name to position in the header. */
  type ColumnIndices = map<string, nat>

  /** Employee id to employee: the registry the analyses read. */
  type Registry = map<string, Employee>

  /** Every employee is filed under its own id. */
  ghost predicate ValidRegistry(reg: Registry) {
    forall k :: k in reg ==> reg[k].id == k
  }

  /** The header names all five required columns (others may come in any order). */
  predicate HasRequiredHeaders(headers: seq<string>) {
    forall h :: h in REQUIRED_HEADERS ==> h in headers
  }

  /** The column positions the header loop records: each name is put in turn, so a
      repeated name ends up at its last position. */
  function ColumnMap(headers: seq<string>): ColumnIndices
    decreases |headers|
  {
    if headers == [] then map[]
    else ColumnMap(headers[..|headers| - 1])[headers[|headers| - 1] := |headers| - 1]
  }

  /** The column map knows exactly the header names, each at the last position it occupies. */
  lemma ColumnMapIsLastPosition(headers: seq<string>)
    ensures ColumnMap(headers).Keys == set h | h in headers
    ensures forall h :: h in ColumnMap(headers) ==>
      ColumnMap(headers)[h] < |headers| && headers[ColumnMap(headers)[h]] == h &&
      forall j :: ColumnMap(headers)[h] < j < |headers| ==> headers[j] != h
  {
    ColumnMapKeys(headers);
    ColumnMapPositions(headers);
  }

  lemma {:induction false} ColumnMapKeys(headers: seq<string>)
    ensures ColumnMap(headers).Keys == set h | h in headers
    decreases |headers|
  {
    if headers != [] {
      var init, last := headers[..|headers| - 1], headers[|headers| - 1];
      ColumnMapKeys(init);
      assert headers == init + [last];
      assert (set h | h in headers) == (set h | h in init) + {last};
    }
  }

  lemma {:induction false} ColumnMapPositions(headers: seq<string>)
    ensures forall h :: h in ColumnMap(headers) ==>
      ColumnMap(headers)[h] < |headers| && headers[ColumnMap(headers)[h]] == h &&
      forall j :: ColumnMap(headers)[h] < j < |headers| ==> headers[j] != h
    decreases |headers|
  {
    if headers != [] {
      var init, last := headers[..|headers| - 1], headers[|headers| - 1];
      ColumnMapPositions(init);
      var before, columns := ColumnMap(init), ColumnMap(headers);
      assert columns == before[last := |headers| - 1];
      assert forall j :: 0 <= j < |init| ==> init[j] == headers[j];
      forall h | h in columns
        ensures columns[h] < |headers| && headers[columns[h]] == h &&
          forall j :: columns[h] < j < |headers| ==> headers[j] != h
      {
        if h != last {
          assert columns[h] == before[h];
        }
      }
    }
  }


  /** `getColumnValue`: the cell of the named column, or "" when the header has no such
      column or the row has too few cells. */
  function ColumnValue(data: seq<string>, columns: ColumnIndices, name: string): (r: string)
    ensures r == "" || r in data
    ensures r != "" ==> name in columns
  {
    if name in columns && columns[name] < |data| then data[columns[name]] else ""
  }

  /** Reading a row written as comma-separated cells gives back the cell at the
      column's last header position, or "" when the row is shorter than that. */
  lemma ColumnValueOfCells(headers: seq<string>, cells: seq<string>, name: string, pos: nat)
    requires |cells| >= 1
    requires forall i :: 0 <= i < |cells| ==> ',' !in cells[i]
    requires pos < |headers| && headers[pos] == name
    requires forall j :: pos < j < |headers| ==> headers[j] != name
    ensures ColumnValue(JavaSplit(JoinWithComma(cells)), ColumnMap(headers), name) == ElementOrEmpty(cells, pos)
  {
    ColumnMapIsLastPosition(headers);
    var columns := ColumnMap(headers);
    assert name in columns;
    assert columns[name] == pos;
    var line := JoinWithComma(cells);
    SplitJoin(cells);
    JavaSplitElement(line, pos);
  }

  /** The five fields of one data row, as text. */
  datatype Row = Row(id: string, firstName: string, lastName: string, salaryText: string, managerId: string)

  function ReadRow(columns: ColumnIndices, line: string): Row
  {
    var data := JavaSplit(line);
    Row(ColumnValue(data, columns, "Id"), ColumnValue(data, columns, "firstName"),
        ColumnValue(data, columns, "lastName"), ColumnValue(data, columns, "salary"),
        ColumnValue(data, columns, "managerId"))
  }

  /** Id, first name, last name and salary must be non-empty; the manager id may be empty. */
  predicate HasRequiredFields(row: Row) {
    row.id != "" && row.firstName != "" && row.lastName != "" && row.salaryText != ""
  }

  /** A row without a manager id: the CEO. */
  predicate IsCeoRow(columns: ColumnIndices, line: string) {
    ReadRow(columns, line).managerId == ""
  }

  /** The number of CEO rows among `rows` (rows, not distinct ids). */
  function CeoRowCount(columns: ColumnIndices, rows: seq<string>): nat
    decreases |rows|
  {
    if rows == [] then 0
    else CeoRowCount(columns, rows[..|rows| - 1]) + (if IsCeoRow(columns, rows[|rows| - 1]) then 1 else 0)
  }

  /** Why data row `k` (0-based) is rejected, given that every row before it was
      accepted; the checks run in this order: the row count, the required fields, a
      second CEO, the salary's number format. */
  function RowFailure(columns: ColumnIndices, rows: seq<string>, k: nat): Option<AnalysisError>
    requires k < |rows|
  {
    if k + 1 > MAX_DATA_ROWS then Some(TooManyLines)
    else
      var row := ReadRow(columns, rows[k]);
      if !HasRequiredFields(row) then Some(MissingField(k + 1))
      else if row.managerId == "" && CeoRowCount(columns, rows[..k]) + 1 > 1 then Some(MultipleCeo)
      else if ParseInt(row.salaryText).None? then Some(SalaryFormat(row.salaryText))
      else None
  }
  /** What can reject data row k: past row 1000 always and only TooManyLines; then the
      row's own missing field, a second CEO row, or a salary that does not parse. A row
      is accepted iff none of these applies. */
  lemma RowFailureKinds(columns: ColumnIndices, rows: seq<string>, k: nat)
    requires k < |rows|
    ensures RowFailure(columns, rows, k) == Some(TooManyLines) <==> k >= MAX_DATA_ROWS
    ensures RowFailure(columns, rows, k).Some? ==>
      var e := RowFailure(columns, rows, k).value;
      e.TooManyLines? || e == MissingField(k + 1) || e.MultipleCeo? || e.SalaryFormat?
    ensures RowFailure(columns, rows, k) == Some(MultipleCeo) ==>
      ReadRow(columns, rows[k]).managerId == "" && CeoRowCount(columns, rows[..k]) >= 1
    ensures RowFailure(columns, rows, k).Some? && RowFailure(columns, rows, k).value.SalaryFormat? ==>
      RowFailure(columns, rows, k).value.text == ReadRow(columns, rows[k]).salaryText
    ensures RowFailure(columns, rows, k).None? <==>
      k < MAX_DATA_ROWS && HasRequiredFields(ReadRow(columns, rows[k])) &&
      ParseInt(ReadRow(columns, rows[k]).salaryText).Some? &&
      (ReadRow(columns, rows[k]).managerId == "" ==> CeoRowCount(columns, rows[..k]) == 0)
  {
  }


  /** The first `n` data rows are all accepted. */
  ghost predicate RowsAccepted(columns: ColumnIndices, rows: seq<string>, n: nat)
    requires n <= |rows|
  {
    forall k :: 0 <= k < n ==> RowFailure(columns, rows, k) == None
  }

  function FirstFailureFrom(columns: ColumnIndices, rows: seq<string>, k: nat): Option<AnalysisError>
    requires k <= |rows|
    decreases |rows| - k
  {
    if k == |rows| then None
    else if RowFailure(columns, rows, k).Some? then RowFailure(columns, rows, k)
    else FirstFailureFrom(columns, rows, k + 1)
  }

  /** The error that stops the parse of `rows`, if any. */
  function FirstFailure(columns: ColumnIndices, rows: seq<string>): Option<AnalysisError>
  {
    FirstFailureFrom(columns, rows, 0)
  }

  /** The employee a data row describes. */
  function RowEmployee(columns: ColumnIndices, line: string): (e: Employee)
    ensures e.id == ReadRow(columns, line).id && e.managerId == ReadRow(columns, line).managerId
  {
    var row := ReadRow(columns, line);
    var salary := match ParseInt(row.salaryText) case Some(v) => v case None => 0;
    Employee(row.id, row.firstName, row.lastName, salary, row.managerId)
  }

  /** The employees the rows describe, in row order. */
  function RowEmployees(columns: ColumnIndices, rows: seq<string>): (es: seq<Employee>)
    ensures |es| == |rows|
    ensures forall k :: 0 <= k < |rows| ==> es[k] == RowEmployee(columns, rows[k])
    decreases |rows|
  {
    if rows == [] then [] else RowEmployees(columns, rows[..|rows| - 1]) + [RowEmployee(columns, rows[|rows| - 1])]
  }

  /** The map the employees fill when each is put under its id in turn. */
  function FileById(es: seq<Employee>): Registry
    decreases |es|
  {
    if es == [] then map[] else FileById(es[..|es| - 1])[es[|es| - 1].id := es[|es| - 1]]
  }

  /** The registry the rows build. */
  function RegistryOf(columns: ColumnIndices, rows: seq<string>): Registry
  {
    FileById(RowEmployees(columns, rows))
  }

  /** The column map of the header line, or why the input is refused before any data row. */
  function HeaderColumns(lines: seq<string>): (r: Result<ColumnIndices, AnalysisError>)
    ensures lines == [] <==> r == Err(EmptyInput)
    ensures r.Ok? <==> lines != [] && HasRequiredHeaders(JavaSplit(lines[0]))
    ensures r.Ok? ==> forall h :: h in REQUIRED_HEADERS ==> h in r.value
    ensures r.Ok? ==> forall h :: h in r.value ==>
      r.value[h] < |JavaSplit(lines[0])| && JavaSplit(lines[0])[r.value[h]] == h
  {
    if lines == [] then Err(EmptyInput)
    else
      var headers := JavaSplit(lines[0]);
      if !HasRequiredHeaders(headers) then Err(MissingHeaders)
      else
        ColumnMapIsLastPosition(headers);
        Ok(ColumnMap(headers))
  }

  /** Parsing a whole input: the header line, then the data rows. */
  function ParseInput(lines: seq<string>): Result<Registry, AnalysisError>
  {
    match HeaderColumns(lines)
    case Err(e) => Err(e)
    case Ok(columns) =>
      match FirstFailure(columns, lines[1..])
      case Some(e) => Err(e)
      case None => Ok(RegistryOf(columns, lines[1..]))
  }

  // ---------------------------------------------------------------------
  // The parse stops at the first rejected row, with that row's error.

  lemma {:induction false} FirstFailureFromFinds(columns: ColumnIndices, rows: seq<string>, k: nat)
    requires k <= |rows| && RowsAccepted(columns, rows, k)
    ensures FirstFailureFrom(columns, rows, k) == None <==> RowsAccepted(columns, rows, |rows|)
    ensures FirstFailureFrom(columns, rows, k).Some? ==>
      exists j :: k <= j < |rows| && RowsAccepted(columns, rows, j) && RowFailure(columns, rows, j) == FirstFailureFrom(columns, rows, k)
    ensures forall j :: k <= j < |rows| && RowsAccepted(columns, rows, j) && RowFailure(columns, rows, j).Some? ==>
      FirstFailureFrom(columns, rows, k) == RowFailure(columns, rows, j)
    decreases |rows| - k
  {
    if k < |rows| {
      if RowFailure(columns, rows, k).None? {
        assert RowsAccepted(columns, rows, k + 1);
        FirstFailureFromFinds(columns, rows, k + 1);
      } else {
        assert !RowsAccepted(columns, rows, |rows|);
      }
    }
  }

  /** No error: every row was accepted. An error: it is the error of the first rejected
      row, and all rows before that one were accepted. */
  lemma FirstFailureIsFirstRejectedRow(columns: ColumnIndices, rows: seq<string>)
    ensures FirstFailure(columns, rows) == None <==> RowsAccepted(columns, rows, |rows|)
    ensures FirstFailure(columns, rows).Some? ==>
      exists j :: 0 <= j < |rows| && RowsAccepted(columns, rows, j) && RowFailure(columns, rows, j) == FirstFailure(columns, rows)
    ensures forall j :: 0 <= j < |rows| && RowsAccepted(columns, rows, j) && RowFailure(columns, rows, j).Some? ==>
      FirstFailure(columns, rows) == RowFailure(columns, rows, j)
  {
    FirstFailureFromFinds(columns, rows, 0);
  }

  /** Up to 1000 data rows never trip the ceiling; once 1000 rows are accepted, a
      1001st row is rejected, whatever it contains. */
  lemma RowCeiling(columns: ColumnIndices, rows: seq<string>)
    ensures |rows| <= MAX_DATA_ROWS ==> FirstFailure(columns, rows) != Some(TooManyLines)
    ensures |rows| > MAX_DATA_ROWS && RowsAccepted(columns, rows, MAX_DATA_ROWS) ==>
      FirstFailure(columns, rows) == Some(TooManyLines)
  {
    FirstFailureIsFirstRejectedRow(columns, rows);
  }

  /** A missing-field error names the 1-based line of the first row lacking a required
      field, and every row before it was accepted. */
  lemma MissingFieldNamesItsRow(columns: ColumnIndices, rows: seq<string>, line: nat)
    requires FirstFailure(columns, rows) == Some(MissingField(line))
    ensures 1 <= line <= |rows| && line <= MAX_DATA_ROWS
    ensures RowsAccepted(columns, rows, line - 1)
    ensures !HasRequiredFields(ReadRow(columns, rows[line - 1]))
  {
    FirstFailureIsFirstRejectedRow(columns, rows);
    var j :| 0 <= j < |rows| && RowsAccepted(columns, rows, j) && RowFailure(columns, rows, j) == Some(MissingField(line));
    assert j + 1 == line;
  }

  lemma {:induction false} CeoRowCounted(columns: ColumnIndices, rows: seq<string>, i: nat)
    requires i < |rows| && IsCeoRow(columns, rows[i])
    ensures CeoRowCount(columns, rows) >= 1
    decreases |rows|
  {
    if i < |rows| - 1 {
      CeoRowCounted(columns, rows[..|rows| - 1], i);
    }
  }

  /** A second CEO row, with its fields present and within the row ceiling, stops the
      parse with the multiple-CEO error. */
  lemma SecondCeoRowRejected(columns: ColumnIndices, rows: seq<string>, first: nat, second: nat)
    requires first < second < |rows| && second < MAX_DATA_ROWS
    requires RowsAccepted(columns, rows, second)
    requires IsCeoRow(columns, rows[first]) && IsCeoRow(columns, rows[second])
    requires HasRequiredFields(ReadRow(columns, rows[second]))
    ensures FirstFailure(columns, rows) == Some(MultipleCeo)
  {
    assert rows[..second][first] == rows[first];
    CeoRowCounted(columns, rows[..second], first);
    FirstFailureIsFirstRejectedRow(columns, rows);
  }

  /** Accepted input has at most one CEO row. */
  lemma AcceptedRowsHaveOneCeoAtMost(columns: ColumnIndices, rows: seq<string>)
    requires RowsAccepted(columns, rows, |rows|)
    ensures forall i, j :: 0 <= i < j < |rows| && IsCeoRow(columns, rows[i]) ==> !IsCeoRow(columns, rows[j])
  {
    forall i, j | 0 <= i < j < |rows| && IsCeoRow(columns, rows[i])
      ensures !IsCeoRow(columns, rows[j])
    {
      assert rows[..j][i] == rows[i];
      CeoRowCounted(columns, rows[..j], i);
      assert RowFailure(columns, rows, j) == None;
    }
  }

  // ---------------------------------------------------------------------
  // The registry of the accepted rows.

  /** `es[k]` is the last employee of `es` whose id is `id`. */
  ghost predicate IsLastWithId(es: seq<Employee>, k: nat, id: string)
    requires k < |es|
  {
    es[k].id == id && forall j :: k < j < |es| ==> es[j].id != id
  }

  /** The map holds exactly the ids of the employees. */
  lemma {:induction false} FileByIdKeys(es: seq<Employee>)
    ensures forall id :: id in FileById(es) <==> exists k :: 0 <= k < |es| && es[k].id == id
    decreases |es|
  {
    if es != [] {
      var init := es[..|es| - 1];
      FileByIdKeys(init);
      assert forall k :: 0 <= k < |init| ==> init[k] == es[k];
    }
  }

  /** Each entry is the last employee carrying its id: a later duplicate id overwrites
      an earlier one. */
  lemma {:induction false} FileByIdValues(es: seq<Employee>)
    ensures forall id :: id in FileById(es) ==>
      exists k :: 0 <= k < |es| && IsLastWithId(es, k, id) && FileById(es)[id] == es[k]
    decreases |es|
  {
    if es != [] {
      var n := |es| - 1;
      var init := es[..n];
      FileByIdValues(init);
      forall id | id in FileById(es)
        ensures exists k :: 0 <= k < |es| && IsLastWithId(es, k, id) && FileById(es)[id] == es[k]
      {
        if id == es[n].id {
          assert IsLastWithId(es, n, id);
        } else {
          assert id in FileById(init);
          var k :| 0 <= k < n && IsLastWithId(init, k, id) && FileById(init)[id] == init[k];
          assert IsLastWithId(es, k, id);
        }
      }
    }
  }

  /** The registry holds exactly the row ids. */
  lemma RegistryOfKeys(columns: ColumnIndices, rows: seq<string>)
    ensures forall id :: id in RegistryOf(columns, rows) <==>
      exists k :: 0 <= k < |rows| && ReadRow(columns, rows[k]).id == id
  {
    var es := RowEmployees(columns, rows);
    FileByIdKeys(es);
    forall id | id in RegistryOf(columns, rows)
      ensures exists k :: 0 <= k < |rows| && ReadRow(columns, rows[k]).id == id
    {
      var k :| 0 <= k < |es| && es[k].id == id;
      assert ReadRow(columns, rows[k]).id == id;
    }
    forall id, k | 0 <= k < |rows| && ReadRow(columns, rows[k]).id == id
      ensures id in RegistryOf(columns, rows)
    {
      assert es[k].id == id;
    }
  }

  /** The row an entry of the registry comes from: the last row carrying its id. */
  lemma RegistryEntryRow(columns: ColumnIndices, rows: seq<string>, id: string) returns (k: nat)
    requires id in RegistryOf(columns, rows)
    ensures k < |rows| && ReadRow(columns, rows[k]).id == id
    ensures forall j :: k < j < |rows| ==> ReadRow(columns, rows[j]).id != id
    ensures RegistryOf(columns, rows)[id] == RowEmployee(columns, rows[k])
  {
    var es := RowEmployees(columns, rows);
    FileByIdValues(es);
    k :| 0 <= k < |es| && IsLastWithId(es, k, id) && FileById(es)[id] == es[k];
    forall j | k < j < |rows|
      ensures ReadRow(columns, rows[j]).id != id
    {
      assert es[j].id != id;
    }
  }

  /** An accepted row's salary fits in an `int`. */
  lemma AcceptedRowSalary(columns: ColumnIndices, rows: seq<string>, k: nat)
    requires k < |rows| && RowFailure(columns, rows, k) == None
    ensures IsInt(RowEmployee(columns, rows[k]).salary)
  {
    var row := ReadRow(columns, rows[k]);
    assert ParseInt(row.salaryText).Some?;
  }

  /** The registry of accepted rows files every employee under its own id, holds only
      salaries that fit in an `int`, and has at most one employee without a manager. */
  lemma AcceptedRegistryInvariant(columns: ColumnIndices, rows: seq<string>)
    requires RowsAccepted(columns, rows, |rows|)
    ensures ValidRegistry(RegistryOf(columns, rows))
    ensures forall k :: k in RegistryOf(columns, rows) ==> IsInt(RegistryOf(columns, rows)[k].salary)
    ensures forall a, b :: (a in RegistryOf(columns, rows) && b in RegistryOf(columns, rows) &&
      RegistryOf(columns, rows)[a].managerId == "" && RegistryOf(columns, rows)[b].managerId == "") ==> a == b
  {
    var reg := RegistryOf(columns, rows);
    forall k | k in reg
      ensures reg[k].id == k && IsInt(reg[k].salary)
    {
      var r := RegistryEntryRow(columns, rows, k);
      AcceptedRowSalary(columns, rows, r);
    }
    forall a, b | a in reg && b in reg && reg[a].managerId == "" && reg[b].managerId == ""
      ensures a == b
    {
      var ra := RegistryEntryRow(columns, rows, a);
      var rb := RegistryEntryRow(columns, rows, b);
      AcceptedRowsHaveOneCeoAtMost(columns, rows);
      assert IsCeoRow(columns, rows[ra]) && IsCeoRow(columns, rows[rb]);
    }
  }

  // ---------------------------------------------------------------------
  // One row at a time, as the parsing loop reads them.

  /** The registry of one more row is the previous one with that row's employee put. */
  lemma RegistryOfStep(columns: ColumnIndices, rows: seq<string>, i: nat)
    requires i < |rows|
    ensures RegistryOf(columns, rows[..i + 1]) ==
      RegistryOf(columns, rows[..i])[RowEmployee(columns, rows[i]).id := RowEmployee(columns, rows[i])]
  {
    assert rows[..i + 1][..i] == rows[..i];
  }

  /** Counting the CEO rows of one more row. */
  lemma CeoRowCountStep(columns: ColumnIndices, rows: seq<string>, i: nat)
    requires i < |rows|
    ensures CeoRowCount(columns, rows[..i + 1]) ==
      CeoRowCount(columns, rows[..i]) + (if IsCeoRow(columns, rows[i]) then 1 else 0)
  {
    assert rows[..i + 1][..i] == rows[..i];
  }

  /** The map filled by putting each employee under its id files every employee under its own id. */
  lemma {:induction false} FileByIdIsValid(es: seq<Employee>)
    ensures ValidRegistry(FileById(es))
    decreases |es|
  {
    if es != [] {
      FileByIdIsValid(es[..|es| - 1]);
    }
  }

  /** The parse ends with the error of a rejected row all of whose predecessors were accepted. */
  lemma FirstFailureAt(columns: ColumnIndices, rows: seq<string>, j: nat)
    requires j < |rows| && RowsAccepted(columns, rows, j) && RowFailure(columns, rows, j).Some?
    ensures FirstFailure(columns, rows) == RowFailure(columns, rows, j)
  {
    FirstFailureIsFirstRejectedRow(columns, rows);
  }

  /** The parse of rows that are all accepted ends without error. */
  lemma NoFailureWhenAccepted(columns: ColumnIndices, rows: seq<string>)
    requires RowsAccepted(columns, rows, |rows|)
    ensures FirstFailure(columns, rows) == None
  {
    FirstFailureIsFirstRejectedRow(columns, rows);
  }

  /** Putting the registry of some rows over a valid map leaves a valid map. */
  lemma RegistryValid(base: Registry, columns: ColumnIndices, rows: seq<string>)
    requires ValidRegistry(base)
    ensures ValidRegistry(base + RegistryOf(columns, rows))
  {
    FileByIdIsValid(RowEmployees(columns, rows));
  }

  /** One more accepted row. */
  lemma AcceptedStep(columns: ColumnIndices, rows: seq<string>, i: nat)
    requires i < |rows| && RowsAccepted(columns, rows, i) && RowFailure(columns, rows, i) == None
    ensures RowsAccepted(columns, rows, i + 1)
  {
  }
}
