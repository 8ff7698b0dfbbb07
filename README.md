# Organizational analyser, modelled in Dafny

This project models the batch pipeline of `OrganizationalAnalyser`. The pipeline reads a
comma-separated employee file. First it checks that the header names the columns `Id`,
`firstName`, `lastName`, `salary` and `managerId`. The data rows fill a map from id to
`Employee`. The parse stops at the first row that is past the 1000-row ceiling, lacks a
required field, is a second manager-less ("CEO") row, or has a salary that is not an `int`.
Two reports are then produced over that map:

- **Salary report.** The employees are grouped by manager id. A manager is flagged when
  their salary is below the fifth, or above the half, of the group's integer average,
  each rounded toward zero. The amount reported is the distance to that bound, computed
  as a 32-bit `int` subtraction.
- **Reporting-line report.** A tree of `TreeNode` objects is built from the manager ids. It
  is walked breadth first from the CEO, and every employee whose parent chain holds more
  than 4 nodes is flagged.

Modules, one concern each:

- `Wrappers`: Option and Result.
- `Collections`: sequence facts and map enumeration. A Java `HashMap`'s iteration order is
  modelled as an arbitrary duplicate-free enumeration of its keys.
- `JavaLang`: the Java platform pieces the code uses: 32-bit `int` wrap-around, division
  that rounds toward zero, `Integer.parseInt`, `Integer.toString`, `String.split(",")` and
  the hash codes.
- `Employees`: `Employee.java`, as an immutable datatype.
- `TreeNodes`: `TreeNode.java`, as a class with mutable fields.
- `Errors`: every way a run aborts. Each has its exception message, except the
  NullPointerException of an unresolved manager id (`ManagerNotFound`), whose wording
  comes from the Java runtime.
- Specification functions, with the lemmas that state what the code promises:
  - `Parsing`: the header check, the row checks and the registry the rows build.
  - `SalaryBands`: the groups, the average, the band and the report.
  - `Hierarchy`: the tree as an arena keyed by id, its breadth-first levels and the
    depth findings.
- `OrganizationalAnalysis`: the `Analyser` class.
  - It has the fields `employeeMap` and `ceo`, and one method per method of the Java class.
  - Each method is proved against the specification functions above.
  - The loop bodies that do real work are split out as module-level methods: `CheckRow`,
    `CheckManager`, `LinkAt`/`LinkEmployee` and `VisitNode`. So are the two loops of
    `constructTree` (`MakeNodes`, `LinkNodes`) and `getDepth`, which reads no field of the
    analyser.
  - These methods build and mutate real `TreeNode` objects. Ghost maps mirror the
    `directReports` and `parent` fields of every node, so that the loops can be proved.

The input is the sequence of lines of the file, header first. Exceptions become `Err`
outcomes carrying an `AnalysisError`. The iteration orders of `employeeMap` and of the
`groupingBy` result are the methods' ghost out-parameters. The reports are stated as
functions of those orders.

Three behaviours of the code are easy to misread; the model follows the code:

- **Unresolved manager id in the salary analysis.** Such a group is not skipped. In the
  code, `employeeMap.get` returns null, and `manager.getSalary()` throws a
  NullPointerException (lines 58-60). The model makes this the `ManagerNotFound` error. As a
  result, a dangling manager id always aborts the run before the tree is built
  (`DanglingManagerAbortsRun`).
- **Depth.** The code counts the nodes from an employee up to the root, both included, and
  flags the employee when that count exceeds 4. The amount reported is the count minus 4.
  For a chain CEO-B-C-D-E-F this reports E by 1 and F by 2, not F alone by 1.
- **Missing CEO.** "No CEO found!" also arises when the CEO row was accepted but a later row
  with the same id overwrote it with an employee who has a manager.

## Model

| member | source | states |
|---|---|---|
| Employees.Employee.Equals | src/main/java/com/company/Employee.java:33-39 | true iff the other object is present and all five fields are equal |
| Employees.Employee.HashCode | src/main/java/com/company/Employee.java:41-44 | the hash is an `int` (computed by `Objects.hash` over the five fields with 32-bit wrap) |
| Employees.Employee.FullName | src/main/java/com/company/Employee.java:46-49 | the name is the first name, one space, then the last name |
| Employees.EqualsIsEquivalence | src/main/java/com/company/Employee.java:33-39 | `equals` is reflexive, symmetric and transitive, and false for null or another class |
| Employees.EqualEmployeesHashAlike | src/main/java/com/company/Employee.java:33-44 | equal employees have equal hash codes |
| TreeNodes.TreeNode.constructor | src/main/java/com/company/TreeNode.java:15-18 | a new node holds the given employee, no direct reports and no parent |
| TreeNodes.TreeNode.SetParent | src/main/java/com/company/TreeNode.java:37-39 | the parent becomes the argument; only the `parent` field may change |
| TreeNodes.TreeNode.AddDirectReport | src/main/java/com/company/TreeNode.java:20-23 | the child is appended at the end of the receiver's list (earlier entries unchanged) and gets the receiver as parent; nothing else changes, so the child is not removed from an earlier parent's list |
| TreeNodes.TreeNode.Equals | src/main/java/com/company/TreeNode.java:41-47 | nodes are equal iff the other node is non-null and their employees are equal |
| TreeNodes.TreeNode.HashCode | src/main/java/com/company/TreeNode.java:49-52 | the hash is an `int` |
| TreeNodes.TreeNode.GetEmployee | src/main/java/com/company/TreeNode.java:25-27 | the node's employee (a getter, no contract of its own) |
| TreeNodes.TreeNode.GetDirectReports | src/main/java/com/company/TreeNode.java:29-31 | the node's direct reports (a getter, no contract of its own) |
| TreeNodes.TreeNode.GetParent | src/main/java/com/company/TreeNode.java:33-35 | the node's parent (a getter, no contract of its own) |
| TreeNodes.EqualNodesHashAlike | src/main/java/com/company/TreeNode.java:41-52 | equal nodes have equal hash codes |
| Errors.Message | src/main/java/com/company/OrganizationalAnalyser.java:96-183 | every error but ManagerNotFound has a non-empty message; ManagerNotFound has none |
| JavaLang.WrapInt | src/main/java/com/company/OrganizationalAnalyser.java:56 | the result is an `int`, congruent to the argument modulo 2^32, and equal to it when the argument is already an `int` |
| JavaLang.TruncDiv | src/main/java/com/company/OrganizationalAnalyser.java:57 | Java's `/` for a positive divisor, rounding toward zero (no contract of its own; `TruncDivBounds` states it) |
| JavaLang.WrapIntOverflow | src/main/java/com/company/OrganizationalAnalyser.java:64-66 | a value past the top of the `int` range but below 2^32 wraps to itself minus 2^32, which is negative |
| JavaLang.TruncDivBounds | src/main/java/com/company/OrganizationalAnalyser.java:57 | the quotient rounded toward zero lies within one divisor of the dividend, on the dividend's side of zero |
| JavaLang.ParseInt | src/main/java/com/company/OrganizationalAnalyser.java:186 | a parsed value is an `int`, read from a non-empty string made of an optional sign and decimal digits |
| JavaLang.NatToString | src/main/java/com/company/OrganizationalAnalyser.java:177 | decimal digits, non-empty, with no leading zero |
| JavaLang.NatToStringValue | src/main/java/com/company/OrganizationalAnalyser.java:177 | the digits written for n have the value n |
| JavaLang.IntToString | src/main/java/com/company/OrganizationalAnalyser.java:64-66 | `Integer.toString` of the amounts in the salary lines and of the excess in line 108: a minus sign before the digits of a negative value (no contract of its own; `ParseIntToString` proves `Integer.parseInt` reads every such string back to its value) |
| JavaLang.ParseIntToString | src/main/java/com/company/OrganizationalAnalyser.java:186 | `Integer.parseInt` reads back every `int` that `Integer.toString` writes |
| JavaLang.SplitOnComma | src/main/java/com/company/OrganizationalAnalyser.java:139 | at least one piece, no piece contains a comma, and a comma-free string is its own single piece |
| JavaLang.JoinSplit | src/main/java/com/company/OrganizationalAnalyser.java:139 | joining the pieces with commas gives back the line |
| JavaLang.SplitJoin | src/main/java/com/company/OrganizationalAnalyser.java:169 | splitting comma-free cells joined with commas gives back the cells |
| JavaLang.SplitAfterPiece | src/main/java/com/company/OrganizationalAnalyser.java:169 | a comma-free piece followed by a comma splits off as the first piece |
| JavaLang.DropTrailingEmpty | src/main/java/com/company/OrganizationalAnalyser.java:139 | the result is a prefix, everything dropped is empty, and the result does not end in an empty piece |
| JavaLang.JavaSplit | src/main/java/com/company/OrganizationalAnalyser.java:139 | a comma-free string is its own single piece; no piece contains a comma; with a comma, the pieces are the plain split with the trailing empty pieces dropped, so the last piece kept is non-empty |
| JavaLang.JavaSplitElement | src/main/java/com/company/OrganizationalAnalyser.java:192-195 | looking a cell up by position, with "" past the end, gives the same for Java's split as for a plain split |
| JavaLang.Utf16 | src/main/java/com/company/Employee.java:43 | every code unit is below 0x10000, with one or two units per character |
| JavaLang.PolynomialHash | src/main/java/com/company/Employee.java:43 | the `31 * h + x` hash stays an `int` |
| JavaLang.StringHash | src/main/java/com/company/Employee.java:43 | `String.hashCode` is an `int` |
| JavaLang.ObjectsHash | src/main/java/com/company/Employee.java:43 | `Objects.hash` is an `int` |
| Collections.EnumerateKeys | src/main/java/com/company/OrganizationalAnalyser.java:50-54 | the iteration order of a `HashMap` (`values()`, `entrySet()`), left open: some enumeration of the keys, each once |
| Parsing.ColumnMapIsLastPosition | src/main/java/com/company/OrganizationalAnalyser.java:149-151 | the column map has exactly the header names as keys, each at the last position where it occurs |
| Parsing.ColumnMapKeys | src/main/java/com/company/OrganizationalAnalyser.java:149-151 | the column map's keys are exactly the header names |
| Parsing.ColumnMapPositions | src/main/java/com/company/OrganizationalAnalyser.java:149-151 | each header name maps to a position holding that name, and no later position holds it |
| Parsing.ColumnMap | src/main/java/com/company/OrganizationalAnalyser.java:149-151 | each header name put with its position, later positions overwriting earlier ones (no contract of its own; `ColumnMapIsLastPosition` states its content) |
| Parsing.HeaderColumns | src/main/java/com/company/OrganizationalAnalyser.java:138-156 | the empty-input error iff there is no line; a column map iff the first line's pieces include all five required names, and then every required name is a key and each key maps to a position that holds it |
| Parsing.ColumnValue | src/main/java/com/company/OrganizationalAnalyser.java:192-195 | the value is "" or one of the row's cells, and it is "" when the column has no header |
| Parsing.RowFailure | src/main/java/com/company/OrganizationalAnalyser.java:164-186 | the error a data row ends the parse with, checked in the code's order (no contract of its own; `RowFailureKinds` states its cases) |
| Parsing.RowFailureKinds | src/main/java/com/company/OrganizationalAnalyser.java:164-186 | row k is rejected with TooManyLines iff it is past row 1000; a rejection is TooManyLines, the missing field of line k + 1, a second CEO row after at least one earlier, or the row's own salary text; a row is accepted iff it is within the ceiling, has its four fields, parses its salary, and is not a second manager-less row |
| Parsing.ReadRow | src/main/java/com/company/OrganizationalAnalyser.java:169-174 | the five cells of a data row, each looked up by header name (no contract of its own; `RowEmployee`, `RegistryOfKeys` and `MissingFieldNamesItsRow` state what is read) |
| Parsing.ColumnValueOfCells | src/main/java/com/company/OrganizationalAnalyser.java:192-195 | a row of comma-free cells reads, for a header column, the cell at that column's last header position, or "" when the row is shorter |
| Parsing.RowEmployee | src/main/java/com/company/OrganizationalAnalyser.java:186-187 | the employee of a row carries the row's id and manager id |
| Parsing.RowEmployees | src/main/java/com/company/OrganizationalAnalyser.java:163-187 | one employee per row, in row order |
| Parsing.FirstFailureFromFinds | src/main/java/com/company/OrganizationalAnalyser.java:163-189 | scanning from an accepted prefix finds no error iff every row is accepted, and otherwise finds the error of the first rejected row |
| Parsing.FirstFailureIsFirstRejectedRow | src/main/java/com/company/OrganizationalAnalyser.java:163-189 | the parse has no error iff every row is accepted; an error is that of a row all of whose predecessors were accepted, and there is only one such row |
| Parsing.FirstFailure | src/main/java/com/company/OrganizationalAnalyser.java:163-189 | the error of the first rejected row, or none (no contract of its own; `FirstFailureIsFirstRejectedRow` states it) |
| Parsing.RowCeiling | src/main/java/com/company/OrganizationalAnalyser.java:164-167 | up to 1000 rows never give the row-count error; a 1001st row after 1000 accepted ones gives it, whatever its content |
| Parsing.MissingFieldNamesItsRow | src/main/java/com/company/OrganizationalAnalyser.java:176-178 | a missing-field error names the 1-based line of a row lacking id, first name, last name or salary, and every earlier row was accepted |
| Parsing.CeoRowCounted | src/main/java/com/company/OrganizationalAnalyser.java:180-181 | a manager-less row is counted |
| Parsing.SecondCeoRowRejected | src/main/java/com/company/OrganizationalAnalyser.java:180-185 | a second manager-less row that has its fields and is within the ceiling stops the parse with the multiple-CEO error; rows are counted, not distinct ids |
| Parsing.AcceptedRowsHaveOneCeoAtMost | src/main/java/com/company/OrganizationalAnalyser.java:180-185 | accepted input has at most one manager-less row |
| Parsing.FileByIdKeys | src/main/java/com/company/OrganizationalAnalyser.java:188 | the map holds exactly the ids of the employees put |
| Parsing.FileByIdValues | src/main/java/com/company/OrganizationalAnalyser.java:188 | each entry is the last employee put with its id |
| Parsing.FileByIdIsValid | src/main/java/com/company/OrganizationalAnalyser.java:188 | every employee is filed under its own id |
| Parsing.RegistryOfKeys | src/main/java/com/company/OrganizationalAnalyser.java:186-188 | the registry's keys are exactly the row ids |
| Parsing.RegistryEntryRow | src/main/java/com/company/OrganizationalAnalyser.java:186-188 | each entry is the employee of the last row carrying its id, so a duplicate id overwrites without error |
| Parsing.RegistryOf | src/main/java/com/company/OrganizationalAnalyser.java:186-188 | the map the accepted rows build, each employee put under its id, the last row with an id winning (no contract of its own; `RegistryOfKeys`, `RegistryEntryRow` and `RegistryValid` state its content) |
| Parsing.ParseInput | src/main/java/com/company/OrganizationalAnalyser.java:135-190 | the header error, the first row error, or the map of all rows (no contract of its own; `Analyser.AnalyseOrganizationalInput` ends with this map in `employeeMap`) |
| Parsing.AcceptedRowSalary | src/main/java/com/company/OrganizationalAnalyser.java:186 | an accepted row's salary is an `int` |
| Parsing.AcceptedRegistryInvariant | src/main/java/com/company/OrganizationalAnalyser.java:180-188 | the registry of accepted rows files each employee under its id, holds `int` salaries only, and has at most one employee without a manager id |
| Parsing.RegistryOfStep | src/main/java/com/company/OrganizationalAnalyser.java:188 | one more row puts that row's employee under its id |
| Parsing.CeoRowCountStep | src/main/java/com/company/OrganizationalAnalyser.java:180-181 | one more row adds one to the CEO count iff it has no manager id |
| Parsing.FirstFailureAt | src/main/java/com/company/OrganizationalAnalyser.java:163-189 | the parse ends with the error of a rejected row whose predecessors were all accepted |
| Parsing.NoFailureWhenAccepted | src/main/java/com/company/OrganizationalAnalyser.java:163-189 | the parse of accepted rows ends without error |
| Parsing.RegistryValid | src/main/java/com/company/OrganizationalAnalyser.java:188 | putting the rows' employees over a valid map keeps every employee under its own id |
| Parsing.AcceptedStep | src/main/java/com/company/OrganizationalAnalyser.java:163-189 | an accepted row extends the accepted prefix by one |
| SalaryBands.SubordinateSource | src/main/java/com/company/OrganizationalAnalyser.java:50-52 | every member of a group is an employee of the map whose manager id is the group key |
| SalaryBands.SubordinatePresent | src/main/java/com/company/OrganizationalAnalyser.java:50-52 | every employee whose manager id is the key is in the group |
| SalaryBands.GroupsAreDirectReports | src/main/java/com/company/OrganizationalAnalyser.java:50-52 | there is a group iff the key is a non-empty manager id that some employee carries; a group is non-empty and holds exactly the employees with that manager id, so the CEO is in no group |
| SalaryBands.GroupsCovered | src/main/java/com/company/OrganizationalAnalyser.java:50-54 | every enumerated group key names a non-empty group |
| SalaryBands.TotalSalary | src/main/java/com/company/OrganizationalAnalyser.java:56 | the exact sum of the group's salaries (no contract of its own; `TotalSalaryBounds` bounds it by the least and greatest salary, and `TotalSalaryAsWritten` relates it to the 32-bit sum) |
| SalaryBands.TotalSalaryAsWritten | src/main/java/com/company/OrganizationalAnalyser.java:56 | the sum the code computes, wrapping at each addition, is the exact sum wrapped once to 32 bits |
| SalaryBands.WrapIntOfSum | src/main/java/com/company/OrganizationalAnalyser.java:56 | wrapping a partial sum before adding the next salary changes nothing |
| SalaryBands.WrapIntCongruent | src/main/java/com/company/OrganizationalAnalyser.java:56 | integers that differ by a multiple of 2^32 wrap to the same `int` |
| SalaryBands.TotalSalaryBounds | src/main/java/com/company/OrganizationalAnalyser.java:56 | the exact sum of n salaries in [lo, hi] lies in [lo·n, hi·n] |
| SalaryBands.AverageWithinSalaries | src/main/java/com/company/OrganizationalAnalyser.java:56-57 | the average over the exact sum lies between the least and the greatest salary of the group |
| SalaryBands.AsWrittenAverageLeavesRange | src/main/java/com/company/OrganizationalAnalyser.java:56-57 | for two reports earning 2,000,000,000 each, the code's average is −147,483,648, while the exact average is 2,000,000,000 |
| SalaryBands.Verdict | src/main/java/com/company/OrganizationalAnalyser.java:60-67 | a line, if any, is about the manager given |
| SalaryBands.VerdictAgainstAverage | src/main/java/com/company/OrganizationalAnalyser.java:61-67 | for a non-negative average and salary: the manager is below iff 5·(salary+1) ≤ average, and above iff 2·salary > average. Nothing is reported iff lower ≤ salary ≤ upper, so a salary equal to a bound is not reported. Any amount is ≥ 1: lower − salary when below, salary − upper when above |
| SalaryBands.NegativeAverageInvertsBand | src/main/java/com/company/OrganizationalAnalyser.java:61-67 | for a negative average, the upper bound lies below the lower bound iff the average is −2 or less, and then every manager is reported, since no salary lies between the bounds; at −1 both bounds are 0 and only a salary of 0 goes unreported |
| SalaryBands.VerdictOverInts | src/main/java/com/company/OrganizationalAnalyser.java:60-67 | for every `int` average and salary: below iff the salary is under the lower bound, above iff it is not under the lower bound and over the upper one. The amount is the exact distance to the bound, at least 1, when that distance is an `int`, and otherwise that distance minus 2^32, a negative number |
| SalaryBands.WrappedBelowAmount | src/main/java/com/company/OrganizationalAnalyser.java:63-64 | a manager earning −2^31 over reports averaging 0 is reported below by −2^31, because `0 - (-2147483648)` wraps |
| SalaryBands.LowerBound | src/main/java/com/company/OrganizationalAnalyser.java:61 | the lower bound is the average divided by 5, rounded toward zero: 5·b ≤ avg < 5·b + 5 for a non-negative average, 5·b − 5 < avg ≤ 5·b for a negative one |
| SalaryBands.UpperBound | src/main/java/com/company/OrganizationalAnalyser.java:62 | the upper bound is the average divided by 2, rounded toward zero, with the same two cases |
| SalaryBands.AverageSalary | src/main/java/com/company/OrganizationalAnalyser.java:56-57 | the exact sum of the group's salaries divided by its size, rounded toward zero (no contract of its own; `AverageWithinSalaries` states its bounds) |
| SalaryBands.AverageSalaryAsWritten | src/main/java/com/company/OrganizationalAnalyser.java:56-57 | line 57 as written: the 32-bit wrapped sum divided by the group size, rounded toward zero (no contract of its own; `AsWrittenAverageLeavesRange` exhibits an average outside the group's salaries) |
| SalaryBands.GroupByManager | src/main/java/com/company/OrganizationalAnalyser.java:50-52 | one group per non-empty manager id, holding the employees with that id in iteration order (no contract of its own; `GroupsAreDirectReports` states what the groups hold) |
| SalaryBands.SalaryReport | src/main/java/com/company/OrganizationalAnalyser.java:54-68 | a successful report has at most one line per group key, and the only error it ends with is ManagerNotFound |
| SalaryBands.GroupVerdict | src/main/java/com/company/OrganizationalAnalyser.java:58-67 | the NullPointerException (ManagerNotFound) when the group key names no employee, otherwise the verdict of that manager against the group average (no contract of its own; `ReportFailureSource`, `DanglingKeyFails` and `GroupLineReported` state its effect on the report) |
| SalaryBands.SalaryOutcome | src/main/java/com/company/OrganizationalAnalyser.java:50-68 | the salary report of the groups of the enumerated map, in the order the group keys are visited (no contract of its own; `SalaryReport`'s contract and its partner lemmas apply) |
| SalaryBands.ReportFailureSource | src/main/java/com/company/OrganizationalAnalyser.java:58-60 | the salary report fails only with ManagerNotFound, and only at a group key that names no employee |
| SalaryBands.DanglingKeyFails | src/main/java/com/company/OrganizationalAnalyser.java:58-60 | a group key naming no employee makes the report fail |
| SalaryBands.ReportedLineSource | src/main/java/com/company/OrganizationalAnalyser.java:54-68 | every reported line is the verdict of one group's manager against that group's average |
| SalaryBands.GroupLineReported | src/main/java/com/company/OrganizationalAnalyser.java:54-68 | when the report succeeds, every group's manager exists and its verdict, if any, is in the report |
| SalaryBands.ReportedManagers | src/main/java/com/company/OrganizationalAnalyser.java:64-66 | one manager id per line, in report order |
| SalaryBands.OneLinePerManager | src/main/java/com/company/OrganizationalAnalyser.java:54-68 | no manager is named twice in the report |
| SalaryBands.ReportedManagerEarlier | src/main/java/com/company/OrganizationalAnalyser.java:54-68 | a manager named in the report is one of the group keys visited |
| SalaryBands.SalaryLine | src/main/java/com/company/OrganizationalAnalyser.java:64-66 | the line starts with the manager's full name |
| Hierarchy.LastCeo | src/main/java/com/company/OrganizationalAnalyser.java:80-84 | the CEO found is an enumerated employee without a manager id |
| Hierarchy.LastCeoFound | src/main/java/com/company/OrganizationalAnalyser.java:80-84 | over an enumeration of the map, a CEO is found iff some employee has no manager id |
| Hierarchy.LastCeoFindsMember | src/main/java/com/company/OrganizationalAnalyser.java:80-84 | any enumerated manager-less employee makes the builder find a CEO |
| Hierarchy.ManagerOf | src/main/java/com/company/OrganizationalAnalyser.java:85-87 | the link the builder makes: the manager id, when it is non-empty and names an employee, and no link otherwise (no contract of its own; `LinkedEmployeesAreChildren` and `UnresolvedManagerIsUnreachable` state its effect) |
| Hierarchy.ChildIds | src/main/java/com/company/OrganizationalAnalyser.java:80-88 | the employees linked to one manager, in iteration order: that node's direct-report list (no contract of its own; `ChildIdsMembership` and `ChildIdsNoDup` state its content) |
| Hierarchy.Children | src/main/java/com/company/OrganizationalAnalyser.java:112-114 | the ids the queue receives while one level is polled: the direct reports of each node in turn (no contract of its own; `ChildrenMembership` and `ChildrenNoDup` state its content) |
| Hierarchy.Level | src/main/java/com/company/OrganizationalAnalyser.java:102-114 | the ids the queue holds for chains of n + 1 nodes, in queue order (no contract of its own; `LevelMember` and `LevelIsAncestorDistance` state that it is the set n links below the CEO) |
| Hierarchy.Levels | src/main/java/com/company/OrganizationalAnalyser.java:102-115 | the first n levels of the breadth-first walk (no contract of its own; `LevelsArePartition`, `LevelsDisjoint` and `LevelsBelowNoDup` state its content) |
| Hierarchy.VisitOrder | src/main/java/com/company/OrganizationalAnalyser.java:102-115 | the order in which the queue polls the ids, level after level (no contract of its own; `VisitOrderIsReachableOnce` and `VisitOrderNoDup` state that it holds each id reporting to the CEO once; `WalkTree` proves the loop polls exactly these nodes) |
| Hierarchy.Ancestor | src/main/java/com/company/OrganizationalAnalyser.java:119-126 | the id reached by following n parent links, as `getDepth` does (no contract of its own; `AncestorStep`, `AncestorCut` and `AncestorDistanceUnique` state its behaviour) |
| Hierarchy.ChildIdsMembership | src/main/java/com/company/OrganizationalAnalyser.java:80-88 | the direct reports of m are exactly the enumerated ids whose resolved manager is m |
| Hierarchy.ChildIdsNoDup | src/main/java/com/company/OrganizationalAnalyser.java:80-88 | no direct report is added twice |
| Hierarchy.ChildrenMembership | src/main/java/com/company/OrganizationalAnalyser.java:102-114 | the ids queued after a level are exactly the enumerated ids whose manager is on that level |
| Hierarchy.ChildMember | src/main/java/com/company/OrganizationalAnalyser.java:102-114 | an id is queued after a level iff it is enumerated and its manager is on that level |
| Hierarchy.ChildrenNoDup | src/main/java/com/company/OrganizationalAnalyser.java:102-114 | the ids queued after a duplicate-free level are duplicate-free |
| Hierarchy.LinkedEmployeesAreChildren | src/main/java/com/company/OrganizationalAnalyser.java:85-87 | an employee whose manager id resolves is a direct report of exactly that manager |
| Hierarchy.UnresolvedManagerIsUnreachable | src/main/java/com/company/OrganizationalAnalyser.java:85-88 | an employee other than the root whose manager id does not resolve is never visited |
| Hierarchy.LevelMember | src/main/java/com/company/OrganizationalAnalyser.java:102-114 | an id is on level n iff it is an employee n manager links below the root |
| Hierarchy.LevelIsAncestorDistance | src/main/java/com/company/OrganizationalAnalyser.java:102-114 | level n holds exactly the employees n manager links below the root |
| Hierarchy.AncestorDistanceUnique | src/main/java/com/company/OrganizationalAnalyser.java:119-126 | an employee reaches a manager-less root after one number of links only |
| Hierarchy.LevelsDisjoint | src/main/java/com/company/OrganizationalAnalyser.java:102-115 | no employee is on two levels |
| Hierarchy.LevelNoDup | src/main/java/com/company/OrganizationalAnalyser.java:102-115 | no level holds an employee twice |
| Hierarchy.LevelsArePartition | src/main/java/com/company/OrganizationalAnalyser.java:102-115 | the levels are duplicate-free and pairwise disjoint |
| Hierarchy.LevelsBelowNoDup | src/main/java/com/company/OrganizationalAnalyser.java:102-115 | the first m levels together hold no employee twice |
| Hierarchy.VisitOrderNoDup | src/main/java/com/company/OrganizationalAnalyser.java:102-115 | the walk visits no employee twice |
| Hierarchy.LevelsBelowInRegistry | src/main/java/com/company/OrganizationalAnalyser.java:102-115 | every visited id is an employee |
| Hierarchy.LevelsAboveNonEmpty | src/main/java/com/company/OrganizationalAnalyser.java:102-115 | above a non-empty level no level is empty |
| Hierarchy.EmptyLevelStaysEmpty | src/main/java/com/company/OrganizationalAnalyser.java:102-115 | once a level is empty, every deeper level is |
| Hierarchy.LevelDepthBound | src/main/java/com/company/OrganizationalAnalyser.java:102-115 | a non-empty level lies less deep than the number of employees, so the walk ends |
| Hierarchy.ManagerOneLevelUp | src/main/java/com/company/OrganizationalAnalyser.java:119-126 | the manager of an employee on level n+1 is on level n: depth(child) = depth(manager) + 1 |
| Hierarchy.VisitOrderIsReachableOnce | src/main/java/com/company/OrganizationalAnalyser.java:99-115 | the walk visits exactly the employees that reach the root by manager links, each once |
| Hierarchy.LevelFindingSource | src/main/java/com/company/OrganizationalAnalyser.java:107-110 | a finding of a level is about an employee of that level, whose depth exceeds 4, by depth − 4 |
| Hierarchy.LevelFindingPresent | src/main/java/com/company/OrganizationalAnalyser.java:107-110 | every employee of a level deeper than 4 has its finding |
| Hierarchy.ReportedFindingSource | src/main/java/com/company/OrganizationalAnalyser.java:105-110 | a reported finding is about an employee whose chain to the root has more than 4 nodes, by the chain length minus 4 |
| Hierarchy.FindingOnLevel | src/main/java/com/company/OrganizationalAnalyser.java:105-110 | a finding of level n is about an employee of level n, by n + 1 − 4 |
| Hierarchy.ReachableOnLevel | src/main/java/com/company/OrganizationalAnalyser.java:102-115 | an employee n links below the root is on level n, one of the levels walked |
| Hierarchy.FindingListed | src/main/java/com/company/OrganizationalAnalyser.java:105-110 | the finding of an employee of a level is among the per-level findings |
| Hierarchy.LevelMemberReported | src/main/java/com/company/OrganizationalAnalyser.java:105-110 | an employee on a walked level with depth above 4 is reported |
| Hierarchy.LongChainReported | src/main/java/com/company/OrganizationalAnalyser.java:105-110 | an employee whose chain to the root has more than 4 nodes is reported, by the chain length minus 4 |
| Hierarchy.ReportedIffChainTooLong | src/main/java/com/company/OrganizationalAnalyser.java:105-110 | an employee is reported iff its chain to the root, counted in nodes, is longer than 4; the amount is the length minus 4, at least 1 |
| Hierarchy.ReportingLineFindings | src/main/java/com/company/OrganizationalAnalyser.java:99-116 | the findings of every level of the walk, level by level (no contract of its own; `ReportedIffChainTooLong` and `ReportedOnce` state its content) |
| Hierarchy.LevelFindings | src/main/java/com/company/OrganizationalAnalyser.java:105-110 | the finding of each id of one level whose chain is longer than 4, with the excess depth − 4, in queue order (no contract of its own; `LevelFindingSource` and `LevelFindingPresent` state its content) |
| Hierarchy.FindingsByLevel | src/main/java/com/company/OrganizationalAnalyser.java:102-115 | the findings of the first n levels, level by level (no contract of its own; `FindingOnLevel` and `FindingsByLevelPrefix` state its content) |
| Hierarchy.ReportingLineOutcome | src/main/java/com/company/OrganizationalAnalyser.java:94-97 | "No CEO found!" (NoCeo) when the builder finds no CEO, otherwise the findings of the walk from it (no contract of its own; `RunNeedsCeo` and `Analyser.AnalyseReportingLines` state it) |
| Hierarchy.LevelFindingsDistinct | src/main/java/com/company/OrganizationalAnalyser.java:105-110 | the findings of a duplicate-free level are about distinct employees of that level |
| Hierarchy.FindingsBelowDistinct | src/main/java/com/company/OrganizationalAnalyser.java:102-115 | the findings of the first n levels are about distinct employees of those levels |
| Hierarchy.ReportedOnce | src/main/java/com/company/OrganizationalAnalyser.java:99-116 | no two findings of the report are about the same employee, so each long-chain employee is reported exactly once |
| Hierarchy.VisitOrderSettle | src/main/java/com/company/OrganizationalAnalyser.java:102-115 | once a level is empty, the visiting order is the levels above it |
| Hierarchy.ChildOnLevel | src/main/java/com/company/OrganizationalAnalyser.java:102-114 | one step of the level characterisation: a child of the ids of a level is n links below the root iff its manager is n − 1 links below it |
| Hierarchy.FindingsBelowStep | src/main/java/com/company/OrganizationalAnalyser.java:102-115 | the findings of one more level follow those of the levels above |
| Hierarchy.FindingsByLevelPrefix | src/main/java/com/company/OrganizationalAnalyser.java:102-115 | the findings of the first n levels are a prefix of those of the first m |
| Hierarchy.FindingsBelowSettle | src/main/java/com/company/OrganizationalAnalyser.java:102-115 | past the first empty level no finding is added |
| Hierarchy.AncestorStep | src/main/java/com/company/OrganizationalAnalyser.java:121-123 | one more parent step follows one more manager link |
| Hierarchy.AncestorCut | src/main/java/com/company/OrganizationalAnalyser.java:121-123 | a chain of manager links that breaks off stays broken |
| Hierarchy.LevelPrefixStep | src/main/java/com/company/OrganizationalAnalyser.java:112-114 | taking one more id of a level queues its direct reports and adds its finding, if any |
| Hierarchy.VisitedBound | src/main/java/com/company/OrganizationalAnalyser.java:102-115 | the walk has taken at most as many ids as there are employees |
| OrganizationalAnalysis.DepthLine | src/main/java/com/company/OrganizationalAnalyser.java:108 | "Long reporting line for ", the full name, " by ", the excess, " managers." (no contract of its own; `DepthLineNamesEmployee` states the name prefix) |
| OrganizationalAnalysis.DepthLineNamesEmployee | src/main/java/com/company/OrganizationalAnalyser.java:108 | the line names the employee right after "Long reporting line for " |
| OrganizationalAnalysis.DanglingManagerAbortsRun | src/main/java/com/company/OrganizationalAnalyser.java:58-60 | a manager id naming no employee makes the whole run fail with ManagerNotFound, whatever the iteration orders are |
| OrganizationalAnalysis.RunNeedsCeo | src/main/java/com/company/OrganizationalAnalyser.java:93-97 | a run succeeds only if some employee has no manager id; after a successful parse and salary analysis, a map without one ends the run with "No CEO found!" |
| OrganizationalAnalysis.RunOutcome | src/main/java/com/company/OrganizationalAnalyser.java:32-40 | the parse error, the salary analysis error, the reporting-line error, or both reports, in that order (no contract of its own; `DanglingManagerAbortsRun` and `RunNeedsCeo` state its error cases) |
| OrganizationalAnalysis.CeoStored | src/main/java/com/company/OrganizationalAnalyser.java:82-83 | the run gets as far as building the tree and the tree has a CEO: then and only then `ceo` is set (no contract of its own; `Analyser.AnalyseOrganizationalInput` states it) |
| OrganizationalAnalysis.WiredNodesDistinct | src/main/java/com/company/OrganizationalAnalyser.java:74-78 | the tree has a node of its own for every employee |
| OrganizationalAnalysis.ReportsAfterStep | src/main/java/com/company/OrganizationalAnalyser.java:85-88 | taking an employee appends its node to its manager's direct reports iff its manager id resolves |
| OrganizationalAnalysis.ParentsAfterStep | src/main/java/com/company/OrganizationalAnalyser.java:85-88 | taking an employee makes its manager's node its parent iff its manager id resolves |
| OrganizationalAnalysis.QueueStep | src/main/java/com/company/OrganizationalAnalyser.java:102-114 | polling takes the head of the queue, and offering its direct reports keeps the queue at "rest of the level, then the children of the ids taken" |
| OrganizationalAnalysis.ReportStep | src/main/java/com/company/OrganizationalAnalyser.java:54-68 | handling a group whose manager exists appends that manager's verdict to the report |
| OrganizationalAnalysis.CeoStep | src/main/java/com/company/OrganizationalAnalyser.java:82-83 | an employee without a manager id becomes the CEO seen last |
| OrganizationalAnalysis.NextLevel | src/main/java/com/company/OrganizationalAnalyser.java:102-115 | once a level is used up, the queue holds exactly the next level, and the ids polled are the levels so far |
| OrganizationalAnalysis.FinishedWalk | src/main/java/com/company/OrganizationalAnalyser.java:102-116 | when the queue is empty, the findings gathered are all the reporting-line findings |
| OrganizationalAnalysis.EmptyQueue | src/main/java/com/company/OrganizationalAnalyser.java:102 | an empty queue means the current level is used up and the next one is empty |
| OrganizationalAnalysis.VisitOrderEndsAt | src/main/java/com/company/OrganizationalAnalyser.java:102-115 | the last non-empty level closes the visiting order |
| OrganizationalAnalysis.FinishedVisit | src/main/java/com/company/OrganizationalAnalyser.java:102-116 | when the queue is empty, the ids polled are the whole visiting order |
| OrganizationalAnalysis.MakeNodes | src/main/java/com/company/OrganizationalAnalyser.java:75-78 | one fresh node per employee, under its id, holding that employee, with no parent and no direct reports |
| OrganizationalAnalysis.LinkEmployee | src/main/java/com/company/OrganizationalAnalyser.java:85-88 | when the manager id resolves, the node is appended to the manager node's direct reports and gets it as parent; otherwise nothing changes |
| OrganizationalAnalysis.LinkAt | src/main/java/com/company/OrganizationalAnalyser.java:81-89 | one iteration keeps the nodes equal to the tree of the employees taken so far, and the root equal to the node of the last CEO seen |
| OrganizationalAnalysis.LinkedAtStart | src/main/java/com/company/OrganizationalAnalyser.java:80 | before any employee is taken, no node has reports or a parent and no CEO is seen |
| OrganizationalAnalysis.LinkedAll | src/main/java/com/company/OrganizationalAnalyser.java:80-90 | after every employee is taken, the reports and parents are those of the whole tree |
| OrganizationalAnalysis.LinkNodes | src/main/java/com/company/OrganizationalAnalyser.java:80-90 | every node's direct reports are the nodes of the employees linked to it, in iteration order; every parent is the resolved manager's node or null; the root is the node of the last manager-less employee, or null |
| OrganizationalAnalysis.BuildTree | src/main/java/com/company/OrganizationalAnalyser.java:73-91 | fresh nodes wired as the arena tree for some iteration order, and the root is the node of the last CEO in that order, or null when there is none |
| OrganizationalAnalysis.GetDepth | src/main/java/com/company/OrganizationalAnalyser.java:119-126 | the depth of an employee n links below a parentless node is n + 1, so the root has depth 1 |
| OrganizationalAnalysis.Enqueue | src/main/java/com/company/OrganizationalAnalyser.java:112-114 | the queue receives all the direct reports, in order, at its end |
| OrganizationalAnalysis.WalkAdvance | src/main/java/com/company/OrganizationalAnalyser.java:102-103 | a non-empty queue has an employee of the current or the next level at its head; moving to the next level leaves the ids polled unchanged |
| OrganizationalAnalysis.WalkReportStep | src/main/java/com/company/OrganizationalAnalyser.java:105-110 | taking an id of level n adds its line iff n + 1 > 4 |
| OrganizationalAnalysis.DepthLinesStep | src/main/java/com/company/OrganizationalAnalyser.java:109 | appending at most one finding appends at most its one line |
| OrganizationalAnalysis.VisitStep | src/main/java/com/company/OrganizationalAnalyser.java:103-114 | the head node is that of the next id, n links below the root, and the walk then has taken one more id |
| OrganizationalAnalysis.VisitNode | src/main/java/com/company/OrganizationalAnalyser.java:103-114 | one iteration of the walk takes exactly one more id off the queue, keeping queue and report as described, and polls that id's node |
| OrganizationalAnalysis.PolledStep | src/main/java/com/company/OrganizationalAnalyser.java:103 | polling one more id extends the polled ids and nodes by that id and its node |
| OrganizationalAnalysis.NodesOfSnoc | src/main/java/com/company/OrganizationalAnalyser.java:103 | the node of one more id follows the nodes of the earlier ids |
| OrganizationalAnalysis.WalkTree | src/main/java/com/company/OrganizationalAnalyser.java:99-116 | the walk's report is the lines of all reporting-line findings, level by level, and the nodes it polls are exactly those of the visiting order, so every employee reachable from the CEO is polled once |
| OrganizationalAnalysis.WalkStart | src/main/java/com/company/OrganizationalAnalyser.java:99-101 | the walk starts with the CEO's node alone in the queue, an empty report and nothing polled |
| OrganizationalAnalysis.WalkEnd | src/main/java/com/company/OrganizationalAnalyser.java:102-116 | once the queue is empty the report is complete and every id of the visiting order has been polled |
| OrganizationalAnalysis.CheckManager | src/main/java/com/company/OrganizationalAnalyser.java:55-67 | a line is produced iff the manager's verdict against the group's average is a finding, and it is that finding's line |
| OrganizationalAnalysis.ReportGroups | src/main/java/com/company/OrganizationalAnalyser.java:54-69 | the lines of the salary report of the groups in the order given, or ManagerNotFound |
| OrganizationalAnalysis.CheckRow | src/main/java/com/company/OrganizationalAnalyser.java:164-187 | the row's error iff the row is rejected; otherwise its employee and the CEO rows counted through it |
| OrganizationalAnalysis.Analyser.constructor | src/main/java/com/company/OrganizationalAnalyser.java:15-16 | an empty employee map and no CEO |
| OrganizationalAnalysis.Analyser.GetColumnIndices | src/main/java/com/company/OrganizationalAnalyser.java:135-157 | "Check file content!" for empty input, "Required headers not found" unless the header names all five columns, and otherwise the map of each header name to its last position |
| OrganizationalAnalysis.Analyser.CreateEmployeeMap | src/main/java/com/company/OrganizationalAnalyser.java:159-190 | the error of the first rejected row, if any, and that it is the error of the row after the accepted ones; the map gains the employees of the rows accepted before it, each filed under its id, the last row with an id winning |
| OrganizationalAnalysis.Analyser.AnalyseSalaries | src/main/java/com/company/OrganizationalAnalyser.java:48-70 | the lines of the salary report for some iteration order of the map and of the groups, or ManagerNotFound |
| OrganizationalAnalysis.Analyser.ConstructTree | src/main/java/com/company/OrganizationalAnalyser.java:73-91 | fresh nodes wired as the arena tree; the stored CEO is the node of the last manager-less employee, and is untouched when there is none |
| OrganizationalAnalysis.Analyser.AnalyseReportingLines | src/main/java/com/company/OrganizationalAnalyser.java:93-117 | "No CEO found!" when no employee lacks a manager id, and otherwise the lines of the reporting-line findings; `ceo` ends as the CEO's node of the fresh tree built, or null when there is none |
| OrganizationalAnalysis.Analyser.AnalyseOrganizationalInput | src/main/java/com/company/OrganizationalAnalyser.java:32-40 | the first error of parsing, the salary analysis and the reporting-line analysis, or both reports, for the iteration orders used; `employeeMap` ends empty after a header error, as the rows before the first rejected one after a row error, and as the parsed map otherwise; `ceo` ends as the CEO's node of the tree exactly when the run builds a tree that has one, and null otherwise |

## Left out

- `main`, `printReport`, `readDataFromFile` and the file-existence check (OrganizationalAnalyser.java:21-46, 128-133): file and console I/O. The input is the file's lines, header first, and the empty sequence stands for a file without a first line.
- The `double` constants 0.2 and 0.5 (lines 13-14, 61-62): `(int) (avg * 0.2)` and `(int) (avg * 0.5)` are modelled as `avg` divided by 5 and by 2, rounded toward zero. This is assumed, not derived from IEEE 754 arithmetic.
- The iteration order of `HashMap` and of `groupingBy`: it is left open. The methods return the order they used as ghost out-parameters, and the reports are functions of that order.
- The sameness of the two iterations of `employeeMap`: `analyseSalaries` (line 50) and `constructTree` (lines 75 and 80) iterate the same unchanged map, so Java visits the employees in one order both times. `Analyser.AnalyseOrganizationalInput` returns `salaryOrder` and `treeOrder` as independent enumerations, so the model allows more order combinations than Java produces; every stated property holds for each of them.
- Instance reuse: the fields accumulate over several runs of one analyser. `Analyser.AnalyseOrganizationalInput` and `Analyser.AnalyseReportingLines` require a fresh analyser.
- The message of the NullPointerException raised for a manager id that names no employee: it depends on the Java runtime. `Errors.Message` gives none for `ManagerNotFound`.
- Live-list aliasing: `getDirectReports` hands out the node's own `ArrayList`. The model's `GetDirectReports` returns the sequence as a value, so a caller cannot change a node through it. No core code does.
- The restructuring of `constructTree`: it assigns `ceo` inside its second loop. The model's `LinkNodes` returns the last CEO node, and `Analyser.ConstructTree` stores it after the loop. The final state is the same.
- SalaryBands.VerdictAgainstAverage: stated for non-negative averages and salaries only, where no subtraction wraps. `SalaryBands.VerdictOverInts` states the verdict for every `int` average and salary, including the negative amounts the wrap-around produces.
- JavaLang.ParseInt: accepts only the ASCII digits 0-9. Java's `Integer.parseInt` also accepts the decimal digits of other Unicode scripts.
- OrganizationalAnalysis.CheckManager: averages over the exact sum of the salaries, not the 32-bit sum the code computes. This is the corrected behaviour of the finding below. The code's wrap-around is modelled by `SalaryBands.TotalSalaryAsWritten`.
- The test class OrganizationalAnalyserTest.java is not part of this model. Its expectations depend on data files that are not available.

## Findings

| source | as written | input that shows it | evidently intended | confidence | as-written member | corrected member |
|---|---|---|---|---|---|---|
| src/main/java/com/company/OrganizationalAnalyser.java:56-57 | the group's salaries are summed with `IntStream.sum()` in 32-bit `int`, which wraps around | a manager with two reports earning 2,000,000,000 each: the sum wraps to −294,967,296, so the average becomes −147,483,648 | the average lies between the least and the greatest salary of the group (for example, by summing in `long`) | not executed | SalaryBands.AsWrittenAverageLeavesRange | SalaryBands.AverageWithinSalaries |
