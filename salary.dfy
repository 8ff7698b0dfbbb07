/** The salary band analysis of OrganizationalAnalyser.java (analyseSalaries) as
    specification functions: the groups of direct reports, their average salary, the
    band a manager's salary is compared with, and the report over all groups. The
    method that walks the groups is in the Analyser class. */
module SalaryBands {
  import opened Wrappers
  import opened Collections
  import opened JavaLang
  import opened Employees
  import opened Errors
  import opened Parsing

  /** A manager earns less than the lower bound or more than the upper bound. */
  datatype Band = Below | Above

  /** `manager` earns `amount` outside the band around its reports' average. */
  datatype SalaryFinding = SalaryFinding(manager: Employee, band: Band, amount: int)

  // ---------------------------------------------------------------------
  // Groups of direct reports

  /** The employees of `order` whose manager id is `m`, in the order of `order`. */
  function Subordinates(reg: Registry, order: seq<string>, m: string): seq<Employee>
    decreases |order|
  {
    if order == [] then []
    else
      var k := order[|order| - 1];
      Subordinates(reg, order[..|order| - 1], m) + (if k in reg && reg[k].managerId == m then [reg[k]] else [])
  }

  /** The group keys: every non-empty manager id some employee carries. */
  function ManagerIds(reg: Registry): set<string>
  {
    set k | k in reg && reg[k].managerId != "" :: reg[k].managerId
  }

  /** `groupingBy(Employee::getManagerId)` over the employees with a manager id, the
      employees taken in the order `order` enumerates the registry. */
  function GroupByManager(reg: Registry, order: seq<string>): map<string, seq<Employee>>
  {
    map m | m in ManagerIds(reg) :: Subordinates(reg, order, m)
  }

  /** The employee a member of a group stands for: one whose manager id is the key. */
  lemma {:induction false} SubordinateSource(reg: Registry, order: seq<string>, m: string, e: Employee)
    returns (k: string)
    requires e in Subordinates(reg, order, m)
    ensures k in order && k in reg && reg[k] == e && e.managerId == m
    decreases |order|
  {
    var init := order[..|order| - 1];
    if e in Subordinates(reg, init, m) {
      k := SubordinateSource(reg, init, m, e);
      assert k in order;
    } else {
      k := order[|order| - 1];
    }
  }

  /** Every enumerated employee whose manager id is `m` is in the group of `m`. */
  lemma {:induction false} SubordinatePresent(reg: Registry, order: seq<string>, m: string, k: string)
    requires k in order && k in reg && reg[k].managerId == m
    ensures reg[k] in Subordinates(reg, order, m)
    decreases |order|
  {
    var init := order[..|order| - 1];
    if k != order[|order| - 1] {
      assert order == init + [order[|order| - 1]];
      SubordinatePresent(reg, init, m, k);
    }
  }

  /** Each distinct non-empty manager id forms one group, holding exactly the employees
      with that manager id; the CEO (empty manager id) is in no group, and no group is
      empty. */
  lemma GroupsAreDirectReports(reg: Registry, order: seq<string>, m: string)
    requires forall k :: k in reg ==> k in order
    ensures m in GroupByManager(reg, order) <==> m != "" && exists k :: k in reg && reg[k].managerId == m
    ensures m in GroupByManager(reg, order) ==> GroupByManager(reg, order)[m] != []
    ensures m in GroupByManager(reg, order) ==> forall k :: k in reg && reg[k].managerId == m ==>
      reg[k] in GroupByManager(reg, order)[m]
    ensures m in GroupByManager(reg, order) ==> forall e :: e in GroupByManager(reg, order)[m] ==>
      e.managerId == m && e.managerId != "" && e in reg.Values
  {
    if m in GroupByManager(reg, order) {
      var k :| k in reg && reg[k].managerId != "" && reg[k].managerId == m;
      SubordinatePresent(reg, order, m, k);
      forall k | k in reg && reg[k].managerId == m
        ensures reg[k] in GroupByManager(reg, order)[m]
      {
        SubordinatePresent(reg, order, m, k);
      }
      forall e | e in GroupByManager(reg, order)[m]
        ensures e.managerId == m && e in reg.Values
      {
        var j := SubordinateSource(reg, order, m, e);
      }
    }
  }

  // ---------------------------------------------------------------------
  // Average salary

  /** The sum of the salaries of `subs`, on unbounded integers. */
  function TotalSalary(subs: seq<Employee>): int
    decreases |subs|
  {
    if subs == [] then 0 else TotalSalary(subs[..|subs| - 1]) + subs[|subs| - 1].salary
  }

  /** `IntStream.sum()` as the code computes it: every addition wraps around in 32 bits. */
  function TotalSalaryAsWritten(subs: seq<Employee>): (t: int)
    ensures t == WrapInt(TotalSalary(subs))
    decreases |subs|
  {
    if subs == [] then 0
    else
      var init := subs[..|subs| - 1];
      var t := WrapInt(TotalSalaryAsWritten(init) + subs[|subs| - 1].salary);
      WrapIntOfSum(TotalSalary(init), subs[|subs| - 1].salary);
      t
  }

  /** Wrapping a partial sum before adding the next term changes nothing. */
  lemma WrapIntOfSum(a: int, b: int)
    ensures WrapInt(WrapInt(a) + b) == WrapInt(a + b)
  {
    var r := WrapInt(a);
    var k := (a - r) / TWO_TO_32;
    assert a - r == k * TWO_TO_32;
    WrapIntCongruent(r + b, a + b, -k);
  }

  /** Integers that differ by a multiple c of 2^32 wrap to the same `int`. */
  lemma WrapIntCongruent(x: int, y: int, c: int)
    requires x - y == c * TWO_TO_32
    ensures WrapInt(x) == WrapInt(y)
  {
    var rx, ry := WrapInt(x), WrapInt(y);
    var a, b := (x - rx) / TWO_TO_32, (y - ry) / TWO_TO_32;
    assert x - rx == a * TWO_TO_32;
    assert y - ry == b * TWO_TO_32;
    assert rx - ry == (c - a + b) * TWO_TO_32;
  }

  /** The average salary of a non-empty group, rounded toward zero, over the exact total. */
  function AverageSalary(subs: seq<Employee>): int
    requires subs != []
  {
    TruncDiv(TotalSalary(subs), |subs|)
  }

  /** The average salary as the code computes it, over the wrapped 32-bit total. */
  function AverageSalaryAsWritten(subs: seq<Employee>): int
    requires subs != []
  {
    TruncDiv(TotalSalaryAsWritten(subs), |subs|)
  }

  lemma {:induction false} TotalSalaryBounds(subs: seq<Employee>, lo: int, hi: int)
    requires forall e :: e in subs ==> lo <= e.salary <= hi
    ensures lo * |subs| <= TotalSalary(subs) <= hi * |subs|
    decreases |subs|
  {
    if subs != [] {
      var init := subs[..|subs| - 1];
      assert forall e :: e in init ==> e in subs;
      TotalSalaryBounds(init, lo, hi);
      assert subs[|subs| - 1] in subs;
      MulSucc(lo, |init|);
      MulSucc(hi, |init|);
    }
  }

  lemma MulSucc(a: int, n: int)
    ensures a * (n + 1) == a * n + a
  {
  }

  lemma MulAddOne(a: int, n: int)
    ensures (a + 1) * n == a * n + n
  {
  }

  lemma MulMonotone(a: int, b: int, n: nat)
    requires a <= b
    ensures a * n <= b * n
  {
    assert b * n - a * n == (b - a) * n;
  }

  /** A quotient rounded toward zero of a total between lo * n and hi * n lies between lo and hi. */
  lemma QuotientBounds(lo: int, hi: int, q: int, n: nat, t: int)
    requires n > 0 && lo * n <= t <= hi * n
    requires 0 <= t ==> q * n <= t < q * n + n
    requires t < 0 ==> q * n - n < t <= q * n
    ensures lo <= q <= hi
  {
    if q > hi {
      MulMonotone(hi + 1, q, n);
      MulAddOne(hi, n);
    }
    if q < lo {
      MulMonotone(q + 1, lo, n);
      MulAddOne(q, n);
    }
  }

  /** The average lies between the least and the greatest salary of the group; in
      particular it is an `int` when the salaries are. */
  lemma AverageWithinSalaries(subs: seq<Employee>, lo: int, hi: int)
    requires subs != []
    requires forall e :: e in subs ==> lo <= e.salary <= hi
    ensures lo <= AverageSalary(subs) <= hi
  {
    TotalSalaryBounds(subs, lo, hi);
    TruncDivBounds(TotalSalary(subs), |subs|);
    QuotientBounds(lo, hi, AverageSalary(subs), |subs|, TotalSalary(subs));
  }

  /** Two reports earning 2,000,000,000 each, as in the counterexample below. */
  function HighEarners(): seq<Employee>
  {
    [Employee("2", "Ann", "Lee", 2_000_000_000, "1"), Employee("3", "Bo", "Kim", 2_000_000_000, "1")]
  }

  /** The 32-bit total of those two salaries wraps around to a negative number, so the
      code's average lies below every salary of the group. */
  lemma AsWrittenAverageLeavesRange()
    ensures forall e :: e in HighEarners() ==> e.salary == 2_000_000_000
    ensures AverageSalaryAsWritten(HighEarners()) == -147_483_648
    ensures AverageSalary(HighEarners()) == 2_000_000_000
  {
    var subs := HighEarners();
    assert subs[..1][..0] == [];
    assert TotalSalary(subs) == 4_000_000_000;
    assert WrapInt(4_000_000_000) == -294_967_296;
  }

  // ---------------------------------------------------------------------
  // The band

  /** `(int) (average * 0.2)`: for `int` averages exactly the quotient by 5 rounded toward zero. */
  function LowerBound(avg: int): (r: int)
    ensures 0 <= avg ==> 0 <= r && 5 * r <= avg < 5 * r + 5
    ensures avg < 0 ==> r <= 0 && 5 * r - 5 < avg <= 5 * r
  {
    TruncDiv(avg, 5)
  }

  /** `(int) (average * 0.5)`: the quotient by 2 rounded toward zero. */
  function UpperBound(avg: int): (r: int)
    ensures 0 <= avg ==> 0 <= r && 2 * r <= avg < 2 * r + 2
    ensures avg < 0 ==> r <= 0 && 2 * r - 2 < avg <= 2 * r
  {
    TruncDiv(avg, 2)
  }

  /** The line a manager earns, if any, given its reports' average: below the lower bound
      first, otherwise above the upper bound; the differences are 32-bit `int` subtractions. */
  function Verdict(manager: Employee, avg: int): (r: Option<SalaryFinding>)
    ensures r.Some? ==> r.value.manager == manager
  {
    var lower, upper := LowerBound(avg), UpperBound(avg);
    if manager.salary < lower then Some(SalaryFinding(manager, Below, WrapInt(lower - manager.salary)))
    else if manager.salary > upper then Some(SalaryFinding(manager, Above, WrapInt(manager.salary - upper)))
    else None
  }

  /** For a non-negative average and salary: the manager is reported below iff it earns
      less than a fifth of the average rounded down, above iff it earns more than half of
      it, by the exact distance to the bound, which is at least 1; a salary equal to a
      bound is not reported. */
  lemma VerdictAgainstAverage(manager: Employee, avg: int)
    requires IsInt(avg) && IsInt(manager.salary) && 0 <= avg && 0 <= manager.salary
    ensures LowerBound(avg) <= UpperBound(avg)
    ensures Verdict(manager, avg).Some? && Verdict(manager, avg).value.band == Below <==>
      5 * (manager.salary + 1) <= avg
    ensures Verdict(manager, avg).Some? && Verdict(manager, avg).value.band == Above <==>
      2 * manager.salary > avg
    ensures Verdict(manager, avg).None? <==> LowerBound(avg) <= manager.salary <= UpperBound(avg)
    ensures Verdict(manager, avg).Some? ==> Verdict(manager, avg).value.amount >= 1
    ensures Verdict(manager, avg).Some? && Verdict(manager, avg).value.band == Below ==>
      Verdict(manager, avg).value.amount == LowerBound(avg) - manager.salary
    ensures Verdict(manager, avg).Some? && Verdict(manager, avg).value.band == Above ==>
      Verdict(manager, avg).value.amount == manager.salary - UpperBound(avg)
  {
  }

  /** For every average and salary in the `int` range: the manager is reported below iff
      it earns less than the lower bound, above iff it earns no less than the lower bound
      and more than the upper bound. The amount is the exact distance to the bound, which
      is at least 1, unless that distance exceeds the `int` range; then it is the negative
      value the 32-bit subtraction wraps to. */
  lemma VerdictOverInts(manager: Employee, avg: int)
    requires IsInt(avg) && IsInt(manager.salary)
    ensures Verdict(manager, avg).Some? && Verdict(manager, avg).value.band == Below <==>
      manager.salary < LowerBound(avg)
    ensures Verdict(manager, avg).Some? && Verdict(manager, avg).value.band == Above <==>
      LowerBound(avg) <= manager.salary && manager.salary > UpperBound(avg)
    ensures Verdict(manager, avg).Some? && Verdict(manager, avg).value.band == Below ==>
      var exact := LowerBound(avg) - manager.salary;
      exact >= 1 && Verdict(manager, avg).value.amount == if exact <= INT_MAX then exact else exact - TWO_TO_32
    ensures Verdict(manager, avg).Some? && Verdict(manager, avg).value.band == Above ==>
      var exact := manager.salary - UpperBound(avg);
      exact >= 1 && Verdict(manager, avg).value.amount == if exact <= INT_MAX then exact else exact - TWO_TO_32
  {
    var lower, upper := LowerBound(avg), UpperBound(avg);
    if lower - manager.salary > INT_MAX {
      WrapIntOverflow(lower - manager.salary);
    }
    if manager.salary - upper > INT_MAX {
      WrapIntOverflow(manager.salary - upper);
    }
  }

  /** The most negative salary under reports who earn 0 on average is reported below the
      band by a negative amount: 0 - (-2^31) wraps to -2^31. */
  lemma WrappedBelowAmount()
    ensures Verdict(Employee("1", "Al", "Li", INT_MIN, ""), 0) ==
      Some(SalaryFinding(Employee("1", "Al", "Li", INT_MIN, ""), Below, INT_MIN))
  {
    WrapIntOverflow(-INT_MIN);
  }

  /** A negative average turns the band inside out. From -2 down the lower bound exceeds the
      upper one, so no salary lies within the band and every manager is reported; at -1, as
      at 0, both bounds are 0 and only a salary of 0 is not reported. */
  lemma NegativeAverageInvertsBand(manager: Employee, avg: int)
    requires avg < 0
    ensures avg <= -2 <==> UpperBound(avg) < LowerBound(avg)
    ensures avg <= -2 ==> Verdict(manager, avg).Some?
    ensures avg == -1 ==>
      LowerBound(avg) == 0 && UpperBound(avg) == 0 && (Verdict(manager, avg).None? <==> manager.salary == 0)
  {
  }

  // ---------------------------------------------------------------------
  // The report

  /** The line of `m`'s group, or the error the code runs into when no employee has id `m`. */
  function GroupVerdict(reg: Registry, m: string, subs: seq<Employee>): Result<Option<SalaryFinding>, AnalysisError>
    requires subs != []
  {
    if m !in reg then Err(ManagerNotFound) else Ok(Verdict(reg[m], AverageSalary(subs)))
  }

  function OptionToSeq<T>(o: Option<T>): seq<T>
  {
    if o.Some? then [o.value] else []
  }

  /** The groups whose keys `ms` lists, every one non-empty. */
  ghost predicate CoveredGroups(groups: map<string, seq<Employee>>, ms: seq<string>) {
    forall m :: m in ms ==> m in groups && groups[m] != []
  }

  /** The salary report for the groups taken in the order `ms`: the lines of the groups
      one after the other, or an abort at the first key that names no employee. */
  function SalaryReport(reg: Registry, groups: map<string, seq<Employee>>, ms: seq<string>)
    : (r: Result<seq<SalaryFinding>, AnalysisError>)
    requires CoveredGroups(groups, ms)
    ensures r.Ok? ==> |r.value| <= |ms|
    ensures r.Err? ==> r.error == ManagerNotFound
    decreases |ms|
  {
    if ms == [] then Ok([])
    else
      var m := ms[|ms| - 1];
      match SalaryReport(reg, groups, ms[..|ms| - 1])
      case Err(e) => Err(e)
      case Ok(fs) =>
        match GroupVerdict(reg, m, groups[m])
        case Err(e) => Err(e)
        case Ok(v) => Ok(fs + OptionToSeq(v))
  }

  /** The salary analysis of an enumerated registry whose groups are visited in the order `ms`. */
  function SalaryOutcome(reg: Registry, order: seq<string>, ms: seq<string>): Result<seq<SalaryFinding>, AnalysisError>
    requires CoveredGroups(GroupByManager(reg, order), ms)
  {
    SalaryReport(reg, GroupByManager(reg, order), ms)
  }

  /** Every key of an enumeration of the groups names a non-empty group. */
  lemma GroupsCovered(reg: Registry, order: seq<string>, ms: seq<string>)
    requires forall k :: k in reg ==> k in order
    requires forall m :: m in ms ==> m in GroupByManager(reg, order)
    ensures CoveredGroups(GroupByManager(reg, order), ms)
  {
    forall m | m in ms
      ensures GroupByManager(reg, order)[m] != []
    {
      GroupsAreDirectReports(reg, order, m);
    }
  }

  /** The report fails only with ManagerNotFound, and only at a key naming no employee. */
  lemma {:induction false} ReportFailureSource(reg: Registry, groups: map<string, seq<Employee>>, ms: seq<string>)
    returns (j: nat)
    requires CoveredGroups(groups, ms)
    requires SalaryReport(reg, groups, ms).Err?
    ensures SalaryReport(reg, groups, ms) == Err(ManagerNotFound)
    ensures j < |ms| && ms[j] !in reg
    decreases |ms|
  {
    var init := ms[..|ms| - 1];
    if SalaryReport(reg, groups, init).Err? {
      j := ReportFailureSource(reg, groups, init);
    } else {
      j := |ms| - 1;
    }
  }

  /** A key naming no employee makes the whole report fail. */
  lemma {:induction false} DanglingKeyFails(reg: Registry, groups: map<string, seq<Employee>>, ms: seq<string>, j: nat)
    requires CoveredGroups(groups, ms)
    requires j < |ms| && ms[j] !in reg
    ensures SalaryReport(reg, groups, ms).Err?
    decreases |ms|
  {
    if j < |ms| - 1 {
      DanglingKeyFails(reg, groups, ms[..|ms| - 1], j);
    }
  }

  /** A reported line is the verdict of one of the groups. */
  lemma {:induction false} ReportedLineSource(reg: Registry, groups: map<string, seq<Employee>>, ms: seq<string>, f: SalaryFinding)
    returns (j: nat)
    requires CoveredGroups(groups, ms)
    requires SalaryReport(reg, groups, ms).Ok? && f in SalaryReport(reg, groups, ms).value
    ensures j < |ms| && ms[j] in reg && groups[ms[j]] != []
    ensures Verdict(reg[ms[j]], AverageSalary(groups[ms[j]])) == Some(f)
    decreases |ms|
  {
    var init := ms[..|ms| - 1];
    if f in SalaryReport(reg, groups, init).value {
      j := ReportedLineSource(reg, groups, init, f);
    } else {
      j := |ms| - 1;
    }
  }

  /** When the report succeeds, every group's verdict is in it. */
  lemma {:induction false} GroupLineReported(reg: Registry, groups: map<string, seq<Employee>>, ms: seq<string>, j: nat)
    requires CoveredGroups(groups, ms)
    requires SalaryReport(reg, groups, ms).Ok? && j < |ms|
    ensures ms[j] in reg
    ensures Verdict(reg[ms[j]], AverageSalary(groups[ms[j]])).Some? ==>
      Verdict(reg[ms[j]], AverageSalary(groups[ms[j]])).value in SalaryReport(reg, groups, ms).value
    decreases |ms|
  {
    if j < |ms| - 1 {
      GroupLineReported(reg, groups, ms[..|ms| - 1], j);
    }
  }

  /** The ids of the managers a report names, in report order. */
  function ReportedManagers(fs: seq<SalaryFinding>): (ids: seq<string>)
    ensures |ids| == |fs| && forall i :: 0 <= i < |fs| ==> ids[i] == fs[i].manager.id
  {
    seq(|fs|, i requires 0 <= i < |fs| => fs[i].manager.id)
  }

  /** Each manager produces at most one line: over an enumeration of the groups, no
      manager id occurs twice in the report. */
  lemma {:induction false} OneLinePerManager(reg: Registry, groups: map<string, seq<Employee>>, ms: seq<string>)
    requires CoveredGroups(groups, ms) && NoDup(ms) && ValidRegistry(reg)
    requires SalaryReport(reg, groups, ms).Ok?
    ensures NoDup(ReportedManagers(SalaryReport(reg, groups, ms).value))
    decreases |ms|
  {
    if ms != [] {
      var init := ms[..|ms| - 1];
      var m := ms[|ms| - 1];
      var fs := SalaryReport(reg, groups, init).value;
      assert NoDup(init);
      OneLinePerManager(reg, groups, init);
      var tail := OptionToSeq(Verdict(reg[m], AverageSalary(groups[m])));
      forall x | x in ReportedManagers(fs)
        ensures x !in ReportedManagers(tail)
      {
        ReportedManagerEarlier(reg, groups, init, x);
      }
      assert ReportedManagers(fs + tail) == ReportedManagers(fs) + ReportedManagers(tail);
      NoDupConcat(ReportedManagers(fs), ReportedManagers(tail));
    }
  }

  /** A manager named in the report of `ms` is one of `ms`. */
  lemma ReportedManagerEarlier(reg: Registry, groups: map<string, seq<Employee>>, ms: seq<string>, x: string)
    requires CoveredGroups(groups, ms) && ValidRegistry(reg)
    requires SalaryReport(reg, groups, ms).Ok? && x in ReportedManagers(SalaryReport(reg, groups, ms).value)
    ensures x in ms
  {
    var fs := SalaryReport(reg, groups, ms).value;
    var i :| 0 <= i < |fs| && ReportedManagers(fs)[i] == x;
    var j := ReportedLineSource(reg, groups, ms, fs[i]);
  }

  // ---------------------------------------------------------------------
  // Rendering

  /** The report line, with `toString()` of the manager as its name. */
  function SalaryLine(f: SalaryFinding): (line: string)
    ensures |line| > |f.manager.FullName()| && line[..|f.manager.FullName()|] == f.manager.FullName()
  {
    f.manager.FullName() + " earns " + IntToString(f.amount) +
      (if f.band == Below then " less than the threshold" else " more than the threshold")
  }

  /** The report lines of the findings, in order. */
  function SalaryLines(fs: seq<SalaryFinding>): seq<string>
  {
    seq(|fs|, i requires 0 <= i < |fs| => SalaryLine(fs[i]))
  }
}
