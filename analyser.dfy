/** OrganizationalAnalyser.java: the analyser object, which holds the employee map
    read from the input and the root of the reporting tree, and runs the record
    parser, the salary band analysis and the reporting-line analysis in turn. Each
    method is proved against the specification functions of Parsing, SalaryBands
    and Hierarchy. */
module OrganizationalAnalysis {
  import opened Wrappers
  import opened Collections
  import opened JavaLang
  import opened Employees
  import opened Errors
  import opened TreeNodes
  import opened Parsing
  import opened SalaryBands
  import opened Hierarchy

  /** The two reports of one run. */
  datatype ReportingResult = ReportingResult(salaryReports: seq<string>, reportingItems: seq<string>)

  // ---------------------------------------------------------------------
  // Report lines

  /** The reporting-line line, with `toString()` of the employee as its name. */
  function DepthLine(f: DepthFinding): string
  {
    "Long reporting line for " + f.employee.FullName() + " by " + IntToString(f.excess) + " managers."
  }

  /** The line names the employee right after its fixed opening words. */
  lemma DepthLineNamesEmployee(f: DepthFinding)
    ensures |DepthLine(f)| > 24 + |f.employee.FullName()|
    ensures DepthLine(f)[..24] == "Long reporting line for "
    ensures DepthLine(f)[24..24 + |f.employee.FullName()|] == f.employee.FullName()
  {
    var name := f.employee.FullName();
    var rest := " by " + IntToString(f.excess) + " managers.";
    assert DepthLine(f) == "Long reporting line for " + name + rest;
  }

  /** The reporting-line lines of the findings, in order. */
  function DepthLines(fs: seq<DepthFinding>): seq<string>
  {
    seq(|fs|, i requires 0 <= i < |fs| => DepthLine(fs[i]))
  }

  function SalaryOutcomeLines(o: Result<seq<SalaryFinding>, AnalysisError>): Result<seq<string>, AnalysisError>
  {
    match o
    case Err(e) => Err(e)
    case Ok(fs) => Ok(SalaryLines(fs))
  }

  function DepthOutcomeLines(o: Result<seq<DepthFinding>, AnalysisError>): Result<seq<string>, AnalysisError>
  {
    match o
    case Err(e) => Err(e)
    case Ok(fs) => Ok(DepthLines(fs))
  }

  /** What one run on `lines` yields, with `salaryOrder` and `treeOrder` the iteration
      orders of the employee map and `groupOrder` that of the salary groups: the first
      error among parsing, the salary analysis and the reporting-line analysis, or
      both reports. */
  ghost function RunOutcome(lines: seq<string>, salaryOrder: seq<string>, groupOrder: seq<string>, treeOrder: seq<string>)
    : Result<ReportingResult, AnalysisError>
    requires ParseInput(lines).Ok? ==> CoveredGroups(GroupByManager(ParseInput(lines).value, salaryOrder), groupOrder)
  {
    match ParseInput(lines)
    case Err(e) => Err(e)
    case Ok(reg) =>
      match SalaryOutcome(reg, salaryOrder, groupOrder)
      case Err(e) => Err(e)
      case Ok(sf) =>
        match ReportingLineOutcome(reg, treeOrder)
        case Err(e) => Err(e)
        case Ok(df) => Ok(ReportingResult(SalaryLines(sf), DepthLines(df)))
  }

  /** The run gets as far as building the tree, and the tree has a root: the condition
      under which the analyser stores a CEO's node. */
  ghost predicate CeoStored(lines: seq<string>, salaryOrder: seq<string>, groupOrder: seq<string>, treeOrder: seq<string>)
  {
    ParseInput(lines).Ok? &&
    CoveredGroups(GroupByManager(ParseInput(lines).value, salaryOrder), groupOrder) &&
    SalaryOutcome(ParseInput(lines).value, salaryOrder, groupOrder).Ok? &&
    LastCeo(ParseInput(lines).value, treeOrder).Some?
  }

  /** A manager id that names no employee makes the run fail in the salary analysis,
      before any tree is built, whatever the iteration orders are. */
  lemma DanglingManagerAbortsRun(lines: seq<string>, salaryOrder: seq<string>, groupOrder: seq<string>,
                                 treeOrder: seq<string>, k: string)
    requires ParseInput(lines).Ok?
    requires IsEnumeration(salaryOrder, ParseInput(lines).value)
    requires IsEnumeration(groupOrder, GroupByManager(ParseInput(lines).value, salaryOrder))
    requires k in ParseInput(lines).value && ParseInput(lines).value[k].managerId != ""
    requires ParseInput(lines).value[k].managerId !in ParseInput(lines).value
    ensures CoveredGroups(GroupByManager(ParseInput(lines).value, salaryOrder), groupOrder)
    ensures RunOutcome(lines, salaryOrder, groupOrder, treeOrder) == Err(ManagerNotFound)
  {
    var reg := ParseInput(lines).value;
    var groups := GroupByManager(reg, salaryOrder);
    GroupsCovered(reg, salaryOrder, groupOrder);
    var m := reg[k].managerId;
    assert m in ManagerIds(reg);
    assert m in groups && m in groupOrder;
    var j :| 0 <= j < |groupOrder| && groupOrder[j] == m;
    DanglingKeyFails(reg, groups, groupOrder, j);
    var _ := ReportFailureSource(reg, groups, groupOrder);
  }

  /** A run succeeds only when some employee has no manager id; once the input parses
      and the salary analysis succeeds, an employee map without such an employee ends
      the run with "No CEO found!". */
  lemma RunNeedsCeo(lines: seq<string>, salaryOrder: seq<string>, groupOrder: seq<string>, treeOrder: seq<string>)
    requires ParseInput(lines).Ok? ==> CoveredGroups(GroupByManager(ParseInput(lines).value, salaryOrder), groupOrder)
    requires ParseInput(lines).Ok? ==> IsEnumeration(treeOrder, ParseInput(lines).value)
    ensures RunOutcome(lines, salaryOrder, groupOrder, treeOrder).Ok? ==> ParseInput(lines).Ok? && HasCeo(ParseInput(lines).value)
    ensures (ParseInput(lines).Ok? && SalaryOutcome(ParseInput(lines).value, salaryOrder, groupOrder).Ok? &&
             !HasCeo(ParseInput(lines).value)) ==> RunOutcome(lines, salaryOrder, groupOrder, treeOrder) == Err(NoCeo)
  {
    if ParseInput(lines).Ok? {
      LastCeoFound(ParseInput(lines).value, treeOrder);
    }
  }

  // ---------------------------------------------------------------------
  // The tree of TreeNode objects

  /** The nodes of `ids`, in order (null for an id without a node). */
  function NodesOf(nodes: map<string, TreeNode>, ids: seq<string>): seq<TreeNode?>
  {
    seq(|ids|, i requires 0 <= i < |ids| => if ids[i] in nodes then nodes[ids[i]] else null)
  }

  lemma NodesOfConcat(nodes: map<string, TreeNode>, a: seq<string>, b: seq<string>)
    ensures NodesOf(nodes, a + b) == NodesOf(nodes, a) + NodesOf(nodes, b)
  {
  }

  lemma NodesOfDrop(nodes: map<string, TreeNode>, ids: seq<string>)
    requires ids != [] && ids[0] in nodes
    ensures NodesOf(nodes, ids)[0] == nodes[ids[0]] && NodesOf(nodes, ids)[1..] == NodesOf(nodes, ids[1..])
  {
    assert forall i :: 0 <= i < |ids| - 1 ==> NodesOf(nodes, ids)[1..][i] == NodesOf(nodes, ids[1..])[i];
  }

  /** The node the tree builder makes the parent of `k`'s node: its manager's node, if
      the manager id names an employee. */
  function ParentNode(reg: Registry, nodes: map<string, TreeNode>, k: string): TreeNode?
  {
    match ManagerOf(reg, k)
    case Some(m) => if m in nodes then nodes[m] else null
    case None => null
  }

  /** Different ids have different nodes. */
  ghost predicate Distinct(nodes: map<string, TreeNode>) {
    forall a, b :: a in nodes && b in nodes && a != b ==> nodes[a] != nodes[b]
  }

  ghost predicate ParentsWired(reg: Registry, nodes: map<string, TreeNode>)
    reads nodes.Values
  {
    forall k :: k in nodes ==> nodes[k].parent == ParentNode(reg, nodes, k)
  }

  /** The tree the builder leaves for the employee map `reg` enumerated by `order`: one
      node per employee holding it, the manager's node as parent, and as direct reports
      the nodes of the employees linked to it, in the order of `order`. */
  ghost predicate Wired(reg: Registry, order: seq<string>, nodes: map<string, TreeNode>)
    reads nodes.Values
  {
    nodes.Keys == reg.Keys && IsEnumeration(order, reg) &&
    (forall k :: k in nodes ==> nodes[k].employee == reg[k]) &&
    ParentsWired(reg, nodes) &&
    (forall k :: k in nodes ==> nodes[k].directReports == NodesOf(nodes, ChildIds(reg, order, k)))
  }

  /** The builder makes a node of its own for every employee. */
  lemma WiredNodesDistinct(reg: Registry, order: seq<string>, nodes: map<string, TreeNode>)
    requires ValidRegistry(reg) && Wired(reg, order, nodes)
    ensures Distinct(nodes)
  {
    forall a, b | a in nodes && b in nodes && a != b
      ensures nodes[a] != nodes[b]
    {
      assert nodes[a].employee.id == a && nodes[b].employee.id == b;
    }
  }

  /** The direct reports of every node once the tree builder has taken the ids of
      `seen`: the nodes of its direct reports among `seen`, in the order of `seen`. */
  ghost function ReportsAfter(reg: Registry, nodes: map<string, TreeNode>, seen: seq<string>): map<string, seq<TreeNode?>>
  {
    map k | k in nodes :: NodesOf(nodes, ChildIds(reg, seen, k))
  }

  /** The parent of every node once the tree builder has taken the ids of `seen`: its
      manager's node for the ids of `seen`, none for the others. */
  ghost function ParentsAfter(reg: Registry, nodes: map<string, TreeNode>, seen: seq<string>): map<string, TreeNode?>
  {
    map k | k in nodes :: if k in seen then ParentNode(reg, nodes, k) else null
  }

  /** Taking id `x` adds its node to its manager's direct reports, if it has a manager. */
  lemma ReportsAfterStep(reg: Registry, nodes: map<string, TreeNode>, seen: seq<string>, x: string)
    requires nodes.Keys == reg.Keys && x in nodes
    ensures ManagerOf(reg, x).Some? ==>
      ReportsAfter(reg, nodes, seen + [x]) ==
      ReportsAfter(reg, nodes, seen)[ManagerOf(reg, x).value := ReportsAfter(reg, nodes, seen)[ManagerOf(reg, x).value] + [nodes[x]]]
    ensures ManagerOf(reg, x).None? ==> ReportsAfter(reg, nodes, seen + [x]) == ReportsAfter(reg, nodes, seen)
  {
    var next := seen + [x];
    assert next[..|next| - 1] == seen;
    var m := ManagerOf(reg, x);
    var before := ReportsAfter(reg, nodes, seen);
    var after := if m.Some? then before[m.value := before[m.value] + [nodes[x]]] else before;
    forall k | k in nodes
      ensures after[k] == NodesOf(nodes, ChildIds(reg, next, k))
    {
      if m == Some(k) {
        assert ChildIds(reg, next, k) == ChildIds(reg, seen, k) + [x];
        NodesOfConcat(nodes, ChildIds(reg, seen, k), [x]);
      } else {
        assert ChildIds(reg, next, k) == ChildIds(reg, seen, k);
      }
    }
    assert ReportsAfter(reg, nodes, next) == after;
  }

  /** Taking id `x` points its node to its manager's node. */
  lemma ParentsAfterStep(reg: Registry, nodes: map<string, TreeNode>, seen: seq<string>, x: string)
    requires nodes.Keys == reg.Keys && x in nodes
    ensures ManagerOf(reg, x).Some? ==>
      ParentsAfter(reg, nodes, seen + [x]) == ParentsAfter(reg, nodes, seen)[x := nodes[ManagerOf(reg, x).value]]
    ensures ManagerOf(reg, x).None? ==> ParentsAfter(reg, nodes, seen + [x]) == ParentsAfter(reg, nodes, seen)
  {
  }

  // ---------------------------------------------------------------------
  // Steps of the tree builder and of the walk

  lemma PrefixStep(s: seq<string>, j: nat)
    requires j < |s|
    ensures s[..j + 1] == s[..j] + [s[j]] && s[..j + 1][..j] == s[..j]
    ensures forall x :: x in s[..j + 1] <==> x in s[..j] || x == s[j]
    ensures forall x :: x in s[..j + 1] ==> x in s
  {
    assert s[..j + 1] == s[..j] + [s[j]];
  }

  /** The queue after the walk took id i of `level`: it drops its head and receives the
      head's direct reports. */
  lemma QueueStep(reg: Registry, order: seq<string>, level: seq<string>, i: nat)
    requires i < |level|
    ensures (level[i..] + Children(reg, order, level[..i]))[0] == level[i]
    ensures (level[i..] + Children(reg, order, level[..i]))[1..] + ChildIds(reg, order, level[i]) ==
      level[i + 1..] + Children(reg, order, level[..i + 1])
  {
    var rest, done, next := level[i..], Children(reg, order, level[..i]), ChildIds(reg, order, level[i]);
    assert (rest + done)[0] == level[i];
    assert (rest + done)[1..] == rest[1..] + done;
    assert rest[1..] == level[i + 1..];
    assert Children(reg, order, level[..i + 1]) == done + next by {
      LevelPrefixStep(reg, order, level, i, 0);
    }
    assert (rest[1..] + done) + next == rest[1..] + (done + next);
  }

  lemma SalaryLinesConcat(a: seq<SalaryFinding>, b: seq<SalaryFinding>)
    ensures SalaryLines(a + b) == SalaryLines(a) + SalaryLines(b)
  {
  }

  lemma DepthLinesConcat(a: seq<DepthFinding>, b: seq<DepthFinding>)
    ensures DepthLines(a + b) == DepthLines(a) + DepthLines(b)
  {
  }

  lemma SalaryLinesSnoc(fs: seq<SalaryFinding>, v: Option<SalaryFinding>)
    ensures SalaryLines(fs + OptionToSeq(v)) == SalaryLines(fs) + (if v.Some? then [SalaryLine(v.value)] else [])
  {
    SalaryLinesConcat(fs, OptionToSeq(v));
    if v.None? {
      assert fs + OptionToSeq(v) == fs;
    }
  }

  /** The salary loop takes group i of `ms`, whose manager id names an employee. */
  lemma ReportStep(reg: Registry, groups: map<string, seq<Employee>>, ms: seq<string>, i: nat, fs: seq<SalaryFinding>)
    requires CoveredGroups(groups, ms) && i < |ms| && ms[i] in reg
    requires CoveredGroups(groups, ms[..i]) && SalaryReport(reg, groups, ms[..i]) == Ok(fs)
    ensures CoveredGroups(groups, ms[..i + 1])
    ensures SalaryReport(reg, groups, ms[..i + 1]) ==
      Ok(fs + OptionToSeq(Verdict(reg[ms[i]], AverageSalary(groups[ms[i]]))))
  {
    PrefixStep(ms, i);
  }

  /** The tree builder's second loop takes employee j of `values`: it becomes the last
      CEO seen when it has no manager id. */
  lemma CeoStep(reg: Registry, values: seq<string>, j: nat)
    requires j < |values|
    ensures LastCeo(reg, values[..j + 1]) ==
      if values[j] in reg && reg[values[j]].managerId == "" then Some(values[j]) else LastCeo(reg, values[..j])
  {
    assert values[..j + 1][..j] == values[..j];
  }

  /** The walk moves on to the next level once it has taken every id of level n. */
  lemma NextLevel(reg: Registry, order: seq<string>, root: string, n: nat)
    ensures Level(reg, order, root, n)[|Level(reg, order, root, n)|..] +
      Children(reg, order, Level(reg, order, root, n)[..|Level(reg, order, root, n)|]) ==
      Level(reg, order, root, n + 1)[0..] + Children(reg, order, Level(reg, order, root, n + 1)[..0])
    ensures FindingsBelow(reg, order, root, n) + LevelFindings(reg, Level(reg, order, root, n)[..|Level(reg, order, root, n)|], n + 1) ==
      FindingsBelow(reg, order, root, n + 1) + LevelFindings(reg, Level(reg, order, root, n + 1)[..0], n + 2)
    ensures |Flatten(Levels(reg, order, root, n + 1))| == |Flatten(Levels(reg, order, root, n))| + |Level(reg, order, root, n)|
    ensures Flatten(Levels(reg, order, root, n)) + Level(reg, order, root, n)[..|Level(reg, order, root, n)|] ==
      Flatten(Levels(reg, order, root, n + 1)) + Level(reg, order, root, n + 1)[..0]
  {
    var level := Level(reg, order, root, n);
    assert level[..|level|] == level;
    assert Level(reg, order, root, n + 1)[..0] == [];
    FindingsBelowStep(reg, order, root, n);
    FlattenSnoc(Levels(reg, order, root, n), level);
  }

  /** Once the queue is empty, the walk has reported every level. */
  lemma FinishedWalk(reg: Registry, order: seq<string>, root: string, n: nat, i: nat, queueIds: seq<string>)
    requires RootedArena(reg, order, root)
    requires Level(reg, order, root, n) != [] && i <= |Level(reg, order, root, n)|
    requires queueIds == Level(reg, order, root, n)[i..] + Children(reg, order, Level(reg, order, root, n)[..i])
    requires queueIds == []
    ensures FindingsBelow(reg, order, root, n) + LevelFindings(reg, Level(reg, order, root, n)[..i], n + 1) ==
      ReportingLineFindings(reg, order, root)
  {
    var level := Level(reg, order, root, n);
    assert i == |level|;
    assert level[..i] == level;
    FindingsBelowStep(reg, order, root, n);
    LevelDepthBound(reg, order, root, n);
    FindingsBelowSettle(reg, order, root, n + 1, |reg|);
  }

  /** An empty queue means level n is used up and level n + 1 is empty. */
  lemma EmptyQueue(reg: Registry, order: seq<string>, root: string, n: nat, i: nat, queueIds: seq<string>)
    requires i <= |Level(reg, order, root, n)|
    requires queueIds == Level(reg, order, root, n)[i..] + Children(reg, order, Level(reg, order, root, n)[..i])
    requires queueIds == []
    ensures i == |Level(reg, order, root, n)| && Level(reg, order, root, n)[..i] == Level(reg, order, root, n)
    ensures Level(reg, order, root, n + 1) == []
  {
    var level := Level(reg, order, root, n);
    var rest, children := level[i..], Children(reg, order, level[..i]);
    assert |rest + children| == |rest| + |children|;
  }

  /** The last non-empty level closes the visiting order. */
  lemma VisitOrderEndsAt(reg: Registry, order: seq<string>, root: string, n: nat)
    requires RootedArena(reg, order, root)
    requires Level(reg, order, root, n) != [] && Level(reg, order, root, n + 1) == []
    ensures Flatten(Levels(reg, order, root, n)) + Level(reg, order, root, n) == VisitOrder(reg, order, root)
  {
    LevelDepthBound(reg, order, root, n);
    FlattenSnoc(Levels(reg, order, root, n), Level(reg, order, root, n));
    VisitOrderSettle(reg, order, root, n + 1);
  }

  /** Once the queue is empty, the walk has polled every id in visiting order. */
  lemma FinishedVisit(reg: Registry, order: seq<string>, root: string, n: nat, i: nat, queueIds: seq<string>)
    requires RootedArena(reg, order, root)
    requires Level(reg, order, root, n) != [] && i <= |Level(reg, order, root, n)|
    requires queueIds == Level(reg, order, root, n)[i..] + Children(reg, order, Level(reg, order, root, n)[..i])
    requires queueIds == []
    ensures Flatten(Levels(reg, order, root, n)) + Level(reg, order, root, n)[..i] == VisitOrder(reg, order, root)
  {
    EmptyQueue(reg, order, root, n, i, queueIds);
    VisitOrderEndsAt(reg, order, root, n);
  }



  /** The first loop of `constructTree`: one new node per employee of `reg`, taken in
      the order `values` and put under the employee's id, with no parent and no direct
      reports yet. */
  method MakeNodes(reg: Registry, values: seq<string>) returns (nodeMap: map<string, TreeNode>)
    requires ValidRegistry(reg) && IsEnumeration(values, reg)
    ensures nodeMap.Keys == reg.Keys
    ensures forall k :: k in nodeMap ==> fresh(nodeMap[k]) && nodeMap[k].employee == reg[k]
    ensures forall k :: k in nodeMap ==> nodeMap[k].directReports == [] && nodeMap[k].parent == null
  {
    nodeMap := map[];
    var i := 0;
    while i < |values|
      invariant i <= |values|
      invariant forall k :: k in nodeMap <==> k in values[..i]
      invariant forall k :: k in nodeMap ==> fresh(nodeMap[k]) && nodeMap[k].employee == reg[k]
      invariant forall k :: k in nodeMap ==> nodeMap[k].directReports == [] && nodeMap[k].parent == null
    {
      PrefixStep(values, i);
      var employee := reg[values[i]];
      var node := new TreeNode(employee);
      nodeMap := nodeMap[employee.id := node];
      i := i + 1;
    }
    assert values[..|values|] == values;
  }

  /** One step of the second loop of `constructTree` for an employee with a manager id:
      when that id names an employee, the employee's node is appended to the manager's
      direct reports and gets the manager's node as parent; otherwise nothing changes.
      `reports` and `parents` mirror the direct reports and parents of every node. */
  method LinkEmployee(reg: Registry, nodeMap: map<string, TreeNode>, ghost repr: set<TreeNode>, x: string,
                      ghost reports: map<string, seq<TreeNode?>>, ghost parents: map<string, TreeNode?>)
    returns (ghost reports': map<string, seq<TreeNode?>>, ghost parents': map<string, TreeNode?>)
    requires ValidRegistry(reg) && x in reg && reg[x].managerId != ""
    requires nodeMap.Keys == reg.Keys && forall k :: k in nodeMap ==> nodeMap[k] in repr && nodeMap[k].employee.id == k
    requires reports.Keys == nodeMap.Keys && parents.Keys == nodeMap.Keys
    requires forall k :: k in nodeMap ==> nodeMap[k].directReports == reports[k] && nodeMap[k].parent == parents[k]
    modifies repr
    ensures reports'.Keys == nodeMap.Keys && parents'.Keys == nodeMap.Keys
    ensures forall k :: k in nodeMap ==> nodeMap[k].directReports == reports'[k] && nodeMap[k].parent == parents'[k]
    ensures ManagerOf(reg, x).Some? ==>
      reports' == reports[ManagerOf(reg, x).value := reports[ManagerOf(reg, x).value] + [nodeMap[x]]] &&
      parents' == parents[x := nodeMap[ManagerOf(reg, x).value]]
    ensures ManagerOf(reg, x).None? ==> reports' == reports && parents' == parents
  {
    var employee := reg[x];
    var node := nodeMap[employee.id];
    reports', parents' := reports, parents;
    if employee.managerId in nodeMap {
      var managerNode := nodeMap[employee.managerId];
      managerNode.AddDirectReport(node);
      reports' := reports[employee.managerId := reports[employee.managerId] + [node]];
      parents' := parents[x := managerNode];
    }
  }

  /** What the second loop of `constructTree` has built once it has taken the first j
      employees of `values`: `reports` and `parents` mirror the direct reports and
      parents of every node, and `root` is the node of the last CEO among them. */
  ghost predicate LinkedUpTo(reg: Registry, values: seq<string>, j: nat, nodeMap: map<string, TreeNode>,
                             reports: map<string, seq<TreeNode?>>, parents: map<string, TreeNode?>,
                             ceoId: Option<string>, root: TreeNode?)
  {
    j <= |values| &&
    reports == ReportsAfter(reg, nodeMap, values[..j]) && parents == ParentsAfter(reg, nodeMap, values[..j]) &&
    ceoId == LastCeo(reg, values[..j]) && (ceoId.Some? ==> ceoId.value in nodeMap) &&
    root == if ceoId.Some? then nodeMap[ceoId.value] else null
  }

  /** One iteration of the second loop of `constructTree`: employee j of `values` becomes
      the CEO candidate when it has no manager id, and is linked below its manager
      otherwise. */
  method LinkAt(reg: Registry, values: seq<string>, j: nat, nodeMap: map<string, TreeNode>, ghost repr: set<TreeNode>,
                root: TreeNode?, ghost ceoId: Option<string>,
                ghost reports: map<string, seq<TreeNode?>>, ghost parents: map<string, TreeNode?>)
    returns (root': TreeNode?, ghost ceoId': Option<string>,
             ghost reports': map<string, seq<TreeNode?>>, ghost parents': map<string, TreeNode?>)
    requires ValidRegistry(reg) && j < |values| && values[j] in reg
    requires nodeMap.Keys == reg.Keys && forall k :: k in nodeMap ==> nodeMap[k] in repr && nodeMap[k].employee.id == k
    requires LinkedUpTo(reg, values, j, nodeMap, reports, parents, ceoId, root)
    requires forall k :: k in nodeMap ==> nodeMap[k].directReports == reports[k] && nodeMap[k].parent == parents[k]
    modifies repr
    ensures LinkedUpTo(reg, values, j + 1, nodeMap, reports', parents', ceoId', root')
    ensures forall k :: k in nodeMap ==> nodeMap[k].directReports == reports'[k] && nodeMap[k].parent == parents'[k]
  {
    var x := values[j];
    ghost var seen := values[..j];
    assert values[..j + 1] == seen + [x] by {
      PrefixStep(values, j);
    }
    root', ceoId', reports', parents' := root, ceoId, reports, parents;
    if reg[x].managerId == "" {
      root' := nodeMap[reg[x].id];
      ceoId' := Some(x);
    } else {
      reports', parents' := LinkEmployee(reg, nodeMap, repr, x, reports, parents);
    }
    assert ceoId' == LastCeo(reg, values[..j + 1]) by {
      CeoStep(reg, values, j);
    }
    assert reports' == ReportsAfter(reg, nodeMap, seen + [x]) by {
      ReportsAfterStep(reg, nodeMap, seen, x);
    }
    assert parents' == ParentsAfter(reg, nodeMap, seen + [x]) by {
      ParentsAfterStep(reg, nodeMap, seen, x);
    }
  }

  /** Before the second loop of `constructTree` takes any employee, no node has direct
      reports or a parent. */
  lemma LinkedAtStart(reg: Registry, values: seq<string>, nodeMap: map<string, TreeNode>)
    ensures LinkedUpTo(reg, values, 0, nodeMap, ReportsAfter(reg, nodeMap, []), ParentsAfter(reg, nodeMap, []), None, null)
    ensures forall k :: k in nodeMap ==> ReportsAfter(reg, nodeMap, [])[k] == [] && ParentsAfter(reg, nodeMap, [])[k] == null
  {
    assert values[..0] == [];
  }

  /** Once every employee is taken, the mirrors hold the tree of ChildIds and ParentNode. */
  lemma LinkedAll(reg: Registry, values: seq<string>, nodeMap: map<string, TreeNode>,
                  reports: map<string, seq<TreeNode?>>, parents: map<string, TreeNode?>, ceoId: Option<string>, root: TreeNode?)
    requires (forall k :: k in values <==> k in reg) && nodeMap.Keys == reg.Keys
    requires LinkedUpTo(reg, values, |values|, nodeMap, reports, parents, ceoId, root)
    ensures forall k :: k in nodeMap ==> reports[k] == NodesOf(nodeMap, ChildIds(reg, values, k))
    ensures forall k :: k in nodeMap ==> parents[k] == ParentNode(reg, nodeMap, k)
    ensures LastCeo(reg, values).Some? ==> root == nodeMap[LastCeo(reg, values).value]
    ensures LastCeo(reg, values).None? ==> root == null
  {
    assert values[..|values|] == values;
  }

  /** The second loop of `constructTree`, over the employees of `reg` in the order
      `values`: every employee whose manager id names an employee is added below the
      manager's node. The loop also remembers the node of the last employee without a
      manager id, which it returns and `constructTree` stores as the CEO. */
  method LinkNodes(reg: Registry, values: seq<string>, nodeMap: map<string, TreeNode>, ghost repr: set<TreeNode>)
    returns (root: TreeNode?)
    requires ValidRegistry(reg) && forall k :: k in values <==> k in reg
    requires nodeMap.Keys == reg.Keys && forall k :: k in nodeMap ==> nodeMap[k] in repr && nodeMap[k].employee.id == k
    requires forall k :: k in nodeMap ==> nodeMap[k].directReports == [] && nodeMap[k].parent == null
    modifies repr
    ensures forall k :: k in nodeMap ==> nodeMap[k].directReports == NodesOf(nodeMap, ChildIds(reg, values, k))
    ensures forall k :: k in nodeMap ==> nodeMap[k].parent == ParentNode(reg, nodeMap, k)
    ensures LastCeo(reg, values).Some? ==> root == nodeMap[LastCeo(reg, values).value]
    ensures LastCeo(reg, values).None? ==> root == null
  {
    ghost var reports := ReportsAfter(reg, nodeMap, []);
    ghost var parents := ParentsAfter(reg, nodeMap, []);
    root := null;
    ghost var ceoId: Option<string> := None;
    var j := 0;
    LinkedAtStart(reg, values, nodeMap);
    while j < |values|
      invariant LinkedUpTo(reg, values, j, nodeMap, reports, parents, ceoId, root)
      invariant forall k :: k in nodeMap ==> nodeMap[k].directReports == reports[k] && nodeMap[k].parent == parents[k]
    {
      root, ceoId, reports, parents := LinkAt(reg, values, j, nodeMap, repr, root, ceoId, reports, parents);
      j := j + 1;
    }
    LinkedAll(reg, values, nodeMap, reports, parents, ceoId, root);
  }

  /** The two loops of `constructTree`: one node per employee, then every employee
      whose manager id names an employee linked below that manager's node, in the order
      `order`; the root is the node of the last employee without a manager id. */
  method BuildTree(reg: Registry) returns (root: TreeNode?, ghost order: seq<string>, ghost nodes: map<string, TreeNode>)
    requires ValidRegistry(reg)
    ensures Wired(reg, order, nodes)
    ensures forall k :: k in nodes ==> fresh(nodes[k])
    ensures LastCeo(reg, order).Some? ==> root == nodes[LastCeo(reg, order).value]
    ensures LastCeo(reg, order).None? ==> root == null
  {
    var values := EnumerateKeys(reg);
    order := values;
    var nodeMap := MakeNodes(reg, values);
    root := LinkNodes(reg, values, nodeMap, nodeMap.Values);
    nodes := nodeMap;
  }

  /** `getDepth`: the number of nodes on the parent chain from `node` up, itself
      included. For the node of `x`, which reaches a node without a parent after `n`
      manager links, that is n + 1: the root has depth 1, and a direct report is one
      deeper than its manager. */
  method GetDepth(node: TreeNode?, ghost reg: Registry, ghost nodes: map<string, TreeNode>, ghost x: string, ghost n: nat)
    returns (depth: nat)
    requires nodes.Keys == reg.Keys && ParentsWired(reg, nodes)
    requires x in nodes && node == nodes[x]
    requires Ancestor(reg, x, n).Some? && ManagerOf(reg, Ancestor(reg, x, n).value) == None
    ensures depth == n + 1
  {
    var current := node;
    depth := 0;
    ghost var id := x;
    while current != null
      invariant depth <= n + 1
      invariant depth <= n ==> Ancestor(reg, x, depth) == Some(id) && id in nodes && current == nodes[id]
      invariant depth == n + 1 ==> current == null
      decreases n + 1 - depth
    {
      AncestorStep(reg, x, depth);
      if depth < n && Ancestor(reg, x, depth + 1).None? {
        AncestorCut(reg, x, depth + 1, n);
      }
      current := current.GetParent();
      depth := depth + 1;
      if depth <= n {
        id := ManagerOf(reg, id).value;
      }
    }
  }

  /** Where the breadth-first walk of `analyseReportingLines` stands: it has taken levels
      0 to n - 1 and the first i ids of level n off the queue, the queue holds the rest
      of level n followed by the direct reports of the ids taken from it, and the report
      holds the lines for every id taken. */
  ghost predicate WalkedUpTo(reg: Registry, order: seq<string>, root: string, nodes: map<string, TreeNode>,
                             n: nat, i: nat, queueIds: seq<string>, queue: seq<TreeNode>, report: seq<string>)
  {
    Level(reg, order, root, n) != [] && i <= |Level(reg, order, root, n)| &&
    |Flatten(Levels(reg, order, root, n))| + i <= |reg| &&
    queueIds == Level(reg, order, root, n)[i..] + Children(reg, order, Level(reg, order, root, n)[..i]) &&
    queue == NodesOf(nodes, queueIds) &&
    report == DepthLines(FindingsBelow(reg, order, root, n) + LevelFindings(reg, Level(reg, order, root, n)[..i], n + 1))
  }

  /** The inner loop of `analyseReportingLines`: offers every direct report to the queue. */
  method Enqueue(queue: seq<TreeNode>, directReports: seq<TreeNode>) returns (r: seq<TreeNode>)
    ensures r == queue + directReports
  {
    r := queue;
    for j := 0 to |directReports|
      invariant r == queue + directReports[..j]
    {
      assert directReports[..j + 1] == directReports[..j] + [directReports[j]];
      r := r + [directReports[j]];
    }
    assert directReports[..|directReports|] == directReports;
  }

  /** While the queue is not empty, the walk has a next id to take: id i of level n, or
      the first id of level n + 1 once level n is used up. Either way it has taken the
      same ids. */
  lemma WalkAdvance(reg: Registry, order: seq<string>, root: string, nodes: map<string, TreeNode>,
                    n: nat, i: nat, queueIds: seq<string>, queue: seq<TreeNode>, report: seq<string>)
    returns (n': nat, i': nat)
    requires RootedArena(reg, order, root)
    requires WalkedUpTo(reg, order, root, nodes, n, i, queueIds, queue, report) && queue != []
    ensures WalkedUpTo(reg, order, root, nodes, n', i', queueIds, queue, report)
    ensures i' < |Level(reg, order, root, n')| && Level(reg, order, root, n')[i'] in reg
    ensures |Flatten(Levels(reg, order, root, n'))| + i' == |Flatten(Levels(reg, order, root, n))| + i
    ensures Flatten(Levels(reg, order, root, n')) + Level(reg, order, root, n')[..i'] ==
      Flatten(Levels(reg, order, root, n)) + Level(reg, order, root, n)[..i]
  {
    n', i' := n, i;
    if i == |Level(reg, order, root, n)| {
      NextLevel(reg, order, root, n);
      n', i' := n + 1, 0;
    }
    LevelMember(reg, order, root, n', Level(reg, order, root, n')[i']);
  }

  /** Taking id i of level n off the queue adds its line to the report when its depth,
      n + 1, exceeds 4. */
  lemma WalkReportStep(reg: Registry, order: seq<string>, root: string, n: nat, i: nat, report: seq<string>)
    requires i < |Level(reg, order, root, n)| && Level(reg, order, root, n)[i] in reg
    requires report == DepthLines(FindingsBelow(reg, order, root, n) + LevelFindings(reg, Level(reg, order, root, n)[..i], n + 1))
    ensures DepthLines(FindingsBelow(reg, order, root, n) + LevelFindings(reg, Level(reg, order, root, n)[..i + 1], n + 1)) ==
      report + if n + 1 > MAX_CHAIN then [DepthLine(DepthFinding(reg[Level(reg, order, root, n)[i]], n + 1 - MAX_CHAIN))] else []
  {
    var level := Level(reg, order, root, n);
    var below := FindingsBelow(reg, order, root, n);
    var taken := LevelFindings(reg, level[..i], n + 1);
    var next := if n + 1 > MAX_CHAIN then [DepthFinding(reg[level[i]], n + 1 - MAX_CHAIN)] else [];
    LevelPrefixStep(reg, order, level, i, n + 1);
    DepthLinesStep(below, taken, next);
  }

  lemma DepthLinesStep(below: seq<DepthFinding>, taken: seq<DepthFinding>, next: seq<DepthFinding>)
    requires |next| <= 1
    ensures DepthLines(below + (taken + next)) == DepthLines(below + taken) + if next == [] then [] else [DepthLine(next[0])]
  {
    assert below + (taken + next) == (below + taken) + next;
    DepthLinesConcat(below + taken, next);
  }

  /** The line the walk adds for id x on level n, if any. */
  function VisitLines(reg: Registry, x: string, n: nat): seq<string>
    requires x in reg
  {
    if n + 1 > MAX_CHAIN then [DepthLine(DepthFinding(reg[x], n + 1 - MAX_CHAIN))] else []
  }

  /** Taking id i of level n, x, off the queue: its node is the head of the queue, it is
      n manager links below the root, and the walk stands at id i + 1 once the line of x,
      if any, is reported and the direct reports of its node are offered. */
  lemma VisitStep(reg: Registry, order: seq<string>, root: string, nodes: map<string, TreeNode>,
                  n: nat, i: nat, queueIds: seq<string>, queue: seq<TreeNode>, report: seq<string>)
    requires RootedArena(reg, order, root) && nodes.Keys == reg.Keys
    requires WalkedUpTo(reg, order, root, nodes, n, i, queueIds, queue, report) && i < |Level(reg, order, root, n)|
    requires var x := Level(reg, order, root, n)[i];
      x in nodes && nodes[x].directReports == NodesOf(nodes, ChildIds(reg, order, x))
    ensures var x := Level(reg, order, root, n)[i];
      x in reg && Ancestor(reg, x, n) == Some(root) && queue[0] == nodes[x] &&
      WalkedUpTo(reg, order, root, nodes, n, i + 1, queueIds[1..] + ChildIds(reg, order, x),
                 queue[1..] + nodes[x].directReports, report + VisitLines(reg, x, n))
  {
    var level := Level(reg, order, root, n);
    var x := level[i];
    assert queueIds[0] == x && queueIds[1..] + ChildIds(reg, order, x) == level[i + 1..] + Children(reg, order, level[..i + 1]) by {
      QueueStep(reg, order, level, i);
    }
    assert Ancestor(reg, x, n) == Some(root) by {
      LevelMember(reg, order, root, n, x);
    }
    assert queue[0] == nodes[x] && queue[1..] + nodes[x].directReports == NodesOf(nodes, queueIds[1..] + ChildIds(reg, order, x)) by {
      NodesOfDrop(nodes, queueIds);
      NodesOfConcat(nodes, queueIds[1..], ChildIds(reg, order, x));
    }
    assert |Flatten(Levels(reg, order, root, n))| + i + 1 <= |reg| by {
      VisitedBound(reg, order, root, n, i);
    }
    WalkReportStep(reg, order, root, n, i, report);
  }

  /** One iteration of the walk of `analyseReportingLines` on id i of level n: polls its
      node, reports it when its depth exceeds 4 and offers its direct reports. */
  method VisitNode(ghost reg: Registry, ghost order: seq<string>, ghost root: string, ghost nodes: map<string, TreeNode>,
                   ghost n: nat, ghost i: nat, ghost queueIds: seq<string>, queue: seq<TreeNode>, report: seq<string>)
    returns (ghost queueIds': seq<string>, queue': seq<TreeNode>, report': seq<string>, polled: TreeNode)
    requires RootedArena(reg, order, root) && Wired(reg, order, nodes)
    requires WalkedUpTo(reg, order, root, nodes, n, i, queueIds, queue, report)
    requires i < |Level(reg, order, root, n)| && Level(reg, order, root, n)[i] in reg
    ensures WalkedUpTo(reg, order, root, nodes, n, i + 1, queueIds', queue', report')
    ensures Level(reg, order, root, n)[i] in nodes && polled == nodes[Level(reg, order, root, n)[i]]
  {
    ghost var x := Level(reg, order, root, n)[i];
    VisitStep(reg, order, root, nodes, n, i, queueIds, queue, report);
    var currentNode := queue[0];
    var currentEmployee := currentNode.GetEmployee();
    var depth := GetDepth(currentNode, reg, nodes, x, n);
    report' := report;
    if depth > MAX_CHAIN {
      report' := report + [DepthLine(DepthFinding(currentEmployee, depth - MAX_CHAIN))];
    }
    queue' := Enqueue(queue[1..], currentNode.GetDirectReports());
    queueIds' := queueIds[1..] + ChildIds(reg, order, x);
    polled := currentNode;
  }

  /** The breadth-first walk of `analyseReportingLines` from the CEO's node: its report
      holds the lines of the reporting-line findings, level by level, and it polls the
      node of every employee reachable from the CEO once, in visiting order. */
  method WalkTree(ghost reg: Registry, ghost order: seq<string>, ghost root: string, ghost nodes: map<string, TreeNode>, ceo: TreeNode)
    returns (report: seq<string>, ghost polled: seq<TreeNode?>)
    requires RootedArena(reg, order, root) && Wired(reg, order, nodes) && ceo == nodes[root]
    ensures report == DepthLines(ReportingLineFindings(reg, order, root))
    ensures polled == NodesOf(nodes, VisitOrder(reg, order, root))
  {
    var queue := [ceo];
    report := [];
    polled := [];
    ghost var n: nat := 0;
    ghost var i: nat := 0;
    ghost var queueIds := [root];
    ghost var polledIds: seq<string> := [];
    WalkStart(reg, order, root, nodes);
    while queue != []
      invariant WalkedUpTo(reg, order, root, nodes, n, i, queueIds, queue, report)
      invariant polledIds == Flatten(Levels(reg, order, root, n)) + Level(reg, order, root, n)[..i]
      invariant polled == NodesOf(nodes, polledIds)
      decreases |reg| - |Flatten(Levels(reg, order, root, n))| - i
    {
      n, i := WalkAdvance(reg, order, root, nodes, n, i, queueIds, queue, report);
      var currentNode;
      queueIds, queue, report, currentNode := VisitNode(reg, order, root, nodes, n, i, queueIds, queue, report);
      PolledStep(reg, order, root, nodes, n, i, polledIds);
      polled := polled + [currentNode];
      polledIds := polledIds + [Level(reg, order, root, n)[i]];
      i := i + 1;
    }
    WalkEnd(reg, order, root, nodes, n, i, queueIds, report);
  }

  /** Polling id i of level n extends the polled ids and nodes by that id and its node. */
  lemma PolledStep(reg: Registry, order: seq<string>, root: string, nodes: map<string, TreeNode>,
                   n: nat, i: nat, polledIds: seq<string>)
    requires i < |Level(reg, order, root, n)| && Level(reg, order, root, n)[i] in nodes
    requires polledIds == Flatten(Levels(reg, order, root, n)) + Level(reg, order, root, n)[..i]
    ensures polledIds + [Level(reg, order, root, n)[i]] == Flatten(Levels(reg, order, root, n)) + Level(reg, order, root, n)[..i + 1]
    ensures NodesOf(nodes, polledIds + [Level(reg, order, root, n)[i]]) ==
      NodesOf(nodes, polledIds) + [nodes[Level(reg, order, root, n)[i]]]
  {
    var level := Level(reg, order, root, n);
    assert level[..i + 1] == level[..i] + [level[i]];
    NodesOfSnoc(nodes, polledIds, level[i]);
  }

  lemma NodesOfSnoc(nodes: map<string, TreeNode>, ids: seq<string>, x: string)
    requires x in nodes
    ensures NodesOf(nodes, ids + [x]) == NodesOf(nodes, ids) + [nodes[x]]
  {
    NodesOfConcat(nodes, ids, [x]);
  }

  /** The walk starts with the CEO's node alone in the queue and nothing reported. */
  lemma WalkStart(reg: Registry, order: seq<string>, root: string, nodes: map<string, TreeNode>)
    requires RootedArena(reg, order, root) && root in nodes
    ensures WalkedUpTo(reg, order, root, nodes, 0, 0, [root], [nodes[root]], [])
    ensures Flatten(Levels(reg, order, root, 0)) + Level(reg, order, root, 0)[..0] == []
  {
    assert Level(reg, order, root, 0)[..0] == [];
    VisitedBound(reg, order, root, 0, 0);
  }

  /** Once the queue is empty, the report holds the lines of every finding. */
  lemma WalkEnd(reg: Registry, order: seq<string>, root: string, nodes: map<string, TreeNode>,
                n: nat, i: nat, queueIds: seq<string>, report: seq<string>)
    requires RootedArena(reg, order, root)
    requires WalkedUpTo(reg, order, root, nodes, n, i, queueIds, [], report)
    ensures report == DepthLines(ReportingLineFindings(reg, order, root))
    ensures Flatten(Levels(reg, order, root, n)) + Level(reg, order, root, n)[..i] == VisitOrder(reg, order, root)
  {
    FinishedWalk(reg, order, root, n, i, queueIds);
    FinishedVisit(reg, order, root, n, i, queueIds);
  }

  /** The body of the loop of `analyseSalaries` for a manager with a non-empty group:
      the line for the manager's salary against the group's average, if any. */
  method CheckManager(manager: Employee, employeesUnderManager: seq<Employee>) returns (line: Option<string>)
    requires employeesUnderManager != []
    ensures line.Some? <==> Verdict(manager, AverageSalary(employeesUnderManager)).Some?
    ensures line.Some? ==> line.value == SalaryLine(Verdict(manager, AverageSalary(employeesUnderManager)).value)
  {
    var totalSalary := TotalSalary(employeesUnderManager);
    var averageSalary := TruncDiv(totalSalary, |employeesUnderManager|);
    var managerSalary := manager.salary;
    var lowerBound := LowerBound(averageSalary);
    var upperBound := UpperBound(averageSalary);
    assert averageSalary == AverageSalary(employeesUnderManager);
    if managerSalary < lowerBound {
      var finding := SalaryFinding(manager, Below, WrapInt(lowerBound - managerSalary));
      assert Verdict(manager, averageSalary) == Some(finding);
      line := Some(SalaryLine(finding));
    } else if managerSalary > upperBound {
      var finding := SalaryFinding(manager, Above, WrapInt(managerSalary - upperBound));
      assert Verdict(manager, averageSalary) == Some(finding);
      line := Some(SalaryLine(finding));
    } else {
      assert Verdict(manager, averageSalary) == None;
      line := None;
    }
  }

  /** The loop of `analyseSalaries` over the groups of `reg`, taken in the order `entries`. */
  method ReportGroups(reg: Registry, managerEmployees: map<string, seq<Employee>>, entries: seq<string>)
    returns (r: Result<seq<string>, AnalysisError>)
    requires CoveredGroups(managerEmployees, entries)
    ensures r == SalaryOutcomeLines(SalaryReport(reg, managerEmployees, entries))
  {
    var salaryReport: seq<string> := [];
    ghost var findings: seq<SalaryFinding> := [];
    var i := 0;
    while i < |entries|
      invariant i <= |entries|
      invariant CoveredGroups(managerEmployees, entries[..i])
      invariant SalaryReport(reg, managerEmployees, entries[..i]) == Ok(findings)
      invariant salaryReport == SalaryLines(findings)
    {
      var key := entries[i];
      if key !in reg {
        DanglingKeyFails(reg, managerEmployees, entries, i);
        ghost var j := ReportFailureSource(reg, managerEmployees, entries);
        return Err(ManagerNotFound);
      }
      var line := CheckManager(reg[key], managerEmployees[key]);
      ghost var verdict := Verdict(reg[key], AverageSalary(managerEmployees[key]));
      ReportStep(reg, managerEmployees, entries, i, findings);
      SalaryLinesSnoc(findings, verdict);
      salaryReport := salaryReport + OptionToSeq(line);
      findings := findings + OptionToSeq(verdict);
      i := i + 1;
    }
    assert entries[..|entries|] == entries;
    return Ok(salaryReport);
  }

  /** The checks the loop of `createEmployeeMap` makes on data row `lineCount` (1-based),
      `rows[i]`, with `noManagerEmployeeCount` CEO rows before it: the row's error, or
      its employee together with the CEO rows counted so far. */
  method CheckRow(columns: ColumnIndices, line: string, lineCount: int, noManagerEmployeeCount: int,
                  ghost rows: seq<string>, ghost i: nat)
    returns (r: Result<Employee, AnalysisError>, count: int)
    requires i < |rows| && line == rows[i] && lineCount == i + 1
    requires noManagerEmployeeCount == CeoRowCount(columns, rows[..i])
    ensures r.Err? <==> RowFailure(columns, rows, i).Some?
    ensures r.Err? ==> r.error == RowFailure(columns, rows, i).value
    ensures r.Ok? ==> r.value == RowEmployee(columns, line) && count == CeoRowCount(columns, rows[..i + 1])
  {
    count := noManagerEmployeeCount;
    if lineCount > MAX_DATA_ROWS {
      return Err(TooManyLines), count;
    }
    var data := JavaSplit(line);
    var id := ColumnValue(data, columns, "Id");
    var firstName := ColumnValue(data, columns, "firstName");
    var lastName := ColumnValue(data, columns, "lastName");
    var salaryStr := ColumnValue(data, columns, "salary");
    var managerId := ColumnValue(data, columns, "managerId");
    if id == "" || firstName == "" || lastName == "" || salaryStr == "" {
      return Err(MissingField(lineCount)), count;
    }
    CeoRowCountStep(columns, rows, i);
    if managerId == "" {
      count := count + 1;
      if count > 1 {
        return Err(MultipleCeo), count;
      }
    }
    var salary := ParseInt(salaryStr);
    if salary.None? {
      return Err(SalaryFormat(salaryStr)), count;
    }
    r := Ok(Employee(id, firstName, lastName, salary.value, managerId));
  }

  class Analyser {
    /** The employees read from the input, by id. */
    var employeeMap: Registry
    /** The root of the reporting tree, once built. */
    var ceo: TreeNode?

    ghost predicate Valid()
      reads this
    {
      ValidRegistry(employeeMap)
    }

    constructor ()
      ensures employeeMap == map[] && ceo == null && Valid()
    {
      employeeMap := map[];
      ceo := null;
    }

    /** `getColumnIndices`: reads the header line and maps each column name to its
        last position, or refuses an empty input or a header without all required names. */
    method GetColumnIndices(lines: seq<string>) returns (r: Result<ColumnIndices, AnalysisError>)
      ensures r == HeaderColumns(lines)
    {
      if lines == [] {
        return Err(EmptyInput);
      }
      var headers := JavaSplit(lines[0]);
      if !HasRequiredHeaders(headers) {
        return Err(MissingHeaders);
      }
      var columnIndices: ColumnIndices := map[];
      for i := 0 to |headers|
        invariant columnIndices == ColumnMap(headers[..i])
      {
        assert headers[..i + 1][..i] == headers[..i];
        columnIndices := columnIndices[headers[i] := i];
      }
      assert headers[..|headers|] == headers;
      return Ok(columnIndices);
    }

    /** `createEmployeeMap`: reads the data rows in turn, stops at the first rejected
        one with its error, and puts every accepted row's employee under its id. `n` is
        the number of rows accepted. */
    method CreateEmployeeMap(columns: ColumnIndices, rows: seq<string>) returns (err: Option<AnalysisError>, ghost n: nat)
      requires Valid()
      modifies this`employeeMap
      ensures Valid()
      ensures err == FirstFailure(columns, rows)
      ensures n <= |rows| && RowsAccepted(columns, rows, n) && (err.None? <==> n == |rows|)
      ensures err.Some? ==> RowFailure(columns, rows, n) == err
      ensures employeeMap == old(employeeMap) + RegistryOf(columns, rows[..n])
    {
      var lineCount := 0;
      var noManagerEmployeeCount := 0;
      var i := 0;
      while i < |rows|
        invariant i <= |rows| && lineCount == i
        invariant RowsAccepted(columns, rows, i)
        invariant noManagerEmployeeCount == CeoRowCount(columns, rows[..i])
        invariant employeeMap == old(employeeMap) + RegistryOf(columns, rows[..i])
      {
        var line := rows[i];
        lineCount := lineCount + 1;
        var employee;
        employee, noManagerEmployeeCount := CheckRow(columns, line, lineCount, noManagerEmployeeCount, rows, i);
        if employee.Err? {
          FirstFailureAt(columns, rows, i);
          assert RowFailure(columns, rows, i) == Some(employee.error);
          err, n := Some(employee.error), i;
          RegistryValid(old(employeeMap), columns, rows[..i]);
          return;
        }
        RegistryOfStep(columns, rows, i);
        UnionUpdate(old(employeeMap), RegistryOf(columns, rows[..i]), employee.value.id, employee.value);
        employeeMap := employeeMap[employee.value.id := employee.value];
        AcceptedStep(columns, rows, i);
        i := i + 1;
      }
      NoFailureWhenAccepted(columns, rows);
      err, n := None, i;
      RegistryValid(old(employeeMap), columns, rows[..i]);
    }

    /** `analyseSalaries`: groups the employees by manager id, then walks the groups in
        the order `groupOrder` and compares each manager's salary with the band around
        the group's average; a group whose manager id names no employee aborts the run. */
    method AnalyseSalaries() returns (r: Result<seq<string>, AnalysisError>, ghost order: seq<string>, ghost groupOrder: seq<string>)
      ensures IsEnumeration(order, employeeMap) && IsEnumeration(groupOrder, GroupByManager(employeeMap, order))
      ensures CoveredGroups(GroupByManager(employeeMap, order), groupOrder)
      ensures r == SalaryOutcomeLines(SalaryOutcome(employeeMap, order, groupOrder))
    {
      var values := EnumerateKeys(employeeMap);
      order := values;
      var managerEmployees := GroupByManager(employeeMap, values);
      var entries := EnumerateKeys(managerEmployees);
      groupOrder := entries;
      GroupsCovered(employeeMap, values, entries);
      r := ReportGroups(employeeMap, managerEmployees, entries);
    }

    /** `constructTree`: builds the tree of the employee map and stores its root, if it
        has one, as the CEO. */
    method ConstructTree() returns (ghost order: seq<string>, ghost nodes: map<string, TreeNode>)
      requires Valid()
      modifies this`ceo
      ensures Wired(employeeMap, order, nodes)
      ensures forall k :: k in nodes ==> fresh(nodes[k])
      ensures LastCeo(employeeMap, order).Some? ==> ceo == nodes[LastCeo(employeeMap, order).value]
      ensures LastCeo(employeeMap, order).None? ==> ceo == old(ceo)
    {
      var root;
      root, order, nodes := BuildTree(employeeMap);
      if root != null {
        ceo := root;
      }
    }

    /** `analyseReportingLines`: builds the tree, fails without a CEO, and otherwise walks
        the tree breadth first from the CEO, reporting every node deeper than 4. `ceo` is
        left as the CEO's node of the tree built, or null when there is no CEO. */
    method AnalyseReportingLines()
      returns (r: Result<seq<string>, AnalysisError>, ghost order: seq<string>, ghost nodes: map<string, TreeNode>)
      requires Valid() && ceo == null
      modifies this`ceo
      ensures IsEnumeration(order, employeeMap)
      ensures r == DepthOutcomeLines(ReportingLineOutcome(employeeMap, order))
      ensures Wired(employeeMap, order, nodes) && forall k :: k in nodes ==> fresh(nodes[k])
      ensures LastCeo(employeeMap, order).Some? ==> ceo == nodes[LastCeo(employeeMap, order).value]
      ensures LastCeo(employeeMap, order).None? ==> ceo == null
    {
      order, nodes := ConstructTree();
      if ceo == null {
        return Err(NoCeo), order, nodes;
      }
      var reportingLineReport;
      ghost var polled;
      reportingLineReport, polled := WalkTree(employeeMap, order, LastCeo(employeeMap, order).value, nodes, ceo);
      return Ok(reportingLineReport), order, nodes;
    }

    /** `analyseOrganizationalInputFile` on the lines of the input file, on a fresh
        analyser: parse, then the salary report, then the reporting-line report. */
    method AnalyseOrganizationalInput(lines: seq<string>)
      returns (r: Result<ReportingResult, AnalysisError>,
               ghost salaryOrder: seq<string>, ghost groupOrder: seq<string>, ghost treeOrder: seq<string>,
               ghost accepted: nat, ghost treeNodes: map<string, TreeNode>)
      requires employeeMap == map[] && ceo == null
      modifies this`employeeMap, this`ceo
      ensures ParseInput(lines).Ok? ==> IsEnumeration(salaryOrder, ParseInput(lines).value)
      ensures ParseInput(lines).Ok? ==> IsEnumeration(groupOrder, GroupByManager(ParseInput(lines).value, salaryOrder))
      ensures ParseInput(lines).Ok? ==> CoveredGroups(GroupByManager(ParseInput(lines).value, salaryOrder), groupOrder)
      ensures ParseInput(lines).Ok? && SalaryOutcome(ParseInput(lines).value, salaryOrder, groupOrder).Ok? ==>
        IsEnumeration(treeOrder, ParseInput(lines).value)
      ensures r == RunOutcome(lines, salaryOrder, groupOrder, treeOrder)
      // The employee map: empty when the header is refused, otherwise the accepted rows.
      ensures HeaderColumns(lines).Err? ==> employeeMap == map[]
      ensures HeaderColumns(lines).Ok? ==>
        var columns, rows := HeaderColumns(lines).value, lines[1..];
        accepted <= |rows| && RowsAccepted(columns, rows, accepted) &&
        employeeMap == RegistryOf(columns, rows[..accepted]) &&
        (FirstFailure(columns, rows).None? <==> accepted == |rows|) &&
        (accepted < |rows| ==> RowFailure(columns, rows, accepted) == FirstFailure(columns, rows))
      ensures ParseInput(lines).Ok? ==> employeeMap == ParseInput(lines).value
      // The CEO's node: stored only once the tree is built and has a root.
      ensures CeoStored(lines, salaryOrder, groupOrder, treeOrder) ==>
        Wired(ParseInput(lines).value, treeOrder, treeNodes) &&
        ceo == treeNodes[LastCeo(ParseInput(lines).value, treeOrder).value]
      ensures !CeoStored(lines, salaryOrder, groupOrder, treeOrder) ==> ceo == null
    {
      salaryOrder, groupOrder, treeOrder, accepted, treeNodes := [], [], [], 0, map[];
      var columns := GetColumnIndices(lines);
      if columns.Err? {
        assert ParseInput(lines) == Err(columns.error);
        return Err(columns.error), salaryOrder, groupOrder, treeOrder, accepted, treeNodes;
      }
      var err;
      err, accepted := CreateEmployeeMap(columns.value, lines[1..]);
      EmptyUnion(RegistryOf(columns.value, lines[1..][..accepted]));
      if err.Some? {
        assert ParseInput(lines) == Err(err.value);
        return Err(err.value), salaryOrder, groupOrder, treeOrder, accepted, treeNodes;
      }
      assert lines[1..][..accepted] == lines[1..];
      assert ParseInput(lines) == Ok(employeeMap);
      var salaryReports;
      salaryReports, salaryOrder, groupOrder := AnalyseSalaries();
      if salaryReports.Err? {
        assert !CeoStored(lines, salaryOrder, groupOrder, treeOrder);
        return Err(salaryReports.error), salaryOrder, groupOrder, treeOrder, accepted, treeNodes;
      }
      var reportingItems;
      reportingItems, treeOrder, treeNodes := AnalyseReportingLines();
      assert CeoStored(lines, salaryOrder, groupOrder, treeOrder) <==> LastCeo(employeeMap, treeOrder).Some?;
      if reportingItems.Err? {
        return Err(reportingItems.error), salaryOrder, groupOrder, treeOrder, accepted, treeNodes;
      }
      return Ok(ReportingResult(salaryReports.value, reportingItems.value)), salaryOrder, groupOrder, treeOrder, accepted, treeNodes;
    }
  }

}
