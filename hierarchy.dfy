/** The reporting hierarchy of OrganizationalAnalyser.java (constructTree,
    analyseReportingLines, getDepth) as an arena keyed by employee id: who manages
    whom, the breadth-first levels below the CEO, and the long-reporting-line findings.
    The Analyser class builds the actual TreeNode objects and is proved to match this. */
module Hierarchy {
  import opened Wrappers
  import opened Collections
  import opened Employees
  import opened Errors
  import opened Parsing

  /** The longest reporting chain, counted in nodes including the CEO, that is not reported. */
  const MAX_CHAIN: nat := 4

  /** The manager the tree builder links `k` to: its manager id, when that id names an
      employee. An empty or unresolved manager id gives no link. */
  function ManagerOf(reg: Registry, k: string): Option<string>
  {
    if k in reg && reg[k].managerId != "" && reg[k].managerId in reg then Some(reg[k].managerId) else None
  }

  /** The ids of `s` that are linked to manager `m`, in the order of `s`. */
  function ChildIds(reg: Registry, s: seq<string>, m: string): seq<string>
    decreases |s|
  {
    if s == [] then []
    else ChildIds(reg, s[..|s| - 1], m) + (if ManagerOf(reg, s[|s| - 1]) == Some(m) then [s[|s| - 1]] else [])
  }

  /** The direct reports of the ids of `level`, one manager after the other: the order in
      which the queue receives them. */
  function Children(reg: Registry, order: seq<string>, level: seq<string>): seq<string>
    decreases |level|
  {
    if level == [] then []
    else Children(reg, order, level[..|level| - 1]) + ChildIds(reg, order, level[|level| - 1])
  }

  /** The ids `n` links below `root`, in breadth-first order. */
  function Level(reg: Registry, order: seq<string>, root: string, n: nat): seq<string>
  {
    if n == 0 then [root] else Children(reg, order, Level(reg, order, root, n - 1))
  }

  /** Levels 0 to n - 1. */
  function Levels(reg: Registry, order: seq<string>, root: string, n: nat): seq<seq<string>>
  {
    if n == 0 then [] else Levels(reg, order, root, n - 1) + [Level(reg, order, root, n - 1)]
  }

  /** The order in which the breadth-first walk visits the tree below `root`: level after
      level (no level below |reg| is non-empty, see LevelDepthBound). */
  function VisitOrder(reg: Registry, order: seq<string>, root: string): seq<string>
  {
    Flatten(Levels(reg, order, root, |reg|))
  }

  /** The id reached from `k` by following `n` manager links. */
  function Ancestor(reg: Registry, k: string, n: nat): Option<string>
    decreases n
  {
    if n == 0 then Some(k)
    else match ManagerOf(reg, k)
      case None => None
      case Some(m) => Ancestor(reg, m, n - 1)
  }

  /** `k` reaches `root` by following manager links. */
  ghost predicate ReportsTo(reg: Registry, k: string, root: string) {
    exists n :: Ancestor(reg, k, n) == Some(root)
  }

  /** The CEO the tree builder ends up with: the last employee of `order` without a manager id. */
  function LastCeo(reg: Registry, order: seq<string>): (r: Option<string>)
    ensures r.Some? ==> r.value in order && r.value in reg && reg[r.value].managerId == ""
    decreases |order|
  {
    if order == [] then None
    else
      var k := order[|order| - 1];
      if k in reg && reg[k].managerId == "" then Some(k) else LastCeo(reg, order[..|order| - 1])
  }

  // ---------------------------------------------------------------------
  // Reporting-line findings

  /** `employee` sits `excess` nodes deeper than the longest chain allowed. */
  datatype DepthFinding = DepthFinding(employee: Employee, excess: int)

  /** The findings for the ids of `level`, whose chains have `depth` nodes. */
  function LevelFindings(reg: Registry, level: seq<string>, depth: nat): seq<DepthFinding>
    decreases |level|
  {
    if level == [] then []
    else
      var k := level[|level| - 1];
      LevelFindings(reg, level[..|level| - 1], depth) +
        (if depth > MAX_CHAIN && k in reg then [DepthFinding(reg[k], depth - MAX_CHAIN)] else [])
  }

  /** The findings of levels 0 to n - 1, level by level; level j has chains of j + 1 nodes. */
  function FindingsByLevel(reg: Registry, order: seq<string>, root: string, n: nat): seq<seq<DepthFinding>>
  {
    if n == 0 then [] else FindingsByLevel(reg, order, root, n - 1) + [LevelFindings(reg, Level(reg, order, root, n - 1), n)]
  }

  function FindingsBelow(reg: Registry, order: seq<string>, root: string, n: nat): seq<DepthFinding>
  {
    Flatten(FindingsByLevel(reg, order, root, n))
  }

  /** The long-reporting-line report for the tree below `root`, in visiting order. */
  function ReportingLineFindings(reg: Registry, order: seq<string>, root: string): seq<DepthFinding>
  {
    FindingsBelow(reg, order, root, |reg|)
  }

  /** What the reporting-line analysis yields: "No CEO found!" or the findings. */
  function ReportingLineOutcome(reg: Registry, order: seq<string>): Result<seq<DepthFinding>, AnalysisError>
  {
    match LastCeo(reg, order)
    case None => Err(NoCeo)
    case Some(root) => Ok(ReportingLineFindings(reg, order, root))
  }

  /** The tree has a root: some employee has no manager id. */
  ghost predicate HasCeo(reg: Registry) {
    exists k :: k in reg && reg[k].managerId == ""
  }

  /** The inputs the hierarchy lemmas speak about: an enumeration of the registry and a
      root without a manager id. */
  ghost predicate RootedArena(reg: Registry, order: seq<string>, root: string) {
    IsEnumeration(order, reg) && root in reg && reg[root].managerId == ""
  }

  lemma {:induction false} LevelsAt(reg: Registry, order: seq<string>, root: string, n: nat, j: nat)
    requires j < n
    ensures |Levels(reg, order, root, n)| == n && Levels(reg, order, root, n)[j] == Level(reg, order, root, j)
    decreases n
  {
    if j < n - 1 {
      LevelsAt(reg, order, root, n - 1, j);
    } else {
      LevelsLength(reg, order, root, n - 1);
    }
  }

  lemma {:induction false} LevelsLength(reg: Registry, order: seq<string>, root: string, n: nat)
    ensures |Levels(reg, order, root, n)| == n
    decreases n
  {
    if n > 0 {
      LevelsLength(reg, order, root, n - 1);
    }
  }

  lemma {:induction false} FindingsByLevelAt(reg: Registry, order: seq<string>, root: string, n: nat, j: nat)
    requires j < n
    ensures |FindingsByLevel(reg, order, root, n)| == n
    ensures FindingsByLevel(reg, order, root, n)[j] == LevelFindings(reg, Level(reg, order, root, j), j + 1)
    decreases n
  {
    if j < n - 1 {
      FindingsByLevelAt(reg, order, root, n - 1, j);
    } else {
      FindingsByLevelLength(reg, order, root, n - 1);
    }
  }

  lemma {:induction false} FindingsByLevelLength(reg: Registry, order: seq<string>, root: string, n: nat)
    ensures |FindingsByLevel(reg, order, root, n)| == n
    decreases n
  {
    if n > 0 {
      FindingsByLevelLength(reg, order, root, n - 1);
    }
  }

  // ---------------------------------------------------------------------
  // Direct reports

  /** The direct reports of `m` drawn from `s` are exactly the ids of `s` linked to `m`. */
  lemma {:induction false} ChildIdsMembership(reg: Registry, s: seq<string>, m: string)
    ensures forall x :: x in ChildIds(reg, s, m) <==> x in s && ManagerOf(reg, x) == Some(m)
    decreases |s|
  {
    if s != [] {
      var init := s[..|s| - 1];
      ChildIdsMembership(reg, init, m);
      assert s == init + [s[|s| - 1]];
    }
  }

  lemma {:induction false} ChildIdsNoDup(reg: Registry, s: seq<string>, m: string)
    requires NoDup(s)
    ensures NoDup(ChildIds(reg, s, m))
    decreases |s|
  {
    if s != [] {
      var init := s[..|s| - 1];
      assert NoDup(init);
      ChildIdsNoDup(reg, init, m);
      ChildIdsMembership(reg, init, m);
      NoDupConcat(ChildIds(reg, init, m), if ManagerOf(reg, s[|s| - 1]) == Some(m) then [s[|s| - 1]] else []);
    }
  }

  /** The children of a level are exactly the enumerated ids whose manager is in that level. */
  lemma {:induction false} ChildrenMembership(reg: Registry, order: seq<string>, level: seq<string>)
    ensures forall x :: x in Children(reg, order, level) <==>
      x in order && ManagerOf(reg, x).Some? && ManagerOf(reg, x).value in level
    decreases |level|
  {
    if level != [] {
      var init := level[..|level| - 1];
      ChildrenMembership(reg, order, init);
      ChildIdsMembership(reg, order, level[|level| - 1]);
      assert level == init + [level[|level| - 1]];
    }
  }

  /** `x` is a child of `level` iff it is enumerated and its manager is in `level`. */
  lemma {:induction false} ChildMember(reg: Registry, order: seq<string>, level: seq<string>, x: string)
    ensures x in Children(reg, order, level) <==>
      x in order && ManagerOf(reg, x).Some? && ManagerOf(reg, x).value in level
    decreases |level|
  {
    if level != [] {
      var init := level[..|level| - 1];
      ChildMember(reg, order, init, x);
      ChildIdsMembership(reg, order, level[|level| - 1]);
      assert level == init + [level[|level| - 1]];
    }
  }

  lemma {:induction false} ChildrenNoDup(reg: Registry, order: seq<string>, level: seq<string>)
    requires NoDup(order) && NoDup(level)
    ensures NoDup(Children(reg, order, level))
    decreases |level|
  {
    if level != [] {
      var init := level[..|level| - 1];
      var last := level[|level| - 1];
      assert NoDup(init);
      ChildrenNoDup(reg, order, init);
      ChildIdsNoDup(reg, order, last);
      ChildrenMembership(reg, order, init);
      ChildIdsMembership(reg, order, last);
      assert last !in init;
      NoDupConcat(Children(reg, order, init), ChildIds(reg, order, last));
    }
  }

  // ---------------------------------------------------------------------
  // Levels

  /** `x` is on level `n` iff it is `n` manager links below the root. */
  lemma {:induction false} LevelMember(reg: Registry, order: seq<string>, root: string, n: nat, x: string)
    requires root in reg && forall k :: k in reg ==> k in order
    ensures x in Level(reg, order, root, n) <==> x in reg && Ancestor(reg, x, n) == Some(root)
    decreases n
  {
    if n > 0 {
      var above := Level(reg, order, root, n - 1);
      if ManagerOf(reg, x).Some? {
        LevelMember(reg, order, root, n - 1, ManagerOf(reg, x).value);
      }
      ChildOnLevel(reg, order, root, above, n, x);
    }
  }

  /** One step of `LevelMember`: x is a child of the ids of `above` iff it is n links
      below the root, given that its manager is on `above` iff n - 1 links below it. */
  lemma ChildOnLevel(reg: Registry, order: seq<string>, root: string, above: seq<string>, n: nat, x: string)
    requires n > 0 && forall k :: k in reg ==> k in order
    requires ManagerOf(reg, x).Some? ==>
      (ManagerOf(reg, x).value in above <==> ManagerOf(reg, x).value in reg && Ancestor(reg, ManagerOf(reg, x).value, n - 1) == Some(root))
    ensures x in Children(reg, order, above) <==> x in reg && Ancestor(reg, x, n) == Some(root)
  {
    ChildMember(reg, order, above, x);
  }

  /** Level `n` holds exactly the employees `n` manager links below the root. */
  lemma LevelIsAncestorDistance(reg: Registry, order: seq<string>, root: string, n: nat)
    requires RootedArena(reg, order, root)
    ensures forall x :: x in Level(reg, order, root, n) <==> x in reg && Ancestor(reg, x, n) == Some(root)
  {
    forall x
      ensures x in Level(reg, order, root, n) <==> x in reg && Ancestor(reg, x, n) == Some(root)
    {
      LevelMember(reg, order, root, n, x);
    }
  }

  /** Following links from an employee reaches the root after at most one number of steps. */
  lemma {:induction false} AncestorDistanceUnique(reg: Registry, root: string, x: string, a: nat, b: nat)
    requires root in reg && reg[root].managerId == ""
    requires Ancestor(reg, x, a) == Some(root) && Ancestor(reg, x, b) == Some(root)
    ensures a == b
    decreases a
  {
    if a > 0 && b > 0 {
      AncestorDistanceUnique(reg, root, ManagerOf(reg, x).value, a - 1, b - 1);
    }
  }

  /** No employee is in two levels. */
  lemma LevelsDisjoint(reg: Registry, order: seq<string>, root: string, a: nat, b: nat)
    requires RootedArena(reg, order, root) && a != b
    ensures forall x :: x in Level(reg, order, root, a) ==> x !in Level(reg, order, root, b)
  {
    LevelIsAncestorDistance(reg, order, root, a);
    LevelIsAncestorDistance(reg, order, root, b);
    forall x | x in Level(reg, order, root, a) && x in Level(reg, order, root, b)
      ensures false
    {
      AncestorDistanceUnique(reg, root, x, a, b);
    }
  }

  lemma {:induction false} LevelNoDup(reg: Registry, order: seq<string>, root: string, n: nat)
    requires RootedArena(reg, order, root)
    ensures NoDup(Level(reg, order, root, n))
    decreases n
  {
    if n > 0 {
      LevelNoDup(reg, order, root, n - 1);
      ChildrenNoDup(reg, order, Level(reg, order, root, n - 1));
    }
  }

  /** Levels 0 to m - 1 are duplicate-free and pairwise disjoint. */
  lemma LevelsArePartition(reg: Registry, order: seq<string>, root: string, m: nat)
    requires RootedArena(reg, order, root)
    ensures |Levels(reg, order, root, m)| == m
    ensures forall j :: 0 <= j < m ==> NoDup(Levels(reg, order, root, m)[j])
    ensures forall i, j :: 0 <= i < j < m ==>
      forall x :: x in Levels(reg, order, root, m)[i] ==> x !in Levels(reg, order, root, m)[j]
  {
    var ls := Levels(reg, order, root, m);
    LevelsLength(reg, order, root, m);
    forall j | 0 <= j < m
      ensures NoDup(ls[j])
    {
      LevelsAt(reg, order, root, m, j);
      LevelNoDup(reg, order, root, j);
    }
    forall i, j | 0 <= i < j < m
      ensures forall x :: x in ls[i] ==> x !in ls[j]
    {
      LevelsAt(reg, order, root, m, i);
      LevelsAt(reg, order, root, m, j);
      LevelsDisjoint(reg, order, root, i, j);
    }
  }

  /** Levels 0 to m - 1 together hold no employee twice. */
  lemma LevelsBelowNoDup(reg: Registry, order: seq<string>, root: string, m: nat)
    requires RootedArena(reg, order, root)
    ensures NoDup(Flatten(Levels(reg, order, root, m)))
  {
    LevelsArePartition(reg, order, root, m);
    FlattenNoDup(Levels(reg, order, root, m));
  }

  /** The walk visits no employee twice. */
  lemma VisitOrderNoDup(reg: Registry, order: seq<string>, root: string)
    requires RootedArena(reg, order, root)
    ensures NoDup(VisitOrder(reg, order, root))
  {
    LevelsBelowNoDup(reg, order, root, |reg|);
  }

  /** Every id on levels 0 to m - 1 is an employee. */
  lemma LevelsBelowInRegistry(reg: Registry, order: seq<string>, root: string, m: nat)
    requires RootedArena(reg, order, root)
    ensures forall x :: x in Flatten(Levels(reg, order, root, m)) ==> x in reg.Keys
  {
    var ls := Levels(reg, order, root, m);
    LevelsLength(reg, order, root, m);
    forall x | x in Flatten(ls)
      ensures x in reg.Keys
    {
      var j := FlattenSource(ls, x);
      LevelsAt(reg, order, root, m, j);
      LevelMember(reg, order, root, j, x);
    }
  }

  /** Below a non-empty level m - 1, no level is empty. */
  lemma LevelsAboveNonEmpty(reg: Registry, order: seq<string>, root: string, m: nat)
    requires m > 0 && Level(reg, order, root, m - 1) != []
    ensures |Levels(reg, order, root, m)| == m
    ensures forall j :: 0 <= j < m ==> Levels(reg, order, root, m)[j] != []
  {
    LevelsLength(reg, order, root, m);
    forall j | 0 <= j < m
      ensures Levels(reg, order, root, m)[j] != []
    {
      LevelsAt(reg, order, root, m, j);
      if Level(reg, order, root, j) == [] {
        EmptyLevelStaysEmpty(reg, order, root, j, m - 1);
      }
    }
  }

  /** Once a level is empty, all deeper levels are. */
  lemma {:induction false} EmptyLevelStaysEmpty(reg: Registry, order: seq<string>, root: string, n: nat, m: nat)
    requires n <= m && Level(reg, order, root, n) == []
    ensures Level(reg, order, root, m) == []
    decreases m - n
  {
    if n < m {
      EmptyLevelStaysEmpty(reg, order, root, n + 1, m);
    }
  }

  /** A non-empty level is less deep than the registry is large: the tree has at most
      |reg| levels. */
  lemma LevelDepthBound(reg: Registry, order: seq<string>, root: string, n: nat)
    requires RootedArena(reg, order, root)
    requires Level(reg, order, root, n) != []
    ensures n < |reg|
  {
    var ls := Levels(reg, order, root, n + 1);
    LevelsAboveNonEmpty(reg, order, root, n + 1);
    FlattenLength(ls);
    LevelsBelowNoDup(reg, order, root, n + 1);
    LevelsBelowInRegistry(reg, order, root, n + 1);
    NoDupBound(Flatten(ls), reg.Keys);
  }

  /** The manager of an employee on level n + 1 is on level n: depth(child) = depth(manager) + 1. */
  lemma ManagerOneLevelUp(reg: Registry, order: seq<string>, root: string, x: string, n: nat)
    requires RootedArena(reg, order, root)
    requires x in Level(reg, order, root, n + 1)
    ensures ManagerOf(reg, x).Some? && ManagerOf(reg, x).value in Level(reg, order, root, n)
  {
    ChildrenMembership(reg, order, Level(reg, order, root, n));
  }

  /** The walk visits every employee that reaches the root by manager links exactly once,
      and nobody else. */
  lemma VisitOrderIsReachableOnce(reg: Registry, order: seq<string>, root: string)
    requires RootedArena(reg, order, root)
    ensures NoDup(VisitOrder(reg, order, root))
    ensures forall x :: x in VisitOrder(reg, order, root) <==> x in reg && ReportsTo(reg, x, root)
  {
    VisitOrderNoDup(reg, order, root);
    var ls := Levels(reg, order, root, |reg|);
    LevelsLength(reg, order, root, |reg|);
    forall x | x in VisitOrder(reg, order, root)
      ensures x in reg && ReportsTo(reg, x, root)
    {
      var j := FlattenSource(ls, x);
      LevelsAt(reg, order, root, |reg|, j);
      LevelMember(reg, order, root, j, x);
    }
    forall x | x in reg && ReportsTo(reg, x, root)
      ensures x in VisitOrder(reg, order, root)
    {
      var j :| Ancestor(reg, x, j) == Some(root);
      ReachableOnLevel(reg, order, root, x, j);
      LevelsAt(reg, order, root, |reg|, j);
      InFlatten(ls, j, x);
    }
  }

  /** An employee whose manager id is unresolved (and who is not the root) is never visited. */
  lemma UnresolvedManagerIsUnreachable(reg: Registry, order: seq<string>, root: string, x: string)
    requires RootedArena(reg, order, root)
    requires x in reg && x != root && ManagerOf(reg, x) == None
    ensures x !in VisitOrder(reg, order, root)
  {
    VisitOrderIsReachableOnce(reg, order, root);
  }

  /** The ids linked to `m` become its direct reports: in the children of a level that
      holds `m`, they are exactly those whose manager is `m`. */
  lemma LinkedEmployeesAreChildren(reg: Registry, order: seq<string>, x: string, m: string)
    requires IsEnumeration(order, reg)
    requires x in reg && reg[x].managerId == m && m != "" && m in reg
    ensures x in ChildIds(reg, order, m)
  {
    ChildIdsMembership(reg, order, m);
  }

  // ---------------------------------------------------------------------
  // Findings

  /** The employee a finding for `level` is about. */
  lemma {:induction false} LevelFindingSource(reg: Registry, level: seq<string>, depth: nat, f: DepthFinding)
    returns (x: string)
    requires f in LevelFindings(reg, level, depth)
    ensures depth > MAX_CHAIN && x in level && x in reg && f == DepthFinding(reg[x], depth - MAX_CHAIN)
    decreases |level|
  {
    var init := level[..|level| - 1];
    if f in LevelFindings(reg, init, depth) {
      x := LevelFindingSource(reg, init, depth, f);
      assert x in level;
    } else {
      x := level[|level| - 1];
    }
  }

  lemma {:induction false} LevelFindingPresent(reg: Registry, level: seq<string>, depth: nat, x: string)
    requires depth > MAX_CHAIN && x in level && x in reg
    ensures DepthFinding(reg[x], depth - MAX_CHAIN) in LevelFindings(reg, level, depth)
    decreases |level|
  {
    var init := level[..|level| - 1];
    if x != level[|level| - 1] {
      assert level == init + [level[|level| - 1]];
      LevelFindingPresent(reg, init, depth, x);
    }
  }

  /** The employee a reported finding is about, and the length of its chain. */
  lemma ReportedFindingSource(reg: Registry, order: seq<string>, root: string, f: DepthFinding)
    returns (x: string, n: nat)
    requires RootedArena(reg, order, root)
    requires f in ReportingLineFindings(reg, order, root)
    ensures x in reg && Ancestor(reg, x, n) == Some(root) && n + 1 > MAX_CHAIN
    ensures f == DepthFinding(reg[x], n + 1 - MAX_CHAIN)
  {
    n := FlattenSource(FindingsByLevel(reg, order, root, |reg|), f);
    x := FindingOnLevel(reg, order, root, |reg|, n, f);
    LevelMember(reg, order, root, n, x);
  }

  /** A finding of level n is about an employee of that level whose chain has n + 1 nodes. */
  lemma FindingOnLevel(reg: Registry, order: seq<string>, root: string, m: nat, n: nat, f: DepthFinding)
    returns (x: string)
    requires n < |FindingsByLevel(reg, order, root, m)| && f in FindingsByLevel(reg, order, root, m)[n]
    ensures n + 1 > MAX_CHAIN && x in Level(reg, order, root, n) && x in reg
    ensures f == DepthFinding(reg[x], n + 1 - MAX_CHAIN)
  {
    FindingsByLevelLength(reg, order, root, m);
    FindingsByLevelAt(reg, order, root, m, n);
    x := LevelFindingSource(reg, Level(reg, order, root, n), n + 1, f);
  }

  /** An employee `n` links below the root is on level `n`, and that level is one of the
      first |reg|. */
  lemma ReachableOnLevel(reg: Registry, order: seq<string>, root: string, x: string, n: nat)
    requires RootedArena(reg, order, root)
    requires x in reg && Ancestor(reg, x, n) == Some(root)
    ensures x in Level(reg, order, root, n) && n < |reg|
  {
    LevelMember(reg, order, root, n, x);
    LevelDepthBound(reg, order, root, n);
  }

  /** The finding for an employee of a level appears among the per-level findings. */
  lemma {:induction false} FindingListed(reg: Registry, fs: seq<seq<DepthFinding>>, level: seq<string>, n: nat, x: string)
    requires n < |fs| && fs[n] == LevelFindings(reg, level, n + 1)
    requires x in level && x in reg && n + 1 > MAX_CHAIN
    ensures DepthFinding(reg[x], n + 1 - MAX_CHAIN) in Flatten(fs)
  {
    LevelFindingPresent(reg, level, n + 1, x);
    InFlatten(fs, n, DepthFinding(reg[x], n + 1 - MAX_CHAIN));
  }

  lemma LevelMemberReported(reg: Registry, order: seq<string>, root: string, x: string, n: nat)
    requires n < |reg| && x in Level(reg, order, root, n) && x in reg && n + 1 > MAX_CHAIN
    ensures DepthFinding(reg[x], n + 1 - MAX_CHAIN) in ReportingLineFindings(reg, order, root)
  {
    FindingsByLevelAt(reg, order, root, |reg|, n);
    FindingListed(reg, FindingsByLevel(reg, order, root, |reg|), Level(reg, order, root, n), n, x);
  }

  lemma LongChainReported(reg: Registry, order: seq<string>, root: string, x: string, n: nat)
    requires RootedArena(reg, order, root)
    requires x in reg && Ancestor(reg, x, n) == Some(root) && n + 1 > MAX_CHAIN
    ensures DepthFinding(reg[x], n + 1 - MAX_CHAIN) in ReportingLineFindings(reg, order, root)
  {
    ReachableOnLevel(reg, order, root, x, n);
    LevelMemberReported(reg, order, root, x, n);
  }

  /** `f` is the finding for an employee whose chain to `root` has n + 1 nodes. */
  ghost predicate FindingForChain(reg: Registry, root: string, f: DepthFinding) {
    exists x, n: nat :: x in reg && Ancestor(reg, x, n) == Some(root) && f == DepthFinding(reg[x], n + 1 - MAX_CHAIN)
  }

  /** An employee is reported iff its chain to the root, counted in nodes including itself
      and the root, is longer than 4; the amount is the chain's length minus 4, at least 1. */
  lemma ReportedIffChainTooLong(reg: Registry, order: seq<string>, root: string)
    requires RootedArena(reg, order, root)
    ensures forall f :: f in ReportingLineFindings(reg, order, root) ==>
      f.excess >= 1 && FindingForChain(reg, root, f)
    ensures forall x, n: nat :: x in reg && Ancestor(reg, x, n) == Some(root) && n + 1 > MAX_CHAIN ==>
      DepthFinding(reg[x], n + 1 - MAX_CHAIN) in ReportingLineFindings(reg, order, root)
  {
    forall f | f in ReportingLineFindings(reg, order, root)
      ensures f.excess >= 1 && FindingForChain(reg, root, f)
    {
      var x, n := ReportedFindingSource(reg, order, root, f);
    }
    forall x, n: nat | x in reg && Ancestor(reg, x, n) == Some(root) && n + 1 > MAX_CHAIN
      ensures DepthFinding(reg[x], n + 1 - MAX_CHAIN) in ReportingLineFindings(reg, order, root)
    {
      LongChainReported(reg, order, root, x, n);
    }
  }

  /** The findings of one more level follow those of the levels above it. */
  lemma FindingsBelowStep(reg: Registry, order: seq<string>, root: string, n: nat)
    ensures FindingsBelow(reg, order, root, n + 1) ==
      FindingsBelow(reg, order, root, n) + LevelFindings(reg, Level(reg, order, root, n), n + 1)
  {
    var fs := FindingsByLevel(reg, order, root, n + 1);
    FindingsByLevelLength(reg, order, root, n);
    assert fs[..n] == FindingsByLevel(reg, order, root, n);
  }

  lemma {:induction false} FindingsByLevelPrefix(reg: Registry, order: seq<string>, root: string, m: nat, n: nat)
    requires n <= m
    ensures |FindingsByLevel(reg, order, root, m)| == m
    ensures FindingsByLevel(reg, order, root, m)[..n] == FindingsByLevel(reg, order, root, n)
    decreases m
  {
    FindingsByLevelLength(reg, order, root, m);
    if n < m {
      FindingsByLevelPrefix(reg, order, root, m - 1, n);
      var fs := FindingsByLevel(reg, order, root, m);
      assert fs[..n] == fs[..m - 1][..n];
    }
  }

  /** Once the walk has passed the last non-empty level, the findings are complete. */
  lemma FindingsBelowSettle(reg: Registry, order: seq<string>, root: string, n: nat, m: nat)
    requires n <= m && Level(reg, order, root, n) == []
    ensures FindingsBelow(reg, order, root, m) == FindingsBelow(reg, order, root, n)
  {
    var fs := FindingsByLevel(reg, order, root, m);
    FindingsByLevelLength(reg, order, root, m);
    forall j | n <= j < m
      ensures fs[j] == []
    {
      FindingsByLevelAt(reg, order, root, m, j);
      EmptyLevelStaysEmpty(reg, order, root, n, j);
    }
    FlattenEmptyTail(fs, n);
    FindingsByLevelPrefix(reg, order, root, m, n);
  }

  /** The ids of the employees that `fs` reports, in report order. */
  function FindingIds(fs: seq<DepthFinding>): (ids: seq<string>)
    ensures |ids| == |fs| && forall i :: 0 <= i < |fs| ==> ids[i] == fs[i].employee.id
  {
    seq(|fs|, i requires 0 <= i < |fs| => fs[i].employee.id)
  }

  lemma FindingIdsConcat(a: seq<DepthFinding>, b: seq<DepthFinding>)
    ensures FindingIds(a + b) == FindingIds(a) + FindingIds(b)
  {
    assert forall i :: 0 <= i < |b| ==> (a + b)[|a| + i] == b[i];
  }

  /** On a level without repeated ids, each finding is about a different employee of
      that level. */
  lemma {:induction false} LevelFindingsDistinct(reg: Registry, level: seq<string>, depth: nat)
    requires ValidRegistry(reg) && NoDup(level)
    ensures NoDup(FindingIds(LevelFindings(reg, level, depth)))
    ensures forall x :: x in FindingIds(LevelFindings(reg, level, depth)) ==> x in level
    decreases |level|
  {
    if level != [] {
      var init, k := level[..|level| - 1], level[|level| - 1];
      assert level == init + [k];
      assert k !in init by {
        assert forall i :: 0 <= i < |init| ==> init[i] == level[i] != k;
      }
      assert NoDup(init);
      LevelFindingsDistinct(reg, init, depth);
      var fs := LevelFindings(reg, init, depth);
      var tail := if depth > MAX_CHAIN && k in reg then [DepthFinding(reg[k], depth - MAX_CHAIN)] else [];
      assert forall x :: x in FindingIds(tail) ==> x == k;
      FindingIdsConcat(fs, tail);
      NoDupConcat(FindingIds(fs), FindingIds(tail));
    }
  }

  /** The findings of levels 0 to n - 1 are about different employees of those levels. */
  lemma {:induction false} FindingsBelowDistinct(reg: Registry, order: seq<string>, root: string, n: nat)
    requires RootedArena(reg, order, root) && ValidRegistry(reg)
    ensures NoDup(FindingIds(FindingsBelow(reg, order, root, n)))
    ensures forall x :: x in FindingIds(FindingsBelow(reg, order, root, n)) ==> x in Flatten(Levels(reg, order, root, n))
    decreases n
  {
    if n > 0 {
      var m := n - 1;
      var above, level := FindingsBelow(reg, order, root, m), Level(reg, order, root, m);
      FindingsBelowDistinct(reg, order, root, m);
      FindingsBelowStep(reg, order, root, m);
      LevelNoDup(reg, order, root, m);
      LevelFindingsDistinct(reg, level, n);
      FlattenSnoc(Levels(reg, order, root, m), level);
      LevelsBelowNoDup(reg, order, root, n);
      NoDupDisjoint(Flatten(Levels(reg, order, root, m)), level);
      FindingIdsConcat(above, LevelFindings(reg, level, n));
      NoDupConcat(FindingIds(above), FindingIds(LevelFindings(reg, level, n)));
    }
  }

  /** The long-reporting-line report names each employee at most once. */
  lemma ReportedOnce(reg: Registry, order: seq<string>, root: string)
    requires RootedArena(reg, order, root) && ValidRegistry(reg)
    ensures forall i, j :: 0 <= i < j < |ReportingLineFindings(reg, order, root)| ==>
      ReportingLineFindings(reg, order, root)[i].employee.id != ReportingLineFindings(reg, order, root)[j].employee.id
  {
    FindingsBelowDistinct(reg, order, root, |reg|);
    var ids := FindingIds(ReportingLineFindings(reg, order, root));
    assert forall i, j :: 0 <= i < j < |ids| ==> ids[i] != ids[j];
  }

  lemma {:induction false} LevelsPrefix(reg: Registry, order: seq<string>, root: string, m: nat, n: nat)
    requires n <= m
    ensures |Levels(reg, order, root, m)| == m
    ensures Levels(reg, order, root, m)[..n] == Levels(reg, order, root, n)
    decreases m
  {
    LevelsLength(reg, order, root, m);
    if n < m {
      LevelsPrefix(reg, order, root, m - 1, n);
      var ls := Levels(reg, order, root, m);
      assert ls[..n] == ls[..m - 1][..n];
    }
  }

  /** Once a level up to |reg| is empty, the visiting order is the levels above it. */
  lemma VisitOrderSettle(reg: Registry, order: seq<string>, root: string, n: nat)
    requires n <= |reg| && Level(reg, order, root, n) == []
    ensures VisitOrder(reg, order, root) == Flatten(Levels(reg, order, root, n))
  {
    var ls := Levels(reg, order, root, |reg|);
    LevelsLength(reg, order, root, |reg|);
    forall j | n <= j < |reg|
      ensures ls[j] == []
    {
      LevelsAt(reg, order, root, |reg|, j);
      EmptyLevelStaysEmpty(reg, order, root, n, j);
    }
    FlattenEmptyTail(ls, n);
    LevelsPrefix(reg, order, root, |reg|, n);
  }

  /** With an enumeration of the registry, the tree builder finds a CEO iff some employee
      has no manager id. */
  lemma {:induction false} LastCeoFound(reg: Registry, order: seq<string>)
    requires forall k :: k in reg ==> k in order
    ensures LastCeo(reg, order).Some? <==> HasCeo(reg)
    decreases |order|
  {
    if HasCeo(reg) {
      var k :| k in reg && reg[k].managerId == "";
      LastCeoFindsMember(reg, order, k);
    }
  }

  lemma {:induction false} LastCeoFindsMember(reg: Registry, order: seq<string>, k: string)
    requires k in order && k in reg && reg[k].managerId == ""
    ensures LastCeo(reg, order).Some?
    decreases |order|
  {
    if order[|order| - 1] != k {
      assert order == order[..|order| - 1] + [order[|order| - 1]];
      LastCeoFindsMember(reg, order[..|order| - 1], k);
    }
  }

  // ---------------------------------------------------------------------
  // Steps of the walks

  /** One more manager link from the id `d` links above `x`. */
  lemma {:induction false} AncestorStep(reg: Registry, x: string, d: nat)
    requires Ancestor(reg, x, d).Some?
    ensures Ancestor(reg, x, d + 1) == ManagerOf(reg, Ancestor(reg, x, d).value)
    decreases d
  {
    if d > 0 {
      AncestorStep(reg, ManagerOf(reg, x).value, d - 1);
    }
  }

  /** A chain of manager links that breaks off stays broken. */
  lemma {:induction false} AncestorCut(reg: Registry, x: string, d: nat, e: nat)
    requires d <= e && Ancestor(reg, x, d) == None
    ensures Ancestor(reg, x, e) == None
    decreases d
  {
    if ManagerOf(reg, x).Some? {
      AncestorCut(reg, ManagerOf(reg, x).value, d - 1, e - 1);
    }
  }

  /** Taking one more id of a level into the queue appends its direct reports, and its
      finding, if any. */
  lemma LevelPrefixStep(reg: Registry, order: seq<string>, level: seq<string>, i: nat, depth: nat)
    requires i < |level|
    ensures Children(reg, order, level[..i + 1]) == Children(reg, order, level[..i]) + ChildIds(reg, order, level[i])
    ensures LevelFindings(reg, level[..i + 1], depth) == LevelFindings(reg, level[..i], depth) +
      (if depth > MAX_CHAIN && level[i] in reg then [DepthFinding(reg[level[i]], depth - MAX_CHAIN)] else [])
  {
    assert level[..i + 1][..i] == level[..i];
  }

  /** The walk has visited levels 0 to n - 1 and i + 1 ids of level n, all distinct
      employees, so no more than |reg| of them. */
  lemma VisitedBound(reg: Registry, order: seq<string>, root: string, n: nat, i: nat)
    requires RootedArena(reg, order, root)
    requires i < |Level(reg, order, root, n)|
    ensures |Flatten(Levels(reg, order, root, n))| + i + 1 <= |reg|
  {
    var below := Flatten(Levels(reg, order, root, n));
    var s := Flatten(Levels(reg, order, root, n + 1));
    FlattenSnoc(Levels(reg, order, root, n), Level(reg, order, root, n));
    LevelsBelowNoDup(reg, order, root, n + 1);
    LevelsBelowInRegistry(reg, order, root, n + 1);
    PrefixBound(s, |below| + i + 1, reg.Keys);
  }
}
