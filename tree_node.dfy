/** TreeNode.java: one node of the reporting hierarchy. */
module TreeNodes {
  import opened Wrappers
  import opened JavaLang
  import opened Employees

  class TreeNode {
    /** The wrapped employee; final, so it never changes after construction. */
    const employee: Employee
    /** The direct reports, in the order they were added. */
    var directReports: seq<TreeNode>
    /** The manager's node; null for the root and for a node nobody adopted. */
    var parent: TreeNode?

    constructor (employee: Employee)
      ensures this.employee == employee
      ensures directReports == [] && parent == null
    {
      this.employee := employee;
      directReports := [];
      parent := null;
    }

    function GetEmployee(): Employee {
      employee
    }

    function GetDirectReports(): seq<TreeNode>
      reads this
    {
      directReports
    }

    function GetParent(): TreeNode?
      reads this
    {
      parent
    }

    method SetParent(parent: TreeNode?)
      modifies this`parent
      ensures this.parent == parent
    {
      this.parent := parent;
    }

    /** Appends `directReport` to this node's reports and makes this node its parent.
        Nothing else changes: in particular `directReport` stays in the list of any
        node that adopted it before. */
    method AddDirectReport(directReport: TreeNode)
      modifies this`directReports, directReport`parent
      ensures directReports == old(directReports) + [directReport]
      ensures directReport.parent == this
    {
      directReports := directReports + [directReport];
      directReport.SetParent(this);
    }

    /** `equals(o)`: nodes are equal when their employees are. */
    function Equals(other: TreeNode?): (r: bool)
      ensures r <==> other != null && employee.Equals(Some(other.employee))
    {
      other != null && (this == other || employee == other.employee)
    }

    /** `hashCode()`: `Objects.hash(employee)`. */
    function HashCode(): (h: int)
      ensures IsInt(h)
    {
      ObjectsHash([employee.HashCode()])
    }
  }

  /** Equal nodes have equal hash codes. */
  lemma EqualNodesHashAlike(a: TreeNode, b: TreeNode)
    requires a.Equals(b)
    ensures a.HashCode() == b.HashCode()
  {
  }
}
