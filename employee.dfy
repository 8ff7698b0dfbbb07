/** Employee.java: an immutable record of one row of the input. */
module Employees {
  import opened Wrappers
  import opened JavaLang

  /** All five fields are final: a datatype value never changes, and each field
      selector returns exactly what the constructor was given. */
  datatype Employee = Employee(id: string, firstName: string, lastName: string, salary: int, managerId: string)
  {
    /** `equals(o)`: `other == None` stands for `null` or an object of another class. */
    function Equals(other: Option<Employee>): (r: bool)
      ensures r <==> other.Some? && id == other.value.id && firstName == other.value.firstName
                     && lastName == other.value.lastName && salary == other.value.salary
                     && managerId == other.value.managerId
    {
      other.Some? && this == other.value
    }

    /** `hashCode()`: `Objects.hash(id, firstName, lastName, salary, managerId)`. */
    function HashCode(): (h: int)
      ensures IsInt(h)
    {
      ObjectsHash([StringHash(id), StringHash(firstName), StringHash(lastName), WrapInt(salary), StringHash(managerId)])
    }

    /** `toString()`: the full name, as both reports print it. */
    function FullName(): (s: string)
      ensures |s| == |firstName| + 1 + |lastName|
      ensures s[..|firstName|] == firstName && s[|firstName|] == ' ' && s[|firstName| + 1..] == lastName
    {
      firstName + " " + lastName
    }
  }

  /** `equals` is an equivalence relation and false for null (or another class). */
  lemma EqualsIsEquivalence(a: Employee, b: Employee, c: Employee)
    ensures a.Equals(Some(a))
    ensures !a.Equals(None)
    ensures a.Equals(Some(b)) ==> b.Equals(Some(a))
    ensures a.Equals(Some(b)) && b.Equals(Some(c)) ==> a.Equals(Some(c))
  {
  }

  /** Equal employees have equal hash codes. */
  lemma EqualEmployeesHashAlike(a: Employee, b: Employee)
    requires a.Equals(Some(b))
    ensures a.HashCode() == b.HashCode()
  {
  }
}
