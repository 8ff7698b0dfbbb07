/** The ways one analysis run can fail; every one of them aborts the run. */
module Errors {
  import opened Wrappers
  import opened JavaLang

  datatype AnalysisError =
    | EmptyInput               // the input has no header line
    | MissingHeaders           // a required column name is absent from the header
    | TooManyLines             // more than 1000 data rows
    | MissingField(line: nat)  // a required field of data row `line` (1-based) is empty
    | MultipleCeo              // a second data row without a manager
    | SalaryFormat(text: string) // Integer.parseInt rejected the salary text
    | ManagerNotFound          // a manager id that no employee has (a NullPointerException)
    | NoCeo                    // no employee without a manager

  /** The exception message the run ends with; the NullPointerException's own
      wording depends on the Java runtime and is not modelled. */
  function Message(e: AnalysisError): (r: Option<string>)
    ensures r.None? <==> e.ManagerNotFound?
    ensures r.Some? ==> r.value != ""
  {
    match e
    case EmptyInput => Some("Check file content!")
    case MissingHeaders => Some("Required headers not found in the input")
    case TooManyLines => Some("More than 1000 lines in the input file")
    case MissingField(line) => Some("Missing field for the employee at line " + IntToString(line))
    case MultipleCeo => Some("There cant be more than one ceo in the given file!")
    case SalaryFormat(text) => Some("For input string: \"" + text + "\"")
    case ManagerNotFound => None
    case NoCeo => Some("No CEO found!")
  }
}
