/** The error kinds a refresh can fail with, and how they are rendered for display
    (src/error.rs). */
module Errors {

  /** Each kind carries a static, human-readable message. The fetch code names the first
      kind `DataFetchError`; it is the same kind as `DataFetch` here. */
  datatype Error =
    | DataFetch(msg: string)
    | WindowDataParsing(msg: string)
    | ShellCommand(msg: string)

  /** The `Display` rendering: a fixed label for the kind followed by the message.
      The misspelling "Wiindow" is the program's own. */
  function Display(e: Error): (r: string)
    ensures |e.msg| < |r| && r[|r| - |e.msg|..] == e.msg
    ensures e.DataFetch? ==> r[..|r| - |e.msg|] == "Data fetching error: "
    ensures e.WindowDataParsing? ==> r[..|r| - |e.msg|] == "Wiindow data parsing error: "
    ensures e.ShellCommand? ==> r[..|r| - |e.msg|] == "Shell command error: "
  {
    match e
    case DataFetch(msg) => "Data fetching error: " + msg
    case WindowDataParsing(msg) => "Wiindow data parsing error: " + msg
    case ShellCommand(msg) => "Shell command error: " + msg
  }

  /** `as_string` formats the error through its `Display` implementation. */
  function AsString(e: Error): (r: string)
    ensures e.DataFetch? ==> r == "Data fetching error: " + e.msg
    ensures e.WindowDataParsing? ==> r == "Wiindow data parsing error: " + e.msg
    ensures e.ShellCommand? ==> r == "Shell command error: " + e.msg
  {
    Display(e)
  }

  /** Distinct errors render as distinct strings: a rendered error line identifies both the
      kind (by its label) and the message. */
  lemma DisplayInjective(e1: Error, e2: Error)
    requires Display(e1) == Display(e2)
    ensures e1 == e2
  {
    var r := Display(e1);
    assert e1.msg == r[|r| - |e1.msg|..];
    // The three labels already differ in their first character.
    assert r[0] == (if e1.DataFetch? then 'D' else if e1.WindowDataParsing? then 'W' else 'S');
    assert r[0] == (if e2.DataFetch? then 'D' else if e2.WindowDataParsing? then 'W' else 'S');
    assert |e1.msg| == |e2.msg|;
  }
}
