/** The QueryEvidence component: it fetches the latest record of an evidence item,
    keeps it in the `result` state cell and an error text in `error`. */
module QueryEvidenceView {
  import opened Wrappers
  import opened WorldState
  import opened Envelope

  const FetchFailed := "Error fetching evidence"

  class QueryEvidence {
    var result: Option<Evidence>
    var error: string

    /** An error text is never shown next to data. */
    ghost predicate Valid()
      reads this
    {
      error != "" ==> result.None?
    }

    constructor ()
      ensures result == None && error == "" && Valid()
    {
      result := None;
      error := "";
    }

    /** HandleQuery: both cells are overwritten on every path, so nothing
        of an earlier reply survives. */
    method HandleQuery(response: Fetch<Evidence>)
      modifies this
      ensures View(result, error) == Outcome(response, FetchFailed)
      ensures Valid()
    {
      match response
      case Threw =>
        result := None;
        error := FetchFailed;
      case Answered(status, code, message, parsed) =>
        if status == 200 {
          if code == Some("200") {
            match parsed
            case SyntaxError =>
              // JSON.parse threw: the catch block runs
              result := None;
              error := FetchFailed;
            case Parsed(value) =>
              result := Some(value);
              error := "";
          } else {
            error := MessageOr(message, UnexpectedCode);
            result := None;
          }
        } else {
          error := UnexpectedStatus;
          result := None;
        }
    }
  }
}
