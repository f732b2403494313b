/** The QueryAllEvidence component: it fetches the full listing of stored records,
    keeps it in the `allEvidence` state cell and an error text in `error`. */
module QueryAllEvidenceView {
  import opened Wrappers
  import opened WorldState
  import opened Envelope

  const FetchFailed := "Error fetching all evidence"

  class QueryAllEvidence {
    var allEvidence: Option<seq<Evidence>>
    var error: string

    /** An error text is never shown next to data. */
    ghost predicate Valid()
      reads this
    {
      error != "" ==> allEvidence.None?
    }

    constructor ()
      ensures allEvidence == None && error == "" && Valid()
    {
      allEvidence := None;
      error := "";
    }

    /** HandleQueryAll: both cells are overwritten on every path, so nothing
        of an earlier reply survives. */
    method HandleQueryAll(response: Fetch<seq<Evidence>>)
      modifies this
      ensures View(allEvidence, error) == Outcome(response, FetchFailed)
      ensures Valid()
    {
      match response
      case Threw =>
        allEvidence := None;
        error := FetchFailed;
      case Answered(status, code, message, parsed) =>
        if status == 200 {
          if code == Some("200") {
            match parsed
            case SyntaxError =>
              // JSON.parse threw: the catch block runs
              allEvidence := None;
              error := FetchFailed;
            case Parsed(value) =>
              allEvidence := Some(value);
              error := "";
          } else {
            error := MessageOr(message, UnexpectedCode);
            allEvidence := None;
          }
        } else {
          error := UnexpectedStatus;
          allEvidence := None;
        }
    }
  }
}
