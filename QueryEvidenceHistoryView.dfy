/** The QueryEvidenceHistory component: it fetches the version history of an evidence item,
    keeps it in the `history` state cell and an error text in `error`. */
module QueryEvidenceHistoryView {
  import opened Wrappers
  import opened WorldState
  import opened Envelope

  const FetchFailed := "Error fetching evidence history"

  class QueryEvidenceHistory {
    var history: Option<seq<Evidence>>
    var error: string

    /** An error text is never shown next to data. */
    ghost predicate Valid()
      reads this
    {
      error != "" ==> history.None?
    }

    constructor ()
      ensures history == None && error == "" && Valid()
    {
      history := None;
      error := "";
    }

    /** HandleQueryHistory: both cells are overwritten on every path, so nothing
        of an earlier reply survives. */
    method HandleQueryHistory(response: Fetch<seq<Evidence>>)
      modifies this
      ensures View(history, error) == Outcome(response, FetchFailed)
      ensures Valid()
    {
      match response
      case Threw =>
        history := None;
        error := FetchFailed;
      case Answered(status, code, message, parsed) =>
        if status == 200 {
          if code == Some("200") {
            match parsed
            case SyntaxError =>
              // JSON.parse threw: the catch block runs
              history := None;
              error := FetchFailed;
            case Parsed(value) =>
              history := Some(value);
              error := "";
          } else {
            error := MessageOr(message, UnexpectedCode);
            history := None;
          }
        } else {
          error := UnexpectedStatus;
          history := None;
        }
    }
  }
}
