/** One step of the main menu: the answer to "Enter your choice" selects a
    command; "7" ends the loop and anything unrecognised is reported and the
    loop goes on. */
module Menu {

  datatype Command =
    | AddNew | RemoveByTitle | SearchByText | UpdateByTitle | ListAll | ShowProgress
    | Exit
    | Invalid

  function Dispatch(choice: string): (c: Command)
    ensures c == Exit <==> choice == "7"
    ensures c == Invalid <==> choice !in {"1", "2", "3", "4", "5", "6", "7"}
    ensures Changes(c) <==> choice in {"1", "2", "4"}
  {
    if choice == "1" then AddNew
    else if choice == "2" then RemoveByTitle
    else if choice == "3" then SearchByText
    else if choice == "4" then UpdateByTitle
    else if choice == "5" then ListAll
    else if choice == "6" then ShowProgress
    else if choice == "7" then Exit
    else Invalid
  }

  /** The commands that may change the collection, and so may save it. */
  predicate Changes(c: Command) {
    c == AddNew || c == RemoveByTitle || c == UpdateByTitle
  }

  /** Every one of the seven menu entries selects its own command. */
  lemma DispatchDistinguishesEntries(s: string, t: string)
    requires s in {"1", "2", "3", "4", "5", "6", "7"} && t in {"1", "2", "3", "4", "5", "6", "7"}
    requires Dispatch(s) == Dispatch(t)
    ensures s == t
  {
  }
}
