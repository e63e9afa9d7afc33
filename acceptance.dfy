/** `acceptance_status`: the acceptance facet of an opening name, by keyword, "accepted" first. */
module Acceptance {
  import opened Text

  datatype Status = Accepted | Declined | Neutral

  /** The text written to the `acceptance_status` column. */
  function StatusText(s: Status): (t: string)
    ensures t in {"accepted", "declined", "neutral"}
    ensures (s == Accepted) == (t == "accepted") && (s == Declined) == (t == "declined")
  {
    match s
    case Accepted => "accepted"
    case Declined => "declined"
    case Neutral => "neutral"
  }

  /** "accepted" wins over "declined"; a name with neither is neutral. */
  function AcceptanceStatus(name: string): (s: Status)
    ensures s == Accepted <==> exists i :: OccursAt(Lower(name), "accepted", i)
    ensures s == Declined <==>
              (!(exists i :: OccursAt(Lower(name), "accepted", i)) && exists i :: OccursAt(Lower(name), "declined", i))
    ensures s == Neutral <==>
              (!(exists i :: OccursAt(Lower(name), "accepted", i)) && !(exists i :: OccursAt(Lower(name), "declined", i)))
  {
    var n := Lower(name);
    if Contains(n, "accepted") then Accepted
    else if Contains(n, "declined") then Declined
    else Neutral
  }
}
