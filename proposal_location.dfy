/** Where a proposal lives on the code-hosting service: its number there and
    its web address. Only a positive number with a non-empty address makes a
    location. */
module ProposalLocations {
  import opened Prelude

  datatype ProposalLocation = ProposalLocation(id: int, url: string)

  /** A location needs a positive number and a non-empty address. */
  predicate IsValidProposalLocation(id: int, url: string)
  {
    id > 0 && |url| > 0
  }

  /** The location with the given number and address; the Go code panics on
      an invalid pair, so a valid pair is demanded of the caller. */
  function NewProposalLocation(id: int, url: string): (r: ProposalLocation)
    requires IsValidProposalLocation(id, url)
    ensures r.id == id && r.url == url
    ensures IsValidProposalLocation(r.id, r.url)
  {
    ProposalLocation(id, url)
  }

  /** The location for a valid pair, and none for an invalid one. */
  function NewProposalLocationOption(id: int, url: string): (r: Option<ProposalLocation>)
    ensures r.Some? <==> (id > 0 && |url| > 0)
    ensures r.Some? ==> r.value.id == id && r.value.url == url
    ensures r.None? <==> (id <= 0 || url == "")
  {
    if IsValidProposalLocation(id, url) then Some(NewProposalLocation(id, url))
    else None
  }
}
