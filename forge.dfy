/** What the lineage builders need from a code-hosting connector: the data
    of one proposal and the optional capability to look a proposal up. */
module Forge {
  import opened Prelude
  import opened Lineages

  /** A proposal (pull request) as the connector reports it. */
  datatype ProposalData = ProposalData(number: int, title: string, url: string, source: Branch)

  /** The outcome of one look-up: an error message, or the proposal found
      for the branch, if there is one. */
  datatype FindResult = FindFailed(err: string) | FindSucceeded(proposal: Option<ProposalData>)

  /** Finds the proposal of `branch` that targets `target`. The connector's
      network call is not modelled; it is this oracle. */
  type FindProposalFn = (Branch, Branch) -> FindResult

  /** A connector, reduced to whether it can find proposals at all. */
  datatype Connector = Connector(findProposalFn: Option<FindProposalFn>)
}
