/** The lineage builder: it records the branches of a stack, from the root
    down, with the proposal of each, and renders them as an indented list.
    It is the stack lineage builder without the proposal query. A connector
    that cannot find proposals yields the builder that does nothing. */
module ProposalLineageBuilders {
  import opened Prelude
  import opened Lineages
  import opened Forge
  import opened ProposalLineageBuild

  class ProposalLineageBuilder {
    const connector: Connector
    /** The branches shown by name only, without looking up a proposal. */
    const exemptBranches: seq<Branch>
    /** The branches added so far, in the order they were added. */
    var orderedLineage: seq<ProposalLineage>

    /** This builder exists only for a connector that can find proposals. */
    predicate Valid()
    {
      connector.findProposalFn.Some?
    }

    constructor (connector: Connector, exemptBranches: seq<Branch>)
      requires connector.findProposalFn.Some?
      ensures Valid()
      ensures this.connector == connector && this.exemptBranches == exemptBranches
      ensures orderedLineage == []
    {
      this.connector := connector;
      this.exemptBranches := exemptBranches;
      orderedLineage := [];
    }

    /** Records the next branch of the stack, or reports why its proposal
        could not be found; a failure records nothing. */
    method AddBranch(childBranch: Branch, parentBranch: Option<Branch>) returns (err: Option<string>)
      requires Valid()
      modifies this
      ensures match NextEntry(connector.findProposalFn.value, exemptBranches, childBranch, parentBranch)
        case Appended(e) => orderedLineage == old(orderedLineage) + [e] && err == None
        case Failed(message) => orderedLineage == old(orderedLineage) && err == Some(message)
    {
      if childBranch in exemptBranches || parentBranch.None? {
        orderedLineage := orderedLineage + [ProposalLineage(childBranch, None)];
        return None;
      }
      var parent := parentBranch.value;
      var findProposalFn := connector.findProposalFn.value;
      var proposal := findProposalFn(childBranch, parent);
      if proposal.FindFailed? {
        return Some("failed to find proposal for branch " + childBranch + ": " + proposal.err);
      }
      if proposal.proposal.None? {
        return Some("no proposal found branch \"" + childBranch + "\"");
      }
      orderedLineage := orderedLineage + [ProposalLineage(childBranch, Some(proposal.proposal.value))];
      err := None;
    }

    /** The text of the recorded stack under the given options. */
    method Build(cfgs: seq<BuildOption>, styled: string -> string) returns (r: Option<string>)
      ensures r == Some(BuildText(Configured(cfgs), orderedLineage, exemptBranches, styled))
    {
      r := BuildLineage(orderedLineage, exemptBranches, cfgs, styled);
    }
  }

  /** The builder a caller holds: the recording one, or the one that does
      nothing. */
  datatype LineageBuilder =
    | NoopLineageBuilder
    | RecordingLineageBuilder(builder: ProposalLineageBuilder)

  /** The recording builder when the connector can find proposals, the one
      that does nothing otherwise. */
  method NewProposalLineageBuilder(connector: Connector, exemptBranches: seq<Branch>)
    returns (b: LineageBuilder)
    ensures b.NoopLineageBuilder? <==> connector.findProposalFn.None?
    ensures b.RecordingLineageBuilder? ==>
              && fresh(b.builder) && b.builder.Valid()
              && b.builder.connector == connector && b.builder.exemptBranches == exemptBranches
              && b.builder.orderedLineage == []
  {
    if connector.findProposalFn.None? {
      return NoopLineageBuilder;
    }
    var builder := new ProposalLineageBuilder(connector, exemptBranches);
    b := RecordingLineageBuilder(builder);
  }

  /** `AddBranch` on either builder; the one that does nothing never fails. */
  method AddBranch(b: LineageBuilder, childBranch: Branch, parentBranch: Option<Branch>)
    returns (err: Option<string>)
    requires b.RecordingLineageBuilder? ==> b.builder.Valid()
    modifies if b.RecordingLineageBuilder? then {b.builder} else {}
    ensures b.NoopLineageBuilder? ==> err == None
    ensures b.RecordingLineageBuilder? ==>
      match NextEntry(b.builder.connector.findProposalFn.value, b.builder.exemptBranches,
                      childBranch, parentBranch)
      case Appended(e) => b.builder.orderedLineage == old(b.builder.orderedLineage) + [e] && err == None
      case Failed(message) => b.builder.orderedLineage == old(b.builder.orderedLineage) && err == Some(message)
  {
    match b
    case NoopLineageBuilder => err := None;
    case RecordingLineageBuilder(builder) => err := builder.AddBranch(childBranch, parentBranch);
  }

  /** `Build` on either builder; the one that does nothing renders nothing. */
  method Build(b: LineageBuilder, cfgs: seq<BuildOption>, styled: string -> string)
    returns (r: Option<string>)
    ensures b.NoopLineageBuilder? ==> r == None
    ensures b.RecordingLineageBuilder? ==>
              r == Some(BuildText(Configured(cfgs), b.builder.orderedLineage,
                                  b.builder.exemptBranches, styled))
  {
    match b
    case NoopLineageBuilder => r := None;
    case RecordingLineageBuilder(builder) => r := builder.Build(cfgs, styled);
  }
}
