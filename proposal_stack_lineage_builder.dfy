/** The stack lineage builder: it records the branches of a stack, from the
    root down, with the proposal of each, renders them as an indented list,
    and answers which proposal was recorded for a branch. A connector that
    cannot find proposals yields the builder that does nothing. */
module ProposalStackLineageBuilders {
  import opened Prelude
  import opened Lineages
  import opened Forge
  import opened ProposalLineageBuild

  /** The proposal recorded last for `branch`; none when it was never added. */
  function LastProposal(entries: seq<ProposalLineage>, branch: Branch): Option<ProposalData>
    decreases |entries|
  {
    if entries == [] then None
    else if entries[|entries| - 1].branch == branch then entries[|entries| - 1].proposal
    else LastProposal(entries[..|entries| - 1], branch)
  }

  /** Entry `i` is the last one recorded for `branch`. */
  predicate IsLastFor(entries: seq<ProposalLineage>, i: int, branch: Branch)
  {
    0 <= i < |entries| && entries[i].branch == branch
    && forall j :: i < j < |entries| ==> entries[j].branch != branch
  }

  /** `LastProposal` is the proposal of the last entry for the branch, and
      none when no entry is for it. */
  lemma {:induction false} LastProposalIsLastEntry(entries: seq<ProposalLineage>, branch: Branch)
    ensures (forall i :: 0 <= i < |entries| ==> entries[i].branch != branch) ==>
              LastProposal(entries, branch) == None
    ensures forall i :: IsLastFor(entries, i, branch) ==> LastProposal(entries, branch) == entries[i].proposal
    decreases |entries|
  {
    if entries != [] {
      var n := |entries| - 1;
      var front := entries[..n];
      if entries[n].branch == branch {
        assert LastProposal(entries, branch) == entries[n].proposal;
        assert forall i :: IsLastFor(entries, i, branch) ==> i == n;
      } else {
        assert LastProposal(entries, branch) == LastProposal(front, branch);
        LastProposalIsLastEntry(front, branch);
        forall i | IsLastFor(entries, i, branch)
          ensures IsLastFor(front, i, branch) && front[i] == entries[i]
        {
        }
        if forall i :: 0 <= i < |entries| ==> entries[i].branch != branch {
          assert forall i :: 0 <= i < n ==> front[i] == entries[i];
        }
      }
    }
  }

  /** Recording a branch makes its proposal the one found for it, and leaves
      what is found for every other branch as it was. */
  lemma LastProposalAppend(entries: seq<ProposalLineage>, e: ProposalLineage, branch: Branch)
    ensures LastProposal(entries + [e], branch)
         == if e.branch == branch then e.proposal else LastProposal(entries, branch)
  {
    assert (entries + [e])[..|entries|] == entries;
  }

  class ProposalStackLineageBuilder {
    const connector: Connector
    /** The branches shown by name only, without looking up a proposal. */
    const exemptBranches: seq<Branch>
    /** The branches added so far, in the order they were added. */
    var orderedLineage: seq<ProposalLineage>

    /** This builder exists only for a connector that can find proposals. */
    predicate Valid()
    {
      connector.findProposalFn.Some?
    }

    constructor (connector: Connector, exemptBranches: seq<Branch>)
      requires connector.findProposalFn.Some?
      ensures Valid()
      ensures this.connector == connector && this.exemptBranches == exemptBranches
      ensures orderedLineage == []
    {
      this.connector := connector;
      this.exemptBranches := exemptBranches;
      orderedLineage := [];
    }

    /** Records the next branch of the stack, or reports why its proposal
        could not be found; a failure records nothing. */
    method AddBranch(childBranch: Branch, parentBranch: Option<Branch>) returns (err: Option<string>)
      requires Valid()
      modifies this
      ensures match NextEntry(connector.findProposalFn.value, exemptBranches, childBranch, parentBranch)
        case Appended(e) => orderedLineage == old(orderedLineage) + [e] && err == None
        case Failed(message) => orderedLineage == old(orderedLineage) && err == Some(message)
    {
      if childBranch in exemptBranches || parentBranch.None? {
        orderedLineage := orderedLineage + [ProposalLineage(childBranch, None)];
        return None;
      }
      var parent := parentBranch.value;
      var findProposalFn := connector.findProposalFn.value;
      var proposal := findProposalFn(childBranch, parent);
      if proposal.FindFailed? {
        return Some("failed to find proposal for branch " + childBranch + ": " + proposal.err);
      }
      if proposal.proposal.None? {
        return Some("no proposal found branch \"" + childBranch + "\"");
      }
      orderedLineage := orderedLineage + [ProposalLineage(childBranch, Some(proposal.proposal.value))];
      err := None;
    }

    /** The text of the recorded stack under the given options. */
    method Build(cfgs: seq<BuildOption>, styled: string -> string) returns (r: Option<string>)
      ensures r == Some(BuildText(Configured(cfgs), orderedLineage, exemptBranches, styled))
    {
      r := BuildLineage(orderedLineage, exemptBranches, cfgs, styled);
    }

    /** The proposal recorded last for `branch`. */
    method GetProposal(branch: Branch) returns (response: Option<ProposalData>)
      ensures response == LastProposal(orderedLineage, branch)
    {
      response := None;
      var k := 0;
      while k < |orderedLineage|
        invariant 0 <= k <= |orderedLineage|
        invariant response == LastProposal(orderedLineage[..k], branch)
      {
        assert orderedLineage[..k + 1][..k] == orderedLineage[..k];
        if orderedLineage[k].branch == branch {
          response := orderedLineage[k].proposal;
        }
        k := k + 1;
      }
      assert orderedLineage[..k] == orderedLineage;
    }
  }

  /** The builder a caller holds: the recording one, or the one that does
      nothing. */
  datatype StackLineageBuilder =
    | NoopStackLineageBuilder
    | RecordingStackLineageBuilder(builder: ProposalStackLineageBuilder)

  /** The recording builder when the connector can find proposals, the one
      that does nothing otherwise. */
  method NewProposalStackLineageBuilder(connector: Connector, exemptBranches: seq<Branch>)
    returns (b: StackLineageBuilder)
    ensures b.NoopStackLineageBuilder? <==> connector.findProposalFn.None?
    ensures b.RecordingStackLineageBuilder? ==>
              && fresh(b.builder) && b.builder.Valid()
              && b.builder.connector == connector && b.builder.exemptBranches == exemptBranches
              && b.builder.orderedLineage == []
  {
    if connector.findProposalFn.None? {
      return NoopStackLineageBuilder;
    }
    var builder := new ProposalStackLineageBuilder(connector, exemptBranches);
    b := RecordingStackLineageBuilder(builder);
  }

  /** `AddBranch` on either builder; the one that does nothing never fails. */
  method AddBranch(b: StackLineageBuilder, childBranch: Branch, parentBranch: Option<Branch>)
    returns (err: Option<string>)
    requires b.RecordingStackLineageBuilder? ==> b.builder.Valid()
    modifies if b.RecordingStackLineageBuilder? then {b.builder} else {}
    ensures b.NoopStackLineageBuilder? ==> err == None
    ensures b.RecordingStackLineageBuilder? ==>
      match NextEntry(b.builder.connector.findProposalFn.value, b.builder.exemptBranches,
                      childBranch, parentBranch)
      case Appended(e) => b.builder.orderedLineage == old(b.builder.orderedLineage) + [e] && err == None
      case Failed(message) => b.builder.orderedLineage == old(b.builder.orderedLineage) && err == Some(message)
  {
    match b
    case NoopStackLineageBuilder => err := None;
    case RecordingStackLineageBuilder(builder) => err := builder.AddBranch(childBranch, parentBranch);
  }

  /** `Build` on either builder; the one that does nothing renders nothing. */
  method Build(b: StackLineageBuilder, cfgs: seq<BuildOption>, styled: string -> string)
    returns (r: Option<string>)
    ensures b.NoopStackLineageBuilder? ==> r == None
    ensures b.RecordingStackLineageBuilder? ==>
              r == Some(BuildText(Configured(cfgs), b.builder.orderedLineage,
                                  b.builder.exemptBranches, styled))
  {
    match b
    case NoopStackLineageBuilder => r := None;
    case RecordingStackLineageBuilder(builder) => r := builder.Build(cfgs, styled);
  }

  /** `GetProposal` on either builder; the one that does nothing knows none. */
  method GetProposal(b: StackLineageBuilder, branch: Branch) returns (r: Option<ProposalData>)
    ensures b.NoopStackLineageBuilder? ==> r == None
    ensures b.RecordingStackLineageBuilder? ==> r == LastProposal(b.builder.orderedLineage, branch)
  {
    match b
    case NoopStackLineageBuilder => r := None;
    case RecordingStackLineageBuilder(builder) => r := builder.GetProposal(branch);
  }
}
