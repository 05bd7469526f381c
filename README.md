# Branch-stack core of git-town, in Dafny

This project models the part of git-town that shows how a branch sits in
its stack, and it proves properties of that model:

- **Lineage trees.** Given the parent of every configured branch and a
  current branch, two builders make a tree of nodes. Each node holds a
  branch, a depth and an ordered child list.
  - The older builder (`LineageTrees`) builds the ancestor line, then the
    branch itself, then every descendant under its parent.
  - The newer builder (`ProposalLineageTrees`) builds the ancestor line. It
    then attaches the subtree of the branch and of every other child of an
    ancestor that is neither the main branch, a perennial branch nor an
    ancestor. A `visited` arena guards against attaching a node twice.
- **Proposal lineage builders.** These stateful objects record the branches
  of a stack with the proposal (pull request) the connector finds for each,
  and render the recorded list as indented text under display options.
  - `ProposalStackLineageBuilders` is the current one. It can also answer
    which proposal was recorded for a branch.
  - `ProposalLineageBuilders` is the older copy, without that query.
  - Both use `ProposalLineageBuild`: the options, the line format and the
    decision one `AddBranch` takes.
  - A connector that cannot look proposals up yields a builder that does
    nothing.
- **The body splicer** `updateProposalBodyWithStackLineage` (`ProposalBody`).
  It writes the rendered lineage into a proposal description, between the
  markers `<!-- branch-stack -->` and `<!-- branch-stack-end -->`, and keeps
  the rest of the description.
- **Proposal locations** (`ProposalLocations`): the pair of a proposal
  number and a web address, valid only with a positive number and a
  non-empty address.

The Go lineage type is not part of this model. `Lineages` specifies it: a
finite parent map together with an enumeration of the configured branches
in which every parent comes before its children. Such an enumeration exists
exactly when the lineage has no cycles, and it fixes the order in which
`Children` and `Descendants` report branches.

The Go trees link heap nodes through child pointers. Here the nodes live in
an arena `map<Branch, Node>`, which is the role the builders' own
`visited`/`mapper` maps play, and a child is named by its branch.
`LineageTreeNodes.Shaped` is the shape every built tree has:

- every node is filed under its own branch;
- the root is a lineage root at depth 0;
- a node's children are lineage children of its branch, each listed once;
- every other node sits in the child list of its lineage parent's node, one
  level deeper.

## Model

| member | source | states |
|---|---|---|
| LineageTrees.NewLineageTree | internal/config/configdomain/lineage_tree.go:46-81 | The tree has the lineage shape, and its root is the first branch of the current branch's chain (the branch itself when it has no ancestors). The nodes are exactly the branches above or below the current branch. Each ancestor's only child is the next branch of the chain. Every node at or below the current branch holds all its lineage children, in lineage order. |
| LineageTrees.AddLine | internal/config/configdomain/lineage_tree.go:56-67 | After the ancestor loop and the step for the current branch, the arena is the chain: node j has depth j and the next branch as its only child. The super-root's single child is the first branch of the chain. |
| LineageTrees.AddDescendants | internal/config/configdomain/lineage_tree.go:69-77 | After the loop, every descendant is attached, and each child list below the current branch is the filter of the descendants by parent. |
| LineageTrees.AddDescendant | internal/config/configdomain/lineage_tree.go:70-76 | Attaching the k-th descendant under its lineage parent's node keeps the shape and extends the set of attached descendants by that one. |
| LineageTreeNodes.AttachedNodes | internal/config/configdomain/lineage_tree.go:73-76 | Attaching a new branch adds exactly its node, with no children. It appends the branch to its parent's child list and leaves every other node as it was. |
| LineageTreeNodes.AttachShaped | internal/config/configdomain/proposal_lineage_tree.go:95-100 | Attaching a branch that is not in the tree yet, under its lineage parent's node and one level deeper, keeps the lineage shape. |
| LineageTreeNodes.DepthIsDistance | internal/config/configdomain/proposal_lineage_tree.go:95-99 | In a tree of lineage shape, every node's depth equals the number of its lineage ancestors, which is its distance from the root. |
| LineageTreeNodes.TreeHoldsChain | internal/config/configdomain/proposal_lineage_tree.go:95-96 | A tree of lineage shape holds every ancestor of each of its branches, so the parent node that is looked up always exists. |
| LineageTreeNodes.ExactlyOnce | internal/config/configdomain/proposal_lineage_tree.go:91-100 | A node is in the child list of `p` exactly when it is not the root and its lineage parent is `p`. No child list repeats a branch. |
| LineageTreeNodes.ChildNodesAreLineageChildren | internal/config/configdomain/proposal_lineage_tree.go:38-40 | In a tree of lineage shape, the i-th child node holds the i-th child branch, that branch's lineage parent is the node's own branch, and the child node is one level deeper. |
| LineageTreeNodes.ChildBranchesOfChildNodes | internal/config/configdomain/proposal_lineage_tree.go:25-32 | The child branches are the branches of the child nodes, in the same order, and each is in the tree. |
| ProposalLineageTrees.NewLineageTree | internal/config/configdomain/proposal_lineage_tree.go:51-88 | It needs a current branch with a parent. The tree has the lineage shape, and its root is the first ancestor. The nodes are exactly the ancestors plus every branch at or below a stack seed (the current branch, or a free child of an ancestor). Ancestor i holds the next branch of the chain, followed by its free children in lineage order. Every other node holds all its lineage children. The branch list names each node once. |
| ProposalLineageTrees.AddAncestorLine | internal/config/configdomain/proposal_lineage_tree.go:58-75 | The ancestors are non-empty and form a line of single children from depth 0. The collected list is the current branch followed by the free children of each ancestor, in ancestor order and then in lineage order. |
| ProposalLineageTrees.AppendFreeChildren | internal/config/configdomain/proposal_lineage_tree.go:67-72 | The inner loop appends exactly the children that are neither main or perennial branches nor ancestors, in order. |
| ProposalLineageTrees.AddSeedSubtrees | internal/config/configdomain/proposal_lineage_tree.go:77-79 | After the loop over the collected branches, the subtree of each one is attached. Each ancestor's list grows by the de-duplicated collected children of that ancestor, and every other node holds all its children. |
| ProposalLineageTrees.AddSeedSubtree | internal/config/configdomain/proposal_lineage_tree.go:78 | One turn of that loop attaches the subtree of the k-th collected branch. |
| ProposalLineageTrees.AddDescendantNodes | internal/config/configdomain/proposal_lineage_tree.go:90-106 | A branch that is already visited leaves the arena unchanged. Otherwise the branch is appended to its parent's child list, every old node is kept, and its whole subtree is added, each new node with all its lineage children, keeping the lineage shape. |
| ProposalLineageTrees.VisitedBranches | internal/config/configdomain/proposal_lineage_tree.go:82-86 | The branch list names every key of `visited` exactly once, in some order. |
| ProposalLineageTrees.SeedsAreStackSeeds | internal/config/configdomain/proposal_lineage_tree.go:58-72 | A branch is in the collected list exactly when it is the current branch, or a child of an ancestor that is neither main or perennial nor an ancestor. |
| ProposalLineageTrees.SeedUnderSeed | internal/config/configdomain/proposal_lineage_tree.go:67-79 | No stack seed lies below another, so the subtrees the second loop attaches are disjoint. |
| ProposalLineageTrees.AncestorsLine | internal/config/configdomain/proposal_lineage_tree.go:57 | The ancestors of a branch with a parent are the parent's chain, run down from a lineage root without repeats, and they end at that parent. |
| ProposalLineageBuild.NextEntry | internal/config/configdomain/proposal_stack_lineage_builder.go:103-130 | An exempt branch, or one without a parent, gets an entry without a proposal and the connector is not asked. Otherwise a found proposal is recorded. A failed look-up and a missing proposal are the two errors, with their two messages. |
| ProposalLineageBuild.Configure | internal/config/configdomain/proposal_stack_lineage_builder.go:133-136 | Running the option closures in order on the defaults gives the configured options. |
| ProposalLineageBuild.ConfiguredTexts | internal/config/configdomain/proposal_stack_lineage_builder.go:44-54 | The before-texts and after-texts are exactly the texts of those options, in call order. |
| ProposalLineageBuild.LastOptionWins | internal/config/configdomain/proposal_stack_lineage_builder.go:56-78 | A scalar option (marker, indicator, location, current branch) takes the value of the last closure of its kind. |
| ProposalLineageBuild.UnsetOptionsDefault | internal/config/configdomain/proposal_stack_lineage_builder.go:31-40 | Without a closure of its kind, an option keeps its default: marker "-", indicator "point_left", location proposal body, no current branch. |
| ProposalLineageBuild.DecimalRoundTrip | internal/config/configdomain/proposal_stack_lineage_builder.go:182-184 | The proposal number written with `%d` is a numeral that reads back as that number, and its first digit is not a zero unless the number is zero. |
| ProposalLineageBuild.PlainLineShape | internal/config/configdomain/proposal_stack_lineage_builder.go:184-189 | A line that is not the current branch's starts with the indent, the marker and "PR ". It goes on with the number, title and link in the terminal, and with the link alone in a proposal body. |
| ProposalLineageBuild.HighlightedLine | internal/config/configdomain/proposal_stack_lineage_builder.go:179-191 | The current branch's line is the plain line, marked. In the terminal the indicator goes in front and the whole line is styled. In a proposal body the indicator goes before the newline. |
| ProposalLineageBuild.StopIndex | internal/config/configdomain/proposal_stack_lineage_builder.go:148-156 | The number of entries shown: every entry before it is exempt or has a proposal, and the entry at it, if any, is the first non-exempt entry without one. |
| ProposalLineageBuild.RenderedLinesAppend | internal/config/configdomain/proposal_stack_lineage_builder.go:145-160 | With no stop so far, a further entry adds its own line at the next level, or nothing when it is a stop. |
| ProposalLineageBuild.RenderedLinesAfterStop | internal/config/configdomain/proposal_stack_lineage_builder.go:153-156 | Once a stop is recorded, entries added later never change the lines. |
| ProposalLineageBuild.StopIndexAppend | internal/config/configdomain/proposal_stack_lineage_builder.go:153-156 | With no stop so far, appending an entry moves the stop past it, unless it is a stop itself. |
| ProposalLineageBuild.StopIndexPrefix | internal/config/configdomain/proposal_stack_lineage_builder.go:153-156 | The stop depends only on the entries up to it. |
| ProposalLineageBuild.EntryLineIndent | internal/config/configdomain/proposal_stack_lineage_builder.go:145-158 | Every line except a styled terminal line starts with two blanks per level, a blank, the marker and a blank. |
| ProposalLineageBuild.BuildLineage | internal/config/configdomain/proposal_stack_lineage_builder.go:132-167 | `Build` always returns some text: the before-texts, the shown lines, then the after-texts. The after-texts are written even after a stop. |
| ProposalLineageBuild.WriteLines | internal/config/configdomain/proposal_stack_lineage_builder.go:143-160 | The count-down loop, with its `continue` and `break`, writes exactly the shown lines. |
| ProposalLineageBuild.WriteAll | internal/config/configdomain/proposal_stack_lineage_builder.go:139-141 | The loop over the before-texts, and likewise the one over the after-texts, writes the texts one after the other. |
| ProposalStackLineageBuilders.LastProposalIsLastEntry | internal/config/configdomain/proposal_stack_lineage_builder.go:169-177 | The proposal found for a branch is that of the last entry for it, and none when no entry is for it. |
| ProposalStackLineageBuilders.LastProposalAppend | internal/config/configdomain/proposal_stack_lineage_builder.go:169-177 | Recording a branch makes its proposal the one found for it, and keeps what is found for every other branch. |
| ProposalStackLineageBuilders.ProposalStackLineageBuilder.constructor | internal/config/configdomain/proposal_stack_lineage_builder.go:85-89 | The builder keeps the connector and the exempt branches and starts with no entries. |
| ProposalStackLineageBuilders.ProposalStackLineageBuilder.AddBranch | internal/config/configdomain/proposal_stack_lineage_builder.go:103-130 | On success, exactly the decided entry is appended. On failure, the entries are unchanged and the message is returned. |
| ProposalStackLineageBuilders.ProposalStackLineageBuilder.Build | internal/config/configdomain/proposal_stack_lineage_builder.go:132-167 | The result is the rendered text of the recorded entries under the configured options. |
| ProposalStackLineageBuilders.ProposalStackLineageBuilder.GetProposal | internal/config/configdomain/proposal_stack_lineage_builder.go:169-177 | The loop returns the proposal of the last entry for the branch, and none when there is none. |
| ProposalStackLineageBuilders.NewProposalStackLineageBuilder | internal/config/configdomain/proposal_stack_lineage_builder.go:80-90 | The builder does nothing exactly when the connector cannot find proposals. Otherwise it is a fresh, empty recording builder. |
| ProposalStackLineageBuilders.AddBranch | internal/config/configdomain/proposal_stack_lineage_builder.go:195-197 | The builder that does nothing never fails. The recording one behaves as its own `AddBranch`. |
| ProposalStackLineageBuilders.Build | internal/config/configdomain/proposal_stack_lineage_builder.go:199-201 | The builder that does nothing renders none. The recording one renders its entries. |
| ProposalStackLineageBuilders.GetProposal | internal/config/configdomain/proposal_stack_lineage_builder.go:203-205 | The builder that does nothing knows no proposal. The recording one answers from its entries. |
| ProposalLineageBuilders.ProposalLineageBuilder.constructor | internal/config/configdomain/proposal_lineage_builder.go:83-87 | The builder keeps the connector and the exempt branches and starts with no entries. |
| ProposalLineageBuilders.ProposalLineageBuilder.AddBranch | internal/config/configdomain/proposal_lineage_builder.go:101-128 | On success, exactly the decided entry is appended. On failure, the entries are unchanged and the message is returned. |
| ProposalLineageBuilders.ProposalLineageBuilder.Build | internal/config/configdomain/proposal_lineage_builder.go:130-165 | The result is the rendered text of the recorded entries under the configured options. |
| ProposalLineageBuilders.NewProposalLineageBuilder | internal/config/configdomain/proposal_lineage_builder.go:78-88 | The builder does nothing exactly when the connector cannot find proposals. Otherwise it is a fresh, empty recording builder. |
| ProposalLineageBuilders.AddBranch | internal/config/configdomain/proposal_lineage_builder.go:183-185 | The builder that does nothing never fails. The recording one behaves as its own `AddBranch`. |
| ProposalLineageBuilders.Build | internal/config/configdomain/proposal_lineage_builder.go:187-189 | The builder that does nothing renders none. The recording one renders its entries. |
| ProposalBody.Find | internal/vm/opcodes/proposal_lineage_create_test.go:73-76 | The search the splicer runs for the start marker, the end marker and the blank line: the reported index is the first occurrence at or after the start, and none is reported only when there is no occurrence. |
| ProposalBody.SpliceAppendsBlock | internal/vm/opcodes/proposal_lineage_create_test.go:17-28 | A description without the start marker is kept whole, and the block follows after a blank line. An empty description becomes the block. |
| ProposalBody.SpliceReplacesBlock | internal/vm/opcodes/proposal_lineage_create_test.go:29-34 | With a complete block, only the old content changes. The text before the start marker, and everything from the end marker on (other comments included), is kept. |
| ProposalBody.SpliceClosesBlockAtBlankLine | internal/vm/opcodes/proposal_lineage_create_test.go:35-40 | When the end marker is missing, the old content up to the first blank line, over any number of lines, is replaced by the new content and the end marker, and the blank line and all after it are kept. |
| ProposalBody.SpliceClosesBlockAtEnd | internal/vm/opcodes/proposal_lineage_create_test.go:47-52 | When there is no end marker and no blank line, the old content to the end, over any number of lines, is replaced and the end marker appended. |
| ProposalBody.SplicedShape | internal/vm/opcodes/proposal_lineage_create_test.go:73-76 | Every output is text without a start marker, followed by a complete block holding the content, followed by the rest. |
| ProposalBody.SpliceIdempotent | internal/vm/opcodes/proposal_lineage_create_test.go:78-82 | Splicing the same content into the splicer's own output returns it unchanged, for any description and any content without an end marker. |
| ProposalBody.IdempotenceNeedsContentWithoutEndMarker | internal/vm/opcodes/proposal_lineage_create_test.go:78-82 | Content that begins with an end marker makes the second run differ from the first, so the condition of `SpliceIdempotent` is needed. |
| ProposalBody.EmptyBody | internal/vm/opcodes/proposal_lineage_create_test.go:17-22 | The case "empty body". |
| ProposalBody.BodyWithoutMarker | internal/vm/opcodes/proposal_lineage_create_test.go:23-28 | The case "body without marker". |
| ProposalBody.BodyWithBothMarkers | internal/vm/opcodes/proposal_lineage_create_test.go:29-34 | The case "body with existing marker and end marker". |
| ProposalBody.BodyWithMissingEndMarker | internal/vm/opcodes/proposal_lineage_create_test.go:35-40 | The case "body with marker but missing end marker". |
| ProposalBody.RepeatedRuns | internal/vm/opcodes/proposal_lineage_create_test.go:41-82 | The case "multiple runs produce same result", its second run included. |
| ProposalBody.MarkerAtEnd | internal/vm/opcodes/proposal_lineage_create_test.go:47-52 | The case "body with marker at the end". |
| ProposalBody.MultipleHtmlComments | internal/vm/opcodes/proposal_lineage_create_test.go:53-58 | The case "body with multiple HTML comments". |
| ProposalBody.SpecialCharacters | internal/vm/opcodes/proposal_lineage_create_test.go:59-64 | The case "lineage with special characters". |
| ProposalBody.PreserveWhitespace | internal/vm/opcodes/proposal_lineage_create_test.go:65-70 | The case "preserve whitespace and formatting". |
| ProposalLocations.NewProposalLocation | internal/git/gitdomain/proposal_location.go:10-18 | A valid pair is demanded, and the location holds the number and address unchanged. |
| ProposalLocations.NewProposalLocationOption | internal/git/gitdomain/proposal_location.go:20-29 | There is a location exactly when the number is positive and the address non-empty, and it then holds both unchanged. There is none exactly when the number is not positive or the address is empty. |

## Left out

- I/O is not modelled. The connector's network look-up is an oracle
  parameter (`Forge.FindProposalFn`) that returns an error, no proposal, or
  a proposal.
- The connector's proposal wrapper (`Data.Data()`) is replaced by a plain
  record of number, title, address and source branch.
- Colours are not modelled. The green styling of the terminal's current
  line is a function parameter `styled`.
- Go's `%q` quoting in the "no proposal found" message is written as plain
  double quotes, without escaping.
- `%s` of a branch and `BranchName().LocalName()` are the branch name
  itself.
- The option closures of `Build` become data (`BuildOption`), applied in
  call order by `Apply`.
- The Go `AddBranch` returns the builder itself and an error. The model
  returns only the error, since the builder is the object the method is
  called on.
- The unused counter `numberOfCapturedProposals` has no observable effect
  and is not modelled.
- `ProposalLineageIn` and the other small enumerations are plain
  datatypes.
- The Go lineage implementation is not part of this model.
  - `Lineages.Lineage` specifies `Parent`, `Children`, `Ancestors` and
    `Descendants` over an acyclic parent map and a parents-first order of
    the branches.
  - That order is taken to be the order in which the Go lineage reports
    children and descendants.
- Go ranges over the `visited` map in no fixed order. `VisitedBranches`
  therefore allows any order of the keys and promises only that each is
  named once.
- The heap nodes and child pointers of both trees are an arena keyed by
  branch name, so the sharing of one node between its parent's child list
  and the map is not modelled as aliasing.
- ProposalLineageTrees.NewLineageTree: the Go code panics when the current
  branch has no parent. The model demands a parent of the caller instead
  of modelling the panic.
- ProposalLineageTrees.AddDescendantNodes: the Go code panics when a new
  branch has no parent, or its parent has no node yet. The model demands
  that the branch is visited or its parent is, which every call inside
  the builder meets once `NewLineageTree` has its parent.
- ProposalLocations.NewProposalLocation: the Go code panics on an invalid
  pair. The model demands a valid pair of the caller instead.
- The loops of the tree builders and of `Build` are each in a method of
  their own, named after the loop:
  - `AddLine`, `AddDescendants` and `AddDescendant` in `LineageTrees`;
  - `AddAncestorLine`, `AppendFreeChildren`, `AddSeedSubtrees`,
    `AddSeedSubtree` and `VisitedBranches` in `ProposalLineageTrees`;
  - `Configure`, `WriteAll` and `WriteLines` in `ProposalLineageBuild`.
- The splicer's own source (`updateProposalBodyWithStackLineage`) is not
  part of this model.
  - `ProposalBody.UpdateProposalBodyWithStackLineage` is the function its
    table-driven test pins down.
  - "The line of the start marker" is read as ending right after the
    marker.
  - A missing end marker closes the old block at the first blank line
    after the start marker, or else at the end of the description.
- ProposalBody.SpliceIdempotent: it is proved only for content without an
  end marker. `IdempotenceNeedsContentWithoutEndMarker` shows that content
  beginning with an end marker breaks idempotence.
- The test lemmas write the marker strings through the constants
  `StartMarker` and `EndMarker`, and they split the test's long literals
  into joined pieces. The strings are the same.
- Both builders append to their list of entries on every successful
  `AddBranch`, and `Build` renders the list in the order it was recorded.
  This follows the code: a branch added twice is listed twice, and
  `GetProposal` answers from its last entry.
- `t.Parallel()` in the test only concerns the test runner and is not
  modelled.
