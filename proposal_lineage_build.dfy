/** What the two proposal lineage builders share: the recorded stack entries,
    the build options and the closures that set them, the line format of one
    entry, the text `Build` writes, and the decision `AddBranch` takes for
    one branch. */
module ProposalLineageBuild {
  import opened Prelude
  import opened Seqs
  import opened Lineages
  import opened Forge

  /** Where the lineage is shown. */
  datatype ProposalLineageIn =
    | ProposalLineageInNone
    | ProposalLineageInProposalBody
    | ProposalLineageInTerminal

  /** One recorded step of the stack: a branch and its proposal, if any. */
  datatype ProposalLineage = ProposalLineage(branch: Branch, proposal: Option<ProposalData>)

  // ---------------------------------------------------------------------
  // Build options

  datatype BuildOptions = BuildOptions(
    currentBranch: Option<Branch>,
    location: ProposalLineageIn,
    indentMarker: string,
    currentBranchIndicator: string,
    beforeStackDisplay: seq<string>,
    afterStackDisplay: seq<string>)

  const DefaultBuildOptions: BuildOptions :=
    BuildOptions(None, ProposalLineageInProposalBody, "-", "point_left", [], [])

  /** The option closures a caller passes to `Build`, as data. */
  datatype BuildOption =
    | WithStringBeforeStackDisplay(text: string)
    | WithStringAfterStackDisplay(text: string)
    | WithIndentMarker(marker: string)
    | WithCurrentBranchIndicator(indicator: string)
    | WithProposalLineageIn(location: ProposalLineageIn)
    | WithCurrentBranch(branch: Branch)

  /** Runs one option closure on the options. */
  function Apply(opts: BuildOptions, cfg: BuildOption): BuildOptions
  {
    match cfg
    case WithStringBeforeStackDisplay(text) =>
      opts.(beforeStackDisplay := opts.beforeStackDisplay + [text])
    case WithStringAfterStackDisplay(text) =>
      opts.(afterStackDisplay := opts.afterStackDisplay + [text])
    case WithIndentMarker(marker) => opts.(indentMarker := marker)
    case WithCurrentBranchIndicator(indicator) => opts.(currentBranchIndicator := indicator)
    case WithProposalLineageIn(location) => opts.(location := location)
    case WithCurrentBranch(branch) => opts.(currentBranch := Some(branch))
  }

  /** The options after running `cfgs`, in order, on the defaults. */
  function Configured(cfgs: seq<BuildOption>): BuildOptions
  {
    if cfgs == [] then DefaultBuildOptions
    else Apply(Configured(cfgs[..|cfgs| - 1]), cfgs[|cfgs| - 1])
  }

  /** Reference definition: the texts of the before-options, in call order. */
  function BeforeTexts(cfgs: seq<BuildOption>): seq<string>
  {
    if cfgs == [] then []
    else (if cfgs[0].WithStringBeforeStackDisplay? then [cfgs[0].text] else [])
         + BeforeTexts(cfgs[1..])
  }

  /** Reference definition: the texts of the after-options, in call order. */
  function AfterTexts(cfgs: seq<BuildOption>): seq<string>
  {
    if cfgs == [] then []
    else (if cfgs[0].WithStringAfterStackDisplay? then [cfgs[0].text] else [])
         + AfterTexts(cfgs[1..])
  }

  lemma {:induction false} TextsAppend(cfgs: seq<BuildOption>, c: BuildOption)
    ensures BeforeTexts(cfgs + [c])
         == BeforeTexts(cfgs) + (if c.WithStringBeforeStackDisplay? then [c.text] else [])
    ensures AfterTexts(cfgs + [c])
         == AfterTexts(cfgs) + (if c.WithStringAfterStackDisplay? then [c.text] else [])
    decreases |cfgs|
  {
    if cfgs == [] {
      assert [c][1..] == [];
    } else {
      assert (cfgs + [c])[1..] == cfgs[1..] + [c];
      TextsAppend(cfgs[1..], c);
      var x := cfgs[0];
      AppendAssociative(if x.WithStringBeforeStackDisplay? then [x.text] else [], BeforeTexts(cfgs[1..]),
                        if c.WithStringBeforeStackDisplay? then [c.text] else []);
      AppendAssociative(if x.WithStringAfterStackDisplay? then [x.text] else [], AfterTexts(cfgs[1..]),
                        if c.WithStringAfterStackDisplay? then [c.text] else []);
    }
  }

  /** Text options accumulate: every before- and after-text is written, in
      the order the options were given. */
  lemma {:induction false} ConfiguredTexts(cfgs: seq<BuildOption>)
    ensures Configured(cfgs).beforeStackDisplay == BeforeTexts(cfgs)
    ensures Configured(cfgs).afterStackDisplay == AfterTexts(cfgs)
    decreases |cfgs|
  {
    if cfgs != [] {
      var front := cfgs[..|cfgs| - 1];
      assert cfgs == front + [cfgs[|cfgs| - 1]];
      ConfiguredTexts(front);
      TextsAppend(front, cfgs[|cfgs| - 1]);
    }
  }

  /** Which option closure `c` is, so that "a later option of the same
      kind" can be said. */
  function Kind(c: BuildOption): nat
  {
    match c
    case WithStringBeforeStackDisplay(_) => 0
    case WithStringAfterStackDisplay(_) => 1
    case WithIndentMarker(_) => 2
    case WithCurrentBranchIndicator(_) => 3
    case WithProposalLineageIn(_) => 4
    case WithCurrentBranch(_) => 5
  }

  /** A scalar option is set by the last closure of its kind. */
  lemma {:induction false} LastOptionWins(cfgs: seq<BuildOption>, i: nat)
    requires i < |cfgs|
    requires forall j :: i < j < |cfgs| ==> Kind(cfgs[j]) != Kind(cfgs[i])
    ensures cfgs[i].WithIndentMarker? ==> Configured(cfgs).indentMarker == cfgs[i].marker
    ensures cfgs[i].WithCurrentBranchIndicator? ==>
              Configured(cfgs).currentBranchIndicator == cfgs[i].indicator
    ensures cfgs[i].WithProposalLineageIn? ==> Configured(cfgs).location == cfgs[i].location
    ensures cfgs[i].WithCurrentBranch? ==> Configured(cfgs).currentBranch == Some(cfgs[i].branch)
    decreases |cfgs|
  {
    if i < |cfgs| - 1 {
      var front := cfgs[..|cfgs| - 1];
      assert front[i] == cfgs[i];
      assert forall j :: i < j < |front| ==> front[j] == cfgs[j];
      LastOptionWins(front, i);
    }
  }

  /** A scalar option that no closure sets keeps its default. */
  lemma {:induction false} UnsetOptionsDefault(cfgs: seq<BuildOption>)
    ensures (forall j :: 0 <= j < |cfgs| ==> !cfgs[j].WithIndentMarker?) ==>
              Configured(cfgs).indentMarker == "-"
    ensures (forall j :: 0 <= j < |cfgs| ==> !cfgs[j].WithCurrentBranchIndicator?) ==>
              Configured(cfgs).currentBranchIndicator == "point_left"
    ensures (forall j :: 0 <= j < |cfgs| ==> !cfgs[j].WithProposalLineageIn?) ==>
              Configured(cfgs).location == ProposalLineageInProposalBody
    ensures (forall j :: 0 <= j < |cfgs| ==> !cfgs[j].WithCurrentBranch?) ==>
              Configured(cfgs).currentBranch == None
    decreases |cfgs|
  {
    if cfgs != [] {
      var front := cfgs[..|cfgs| - 1];
      assert forall j :: 0 <= j < |front| ==> front[j] == cfgs[j];
      UnsetOptionsDefault(front);
    }
  }

  // ---------------------------------------------------------------------
  // Decimal numerals, as Go's `%d` writes an int

  function DigitChar(d: nat): char
    requires d < 10
  {
    (('0' as int) + d) as char
  }

  predicate IsDigit(c: char)
  {
    '0' as int <= c as int <= '9' as int
  }

  function NatDecimal(n: nat): (r: string)
    ensures |r| > 0 && forall k :: 0 <= k < |r| ==> IsDigit(r[k])
    ensures n > 0 ==> r[0] != '0'
    decreases n
  {
    if n < 10 then [DigitChar(n)] else NatDecimal(n / 10) + [DigitChar(n % 10)]
  }

  /** The numeral of `n`: a minus sign for negative numbers, no leading zeros. */
  function Decimal(n: int): string
  {
    if n < 0 then "-" + NatDecimal(-n) else NatDecimal(n)
  }

  /** Reads a string of digits back as a number. */
  function ParseNat(s: string): nat
    requires forall k :: 0 <= k < |s| ==> IsDigit(s[k])
  {
    if s == [] then 0
    else ParseNat(s[..|s| - 1]) * 10 + DigitValue(s[|s| - 1])
  }

  function DigitValue(c: char): (v: nat)
    requires IsDigit(c)
    ensures v < 10
  {
    (c as int) - ('0' as int)
  }

  /** A numeral as `Decimal` writes it: an optional minus sign, then digits. */
  predicate IsNumeral(s: string)
  {
    |s| > 0 && (s[0] == '-' || IsDigit(s[0])) && forall k :: 0 < k < |s| ==> IsDigit(s[k])
  }

  function ParseDecimal(s: string): int
    requires IsNumeral(s)
  {
    if s[0] == '-' then 0 - ParseNat(s[1..]) else ParseNat(s)
  }

  lemma {:induction false} NatDecimalRoundTrip(n: nat)
    ensures ParseNat(NatDecimal(n)) == n
    decreases n
  {
    if n >= 10 {
      var s := NatDecimal(n);
      assert s[..|s| - 1] == NatDecimal(n / 10);
      NatDecimalRoundTrip(n / 10);
    }
  }

  /** The proposal number is written so that it reads back unchanged, and
      without leading zeros. */
  lemma DecimalRoundTrip(n: int)
    ensures IsNumeral(Decimal(n)) && ParseDecimal(Decimal(n)) == n
    ensures n > 0 ==> Decimal(n)[0] != '0'
    ensures n < 0 ==> |Decimal(n)| > 1 && Decimal(n)[1] != '0'
  {
    if n < 0 {
      var t := NatDecimal(-n);
      var s := "-" + t;
      assert s[1..] == t;
      assert forall k :: 0 < k < |s| ==> s[k] == t[k - 1];
      assert IsNumeral(s);
      NatDecimalRoundTrip(-n);
    } else {
      NatDecimalRoundTrip(n);
    }
  }

  // ---------------------------------------------------------------------
  // One line of the lineage

  /** Whether `d` is the proposal of the current branch. With no current
      branch the empty name is compared, as Go's `GetOrDefault` does. */
  predicate IsCurrent(opts: BuildOptions, d: ProposalData)
  {
    opts.currentBranch.GetOr("") == d.source
  }

  /** The line of one proposal, at the given indentation. */
  function FormattedDisplay(opts: BuildOptions, indent: string, d: ProposalData,
                            styled: string -> string): string
  {
    if opts.location == ProposalLineageInTerminal then
      var line := indent + " " + opts.indentMarker + " PR #" + Decimal(d.number) + " " + d.title
                  + " (" + d.url + ")\n";
      if IsCurrent(opts, d) then styled(opts.currentBranchIndicator + line) else line
    else
      var line := indent + " " + opts.indentMarker + " PR " + d.url;
      if IsCurrent(opts, d) then line + " " + opts.currentBranchIndicator + "\n" else line + "\n"
  }

  /** A line that is not the current branch's: the indent and marker, then
      the proposal, one line. In the terminal the number, title and link;
      in a proposal body the link alone. */
  lemma PlainLineShape(opts: BuildOptions, indent: string, d: ProposalData,
                       styled: string -> string)
    requires !IsCurrent(opts, d)
    ensures var r := FormattedDisplay(opts, indent, d, styled);
      var head := indent + " " + opts.indentMarker + " PR ";
      && IsPrefix(head, r)
      && (opts.location == ProposalLineageInTerminal ==>
            r[|head|..] == "#" + Decimal(d.number) + " " + d.title + " (" + d.url + ")\n")
      && (opts.location != ProposalLineageInTerminal ==> r[|head|..] == d.url + "\n")
  {
  }

  /** The current branch's line is the plain line marked: in the terminal the
      indicator is put in front and the whole line styled; in a proposal body
      the indicator is put at the end of the line. */
  lemma HighlightedLine(opts: BuildOptions, indent: string, d: ProposalData,
                        styled: string -> string, other: Branch)
    requires other != d.source
    ensures var plain := FormattedDisplay(opts.(currentBranch := Some(other)), indent, d, styled);
      var marked := FormattedDisplay(opts.(currentBranch := Some(d.source)), indent, d, styled);
      && |plain| > 0
      && (opts.location == ProposalLineageInTerminal ==>
            marked == styled(opts.currentBranchIndicator + plain))
      && (opts.location != ProposalLineageInTerminal ==>
            marked == plain[..|plain| - 1] + " " + opts.currentBranchIndicator + "\n")
  {
    var plain := FormattedDisplay(opts.(currentBranch := Some(other)), indent, d, styled);
    if opts.location != ProposalLineageInTerminal {
      var line := indent + " " + opts.indentMarker + " PR " + d.url;
      assert plain == line + "\n";
      assert plain[..|plain| - 1] == line;
    }
  }

  // ---------------------------------------------------------------------
  // The whole text

  /** The entry at which `Build` stops: a non-exempt branch without a proposal. */
  predicate IsStop(e: ProposalLineage, exempt: seq<Branch>)
  {
    e.branch !in exempt && e.proposal.None?
  }

  /** The indentation of the entry at `level`: two blanks per level. */
  function Indent(level: nat): string
  {
    Spaces(2 * level)
  }

  /** The line of one rendered entry: an exempt branch by name, any other
      by its proposal. */
  function EntryLine(opts: BuildOptions, exempt: seq<Branch>, level: nat, e: ProposalLineage,
                     styled: string -> string): string
    requires !IsStop(e, exempt)
  {
    if e.branch in exempt then Indent(level) + " " + opts.indentMarker + " " + e.branch + "\n"
    else FormattedDisplay(opts, Indent(level), e.proposal.value, styled)
  }

  /** The number of entries shown: those before the first stop. */
  function StopIndex(entries: seq<ProposalLineage>, exempt: seq<Branch>): (n: nat)
    ensures n <= |entries|
    ensures forall i :: 0 <= i < n ==> !IsStop(entries[i], exempt)
    ensures n < |entries| ==> IsStop(entries[n], exempt)
    decreases |entries|
  {
    if entries == [] || IsStop(entries[0], exempt) then 0
    else
      var n := StopIndex(entries[1..], exempt);
      assert forall i :: 1 <= i < n + 1 ==> entries[i] == entries[1..][i - 1];
      n + 1
  }

  /** The lines shown: one per entry before the first stop, each indented by
      its position in the stack. */
  function RenderedLines(opts: BuildOptions, entries: seq<ProposalLineage>, exempt: seq<Branch>,
                         styled: string -> string): (r: seq<string>)
  {
    var n := StopIndex(entries, exempt);
    seq(n, i requires 0 <= i < n => EntryLine(opts, exempt, i, entries[i], styled))
  }

  /** Everything `Build` writes: the before-texts, the lines, the after-texts. */
  function BuildText(opts: BuildOptions, entries: seq<ProposalLineage>, exempt: seq<Branch>,
                     styled: string -> string): string
  {
    Concat(opts.beforeStackDisplay) + Concat(RenderedLines(opts, entries, exempt, styled))
    + Concat(opts.afterStackDisplay)
  }

  /** Entries recorded after a stop are never shown. */
  lemma RenderedLinesAfterStop(opts: BuildOptions, entries: seq<ProposalLineage>,
                               more: seq<ProposalLineage>, exempt: seq<Branch>,
                               styled: string -> string)
    requires StopIndex(entries, exempt) < |entries|
    ensures RenderedLines(opts, entries + more, exempt, styled)
         == RenderedLines(opts, entries, exempt, styled)
  {
    var n := StopIndex(entries, exempt);
    StopIndexPrefix(entries, more, exempt, n);
    var a := RenderedLines(opts, entries + more, exempt, styled);
    var b := RenderedLines(opts, entries, exempt, styled);
    RenderedLinesIndex(opts, entries + more, exempt, styled);
    RenderedLinesIndex(opts, entries, exempt, styled);
    forall i | 0 <= i < n
      ensures a[i] == b[i]
    {
      assert (entries + more)[i] == entries[i];
    }
  }

  /** With no stop so far, a further entry adds its own line at the next
      level, or nothing when it is a stop. */
  lemma RenderedLinesAppend(opts: BuildOptions, entries: seq<ProposalLineage>, e: ProposalLineage,
                            exempt: seq<Branch>, styled: string -> string)
    requires StopIndex(entries, exempt) == |entries|
    ensures RenderedLines(opts, entries + [e], exempt, styled)
         == RenderedLines(opts, entries, exempt, styled)
            + (if IsStop(e, exempt) then [] else [EntryLine(opts, exempt, |entries|, e, styled)])
  {
    var n := |entries|;
    StopIndexAppend(entries, e, exempt);
    var a := RenderedLines(opts, entries + [e], exempt, styled);
    var b := RenderedLines(opts, entries, exempt, styled);
    RenderedLinesIndex(opts, entries + [e], exempt, styled);
    RenderedLinesIndex(opts, entries, exempt, styled);
    forall i | 0 <= i < n
      ensures a[i] == b[i]
    {
      assert (entries + [e])[i] == entries[i];
    }
    if !IsStop(e, exempt) {
      var x := EntryLine(opts, exempt, n, e, styled);
      assert (entries + [e])[n] == e;
      assert a[n] == x;
      forall i | 0 <= i < n + 1
        ensures a[i] == (b + [x])[i]
      {
        if i < n {
          assert (b + [x])[i] == b[i];
        }
      }
      assert a == b + [x];
    } else {
      assert a == b;
    }
  }

  /** The shown lines, one by one. */
  lemma RenderedLinesIndex(opts: BuildOptions, entries: seq<ProposalLineage>, exempt: seq<Branch>,
                           styled: string -> string)
    ensures |RenderedLines(opts, entries, exempt, styled)| == StopIndex(entries, exempt)
    ensures forall i :: 0 <= i < StopIndex(entries, exempt) ==>
              RenderedLines(opts, entries, exempt, styled)[i] == EntryLine(opts, exempt, i, entries[i], styled)
  {
  }

  /** With no stop so far, appending an entry moves the stop past it
      unless it is a stop itself. */
  lemma StopIndexAppend(entries: seq<ProposalLineage>, e: ProposalLineage, exempt: seq<Branch>)
    requires StopIndex(entries, exempt) == |entries|
    ensures StopIndex(entries + [e], exempt) == if IsStop(e, exempt) then |entries| else |entries| + 1
  {
    var n := |entries|;
    assert forall i :: 0 <= i < n ==> (entries + [e])[i] == entries[i];
    assert (entries + [e])[n] == e;
  }

  /** The number of shown entries depends only on the entries up to the
      first stop. */
  lemma StopIndexPrefix(entries: seq<ProposalLineage>, more: seq<ProposalLineage>,
                        exempt: seq<Branch>, n: nat)
    requires n == StopIndex(entries, exempt) && n < |entries|
    ensures StopIndex(entries + more, exempt) == n
  {
    assert forall i :: 0 <= i <= n ==> (entries + more)[i] == entries[i];
  }

  /** Every line that is not a styled terminal line begins with the
      indentation of its level and the marker. */
  lemma EntryLineIndent(opts: BuildOptions, exempt: seq<Branch>, level: nat, e: ProposalLineage,
                        styled: string -> string)
    requires !IsStop(e, exempt)
    requires e.branch !in exempt && opts.location == ProposalLineageInTerminal ==>
               !IsCurrent(opts, e.proposal.value)
    ensures IsPrefix(Indent(level) + " " + opts.indentMarker + " ",
                     EntryLine(opts, exempt, level, e, styled))
  {
  }

  lemma ConcatStep(ss: seq<string>, k: nat)
    requires k < |ss|
    ensures Concat(ss[..k + 1]) == Concat(ss[..k]) + ss[k]
  {
    assert ss[..k + 1][..k] == ss[..k];
  }

  /** The text of `Build`: run the option closures on the defaults, write the
      before-texts, then one line per entry (an exempt branch by name, and
      stopping at the first other branch without a proposal), then the
      after-texts. */
  method BuildLineage(orderedLineage: seq<ProposalLineage>, exempt: seq<Branch>,
                      cfgs: seq<BuildOption>, styled: string -> string)
    returns (r: Option<string>)
    ensures r == Some(BuildText(Configured(cfgs), orderedLineage, exempt, styled))
  {
    var opts := Configure(cfgs);
    var before := WriteAll(opts.beforeStackDisplay);
    var lines := WriteLines(opts, orderedLineage, exempt, styled);
    var after := WriteAll(opts.afterStackDisplay);
    r := Some(before + lines + after);
  }

  /** Runs the option closures, in order, on the defaults. */
  method Configure(cfgs: seq<BuildOption>) returns (opts: BuildOptions)
    ensures opts == Configured(cfgs)
  {
    opts := DefaultBuildOptions;
    var c := 0;
    while c < |cfgs|
      invariant 0 <= c <= |cfgs| && opts == Configured(cfgs[..c])
    {
      assert cfgs[..c + 1][..c] == cfgs[..c];
      opts := Apply(opts, cfgs[c]);
      c := c + 1;
    }
    assert cfgs[..c] == cfgs;
  }

  /** The lines of the entries, counting down from the length as the
      source does: an exempt branch by name, and stopping at the first other
      branch without a proposal. */
  method WriteLines(opts: BuildOptions, orderedLineage: seq<ProposalLineage>,
                    exempt: seq<Branch>, styled: string -> string)
    returns (r: string)
    ensures r == Concat(RenderedLines(opts, orderedLineage, exempt, styled))
  {
    r := "";
    ghost var lines := RenderedLines(opts, orderedLineage, exempt, styled);
    ghost var n := StopIndex(orderedLineage, exempt);
    var length := |orderedLineage|;
    var i := length;
    while i > 0
      invariant 0 <= i <= length && length - i <= n
      invariant r == Concat(lines[..length - i])
    {
      var node := orderedLineage[length - i];
      var indent := Spaces((length - i) * 2);
      assert indent == Indent(length - i);
      if node.branch in exempt {
        assert lines[length - i] == indent + " " + opts.indentMarker + " " + node.branch + "\n";
        ConcatStep(lines, length - i);
        r := r + (indent + " " + opts.indentMarker + " " + node.branch + "\n");
        i := i - 1;
        continue;
      }
      if node.proposal.None? {
        assert n == length - i;
        assert lines[..length - i] == lines;
        break;
      }
      assert lines[length - i] == FormattedDisplay(opts, indent, node.proposal.value, styled);
      ConcatStep(lines, length - i);
      r := r + FormattedDisplay(opts, indent, node.proposal.value, styled);
      i := i - 1;
    }
    assert lines[..n] == lines;
  }

  /** The before- or after-texts, written one after the other. */
  method WriteAll(texts: seq<string>) returns (r: string)
    ensures r == Concat(texts)
  {
    r := "";
    var t := 0;
    while t < |texts|
      invariant 0 <= t <= |texts| && r == Concat(texts[..t])
    {
      ConcatStep(texts, t);
      r := r + texts[t];
      t := t + 1;
    }
    assert texts[..t] == texts;
  }

  // ---------------------------------------------------------------------
  // What `AddBranch` decides for one branch

  datatype AddBranchOutcome = Appended(entry: ProposalLineage) | Failed(message: string)

  /** The entry `AddBranch` records for `child`, or the error it reports.
      An exempt branch or one without a parent is recorded without a
      proposal and the connector is not asked; otherwise the connector's
      proposal is recorded, and a failed look-up or a missing proposal is
      an error. */
  function NextEntry(find: FindProposalFn, exempt: seq<Branch>, child: Branch,
                     parent: Option<Branch>): (r: AddBranchOutcome)
    ensures r.Appended? ==> r.entry.branch == child
    ensures (r.Appended? && r.entry.proposal.None?) <==> (child in exempt || parent.None?)
    ensures r.Appended? && r.entry.proposal.Some? ==>
              parent.Some? && find(child, parent.value) == FindSucceeded(r.entry.proposal)
    ensures child !in exempt && parent.Some? && find(child, parent.value).FindSucceeded?
              && find(child, parent.value).proposal.Some? ==>
              r == Appended(ProposalLineage(child, find(child, parent.value).proposal))
    ensures r.Failed? <==>
              (child !in exempt && parent.Some?
               && (find(child, parent.value).FindFailed? || find(child, parent.value).proposal.None?))
    ensures r.Failed? && parent.Some? && find(child, parent.value).FindFailed? ==>
              r.message == "failed to find proposal for branch " + child + ": "
                           + find(child, parent.value).err
    ensures r.Failed? && parent.Some? && find(child, parent.value).FindSucceeded? ==>
              r.message == "no proposal found branch \"" + child + "\""
  {
    if child in exempt || parent.None? then Appended(ProposalLineage(child, None))
    else
      match find(child, parent.value)
      case FindFailed(err) => Failed("failed to find proposal for branch " + child + ": " + err)
      case FindSucceeded(None) => Failed("no proposal found branch \"" + child + "\"")
      case FindSucceeded(Some(data)) => Appended(ProposalLineage(child, Some(data)))
  }
}
