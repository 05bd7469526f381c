/** The body splicer: it puts the rendered stack lineage into a proposal's
    description, between a start and an end marker, replacing the block it
    wrote before and leaving the rest of the description as it was. */
module ProposalBody {
  import opened Prelude
  import opened Seqs

  const StartMarker: string := "<!-- branch-stack -->"
  const EndMarker: string := "<!-- branch-stack-end -->"
  /** The boundary that ends an old block whose end marker is missing. */
  const BlankLine: string := "\n\n"

  /** `pat` occurs in `s` at index `i`. */
  predicate OccursAt(s: string, pat: string, i: int)
  {
    0 <= i && i + |pat| <= |s| && s[i..i + |pat|] == pat
  }

  /** The first index at or after `from` where `pat` occurs in `s`. */
  function Find(s: string, pat: string, from: nat): (r: Option<nat>)
    ensures r.Some? ==> from <= r.value && OccursAt(s, pat, r.value)
    ensures r.Some? ==> forall j :: from <= j < r.value ==> !OccursAt(s, pat, j)
    ensures r.None? ==> forall j :: from <= j ==> !OccursAt(s, pat, j)
    decreases |s| - from
  {
    if from + |pat| > |s| then None
    else if s[from..from + |pat|] == pat then Some(from)
    else Find(s, pat, from + 1)
  }

  /** The first occurrence is the one `Find` reports. */
  lemma FindFirst(s: string, pat: string, from: nat, i: nat)
    requires from <= i && OccursAt(s, pat, i)
    requires forall j :: from <= j < i ==> !OccursAt(s, pat, j)
    ensures Find(s, pat, from) == Some(i)
  {
  }

  /** The new description: the content in a marked block. A description
      without the start marker gets the block appended after a blank line
      (or is the block, when it is empty). Otherwise the old block is
      replaced: up to its end marker, or, when that is missing, up to the
      first blank line after the start marker, or to the end of the text;
      the end marker is written in the last two cases. */
  function UpdateProposalBodyWithStackLineage(body: string, content: string): string
  {
    match Find(body, StartMarker, 0)
    case None =>
      if body == "" then StartMarker + "\n" + content + "\n" + EndMarker
      else body + "\n\n" + StartMarker + "\n" + content + "\n" + EndMarker
    case Some(s) =>
      var head := body[..s + |StartMarker|];
      match Find(body, EndMarker, s + |StartMarker|)
      case Some(e) => head + "\n" + content + "\n" + body[e..]
      case None =>
        match Find(body, BlankLine, s + |StartMarker|)
        case Some(b) => head + "\n" + content + "\n" + EndMarker + body[b..]
        case None => head + "\n" + content + "\n" + EndMarker
  }

  // ---------------------------------------------------------------------
  // Facts about occurrences

  /** No occurrence of `pat` starts before index `to` of `t`. */
  predicate NoneBefore(t: string, pat: string, to: int)
  {
    forall j :: 0 <= j < to ==> !OccursAt(t, pat, j)
  }

  /** Both markers are single lines that open an HTML comment. */
  lemma MarkersAreOneLine()
    ensures '\n' !in StartMarker && '\n' !in EndMarker
    ensures |StartMarker| == 21 && |EndMarker| == 25
    ensures StartMarker[0] == '<' && EndMarker[0] == '<'
  {
  }

  /** A pattern without a line break never spans one. */
  lemma NewlineBlocks(t: string, pat: string, j: int, k: int)
    requires '\n' !in pat && 0 <= j <= k < j + |pat| && k < |t| && t[k] == '\n'
    ensures !OccursAt(t, pat, j)
  {
  }

  /** A pattern cannot occur where its first character does not. */
  lemma NoOccurrence(s: string, pat: string)
    requires |pat| > 0 && pat[0] !in s
    ensures forall j :: !OccursAt(s, pat, j)
  {
  }

  /** The text from an occurrence on is the pattern and what follows it. */
  lemma OccurrenceOpensSuffix(t: string, pat: string, i: int)
    requires OccursAt(t, pat, i)
    ensures t[i..] == pat + t[i + |pat|..]
  {
    SuffixSplit(t, i, i + |pat|);
  }

  /** An occurrence in the middle part of a concatenation is one in the
      whole, shifted by the length of the first part. */
  lemma OccursWithin(t: string, x: string, m: string, y: string, pat: string, i: int)
    requires OccursAt(m, pat, i) && t == x + m + y
    ensures OccursAt(t, pat, |x| + i)
  {
    assert t[|x| + i..|x| + i + |pat|] == m[i..i + |pat|];
  }

  /** An occurrence that lies within the first `n` characters is seen alike
      by two strings that agree on those characters. */
  lemma WindowsAgree(t: string, u: string, pat: string, n: int, j: int)
    requires 0 <= n <= |t| && n <= |u| && t[..n] == u[..n] && 0 <= j && j + |pat| <= n
    ensures OccursAt(t, pat, j) == OccursAt(u, pat, j)
  {
    assert t[j..j + |pat|] == t[..n][j..j + |pat|];
    assert u[j..j + |pat|] == u[..n][j..j + |pat|];
  }

  // ---------------------------------------------------------------------
  // What the splicer does

  /** A description without the start marker keeps all its text and gets
      the block after it. */
  lemma SpliceAppendsBlock(body: string, content: string)
    requires forall j :: !OccursAt(body, StartMarker, j)
    ensures UpdateProposalBodyWithStackLineage(body, content)
         == if body == "" then StartMarker + "\n" + content + "\n" + EndMarker
            else body + "\n\n" + StartMarker + "\n" + content + "\n" + EndMarker
  {
  }

  /** A description with a complete block: only the text between the start
      marker's line and the end marker's line changes; everything before the
      start marker and from the end marker on is kept. */
  lemma SpliceReplacesBlock(before: string, previous: string, after: string, content: string)
    requires NoneBefore(before + StartMarker, StartMarker, |before|)
    requires forall j :: !OccursAt(previous, EndMarker, j)
    ensures UpdateProposalBodyWithStackLineage(
              before + StartMarker + "\n" + previous + "\n" + EndMarker + after, content)
         == before + StartMarker + "\n" + content + "\n" + EndMarker + after
  {
    var head := before + StartMarker;
    var body := head + "\n" + previous + "\n" + EndMarker + after;
    StartMarkerFound(before, "\n" + previous + "\n" + EndMarker + after, body);
    EndMarkerFirst(head, previous, after, body);
  }

  /** The end marker on the line after the old content is the first one
      after the start marker. */
  lemma EndMarkerFirst(head: string, previous: string, after: string, body: string)
    requires forall j :: !OccursAt(previous, EndMarker, j)
    requires body == head + "\n" + previous + "\n" + EndMarker + after
    ensures Find(body, EndMarker, |head|) == Some(|head| + 1 + |previous| + 1)
    ensures body[|head| + 1 + |previous| + 1..] == EndMarker + after
  {
    MarkersAreOneLine();
    var p := |head|;
    var e := p + 1 + |previous| + 1;
    assert body[e..] == EndMarker + after;
    assert body[e..e + |EndMarker|] == EndMarker;
    forall j | p <= j < e
      ensures !OccursAt(body, EndMarker, j)
    {
      if j == p {
        NewlineBlocks(body, EndMarker, j, p);
      } else if j + |EndMarker| <= e - 1 {
        var i := j - p - 1;
        assert body[j..j + |EndMarker|] == previous[i..i + |EndMarker|];
        assert !OccursAt(previous, EndMarker, i);
      } else {
        assert body[e - 1] == '\n';
        NewlineBlocks(body, EndMarker, j, e - 1);
      }
    }
    FindFirst(body, EndMarker, p, e);
  }

  /** A description whose block lost its end marker, with a blank line
      after the old content: the content up to the blank line is replaced,
      the end marker is written, and the blank line and all after it are
      kept. The old content may span several lines; it holds no blank line,
      neither inside nor where it meets the marker line or the blank line. */
  lemma SpliceClosesBlockAtBlankLine(before: string, previous: string, after: string,
                                     content: string)
    requires NoneBefore(before + StartMarker, StartMarker, |before|)
    requires forall j :: !OccursAt("\n" + previous + "\n", BlankLine, j)
    requires forall j :: !OccursAt(previous + after, EndMarker, j)
    requires |after| >= 2 && after[..2] == BlankLine
    ensures UpdateProposalBodyWithStackLineage(before + StartMarker + "\n" + previous + after, content)
         == before + StartMarker + "\n" + content + "\n" + EndMarker + after
  {
    var head := before + StartMarker;
    var body := head + "\n" + previous + after;
    var p := |head|;
    StartMarkerFound(before, "\n" + previous + after, body);
    assert Find(body, EndMarker, p).None? by {
      NoEndMarkerAfter(head, previous + after, body);
    }
    FirstBlankLine(head, previous, after, body);
    assert UpdateProposalBodyWithStackLineage(body, content)
        == body[..p] + "\n" + content + "\n" + EndMarker + body[p + 1 + |previous|..];
  }

  /** No end marker follows the start marker when none is in the rest. */
  lemma NoEndMarkerAfter(head: string, tail: string, body: string)
    requires forall j :: !OccursAt(tail, EndMarker, j)
    requires body == head + "\n" + tail
    ensures forall j :: |head| <= j ==> !OccursAt(body, EndMarker, j)
  {
    MarkersAreOneLine();
    var p := |head|;
    forall j | p <= j
      ensures !OccursAt(body, EndMarker, j)
    {
      if j == p {
        NewlineBlocks(body, EndMarker, j, p);
      } else if j + |EndMarker| <= |body| {
        var i := j - p - 1;
        assert body[j..j + |EndMarker|] == tail[i..i + |EndMarker|];
        assert !OccursAt(tail, EndMarker, i);
      }
    }
  }

  /** The first blank line after the start marker is the one that begins
      `after`, when the old content, framed by line breaks, holds none. */
  lemma FirstBlankLine(head: string, previous: string, after: string, body: string)
    requires forall j :: !OccursAt("\n" + previous + "\n", BlankLine, j)
    requires |after| >= 2 && after[..2] == BlankLine
    requires body == head + "\n" + previous + after
    ensures Find(body, BlankLine, |head|) == Some(|head| + 1 + |previous|)
    ensures body[|head| + 1 + |previous|..] == after
  {
    var p := |head|;
    var b := p + 1 + |previous|;
    var w := "\n" + previous + "\n";
    assert body[b..] == after;
    assert body[b..b + 2] == BlankLine;
    assert body[p..b + 1] == w;
    forall j | p <= j < b
      ensures !OccursAt(body, BlankLine, j)
    {
      assert body[j..j + 2] == w[j - p..j - p + 2];
      assert !OccursAt(w, BlankLine, j - p);
    }
    FindFirst(body, BlankLine, p, b);
  }

  /** Old content on one line holds no blank line, framed or not. */
  lemma OneLineHasNoBlankLine(previous: string)
    requires '\n' !in previous
    ensures |previous| > 0 ==> forall j :: !OccursAt("\n" + previous + "\n", BlankLine, j)
    ensures forall j :: !OccursAt("\n" + previous, BlankLine, j)
  {
    var w := "\n" + previous;
    forall j | 0 <= j && j + 2 <= |w|
      ensures !OccursAt(w, BlankLine, j)
    {
      assert w[j + 1] == previous[j];
    }
    if |previous| > 0 {
      var v := w + "\n";
      forall j | 0 <= j && j + 2 <= |v|
        ensures !OccursAt(v, BlankLine, j)
      {
        if j == 0 {
          assert v[1] == previous[0];
        } else {
          assert v[j] == previous[j - 1];
        }
      }
    }
  }

  /** A description whose block lost its end marker and runs to the end:
      the content to the end is replaced and the end marker appended. The
      old content may span several lines, as long as no blank line follows
      the marker line. */
  lemma SpliceClosesBlockAtEnd(before: string, previous: string, content: string)
    requires NoneBefore(before + StartMarker, StartMarker, |before|)
    requires forall j :: !OccursAt("\n" + previous, BlankLine, j)
    requires forall j :: !OccursAt(previous, EndMarker, j)
    ensures UpdateProposalBodyWithStackLineage(before + StartMarker + "\n" + previous, content)
         == before + StartMarker + "\n" + content + "\n" + EndMarker
  {
    var head := before + StartMarker;
    var body := head + "\n" + previous;
    var p := |head|;
    StartMarkerFound(before, "\n" + previous, body);
    assert Find(body, EndMarker, p).None? by {
      NoEndMarkerAfter(head, previous, body);
    }
    assert Find(body, BlankLine, p).None? by {
      NoBlankLineAfter(head, previous, body);
    }
  }

  /** No blank line follows the start marker when the rest, after the
      marker's line break, holds none. */
  lemma NoBlankLineAfter(head: string, previous: string, body: string)
    requires forall j :: !OccursAt("\n" + previous, BlankLine, j)
    requires body == head + "\n" + previous
    ensures forall j :: |head| <= j ==> !OccursAt(body, BlankLine, j)
  {
    var p := |head|;
    var w := "\n" + previous;
    assert body[p..] == w;
    forall j | p <= j && j + 2 <= |body|
      ensures !OccursAt(body, BlankLine, j)
    {
      assert body[j..j + 2] == w[j - p..j - p + 2];
      assert !OccursAt(w, BlankLine, j - p);
    }
  }

  /** The start marker right after `before` is the first one. */
  lemma StartMarkerFound(before: string, rest: string, body: string)
    requires NoneBefore(before + StartMarker, StartMarker, |before|)
    requires body == before + StartMarker + rest
    ensures Find(body, StartMarker, 0) == Some(|before|)
    ensures body[..|before| + |StartMarker|] == before + StartMarker
  {
    var head := before + StartMarker;
    var p := |head|;
    assert body[..p] == head;
    assert body[|before|..p] == StartMarker;
    forall j | 0 <= j < |before|
      ensures !OccursAt(body, StartMarker, j)
    {
      WindowsAgree(body, head, StartMarker, p, j);
    }
    FindFirst(body, StartMarker, 0, |before|);
  }

  // ---------------------------------------------------------------------
  // Idempotence

  /** `r` is `before`, free of start markers, followed by the block holding
      `content`, followed by `after`. */
  predicate IsMarkedBlock(r: string, content: string, before: string, after: string)
  {
    && NoneBefore(before + StartMarker, StartMarker, |before|)
    && r == before + StartMarker + "\n" + content + "\n" + EndMarker + after
  }

  /** Text without a start marker, followed by a blank line when it is not
      empty, holds none before the start marker written after it. */
  lemma AppendedAfterUnmarkedText(body: string, before: string)
    requires forall j :: !OccursAt(body, StartMarker, j)
    requires before == if body == "" then "" else body + "\n\n"
    ensures NoneBefore(before + StartMarker, StartMarker, |before|)
  {
    MarkersAreOneLine();
    var t := before + StartMarker;
    forall j | 0 <= j < |before|
      ensures !OccursAt(t, StartMarker, j)
    {
      if j + |StartMarker| <= |body| {
        WindowsAgree(t, body, StartMarker, |body|, j);
      } else if j < |body| {
        NewlineBlocks(t, StartMarker, j, |body|);
      } else {
        NewlineBlocks(t, StartMarker, j, j);
      }
    }
  }

  /** The text before the first start marker holds none. */
  lemma TextBeforeFirstStartMarker(body: string, s: nat)
    requires OccursAt(body, StartMarker, s)
    requires forall j :: 0 <= j < s ==> !OccursAt(body, StartMarker, j)
    ensures body[..s + |StartMarker|] == body[..s] + StartMarker
    ensures NoneBefore(body[..s] + StartMarker, StartMarker, s)
  {
    var before := body[..s];
    assert body[..s + |StartMarker|] == before + StartMarker;
    forall j | 0 <= j < s
      ensures !OccursAt(before + StartMarker, StartMarker, j)
    {
      WindowsAgree(before + StartMarker, body, StartMarker, s + |StartMarker|, j);
    }
  }

  /** The splicer's output is a complete block after text without a start
      marker. */
  lemma SplicedShape(body: string, content: string)
    ensures exists before: string, after: string ::
      IsMarkedBlock(UpdateProposalBodyWithStackLineage(body, content), content, before, after)
  {
    var r := UpdateProposalBodyWithStackLineage(body, content);
    match Find(body, StartMarker, 0)
    case None =>
      var before := if body == "" then "" else body + "\n\n";
      AppendedAfterUnmarkedText(body, before);
      assert IsMarkedBlock(r, content, before, "");
    case Some(s) =>
      match Find(body, EndMarker, s + |StartMarker|)
      case Some(e) =>
        ShapeAtEndMarker(body, content, s, e);
      case None =>
        match Find(body, BlankLine, s + |StartMarker|)
        case Some(b) =>
          ShapeAtBlankLine(body, content, s, b);
        case None =>
          ShapeToEnd(body, content, s);
  }

  /** The shape of the output once the end marker is found. */
  lemma ShapeAtEndMarker(body: string, content: string, s: nat, e: nat)
    requires Find(body, StartMarker, 0) == Some(s)
    requires Find(body, EndMarker, s + |StartMarker|) == Some(e)
    ensures IsMarkedBlock(UpdateProposalBodyWithStackLineage(body, content), content,
                          body[..s], body[e + |EndMarker|..])
  {
    TextBeforeFirstStartMarker(body, s);
    SplicedAtEndMarker(body, content, s, e);
  }

  /** The output once the end marker is found: the text up to the start
      marker, the new block, and all from the end marker on. */
  lemma SplicedAtEndMarker(body: string, content: string, s: nat, e: nat)
    requires Find(body, StartMarker, 0) == Some(s)
    requires Find(body, EndMarker, s + |StartMarker|) == Some(e)
    requires body[..s + |StartMarker|] == body[..s] + StartMarker
    ensures UpdateProposalBodyWithStackLineage(body, content)
         == body[..s] + StartMarker + "\n" + content + "\n" + EndMarker + body[e + |EndMarker|..]
  {
    var pre := body[..s] + StartMarker + "\n" + content + "\n";
    assert UpdateProposalBodyWithStackLineage(body, content) == pre + body[e..];
    OccurrenceOpensSuffix(body, EndMarker, e);
    AppendAssociative(pre, EndMarker, body[e + |EndMarker|..]);
  }

  /** The shape of the output when the block is closed at a blank line. */
  lemma ShapeAtBlankLine(body: string, content: string, s: nat, b: nat)
    requires Find(body, StartMarker, 0) == Some(s)
    requires Find(body, EndMarker, s + |StartMarker|).None?
    requires Find(body, BlankLine, s + |StartMarker|) == Some(b)
    ensures IsMarkedBlock(UpdateProposalBodyWithStackLineage(body, content), content, body[..s], body[b..])
  {
    TextBeforeFirstStartMarker(body, s);
  }

  /** The shape of the output when the block is closed at the end. */
  lemma ShapeToEnd(body: string, content: string, s: nat)
    requires Find(body, StartMarker, 0) == Some(s)
    requires Find(body, EndMarker, s + |StartMarker|).None?
    requires Find(body, BlankLine, s + |StartMarker|).None?
    ensures IsMarkedBlock(UpdateProposalBodyWithStackLineage(body, content), content, body[..s], "")
  {
    TextBeforeFirstStartMarker(body, s);
  }

  /** Splicing the same content into the splicer's own output changes
      nothing, provided the content does not itself hold an end marker. */
  lemma SpliceIdempotent(body: string, content: string)
    requires forall j :: !OccursAt(content, EndMarker, j)
    ensures var r := UpdateProposalBodyWithStackLineage(body, content);
      UpdateProposalBodyWithStackLineage(r, content) == r
  {
    var r := UpdateProposalBodyWithStackLineage(body, content);
    SplicedShape(body, content);
    var before: string, after: string :| IsMarkedBlock(r, content, before, after);
    SpliceReplacesBlock(before, content, after, content);
  }

  /** The assumption of `SpliceIdempotent` is needed: content that begins
      with an end marker is cut at that marker on the second run, so the
      second run's output is longer than the first's. */
  lemma IdempotenceNeedsContentWithoutEndMarker(body: string, content: string)
    requires OccursAt(content, EndMarker, 0)
    ensures var r := UpdateProposalBodyWithStackLineage(body, content);
      UpdateProposalBodyWithStackLineage(r, content) != r
  {
    var r := UpdateProposalBodyWithStackLineage(body, content);
    SplicedShape(body, content);
    var before: string, after: string :| IsMarkedBlock(r, content, before, after);
    SecondRunLonger(r, before, content, after);
  }

  /** On a block whose content begins with an end marker, the splicer keeps
      the old content after the new one. */
  lemma SecondRunLonger(r: string, before: string, content: string, after: string)
    requires OccursAt(content, EndMarker, 0)
    requires IsMarkedBlock(r, content, before, after)
    ensures |UpdateProposalBodyWithStackLineage(r, content)| == |r| + |content| + 1
  {
    StartMarkerFound(before, "\n" + content + "\n" + EndMarker + after, r);
    EndMarkerOpensContent(r, before, content, after);
    ShapeAtEndMarker(r, content, |before|, |before| + |StartMarker| + 1);
  }

  /** In a block whose content begins with an end marker, that marker is the
      first one after the start marker. */
  lemma EndMarkerOpensContent(r: string, before: string, content: string, after: string)
    requires OccursAt(content, EndMarker, 0)
    requires r == before + StartMarker + "\n" + content + "\n" + EndMarker + after
    ensures Find(r, EndMarker, |before| + |StartMarker|) == Some(|before| + |StartMarker| + 1)
  {
    MarkersAreOneLine();
    var p := |before| + |StartMarker|;
    var lead := before + StartMarker + "\n";
    var trail := "\n" + EndMarker + after;
    assert r == lead + content + trail by {
      AppendAssociative(lead + content, "\n", EndMarker);
      AppendAssociative(lead + content, "\n" + EndMarker, after);
    }
    OccursWithin(r, lead, content, trail, EndMarker, 0);
    assert r[p] == '\n';
    NewlineBlocks(r, EndMarker, p, p);
    FindFirst(r, EndMarker, p, p + 1);
  }

  // ---------------------------------------------------------------------
  // The described cases

  /** Text without the first character of the start marker holds no start
      marker. */
  lemma NoStartMarkerIn(before: string)
    requires '<' !in before
    ensures NoneBefore(before + StartMarker, StartMarker, |before|)
  {
    MarkersAreOneLine();
    forall j | 0 <= j < |before|
      ensures !OccursAt(before + StartMarker, StartMarker, j)
    {
      assert (before + StartMarker)[j] == before[j];
    }
  }

  lemma EmptyBody()
    ensures UpdateProposalBodyWithStackLineage("", "### This proposal is part of stack\n\n #123 [Title](URL)")
         == StartMarker + "\n" + "### This proposal is part of stack\n\n #123 [Title](URL)" + "\n" + EndMarker
  {
    SpliceAppendsBlock("", "### This proposal is part of stack\n\n #123 [Title](URL)");
  }

  lemma BodyWithoutMarker()
    ensures UpdateProposalBodyWithStackLineage("This is the PR description",
                                               "### This proposal is part of stack\n\n #123 [Title](URL)")
         == "This is the PR description" + "\n\n" + StartMarker + "\n"
            + "### This proposal is part of stack\n\n #123 [Title](URL)" + "\n" + EndMarker
  {
    MarkersAreOneLine();
    NoOccurrence("This is the PR description", StartMarker);
    SpliceAppendsBlock("This is the PR description",
                       "### This proposal is part of stack\n\n #123 [Title](URL)");
  }

  lemma BodyWithBothMarkers()
    ensures UpdateProposalBodyWithStackLineage(
              "Description\n\n" + StartMarker + "\n" + "Old lineage" + "\n" + EndMarker + "\n\nMore content",
              "### New lineage")
         == "Description\n\n" + StartMarker + "\n" + "### New lineage" + "\n" + EndMarker + "\n\nMore content"
  {
    MarkersAreOneLine();
    NoStartMarkerIn("Description\n\n");
    NoOccurrence("Old lineage", EndMarker);
    SpliceReplacesBlock("Description\n\n", "Old lineage", "\n\nMore content", "### New lineage");
  }

  lemma BodyWithMissingEndMarker()
    ensures UpdateProposalBodyWithStackLineage(
              "Description\n\n" + StartMarker + "\n" + "Old lineage" + "\n\nMore content",
              "### New lineage")
         == "Description\n\n" + StartMarker + "\n" + "### New lineage" + "\n" + EndMarker + "\n\nMore content"
  {
    MarkersAreOneLine();
    NoStartMarkerIn("Description\n\n");
    NoOccurrence("Old lineage" + "\n\nMore content", EndMarker);
    OneLineHasNoBlankLine("Old lineage");
    SpliceClosesBlockAtBlankLine("Description\n\n", "Old lineage", "\n\nMore content", "### New lineage");
  }

  lemma RepeatedRuns()
    ensures UpdateProposalBodyWithStackLineage("Initial content", "### Stack info")
         == "Initial content" + "\n\n" + StartMarker + "\n" + "### Stack info" + "\n" + EndMarker
    ensures var r := UpdateProposalBodyWithStackLineage("Initial content", "### Stack info");
      UpdateProposalBodyWithStackLineage(r, "### Stack info") == r
  {
    MarkersAreOneLine();
    NoOccurrence("Initial content", StartMarker);
    SpliceAppendsBlock("Initial content", "### Stack info");
    NoOccurrence("### Stack info", EndMarker);
    SpliceIdempotent("Initial content", "### Stack info");
  }

  lemma MarkerAtEnd()
    ensures UpdateProposalBodyWithStackLineage(
              "Some content\n\n" + StartMarker + "\n" + "Old stack", "### New stack")
         == "Some content\n\n" + StartMarker + "\n" + "### New stack" + "\n" + EndMarker
  {
    MarkersAreOneLine();
    NoStartMarkerIn("Some content\n\n");
    NoOccurrence("Old stack", EndMarker);
    OneLineHasNoBlankLine("Old stack");
    SpliceClosesBlockAtEnd("Some content\n\n", "Old stack", "### New stack");
  }

  /** Text whose only '<' opens a comment other than the start marker holds
      no start marker. */
  lemma OtherCommentFirst(comment: string, text: string)
    requires |comment| > 5 && comment[5] != StartMarker[5]
    requires forall j :: 0 < j < |comment| ==> comment[j] != '<'
    requires '<' !in text
    ensures NoneBefore(comment + text + StartMarker, StartMarker, |comment| + |text|)
  {
    MarkersAreOneLine();
    var t := comment + text + StartMarker;
    forall j | 0 <= j < |comment| + |text|
      ensures !OccursAt(t, StartMarker, j)
    {
      if j == 0 {
        assert t[5] != StartMarker[5];
      } else if j < |comment| {
        assert t[j] == comment[j];
      } else {
        assert t[j] == text[j - |comment|];
      }
    }
  }

  lemma MultipleHtmlComments()
    ensures UpdateProposalBodyWithStackLineage(
              "<!-- other comment -->" + "\nContent\n" + StartMarker + "\n" + "Old" + "\n" + EndMarker
              + "\n<!-- another comment -->",
              "### Updated")
         == "<!-- other comment -->" + "\nContent\n" + StartMarker + "\n" + "### Updated" + "\n" + EndMarker
            + "\n<!-- another comment -->"
  {
    MarkersAreOneLine();
    OtherCommentFirst("<!-- other comment -->", "\nContent\n");
    NoOccurrence("Old", EndMarker);
    SpliceReplacesBlock("<!-- other comment -->" + "\nContent\n", "Old", "\n<!-- another comment -->",
                        "### Updated");
  }

  lemma SpecialCharacters()
    ensures UpdateProposalBodyWithStackLineage(
              "Description", "### Stack\n\n↳ #feature-1\n #123 [Title with [brackets]](URL) :point_left:")
         == "Description" + "\n\n" + StartMarker + "\n"
            + "### Stack\n\n↳ #feature-1\n #123 [Title with [brackets]](URL) :point_left:" + "\n" + EndMarker
  {
    MarkersAreOneLine();
    NoOccurrence("Description", StartMarker);
    SpliceAppendsBlock("Description",
                       "### Stack\n\n↳ #feature-1\n #123 [Title with [brackets]](URL) :point_left:");
  }

  lemma PreserveWhitespace()
    ensures UpdateProposalBodyWithStackLineage(
              "# Main Title" + "\n\n" + "## Description" + "\n\n" + "Some text",
              "### This proposal is part of stack" + "\n\n" + "    #123 [Indented](URL)" + "\n"
              + "  #124 [Also indented](URL2)")
         == "# Main Title" + "\n\n" + "## Description" + "\n\n" + "Some text" + "\n\n" + StartMarker + "\n"
            + "### This proposal is part of stack" + "\n\n" + "    #123 [Indented](URL)" + "\n"
            + "  #124 [Also indented](URL2)" + "\n" + EndMarker
  {
    MarkersAreOneLine();
    var body := "# Main Title" + "\n\n" + "## Description" + "\n\n" + "Some text";
    var content := "### This proposal is part of stack" + "\n\n" + "    #123 [Indented](URL)" + "\n"
                   + "  #124 [Also indented](URL2)";
    NoOccurrence(body, StartMarker);
    SpliceAppendsBlock(body, content);
  }
}
