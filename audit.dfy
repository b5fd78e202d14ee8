/**
  The post-sync audit (`run_audit`): rsync is re-run as an itemized dry run
  with deletion simulated, and its output is sorted into files missing from
  the destination (`>f+++++++++ path`, a file that would be created) and
  extra files in it (`*deleting   path`). The report is "perfect match" when
  both lists are empty, otherwise each non-empty list is shown, cut to its
  first 15 entries with a count of the rest.
*/
module Audit {
  import opened PyStrings
  import opened Wrappers
  import opened Collecting
  import RsyncCommand

  // ---------------------------------------------------------------------
  // One line of itemized output
  // ---------------------------------------------------------------------

  /** What the parser does with one line. */
  datatype AuditLine = Skipped | Extra(path: string) | Missing(path: string) | Ignored

  /** How rsync prints a deletion, marker and padding included. */
  const DeletingMarker := "*deleting   "

  /** The itemize code of a file that does not exist in the destination. */
  const NewFileFlags := "+++++++++"

  /** Lines that are empty or have no space are skipped; a line starting
      "*deleting" is an extra, with every occurrence of the marker removed;
      a line whose code (the text before the first space) starts ">f" and
      contains the nine "+" is missing, named by the text after that space;
      every other line is ignored. */
  function ClassifyAudit(line: string): AuditLine {
    if line == "" then Skipped
    else
      var parts := SplitFirst(line, ' ');
      if |parts| < 2 then Skipped
      else if StartsWith(line, "*deleting") then Extra(RemoveAll(line, DeletingMarker))
      else if StartsWith(parts[0], ">f") && Contains(parts[0], NewFileFlags) then Missing(parts[1])
      else Ignored
  }

  function ExtraOf(line: string): Option<string> {
    if ClassifyAudit(line).Extra? then Some(ClassifyAudit(line).path) else None
  }

  function MissingOf(line: string): Option<string> {
    if ClassifyAudit(line).Missing? then Some(ClassifyAudit(line).path) else None
  }

  /** A line without a space is skipped whatever it says. */
  lemma NoSpaceSkipped(line: string)
    requires ' ' !in line
    ensures ClassifyAudit(line) == Skipped
  {
    SplitFirstSpec(line, ' ');
  }

  /** A deletion line names the deleted path. */
  lemma {:induction false} DeletionLine(path: string)
    requires !Contains(path, DeletingMarker)
    ensures ClassifyAudit(DeletingMarker + path) == Extra(path)
  {
    var line := DeletingMarker + path;
    assert line[9] == ' ';
    SplitFirstSpec(line, ' ');
    assert line[..9] == "*deleting";
    RemoveAllLeading(DeletingMarker, path);
    RemoveAllAbsent(path, DeletingMarker);
  }

  /** Whatever the path, a deletion line gives the path with every further
      occurrence of the marker removed as well. */
  lemma AnyDeletionLine(path: string)
    ensures ClassifyAudit(DeletingMarker + path) == Extra(RemoveAll(path, DeletingMarker))
  {
    var line := DeletingMarker + path;
    assert line[9] == ' ';
    SplitFirstSpec(line, ' ');
    assert line[..9] == "*deleting";
    RemoveAllLeading(DeletingMarker, path);
  }

  /** A creation line names the path after the itemize code. */
  lemma {:induction false} CreationLine(code: string, path: string)
    requires ' ' !in code
    requires StartsWith(code, ">f") && Contains(code, NewFileFlags)
    ensures ClassifyAudit(code + " " + path) == Missing(path)
  {
    var line := code + " " + path;
    assert line == code + [' '] + path;
    SplitFirstAt(code, ' ', path);
    assert line[..2] == code[..2];
  }

  /** A missing entry always comes from a line of the form
      `<code> <path>` with a new-file code and no deletion marker. */
  lemma MissingShape(line: string, path: string)
    requires ClassifyAudit(line) == Missing(path)
    ensures !StartsWith(line, "*deleting")
    ensures exists code :: line == code + [' '] + path && ' ' !in code
              && StartsWith(code, ">f") && Contains(code, NewFileFlags)
  {
    var parts := SplitFirst(line, ' ');
    SplitFirstSpec(line, ' ');
    assert line == parts[0] + [' '] + parts[1];
  }

  /** A line adds to at most one of the two lists. */
  lemma AtMostOneList(line: string)
    ensures !(ExtraOf(line).Some? && MissingOf(line).Some?)
  {
  }

  // ---------------------------------------------------------------------
  // The parse loop
  // ---------------------------------------------------------------------

  /** The missing files named by the output, in output order. */
  function MissingFiles(lines: seq<string>): seq<string> {
    Collect(lines, MissingOf)
  }

  /** The extra files named by the output, in output order. */
  function ExtraFiles(lines: seq<string>): seq<string> {
    Collect(lines, ExtraOf)
  }

  /** The itemize loop of `run_audit`. */
  method ParseItemized(lines: seq<string>) returns (missing: seq<string>, extras: seq<string>)
    ensures missing == MissingFiles(lines)
    ensures extras == ExtraFiles(lines)
  {
    missing, extras := [], [];
    for i := 0 to |lines|
      invariant missing == MissingFiles(lines[..i])
      invariant extras == ExtraFiles(lines[..i])
    {
      assert lines[..i + 1] == lines[..i] + [lines[i]];
      CollectSnoc(lines[..i], lines[i], MissingOf);
      CollectSnoc(lines[..i], lines[i], ExtraOf);
      var line := lines[i];
      if line != "" {
        var parts := SplitFirst(line, ' ');
        if |parts| >= 2 {
          var code, filename := parts[0], parts[1];
          if StartsWith(line, "*deleting") {
            extras := extras + [RemoveAll(line, DeletingMarker)];
          } else if StartsWith(code, ">f") && Contains(code, NewFileFlags) {
            missing := missing + [filename];
          }
        }
      }
    }
    assert lines[..|lines|] == lines;
  }

  /** Each list is exactly what its lines contribute, in output order. */
  lemma ListsExactly(lines: seq<string>, p: string)
    ensures p in MissingFiles(lines) <==>
              exists i :: 0 <= i < |lines| && ClassifyAudit(lines[i]) == Missing(p)
    ensures p in ExtraFiles(lines) <==>
              exists i :: 0 <= i < |lines| && ClassifyAudit(lines[i]) == Extra(p)
  {
    CollectMember(lines, MissingOf, p);
    CollectMember(lines, ExtraOf, p);
  }

  /** Both lists keep the order of the output lines. */
  lemma ListsInOrder(a: seq<string>, b: seq<string>)
    ensures MissingFiles(a + b) == MissingFiles(a) + MissingFiles(b)
    ensures ExtraFiles(a + b) == ExtraFiles(a) + ExtraFiles(b)
  {
    CollectAppend(a, b, MissingOf);
    CollectAppend(a, b, ExtraOf);
  }

  /** Output with no creation and no deletion lines gives two empty lists. */
  lemma {:induction false} NoDifferences(lines: seq<string>)
    requires forall i :: 0 <= i < |lines| ==> ClassifyAudit(lines[i]) in {Skipped, Ignored}
    ensures MissingFiles(lines) == [] && ExtraFiles(lines) == []
    decreases |lines|
  {
    if lines != [] {
      var init := lines[..|lines| - 1];
      assert lines == init + [lines[|lines| - 1]];
      CollectSnoc(init, lines[|lines| - 1], MissingOf);
      CollectSnoc(init, lines[|lines| - 1], ExtraOf);
      NoDifferences(init);
    }
  }

  /** The itemize code rsync prints for a regular file to be created. */
  const NewFileCode := ">f+++++++++"

  lemma NewFileCodeIsMissing()
    ensures ' ' !in NewFileCode
    ensures StartsWith(NewFileCode, ">f") && Contains(NewFileCode, NewFileFlags)
  {
    assert NewFileCode == ">f" + NewFileFlags;
    StartsWithContains(NewFileFlags, NewFileFlags);
    ContainsInSuffix(">f", NewFileFlags, NewFileFlags);
  }

  /** One deletion line and one creation line give one entry in each list. */
  lemma OneOfEach(gone: string, added: string)
    requires !Contains(gone, DeletingMarker)
    ensures var lines := [DeletingMarker + gone, NewFileCode + " " + added];
      ExtraFiles(lines) == [gone] && MissingFiles(lines) == [added]
  {
    var del, cre := DeletingMarker + gone, NewFileCode + " " + added;
    DeletionLine(gone);
    NewFileCodeIsMissing();
    CreationLine(NewFileCode, added);
    CollectSnoc([del], cre, MissingOf);
    CollectSnoc([del], cre, ExtraOf);
    CollectSnoc([], del, MissingOf);
    CollectSnoc([], del, ExtraOf);
    assert [] + [del] == [del];
    assert [del] + [cre] == [del, cre];
  }

  // ---------------------------------------------------------------------
  // The report
  // ---------------------------------------------------------------------

  /** How many entries of each list are printed. */
  const ShowLimit := 15

  /** The trailing "... and N more." line, when there is one. */
  datatype MoreLine = NoMore | AndMore(count: nat)

  /** One printed list: its size in the heading, the entries shown, and
      the line counting those not shown. */
  datatype Section = Section(total: nat, shown: seq<string>, more: MoreLine)

  function SectionOf(entries: seq<string>): (s: Section)
    ensures s.total == |entries|
    ensures s.shown <= entries
    ensures |s.shown| == if |entries| < ShowLimit then |entries| else ShowLimit
    ensures s.more.AndMore? <==> |entries| > ShowLimit
    ensures s.more.AndMore? ==> s.more.count == |entries| - ShowLimit > 0
  {
    var shown := if |entries| < ShowLimit then entries else entries[..ShowLimit];
    Section(|entries|, shown, if |entries| > ShowLimit then AndMore(|entries| - ShowLimit) else NoMore)
  }

  /** Nothing is lost: the shown entries followed by the ones the count
      stands for make up the whole list. */
  lemma SectionCoversList(entries: seq<string>)
    ensures var s := SectionOf(entries);
      s.shown + entries[|s.shown|..] == entries
      && |entries[|s.shown|..]| == if s.more.AndMore? then s.more.count else 0
  {
  }

  datatype Report =
    | PerfectMatch
    | Differences(missing: Option<Section>, extras: Option<Section>)

  /** The reporting rule: "perfect match" exactly when both lists are
      empty; otherwise a section for each non-empty list. */
  function ReportOf(missing: seq<string>, extras: seq<string>): (r: Report)
    ensures r == PerfectMatch <==> missing == [] && extras == []
    ensures r.Differences? ==> (r.missing.Some? <==> missing != [])
    ensures r.Differences? ==> (r.extras.Some? <==> extras != [])
    ensures r.Differences? && r.missing.Some? ==> r.missing.value == SectionOf(missing)
    ensures r.Differences? && r.extras.Some? ==> r.extras.value == SectionOf(extras)
  {
    if |missing| == 0 && |extras| == 0 then PerfectMatch
    else
      Differences(if |missing| > 0 then Some(SectionOf(missing)) else None,
                  if |extras| > 0 then Some(SectionOf(extras)) else None)
  }

  /** Twenty missing files show the first fifteen and "... and 5 more.". */
  lemma TwentyMissing(missing: seq<string>)
    requires |missing| == 20
    ensures var r := ReportOf(missing, []);
      r.Differences? && r.extras == None
      && r.missing == Some(Section(20, missing[..15], AndMore(5)))
  {
  }

  /** The report for rsync's whole audit output. */
  function AuditReport(out: string): Report {
    var lines := SplitOn(out, '\n');
    ReportOf(MissingFiles(lines), ExtraFiles(lines))
  }

  /** `run_audit`: build the audit command, split rsync's output at line
      feeds, parse it and decide the report. */
  method RunAudit(exec: string, source: string, dest: string, out: string)
    returns (cmd: seq<string>, report: Report)
    ensures cmd == RsyncCommand.AuditCommand(exec, source, dest)
    ensures report == AuditReport(out)
  {
    cmd := RsyncCommand.AuditCommand(exec, source, dest);
    var lines := SplitOn(out, '\n');
    var missing, extras := ParseItemized(lines);
    report := ReportOf(missing, extras);
  }
}
