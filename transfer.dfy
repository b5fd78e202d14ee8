/**
  The transfer runner (`run_sync`): rsync's merged output is read line by
  line; each stripped, non-empty line is a progress line (redraw the status
  area with the current file and the line), an error line (collect it), or
  otherwise a filename that becomes the current file, except for the
  "sending incremental file list" header. After rsync exits, the summary
  decides between the error report, success and an unexpected exit code.

  The output arrives here as the sequence of lines `readline` returned;
  the terminal drawing is modelled by the frames it would show.
*/
module Transfer {
  import opened PyStrings
  import opened Wrappers
  import opened Collecting
  import RsyncCommand
  import Audit

  // ---------------------------------------------------------------------
  // Line classification
  // ---------------------------------------------------------------------

  datatype LineClass = Blank | Progress | Error | Filename | Header

  /** A progress line carries both a percentage and a transfer count. */
  predicate IsProgressText(line: string) {
    Contains(line, "%") && Contains(line, "xfr#")
  }

  /** rsync's own error prefixes, or a full disk anywhere in the line. */
  predicate IsErrorText(line: string) {
    StartsWith(line, "rsync:") || StartsWith(line, "rsync error:") || Contains(line, "No space left")
  }

  /** The class of an already stripped line, tested in the order the loop
      tests: empty, progress, error, header, filename. */
  function Classify(line: string): LineClass {
    if line == "" then Blank
    else if IsProgressText(line) then Progress
    else if IsErrorText(line) then Error
    else if StartsWith(line, "sending incremental") then Header
    else Filename
  }

  /** Every stripped line falls in exactly one class, and the class is the
      first of progress, error, header, filename whose test the line passes.
      This is the precedence written as a rule; that the loop really tests
      in this order is what `StreamOutput` proves, since its body tests the
      conditions themselves and its results equal the `Classify`-based
      functions below. */
  lemma ClassifyPrecedence(line: string)
    ensures Classify(line) == Blank <==> line == ""
    ensures Classify(line) == Progress <==> line != "" && IsProgressText(line)
    ensures Classify(line) == Error <==> line != "" && !IsProgressText(line) && IsErrorText(line)
    ensures Classify(line) == Filename <==>
              line != "" && !IsProgressText(line) && !IsErrorText(line)
              && !StartsWith(line, "sending incremental")
  {
  }

  /** A line that starts like an rsync error but is a progress line is
      drawn, not collected. */
  lemma ProgressBeatsError(line: string)
    requires StartsWith(line, "rsync:")
    requires Contains(line, "%") && Contains(line, "xfr#")
    ensures Classify(line) == Progress
  {
  }

  /** A line strips to a blank exactly when it is whitespace only. */
  lemma BlankIffWhitespace(raw: string)
    ensures Classify(Strip(raw)) == Blank <==> AllSpace(raw)
  {
    StripEmptyIff(raw);
  }

  /** The error collected for a raw output line, if it is one. */
  function ErrorOf(raw: string): Option<string> {
    var line := Strip(raw);
    if Classify(line) == Error then Some(line) else None
  }

  /** The filename a raw output line announces, if it is one. */
  function FilenameOf(raw: string): Option<string> {
    var line := Strip(raw);
    if Classify(line) == Filename then Some(line) else None
  }

  // ---------------------------------------------------------------------
  // What the loop has built after a prefix of the output
  // ---------------------------------------------------------------------

  const InitialFile := "Initializing..."

  /** A redraw of the two-line status area: the displayed file name and
      the progress line under it. */
  datatype Frame = Frame(file: string, progress: string)

  /** The collected error lines. */
  function ErrorsOf(lines: seq<string>): seq<string> {
    Collect(lines, ErrorOf)
  }

  /** The current file: the latest filename line, or the initial text. */
  function CurrentFile(lines: seq<string>): string {
    var names := Collect(lines, FilenameOf);
    if names == [] then InitialFile else names[|names| - 1]
  }

  /** The status redraws, one per progress line, each showing the file that
      was current when its line arrived. */
  function FramesOf(lines: seq<string>): seq<Frame> {
    if lines == [] then [] else FramesOf(lines[..|lines| - 1]) + LastFrame(lines)
  }

  /** The redraw the last line causes, if it is a progress line. */
  function LastFrame(lines: seq<string>): seq<Frame>
    requires lines != []
  {
    var line := Strip(lines[|lines| - 1]);
    if Classify(line) == Progress then [Frame(DisplayName(CurrentFile(lines[..|lines| - 1])), line)] else []
  }

  // ---------------------------------------------------------------------
  // The streaming loop
  // ---------------------------------------------------------------------

  /** The read loop of `run_sync`, over the lines rsync printed. */
  method StreamOutput(lines: seq<string>)
    returns (errors: seq<string>, currentFile: string, frames: seq<Frame>)
    ensures errors == ErrorsOf(lines)
    ensures currentFile == CurrentFile(lines)
    ensures frames == FramesOf(lines)
  {
    errors := [];
    currentFile := InitialFile;
    frames := [];
    var i := 0;
    assert lines[..i] == [];
    while i < |lines|
      invariant 0 <= i <= |lines|
      invariant errors == ErrorsOf(lines[..i])
      invariant currentFile == CurrentFile(lines[..i])
      invariant frames == FramesOf(lines[..i])
    {
      ghost var prev, next := lines[..i], lines[..i + 1];
      assert next == prev + [lines[i]];
      LineEffect(prev, lines[i]);
      var line := Strip(lines[i]);
      if line != "" {
        if Contains(line, "%") && Contains(line, "xfr#") {
          frames := frames + [Frame(DisplayName(currentFile), line)];
        } else if StartsWith(line, "rsync:") || StartsWith(line, "rsync error:")
               || Contains(line, "No space left") {
          errors := errors + [line];
        } else if !StartsWith(line, "sending incremental") {
          currentFile := line;
        }
      }
      i := i + 1;
    }
    assert lines[..|lines|] == lines;
  }

  // ---------------------------------------------------------------------
  // Properties of the loop's results
  // ---------------------------------------------------------------------

  /** Observable effect of one more output line: a progress line adds one
      frame, an error line adds one error, a filename line replaces the
      current file, and nothing else changes anything. */
  lemma LineEffect(lines: seq<string>, raw: string)
    ensures var line := Strip(raw);
      ErrorsOf(lines + [raw]) == ErrorsOf(lines) + (if Classify(line) == Error then [line] else [])
    ensures var line := Strip(raw);
      CurrentFile(lines + [raw]) == if Classify(line) == Filename then line else CurrentFile(lines)
    ensures var line := Strip(raw);
      FramesOf(lines + [raw]) == FramesOf(lines)
        + (if Classify(line) == Progress then [Frame(DisplayName(CurrentFile(lines)), line)] else [])
  {
    CollectSnoc(lines, raw, ErrorOf);
    CollectSnoc(lines, raw, FilenameOf);
    FramesStep(lines, raw);
  }

  lemma FramesStep(lines: seq<string>, raw: string)
    ensures var line := Strip(raw);
      FramesOf(lines + [raw]) == FramesOf(lines)
        + (if Classify(line) == Progress then [Frame(DisplayName(CurrentFile(lines)), line)] else [])
  {
    var after := lines + [raw];
    assert after[..|after| - 1] == lines;
    assert after[|after| - 1] == raw;
  }

  /** Blank lines and the "sending incremental" header change nothing. */
  lemma IgnoredLineChangesNothing(lines: seq<string>, raw: string)
    requires Classify(Strip(raw)) in {Blank, Header}
    ensures ErrorsOf(lines + [raw]) == ErrorsOf(lines)
    ensures CurrentFile(lines + [raw]) == CurrentFile(lines)
    ensures FramesOf(lines + [raw]) == FramesOf(lines)
  {
    LineEffect(lines, raw);
  }

  /** The errors are exactly the stripped error-class lines, in output order:
      a line is collected if and only if it classifies as an error. */
  lemma ErrorsExactly(lines: seq<string>, e: string)
    ensures e in ErrorsOf(lines) <==>
              exists i :: 0 <= i < |lines| && Strip(lines[i]) == e && Classify(e) == Error
  {
    CollectMember(lines, ErrorOf, e);
    if e in ErrorsOf(lines) {
      var i :| 0 <= i < |lines| && ErrorOf(lines[i]) == Some(e);
      assert Strip(lines[i]) == e;
    }
  }

  /** Errors of earlier output come before errors of later output. */
  lemma ErrorsInOrder(a: seq<string>, b: seq<string>)
    ensures ErrorsOf(a + b) == ErrorsOf(a) + ErrorsOf(b)
  {
    CollectAppend(a, b, ErrorOf);
  }

  /** The error list only grows while the loop runs. */
  lemma ErrorsGrow(lines: seq<string>, i: nat, j: nat)
    requires i <= j <= |lines|
    ensures ErrorsOf(lines[..i]) <= ErrorsOf(lines[..j])
    ensures |ErrorsOf(lines[..i])| <= |ErrorsOf(lines[..j])|
  {
    CollectPrefix(lines, i, j, ErrorOf);
  }

  /** No filename line in the output leaves the initial text. */
  lemma {:induction false} CurrentFileInitial(lines: seq<string>)
    requires forall i :: 0 <= i < |lines| ==> Classify(Strip(lines[i])) != Filename
    ensures CurrentFile(lines) == InitialFile
  {
    NoFilenameCollected(lines);
  }

  /** Otherwise the current file is the last filename line. */
  lemma {:induction false} CurrentFileIsLast(lines: seq<string>, i: nat)
    requires i < |lines| && Classify(Strip(lines[i])) == Filename
    requires forall j :: i < j < |lines| ==> Classify(Strip(lines[j])) != Filename
    ensures CurrentFile(lines) == Strip(lines[i])
  {
    var before, after := lines[..i + 1], lines[i + 1..];
    assert lines == before + after;
    LastNameOf(lines[..i], lines[i]);
    assert before == lines[..i] + [lines[i]];
    forall j | 0 <= j < |after|
      ensures Classify(Strip(after[j])) != Filename
    {
      assert after[j] == lines[i + 1 + j];
    }
    NoFilenameCollected(after);
    CollectAppend(before, after, FilenameOf);
  }

  lemma LastNameOf(lines: seq<string>, raw: string)
    requires Classify(Strip(raw)) == Filename
    ensures var names := Collect(lines + [raw], FilenameOf);
      names != [] && names[|names| - 1] == Strip(raw)
  {
    CollectSnoc(lines, raw, FilenameOf);
  }

  lemma {:induction false} NoFilenameCollected(lines: seq<string>)
    requires forall i :: 0 <= i < |lines| ==> Classify(Strip(lines[i])) != Filename
    ensures Collect(lines, FilenameOf) == []
  {
    var names := Collect(lines, FilenameOf);
    if names != [] {
      CollectMember(lines, FilenameOf, names[0]);
    }
  }

  /** Line `i` of the output is a progress line, and `f` is the redraw it
      causes: the display form of the then-current file above the line. */
  predicate ProducesFrame(lines: seq<string>, i: int, f: Frame) {
    0 <= i < |lines| && Classify(Strip(lines[i])) == Progress
    && f == Frame(DisplayName(CurrentFile(lines[..i])), Strip(lines[i]))
  }

  /** A later line does not change what an earlier line produced. */
  lemma ProducesFrameStable(lines: seq<string>, i: int, f: Frame)
    requires 0 <= i < |lines| - 1
    ensures ProducesFrame(lines, i, f) <==> ProducesFrame(lines[..|lines| - 1], i, f)
  {
    var init := lines[..|lines| - 1];
    assert lines[i] == init[i] && lines[..i] == init[..i];
  }

  /** The frames are exactly the redraws the progress lines cause: a frame
      is drawn if and only if some progress line produces it. */
  lemma {:induction false} FramesExactly(lines: seq<string>, f: Frame)
    ensures f in FramesOf(lines) <==> exists i :: ProducesFrame(lines, i, f)
    decreases |lines|
  {
    if lines != [] {
      var init := lines[..|lines| - 1];
      FramesExactly(init, f);
      LastFrameProduces(lines, f);
      ProducersOfLonger(lines, init, f);
    }
  }

  lemma LastFrameProduces(lines: seq<string>, f: Frame)
    requires lines != []
    ensures f in FramesOf(lines) <==>
              f in FramesOf(lines[..|lines| - 1]) || ProducesFrame(lines, |lines| - 1, f)
  {
    var earlier, last := FramesOf(lines[..|lines| - 1]), LastFrame(lines);
    assert FramesOf(lines) == earlier + last;
    assert f in earlier + last <==> f in earlier || f in last;
    assert f in last <==> ProducesFrame(lines, |lines| - 1, f);
  }

  /** A frame is produced by some line exactly when it is produced by an
      earlier line or by the last one. */
  lemma ProducersOfLonger(lines: seq<string>, init: seq<string>, f: Frame)
    requires lines != [] && init == lines[..|lines| - 1]
    ensures (exists i :: ProducesFrame(lines, i, f)) <==>
              (exists i :: ProducesFrame(init, i, f)) || ProducesFrame(lines, |lines| - 1, f)
  {
    var n := |lines| - 1;
    if exists i :: ProducesFrame(init, i, f) {
      var i :| ProducesFrame(init, i, f);
      ProducesFrameStable(lines, i, f);
      assert ProducesFrame(lines, i, f);
    }
    if exists i :: ProducesFrame(lines, i, f) {
      var i :| ProducesFrame(lines, i, f);
      if i < n {
        ProducesFrameStable(lines, i, f);
        assert ProducesFrame(init, i, f);
      } else {
        assert i == n;
      }
    }
  }

  /** No frame shows more than 77 characters of file name. */
  lemma FramesBounded(lines: seq<string>, f: Frame)
    requires f in FramesOf(lines)
    ensures |f.file| <= DisplayWidth + 2
  {
    FramesExactly(lines, f);
  }

  // ---------------------------------------------------------------------
  // Display truncation
  // ---------------------------------------------------------------------

  const DisplayWidth := 75

  /** `update_ui_status`: a file name longer than 75 characters is shown as
      its first 75 characters followed by "..". */
  function DisplayName(filename: string): (r: string)
    ensures |filename| <= DisplayWidth ==> r == filename
    ensures |filename| > DisplayWidth ==> |r| == DisplayWidth + 2 && r[DisplayWidth..] == ".."
    ensures |r| <= DisplayWidth + 2
    ensures var n := if |filename| < DisplayWidth then |filename| else DisplayWidth;
      r[..n] == filename[..n]
  {
    if |filename| > DisplayWidth then filename[..DisplayWidth] + ".." else filename
  }

  /** Truncating an already truncated name changes nothing. */
  lemma DisplayNameIdempotent(filename: string)
    ensures DisplayName(DisplayName(filename)) == DisplayName(filename)
  {
  }

  // ---------------------------------------------------------------------
  // Summary
  // ---------------------------------------------------------------------

  /** What `print_summary` reports. */
  datatype Summary =
    | ErrorsFound(count: nat, listed: seq<string>)
    | Completed
    | ExitedWithCode(code: int)

  /** Collected errors win over the exit code; with none, exit code 0 is
      success and any other code is reported as it is. */
  function SummaryOf(returnCode: int, errors: seq<string>): (s: Summary)
    ensures s.ErrorsFound? <==> errors != []
    ensures s.ErrorsFound? ==> s.count == |errors| && s.listed == errors
    ensures s.Completed? <==> errors == [] && returnCode == 0
    ensures s.ExitedWithCode? <==> errors == [] && returnCode != 0
    ensures s.ExitedWithCode? ==> s.code == returnCode
  {
    if |errors| > 0 then ErrorsFound(|errors|, errors)
    else if returnCode == 0 then Completed
    else ExitedWithCode(returnCode)
  }

  // ---------------------------------------------------------------------
  // A whole run
  // ---------------------------------------------------------------------

  /** `run_sync` after the prompt: build the command, stream rsync's
      output, summarise with its exit code, then audit. */
  method RunSync(exec: string, source: string, dest: string, dryRun: bool,
                 output: seq<string>, returnCode: int, auditOutput: string)
    returns (cmd: seq<string>, frames: seq<Frame>, summary: Summary,
             auditCmd: seq<string>, report: Audit.Report)
    ensures cmd == RsyncCommand.TransferCommand(exec, source, dest, dryRun)
    ensures frames == FramesOf(output)
    ensures summary == SummaryOf(returnCode, ErrorsOf(output))
    ensures auditCmd == RsyncCommand.AuditCommand(exec, source, dest)
    ensures report == Audit.AuditReport(auditOutput)
  {
    cmd := RsyncCommand.BuildRsyncCmd(exec, source, dest, dryRun);
    var errors, currentFile;
    errors, currentFile, frames := StreamOutput(output);
    summary := SummaryOf(returnCode, errors);
    auditCmd, report := Audit.RunAudit(exec, source, dest, auditOutput);
  }
}
