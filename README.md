# Smart rsync manager, modelled in Dafny

`rsync.py` is a wrapper around the `rsync` command line tool. A run:

1. builds the transfer command;
2. streams rsync's merged output line by line, sorting each line into one
   of these:
   - a progress line, which redraws a two-line status area with the
     current file;
   - an error line, which is collected;
   - a filename, which becomes the current file;
   - the "sending incremental file list" header, or a blank line, which
     changes nothing;
3. prints a summary from the collected errors and rsync's exit code;
4. runs an audit: an itemized dry run with deletion simulated. Its output
   is parsed into files missing from the destination (`>f+++++++++`) and
   extra files in it (`*deleting`). These are reported as a perfect match,
   or as one list for each non-empty side, cut to 15 entries.

The modules:

| module | file | what it holds |
|---|---|---|
| `PyStrings` | `pystrings.dfy` | The Python string operations the wrapper uses, on `seq<char>`: `startswith`, `in`, `strip()` with Python's full whitespace set, `rstrip('/')`, `replace(p, '')`, `split(' ', 1)`, `split('\n')` and `join`. Each has lemmas that characterise its result. |
| `Collecting` | `collecting.dfy` | `Collect`, the list a "for each line, maybe append one item" loop has built. It comes with lemmas on order, membership and growth. |
| `Wrappers` | `wrappers.dfy` | `Option`. |
| `RsyncCommand` | `command.dfy` | The transfer command, the audit roots and the audit command. |
| `Transfer` | `transfer.dfy` | Line classification, the streaming loop as a method with invariants, the frames it draws, filename truncation, the summary, and the whole run. |
| `Audit` | `audit.dfy` | The itemize-line parser, the parse loop as a method with invariants, the report rule, and the audit run. |

The loops are methods proved against reference functions:
- `Transfer.StreamOutput` against `ErrorsOf`, `CurrentFile` and `FramesOf`;
- `Audit.ParseItemized` against `MissingFiles` and `ExtraFiles`.

Lemmas about those functions state what the lists mean.

Facts about `rsync.py` that the model follows:
- The transfer command has ten fixed entries: the executable and nine flags, two of them `--exclude`. With source and destination it is 12 entries long, or 13 in a dry run.
- The audit compares `source/` with `dest/` itself. This holds even when the source had no trailing slash, in which case the transfer copied the folder into `dest`.
- The audit command does not carry the transfer's `--exclude` flags.
- `rsync.py` has none of the following, so the model has none of them either:
  - an audit root of `<dest>/<basename(source)>/`;
  - discovery of exclude files;
  - a `--delete` option for the transfer;
  - a fallback for legacy rsync versions;
  - permissive decoding of undecodable output.

## Model

| member | source | states |
|---|---|---|
| PyStrings.StartsWith | rsync.py:156 | `s.startswith(p)`: `p` is no longer than `s` and equals its first `|p|` characters. |
| PyStrings.Contains | rsync.py:152 | `p in s`: `s` starts with `p`, or `p` is in `s` without its first character. Its meaning is stated by `PyStrings.ContainsIffOccurs`. |
| PyStrings.ContainsIffOccurs | rsync.py:152 | The left-to-right scan for `p in s` holds exactly when `p` occurs at some index of `s`. |
| PyStrings.ContainsInSuffix | rsync.py:233 | Text occurring in a suffix occurs in the whole string. |
| PyStrings.LeadingSpacesSpec | rsync.py:147 | The leading run `lstrip` removes is all whitespace and is followed by a non-space or the end. |
| PyStrings.StripRightSpec | rsync.py:147 | `rstrip()` gives a prefix of the input, the removed tail is all whitespace, and the result does not end in whitespace. |
| PyStrings.Strip | rsync.py:147 | `line.strip()` as `rstrip()` of `lstrip()`. What it returns is stated by `PyStrings.StripShape`, `PyStrings.StripEnds` and `PyStrings.StripEmptyIff`. |
| PyStrings.StripShape | rsync.py:147 | `strip()` returns a contiguous slice of the line with only whitespace before and after it. |
| PyStrings.StripEnds | rsync.py:147 | A stripped line neither starts nor ends with whitespace. |
| PyStrings.StripIdempotent | rsync.py:147 | Stripping twice equals stripping once. |
| PyStrings.StripEmptyIff | rsync.py:147-149 | A line strips to the empty string if and only if it is all whitespace, so such lines are the ones skipped. |
| PyStrings.RStripChar | rsync.py:95 | `rstrip('/')` is a prefix of its input, only `/` was removed, and the result does not end in `/`. |
| PyStrings.RStripCharUnique | rsync.py:95 | Those three properties determine the result of `rstrip('/')` uniquely. |
| PyStrings.RStripCharAppend | rsync.py:95 | One more trailing `/` does not change the result of `rstrip('/')`. |
| PyStrings.RStripCharIdempotent | rsync.py:95 | `rstrip('/')` applied twice equals applying it once. |
| PyStrings.RemoveAll | rsync.py:232 | `line.replace(marker, '')`. The result is never longer than the input. What it deletes is stated by `PyStrings.RemoveAllFirst` and `PyStrings.RemoveAllAbsent`. |
| PyStrings.RemoveAllFirst | rsync.py:232 | `replace(marker, '')` keeps the text before the first occurrence of the marker, drops that occurrence, and goes on with the text after it. Together with `PyStrings.RemoveAllAbsent` this fixes the result for every input: every occurrence, taken left to right without overlap, is removed. |
| PyStrings.RemoveAllAfter | rsync.py:232 | When no occurrence of the marker starts inside `a`, `replace(marker, '')` of `a + marker + b` is `a` followed by the replacement applied to `b`. |
| PyStrings.RemoveAllAbsent | rsync.py:232 | `replace(marker, '')` leaves text that does not contain the marker unchanged. |
| PyStrings.RemoveAllLeading | rsync.py:232 | `replace(marker, '')` deletes a leading marker and carries on with the rest. |
| PyStrings.SplitFirst | rsync.py:224 | `line.split(' ', 1)` always gives one or two parts. Which ones is stated by `PyStrings.SplitFirstSpec`. |
| PyStrings.SplitFirstSpec | rsync.py:224 | `split(' ', 1)` gives two parts exactly when the line has a space. The parts are the text before and after the first space, and the first part has no space. Otherwise the one part is the line. |
| PyStrings.SplitFirstAt | rsync.py:224 | For space-free `a`, `split(' ', 1)` of `a + ' ' + b` gives `[a, b]`. |
| PyStrings.SplitOn | rsync.py:213 | `split('\n')` gives at least one piece, and no piece contains a line feed. |
| PyStrings.JoinSplit | rsync.py:213 | Joining the pieces of `split('\n')` with line feeds reconstructs the output. |
| PyStrings.SplitJoin | rsync.py:213 | Splitting the join of feed-free pieces gives back the pieces. |
| Collecting.CollectSnoc | rsync.py:222-235 | A further line appends its contribution, if any, and leaves the earlier items alone. |
| Collecting.CollectAppend | rsync.py:222-235 | Items collected from earlier lines precede those from later lines. |
| Collecting.CollectMember | rsync.py:222-235 | An item is collected if and only if some line contributes it. |
| Collecting.CollectPrefix | rsync.py:222-235 | The list collected from a prefix of the lines is a prefix of the list collected from more lines. |
| Collecting.CollectSkip | rsync.py:222-235 | A line that contributes nothing can be dropped from anywhere without changing the list. |
| RsyncCommand.TransferCommand | rsync.py:83-101 | The command `build_rsync_cmd` returns. Its contents are stated by `RsyncCommand.BuildRsyncCmd`. |
| RsyncCommand.BuildRsyncCmd | rsync.py:83-101 | The method's result is `TransferCommand`. The command has 12 entries, or 13 in a dry run: the executable, the nine fixed flags, the source verbatim, and the destination with its trailing `/` removed. In a dry run `-n` sits at index 1, and removing it gives the plain command. |
| RsyncCommand.NormalizeRoot | rsync.py:201-202 | The audit root ends in exactly one `/`. Without that `/` it is a prefix of the path, and it drops only the path's trailing slashes. |
| RsyncCommand.NormalizeRootIdempotent | rsync.py:201-202 | Normalising a root again changes nothing. |
| RsyncCommand.NormalizeRootTrailingSlashes | rsync.py:201-202 | Any number of extra trailing slashes gives the same root. |
| RsyncCommand.NormalizeRootSame | rsync.py:201-202 | Two paths share a root if and only if they agree once their trailing slashes are removed. |
| RsyncCommand.AuditCommand | rsync.py:204-208 | The audit command is the executable, the five audit flags and the two normalised roots, 8 entries in all. |
| Transfer.Classify | rsync.py:147-162 | The class of a stripped line, tested in the loop's order: empty, progress (`%` and `xfr#`), error (`rsync:`, `rsync error:`, `No space left`), header, filename. `Transfer.StreamOutput` proves that the loop's literal tests agree with it. |
| Transfer.ClassifyPrecedence | rsync.py:147-162 | Each stripped line is in exactly one class, and the precedence is empty, then progress, then error, then header, then filename. |
| Transfer.ProgressBeatsError | rsync.py:152-157 | A line starting `rsync:` that also has `%` and `xfr#` is drawn as progress, not collected as an error. |
| Transfer.BlankIffWhitespace | rsync.py:147-149 | A raw line is skipped as blank if and only if it is all whitespace. |
| Transfer.StreamOutput | rsync.py:141-162 | The loop ends with the error list, current file and redraws that `ErrorsOf`, `CurrentFile` and `FramesOf` give for the whole output. |
| Transfer.LineEffect | rsync.py:147-162 | One more line does one of three things: a progress line appends one frame showing the current file, an error line appends that line to the errors, a filename line becomes the current file. Every other kind of line changes nothing. |
| Transfer.IgnoredLineChangesNothing | rsync.py:148-161 | Blank lines and the "sending incremental" header leave errors, current file and frames unchanged. |
| Transfer.ErrorsExactly | rsync.py:156-157 | A string is among the errors if and only if it is the stripped form of an output line classified as an error. |
| Transfer.ErrorsInOrder | rsync.py:157 | Errors from earlier output precede errors from later output. |
| Transfer.ErrorsGrow | rsync.py:134-157 | The error list only grows as more lines are read: earlier lists are prefixes of later ones. |
| Transfer.CurrentFileInitial | rsync.py:135 | Output with no filename line leaves the current file at "Initializing...". |
| Transfer.CurrentFileIsLast | rsync.py:160-162 | Otherwise the current file is the last filename line. |
| Transfer.LastNameOf | rsync.py:162 | A filename line becomes the latest collected name. |
| Transfer.FramesExactly | rsync.py:152-153 | A frame is drawn if and only if some progress line produces it. It shows the display form of the file current at that line, above the line. |
| Transfer.FramesBounded | rsync.py:107-153 | No frame shows more than 77 characters of file name. |
| Transfer.DisplayName | rsync.py:107 | A name of at most 75 characters is shown as it is. A longer name is shown as its first 75 characters plus `..`, for 77 characters in all. |
| Transfer.DisplayNameIdempotent | rsync.py:107 | Truncating an already truncated name changes nothing. |
| Transfer.SummaryOf | rsync.py:184-194 | Errors are reported, with count and list, if and only if there are any. Otherwise exit code 0 is success and any other code is reported as it is. |
| Transfer.RunSync | rsync.py:120-176 | A run gives exactly the command `build_rsync_cmd` builds (`RsyncCommand.TransferCommand`). It also gives the frames and summary that the transfer output and exit code determine, and the audit command and report for the audit output. |
| Audit.ClassifyAudit | rsync.py:223-235 | What the parse loop does with one line, tested in the loop's order. An empty line or one without a space is skipped. A line starting `*deleting` is an extra, with the marker removed. A line whose code starts `>f` and contains nine `+` is missing, named by the text after the first space. Anything else is ignored. |
| Audit.NoSpaceSkipped | rsync.py:223-225 | A line without a space is skipped, whatever it says. |
| Audit.DeletionLine | rsync.py:230-232 | `*deleting   path` is an extra named `path`, provided the path does not itself contain the marker. |
| Audit.AnyDeletionLine | rsync.py:230-232 | For any path, `*deleting   path` is an extra named by the path with every occurrence of the marker removed. For example, `*deleting   a*deleting   b` gives `ab`. |
| Audit.CreationLine | rsync.py:224-235 | `code path` is missing `path` when the space-free code starts `>f` and contains nine `+`. |
| Audit.MissingShape | rsync.py:224-235 | A missing entry only ever comes from a line `code + ' ' + path`. Its code is space-free, starts `>f` and contains `+++++++++`, and the line does not start `*deleting`. |
| Audit.AtMostOneList | rsync.py:230-235 | No line adds to both lists. |
| Audit.ParseItemized | rsync.py:222-236 | The parse loop ends with the lists `MissingFiles` and `ExtraFiles` give for the lines. |
| Audit.ListsExactly | rsync.py:222-236 | A path is in the missing list, or the extras list, if and only if some line classifies as missing, or extra, with that path. |
| Audit.ListsInOrder | rsync.py:222-236 | Both lists keep the order of the output lines. |
| Audit.NoDifferences | rsync.py:222-239 | Output without creation or deletion lines gives two empty lists. |
| Audit.NewFileCodeIsMissing | rsync.py:233 | The code `>f+++++++++` has no space, starts `>f` and contains the nine `+`. |
| Audit.OneOfEach | rsync.py:222-235 | One deletion line and one creation line give exactly one extra and one missing entry, with those paths. |
| Audit.SectionOf | rsync.py:247-262 | A section gives the full count, shows the first `min(n, 15)` entries, and has a "... and N more." line if and only if there are more than 15, with N equal to the rest. |
| Audit.SectionCoversList | rsync.py:250-253 | The shown entries followed by the ones the count stands for make up the whole list. |
| Audit.ReportOf | rsync.py:239-263 | The report is a perfect match if and only if both lists are empty. Otherwise there is a section for each non-empty list and none for an empty one. |
| Audit.TwentyMissing | rsync.py:247-254 | Twenty missing files and no extras show the first fifteen and "... and 5 more.". |
| Audit.RunAudit | rsync.py:199-236 | The audit builds the audit command and reports on rsync's output split at line feeds. |

## Left out

- Running processes: `subprocess.Popen`, `readline`, `poll` and `communicate`. The transfer's output arrives as the sequence of lines `readline` returned, and the audit's standard output as one string. rsync's exit code is a parameter. The audit's standard error is discarded by the source and is not modelled.
- The loop's end condition (an empty read once the process has exited) is not modelled. The model processes every line in the sequence, which is what the loop sees before it stops.
- `find_rsync` and `RSYNC_EXEC` probe the filesystem. The executable is a parameter.
- Terminal output: ANSI colours, cursor movement, the banner, the legend, the dry-run echo of the command, the text of `print_error_alert` and the fixed lines of the summary and report. Frames model what the status area shows. Summaries and reports model which branch prints and with which values.
- Timing: `time.time()` and the printed duration are floating point and clock readings.
- `KeyboardInterrupt`, which ends the run without summary or audit, is not modelled.
- Command-line handling in `__main__`, including the usage message and its exit.
- `check_netskope.py` is not part of this model.
- Text decoding: lines are already `str`. Both pipes are opened in text mode with the strict error handler. Output that is not valid in the locale's encoding therefore makes `readline` or `communicate` raise `UnicodeDecodeError`. Only `KeyboardInterrupt` is caught, so such a run stops with no summary and no audit, and this exit is not modelled. Python's universal-newline translation is not modelled either.
- PyStrings.RemoveAll: models `replace(p, '')` only for a non-empty `p`, the only form the wrapper uses.
