/**
  The two rsync invocations the wrapper builds: the transfer command of
  `build_rsync_cmd` and the itemized dry-run of the audit, whose source and
  destination are normalised to end in exactly one `/`. The executable is
  an opaque string chosen by the caller.
*/
module RsyncCommand {
  import opened PyStrings

  /** The flags that follow the executable in every transfer command. */
  const TransferFlags: seq<string> := [
    "-a", "--partial", "--no-perms", "--no-owner", "--no-group",
    "--info=progress2", "-v",
    "--exclude=Photos Library.photoslibrary",
    "--exclude=.DS_Store"
  ]

  /** The flag that turns a transfer into a dry run. */
  const DryRunFlag := "-n"

  /** The flags of the audit run: archive, verbose, dry run, itemize, and
      report the files a deletion would remove. */
  const AuditFlags: seq<string> := ["-avn", "-i", "--delete", "--ignore-errors", "--force"]

  predicate EndsWith(s: string, c: char) {
    |s| > 0 && s[|s| - 1] == c
  }

  /** The transfer command for a run: the executable, the fixed flags, the
      source as given and the destination without its trailing slashes,
      with `-n` right after the executable in a dry run. */
  function TransferCommand(exec: string, source: string, dest: string, dryRun: bool): seq<string> {
    var plain := [exec] + TransferFlags + [source, RStripChar(dest, '/')];
    if dryRun then [exec, DryRunFlag] + plain[1..] else plain
  }

  /** `build_rsync_cmd`: start from the fixed list, append the source as
      given and the destination without its trailing slashes, and in a dry
      run insert `-n` at index 1. */
  method BuildRsyncCmd(exec: string, source: string, dest: string, dryRun: bool)
    returns (cmd: seq<string>)
    ensures cmd == TransferCommand(exec, source, dest, dryRun)
    ensures |cmd| == if dryRun then 13 else 12
    ensures cmd[0] == exec
    ensures cmd[|cmd| - 2] == source
    ensures !EndsWith(cmd[|cmd| - 1], '/')
    ensures cmd[|cmd| - 1] <= dest
    ensures forall k :: |cmd[|cmd| - 1]| <= k < |dest| ==> dest[k] == '/'
    ensures !dryRun ==> cmd == [exec] + TransferFlags + [source, cmd[|cmd| - 1]]
    ensures dryRun ==> cmd[1] == DryRunFlag
    ensures dryRun ==> cmd[..1] + cmd[2..] == [exec] + TransferFlags + [source, cmd[|cmd| - 1]]
  {
    cmd := [exec] + TransferFlags;
    cmd := cmd + [source];
    cmd := cmd + [RStripChar(dest, '/')];
    if dryRun {
      cmd := cmd[..1] + [DryRunFlag] + cmd[1..];
    }
  }

  /** `s.rstrip('/') + '/'`, the audit's comparison root. */
  function NormalizeRoot(s: string): (r: string)
    ensures EndsWith(r, '/')
    ensures |r| == 1 || r[|r| - 2] != '/'
    ensures r[..|r| - 1] <= s
    ensures forall k :: |r| - 1 <= k < |s| ==> s[k] == '/'
  {
    RStripChar(s, '/') + "/"
  }

  /** Normalising a normalised root changes nothing. */
  lemma NormalizeRootIdempotent(s: string)
    ensures NormalizeRoot(NormalizeRoot(s)) == NormalizeRoot(s)
  {
    var t := RStripChar(s, '/');
    RStripCharAppend(t, '/');
    RStripCharIdempotent(s, '/');
  }

  /** The root does not depend on how many trailing slashes the path had. */
  lemma {:induction false} NormalizeRootTrailingSlashes(s: string, n: nat)
    ensures NormalizeRoot(s + seq(n, _ => '/')) == NormalizeRoot(s)
    decreases n
  {
    if n > 0 {
      var slashes := seq(n, _ => '/');
      assert s + slashes == (s + seq(n - 1, _ => '/')) + ['/'];
      RStripCharAppend(s + seq(n - 1, _ => '/'), '/');
      NormalizeRootTrailingSlashes(s, n - 1);
    } else {
      assert s + seq(n, _ => '/') == s;
    }
  }

  /** Paths that differ only in trailing slashes, and only those, share a
      root: the root is the path with its trailing slashes replaced by one. */
  lemma NormalizeRootSame(s: string, t: string)
    ensures NormalizeRoot(s) == NormalizeRoot(t) <==> RStripChar(s, '/') == RStripChar(t, '/')
  {
    var a, b := RStripChar(s, '/'), RStripChar(t, '/');
    if NormalizeRoot(s) == NormalizeRoot(t) {
      assert a == (a + "/")[..|a|] == (b + "/")[..|b|] == b;
    }
  }

  /** The audit command: the fixed audit flags followed by the two
      normalised roots. */
  function AuditCommand(exec: string, source: string, dest: string): (cmd: seq<string>)
    ensures |cmd| == 8 && cmd[0] == exec && cmd[1..6] == AuditFlags
    ensures cmd[6] == NormalizeRoot(source) && cmd[7] == NormalizeRoot(dest)
  {
    [exec] + AuditFlags + [NormalizeRoot(source), NormalizeRoot(dest)]
  }
}
