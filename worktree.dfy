/**
 * The branch name `fun` in git_repo.py gives a new worktree: `"t"`, then
 * the worktree's absolute path with every `:` removed and every `\`
 * turned into `/`.
 */
module Worktree {
  import opened Strs

  /** The branch name: `t`, then the path without `:` and with `/` for every `\` */
  function BranchName(worktree: string): (r: string)
    ensures |r| >= 1 && r[0] == 't'
    ensures ':' !in r && '\\' !in r
  {
    var s := ReplaceAll(RemoveAll(worktree, ':'), '\\', '/');
    "t" + s
  }

  /** A POSIX path (no `:`, no `\`) is kept as it is after the `t`. */
  lemma PosixPathKept(worktree: string)
    requires ':' !in worktree && '\\' !in worktree
    ensures BranchName(worktree) == "t" + worktree
  {
    var r := ReplaceAll(worktree, '\\', '/');
    assert forall i :: 0 <= i < |worktree| ==> r[i] == worktree[i];
  }

  /** A Windows path: the drive's colon is dropped and the separators become `/`. */
  lemma {:induction false} WindowsPath(drive: char, path: string)
    requires drive != ':' && drive != '\\' && ':' !in path
    ensures BranchName([drive, ':'] + path) == "t" + [drive] + ReplaceAll(path, '\\', '/')
  {
    DriveColonRemoved(drive, path);
    DriveKept(drive, path);
  }

  lemma DriveColonRemoved(drive: char, path: string)
    requires drive != ':' && ':' !in path
    ensures RemoveAll([drive, ':'] + path, ':') == [drive] + path
  {
    RemoveAllAppend([drive, ':'], path, ':');
    assert [drive, ':'][1..] == [':'];
    assert RemoveAll([drive, ':'], ':') == [drive];
  }

  lemma DriveKept(drive: char, path: string)
    requires drive != '\\'
    ensures ReplaceAll([drive] + path, '\\', '/') == [drive] + ReplaceAll(path, '\\', '/')
  {
    assert ([drive] + path)[1..] == path;
  }
}
