/**
 * `get_repo` of git_repo.py: the bare repositories live in directories
 * `name`, `name_1`, `name_2`, … of one root; the first candidate that does
 * not exist, or whose `config` lists the requested url as the first url of
 * one of its remotes, is the one to use.
 *
 * The root is a finite map from directory name to the lines of that
 * directory's `config`, as `readlines` yields them (newlines kept); `name`
 * is `Path(url).name`, given.
 */
module Registry {
  import opened Wrappers
  import opened Strs
  import Submodules

  const RemoteHeader := "[remote"
  const UrlPrefix := Submodules.UrlPrefix

  /** The scan's variables: the remote whose section is being read, and the dictionary so far */
  datatype Config = Config(current: Option<string>, remotes: map<Option<string>, string>)

  const Empty := Config(None, map[])

  /** One line of the scan; `None` is an `IndexError` (a `[remote` line without `"`) */
  function ConfigStep(c: Config, line: string): Option<Config> {
    if StartsWith(line, RemoteHeader) then
      var parts := Split(line, '"');
      if |parts| < 2 then None else Some(c.(current := Some(parts[1])))
    else if c.current !in c.remotes && StartsWith(line, UrlPrefix) then
      match Submodules.Value(line)
      case None => None
      case Some(v) => Some(c.(remotes := c.remotes[c.current := v]))
    else Some(c)
  }

  function ScanFrom(c: Config, lines: seq<string>): Option<Config>
    decreases |lines|
  {
    if lines == [] then Some(c)
    else
      match ConfigStep(c, lines[0])
      case None => None
      case Some(next) => ScanFrom(next, lines[1..])
  }

  /** The `remotes` dictionary of a config, or `None` when reading it raises */
  function Remotes(lines: seq<string>): Option<map<Option<string>, string>> {
    match ScanFrom(Empty, lines)
    case None => None
    case Some(c) => Some(c.remotes)
  }

  /** The inner loop of `get_repo` over the lines of one config. */
  method ScanRemotes(lines: seq<string>) returns (remotes: Option<map<Option<string>, string>>)
    ensures remotes == Remotes(lines)
  {
    var current: Option<string> := None;
    var found: map<Option<string>, string> := map[];
    var i := 0;
    while i < |lines|
      invariant 0 <= i <= |lines|
      invariant ScanFrom(Config(current, found), lines[i..]) == ScanFrom(Empty, lines)
    {
      var line := lines[i];
      assert lines[i..][1..] == lines[i + 1..];
      if StartsWith(line, RemoteHeader) {
        var parts := Split(line, '"');
        if |parts| < 2 {
          return None;
        }
        current := Some(parts[1]);
      } else if current !in found && StartsWith(line, UrlPrefix) {
        var v := Submodules.Value(line);
        if v.None? {
          return None;
        }
        found := found[current := v.value];
      }
      i := i + 1;
    }
    return Some(found);
  }

  // ---------------------------------------------------------------------
  // Properties of the config scan

  /** Once a remote has a url, later lines never change it: each remote keeps its first url. */
  lemma {:induction false} FirstUrlKept(c: Config, lines: seq<string>)
    requires ScanFrom(c, lines).Some?
    ensures forall k :: k in c.remotes ==>
              k in ScanFrom(c, lines).value.remotes && ScanFrom(c, lines).value.remotes[k] == c.remotes[k]
    decreases |lines|
  {
    if lines != [] {
      FirstUrlKept(ConfigStep(c, lines[0]).value, lines[1..]);
    }
  }

  lemma {:induction false} ScanAppend(c: Config, a: seq<string>, b: seq<string>)
    ensures ScanFrom(c, a + b) == match ScanFrom(c, a) case None => None case Some(m) => ScanFrom(m, b)
    decreases |a|
  {
    if a == [] {
      assert a + b == b;
    } else {
      assert (a + b)[0] == a[0];
      assert (a + b)[1..] == a[1..] + b;
      match ConfigStep(c, a[0])
      case None =>
      case Some(next) => ScanAppend(next, a[1..], b);
    }
  }

  /** A clean `url` line, with or without its newline, in the section of a remote without a url records it. */
  lemma UrlLineStep(c: Config, v: string, nl: string)
    requires c.current !in c.remotes && Clean(v) && (nl == "" || nl == "\n")
    ensures ConfigStep(c, UrlPrefix + v + nl) == Some(c.(remotes := c.remotes[c.current := v]))
  {
    var line := UrlPrefix + v + nl;
    assert line[..|UrlPrefix|] == UrlPrefix;
    assert |RemoteHeader| <= |line| ==> line[..|RemoteHeader|][0] == line[0];
    Submodules.ValueOfCleanLine(UrlPrefix, v, nl);
  }

  /**
   * The first `url` line of a remote's section is the one recorded for it,
   * whatever follows.
   */
  lemma FirstUrlRecorded(pre: seq<string>, c: Config, v: string, nl: string, post: seq<string>)
    requires ScanFrom(Empty, pre) == Some(c) && c.current !in c.remotes
    requires Clean(v) && (nl == "" || nl == "\n")
    requires Remotes(pre + [UrlPrefix + v + nl] + post).Some?
    ensures c.current in Remotes(pre + [UrlPrefix + v + nl] + post).value
    ensures Remotes(pre + [UrlPrefix + v + nl] + post).value[c.current] == v
  {
    var line := UrlPrefix + v + nl;
    assert pre + [line] + post == pre + ([line] + post);
    ScanAppend(Empty, pre, [line] + post);
    UrlLineStep(c, v, nl);
    var next := c.(remotes := c.remotes[c.current := v]);
    assert ([line] + post)[1..] == post;
    FirstUrlKept(next, post);
  }

  /** A `[remote` line without `"` makes reading the config raise. */
  lemma MissingQuoteRaises(pre: seq<string>, h: string, post: seq<string>)
    requires StartsWith(h, RemoteHeader) && '"' !in h
    ensures Remotes(pre + [h] + post).None?
  {
    SplitHasSecond(h, '"');
    assert pre + [h] + post == pre + ([h] + post);
    ScanAppend(Empty, pre, [h] + post);
    assert ([h] + post)[0] == h;
  }

  /**
   * Lines without a remote header leave the scan where it is, provided they
   * hold no url line while the current remote still lacks a url.
   */
  lemma {:induction false} QuietLines(c: Config, lines: seq<string>)
    requires forall i :: 0 <= i < |lines| ==>
               !StartsWith(lines[i], RemoteHeader) && (c.current !in c.remotes ==> !StartsWith(lines[i], UrlPrefix))
    ensures ScanFrom(c, lines) == Some(c)
    decreases |lines|
  {
    if lines != [] {
      assert ConfigStep(c, lines[0]) == Some(c);
      assert forall i :: 0 <= i < |lines[1..]| ==> lines[1..][i] == lines[i + 1];
      QuietLines(c, lines[1..]);
    }
  }

  /** The line `[remote "r"]`, newline included, opens the section of `r`. */
  lemma RemoteHeaderStep(c: Config, remote: string)
    requires '"' !in remote
    ensures ConfigStep(c, RemoteHeader + " \"" + remote + "\"]\n") == Some(c.(current := Some(remote)))
  {
    var h := RemoteHeader + " \"" + remote + "\"]\n";
    assert h[..|RemoteHeader|] == RemoteHeader;
    assert h == RemoteHeader + " " + ['"'] + (remote + ['"'] + "]\n");
    SplitAfter(RemoteHeader + " ", '"', remote + ['"'] + "]\n");
    SplitAfter(remote, '"', "]\n");
  }

  /**
   * A config as a bare clone leaves it: a `[core]` section with neither a
   * remote header nor a url line, one `[remote "r"]` section whose first
   * entry is the clean url, then entries without a remote header (such as
   * the `fetch` line set after cloning), every line ending in a newline.
   * It maps exactly `r` to the url.
   */
  lemma ClonedConfigLists(core: seq<string>, remote: string, url: string, rest: seq<string>)
    requires '"' !in remote && Clean(url)
    requires forall i :: 0 <= i < |core| ==> !StartsWith(core[i], RemoteHeader) && !StartsWith(core[i], UrlPrefix)
    requires forall i :: 0 <= i < |rest| ==> !StartsWith(rest[i], RemoteHeader)
    ensures Remotes(core + [RemoteHeader + " \"" + remote + "\"]\n", UrlPrefix + url + "\n"] + rest)
            == Some(map[Some(remote) := url])
  {
    var h, u := RemoteHeader + " \"" + remote + "\"]\n", UrlPrefix + url + "\n";
    var c1 := Config(Some(remote), map[]);
    var c2 := c1.(remotes := map[Some(remote) := url]);
    QuietLines(Empty, core);
    assert core + [h, u] + rest == core + ([h] + ([u] + rest));
    ScanAppend(Empty, core, [h] + ([u] + rest));
    RemoteHeaderStep(Empty, remote);
    assert ([h] + ([u] + rest))[1..] == [u] + rest;
    UrlLineStep(c1, url, "\n");
    assert ([u] + rest)[1..] == rest;
    QuietLines(c2, rest);
  }

  // ---------------------------------------------------------------------
  // The probe over candidate directories

  /** The `k`-th candidate: `name`, then `name_1`, `name_2`, … */
  function Candidate(name: string, k: nat): string {
    if k == 0 then name else name + "_" + Decimal(k)
  }

  /** Candidate names are pairwise distinct. */
  lemma CandidateInjective(name: string, j: nat, k: nat)
    requires Candidate(name, j) == Candidate(name, k)
    ensures j == k
  {
    if j > 0 && k > 0 {
      assert Candidate(name, j)[|name| + 1..] == Decimal(j);
      assert Candidate(name, k)[|name| + 1..] == Decimal(k);
      DecimalInjective(j, k);
    }
  }

  lemma {:induction false} CandidateSetSize(name: string, k: nat)
    ensures |set j | 0 <= j < k :: Candidate(name, j)| == k
    decreases k
  {
    if k > 0 {
      CandidateSetSize(name, k - 1);
      CandidateSetStep(name, k - 1);
      CandidateFresh(name, k - 1);
    }
  }

  lemma CandidateSetStep(name: string, k: nat)
    ensures (set j | 0 <= j < k + 1 :: Candidate(name, j))
            == (set j | 0 <= j < k :: Candidate(name, j)) + {Candidate(name, k)}
  {
  }

  /** Candidate `k` is none of the earlier ones. */
  lemma CandidateFresh(name: string, k: nat)
    ensures Candidate(name, k) !in (set j | 0 <= j < k :: Candidate(name, j))
  {
    forall j | 0 <= j < k ensures Candidate(name, j) != Candidate(name, k) {
      if Candidate(name, j) == Candidate(name, k) {
        CandidateInjective(name, j, k);
      }
    }
  }

  /** A finite root holds at most `|fs|` consecutive candidates: the probe cannot go on for ever. */
  lemma CandidatesBound(fs: map<string, seq<string>>, name: string, k: nat)
    requires forall j :: 0 <= j < k ==> Candidate(name, j) in fs
    ensures k <= |fs|
  {
    var s := set j | 0 <= j < k :: Candidate(name, j);
    CandidateSetSize(name, k);
    assert s <= fs.Keys;
    assert |s| <= |fs.Keys| by {
      SubsetSize(s, fs.Keys);
    }
  }

  lemma {:induction false} SubsetSize<T>(a: set<T>, b: set<T>)
    requires a <= b
    ensures |a| <= |b|
    decreases |a|
  {
    if a != {} {
      var x :| x in a;
      SubsetSize(a - {x}, b - {x});
    }
  }

  /** The probe goes past candidate `k`: it exists, its config reads, and it does not list `url`. */
  predicate ProbesPast(fs: map<string, seq<string>>, name: string, url: string, k: nat) {
    var d := Candidate(name, k);
    d in fs && Remotes(fs[d]).Some? && url !in Remotes(fs[d]).value.Values
  }

  /** The probe stops at candidate `k`: it went past every earlier one, and not past this one. */
  predicate StopsAt(fs: map<string, seq<string>>, name: string, url: string, k: nat) {
    (forall j :: 0 <= j < k ==> ProbesPast(fs, name, url, j)) && !ProbesPast(fs, name, url, k)
  }

  /** How `get_repo` ends: it returns a directory, or reading that directory's config raises */
  datatype Outcome = Returned(dir: string) | Raised(dir: string)

  /** How `get_repo` ends when it stops at candidate `k` */
  function OutcomeAt(fs: map<string, seq<string>>, name: string, url: string, k: nat): (r: Outcome)
    requires !ProbesPast(fs, name, url, k)
    ensures r.dir == Candidate(name, k)
    ensures r.Raised? <==> r.dir in fs && Remotes(fs[r.dir]).None?
    ensures r.Returned? && r.dir in fs ==> url in Remotes(fs[r.dir]).value.Values
  {
    var d := Candidate(name, k);
    if d in fs && Remotes(fs[d]).None? then Raised(d) else Returned(d)
  }

  /** The probe, as written, over the directories of the root. */
  method GetRepo(fs: map<string, seq<string>>, name: string, url: string) returns (r: Outcome)
    ensures exists k: nat :: StopsAt(fs, name, url, k) && r == OutcomeAt(fs, name, url, k)
  {
    var repo := name;
    var index: nat := 0;
    while repo in fs
      invariant repo == Candidate(name, index)
      invariant forall j :: 0 <= j < index ==> ProbesPast(fs, name, url, j)
      decreases |fs| - index
    {
      assert forall j :: 0 <= j < index + 1 ==> Candidate(name, j) in fs by {
        forall j | 0 <= j < index ensures Candidate(name, j) in fs {
          assert ProbesPast(fs, name, url, j);
        }
      }
      CandidatesBound(fs, name, index + 1);
      var remotes := ScanRemotes(fs[repo]);
      if remotes.None? {
        assert StopsAt(fs, name, url, index);
        return Raised(repo);
      }
      if url in remotes.value.Values {
        assert StopsAt(fs, name, url, index);
        return Returned(repo);
      }
      index := index + 1;
      repo := name + "_" + Decimal(index);
    }
    assert StopsAt(fs, name, url, index);
    return Returned(repo);
  }

  // ---------------------------------------------------------------------
  // Properties of the probe

  /** The probe stops at one candidate only. */
  lemma StopUnique(fs: map<string, seq<string>>, name: string, url: string, j: nat, k: nat)
    requires StopsAt(fs, name, url, j) && StopsAt(fs, name, url, k)
    ensures j == k
  {
  }

  /** The probe stops within the first `|fs| + 1` candidates. */
  lemma StopBound(fs: map<string, seq<string>>, name: string, url: string, k: nat)
    requires StopsAt(fs, name, url, k)
    ensures k <= |fs|
  {
    forall j | 0 <= j < k ensures Candidate(name, j) in fs {
      assert ProbesPast(fs, name, url, j);
    }
    CandidatesBound(fs, name, k);
  }

  /**
   * Once the directory chosen for a new url is created with a config that
   * lists that url, asking for the url again gives the same directory.
   */
  lemma SameUrlSameDirectory(fs: map<string, seq<string>>, name: string, url: string, k: nat, config: seq<string>)
    requires StopsAt(fs, name, url, k) && Candidate(name, k) !in fs
    requires Remotes(config).Some? && url in Remotes(config).value.Values
    ensures var fs' := fs[Candidate(name, k) := config];
            StopsAt(fs', name, url, k) && OutcomeAt(fs', name, url, k) == Returned(Candidate(name, k))
  {
    var fs' := fs[Candidate(name, k) := config];
    forall j | 0 <= j < k
      ensures ProbesPast(fs', name, url, j)
    {
      if Candidate(name, j) == Candidate(name, k) {
        CandidateInjective(name, j, k);
      }
      assert ProbesPast(fs, name, url, j);
    }
  }
}
