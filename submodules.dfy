/**
 * `parse_submodules` of git_repo.py: one pass over the lines of a
 * `.gitmodules` file with two accumulators, `path` and `url`, that are
 * never reset; a `[submodule ` header emits the pending record when a path
 * has been seen, and one final record is always appended. Every exception
 * is swallowed and the records appended so far are returned.
 */
module Submodules {
  import opened Wrappers
  import opened Strs

  const Header := "[submodule "
  const PathPrefix := "\tpath = "
  const UrlPrefix := "\turl = "

  /** One entry of the returned list: the `{"path": …, "url": …}` dictionary */
  datatype Record = Record(path: Option<string>, url: Option<string>)

  /** The loop's variables: the two accumulators and the list built so far */
  datatype Scan = Scan(path: Option<string>, url: Option<string>, out: seq<Record>)

  /** Where a run over some lines ends: at the end of the lines, or at an exception */
  datatype Outcome = Done(st: Scan) | Raised(out: seq<Record>)

  const Start := Scan(None, None, [])

  /** `line.split(' ')[2].rstrip()`; `None` when index 2 is out of range */
  function Value(line: string): Option<string> {
    var fields := Split(line, ' ');
    if |fields| < 3 then None else Some(RStrip(fields[2]))
  }

  /** The loop body for one line */
  function Step(st: Scan, line: string): Outcome {
    if StartsWith(line, Header) then
      var out := if st.path.Some? then st.out + [Record(st.path, st.url)] else st.out;
      if |Split(line, '"')| < 2 then Raised(out) else Done(st.(out := out))
    else if StartsWith(line, PathPrefix) then
      match Value(line)
      case None => Raised(st.out)
      case Some(v) => Done(st.(path := Some(v)))
    else if StartsWith(line, UrlPrefix) then
      match Value(line)
      case None => Raised(st.out)
      case Some(v) => Done(st.(url := Some(v)))
    else Done(st)
  }

  /** The loop over `lines`, from state `st` */
  function Run(st: Scan, lines: seq<string>): Outcome
    decreases |lines|
  {
    if lines == [] then Done(st)
    else
      match Step(st, lines[0])
      case Raised(out) => Raised(out)
      case Done(next) => Run(next, lines[1..])
  }

  /** What a run ends with once the final record is appended (or the exception caught) */
  function Finish(o: Outcome): seq<Record> {
    match o
    case Done(st) => st.out + [Record(st.path, st.url)]
    case Raised(out) => out
  }

  /** The list `parse_submodules` returns; `None` is a file that cannot be opened */
  function Parsed(file: Option<seq<string>>): seq<Record> {
    match file
    case None => []
    case Some(lines) => Finish(Run(Start, lines))
  }

  /** The imperative parser: the accumulators are updated line by line. */
  method ParseSubmodules(file: Option<seq<string>>) returns (submodules: seq<Record>)
    ensures submodules == Parsed(file)
  {
    submodules := [];
    if file.None? {
      return;
    }
    var lines := file.value;
    var path: Option<string> := None;
    var url: Option<string> := None;
    var i := 0;
    while i < |lines|
      invariant 0 <= i <= |lines|
      invariant Run(Scan(path, url, submodules), lines[i..]) == Run(Start, lines)
    {
      var line := lines[i];
      assert lines[i..][1..] == lines[i + 1..];
      if StartsWith(line, Header) {
        if path != None {
          submodules := submodules + [Record(path, url)];
        }
        if |Split(line, '"')| < 2 {
          return;
        }
      } else if StartsWith(line, PathPrefix) {
        var v := Value(line);
        if v.None? {
          return;
        }
        path := v;
      } else if StartsWith(line, UrlPrefix) {
        var v := Value(line);
        if v.None? {
          return;
        }
        url := v;
      }
      i := i + 1;
    }
    submodules := submodules + [Record(path, url)];
  }

  // ---------------------------------------------------------------------
  // Properties

  /** Running over a concatenation runs over the first part, then the second. */
  lemma {:induction false} RunAppend(st: Scan, a: seq<string>, b: seq<string>)
    ensures Run(st, a + b) == match Run(st, a) case Done(s) => Run(s, b) case Raised(o) => Raised(o)
    decreases |a|
  {
    if a == [] {
      assert a + b == b;
    } else {
      assert (a + b)[0] == a[0];
      assert (a + b)[1..] == a[1..] + b;
      match Step(st, a[0])
      case Raised(o) =>
      case Done(next) => RunAppend(next, a[1..], b);
    }
  }

  /**
   * A `path` or `url` value is the third space-separated field, which is the
   * text after the prefix up to its first space, with trailing whitespace
   * stripped; such a line never raises.
   */
  lemma ValueAfterPrefix(line: string, prefix: string)
    requires prefix == PathPrefix || prefix == UrlPrefix
    requires StartsWith(line, prefix)
    ensures Value(line) == Some(RStrip(Split(line[|prefix|..], ' ')[0]))
  {
    var key := if prefix == PathPrefix then "path" else "url";
    assert prefix == "\t" + key + " = ";
    var rest := line[|prefix|..];
    assert line == "\t" + key + " = " + rest;
    ValueAfterKey(key, rest);
  }

  /** The third field of `\t<key> = <rest>`, for a key without spaces */
  lemma ValueAfterKey(key: string, rest: string)
    requires ' ' !in key
    ensures Value("\t" + key + " = " + rest) == Some(RStrip(Split(rest, ' ')[0]))
  {
    var line := "\t" + key + " = " + rest;
    assert line == ("\t" + key) + [' '] + ("=" + [' '] + rest);
    SplitAfter("\t" + key, ' ', "=" + [' '] + rest);
    SplitAfter("=", ' ', rest);
  }

  /**
   * A clean value written after its prefix is read back unchanged, whether
   * or not the line still ends in the newline `readlines` keeps.
   */
  lemma ValueOfCleanLine(prefix: string, v: string, nl: string)
    requires prefix == PathPrefix || prefix == UrlPrefix
    requires Clean(v) && (nl == "" || nl == "\n")
    ensures Value(prefix + v + nl) == Some(v)
  {
    var line := prefix + v;
    CleanValue(prefix, v);
    if nl != "" {
      ValueNewline(line);
    } else {
      assert line + nl == line;
    }
  }

  lemma CleanValue(prefix: string, v: string)
    requires prefix == PathPrefix || prefix == UrlPrefix
    requires Clean(v)
    ensures Value(prefix + v) == Some(v)
  {
    var line := prefix + v;
    assert line[..|prefix|] == prefix;
    ValueAfterPrefix(line, prefix);
    assert line[|prefix|..] == v;
    assert forall i :: 0 <= i < |v| ==> v[i] != ' ';
    assert Split(v, ' ') == [v];
  }

  /** The trailing newline never changes a value: `rstrip` removes it. */
  lemma ValueNewline(line: string)
    ensures Value(line + "\n") == Value(line)
  {
    SplitSnoc(line, ' ', '\n');
    var p, q := Split(line, ' '), Split(line + "\n", ' ');
    if |p| >= 3 {
      if 2 < |p| - 1 {
        assert q[2] == q[..|q| - 1][2] == p[..|p| - 1][2] == p[2];
      } else {
        RStripNewline(p[2]);
      }
    }
  }

  /** The trailing newline never changes what a line does to the scan. */
  lemma StepNewline(st: Scan, line: string)
    ensures Step(st, line + "\n") == Step(st, line)
  {
    StartsWithNewline(line, Header);
    StartsWithNewline(line, PathPrefix);
    StartsWithNewline(line, UrlPrefix);
    SplitSnoc(line, '"', '\n');
    ValueNewline(line);
  }

  /**
   * `raw` holds the lines of `lines`, each one as it is or followed by a
   * newline: every rendering `readlines` can give of a file whose lines,
   * newlines dropped, are `lines` (every line but the last keeps its `\n`).
   */
  predicate Terminated(raw: seq<string>, lines: seq<string>) {
    |raw| == |lines| && forall i :: 0 <= i < |raw| ==> raw[i] == lines[i] || raw[i] == lines[i] + "\n"
  }

  lemma TerminatedSplit(raw: seq<string>, a: seq<string>, b: seq<string>)
    requires Terminated(raw, a + b)
    ensures Terminated(raw[..|a|], a) && Terminated(raw[|a|..], b)
    ensures raw == raw[..|a|] + raw[|a|..]
  {
    forall i | 0 <= i < |b| ensures raw[|a|..][i] == b[i] || raw[|a|..][i] == b[i] + "\n" {
      assert (a + b)[|a| + i] == b[i];
    }
    forall i | 0 <= i < |a| ensures raw[..|a|][i] == a[i] || raw[..|a|][i] == a[i] + "\n" {
      assert (a + b)[i] == a[i];
    }
  }

  /** The scan over the lines `readlines` yields is the scan over the bare lines. */
  lemma {:induction false} RunTerminated(st: Scan, raw: seq<string>, lines: seq<string>)
    requires Terminated(raw, lines)
    ensures Run(st, raw) == Run(st, lines)
    decreases |lines|
  {
    if lines != [] {
      if raw[0] != lines[0] {
        StepNewline(st, lines[0]);
      }
      assert Terminated(raw[1..], lines[1..]) by {
        assert forall i :: 0 <= i < |raw[1..]| ==> raw[1..][i] == raw[i + 1] && lines[1..][i] == lines[i + 1];
      }
      match Step(st, lines[0])
      case Raised(o) =>
      case Done(next) => RunTerminated(next, raw[1..], lines[1..]);
    }
  }

  /** Whether the lines keep their newlines or not, the parser returns the same list. */
  lemma ParsedTerminated(raw: seq<string>, lines: seq<string>)
    requires Terminated(raw, lines)
    ensures Parsed(Some(raw)) == Parsed(Some(lines))
  {
    RunTerminated(Start, raw, lines);
  }

  /**
   * One `[submodule "name"]` block: a header, a `path` line and, when
   * `url` is present, a `url` line.
   */
  datatype Block = Block(name: string, path: string, url: Option<string>)

  function HeaderLine(name: string): string {
    Header + "\"" + name + "\"]"
  }

  function BlockLines(b: Block): seq<string> {
    [HeaderLine(b.name), PathPrefix + b.path]
    + (if b.url.Some? then [UrlPrefix + b.url.value] else [])
  }

  function Lines(blocks: seq<Block>): seq<string>
    decreases |blocks|
  {
    if blocks == [] then [] else BlockLines(blocks[0]) + Lines(blocks[1..])
  }

  /** Values Python reads back unchanged: no whitespace */
  predicate WellFormed(blocks: seq<Block>) {
    forall b :: b in blocks ==> Clean(b.path) && (b.url.Some? ==> Clean(b.url.value))
  }

  /**
   * The records a file of blocks should give, in file order; a block without
   * a `url` line carries the url of the block before it (`url` starts as
   * the accumulator's value before the first block).
   */
  function Expected(blocks: seq<Block>, url: Option<string>): (r: seq<Record>)
    ensures |r| == |blocks|
    decreases |blocks|
  {
    if blocks == [] then []
    else
      var u := if blocks[0].url.Some? then blocks[0].url else url;
      [Record(Some(blocks[0].path), u)] + Expected(blocks[1..], u)
  }

  /** A quoted header, with or without its newline, emits the pending record when a path has been seen. */
  lemma HeaderStep(st: Scan, name: string, nl: string)
    requires nl == "" || nl == "\n"
    ensures Step(st, HeaderLine(name) + nl)
            == Done(st.(out := if st.path.Some? then st.out + [Record(st.path, st.url)] else st.out))
  {
    var h := HeaderLine(name);
    assert h[..|Header|] == Header;
    assert h[|Header|] == '"';
    SplitHasSecond(h, '"');
    if nl != "" {
      StepNewline(st, h);
    }
  }

  /** A clean `path` line, with or without its newline, sets the path accumulator. */
  lemma PathStep(st: Scan, v: string, nl: string)
    requires Clean(v) && (nl == "" || nl == "\n")
    ensures Step(st, PathPrefix + v + nl) == Done(st.(path := Some(v)))
  {
    var p := PathPrefix + v;
    assert StartsWith(p, PathPrefix) by {
      assert p[..|PathPrefix|] == PathPrefix;
    }
    assert !StartsWith(p, Header) by {
      assert |Header| <= |p| ==> p[..|Header|][0] == p[0];
    }
    assert Value(p) == Some(v) by {
      ValueOfCleanLine(PathPrefix, v, "");
      assert p + "" == p;
    }
    if nl != "" {
      StepNewline(st, p);
    } else {
      assert p + nl == p;
    }
  }

  /** A clean `url` line, with or without its newline, sets the url accumulator. */
  lemma UrlStep(st: Scan, v: string, nl: string)
    requires Clean(v) && (nl == "" || nl == "\n")
    ensures Step(st, UrlPrefix + v + nl) == Done(st.(url := Some(v)))
  {
    var q := UrlPrefix + v;
    assert Step(st, q) == Done(st.(url := Some(v))) by {
      assert StartsWith(q, UrlPrefix) by {
        assert q[..|UrlPrefix|] == UrlPrefix;
      }
      assert !StartsWith(q, Header) by {
        assert |Header| <= |q| ==> q[..|Header|][0] == q[0];
      }
      assert !StartsWith(q, PathPrefix) by {
        assert |PathPrefix| <= |q| ==> q[..|PathPrefix|][1] == q[1];
      }
      assert Value(q) == Some(v) by {
        ValueOfCleanLine(UrlPrefix, v, "");
        assert q + "" == q;
      }
    }
    if nl != "" {
      StepNewline(st, q);
    } else {
      assert q + nl == q;
    }
  }

  /** Running from a line that steps without raising */
  lemma RunCons(st: Scan, x: string, rest: seq<string>, next: Scan)
    requires Step(st, x) == Done(next)
    ensures Run(st, [x] + rest) == Run(next, rest)
  {
    assert ([x] + rest)[1..] == rest;
  }

  /** The state after one block: the block's path, its url or the previous one, and the pending record emitted */
  function AfterBlock(st: Scan, b: Block): Scan {
    Scan(Some(b.path), if b.url.Some? then b.url else st.url,
         if st.path.Some? then st.out + [Record(st.path, st.url)] else st.out)
  }

  /** The lines of one block, as `readlines` yields them, move the state to that block's path and url. */
  lemma {:induction false} RunBlock(st: Scan, b: Block, raw: seq<string>)
    requires Clean(b.path) && (b.url.Some? ==> Clean(b.url.value))
    requires Terminated(raw, BlockLines(b))
    ensures Run(st, raw) == Done(AfterBlock(st, b))
  {
    RunTerminated(st, raw, BlockLines(b));
    var out := if st.path.Some? then st.out + [Record(st.path, st.url)] else st.out;
    var s1 := st.(out := out);
    var s2 := s1.(path := Some(b.path));
    var h, p := HeaderLine(b.name), PathPrefix + b.path;
    HeaderStep(st, b.name, "");
    PathStep(s1, b.path, "");
    assert h + "" == h && p + "" == p;
    var tail := if b.url.Some? then [UrlPrefix + b.url.value] else [];
    assert BlockLines(b) == [h] + ([p] + tail);
    RunCons(st, h, [p] + tail, s1);
    RunCons(s1, p, tail, s2);
    if b.url.Some? {
      var q := UrlPrefix + b.url.value;
      UrlStep(s2, b.url.value, "");
      assert q + "" == q;
      RunCons(s2, q, [], s2.(url := b.url));
    }
  }

  /** The lines of a non-empty list of blocks: the first block's, then the rest's */
  lemma LinesCons(blocks: seq<Block>)
    requires blocks != []
    ensures Lines(blocks) == BlockLines(blocks[0]) + Lines(blocks[1..])
  {
  }

  /** From a state that already holds a path, blocks append their records in order. */
  lemma {:induction false} FinishBlocks(st: Scan, blocks: seq<Block>, raw: seq<string>)
    requires st.path.Some?
    requires WellFormed(blocks) && Terminated(raw, Lines(blocks))
    ensures Finish(Run(st, raw)) == st.out + [Record(st.path, st.url)] + Expected(blocks, st.url)
    decreases |blocks|
  {
    if blocks != [] {
      var b := blocks[0];
      assert b in blocks;
      var n := |BlockLines(b)|;
      LinesCons(blocks);
      TerminatedSplit(raw, BlockLines(b), Lines(blocks[1..]));
      RunAppend(st, raw[..n], raw[n..]);
      RunBlock(st, b, raw[..n]);
      WellFormedTail(blocks);
      FinishBlocks(AfterBlock(st, b), blocks[1..], raw[n..]);
    }
  }

  /**
   * A readable file of k >= 1 well-formed blocks gives exactly k records,
   * in file order, each carrying its block's path and url (or the url
   * inherited from the block before), whether or not its lines keep their
   * newlines.
   */
  lemma {:induction false} ParsedBlocks(blocks: seq<Block>, raw: seq<string>)
    requires |blocks| >= 1 && WellFormed(blocks)
    requires Terminated(raw, Lines(blocks))
    ensures Parsed(Some(raw)) == Expected(blocks, None)
  {
    var b, rest := blocks[0], blocks[1..];
    var n := |BlockLines(b)|;
    var next := Scan(Some(b.path), b.url, []);
    FirstBlock(blocks, raw);
    WellFormedTail(blocks);
    LinesCons(blocks);
    TerminatedSplit(raw, BlockLines(b), Lines(rest));
    FinishBlocks(next, rest, raw[n..]);
    ExpectedCons(blocks);
  }

  /** `Expected` unfolded once */
  lemma ExpectedCons(blocks: seq<Block>)
    requires |blocks| >= 1
    ensures Expected(blocks, None) == [] + [Record(Some(blocks[0].path), blocks[0].url)] + Expected(blocks[1..], blocks[0].url)
  {
  }

  lemma WellFormedTail(blocks: seq<Block>)
    requires |blocks| >= 1 && WellFormed(blocks)
    ensures WellFormed(blocks[1..])
  {
    forall c | c in blocks[1..] ensures c in blocks { }
  }

  /** The first block emits nothing: no path has been seen before it. */
  lemma {:induction false} FirstBlock(blocks: seq<Block>, raw: seq<string>)
    requires |blocks| >= 1 && WellFormed(blocks)
    requires Terminated(raw, Lines(blocks))
    ensures |BlockLines(blocks[0])| <= |raw|
    ensures Run(Start, raw) == Run(Scan(Some(blocks[0].path), blocks[0].url, []), raw[|BlockLines(blocks[0])|..])
  {
    var b := blocks[0];
    var n := |BlockLines(b)|;
    assert b in blocks;
    LinesCons(blocks);
    TerminatedSplit(raw, BlockLines(b), Lines(blocks[1..]));
    RunAppend(Start, raw[..n], raw[n..]);
    RunBlock(Start, b, raw[..n]);
  }

  /** Because the accumulators are never reset, a block without a url line repeats the previous url. */
  lemma {:induction false} UrlInherited(n1: string, p1: string, u1: string, n2: string, p2: string, raw: seq<string>)
    requires Clean(p1) && Clean(u1) && Clean(p2)
    requires Terminated(raw, BlockLines(Block(n1, p1, Some(u1))) + BlockLines(Block(n2, p2, None)))
    ensures Parsed(Some(raw)) == [Record(Some(p1), Some(u1)), Record(Some(p2), Some(u1))]
  {
    var blocks := [Block(n1, p1, Some(u1)), Block(n2, p2, None)];
    assert Lines(blocks[1..][1..]) == [];
    assert Lines(blocks) == BlockLines(blocks[0]) + BlockLines(blocks[1]);
    ParsedBlocks(blocks, raw);
  }

  /** The number of lines that start with the `[submodule ` header */
  function Headers(lines: seq<string>): nat
    decreases |lines|
  {
    if lines == [] then 0
    else (if StartsWith(lines[0], Header) then 1 else 0) + Headers(lines[1..])
  }

  /**
   * A header that lacks `"` ends the scan: the result is what was appended
   * before it, plus the pending record that header itself emitted, and no
   * final record.
   */
  lemma MissingQuoteAborts(pre: seq<string>, h: string, post: seq<string>, st: Scan)
    requires Run(Start, pre) == Done(st)
    requires StartsWith(h, Header) && '"' !in h
    ensures Parsed(Some(pre + [h] + post))
            == st.out + (if st.path.Some? then [Record(st.path, st.url)] else [])
  {
    SplitHasSecond(h, '"');
    assert pre + [h] + post == pre + ([h] + post);
    RunAppend(Start, pre, [h] + post);
    assert ([h] + post)[0] == h;
  }

  /** With no `path` line, no header ever emits: at most the one final record, whose path is `None`. */
  lemma {:induction false} NoPathNoEmit(st: Scan, lines: seq<string>)
    requires st.path.None? && st.out == []
    requires forall i :: 0 <= i < |lines| ==> !StartsWith(lines[i], PathPrefix)
    ensures Run(st, lines).Raised? ==> Run(st, lines).out == []
    ensures Run(st, lines).Done? ==> Run(st, lines).st.path.None? && Run(st, lines).st.out == []
    decreases |lines|
  {
    if lines != [] {
      match Step(st, lines[0])
      case Raised(o) =>
      case Done(next) =>
        assert forall i :: 0 <= i < |lines[1..]| ==> lines[1..][i] == lines[i + 1];
        NoPathNoEmit(next, lines[1..]);
    }
  }

  /** A readable file with no `path` line gives at most one record, and that record's path is `None`. */
  lemma ParsedWithoutPath(lines: seq<string>)
    requires forall i :: 0 <= i < |lines| ==> !StartsWith(lines[i], PathPrefix)
    ensures |Parsed(Some(lines))| <= 1
    ensures forall r :: r in Parsed(Some(lines)) ==> r.path.None?
  {
    NoPathNoEmit(Start, lines);
  }

  /** Neither a path nor a url line, every header quoted: exactly one record, `(None, None)`. */
  lemma {:induction false} ParsedWithoutValues(lines: seq<string>)
    requires forall i :: 0 <= i < |lines| ==>
               !StartsWith(lines[i], PathPrefix) && !StartsWith(lines[i], UrlPrefix)
               && (StartsWith(lines[i], Header) ==> '"' in lines[i])
    ensures Parsed(Some(lines)) == [Record(None, None)]
    decreases |lines|
  {
    if lines != [] {
      SplitHasSecond(lines[0], '"');
      assert Step(Start, lines[0]) == Done(Start);
      assert forall i :: 0 <= i < |lines[1..]| ==> lines[1..][i] == lines[i + 1];
      ParsedWithoutValues(lines[1..]);
    }
  }

  /** Any line that is not a header, path or url line is ignored wherever it appears. */
  lemma OtherLineIgnored(a: seq<string>, x: string, b: seq<string>)
    requires !StartsWith(x, Header) && !StartsWith(x, PathPrefix) && !StartsWith(x, UrlPrefix)
    ensures Parsed(Some(a + [x] + b)) == Parsed(Some(a + b))
  {
    assert a + [x] + b == a + ([x] + b);
    RunAppend(Start, a, [x] + b);
    RunAppend(Start, a, b);
    assert ([x] + b)[1..] == b;
  }

  /** The result never has more records than header lines plus one. */
  lemma {:induction false} RecordsBound(st: Scan, lines: seq<string>)
    ensures |Finish(Run(st, lines))| <= |st.out| + Headers(lines) + 1
    decreases |lines|
  {
    if lines != [] {
      match Step(st, lines[0])
      case Raised(o) =>
      case Done(next) => RecordsBound(next, lines[1..]);
    }
  }
}
