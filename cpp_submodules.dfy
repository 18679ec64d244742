/**
 * `parse_submodules` of git_repo.cpp: a `while (std::getline(…))` loop over
 * a `switch (state)` whose `case 0` has no `break` and so falls into
 * `case 1`, and a final `if (state = 1)` that assigns instead of comparing.
 * Values are the whole remainder after the prefix, untrimmed, and the
 * `path`/`url` accumulators start empty and are never reset.
 */
module CppSubmodules {
  import opened Wrappers
  import opened Strs
  import Submodules

  const Header := Submodules.Header
  const PathPrefix := Submodules.PathPrefix
  const UrlPrefix := Submodules.UrlPrefix

  /** `struct submodule { path; url; }` */
  datatype Record = Record(path: string, url: string)

  /** The accumulators and the vector; `state` does not influence any of them */
  datatype Scan = Scan(path: string, url: string, out: seq<Record>)

  const Start := Scan("", "", [])

  /** The body of `case 1`, which every line reaches */
  function Step(st: Scan, line: string): Scan {
    if StartsWith(line, Header) then st.(out := st.out + [Record(st.path, st.url)])
    else if StartsWith(line, PathPrefix) then st.(path := line[|PathPrefix|..])
    else if StartsWith(line, UrlPrefix) then st.(url := line[|UrlPrefix|..])
    else st
  }

  function Run(st: Scan, lines: seq<string>): Scan
    decreases |lines|
  {
    if lines == [] then st else Run(Step(st, lines[0]), lines[1..])
  }

  /** The lines `getline` yields; a file that cannot be opened yields none */
  function LinesOf(file: Option<seq<string>>): seq<string> {
    match file
    case None => []
    case Some(lines) => lines
  }

  /** The vector returned: the records pushed by the loop, then the one pushed after it */
  function Parsed(file: Option<seq<string>>): seq<Record> {
    var st := Run(Start, LinesOf(file));
    st.out + [Record(st.path, st.url)]
  }

  /** The state machine as written, `state` included. */
  method ParseSubmodules(file: Option<seq<string>>) returns (submodules: seq<Record>)
    ensures submodules == Parsed(file)
  {
    var lines := LinesOf(file);
    submodules := [];
    var path, url := "", "";
    var state := 0;
    var i := 0;
    while i < |lines|
      invariant 0 <= i <= |lines|
      invariant state == 0 || state == 1
      invariant Run(Scan(path, url, submodules), lines[i..]) == Run(Start, lines)
    {
      var line := lines[i];
      assert lines[i..][1..] == lines[i + 1..];
      var entry := state;
      if entry == 0 {
        if StartsWith(line, Header) {
          state := 1;
        }
        // no `break`: control continues into the body of case 1
      }
      if entry == 0 || entry == 1 {
        if StartsWith(line, Header) {
          submodules := submodules + [Record(path, url)];
        } else if StartsWith(line, PathPrefix) {
          path := line[|PathPrefix|..];
        } else if StartsWith(line, UrlPrefix) {
          url := line[|UrlPrefix|..];
        }
      }
      i := i + 1;
    }
    state := 1;  // `if (state = 1)` assigns 1 and tests it
    if state != 0 {
      submodules := submodules + [Record(path, url)];
    }
  }

  // ---------------------------------------------------------------------
  // Properties

  lemma {:induction false} RunLength(st: Scan, lines: seq<string>)
    ensures |Run(st, lines).out| == |st.out| + Submodules.Headers(lines)
    decreases |lines|
  {
    if lines != [] {
      RunLength(Step(st, lines[0]), lines[1..]);
    }
  }

  /**
   * Every header line pushes one record and one more is always pushed at the
   * end, so empty or unopenable input gives exactly one record, `("", "")`.
   */
  lemma RecordCount(file: Option<seq<string>>)
    ensures |Parsed(file)| == Submodules.Headers(LinesOf(file)) + 1
    ensures LinesOf(file) == [] ==> Parsed(file) == [Record("", "")]
  {
    RunLength(Start, LinesOf(file));
  }

  lemma {:induction false} RunAppend(st: Scan, a: seq<string>, b: seq<string>)
    ensures Run(st, a + b) == Run(Run(st, a), b)
    decreases |a|
  {
    if a == [] {
      assert a + b == b;
    } else {
      assert (a + b)[0] == a[0];
      assert (a + b)[1..] == a[1..] + b;
      RunAppend(Step(st, a[0]), a[1..], b);
    }
  }

  /** Any line that is not a header, path or url line changes nothing, wherever it appears. */
  lemma OtherLineIgnored(a: seq<string>, x: string, b: seq<string>)
    requires !StartsWith(x, Header) && !StartsWith(x, PathPrefix) && !StartsWith(x, UrlPrefix)
    ensures Parsed(Some(a + [x] + b)) == Parsed(Some(a + b))
  {
    assert a + [x] + b == a + ([x] + b);
    RunAppend(Start, a, [x] + b);
    RunAppend(Start, a, b);
    assert ([x] + b)[1..] == b;
  }

  /** What a file of blocks gives after the leading record; `url` is inherited by url-less blocks. */
  function Expected(blocks: seq<Submodules.Block>, url: string): (r: seq<Record>)
    ensures |r| == |blocks|
    decreases |blocks|
  {
    if blocks == [] then []
    else
      var u := if blocks[0].url.Some? then blocks[0].url.value else url;
      [Record(blocks[0].path, u)] + Expected(blocks[1..], u)
  }

  /** The `path` and `url` lines of a block set the fields and push nothing. */
  lemma RunBlockBody(st: Scan, b: Submodules.Block)
    ensures Run(st, Submodules.BlockLines(b)[1..]) == Scan(b.path, b.url.GetOr(st.url), st.out)
  {
    var p := PathPrefix + b.path;
    assert p[..|PathPrefix|] == PathPrefix;
    assert |Header| <= |p| ==> p[..|Header|][0] == p[0];
    assert p[|PathPrefix|..] == b.path;
    var body := Submodules.BlockLines(b)[1..];
    assert body[0] == p;
    if b.url.Some? {
      var q := UrlPrefix + b.url.value;
      assert q[..|UrlPrefix|] == UrlPrefix;
      assert |Header| <= |q| ==> q[..|Header|][0] == q[0];
      assert |PathPrefix| <= |q| ==> q[..|PathPrefix|][1] == q[1];
      assert q[|UrlPrefix|..] == b.url.value;
      assert body[1..] == [q];
      var s1 := Step(st, p);
      assert Run(st, body) == Run(s1, [q]);
      assert s1 == Scan(b.path, st.url, st.out);
      assert !StartsWith(q, Header);
      assert !StartsWith(q, PathPrefix);
      assert StartsWith(q, UrlPrefix);
      assert Step(s1, q) == Scan(b.path, b.url.value, st.out);
      assert Run(s1, [q]) == Run(Step(s1, q), []);
    } else {
      assert body[1..] == [];
    }
  }

  /** A whole block pushes the pending record, then takes the block's path and url. */
  lemma RunBlock(st: Scan, b: Submodules.Block)
    ensures Run(st, Submodules.BlockLines(b))
            == Scan(b.path, b.url.GetOr(st.url), st.out + [Record(st.path, st.url)])
  {
    var h := Submodules.HeaderLine(b.name);
    assert h[..|Header|] == Header;
    var lines := Submodules.BlockLines(b);
    assert lines[0] == h;
    RunBlockBody(Step(st, h), b);
  }

  lemma {:induction false} RunBlocks(st: Scan, blocks: seq<Submodules.Block>)
    ensures var end := Run(st, Submodules.Lines(blocks));
            end.out + [Record(end.path, end.url)]
            == st.out + [Record(st.path, st.url)] + Expected(blocks, st.url)
    decreases |blocks|
  {
    if blocks != [] {
      var b := blocks[0];
      RunAppend(st, Submodules.BlockLines(b), Submodules.Lines(blocks[1..]));
      RunBlock(st, b);
      RunBlocks(Scan(b.path, b.url.GetOr(st.url), st.out + [Record(st.path, st.url)]), blocks[1..]);
    }
  }

  /**
   * Lines before the first header push nothing but still set the fields;
   * the result is one leading record holding whatever they set (empty when
   * nothing), then every block's path and url in file order.
   */
  lemma {:induction false} ParsedBlocks(pre: seq<string>, blocks: seq<Submodules.Block>)
    requires forall i :: 0 <= i < |pre| ==> !StartsWith(pre[i], Header)
    ensures var s := Run(Start, pre);
            Parsed(Some(pre + Submodules.Lines(blocks)))
            == [Record(s.path, s.url)] + Expected(blocks, s.url)
  {
    var s := Run(Start, pre);
    RunAppend(Start, pre, Submodules.Lines(blocks));
    RunLength(Start, pre);
    NoHeaders(pre);
    assert s.out == [];
    RunBlocks(s, blocks);
    assert Parsed(Some(pre + Submodules.Lines(blocks)))
           == s.out + [Record(s.path, s.url)] + Expected(blocks, s.url);
  }

  lemma {:induction false} NoHeaders(lines: seq<string>)
    requires forall i :: 0 <= i < |lines| ==> !StartsWith(lines[i], Header)
    ensures Submodules.Headers(lines) == 0
    decreases |lines|
  {
    if lines != [] {
      assert forall i :: 0 <= i < |lines[1..]| ==> lines[1..][i] == lines[i + 1];
      NoHeaders(lines[1..]);
    }
  }

  /** The C++ record for a Python record: `None` becomes the empty string. */
  function FromPython(r: Submodules.Record): Record {
    Record(r.path.GetOr(""), r.url.GetOr(""))
  }

  lemma {:induction false} ExpectedAgree(blocks: seq<Submodules.Block>, url: Option<string>)
    ensures Expected(blocks, url.GetOr(""))
            == seq(|blocks|, i requires 0 <= i < |blocks| => FromPython(Submodules.Expected(blocks, url)[i]))
    decreases |blocks|
  {
    if blocks != [] {
      var u := if blocks[0].url.Some? then blocks[0].url else url;
      ExpectedAgree(blocks[1..], u);
    }
  }

  /**
   * The two parsers agree on a well-formed file of k >= 1 blocks, the
   * Python one reading the lines with their newlines (`readlines`) and the
   * C++ one without (`getline`), except that the C++ one puts an extra
   * `("", "")` record first.
   */
  lemma {:induction false} ParsersAgree(blocks: seq<Submodules.Block>, raw: seq<string>)
    requires |blocks| >= 1 && Submodules.WellFormed(blocks)
    requires Submodules.Terminated(raw, Submodules.Lines(blocks))
    ensures var py := Submodules.Parsed(Some(raw));
            var cpp := Parsed(Some(Submodules.Lines(blocks)));
            |cpp| == |py| + 1 && cpp[0] == Record("", "")
            && forall i :: 0 <= i < |py| ==> cpp[i + 1] == FromPython(py[i])
  {
    Submodules.ParsedBlocks(blocks, raw);
    ParsedBlocks([], blocks);
    assert [] + Submodules.Lines(blocks) == Submodules.Lines(blocks);
    ExpectedAgree(blocks, None);
  }

  // ---------------------------------------------------------------------
  // The two quirks, against the evident intent: `break` after case 0 (so
  // the first header and the lines before it push nothing) and
  // `state == 1` (so no record is pushed when no header was seen).

  /** One block gives two records as written: the leading `("", "")` comes from the fall-through. */
  lemma {:induction false} OneBlockAsWritten(name: string, path: string, url: string)
    ensures Parsed(Some(Submodules.BlockLines(Submodules.Block(name, path, Some(url)))))
            == [Record("", ""), Record(path, url)]
  {
    var b := Submodules.Block(name, path, Some(url));
    ParsedBlocks([], [b]);
    assert [] + Submodules.Lines([b]) == Submodules.BlockLines(b);
  }

  /** An empty file gives one record as written: the assignment makes the final test true. */
  lemma EmptyFileAsWritten()
    ensures Parsed(Some([])) == [Record("", "")]
  {
    RecordCount(Some([]));
  }

  /** The intended machine's state: whether a header has been seen, and the accumulators */
  datatype Intended = Intended(inBlock: bool, st: Scan)

  function IntendedStep(m: Intended, line: string): Intended {
    if !m.inBlock then Intended(StartsWith(line, Header), m.st)
    else Intended(true, Step(m.st, line))
  }

  function IntendedRun(m: Intended, lines: seq<string>): Intended
    decreases |lines|
  {
    if lines == [] then m else IntendedRun(IntendedStep(m, lines[0]), lines[1..])
  }

  /** The vector the state machine evidently meant to return */
  function IntendedParsed(file: Option<seq<string>>): seq<Record> {
    var m := IntendedRun(Intended(false, Start), LinesOf(file));
    if m.inBlock then m.st.out + [Record(m.st.path, m.st.url)] else m.st.out
  }

  lemma {:induction false} IntendedRunIsRun(st: Scan, lines: seq<string>)
    ensures IntendedRun(Intended(true, st), lines) == Intended(true, Run(st, lines))
    decreases |lines|
  {
    if lines != [] {
      IntendedRunIsRun(Step(st, lines[0]), lines[1..]);
    }
  }

  /** With both corrections, a file of k blocks gives exactly its k records, in order. */
  lemma {:induction false} IntendedParsedBlocks(blocks: seq<Submodules.Block>)
    ensures IntendedParsed(Some(Submodules.Lines(blocks))) == Expected(blocks, "")
  {
    if blocks != [] {
      var b, rest := blocks[0], blocks[1..];
      IntendedFirstBlock(blocks);
      RunBlocks(Scan(b.path, b.url.GetOr(""), []), rest);
    }
  }

  /** The intended machine only leaves state 0 at the first header, then runs the block body. */
  lemma {:induction false} IntendedFirstBlock(blocks: seq<Submodules.Block>)
    requires blocks != []
    ensures IntendedRun(Intended(false, Start), Submodules.Lines(blocks))
            == Intended(true, Run(Scan(blocks[0].path, blocks[0].url.GetOr(""), []), Submodules.Lines(blocks[1..])))
  {
    var b, rest := blocks[0], blocks[1..];
    var h := Submodules.HeaderLine(b.name);
    var body := Submodules.BlockLines(b)[1..];
    var tail := body + Submodules.Lines(rest);
    calc {
      IntendedRun(Intended(false, Start), Submodules.Lines(blocks));
      { LinesSplit(blocks); }
      IntendedRun(Intended(false, Start), [h] + tail);
      { assert ([h] + tail)[1..] == tail; HeaderOpensBlock(b.name); }
      IntendedRun(Intended(true, Start), tail);
      { IntendedRunIsRun(Start, tail); }
      Intended(true, Run(Start, tail));
      { RunAppend(Start, body, Submodules.Lines(rest)); RunBlockBody(Start, b); }
      Intended(true, Run(Scan(b.path, b.url.GetOr(""), []), Submodules.Lines(rest)));
    }
  }

  /** The lines of a non-empty block list: the first header, the first body, the rest */
  lemma LinesSplit(blocks: seq<Submodules.Block>)
    requires blocks != []
    ensures Submodules.Lines(blocks)
            == [Submodules.HeaderLine(blocks[0].name)]
               + (Submodules.BlockLines(blocks[0])[1..] + Submodules.Lines(blocks[1..]))
  {
    var bl, ls := Submodules.BlockLines(blocks[0]), Submodules.Lines(blocks[1..]);
    assert Submodules.Lines(blocks) == bl + ls;
    assert bl[0] == Submodules.HeaderLine(blocks[0].name);
    ConsAppend(bl, ls);
  }

  lemma ConsAppend<T>(a: seq<T>, b: seq<T>)
    requires a != []
    ensures a + b == [a[0]] + (a[1..] + b)
  {
    assert a == [a[0]] + a[1..];
  }

  /** A header line moves the intended machine out of state 0 and changes nothing else. */
  lemma HeaderOpensBlock(name: string)
    ensures IntendedStep(Intended(false, Start), Submodules.HeaderLine(name)) == Intended(true, Start)
  {
    var h := Submodules.HeaderLine(name);
    assert h[..|Header|] == Header;
  }

  /** With both corrections, an empty or unopenable file gives no record. */
  lemma IntendedParsedEmpty(file: Option<seq<string>>)
    requires LinesOf(file) == []
    ensures IntendedParsed(file) == []
  {
  }

  /** With both corrections, the C++ parser agrees record for record with the Python one. */
  lemma {:induction false} IntendedAgreesWithPython(blocks: seq<Submodules.Block>, raw: seq<string>)
    requires |blocks| >= 1 && Submodules.WellFormed(blocks)
    requires Submodules.Terminated(raw, Submodules.Lines(blocks))
    ensures var py := Submodules.Parsed(Some(raw));
            var cpp := IntendedParsed(Some(Submodules.Lines(blocks)));
            |cpp| == |py| && forall i :: 0 <= i < |py| ==> cpp[i] == FromPython(py[i])
  {
    Submodules.ParsedBlocks(blocks, raw);
    IntendedParsedBlocks(blocks);
    ExpectedAgree(blocks, None);
  }
}
