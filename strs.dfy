/** The usual Option datatype, for values the source leaves at `None`. */
module Wrappers {
  datatype Option<+T> = None | Some(value: T) {
    function GetOr(default: T): T {
      match this
      case Some(v) => v
      case None => default
    }
  }
}

/**
 * The string primitives the scripts rely on, with the semantics of Python's
 * `str` methods (`startswith`, `find`, `rfind`, `split`, `rstrip`, `replace`,
 * slicing with negative bounds, `str(int)`) and of C++'s `starts_with`.
 */
module Strs {

  predicate StartsWith(s: string, p: string) {
    |p| <= |s| && s[..|p|] == p
  }

  /** `sub` occurs in `s` at index `i` */
  predicate OccursAt(s: string, sub: string, i: int) {
    0 <= i && i + |sub| <= |s| && s[i..i + |sub|] == sub
  }

  /** Python's `sub in s` */
  predicate Contains(s: string, sub: string) {
    exists i :: 0 <= i <= |s| - |sub| && OccursAt(s, sub, i)
  }

  /** Python's `s.find(sub, i)` for `0 <= i`: the lowest index `>= i` at which `sub` occurs, or -1 */
  function FindFrom(s: string, sub: string, i: nat): (r: int)
    ensures r == -1 || (i <= r && OccursAt(s, sub, r))
    ensures r == -1 ==> forall j :: i <= j ==> !OccursAt(s, sub, j)
    ensures forall j :: i <= j < r ==> !OccursAt(s, sub, j)
    decreases |s| - i
  {
    if i + |sub| > |s| then -1
    else if s[i..i + |sub|] == sub then i
    else FindFrom(s, sub, i + 1)
  }

  /** Python's `s.find(sub)` */
  function Find(s: string, sub: string): (r: int)
    ensures r == -1 <==> !Contains(s, sub)
    ensures r >= 0 ==> OccursAt(s, sub, r) && forall j :: 0 <= j < r ==> !OccursAt(s, sub, j)
  {
    FindFrom(s, sub, 0)
  }

  /** The first occurrence is the one `Find` reports. */
  lemma FindIs(s: string, sub: string, i: int)
    requires OccursAt(s, sub, i)
    requires forall j :: 0 <= j < i ==> !OccursAt(s, sub, j)
    ensures Find(s, sub) == i
  {
    assert Contains(s, sub);
  }

  /** Python's normalisation of a slice bound `i` against a length `n` */
  function Clamp(i: int, n: nat): (r: nat)
    ensures r <= n
    ensures 0 <= i <= n ==> r == i
    ensures i < 0 && 0 <= i + n ==> r == i + n
    ensures i + n < 0 ==> r == 0
    ensures i > n ==> r == n
  {
    if i < 0 then (if i + n < 0 then 0 else i + n)
    else if i > n then n
    else i
  }

  /** The last index in `[lo, hi)` holding `c`, or -1 */
  function LastIndexIn(s: string, c: char, lo: nat, hi: nat): (r: int)
    requires lo <= hi <= |s|
    ensures r == -1 || (lo <= r < hi && s[r] == c)
    ensures r == -1 ==> forall j :: lo <= j < hi ==> s[j] != c
    ensures forall j :: r < j < hi && lo <= j ==> s[j] != c
    decreases hi - lo
  {
    if hi == lo then -1
    else if s[hi - 1] == c then hi - 1
    else LastIndexIn(s, c, lo, hi - 1)
  }

  /** Python's `s.rfind(c, start, end)` for a one-character `c` */
  function RFind(s: string, c: char, start: int, end: int): (r: int)
    ensures -1 <= r < |s|
    ensures r >= 0 ==> Clamp(start, |s|) <= r < Clamp(end, |s|) && s[r] == c
    ensures r == -1 ==> forall j :: Clamp(start, |s|) <= j < Clamp(end, |s|) ==> s[j] != c
    ensures forall j :: r < j < Clamp(end, |s|) && Clamp(start, |s|) <= j ==> s[j] != c
  {
    var lo, hi := Clamp(start, |s|), Clamp(end, |s|);
    if lo > hi then -1 else LastIndexIn(s, c, lo, hi)
  }

  /** Python's `s[:i]` */
  function Take(s: string, i: int): string {
    s[..Clamp(i, |s|)]
  }

  /** Python's `s[i:]` */
  function Drop(s: string, i: int): string {
    s[Clamp(i, |s|)..]
  }

  /** The index of the first `c` in `s`, or -1 */
  function IndexOf(s: string, c: char): (r: int)
    ensures -1 <= r < |s|
    ensures r == -1 <==> c !in s
    ensures 0 <= r ==> s[r] == c && c !in s[..r]
  {
    if |s| == 0 then -1
    else if s[0] == c then 0
    else
      var k := IndexOf(s[1..], c);
      assert s[1..][..(if k < 0 then 0 else k)] == s[1..1 + (if k < 0 then 0 else k)];
      if k < 0 then -1 else k + 1
  }

  /** The inverse of `Split`: the parts with `c` between consecutive ones */
  function Join(parts: seq<string>, c: char): string
    requires |parts| >= 1
  {
    if |parts| == 1 then parts[0] else parts[0] + [c] + Join(parts[1..], c)
  }

  /** Python's `s.split(c)` for a one-character separator */
  function Split(s: string, c: char): (r: seq<string>)
    ensures |r| >= 1
    ensures forall k :: 0 <= k < |r| ==> c !in r[k]
    decreases |s|
  {
    var i := IndexOf(s, c);
    if i < 0 then [s]
    else [s[..i]] + Split(s[i + 1..], c)
  }

  /** Joining the parts of a split with the separator gives back the input. */
  lemma {:induction false} SplitJoin(s: string, c: char)
    ensures Join(Split(s, c), c) == s
    decreases |s|
  {
    var i := IndexOf(s, c);
    if i >= 0 {
      SplitAt(s, c, i);
      SplitJoin(s[i + 1..], c);
      JoinCons(s[..i], Split(s[i + 1..], c), c);
      assert s == s[..i] + [c] + s[i + 1..];
    }
  }

  lemma JoinCons(a: string, rest: seq<string>, c: char)
    requires |rest| >= 1
    ensures Join([a] + rest, c) == a + [c] + Join(rest, c)
  {
    assert ([a] + rest)[1..] == rest;
  }

  /** There is a second field exactly when the separator occurs. */
  lemma SplitHasSecond(s: string, c: char)
    ensures |Split(s, c)| >= 2 <==> c in s
  {
  }

  /** Splitting after a first field that holds no separator. */
  lemma {:induction false} SplitAfter(a: string, c: char, b: string)
    requires c !in a
    ensures Split(a + [c] + b, c) == [a] + Split(b, c)
  {
    var s := a + [c] + b;
    var i := IndexOf(s, c);
    assert s[|a|] == c;
    assert s[..|a|] == a;
    assert i <= |a| ==> s[..i] == a[..i];
    assert s[|a| + 1..] == b;
  }

  /** A character other than `c` appended at the end does not move the first `c`. */
  lemma IndexOfSnoc(s: string, c: char, ch: char)
    requires ch != c
    ensures IndexOf(s + [ch], c) == IndexOf(s, c)
    decreases |s|
  {
    if s != [] && s[0] != c {
      assert (s + [ch])[1..] == s[1..] + [ch];
      IndexOfSnoc(s[1..], c, ch);
    }
  }

  /** `Split` unfolded once, at the first separator */
  lemma SplitAt(s: string, c: char, i: int)
    requires i == IndexOf(s, c) && i >= 0
    ensures Split(s, c) == [s[..i]] + Split(s[i + 1..], c)
  {
  }

  /** `q` is `p` with `ch` appended to its last element */
  predicate LastGrown(p: seq<string>, q: seq<string>, ch: char) {
    |p| >= 1 && |q| == |p| && q[..|q| - 1] == p[..|p| - 1] && q[|q| - 1] == p[|p| - 1] + [ch]
  }

  lemma ConsLastGrown(a: string, p: seq<string>, q: seq<string>, ch: char)
    requires LastGrown(p, q, ch)
    ensures LastGrown([a] + p, [a] + q, ch)
  {
    assert ([a] + q)[..|q|] == [a] + q[..|q| - 1];
    assert ([a] + p)[..|p|] == [a] + p[..|p| - 1];
  }

  /**
   * A character other than the separator appended at the end joins the last
   * field and leaves the others, and their number, as they were.
   */
  lemma {:induction false} SplitSnoc(s: string, c: char, ch: char)
    requires ch != c
    ensures LastGrown(Split(s, c), Split(s + [ch], c), ch)
    decreases |s|
  {
    var i := IndexOf(s, c);
    IndexOfSnoc(s, c, ch);
    if i >= 0 {
      SplitSnoc(s[i + 1..], c, ch);
      SplitAt(s, c, i);
      SplitSnocAt(s, c, ch, i);
      ConsLastGrown(s[..i], Split(s[i + 1..], c), Split(s[i + 1..] + [ch], c), ch);
    } else {
      SplitSnocNone(s, c, ch);
    }
  }

  lemma SplitSnocNone(s: string, c: char, ch: char)
    requires ch != c && c !in s
    ensures LastGrown(Split(s, c), Split(s + [ch], c), ch)
  {
    assert c !in s + [ch];
  }

  /** With `ch` appended, the first field is the same and the rest is split with `ch` appended. */
  lemma SplitSnocAt(s: string, c: char, ch: char, i: int)
    requires i == IndexOf(s + [ch], c) && 0 <= i < |s|
    ensures Split(s + [ch], c) == [s[..i]] + Split(s[i + 1..] + [ch], c)
  {
    var t := s + [ch];
    SplitAt(t, c, i);
    assert t[..i] == s[..i];
    assert t[i + 1..] == s[i + 1..] + [ch];
  }

  /** `rstrip()` removes a trailing newline along with the whitespace before it. */
  lemma RStripNewline(s: string)
    ensures RStrip(s + "\n") == RStrip(s)
  {
    assert (s + "\n")[..|s|] == s;
  }

  /** Appending a newline keeps whether a line starts with a prefix that does not end in one. */
  lemma StartsWithNewline(line: string, p: string)
    requires |p| >= 1 && p[|p| - 1] != '\n'
    ensures StartsWith(line + "\n", p) <==> StartsWith(line, p)
  {
    var t := line + "\n";
    if |p| <= |line| {
      assert t[..|p|] == line[..|p|];
    } else if |p| == |t| {
      assert t[|p| - 1] == '\n';
      assert t[..|p|][|p| - 1] == t[|p| - 1];
    }
  }

  /** Python's `ch.isspace()`, the characters `rstrip()` removes */
  predicate IsSpace(ch: char) {
    ('\t' <= ch <= '\r') || ('\U{1C}' <= ch <= ' ') || ch == '\U{85}' || ch == '\U{A0}'
    || ch == '\U{1680}' || ('\U{2000}' <= ch <= '\U{200A}') || ch == '\U{2028}' || ch == '\U{2029}'
    || ch == '\U{202F}' || ch == '\U{205F}' || ch == '\U{3000}'
  }

  /** Python's `s.rstrip()`: the longest prefix of `s` not ending in whitespace */
  function RStrip(s: string): (r: string)
    ensures |r| <= |s| && r == s[..|r|]
    ensures r == [] || !IsSpace(r[|r| - 1])
    ensures forall i :: |r| <= i < |s| ==> IsSpace(s[i])
    decreases |s|
  {
    if s != [] && IsSpace(s[|s| - 1]) then RStrip(s[..|s| - 1]) else s
  }

  /** No whitespace at all: the values a well-formed file carries */
  predicate Clean(s: string) {
    forall i :: 0 <= i < |s| ==> !IsSpace(s[i])
  }

  /** Python's `s.replace(c, "")` */
  function RemoveAll(s: string, c: char): (r: string)
    ensures c !in r
    ensures multiset(r) == multiset(s)[c := 0]
    ensures c !in s ==> r == s
  {
    if s == [] then []
    else
      assert s == [s[0]] + s[1..];
      if s[0] == c then RemoveAll(s[1..], c)
      else [s[0]] + RemoveAll(s[1..], c)
  }

  /** Removing from a concatenation removes from each part, in order. */
  lemma {:induction false} RemoveAllAppend(a: string, b: string, c: char)
    ensures RemoveAll(a + b, c) == RemoveAll(a, c) + RemoveAll(b, c)
    decreases |a|
  {
    if a != [] {
      assert (a + b)[0] == a[0];
      assert (a + b)[1..] == a[1..] + b;
      RemoveAllAppend(a[1..], b, c);
    } else {
      assert a + b == b;
    }
  }

  /** Python's `s.replace(c, d)` for one-character arguments */
  function ReplaceAll(s: string, c: char, d: char): (r: string)
    ensures |r| == |s|
    ensures forall i :: 0 <= i < |s| ==> r[i] == if s[i] == c then d else s[i]
    ensures c != d ==> c !in r
    ensures forall ch :: ch in r ==> ch in s || ch == d
  {
    if s == [] then []
    else [if s[0] == c then d else s[0]] + ReplaceAll(s[1..], c, d)
  }

  function Digit(d: nat): (ch: char)
    requires d < 10
    ensures '0' <= ch <= '9' && ch as int - '0' as int == d
  {
    ('0' as int + d) as char
  }

  /** The number a string of decimal digits spells */
  function DigitsValue(r: string): nat
    requires forall i :: 0 <= i < |r| ==> '0' <= r[i] <= '9'
    decreases |r|
  {
    if r == [] then 0
    else DigitsValue(r[..|r| - 1]) * 10 + (r[|r| - 1] as int - '0' as int)
  }

  /** Python's `str(n)` for a natural number: its decimal digits, without leading zeros */
  function Decimal(n: nat): (r: string)
    ensures 1 <= |r|
    ensures forall i :: 0 <= i < |r| ==> '0' <= r[i] <= '9'
    ensures DigitsValue(r) == n
    ensures n > 0 ==> r[0] != '0'
    decreases n
  {
    if n < 10 then [Digit(n)]
    else
      var h := Decimal(n / 10);
      var r := h + [Digit(n % 10)];
      assert r[..|r| - 1] == h;
      r
  }

  /** Distinct numbers print differently. */
  lemma DecimalInjective(m: nat, n: nat)
    requires Decimal(m) == Decimal(n)
    ensures m == n
  {
    assert m == DigitsValue(Decimal(m));
  }
}
