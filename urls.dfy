/**
 * `resolve_url` of git_repo.py and the rewrite of a submodule url that
 * feeds it. Each pass of the loop finds the first `..`, then the last `/`
 * before the character preceding it (Python's `rfind` with end `loc - 1`,
 * which for `loc == 0` is -1 and so means "up to the last character"), and
 * keeps `url[:prev] + url[loc+2:]`; with `prev == -1`, `url[:prev]` is
 * everything but the last character.
 */
module Urls {
  import opened Strs

  const Dots := ".."

  /** The first `..` of a url that has one */
  function DotsAt(u: string): (loc: nat)
    requires Contains(u, Dots)
    ensures loc + 2 <= |u| && u[loc] == '.' && u[loc + 1] == '.'
  {
    var loc := Find(u, Dots);
    assert u[loc..loc + 2][0] == u[loc] && u[loc..loc + 2][1] == u[loc + 1];
    loc
  }

  /** `url.rfind("/", 0, loc - 1)` */
  function SlashBefore(u: string): int
    requires Contains(u, Dots)
  {
    RFind(u, '/', 0, DotsAt(u) - 1)
  }

  /**
   * One pass of the loop body: the text before the `/` found, then the text
   * after the `..`; with no `/` found, Python's `url[:-1]` keeps all but the
   * last character.
   */
  function Pass(u: string): (r: string)
    requires Contains(u, Dots)
    ensures SlashBefore(u) >= 0 ==> r == u[..SlashBefore(u)] + u[DotsAt(u) + 2..]
    ensures SlashBefore(u) == -1 ==> r == u[..|u| - 1] + u[DotsAt(u) + 2..]
  {
    Take(u, SlashBefore(u)) + Drop(u, DotsAt(u) + 2)
  }

  /**
   * The inputs on which a pass does not shorten the url: no `/` before the
   * `..` while at least one character follows it, or a `..` at the very
   * start with a `/` somewhere after it.
   */
  predicate Stuck(u: string)
    requires Contains(u, Dots)
  {
    var loc, prev := DotsAt(u), SlashBefore(u);
    (prev == -1 && |u| >= loc + 3) || (loc == 0 && prev >= 0)
  }

  /** Every pass from `u` shortens the url until no `..` is left. */
  predicate Collapses(u: string)
    decreases |u|
  {
    !Contains(u, Dots) || (|Pass(u)| < |u| && Collapses(Pass(u)))
  }

  /** What `resolve_url` returns on an input on which it terminates */
  function Resolve(u: string): (r: string)
    requires Collapses(u)
    ensures !Contains(r, Dots)
    ensures |r| <= |u|
    decreases |u|
  {
    if !Contains(u, Dots) then u else Resolve(Pass(u))
  }

  /** The url after at most `k` passes of the loop */
  function Passes(u: string, k: nat): string
    decreases k
  {
    if k == 0 || !Contains(u, Dots) then u else Passes(Pass(u), k - 1)
  }

  /** The loop of `resolve_url`, on an input on which it terminates. */
  method ResolveUrl(url: string) returns (r: string)
    requires Collapses(url)
    ensures r == Resolve(url)
    ensures !Contains(r, Dots)
    ensures !Contains(url, Dots) ==> r == url
  {
    r := url;
    while Contains(r, Dots)
      invariant Collapses(r) && Resolve(r) == Resolve(url)
      decreases |r|
    {
      ghost var before := r;
      var loc := Find(r, Dots);
      var prev := RFind(r, '/', 0, loc - 1);
      r := Take(r, prev) + Drop(r, loc + 2);
      assert r == Pass(before) by {
        assert loc == DotsAt(before) && prev == SlashBefore(before);
      }
      ResolvePass(before);
    }
  }

  /** A pass keeps what the loop will return. */
  lemma ResolvePass(u: string)
    requires Collapses(u) && Contains(u, Dots)
    ensures |Pass(u)| < |u| && Collapses(Pass(u)) && Resolve(Pass(u)) == Resolve(u)
  {
  }

  // ---------------------------------------------------------------------
  // When does the loop terminate?

  /** A pass shortens the url exactly when the url is not stuck. */
  lemma ShortensUnlessStuck(u: string)
    requires Contains(u, Dots)
    ensures |Pass(u)| < |u| <==> !Stuck(u)
  {
    var n, loc, prev := |u|, DotsAt(u), SlashBefore(u);
    assert |Drop(u, loc + 2)| == n - loc - 2;
    if prev >= 0 {
      assert |Take(u, prev)| == prev;
      if loc == 0 {
        assert u[prev] == '/';
        assert prev >= 2;
      } else {
        assert prev < loc - 1;
      }
    } else {
      assert |Take(u, prev)| == n - 1;
    }
  }

  /** If the text up to and including the first `..` is kept, so is the position of that `..`. */
  lemma FirstDotsKept(u: string, v: string)
    requires Contains(u, Dots)
    requires DotsAt(u) + 2 <= |v| && v[..DotsAt(u) + 2] == u[..DotsAt(u) + 2]
    ensures Contains(v, Dots) && DotsAt(v) == DotsAt(u)
  {
    var loc := DotsAt(u);
    assert loc == Find(u, Dots);
    assert v[loc..loc + 2] == v[..loc + 2][loc..] == u[..loc + 2][loc..] == u[loc..loc + 2];
    forall j | 0 <= j < loc
      ensures !OccursAt(v, Dots, j)
    {
      assert v[j..j + 2] == v[..loc + 2][j..j + 2] == u[..loc + 2][j..j + 2] == u[j..j + 2];
      assert !OccursAt(u, Dots, j);
    }
    FindIs(v, Dots, loc);
  }

  /** A stuck url stays stuck after a pass. */
  lemma StuckPersists(u: string)
    requires Contains(u, Dots) && Stuck(u)
    ensures Contains(Pass(u), Dots) && Stuck(Pass(u))
  {
    if SlashBefore(u) == -1 {
      StuckWithoutSlash(u);
    } else {
      StuckAtStart(u);
    }
  }

  /**
   * No `/` before the `..`, and text after it: the pass keeps the first `..`
   * where it was, still with no `/` before it, so the url stays stuck.
   */
  lemma StuckWithoutSlash(u: string)
    requires Contains(u, Dots) && SlashBefore(u) == -1 && |u| >= DotsAt(u) + 3
    ensures Contains(Pass(u), Dots) && DotsAt(Pass(u)) == DotsAt(u) && SlashBefore(Pass(u)) == -1
    ensures Stuck(Pass(u))
  {
    var n, loc := |u|, DotsAt(u);
    var v := Pass(u);
    assert v == u[..n - 1] + u[loc + 2..];
    assert v[..loc + 2] == u[..loc + 2];
    FirstDotsKept(u, v);
    if loc >= 1 {
      assert forall j :: 0 <= j < loc - 1 ==> v[j] == u[j];
    } else {
      forall j | 0 <= j < |v| - 1
        ensures v[j] != '/'
      {
        if j < n - 1 {
          assert v[j] == u[j];
        } else {
          assert v[j] == u[j - n + 3];
        }
      }
    }
    assert SlashBefore(v) == -1;
  }

  /** A `..` at the start with a `/` after it: the pass keeps both, so the url stays stuck. */
  lemma StuckAtStart(u: string)
    requires Contains(u, Dots) && DotsAt(u) == 0 && SlashBefore(u) >= 0
    ensures Contains(Pass(u), Dots) && DotsAt(Pass(u)) == 0 && SlashBefore(Pass(u)) >= 0
    ensures Stuck(Pass(u))
  {
    var n, prev := |u|, SlashBefore(u);
    var v := Pass(u);
    assert u[prev] == '/';
    assert prev >= 2 && prev < n - 1;
    assert v == u[..prev] + u[2..];
    assert v[..2] == u[..2];
    FirstDotsKept(u, v);
    assert v[2 * prev - 2] == u[prev];
    assert SlashBefore(v) >= 0;
  }

  /** From a stuck url the loop never exits. */
  lemma {:induction false} StuckForever(u: string, k: nat)
    requires Contains(u, Dots) && Stuck(u)
    ensures Contains(Passes(u, k), Dots)
    decreases k
  {
    if k > 0 {
      StuckPersists(u);
      StuckForever(Pass(u), k - 1);
      PassesStep(u, k);
    }
  }

  /** One more pass is one pass, then the rest. */
  lemma PassesStep(u: string, k: nat)
    requires Contains(u, Dots) && k > 0
    ensures Passes(u, k) == Passes(Pass(u), k - 1)
  {
  }

  /** If the url does not collapse, the loop condition holds after every number of passes. */
  lemma {:induction false} NeverExits(u: string, k: nat)
    requires !Collapses(u)
    ensures Contains(Passes(u, k), Dots)
    decreases |u|, k
  {
    if k > 0 {
      if |Pass(u)| >= |u| {
        ShortensUnlessStuck(u);
        StuckForever(u, k);
      } else {
        NeverExits(Pass(u), k - 1);
        PassesStep(u, k);
      }
    }
  }

  /** If the url collapses, the loop exits, with `Resolve(u)`. */
  lemma {:induction false} Exits(u: string) returns (k: nat)
    requires Collapses(u)
    ensures Passes(u, k) == Resolve(u)
    decreases |u|
  {
    if !Contains(u, Dots) {
      k := 0;
    } else {
      ResolvePass(u);
      var k' := Exits(Pass(u));
      k := k' + 1;
      PassesStep(u, k);
    }
  }

  /** `Collapses` is exactly the set of inputs on which `resolve_url` returns. */
  lemma CollapsesIffExits(u: string)
    ensures Collapses(u) <==> exists k: nat :: !Contains(Passes(u, k), Dots)
  {
    if Collapses(u) {
      var k := Exits(u);
      assert !Contains(Passes(u, k), Dots);
    } else {
      forall k: nat ensures Contains(Passes(u, k), Dots) {
        NeverExits(u, k);
      }
    }
  }

  /** `../x` is a fixed point of a pass. */
  lemma RelativeFixedPoint(x: string)
    requires '/' !in x
    ensures Contains("../" + x, Dots) && Pass("../" + x) == "../" + x
  {
    var u := "../" + x;
    assert OccursAt(u, Dots, 0);
    FindIs(u, Dots, 0);
    assert u[2] == '/';
    assert forall j :: 2 < j < |u| - 1 ==> u[j] == x[j - 3];
  }

  /** Without a `/` before the `..` (as in an scp-like `host:repo/../a`), each pass makes the url longer. */
  lemma NoSlashGrows(u: string)
    requires Contains(u, Dots) && DotsAt(u) >= 1 && SlashBefore(u) == -1
    requires |u| >= DotsAt(u) + 4
    ensures |Pass(u)| > |u|
  {
  }

  // ---------------------------------------------------------------------
  // The rewrite of a submodule url (the body of the loop in `fun`)

  /**
   * A url starting with `../` is put after the parent url and a `/`; the
   * submodule url always stays whole at the end, and one without `..` is
   * left as it is.
   */
  function Absolutize(parent: string, sub: string): (r: string)
    ensures |sub| <= |r| && r[|r| - |sub|..] == sub
    ensures StartsWith(sub, "../") ==> StartsWith(r, parent + "/")
    ensures !Contains(sub, Dots) ==> r == sub
  {
    RelativeHasDots(sub);
    if StartsWith(sub, "../") then
      var r := parent + "/" + sub;
      assert r[..|parent| + 1] == parent + "/";
      r
    else sub
  }

  /** The rewrite of a submodule url against its parent's url. */
  method RewriteSubmoduleUrl(parent: string, sub: string) returns (r: string)
    requires Collapses(Absolutize(parent, sub))
    ensures r == Resolve(Absolutize(parent, sub))
    ensures !Contains(r, Dots)
    ensures !Contains(sub, Dots) ==> r == sub
  {
    r := sub;
    if StartsWith(r, "../") {
      r := parent + "/" + r;
    }
    assert r == Absolutize(parent, sub);
    if Contains(r, Dots) {
      r := ResolveUrl(r);
    }
    RelativeHasDots(sub);
  }

  /** A relative url has a `..`, so one without `..` is never put after its parent. */
  lemma RelativeHasDots(sub: string)
    ensures StartsWith(sub, "../") ==> Contains(sub, Dots)
  {
    if StartsWith(sub, "../") {
      assert OccursAt(sub, Dots, 0);
    }
  }

  /** Pairs of dots never straddle a `/`. */
  lemma NoDotsAround(a: string, b: string)
    requires !Contains(a, Dots) && !Contains(b, Dots)
    ensures !Contains(a + "/" + b, Dots)
  {
    var s := a + "/" + b;
    forall j | 0 <= j <= |s| - 2
      ensures !OccursAt(s, Dots, j)
    {
      if j + 2 <= |a| {
        assert s[j..j + 2] == a[j..j + 2];
        assert !OccursAt(a, Dots, j);
      } else if j >= |a| + 1 {
        assert s[j..j + 2] == b[j - |a| - 1..j - |a| + 1];
        assert !OccursAt(b, Dots, j - |a| - 1);
      } else {
        assert s[|a|] == '/';
      }
    }
  }

  /**
   * A sibling submodule: for a parent url `P/C` (with no `/` in `C`) and a
   * submodule url `../T`, the last path component of the parent is replaced
   * by `T` in one pass.
   */
  lemma SiblingUrl(p: string, c: string, t: string)
    requires !Contains(p, Dots) && !Contains(c, Dots) && !Contains(t, Dots)
    requires '/' !in c
    ensures Collapses(Absolutize(p + "/" + c, "../" + t))
    ensures Resolve(Absolutize(p + "/" + c, "../" + t)) == p + "/" + t
  {
    var u := p + "/" + c + "/" + ("../" + t);
    assert Absolutize(p + "/" + c, "../" + t) == u by {
      assert StartsWith("../" + t, "../");
    }
    SiblingPass(p, c, t);
    NoDotsAround(p, t);
  }

  /** One pass takes `P/C/../T` to `P/T`. */
  lemma SiblingPass(p: string, c: string, t: string)
    requires !Contains(p, Dots) && !Contains(c, Dots)
    requires '/' !in c
    ensures var u := p + "/" + c + "/" + ("../" + t);
            Contains(u, Dots) && Pass(u) == p + "/" + t
  {
    var u := p + "/" + c + "/" + ("../" + t);
    var loc := |p| + |c| + 2;
    assert Contains(u, Dots) && DotsAt(u) == loc by {
      SiblingDots(p, c, t);
    }
    assert SlashBefore(u) == |p| by {
      assert u[|p|] == '/';
      assert forall j :: |p| < j < loc - 1 ==> u[j] == c[j - |p| - 1];
    }
    assert u[..|p|] == p;
    assert u[loc + 2..] == "/" + t;
  }

  /** In `P/C/../T`, the first `..` is the one after `C/`. */
  lemma SiblingDots(p: string, c: string, t: string)
    requires !Contains(p, Dots) && !Contains(c, Dots)
    ensures var u := p + "/" + c + "/" + ("../" + t);
            Contains(u, Dots) && DotsAt(u) == |p| + |c| + 2
  {
    var head := p + "/" + c;
    var u := head + "/" + ("../" + t);
    var loc := |head| + 1;
    NoDotsAround(p, c);
    assert u == head + "/" + ".." + "/" + t;
    assert OccursAt(u, Dots, loc);
    forall j | 0 <= j < loc
      ensures !OccursAt(u, Dots, j)
    {
      if j + 2 <= |head| {
        assert u[j..j + 2] == head[j..j + 2];
        assert !OccursAt(head, Dots, j);
      } else {
        assert u[j..j + 2][|head| - j] == u[|head|] == '/';
      }
    }
    FindIs(u, Dots, loc);
  }
}
