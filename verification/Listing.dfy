/** The one-level listing of repos below a path. */
module Listing {
  import opened Wrappers

  /** A repo path: it starts with a slash, has no empty segment and no trailing slash. */
  predicate WellFormed(p: string) {
    && |p| > 1 && p[0] == '/' && p[|p| - 1] != '/'
    && forall i :: 0 < i < |p| ==> !(p[i - 1] == '/' && p[i] == '/')
  }

  predicate IsValidPath(path: string) {
    path == "/" || (|path| > 0 && path[0] == '/' && path[|path| - 1] != '/')
  }

  /** The path without the slash of the root. */
  function Base(path: string): string {
    if path == "/" then "" else path
  }

  // The regular expressions; the path is escaped and matches literally.

  /** `^<base>($|/)` */
  predicate Below(p: string, base: string) {
    base <= p && (|p| == |base| || p[|base|] == '/')
  }

  function FirstSlash(s: string): (n: nat)
    ensures n <= |s| && (forall i :: 0 <= i < n ==> s[i] != '/') && (n < |s| ==> s[n] == '/')
  {
    if s == [] || s[0] == '/' then 0 else 1 + FirstSlash(s[1..])
  }

  /** `^<base>($|/[^/]+/?)`, which the source applies to paths below `base`. */
  function LevelMatch(p: string, base: string): Option<string>
    requires Below(p, base)
  {
    if |p| == |base| then Some(base)
    else
      var rest := p[|base| + 1..];
      var n := FirstSlash(rest);
      if n == 0 then None
      else if n < |rest| then Some(base + "/" + rest[..n + 1])
      else Some(base + "/" + rest)
  }

  /** Where the match is null, the source raises a type error. */
  method LsReposOneLevel(repos: seq<string>, path: string) returns (nodes: Option<set<string>>)
    ensures nodes.Some? <==> forall p | p in repos && Below(p, Base(path)) :: LevelMatch(p, Base(path)).Some?
    ensures nodes.Some? ==> nodes.value == Nodes(repos, path)
  {
    var base := Base(path);
    var found: set<string> := {};
    for i := 0 to |repos|
      invariant forall k :: 0 <= k < i && Below(repos[k], base) ==> LevelMatch(repos[k], base).Some?
      invariant found == Nodes(repos[..i], path)
    {
      assert repos[..i + 1] == repos[..i] + [repos[i]];
      if Below(repos[i], base) {
        var m := LevelMatch(repos[i], base);
        if m.None? {
          assert repos[i] in repos;
          return None;
        }
        found := found + {m.value};
      }
    }
    assert repos[..|repos|] == repos;
    return Some(found);
  }

  function Nodes(repos: seq<string>, path: string): set<string> {
    set p | p in repos && Below(p, Base(path)) && LevelMatch(p, Base(path)).Some? :: LevelMatch(p, Base(path)).value
  }

  // What a listing should contain.

  predicate Segment(s: string) {
    s != "" && '/' !in s
  }

  /** `x` is one segment below `base`. */
  ghost predicate OneBelow(base: string, x: string) {
    exists s :: Segment(s) && x == base + "/" + s
  }

  /** The repo at the path, the repos one level below, and the directories one level below
      that contain deeper repos. */
  ghost predicate ShouldList(repos: seq<string>, path: string, x: string) {
    || (x == Base(path) && x in repos)
    || (OneBelow(Base(path), x) && x in repos)
    || (|x| > 0 && x[|x| - 1] == '/' && OneBelow(Base(path), x[..|x| - 1]) && exists p :: p in repos && x < p)
  }

  lemma {:induction false} FirstSlashOf(s: string, t: string)
    requires '/' !in s && (t == "" || t[0] == '/')
    ensures FirstSlash(s + t) == |s|
  {
    if s == "" {
      assert s + t == t;
    } else {
      assert (s + t)[1..] == s[1..] + t;
      assert s[0] in s;
      assert forall c | c in s[1..] :: c in s;
      FirstSlashOf(s[1..], t);
    }
  }

  /** A repo at or below one segment is listed as itself or as its directory. */
  lemma LevelMatchOf(base: string, s: string, t: string)
    requires Segment(s) && (t == "" || t[0] == '/')
    ensures Below(base + "/" + s + t, base)
    ensures LevelMatch(base + "/" + s + t, base) == Some(base + "/" + s + (if t == "" then "" else "/"))
  {
    hide FirstSlash;
    var p := base + "/" + s + t;
    assert p[|base|] == '/';
    assert p[|base| + 1..] == s + t;
    FirstSlashOf(s, t);
    if t == "" {
      assert s + t == s;
      assert base + "/" + s + "" == base + "/" + s;
    } else {
      assert (s + t)[..|s| + 1] == s + "/";
      assert base + "/" + s + "/" == base + "/" + (s + "/");
    }
  }

  /** A repo properly below `base` starts with one segment. */
  lemma SplitBelow(p: string, base: string) returns (s: string, t: string)
    requires WellFormed(p) && Below(p, base) && |p| > |base|
    ensures Segment(s) && (t == "" || t[0] == '/') && p == base + "/" + s + t
    ensures t != "" ==> |t| > 1
  {
    hide FirstSlash;
    var rest := p[|base| + 1..];
    assert p[|p| - 1] != '/';
    assert rest != "" && rest[0] == p[|base| + 1];
    var n := FirstSlash(rest);
    s, t := rest[..n], rest[n..];
    assert p == base + "/" + s + t;
    assert t != "" ==> t[|t| - 1] == p[|p| - 1];
  }

  /** The match is null exactly if an empty segment follows the base. */
  lemma LevelMatchFailsExactly(p: string, base: string)
    requires Below(p, base)
    ensures LevelMatch(p, base).None? <==> p == base + "/" || base + "//" <= p
  {
    if |p| > |base| {
      var rest := p[|base| + 1..];
      assert p == base + "/" + rest;
      if rest != "" {
        assert rest[0] == p[|base| + 1];
        assert (base + "//")[|base| + 1] == '/';
        assert rest[0] == '/' ==> p[..|base| + 2] == base + "//";
      }
    }
  }

  lemma LevelMatchCases(p: string, base: string)
    requires WellFormed(p) && Below(p, base)
    ensures LevelMatch(p, base).Some?
    ensures var x := LevelMatch(p, base).value;
            || (x == p == base)
            || (x == p && OneBelow(base, x))
            || (|x| > 0 && x < p && x[|x| - 1] == '/' && OneBelow(base, x[..|x| - 1]))
  {
    hide WellFormed;
    if |p| == |base| {
      assert p == base;
    } else {
      hide LevelMatch;
      var s, t := SplitBelow(p, base);
      hide Below;
      LevelMatchOf(base, s, t);
      var x := base + "/" + s + (if t == "" then "" else "/");
      assert base + "/" + s == if t == "" then x else x[..|x| - 1];
    }
  }

  lemma ListedIsWanted(repos: seq<string>, path: string, x: string)
    requires (forall p | p in repos :: WellFormed(p)) && x in Nodes(repos, path)
    ensures ShouldList(repos, path, x)
  {
    hide WellFormed, LevelMatch, Below, OneBelow, Base;
    var base := Base(path);
    var p :| p in repos && Below(p, base) && LevelMatch(p, base) == Some(x);
    LevelMatchCases(p, base);
  }

  lemma RepoIsListed(repos: seq<string>, path: string, p: string)
    requires p in repos && (p == Base(path) || OneBelow(Base(path), p))
    ensures p in Nodes(repos, path)
  {
    hide Base;
    var base := Base(path);
    if p == base {
      assert Below(p, base) && LevelMatch(p, base) == Some(p);
    } else {
      hide LevelMatch, Below;
      var s :| Segment(s) && p == base + "/" + s;
      LevelMatchOf(base, s, "");
      assert base + "/" + s + "" == p;
      assert LevelMatch(p, base) == Some(p);
    }
  }

  lemma DirectoryIsListed(repos: seq<string>, path: string, d: string, p: string)
    requires p in repos && d + "/" < p && OneBelow(Base(path), d)
    ensures d + "/" in Nodes(repos, path)
  {
    hide LevelMatch, Below, Base;
    var base := Base(path);
    var s :| Segment(s) && d == base + "/" + s;
    var t := p[|d|..];
    assert t[0] == (d + "/")[|d|];
    assert p == d + t;
    LevelMatchOf(base, s, t);
    assert LevelMatch(p, base) == Some(d + "/");
  }

  /** For well-formed repo paths, the listing is exactly what it should contain. */
  lemma ListingIsExact(repos: seq<string>, path: string, x: string)
    requires IsValidPath(path) && forall p | p in repos :: WellFormed(p)
    ensures x in Nodes(repos, path) <==> ShouldList(repos, path, x)
  {
    hide WellFormed, LevelMatch, Below, OneBelow, Base, Nodes, IsValidPath;
    if x in Nodes(repos, path) {
      ListedIsWanted(repos, path, x);
    }
    if ShouldList(repos, path, x) {
      if x in repos && (x == Base(path) || OneBelow(Base(path), x)) {
        RepoIsListed(repos, path, x);
      } else {
        var d := x[..|x| - 1];
        assert x == d + "/";
        var p :| p in repos && x < p;
        DirectoryIsListed(repos, path, d, p);
      }
    }
  }

  // Repeated listing.

  function Depth(p: string): nat {
    if p == "" then 0 else Depth(p[..|p| - 1]) + (if p[|p| - 1] == '/' then 1 else 0)
  }

  lemma {:induction false} DepthAppend(a: string, b: string)
    ensures Depth(a + b) == Depth(a) + Depth(b)
  {
    if b == "" {
      assert a + b == a;
    } else {
      assert (a + b)[..|a + b| - 1] == a + b[..|b| - 1];
      DepthAppend(a, b[..|b| - 1]);
    }
  }

  lemma {:induction false} DepthOfSegment(s: string)
    requires '/' !in s
    ensures Depth(s) == 0
  {
    if s != "" {
      assert s[|s| - 1] in s;
      assert forall c | c in s[..|s| - 1] :: c in s;
      DepthOfSegment(s[..|s| - 1]);
    }
  }

  lemma DepthOneBelow(base: string, x: string)
    requires OneBelow(base, x)
    ensures Depth(x) == Depth(base) + 1
  {
    var s :| Segment(s) && x == base + "/" + s;
    DepthAppend(base + "/", s);
    DepthAppend(base, "/");
    DepthOfSegment(s);
    assert Depth("/") == 1 by { assert "/"[..0] == ""; }
  }

  /** Repeated listing finds `p` in at most `n` further listings. */
  ghost predicate Finds(repos: seq<string>, path: string, p: string, n: nat)
    decreases n
  {
    p in Nodes(repos, path) ||
    (n > 0 && exists d :: d + "/" in Nodes(repos, path) && Finds(repos, d, p, n - 1))
  }

  lemma SlashIsOneDeep()
    ensures Depth("/") == 1 && Depth("") == 0
  {
    assert "/"[..0] == "";
  }

  /** A listed directory is one segment below the path and contains a repo. */
  lemma ListedDirectory(repos: seq<string>, path: string, d: string) returns (p: string)
    requires IsValidPath(path) && (forall p | p in repos :: WellFormed(p)) && d + "/" in Nodes(repos, path)
    ensures OneBelow(Base(path), d) && p in repos && d + "/" < p
  {
    hide LevelMatch, Below, OneBelow, Nodes, IsValidPath;
    var x := d + "/";
    ListingIsExact(repos, path, x);
    assert x[..|x| - 1] == d;
    assert x !in repos;
    p :| p in repos && x < p;
  }

  lemma OneBelowIsValid(path: string, d: string)
    requires IsValidPath(path) && OneBelow(Base(path), d)
    ensures IsValidPath(d) && Base(d) == d && |d| > |Base(path)|
  {
    var s :| Segment(s) && d == Base(path) + "/" + s;
    assert d[|d| - 1] == s[|s| - 1];
    assert s[|s| - 1] in s;
    assert d[0] == '/';
  }

  /** A listed directory is a valid path, is one level deeper and contains a repo that is
      deeper still: repeated listing ends at the depth of the deepest repo. */
  lemma DirectoriesAreDeeper(repos: seq<string>, path: string, d: string)
    requires IsValidPath(path) && (forall p | p in repos :: WellFormed(p)) && d + "/" in Nodes(repos, path)
    ensures IsValidPath(d) && Depth(d) == Depth(Base(path)) + 1
    ensures exists p :: p in repos && Depth(d) < Depth(p)
  {
    hide WellFormed, LevelMatch, Below, OneBelow, Nodes, IsValidPath, Base, Depth;
    var p := ListedDirectory(repos, path, d);
    OneBelowIsValid(path, d);
    DepthOneBelow(Base(path), d);
    var t := p[|d| + 1..];
    assert p == (d + "/") + t;
    DepthAppend(d + "/", t);
    DepthAppend(d, "/");
    SlashIsOneDeep();
  }

  /** Repeated listing with the trailing slash stripped reaches every repo below the path,
      in as many listings as the repo is deeper. */
  lemma {:induction false} EveryRepoIsFound(repos: seq<string>, path: string, p: string)
    requires IsValidPath(path) && (forall q | q in repos :: WellFormed(q)) && p in repos && Below(p, Base(path))
    ensures Depth(p) >= Depth(Base(path)) && Finds(repos, path, p, Depth(p) - Depth(Base(path)))
    decreases |p| - |Base(path)|
  {
    hide WellFormed, LevelMatch, OneBelow, IsValidPath, Base, Depth;
    var base := Base(path);
    LevelMatchCases(p, base);
    var x := LevelMatch(p, base).value;
    assert x in Nodes(repos, path);
    if x == p {
      DepthAppend(base, p[|base|..]);
      assert p == base + p[|base|..];
    } else {
      hide Nodes;
      var d := x[..|x| - 1];
      assert x == d + "/";
      DirectoriesAreDeeper(repos, path, d);
      OneBelowIsValid(path, d);
      assert d <= p && p[|d|] == '/';
      EveryRepoIsFound(repos, d, p);
    }
  }

  /** From the root every repo is found. */
  lemma RootFindsAll(repos: seq<string>, p: string)
    requires (forall q | q in repos :: WellFormed(q)) && p in repos
    ensures Finds(repos, "/", p, Depth(p))
  {
    hide Finds, LevelMatch, Nodes, Depth;
    assert IsValidPath("/") && Base("/") == "";
    assert WellFormed(p);
    assert Below(p, "");
    SlashIsOneDeep();
    EveryRepoIsFound(repos, "/", p);
  }
}
