// The path and size helpers of the HTTP handlers and page templates.
module PathHelpers {
  import opened GoPath

  function TrimLeft(s: string, c: char): (r: string)
    ensures |r| <= |s| && r == s[|s| - |r|..]
    ensures r != "" ==> r[0] != c
  {
    if s != "" && s[0] == c then TrimLeft(s[1..], c) else s
  }

  function SplitPath(p: string): seq<string> {
    var t := TrimRight(TrimLeft(p, '/'), '/');
    if t == "" then [] else Split(t, '/')
  }

  function BuildPath(p: string, upTo: int): string {
    var segs := SplitPath(p);
    var n := if upTo < 0 then 0 else if upTo > |segs| then |segs| else upTo;
    "/" + Join(segs[..n], '/')
  }

  function ParentPath(p: string): string {
    if p == "/" || p == "" then "/"
    else
      var t := TrimRight(p, '/');
      var i := LastIndex(t, '/');
      if i <= 0 then "/" else t[..i]
  }

  function JoinPath(parent: string, leaf: string): string {
    if parent == "" || parent == "/" then "/" + leaf
    else if parent[|parent| - 1] == '/' then parent + leaf
    else parent + "/" + leaf
  }

  function BaseName(p: string): string {
    p[LastIndex(p, '/') + 1..]
  }

  // ---------------------------------------------------------------------
  // Clean absolute paths: the helpers act on the segment list
  // ---------------------------------------------------------------------

  lemma {:induction false} JoinEdges(segs: seq<string>)
    requires segs != [] && AllPlain(segs)
    ensures var j := Join(segs, '/'); j != "" && j[0] != '/' && j[|j| - 1] != '/'
  {
    assert Plain(segs[0]);
    if |segs| <= 1 {
    } else {
      JoinEdges(segs[1..]);
    }
  }

  lemma AbsPathEdges(segs: seq<string>)
    requires AllPlain(segs)
    ensures segs != [] ==> var p := AbsPath(segs); p != "/" && p[|p| - 1] != '/'
  {
    if segs != [] {
      JoinEdges(segs);
    }
  }

  lemma SplitPathOfAbsPath(segs: seq<string>)
    requires AllPlain(segs)
    ensures SplitPath(AbsPath(segs)) == segs
  {
    var j := Join(segs, '/');
    var p := AbsPath(segs);
    assert p[0] == '/' && p[1..] == j;
    if segs != [] {
      JoinEdges(segs);
      SplitJoin(segs, '/');
      assert TrimLeft(p, '/') == j;
    }
  }

  // buildPath keeps the first i segments; i is first brought into range.
  lemma BuildPathPrefix(segs: seq<string>, i: int)
    requires AllPlain(segs)
    ensures 0 <= i <= |segs| ==> BuildPath(AbsPath(segs), i) == AbsPath(segs[..i])
    ensures 0 <= i <= |segs| ==> SplitPath(BuildPath(AbsPath(segs), i)) == segs[..i]
    ensures i < 0 ==> BuildPath(AbsPath(segs), i) == "/"
    ensures i > |segs| ==> BuildPath(AbsPath(segs), i) == AbsPath(segs)
  {
    SplitPathOfAbsPath(segs);
    RootPath();
    if 0 <= i <= |segs| {
      SplitPathOfAbsPath(segs[..i]);
    }
    assert segs[..|segs|] == segs && segs[..0] == [];
  }

  // strings.Trim at both ends, on any path.
  lemma SplitPathOfAny(m: nat, core: string, n: nat)
    requires core != "" ==> core[0] != '/' && core[|core| - 1] != '/'
    ensures SplitPath(Slashes(m) + core + Slashes(n)) == if core == "" then [] else Split(core, '/')
  {
    hide TrimRight, TrimLeft, Split, Slashes;
    if core == "" {
      SlashesAppend(m, n);
      assert Slashes(m) + core + Slashes(n) == Slashes(m + n) + "";
      TrimLeftSlashes(m + n, "");
    } else {
      assert Slashes(m) + core + Slashes(n) == Slashes(m) + (core + Slashes(n));
      TrimLeftSlashes(m, core + Slashes(n));
      TrimSlashes(core, n);
    }
  }

  lemma SlashesAppend(m: nat, n: nat)
    ensures Slashes(m) + Slashes(n) == Slashes(m + n)
  {
  }

  lemma {:induction false} TrimLeftSlashes(n: nat, s: string)
    requires s != "" ==> s[0] != '/'
    ensures TrimLeft(Slashes(n) + s, '/') == s
    decreases n
  {
    hide Slashes;
    if n == 0 {
      assert Slashes(0) + s == s;
    } else {
      OneSlash(n);
      assert (Slashes(n) + s)[0] == '/' && (Slashes(n) + s)[1..] == Slashes(n - 1) + s;
      TrimLeftSlashes(n - 1, s);
    }
  }

  lemma OneSlash(n: nat)
    requires n > 0
    ensures Slashes(n) == "/" + Slashes(n - 1)
  {
  }

  // The breadcrumb of segment i links to BuildPath(path, i). That is the
  // parent of the directory named by segment i, never that directory.
  lemma BreadcrumbLinksToParent(segs: seq<string>, i: nat)
    requires AllPlain(segs) && i < |segs|
    ensures BuildPath(AbsPath(segs), i) == ParentPath(AbsPath(segs[..i + 1]))
    ensures BuildPath(AbsPath(segs), i) != AbsPath(segs[..i + 1])
  {
    hide BuildPath, ParentPath, AbsPath, Plain;
    BuildPathPrefix(segs, i);
    ParentOfAbsPath(segs[..i + 1]);
    assert segs[..i + 1][..i] == segs[..i];
    AbsPathInjective(segs[..i], segs[..i + 1]);
    assert |segs[..i]| != |segs[..i + 1]|;
  }

  lemma ParentOfAbsPath(segs: seq<string>)
    requires AllPlain(segs)
    ensures ParentPath(AbsPath(segs)) == AbsPath(if segs == [] then [] else segs[..|segs| - 1])
    ensures segs != [] ==> BaseName(AbsPath(segs)) == segs[|segs| - 1]
  {
    if segs != [] {
      var init, last := segs[..|segs| - 1], segs[|segs| - 1];
      assert Plain(last);
      hide AbsPath, Plain, AllPlain, ParentPath, BaseName;
      AbsPathLast(segs);
      ParentOfSlashed(if init == [] then "" else AbsPath(init), last);
      assert AbsPath([]) == "/" by { RootPath(); }
      assert init == [] || AbsPath(init) != "" by { AbsPathNotEmpty(init); }
    } else {
      RootPath();
    }
  }

  // On any path: slashes at the end are dropped, then the last name with the
  // slash before it. Without a slash in front of a name the parent is "/".
  lemma ParentOfAny(front: string, name: string, n: nat)
    requires name != "" && '/' !in name
    ensures ParentPath(front + "/" + name + Slashes(n)) == if front == "" then "/" else front
    ensures ParentPath(name + Slashes(n)) == "/" && ParentPath(Slashes(n)) == "/"
  {
    hide LastIndex, TrimRight;
    var p := front + "/" + name;
    assert p == front + ['/'] + name;
    assert p[|p| - 1] == name[|name| - 1];
    LastIndexAround(front, name, '/');
    TrimSlashes(p, n);
    assert p[..|front|] == front;
    TrimSlashes(name, n);
    NoIndex(name);
    TrimSlashes("", n);
    assert "" + Slashes(n) == Slashes(n);
    NoIndex("");
    assert (p + Slashes(n))[|p| - 1] != '/' && (name + Slashes(n))[|name| - 1] != '/';
  }

  // baseName is what follows the last slash, or everything.
  lemma BaseNameOfAny(front: string, name: string)
    requires '/' !in name
    ensures BaseName(front + "/" + name) == name && BaseName(name) == name
  {
    hide LastIndex;
    assert front + "/" + name == front + ['/'] + name;
    LastIndexAround(front, name, '/');
    NoIndex(name);
  }

  // joinPath puts exactly one slash in between; an empty parent is the root.
  lemma JoinPathOfAny(parent: string, leaf: string)
    ensures JoinPath("", leaf) == JoinPath("/", leaf) == "/" + leaf
    ensures parent != "" && parent[|parent| - 1] != '/' ==>
              JoinPath(parent, leaf) == JoinPath(parent + "/", leaf) == parent + "/" + leaf
  {
  }

  // The last slash splits off the name.
  lemma ParentOfSlashed(front: string, name: string)
    requires name != "" && '/' !in name
    ensures ParentPath(front + "/" + name) == if front == "" then "/" else front
    ensures BaseName(front + "/" + name) == name
  {
    hide LastIndex;
    var p := front + "/" + name;
    assert p == front + ['/'] + name;
    LastIndexAround(front, name, '/');
    assert p[|p| - 1] == name[|name| - 1] != '/';
    assert p != "/" && TrimRight(p, '/') == p;
    assert p[..|front|] == front && p[|front| + 1..] == name;
  }

  // parentPath and baseName undo joinPath, for any name without a slash; "."
  // and ".." are names like any other to them.
  lemma JoinPathRoundTrip(segs: seq<string>, name: string)
    requires AllPlain(segs) && name != "" && '/' !in name
    ensures JoinPath(AbsPath(segs), name) == AbsPath(segs + [name])
    ensures ParentPath(JoinPath(AbsPath(segs), name)) == AbsPath(segs)
    ensures BaseName(JoinPath(AbsPath(segs), name)) == name
  {
    hide AbsPath, AllPlain, ParentPath, BaseName;
    RootPath();
    AbsPathNotEmpty(segs);
    AbsPathEdges(segs);
    AbsPathLast(segs + [name]);
    assert (segs + [name])[..|segs|] == segs;
    assert JoinPath(AbsPath(segs), name) == (if segs == [] then "" else AbsPath(segs)) + "/" + name;
    ParentOfSlashed(if segs == [] then "" else AbsPath(segs), name);
  }

  function ParentTimes(p: string, n: nat): string
    decreases n
  {
    if n == 0 then p else ParentTimes(ParentPath(p), n - 1)
  }

  lemma {:induction false} ParentTimesPrefix(segs: seq<string>, n: nat)
    requires AllPlain(segs)
    ensures ParentTimes(AbsPath(segs), n) == AbsPath(segs[..if n <= |segs| then |segs| - n else 0])
    decreases n
  {
    hide ParentPath, AbsPath;
    if n == 0 {
      assert segs[..|segs|] == segs;
    } else {
      ParentOfAbsPath(segs);
      var up := if segs == [] then [] else segs[..|segs| - 1];
      ParentTimesPrefix(up, n - 1);
      var k := if n <= |segs| then |segs| - n else 0;
      assert up[..k] == segs[..k];
    }
  }

  // Following "parent directory" reaches the root after exactly as many
  // clicks as the path has segments, and then stays there.
  lemma ParentReachesRoot(segs: seq<string>, n: nat)
    requires AllPlain(segs)
    ensures ParentTimes(AbsPath(segs), n) == "/" <==> n >= |SplitPath(AbsPath(segs))|
  {
    SplitPathOfAbsPath(segs);
    ParentTimesPrefix(segs, n);
    AbsPathEdges(segs[..if n <= |segs| then |segs| - n else 0]);
  }

  // ---------------------------------------------------------------------
  // Two ways to join, used side by side on the same listing
  // ---------------------------------------------------------------------

  // Clean, or clean with one trailing slash.
  predicate NearlyClean(p: string) {
    p == Clean(p) || (Clean(p) != "/" && p == Clean(p) + "/")
  }

  // The listing joins with filepath.Join, the page with joinPath. On a plain
  // name they agree exactly for the parents that are nearly clean.
  lemma JoinsAgree(parent: string, name: string)
    requires IsAbs(parent) && Plain(name)
    ensures JoinPath(parent, name) == PathJoin(parent, name) <==> NearlyClean(parent)
  {
    var segs := CleanSegs(parent);
    CleanSegsPlain(parent);
    CleanSegsJoin(parent, name);
    AbsPathLast(segs + [name]);
    assert (segs + [name])[..|segs|] == segs;
    AbsPathEdges(segs);
    var front := if segs == [] then "" else Clean(parent);
    var head := if parent[|parent| - 1] == '/' then parent else parent + "/";
    assert Clean(parent) == AbsPath(segs) && (segs == [] ==> Clean(parent) == "/");
    assert PathJoin(parent, name) == front + "/" + name;
    assert JoinPath(parent, name) == head + name;
    hide Clean, CleanSegs, PathJoin, JoinPath, AbsPath;
    SuffixCancels(head, front + "/", name);
    if parent[|parent| - 1] != '/' {
      SuffixCancels(parent, front, "/");
    }
  }

  lemma SuffixCancels(a: string, b: string, c: string)
    ensures a + c == b + c <==> a == b
  {
    if a + c == b + c {
      assert (a + c)[..|a|] == a && (b + c)[..|b|] == b;
    }
  }
}
