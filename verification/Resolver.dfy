// resolveAbsoluteTarget: mapping an absolute junction target to a path this
// client can list, by dropping an unknown number of leading components, and
// remembering that number.
module Resolver {
  import opened Basics
  import opened GoPath
  import opened SftpServer

  const MAX_CHROOT_DEPTH: nat := 5

  // ---------------------------------------------------------------------
  // What one call does: its answer, the depth it leaves cached, and the
  // ReadDir calls it makes, in order
  // ---------------------------------------------------------------------

  datatype Resolution = Resolution(answer: string, depth: nat, probes: seq<string>)

  // The path asked for when `depth` components are dropped, if any.
  function Candidate(target: string, depth: nat): Option<string> {
    var parts := Split(Clean(target), '/');
    if depth + 1 < |parts| && Join(parts[depth + 1..], '/') != ""
    then Some("/" + Join(parts[depth + 1..], '/'))
    else None
  }

  function Discover(server: Server, target: string, depth: nat): Resolution
    decreases MAX_CHROOT_DEPTH + 1 - depth
  {
    if depth > MAX_CHROOT_DEPTH then Resolution("", 0, [])
    else
      match Candidate(target, depth)
      case Some(p) =>
        if server.Listable(p) then Resolution(p, depth, [p])
        else
          var rest := Discover(server, target, depth + 1);
          rest.(probes := [p] + rest.probes)
      case None => Discover(server, target, depth + 1)
  }

  function Resolve(server: Server, cached: nat, target: string): Resolution {
    if cached > 0 then
      match Candidate(target, cached)
      case Some(p) =>
        if server.Listable(p) then Resolution(p, cached, [p])
        else
          var found := Discover(server, target, 1);
          found.(probes := [p] + found.probes)
      case None => Discover(server, target, 1)
    else
      Discover(server, target, 1)
  }

  // ---------------------------------------------------------------------
  // The reading on segments: drop the first `depth` segments of the target
  // ---------------------------------------------------------------------

  predicate Reaches(server: Server, segs: seq<string>, depth: nat) {
    depth < |segs| && server.Listable(AbsPath(segs[depth..]))
  }

  predicate Resolvable(server: Server, segs: seq<string>) {
    exists d | 1 <= d <= MAX_CHROOT_DEPTH :: Reaches(server, segs, d)
  }

  lemma CandidateIsSuffix(target: string, depth: nat)
    requires IsAbs(target) && depth >= 1
    ensures var segs := CleanSegs(target);
            Candidate(target, depth) == if depth < |segs| then Some(AbsPath(segs[depth..])) else None
  {
    var segs := CleanSegs(target);
    CleanSegsPlain(target);
    SplitAbsPath(segs);
    var parts := Split(Clean(target), '/');
    if depth < |segs| {
      assert parts[depth + 1..] == segs[depth..];
      SplitAbsPath(segs[depth..]);
      assert Plain(segs[depth]);
      assert Join(segs[depth..], '/') != "";
    }
  }

  lemma CandidateReaches(server: Server, target: string, depth: nat)
    requires IsAbs(target) && depth >= 1
    ensures var segs, c := CleanSegs(target), Candidate(target, depth);
            && (Reaches(server, segs, depth) <==> c.Some? && server.Listable(c.value))
            && (Reaches(server, segs, depth) ==> depth < |segs| && c.value == AbsPath(segs[depth..]) != "")
            && (c.None? ==> forall d: nat | depth <= d :: !Reaches(server, segs, d))
  {
    hide CleanSegs, Candidate, AbsPath;
    var segs := CleanSegs(target);
    CandidateIsSuffix(target, depth);
    if depth < |segs| {
      AbsPathNotEmpty(segs[depth..]);
    }
  }

  // Discovery from depth d finds the least working depth that is at least d,
  // having asked for every depth on the way once.
  lemma {:induction false} DiscoverLeast(server: Server, target: string, depth: nat)
    requires IsAbs(target) && 1 <= depth <= MAX_CHROOT_DEPTH + 1
    ensures var segs := CleanSegs(target);
            var r := Discover(server, target, depth);
            if r.answer == "" then
              && r.depth == 0
              && (forall d | depth <= d <= MAX_CHROOT_DEPTH :: !Reaches(server, segs, d))
              && |r.probes| <= MAX_CHROOT_DEPTH + 1 - depth
            else
              && depth <= r.depth <= MAX_CHROOT_DEPTH
              && Reaches(server, segs, r.depth)
              && r.answer == AbsPath(segs[r.depth..])
              && (forall d | depth <= d < r.depth :: !Reaches(server, segs, d))
              && |r.probes| == r.depth + 1 - depth
    decreases MAX_CHROOT_DEPTH + 1 - depth
  {
    hide CleanSegs, Candidate, AbsPath, Reaches;
    if depth > MAX_CHROOT_DEPTH {
    } else {
      CandidateReaches(server, target, depth);
      DiscoverLeast(server, target, depth + 1);
    }
  }

  lemma UnresolvableMeans(server: Server, segs: seq<string>)
    ensures !Resolvable(server, segs) <==> forall d | 1 <= d <= 5 && d < |segs| :: AbsPath(segs[d..]) !in server.dirs
  {
    hide AbsPath;
    if !Resolvable(server, segs) {
      forall d | 1 <= d <= 5 && d < |segs| ensures AbsPath(segs[d..]) !in server.dirs {
        assert !Reaches(server, segs, d);
      }
    }
  }

  // Soundness and completeness, for every cached depth: "" exactly when no
  // suffix is listable, otherwise a listable suffix with the cache holding
  // the number of components dropped.
  lemma ResolveCorrect(server: Server, cached: nat, target: string)
    requires IsAbs(target) && cached <= MAX_CHROOT_DEPTH
    ensures var segs := CleanSegs(target);
            var r := Resolve(server, cached, target);
            && (r.answer == "" <==> !Resolvable(server, segs))
            && (r.answer == "" <==>
                  forall d | 1 <= d <= 5 && d < |segs| :: AbsPath(segs[d..]) !in server.dirs)
            && (r.answer == "" ==> r.depth == 0)
            && (r.answer != "" ==>
                  1 <= r.depth <= MAX_CHROOT_DEPTH && Reaches(server, segs, r.depth)
                  && r.answer == AbsPath(segs[r.depth..]) && r.answer in server.dirs)
            && |r.probes| <= MAX_CHROOT_DEPTH + 1
  {
    hide Discover;
    UnresolvableMeans(server, CleanSegs(target));
    DiscoverLeast(server, target, 1);
    if cached > 0 {
      CandidateIsSuffix(target, cached);
      assert Reaches(server, CleanSegs(target), cached) ==> Resolvable(server, CleanSegs(target));
    }
  }

  // Which of the working depths is chosen: the cached one if it works,
  // else the least.
  lemma ResolveChoice(server: Server, cached: nat, target: string)
    requires IsAbs(target) && cached <= MAX_CHROOT_DEPTH
    ensures var segs := CleanSegs(target);
            var r := Resolve(server, cached, target);
            if cached > 0 && Reaches(server, segs, cached)
            then r.depth == cached && r.probes == [r.answer]
            else r.answer != "" ==> forall d | 1 <= d < r.depth :: !Reaches(server, segs, d)
  {
    hide Join, CleanSegs, Discover, Candidate;
    DiscoverLeast(server, target, 1);
    if cached > 0 {
      CandidateIsSuffix(target, cached);
    }
  }

  lemma SuffixesDiffer(segs: seq<string>, a: nat, b: nat)
    requires AllPlain(segs) && a < b < |segs|
    ensures AbsPath(segs[a..]) != AbsPath(segs[b..])
  {
    AbsPathInjective(segs[a..], segs[b..]);
    assert |segs[a..]| != |segs[b..]|;
  }

  // A warm cache changes the answer in exactly one situation: the cached
  // depth works, and so does a smaller one.
  lemma CacheChangesAnswer(server: Server, cached: nat, target: string)
    requires IsAbs(target) && cached <= MAX_CHROOT_DEPTH
    ensures var segs := CleanSegs(target);
            Resolve(server, cached, target).answer != Resolve(server, 0, target).answer
            <==> cached > 0 && Reaches(server, segs, cached)
                 && exists d | 1 <= d < cached :: Reaches(server, segs, d)
  {
    var segs := CleanSegs(target);
    var warm, cold := Resolve(server, cached, target), Resolve(server, 0, target);
    CleanSegsPlain(target);
    ResolveCorrect(server, cached, target);
    ResolveChoice(server, cached, target);
    ResolveCorrect(server, 0, target);
    ResolveChoice(server, 0, target);
    if cached > 0 && Reaches(server, segs, cached) {
      assert warm.depth == cached && cold.depth <= cached;
      if cold.depth < cached {
        SuffixesDiffer(segs, cold.depth, cached);
      }
    }
  }

  lemma ExampleStrings()
    ensures AbsPath(["a", "b", "c"]) == "/a/b/c" && AbsPath(["b", "c"]) == "/b/c" && AbsPath(["c"]) == "/c"
  {
    assert ["a", "b", "c"][1..] == ["b", "c"] && ["b", "c"][1..] == ["c"];
  }

  lemma ExampleSegs(server: Server)
    requires server.Listable("/b/c") && server.Listable("/c")
    ensures var segs := ["a", "b", "c"];
            IsAbs("/a/b/c") && CleanSegs("/a/b/c") == segs && Reaches(server, segs, 1) && Reaches(server, segs, 2)
  {
    var segs := ["a", "b", "c"];
    assert AllPlain(segs);
    hide AbsPath, CleanSegs, AllPlain;
    ExampleStrings();
    CleanSegsOfAbsPath(segs);
    assert segs[1..] == ["b", "c"] && segs[2..] == ["c"];
  }

  // Any server that lists both /b/c and /c shows it, on the target /a/b/c.
  lemma CacheChangesAnswerExample(server: Server)
    requires server.Listable("/b/c") && server.Listable("/c")
    ensures Resolve(server, 2, "/a/b/c").answer == "/c" && Resolve(server, 0, "/a/b/c").answer == "/b/c"
  {
    hide AbsPath, CleanSegs, Resolve, Clean, AllPlain, IsAbs, Reaches;
    var segs := ["a", "b", "c"];
    ExampleSegs(server);
    ExampleStrings();
    assert segs[1..] == ["b", "c"] && segs[2..] == ["c"];
    ResolveCorrect(server, 2, "/a/b/c");
    ResolveChoice(server, 2, "/a/b/c");
    ResolveCorrect(server, 0, "/a/b/c");
    ResolveChoice(server, 0, "/a/b/c");
  }

  // ---------------------------------------------------------------------
  // Many junctions on one session: the cache refines "strip the mount"
  // ---------------------------------------------------------------------

  // The answers to a list of targets, the cache after each, all probes.
  datatype Run = Run(answers: seq<string>, depths: seq<nat>, probes: seq<string>)

  function ResolveAll(server: Server, cached: nat, targets: seq<string>): Run
    decreases |targets|
  {
    if targets == [] then Run([], [], [])
    else
      var r := Resolve(server, cached, targets[0]);
      var rest := ResolveAll(server, r.depth, targets[1..]);
      Run([r.answer] + rest.answers, [r.depth] + rest.depths, r.probes + rest.probes)
  }

  // No listable path starts with a non-empty proper suffix of the mount.
  ghost predicate Unshadowed(server: Server, mount: seq<string>) {
    forall d: nat, p: seq<string> | 1 <= d < |mount| && p != [] :: !server.Listable(AbsPath(mount[d..] + p))
  }

  // A junction target: the mount prefix followed by a listable path.
  ghost predicate MountTarget(server: Server, mount: seq<string>, target: string, p: seq<string>) {
    IsAbs(target) && CleanSegs(target) == mount + p && p != [] && server.Listable(AbsPath(p))
  }

  lemma ResolveUnderMount(server: Server, mount: seq<string>, cached: nat, target: string, p: seq<string>)
    requires 1 <= |mount| <= MAX_CHROOT_DEPTH && Unshadowed(server, mount)
    requires cached == 0 || cached == |mount|
    requires MountTarget(server, mount, target, p)
    ensures var r := Resolve(server, cached, target);
            r.answer == AbsPath(p) && r.depth == |mount| && |r.probes| == if cached == 0 then |mount| else 1
  {
    hide AbsPath, CleanSegs, Discover, Candidate;
    var segs := CleanSegs(target);
    assert segs[|mount|..] == p;
    assert Reaches(server, segs, |mount|);
    forall d: nat | 1 <= d < |mount| ensures !Reaches(server, segs, d) {
      assert segs[d..] == mount[d..] + p;
    }
    DiscoverLeast(server, target, 1);
    ResolveCorrect(server, cached, target);
    ResolveChoice(server, cached, target);
  }

  lemma {:induction false} WarmCacheRun(server: Server, mount: seq<string>, targets: seq<string>, ps: seq<seq<string>>)
    requires 1 <= |mount| <= MAX_CHROOT_DEPTH && Unshadowed(server, mount)
    requires |targets| == |ps|
    requires forall i | 0 <= i < |targets| :: MountTarget(server, mount, targets[i], ps[i])
    ensures var run := ResolveAll(server, |mount|, targets);
            && |run.answers| == |run.depths| == |run.probes| == |targets|
            && forall i | 0 <= i < |targets| :: run.answers[i] == AbsPath(ps[i]) && run.depths[i] == |mount|
    decreases |targets|
  {
    hide AbsPath, CleanSegs, Resolve, MountTarget;
    if targets == [] {
    } else {
      ResolveUnderMount(server, mount, |mount|, targets[0], ps[0]);
      WarmCacheRun(server, mount, targets[1..], ps[1..]);
    }
  }

  // A fresh session answers every target with the mount removed, knows the
  // mount's length from the first answer on, and pays |mount| probes once
  // and one probe per further target.
  lemma CacheRefinesStripping(server: Server, mount: seq<string>, targets: seq<string>, ps: seq<seq<string>>)
    requires 1 <= |mount| <= MAX_CHROOT_DEPTH && Unshadowed(server, mount)
    requires |targets| == |ps| >= 1
    requires forall i | 0 <= i < |targets| :: MountTarget(server, mount, targets[i], ps[i])
    ensures var run := ResolveAll(server, 0, targets);
            && |run.answers| == |run.depths| == |targets|
            && (forall i | 0 <= i < |targets| :: run.answers[i] == AbsPath(ps[i]) && run.depths[i] == |mount|)
            && |run.probes| == |mount| + (|targets| - 1)
  {
    hide AbsPath, CleanSegs, Resolve, MountTarget;
    ResolveUnderMount(server, mount, 0, targets[0], ps[0]);
    WarmCacheRun(server, mount, targets[1..], ps[1..]);
  }

  // ---------------------------------------------------------------------
  // When the cache cannot matter
  // ---------------------------------------------------------------------

  // At most one depth works for the target.
  predicate Unambiguous(server: Server, segs: seq<string>) {
    forall a, b | 1 <= a < b <= MAX_CHROOT_DEPTH :: !(Reaches(server, segs, a) && Reaches(server, segs, b))
  }

  // Exactly the unambiguous targets have one answer under every cache.
  lemma CacheIndependence(server: Server, target: string)
    requires IsAbs(target)
    ensures Unambiguous(server, CleanSegs(target))
            <==> forall c: nat | c <= MAX_CHROOT_DEPTH ::
                   Resolve(server, c, target).answer == Resolve(server, 0, target).answer
  {
    var segs := CleanSegs(target);
    forall c: nat | c <= MAX_CHROOT_DEPTH
      ensures Resolve(server, c, target).answer != Resolve(server, 0, target).answer
              <==> c > 0 && Reaches(server, segs, c) && exists d | 1 <= d < c :: Reaches(server, segs, d)
    {
      CacheChangesAnswer(server, c, target);
    }
  }
}
