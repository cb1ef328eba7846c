// Session.ListDir: one row per server entry, junctions promoted to
// directories when some probe shows them listable; and the view model the
// browse page builds from each row.
module Listing {
  import opened Basics
  import opened GoPath
  import opened PathHelpers
  import opened SftpServer
  import opened Resolver

  // ---------------------------------------------------------------------
  // validatePath
  // ---------------------------------------------------------------------

  datatype PathError = Empty | NotAbsolute | ParentSegment | NotRooted

  function ValidatePath(p: string): Option<PathError> {
    if p == "" then Some(Empty)
    else if !IsAbs(p) then Some(NotAbsolute)
    else if ".." in Split(p, '/') then Some(ParentSegment)
    else if !IsAbs(Clean(p)) then Some(NotRooted)
    else None
  }

  // Accepted are the absolute paths with no ".." segment; the last check
  // never fires.
  lemma ValidatePathExact(p: string)
    ensures ValidatePath(p) == None <==> IsAbs(p) && ".." !in Split(p, '/')
    ensures ValidatePath(p) != Some(NotRooted)
    ensures ValidatePath(p) == Some(Empty) <==> p == ""
    ensures ValidatePath(p) == Some(NotAbsolute) <==> p != "" && p[0] != '/'
  {
    if IsAbs(p) {
      CleanIdempotent(p);
    }
  }

  function KeptOne(seg: string): seq<string> {
    if seg == "" || seg == "." then [] else [seg]
  }

  function Kept(segs: seq<string>): seq<string> {
    if segs == [] then [] else KeptOne(segs[0]) + Kept(segs[1..])
  }

  lemma PushKept(stack: seq<string>, seg: string)
    requires seg != ".."
    ensures Push(true, stack, seg) == stack + KeptOne(seg)
  {
  }

  lemma {:induction false} PushAllKept(stack: seq<string>, segs: seq<string>)
    requires ".." !in segs
    ensures PushAll(true, stack, segs) == stack + Kept(segs)
    decreases |segs|
  {
    hide Push, KeptOne;
    if segs == [] {
    } else {
      var seg, rest := segs[0], segs[1..];
      PushKept(stack, seg);
      PushAllKept(Push(true, stack, seg), rest);
      assert stack + KeptOne(seg) + Kept(rest) == stack + (KeptOne(seg) + Kept(rest));
    }
  }

  // On an accepted path, cleaning only drops empty and "." segments.
  lemma CleanOnlyDrops(p: string)
    requires ValidatePath(p) == None
    ensures Clean(p) == AbsPath(Kept(Split(p, '/')))
  {
    ValidatePathExact(p);
    PushAllKept([], Split(p, '/'));
    assert CleanSegs(p) == Kept(Split(p, '/'));
  }

  lemma AbsPathValid(segs: seq<string>)
    requires AllPlain(segs)
    ensures ValidatePath(AbsPath(segs)) == None
  {
    SplitAbsPath(segs);
    ValidatePathExact(AbsPath(segs));
  }

  // ---------------------------------------------------------------------
  // ancestorWalkResolve
  // ---------------------------------------------------------------------

  const MAX_JUNCTION_DEPTH: nat := 4

  datatype Ancestor = Ancestor(resolved: string, depth: nat, probes: seq<string>)

  // The paths the walk is prepared to ask for, nearest first.
  function AncestorPaths(candidate: string, base: string, depth: nat): seq<string>
    decreases MAX_JUNCTION_DEPTH + 1 - depth
  {
    if depth > MAX_JUNCTION_DEPTH then []
    else
      [PathJoin(candidate, base)] +
      (if candidate == "/" || candidate == "." || Dir(candidate) == candidate then []
       else AncestorPaths(Dir(candidate), base, depth + 1))
  }

  // Ask for them in order, stop at the first that can be listed.
  function FirstListable(server: Server, paths: seq<string>, depth: nat): Ancestor
    decreases |paths|
  {
    if paths == [] then Ancestor("", 0, [])
    else if server.Listable(paths[0]) then Ancestor(paths[0], depth, [paths[0]])
    else
      var rest := FirstListable(server, paths[1..], depth + 1);
      rest.(probes := [paths[0]] + rest.probes)
  }

  function AncestorWalk(server: Server, parent: string, base: string): Ancestor {
    FirstListable(server, AncestorPaths(parent, base, 0), 0)
  }

  // w answers with the first listable of the paths and its depth, after
  // asking for the paths up to it; or "" after asking for all in vain.
  predicate NearestListable(server: Server, paths: seq<string>, depth: nat, w: Ancestor) {
    if w.resolved == "" then
      w.depth == 0 && w.probes == paths && forall i | 0 <= i < |paths| :: !server.Listable(paths[i])
    else
      && depth <= w.depth < depth + |paths|
      && w.resolved == paths[w.depth - depth] && server.Listable(w.resolved)
      && w.probes == paths[..w.depth - depth + 1]
      && forall i | 0 <= i < w.depth - depth :: !server.Listable(paths[i])
  }

  lemma PrefixCons(p: string, rest: seq<string>, k: nat)
    requires k <= |rest|
    ensures ([p] + rest)[..k + 1] == [p] + rest[..k]
  {
  }

  lemma {:induction false} FirstListableIsNearest(server: Server, paths: seq<string>, depth: nat)
    requires "" !in paths
    ensures NearestListable(server, paths, depth, FirstListable(server, paths, depth))
    decreases |paths|
  {
    if paths == [] || server.Listable(paths[0]) {
    } else {
      var rest := paths[1..];
      FirstListableIsNearest(server, rest, depth + 1);
      var w := FirstListable(server, rest, depth + 1);
      assert paths == [paths[0]] + rest;
      if w.resolved != "" {
        PrefixCons(paths[0], rest, w.depth - depth);
      }
    }
  }

  lemma DirIsAbs(p: string)
    requires IsAbs(p)
    ensures IsAbs(Dir(p))
  {
    LastIndexIsLast(p, '/');
    assert p[..LastIndex(p, '/') + 1][0] == '/';
  }

  // A path in normal form that validatePath accepts.
  predicate Canonical(p: string) {
    IsAbs(p) && Clean(p) == p && ValidatePath(p) == None
  }

  lemma JoinIsCanonical(candidate: string, base: string)
    requires IsAbs(candidate) && Plain(base)
    ensures Canonical(PathJoin(candidate, base))
  {
    var segs := CleanSegs(candidate) + [base];
    CleanSegsJoin(candidate, base);
    CleanSegsPlain(candidate);
    hide PathJoin, CleanSegs;
    AbsPathValid(segs);
    CleanSegsOfAbsPath(segs);
  }

  // From any absolute directory, every path asked for is canonical.
  lemma {:induction false} AncestorPathsClean(candidate: string, base: string, depth: nat)
    requires IsAbs(candidate) && Plain(base)
    ensures forall p | p in AncestorPaths(candidate, base, depth) :: Canonical(p)
    decreases MAX_JUNCTION_DEPTH + 1 - depth
  {
    hide PathJoin, Dir, Canonical, IsAbs;
    if depth > MAX_JUNCTION_DEPTH {
    } else {
      JoinIsCanonical(candidate, base);
      DirIsAbs(candidate);
      AncestorPathsClean(Dir(candidate), base, depth + 1);
    }
  }

  // The i-th nearest ancestor of a clean directory, joined with a name.
  function AncestorPath(segs: seq<string>, i: nat, base: string): string
    requires i <= |segs|
  {
    AbsPath(segs[..|segs| - i] + [base])
  }

  lemma AncestorPathsStep(segs: seq<string>, base: string, depth: nat)
    requires AllPlain(segs) && Plain(base) && depth <= MAX_JUNCTION_DEPTH
    ensures AncestorPaths(AbsPath(segs), base, depth)
            == [AncestorPath(segs, 0, base)]
               + (if segs == [] then [] else AncestorPaths(AbsPath(segs[..|segs| - 1]), base, depth + 1))
  {
    var p := AbsPath(segs);
    CleanSegsOfAbsPath(segs);
    CleanSegsJoin(p, base);
    AbsPathEdges(segs);
    assert segs[..|segs|] == segs;
    if segs != [] {
      DirOfAbsPath(segs);
      AbsPathInjective(segs[..|segs| - 1], segs);
      assert |segs[..|segs| - 1]| != |segs|;
    }
  }

  function AncestorCount(n: nat, depth: nat): nat
    requires depth <= MAX_JUNCTION_DEPTH
  {
    if n < MAX_JUNCTION_DEPTH - depth then n + 1 else MAX_JUNCTION_DEPTH + 1 - depth
  }

  lemma AncestorPathsEnd(candidate: string, base: string)
    ensures AncestorPaths(candidate, base, MAX_JUNCTION_DEPTH + 1) == []
  {
  }

  lemma {:induction false} AncestorPathCount(segs: seq<string>, base: string, depth: nat)
    requires AllPlain(segs) && Plain(base) && depth <= MAX_JUNCTION_DEPTH
    ensures |AncestorPaths(AbsPath(segs), base, depth)| == AncestorCount(|segs|, depth)
    decreases MAX_JUNCTION_DEPTH - depth
  {
    hide AncestorPaths, AncestorPath, AbsPath, Plain;
    AncestorPathsStep(segs, base, depth);
    if segs == [] {
      assert AncestorCount(|segs|, depth) == 1;
    } else if depth == MAX_JUNCTION_DEPTH {
      AncestorPathsEnd(AbsPath(segs[..|segs| - 1]), base);
      assert AncestorCount(|segs|, depth) == 1;
    } else {
      var up := segs[..|segs| - 1];
      AncestorPathCount(up, base, depth + 1);
      assert AncestorCount(|segs|, depth) == 1 + AncestorCount(|up|, depth + 1);
    }
  }

  lemma {:induction false} AncestorPathAt(segs: seq<string>, base: string, depth: nat, i: nat)
    requires AllPlain(segs) && Plain(base) && depth <= MAX_JUNCTION_DEPTH
    requires i < AncestorCount(|segs|, depth)
    ensures i < |AncestorPaths(AbsPath(segs), base, depth)|
    ensures AncestorPaths(AbsPath(segs), base, depth)[i] == AncestorPath(segs, i, base)
    decreases i
  {
    hide AncestorPaths, AbsPath;
    AncestorPathCount(segs, base, depth);
    AncestorPathsStep(segs, base, depth);
    if i <= 0 {
    } else {
      var up := segs[..|segs| - 1];
      AncestorPathAt(up, base, depth + 1, i - 1);
      assert up[..|up| - (i - 1)] == segs[..|segs| - i];
    }
  }

  // From a clean directory of n segments: its nearest min(5, n + 1)
  // ancestors, itself first, each joined with the base name.
  lemma AncestorPathsOfClean(segs: seq<string>, base: string)
    requires AllPlain(segs) && Plain(base)
    ensures var ps := AncestorPaths(AbsPath(segs), base, 0);
            && |ps| == AncestorCount(|segs|, 0)
            && forall i | 0 <= i < |ps| :: ps[i] == AncestorPath(segs, i, base)
  {
    var ps := AncestorPaths(AbsPath(segs), base, 0);
    AncestorPathCount(segs, base, 0);
    forall i | 0 <= i < |ps| ensures ps[i] == AncestorPath(segs, i, base) {
      AncestorPathAt(segs, base, 0, i);
    }
  }

  // The walk as a whole, from a clean directory: it asks for the nearest
  // ancestors in order, answers with the nearest listable one and its depth,
  // and with "" exactly when none of them is listable.
  lemma AncestorWalkNearest(server: Server, segs: seq<string>, base: string)
    requires AllPlain(segs) && Plain(base)
    ensures var w := AncestorWalk(server, AbsPath(segs), base);
            var ps := AncestorPaths(AbsPath(segs), base, 0);
            && |ps| == (if |segs| < 4 then |segs| + 1 else 5)
            && (forall i | 0 <= i < |ps| :: ps[i] == AbsPath(segs[..|segs| - i] + [base]))
            && NearestListable(server, ps, 0, w)
  {
    var ps := AncestorPaths(AbsPath(segs), base, 0);
    AncestorPathsOfClean(segs, base);
    assert IsAbs(AbsPath(segs));
    hide AncestorPaths, AncestorPath, AbsPath, FirstListable, Clean, ValidatePath;
    AncestorPathsClean(AbsPath(segs), base, 0);
    FirstListableIsNearest(server, ps, 0);
  }

  // ---------------------------------------------------------------------
  // Rows: the server's Info, or the same wrapped as a directory
  // ---------------------------------------------------------------------

  function WithDirBit(m: bv32, isDir: bool): bv32 {
    if isDir then m | MODE_DIR else m & !MODE_DIR
  }

  datatype FileInfo =
    | Raw(info: Info)
    | WithDir(info: Info, isDir: bool, resolvedPath: string)
  {
    predicate IsDir() {
      if Raw? then info.IsDir() else isDir
    }

    function Mode(): bv32 {
      if Raw? then info.mode
      else WithDirBit(info.mode, isDir)
    }

    function ResolvedPath(): string {
      if Raw? then "" else resolvedPath
    }
  }

  // A row answers IsDir() and Mode() consistently, and wrapping leaves every
  // other bit alone.
  lemma ModeFollowsIsDir(fi: FileInfo)
    ensures fi.IsDir() <==> fi.Mode() & MODE_DIR != 0
  {
    DirBitSet(fi.info.mode);
    DirBitCleared(fi.info.mode);
  }

  lemma ModeKeepsSymlink(fi: FileInfo)
    ensures fi.Mode() & MODE_SYMLINK != 0 <==> fi.info.IsSymlink()
  {
    SymlinkBitKept(fi.info.mode);
  }

  // Nothing but the directory bit is set or cleared.
  predicate SameButDirBit(a: bv32, b: bv32) {
    (a ^ b) & !MODE_DIR == 0
  }

  lemma ModeTouchesDirBitOnly(fi: FileInfo)
    ensures SameButDirBit(fi.Mode(), fi.info.mode)
  {
    hide SameButDirBit, WithDirBit;
    SameSelf(fi.info.mode);
    if fi.WithDir? {
      DirBitSame(fi.info.mode, fi.isDir);
    }
  }

  lemma SameSelf(m: bv32)
    ensures SameButDirBit(m, m)
  {
  }

  lemma DirBitSame(m: bv32, isDir: bool)
    ensures SameButDirBit(WithDirBit(m, isDir), m)
  {
  }

  lemma DirBitSet(m: bv32)
    ensures (m | MODE_DIR) & MODE_DIR != 0
  {
  }

  lemma DirBitCleared(m: bv32)
    ensures (m & !MODE_DIR) & MODE_DIR == 0
  {
  }

  lemma SymlinkBitKept(m: bv32)
    ensures (m | MODE_DIR) & MODE_SYMLINK == m & MODE_SYMLINK
    ensures (m & !MODE_DIR) & MODE_SYMLINK == m & MODE_SYMLINK
  {
  }

  // One row: its FileInfo, the cached depth afterwards, the probes made.
  datatype Row = Row(fi: FileInfo, depth: nat, probes: seq<string>)

  predicate UsableBase(base: string) {
    base != "" && base != "." && base != "/" && base != ".."
  }

  function FollowTarget(server: Server, depth: nat, path: string, info: Info, target: string): Row {
    var r := if IsAbs(target) then Resolve(server, depth, target) else Resolution("", depth, []);
    if r.answer != "" then Row(WithDir(info, true, r.answer), r.depth, r.probes)
    else if UsableBase(Base(target)) then
      var w := AncestorWalk(server, path, Base(target));
      Row(if w.resolved != "" then WithDir(info, true, w.resolved) else Raw(info), r.depth, r.probes + w.probes)
    else Row(Raw(info), r.depth, r.probes)
  }

  function ListEntry(server: Server, depth: nat, path: string, info: Info): Row {
    if !info.IsSymlink() then Row(Raw(info), depth, [])
    else
      var joined := PathJoin(path, info.name);
      if server.Listable(joined) then Row(WithDir(info, true, ""), depth, [joined])
      else if joined in server.links && server.links[joined] != "" then
        var row := FollowTarget(server, depth, path, info, server.links[joined]);
        row.(probes := [joined] + row.probes)
      else Row(Raw(info), depth, [joined])
  }

  datatype Rows = Rows(out: seq<FileInfo>, depth: nat, probes: seq<string>)

  // The loop over the entries, with the cache threaded through. Written from
  // the end, as the loop builds it.
  function ListEntries(server: Server, depth: nat, path: string, infos: seq<Info>): (rows: Rows)
    ensures |rows.out| == |infos|
    decreases |infos|
  {
    if infos == [] then Rows([], depth, [])
    else
      var n := |infos| - 1;
      var front := ListEntries(server, depth, path, infos[..n]);
      var row := ListEntry(server, front.depth, path, infos[n]);
      Rows(front.out + [row.fi], row.depth, front.probes + row.probes)
  }

  datatype ListError = Invalid(error: PathError) | NotListable

  // ListDir's answer, the cache after it, and every ReadDir it makes.
  datatype Listed = Listed(answer: Result<seq<FileInfo>, ListError>, depth: nat, probes: seq<string>)

  function ListDir(server: Server, depth: nat, path: string): Listed {
    match ValidatePath(path)
    case Some(e) => Listed(Err(Invalid(e)), depth, [])
    case None =>
      match server.ReadDir(path)
      case None => Listed(Err(NotListable), depth, [path])
      case Some(infos) =>
        var rows := ListEntries(server, depth, path, infos);
        Listed(Ok(rows.out), rows.depth, [path] + rows.probes)
  }

  // ---------------------------------------------------------------------
  // Which links become directories, and to where
  // ---------------------------------------------------------------------

  // Some probe finds the link's destination. The cache plays no part.
  predicate LinkOpens(server: Server, path: string, info: Info) {
    var joined := PathJoin(path, info.name);
    || server.Listable(joined)
    || (joined in server.links && server.links[joined] != "" && TargetOpens(server, path, server.links[joined]))
  }

  predicate TargetOpens(server: Server, path: string, target: string) {
    || (IsAbs(target) && Resolvable(server, CleanSegs(target)))
    || (UsableBase(Base(target))
        && exists p | p in AncestorPaths(path, Base(target), 0) :: server.Listable(p))
  }

  lemma AncestorWalkFinds(server: Server, path: string, base: string)
    requires IsAbs(path) && Plain(base)
    ensures var w := AncestorWalk(server, path, base);
            && (w.resolved != "" <==> exists p | p in AncestorPaths(path, base, 0) :: server.Listable(p))
            && (w.resolved != "" ==> server.Listable(w.resolved) && ValidatePath(w.resolved) == None)
  {
    var ps := AncestorPaths(path, base, 0);
    AncestorPathsClean(path, base, 0);
    hide AncestorPaths, FirstListable, Clean, ValidatePath;
    FirstListableIsNearest(server, ps, 0);
  }

  lemma AbsoluteTargetFinds(server: Server, depth: nat, target: string)
    requires depth <= MAX_CHROOT_DEPTH && IsAbs(target)
    ensures var r := Resolve(server, depth, target);
            && r.depth <= MAX_CHROOT_DEPTH
            && (r.answer != "" <==> Resolvable(server, CleanSegs(target)))
            && (r.answer != "" ==> server.Listable(r.answer) && ValidatePath(r.answer) == None)
  {
    CleanSegsPlain(target);
    hide CleanSegs, Resolve, ValidatePath;
    ResolveCorrect(server, depth, target);
    var r := Resolve(server, depth, target);
    if r.answer != "" {
      AbsPathValid(CleanSegs(target)[r.depth..]);
    }
  }

  lemma FollowTargetCorrect(server: Server, depth: nat, path: string, info: Info, target: string)
    requires depth <= MAX_CHROOT_DEPTH && IsAbs(path)
    ensures var row := FollowTarget(server, depth, path, info, target);
            && row.depth <= MAX_CHROOT_DEPTH
            && row.fi.info == info
            && (row.fi.WithDir? <==> TargetOpens(server, path, target))
            && (row.fi.WithDir? ==> row.fi.isDir && row.fi.resolvedPath != "")
            && (row.fi.WithDir? ==>
                  server.Listable(row.fi.resolvedPath) && ValidatePath(row.fi.resolvedPath) == None)
  {
    hide AncestorPaths, AncestorWalk, CleanSegs, Resolve, ValidatePath, Base, Resolvable;
    if IsAbs(target) {
      AbsoluteTargetFinds(server, depth, target);
    }
    if UsableBase(Base(target)) {
      BaseNoSlash(target);
      AncestorWalkFinds(server, path, Base(target));
    }
  }

  lemma ListEntryCorrect(server: Server, depth: nat, path: string, info: Info)
    requires depth <= MAX_CHROOT_DEPTH && IsAbs(path)
    ensures var row := ListEntry(server, depth, path, info);
            && row.depth <= MAX_CHROOT_DEPTH
            && row.fi.info == info
            && (row.fi.WithDir? <==> info.IsSymlink() && LinkOpens(server, path, info))
            && (row.fi.WithDir? ==> row.fi.isDir)
            && (row.fi.WithDir? && row.fi.resolvedPath == "" ==> server.Listable(PathJoin(path, info.name)))
            && (row.fi.ResolvedPath() != "" ==>
                  server.Listable(row.fi.resolvedPath) && ValidatePath(row.fi.resolvedPath) == None)
  {
    var joined := PathJoin(path, info.name);
    if info.IsSymlink() && !server.Listable(joined) && joined in server.links && server.links[joined] != "" {
      FollowTargetCorrect(server, depth, path, info, server.links[joined]);
    }
  }

  lemma {:induction false} AncestorPathsFew(candidate: string, base: string, depth: nat)
    requires depth <= MAX_JUNCTION_DEPTH + 1
    ensures |AncestorPaths(candidate, base, depth)| <= MAX_JUNCTION_DEPTH + 1 - depth
    decreases MAX_JUNCTION_DEPTH + 1 - depth
  {
    hide PathJoin, Dir;
    if depth > MAX_JUNCTION_DEPTH {
    } else {
      AncestorPathsFew(Dir(candidate), base, depth + 1);
    }
  }

  lemma {:induction false} FirstListableProbes(server: Server, paths: seq<string>, depth: nat)
    ensures |FirstListable(server, paths, depth).probes| <= |paths|
    decreases |paths|
  {
    if paths == [] {
    } else {
      FirstListableProbes(server, paths[1..], depth + 1);
    }
  }

  // One row costs at most twelve ReadDir calls: one on the link, six for an
  // absolute target, five for the ancestors.
  lemma RowProbeBound(server: Server, depth: nat, path: string, info: Info)
    requires depth <= MAX_CHROOT_DEPTH
    ensures |ListEntry(server, depth, path, info).probes| <= 12
    ensures !info.IsSymlink() ==> ListEntry(server, depth, path, info).probes == []
  {
    var joined := PathJoin(path, info.name);
    hide PathJoin, Base, CleanSegs, Resolve, AncestorPaths, FirstListable, IsAbs;
    if joined in server.links {
      var target := server.links[joined];
      if IsAbs(target) {
        ResolveCorrect(server, depth, target);
      }
      AncestorPathsFew(path, Base(target), 0);
      FirstListableProbes(server, AncestorPaths(path, Base(target), 0), 0);
    }
  }

  lemma {:induction false} DiscoverInVain(server: Server, target: string, depth: nat)
    requires IsAbs(target) && |CleanSegs(target)| > MAX_CHROOT_DEPTH && 1 <= depth <= MAX_CHROOT_DEPTH + 1
    requires forall d | depth <= d <= MAX_CHROOT_DEPTH :: !Reaches(server, CleanSegs(target), d)
    ensures Discover(server, target, depth).answer == ""
    ensures |Discover(server, target, depth).probes| == MAX_CHROOT_DEPTH + 1 - depth
    decreases MAX_CHROOT_DEPTH + 1 - depth
  {
    hide CleanSegs, Candidate, AbsPath;
    if depth == MAX_CHROOT_DEPTH + 1 {
    } else {
      CandidateIsSuffix(target, depth);
      assert !Reaches(server, CleanSegs(target), depth);
      DiscoverInVain(server, target, depth + 1);
    }
  }

  // With something cached, that is one ReadDir more.
  lemma ResolveInVain(server: Server, depth: nat, target: string)
    requires 1 <= depth <= MAX_CHROOT_DEPTH
    requires IsAbs(target) && |CleanSegs(target)| > MAX_CHROOT_DEPTH && !Resolvable(server, CleanSegs(target))
    ensures Resolve(server, depth, target).answer == ""
    ensures |Resolve(server, depth, target).probes| == MAX_CHROOT_DEPTH + 1
  {
    hide CleanSegs, Candidate, Discover, AbsPath;
    CandidateIsSuffix(target, depth);
    assert !Reaches(server, CleanSegs(target), depth);
    DiscoverInVain(server, target, 1);
  }

  // The bound is reached whenever a link with a long target, in a directory
  // at least four segments down, leads nowhere while a depth is cached.
  lemma DeadLinkCosts(server: Server, depth: nat, segs: seq<string>, info: Info)
    requires 1 <= depth <= MAX_CHROOT_DEPTH && AllPlain(segs) && |segs| >= MAX_JUNCTION_DEPTH && info.IsSymlink()
    requires var joined := PathJoin(AbsPath(segs), info.name);
             && joined in server.links && IsAbs(server.links[joined])
             && |CleanSegs(server.links[joined])| > MAX_CHROOT_DEPTH && UsableBase(Base(server.links[joined]))
    requires !LinkOpens(server, AbsPath(segs), info)
    ensures |ListEntry(server, depth, AbsPath(segs), info).probes| == 12
  {
    var path := AbsPath(segs);
    var target := server.links[PathJoin(path, info.name)];
    BaseNoSlash(target);
    hide AbsPath, CleanSegs, PathJoin, Base, Resolve, AncestorPaths, FirstListable, AncestorPath;
    ResolveInVain(server, depth, target);
    AncestorWalkNearest(server, segs, Base(target));
    assert AncestorWalk(server, path, Base(target)).resolved == "";
  }

  // A server with one directory, and in it one link whose target has a name
  // that does not occur in the directory's path.
  function DeadLinkServer(dir: seq<string>, info: Info, target: seq<string>): Server {
    Server(map[AbsPath(dir) := [info]], map[AbsPath(dir + [info.name]) := AbsPath(target)], map[], {})
  }

  predicate DeadLink(dir: seq<string>, info: Info, target: seq<string>) {
    && AllPlain(dir) && AllPlain(target) && |dir| >= MAX_JUNCTION_DEPTH && |target| > MAX_CHROOT_DEPTH
    && info.IsSymlink() && Plain(info.name) && target[|target| - 1] !in dir
  }

  lemma DeadLinkListable(dir: seq<string>, info: Info, target: seq<string>, segs: seq<string>)
    requires AllPlain(dir) && AllPlain(segs)
    ensures DeadLinkServer(dir, info, target).Listable(AbsPath(segs)) <==> segs == dir
  {
    hide AbsPath, AllPlain;
    AbsPathInjective(segs, dir);
  }

  lemma BaseOfAbsPath(segs: seq<string>)
    requires AllPlain(segs) && segs != []
    ensures Base(AbsPath(segs)) == segs[|segs| - 1]
  {
    var front := if |segs| == 1 then "" else AbsPath(segs[..|segs| - 1]);
    var last := segs[|segs| - 1];
    AbsPathEdges(segs);
    AbsPathLast(segs);
    assert Plain(last);
    hide AbsPath, AllPlain;
    LastIndexAround(front, last, '/');
    assert AbsPath(segs) == front + ['/'] + last;
    assert AbsPath(segs)[|front| + 1..] == last;
  }

  lemma LastNotIn(dir: seq<string>, segs: seq<string>, name: string)
    requires name !in dir
    ensures segs + [name] != dir
  {
    assert (segs + [name])[|segs|] == name;
  }

  lemma DeadLinkUnresolvable(dir: seq<string>, info: Info, target: seq<string>)
    requires DeadLink(dir, info, target)
    ensures !Resolvable(DeadLinkServer(dir, info, target), target)
  {
    hide AbsPath, Plain, DeadLinkServer;
    forall d: nat | 1 <= d <= MAX_CHROOT_DEPTH ensures !Reaches(DeadLinkServer(dir, info, target), target, d) {
      DeadLinkListable(dir, info, target, target[d..]);
      LastNotIn(dir, target[d..|target| - 1], target[|target| - 1]);
      assert target[d..] == target[d..|target| - 1] + [target[|target| - 1]];
    }
  }

  lemma DeadLinkNoAncestor(dir: seq<string>, info: Info, target: seq<string>)
    requires DeadLink(dir, info, target)
    ensures forall p | p in AncestorPaths(AbsPath(dir), target[|target| - 1], 0) ::
              !DeadLinkServer(dir, info, target).Listable(p)
  {
    hide AbsPath, Plain, DeadLinkServer, AncestorPaths;
    var name := target[|target| - 1];
    AncestorPathsOfClean(dir, name);
    forall i: nat | i <= |dir| ensures !DeadLinkServer(dir, info, target).Listable(AncestorPath(dir, i, name)) {
      DeadLinkListable(dir, info, target, dir[..|dir| - i] + [name]);
      LastNotIn(dir, dir[..|dir| - i], name);
    }
  }

  // The strings on that server, as far as the link's row looks at them.
  lemma DeadLinkStrings(dir: seq<string>, info: Info, target: seq<string>)
    requires DeadLink(dir, info, target)
    ensures var server, path, name := DeadLinkServer(dir, info, target), AbsPath(dir), target[|target| - 1];
            var joined := PathJoin(path, info.name);
            && ValidatePath(path) == None && server.Listable(path) && server.dirs[path] == [info]
            && !server.Listable(joined) && joined in server.links && server.links[joined] == AbsPath(target)
            && IsAbs(AbsPath(target)) && CleanSegs(AbsPath(target)) == target
            && Base(AbsPath(target)) == name && UsableBase(name)
  {
    assert AllPlain(dir + [info.name]) && Plain(target[|target| - 1]);
    assert IsAbs(AbsPath(target)) && IsAbs(AbsPath(dir));
    hide AbsPath, CleanSegs, PathJoin, Base, ValidatePath;
    AbsPathValid(dir);
    CleanSegsOfAbsPath(dir);
    CleanSegsJoin(AbsPath(dir), info.name);
    CleanSegsOfAbsPath(target);
    BaseOfAbsPath(target);
    DeadLinkListable(dir, info, target, dir + [info.name]);
    assert |dir + [info.name]| != |dir|;
  }

  lemma OneEntry(server: Server, depth: nat, path: string, info: Info)
    requires ValidatePath(path) == None && path in server.dirs && server.dirs[path] == [info]
    ensures ListDir(server, depth, path).probes == [path] + ListEntry(server, depth, path, info).probes
  {
    hide ListEntry, ValidatePath;
    assert [info][..0] == [];
    assert ListEntries(server, depth, path, []) == Rows([], depth, []);
    var row := ListEntry(server, depth, path, info);
    assert ListEntries(server, depth, path, [info]).probes == [] + row.probes == row.probes;
  }

  // Listing that directory costs the link twelve ReadDir calls, and the
  // listing as a whole thirteen.
  lemma TwelveProbes(dir: seq<string>, info: Info, target: seq<string>, depth: nat)
    requires DeadLink(dir, info, target) && 1 <= depth <= MAX_CHROOT_DEPTH
    ensures var server, path := DeadLinkServer(dir, info, target), AbsPath(dir);
            && server.dirs[path] == [info]
            && |ListEntry(server, depth, path, info).probes| == 12
            && |ListDir(server, depth, path).probes| == 13
  {
    hide CleanSegs, PathJoin, Base, ListEntry, ListDir, ValidatePath, AbsPath, Plain, AllPlain, DeadLinkServer;
    hide AncestorPaths, Resolvable, UsableBase;
    var server, path := DeadLinkServer(dir, info, target), AbsPath(dir);
    DeadLinkStrings(dir, info, target);
    DeadLinkUnresolvable(dir, info, target);
    DeadLinkNoAncestor(dir, info, target);
    assert !LinkOpens(server, path, info);
    DeadLinkCosts(server, depth, dir, info);
    OneEntry(server, depth, path, info);
  }

  // Where a link leads: to itself if it opens, else to a suffix of its
  // absolute target, else to the nearest ancestor's directory of that name.
  lemma LinkDestination(server: Server, depth: nat, path: string, info: Info)
    requires depth <= MAX_CHROOT_DEPTH && IsAbs(path) && info.IsSymlink()
    ensures var fi := ListEntry(server, depth, path, info).fi;
            var joined := PathJoin(path, info.name);
            if server.Listable(joined) then fi == WithDir(info, true, "")
            else if joined !in server.links || server.links[joined] == "" then fi == Raw(info)
            else
              var target := server.links[joined];
              if IsAbs(target) && Resolvable(server, CleanSegs(target)) then
                exists d: nat | 1 <= d <= MAX_CHROOT_DEPTH && Reaches(server, CleanSegs(target), d) ::
                  fi == WithDir(info, true, AbsPath(CleanSegs(target)[d..]))
              else if UsableBase(Base(target)) && AncestorWalk(server, path, Base(target)).resolved != "" then
                fi == WithDir(info, true, AncestorWalk(server, path, Base(target)).resolved)
              else fi == Raw(info)
  {
    var joined := PathJoin(path, info.name);
    hide PathJoin, Base, CleanSegs, Resolve, AncestorWalk, Resolvable, AbsPath;
    if joined in server.links && IsAbs(server.links[joined]) {
      ResolveCorrect(server, depth, server.links[joined]);
    }
  }

  // What a row leaves cached: only a link that does not open itself and has
  // an absolute target touches the cache. Then it holds the number of
  // components dropped, or 0 if no number works.
  lemma EntryCaches(server: Server, depth: nat, path: string, info: Info)
    requires depth <= MAX_CHROOT_DEPTH && IsAbs(path)
    ensures var row, joined := ListEntry(server, depth, path, info), PathJoin(path, info.name);
            if info.IsSymlink() && joined !in server.dirs && joined in server.links && IsAbs(server.links[joined]) then
              var segs := CleanSegs(server.links[joined]);
              if row.depth == 0 then forall d | 1 <= d <= 5 && d < |segs| :: AbsPath(segs[d..]) !in server.dirs
              else
                1 <= row.depth <= 5 && row.depth < |segs| && AbsPath(segs[row.depth..]) in server.dirs
                && row.fi == WithDir(info, true, AbsPath(segs[row.depth..]))
            else row.depth == depth
  {
    hide CleanSegs, AbsPath, PathJoin, Resolve, AncestorWalk, Base, Resolvable;
    var joined := PathJoin(path, info.name);
    if joined in server.links && IsAbs(server.links[joined]) {
      ResolveCorrect(server, depth, server.links[joined]);
    }
  }

  // A link that does not open itself and leads to p under the mount.
  ghost predicate MountLink(server: Server, path: string, mount: seq<string>, info: Info, p: seq<string>) {
    var joined := PathJoin(path, info.name);
    info.IsSymlink() && joined !in server.dirs && joined in server.links
    && MountTarget(server, mount, server.links[joined], p)
  }

  lemma MountLinkRow(server: Server, path: string, mount: seq<string>, depth: nat, info: Info, p: seq<string>)
    requires 1 <= |mount| <= MAX_CHROOT_DEPTH && Unshadowed(server, mount) && MountLink(server, path, mount, info, p)
    requires depth == 0 || depth == |mount|
    ensures var row := ListEntry(server, depth, path, info);
            && row.fi == WithDir(info, true, AbsPath(p)) && row.depth == |mount|
            && |row.probes| == 1 + if depth == 0 then |mount| else 1
  {
    hide CleanSegs, AbsPath, PathJoin, Resolve, AncestorWalk, Base, Unshadowed;
    ResolveUnderMount(server, mount, depth, server.links[PathJoin(path, info.name)], p);
    AbsPathNotEmpty(p);
  }

  lemma RowsSnoc(server: Server, depth: nat, path: string, infos: seq<Info>)
    requires infos != []
    ensures var n := |infos| - 1;
            var front := ListEntries(server, depth, path, infos[..n]);
            var row := ListEntry(server, front.depth, path, infos[n]);
            && ListEntries(server, depth, path, infos)
               == Rows(front.out + [row.fi], row.depth, front.probes + row.probes)
            && (n == 0 ==> front == Rows([], depth, []))
  {
    hide ListEntry;
  }

  // A whole directory of such links, on one unshadowed mount: each leads to
  // its target without the mount. The depth is found on the first link and
  // used on all others: n links cost n ReadDir calls on the links themselves,
  // |mount| to find the depth if it is not known, and one for every other.
  lemma {:induction false} RowsUnderMount(
    server: Server, path: string, mount: seq<string>, depth: nat, infos: seq<Info>, ps: seq<seq<string>>)
    requires 1 <= |mount| <= MAX_CHROOT_DEPTH && Unshadowed(server, mount)
    requires depth == 0 || depth == |mount|
    requires |infos| == |ps| >= 1 && forall i | 0 <= i < |ps| :: MountLink(server, path, mount, infos[i], ps[i])
    ensures var rows := ListEntries(server, depth, path, infos);
            && rows.depth == |mount|
            && (forall i | 0 <= i < |infos| :: rows.out[i] == WithDir(infos[i], true, AbsPath(ps[i])))
            && |rows.probes| == 2 * |infos| - 1 + if depth == 0 then |mount| else 1
    decreases |infos|
  {
    hide ListEntry, ListEntries, MountLink, AbsPath, Unshadowed;
    var n := |infos| - 1;
    var front := infos[..n];
    RowsSnoc(server, depth, path, infos);
    if n == 0 {
      MountLinkRow(server, path, mount, depth, infos[0], ps[0]);
    } else {
      assert forall i | 0 <= i < n :: front[i] == infos[i] && ps[..n][i] == ps[i];
      RowsUnderMount(server, path, mount, depth, front, ps[..n]);
      MountLinkRow(server, path, mount, |mount|, infos[n], ps[n]);
    }
  }

  // Each row of a listing is the row of its entry under some cached depth.
  ghost predicate RowOf(server: Server, path: string, info: Info, fi: FileInfo) {
    exists d: nat | d <= MAX_CHROOT_DEPTH :: fi == ListEntry(server, d, path, info).fi
  }

  lemma {:induction false} RowsPointwise(server: Server, depth: nat, path: string, infos: seq<Info>)
    requires depth <= MAX_CHROOT_DEPTH && IsAbs(path)
    ensures var rows := ListEntries(server, depth, path, infos);
            && rows.depth <= MAX_CHROOT_DEPTH
            && forall i | 0 <= i < |infos| :: RowOf(server, path, infos[i], rows.out[i])
    decreases |infos|
  {
    hide ListEntry;
    if infos == [] {
    } else {
      var n := |infos| - 1;
      RowsPointwise(server, depth, path, infos[..n]);
      var front := ListEntries(server, depth, path, infos[..n]);
      ListEntryCorrect(server, front.depth, path, infos[n]);
      var out := ListEntries(server, depth, path, infos).out;
      forall i | 0 <= i < n ensures RowOf(server, path, infos[i], out[i]) {
        assert RowOf(server, path, infos[..n][i], front.out[i]);
      }
    }
  }

  // A successful listing has one row per server entry, in order. A row is
  // wrapped exactly when its entry is a link some probe opens, whatever the
  // cache holds; everything else is passed through untouched. A resolved
  // path is listable and passes validatePath again.
  lemma ListingKeepsRows(server: Server, depth: nat, path: string)
    requires depth <= MAX_CHROOT_DEPTH
    ensures var l := ListDir(server, depth, path);
            && l.depth <= MAX_CHROOT_DEPTH
            && (l.answer.Ok? <==> ValidatePath(path) == None && server.Listable(path))
            && (l.answer.Err? ==>
                  l.depth == depth
                  && match ValidatePath(path)
                     case Some(e) => l.answer == Err(Invalid(e)) && l.probes == []
                     case None => l.answer == Err(NotListable) && l.probes == [path])
            && (l.answer.Ok? ==>
                  var infos, out := server.dirs[path], l.answer.value;
                  && |out| == |infos|
                  && forall i | 0 <= i < |out| ::
                       && out[i].info == infos[i]
                       && (out[i].WithDir? <==> infos[i].IsSymlink() && LinkOpens(server, path, infos[i]))
                       && (out[i].WithDir? ==> out[i].IsDir())
                       && (out[i].ResolvedPath() != "" ==>
                             server.Listable(out[i].ResolvedPath()) && ValidatePath(out[i].ResolvedPath()) == None))
  {
    ValidatePathExact(path);
    if ValidatePath(path) == None && server.Listable(path) {
      var infos := server.dirs[path];
      var out := ListEntries(server, depth, path, infos).out;
      RowsPointwise(server, depth, path, infos);
      forall i | 0 <= i < |infos|
        ensures out[i].info == infos[i]
        ensures out[i].WithDir? <==> infos[i].IsSymlink() && LinkOpens(server, path, infos[i])
        ensures out[i].WithDir? ==> out[i].IsDir()
        ensures out[i].ResolvedPath() != "" ==>
                  server.Listable(out[i].ResolvedPath()) && ValidatePath(out[i].ResolvedPath()) == None
      {
        var d: nat :| d <= MAX_CHROOT_DEPTH && out[i] == ListEntry(server, d, path, infos[i]).fi;
        ListEntryCorrect(server, d, path, infos[i]);
      }
    }
  }

  // ---------------------------------------------------------------------
  // newBrowseEntry: what a click on the row asks for
  // ---------------------------------------------------------------------

  datatype BrowseEntry = BrowseEntry(
    name: string, isDir: bool, size: int, modTime: int,
    clickPath: string, isSymlink: bool, originalName: string)

  function NewBrowseEntry(fi: FileInfo, parent: string): BrowseEntry {
    BrowseEntry(
      fi.info.name, fi.IsDir(), fi.info.size, fi.info.modTime,
      if fi.ResolvedPath() != "" then fi.ResolvedPath() else JoinPath(parent, fi.info.name),
      fi.Mode() & MODE_SYMLINK != 0, fi.info.name)
  }

  // Every link presented as a directory can be clicked: its path is
  // accepted by validatePath and listable on the same server. The rows were
  // probed with filepath.Join but are clicked through joinPath.
  lemma PromotedLinksAreClickable(server: Server, depth: nat, path: string, i: nat)
    requires depth <= MAX_CHROOT_DEPTH && NearlyClean(path)
    requires ListDir(server, depth, path).answer.Ok?
    requires i < |server.dirs[path]| && Plain(server.dirs[path][i].name)
    ensures var infos, out := server.dirs[path], ListDir(server, depth, path).answer.value;
            var e := NewBrowseEntry(out[i], path);
            && e.name == e.originalName == infos[i].name && (e.isSymlink <==> infos[i].IsSymlink())
            && e.size == infos[i].size && e.modTime == infos[i].modTime
            && (e.isDir <==>
                  infos[i].mode & 0x8000_0000 != 0
                  || (infos[i].mode & 0x0800_0000 != 0 && LinkOpens(server, path, infos[i])))
            && (e.isDir <==> out[i].Mode() & 0x8000_0000 != 0)
            && (out[i].WithDir? ==>
                  e.isDir && ValidatePath(e.clickPath) == None && server.Listable(e.clickPath))
            && (out[i].Raw? ==> e.clickPath == PathJoin(path, infos[i].name))
  {
    ValidatePathExact(path);
    hide ValidatePath, Clean, CleanSegs, JoinPath, ListEntry, ListEntries, NearlyClean;
    var infos, out := server.dirs[path], ListDir(server, depth, path).answer.value;
    RowsPointwise(server, depth, path, infos);
    var d: nat :| d <= MAX_CHROOT_DEPTH && out[i] == ListEntry(server, d, path, infos[i]).fi;
    ListEntryCorrect(server, d, path, infos[i]);
    ModeFollowsIsDir(out[i]);
    ModeKeepsSymlink(out[i]);
    JoinsAgree(path, infos[i].name);
    CleanSegsJoin(path, infos[i].name);
    CleanSegsPlain(path);
    AbsPathValid(CleanSegs(path) + [infos[i].name]);
  }

  // ---------------------------------------------------------------------
  // When the listing does not depend on the cache
  // ---------------------------------------------------------------------

  // Every absolute link target below the directory resolves unambiguously.
  predicate UnambiguousLinks(server: Server, path: string, infos: seq<Info>) {
    forall i | 0 <= i < |infos| ::
      var joined := PathJoin(path, infos[i].name);
      joined in server.links && IsAbs(server.links[joined]) ==>
        Unambiguous(server, CleanSegs(server.links[joined]))
  }

  lemma EntryCacheIndependent(server: Server, a: nat, b: nat, path: string, info: Info)
    requires a <= MAX_CHROOT_DEPTH && b <= MAX_CHROOT_DEPTH
    requires UnambiguousLinks(server, path, [info])
    ensures ListEntry(server, a, path, info).fi == ListEntry(server, b, path, info).fi
  {
    hide PathJoin, Base, CleanSegs, Resolve, AncestorWalk, Unambiguous;
    var joined := PathJoin(path, info.name);
    assert [info][0] == info;
    if joined in server.links && IsAbs(server.links[joined]) {
      CacheIndependence(server, server.links[joined]);
      assert Resolve(server, a, server.links[joined]).answer == Resolve(server, b, server.links[joined]).answer;
    }
  }

  lemma {:induction false} ListingCacheIndependent(server: Server, a: nat, b: nat, path: string, infos: seq<Info>)
    requires a <= MAX_CHROOT_DEPTH && b <= MAX_CHROOT_DEPTH && IsAbs(path)
    requires UnambiguousLinks(server, path, infos)
    ensures ListEntries(server, a, path, infos).out == ListEntries(server, b, path, infos).out
    decreases |infos|
  {
    if infos == [] {
    } else {
      var n := |infos| - 1;
      ListingCacheIndependent(server, a, b, path, infos[..n]);
      RowsPointwise(server, a, path, infos[..n]);
      RowsPointwise(server, b, path, infos[..n]);
      EntryCacheIndependent(server, ListEntries(server, a, path, infos[..n]).depth,
                            ListEntries(server, b, path, infos[..n]).depth, path, infos[n]);
    }
  }
}
