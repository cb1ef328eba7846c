// When the archive walk ends: exactly if no directory is entered again while
// it is being walked. Junctions on an NTFS volume do lead back that way.
module Cycles {
  import opened Basics
  import opened GoPath
  import opened SftpServer
  import opened Resolver
  import opened Listing
  import opened Archive

  // ---------------------------------------------------------------------
  // Calls of the walker inside calls of the walker
  // ---------------------------------------------------------------------

  // A call: the depth the session has cached, and the arguments.
  datatype Call = Call(depth: nat, node: Node)

  // The loop gets over these rows, and then this depth is cached.
  ghost predicate GetsOver(server: Server, depth: nat, node: Node, rows: seq<FileInfo>, after: nat) {
    exists budget: nat ::
      WalkRows(server, budget, depth, node, rows).status == Done
      && WalkRows(server, budget, depth, node, rows).depth == after
  }

  // While a is at work it calls b, for its i-th row.
  ghost predicate CallsForRow(server: Server, a: Call, b: Call, i: nat) {
    var l := ListDir(server, a.depth, a.node.abs);
    && a.node.isDir && Succeeds(server, a.node)
    && l.answer.Ok? && i < |l.answer.value|
    && b.node == ChildOf(a.node, l.answer.value[i])
    && GetsOver(server, l.depth, a.node, l.answer.value[..i], b.depth)
  }

  ghost predicate Calls(server: Server, a: Call, b: Call) {
    exists i: nat :: CallsForRow(server, a, b, i)
  }

  // Each call is made by the one before it.
  ghost predicate IsChain(server: Server, chain: seq<Call>) {
    chain != [] && forall k | 0 < k < |chain| :: Calls(server, chain[k - 1], chain[k])
  }

  // The same but for the name in the archive.
  predicate Alike(a: Call, b: Call) {
    a.depth == b.depth && a.node.abs == b.node.abs && a.node.isDir == b.node.isDir
  }

  ghost predicate ReentersIn(server: Server, root: Call, chain: seq<Call>, j: nat, k: nat) {
    IsChain(server, chain) && chain[0] == root && j < k < |chain| && Alike(chain[j], chain[k])
  }

  // Somewhere below this call a directory is entered again, with the same
  // depth cached, while it is still being walked.
  ghost predicate Reenters(server: Server, depth: nat, node: Node) {
    exists chain: seq<Call>, j: nat, k: nat :: ReentersIn(server, Call(depth, node), chain, j, k)
  }

  // ---------------------------------------------------------------------
  // A directory entered again is never done
  // ---------------------------------------------------------------------

  lemma {:induction false} AlikeWalks(server: Server, budget: nat, a: Call, b: Call)
    requires Alike(a, b)
    ensures var v, w := Walk(server, budget, a.depth, a.node), Walk(server, budget, b.depth, b.node);
            v.status == w.status && v.depth == w.depth
    decreases budget, 0
  {
    hide StatOk, OpenOk, HeaderName, Listing.ListDir, Walk, WalkRows;
    WalkUnfold(server, budget, a.depth, a.node);
    WalkUnfold(server, budget, b.depth, b.node);
    var l := ListDir(server, a.depth, a.node.abs);
    if budget == 0 || !a.node.isDir || !Succeeds(server, a.node) {
    } else {
      AlikeRows(server, budget - 1, l.depth, a.node, b.node, l.answer.value);
    }
  }

  lemma {:induction false} AlikeRows(
    server: Server, budget: nat, depth: nat, a: Node, b: Node, rows: seq<FileInfo>)
    requires a.abs == b.abs
    ensures var v, w := WalkRows(server, budget, depth, a, rows), WalkRows(server, budget, depth, b, rows);
            v.status == w.status && v.depth == w.depth
    decreases budget, |rows| + 1
  {
    hide Walk, WalkRows, ChildAbs, PathJoin;
    RowsUnfold(server, budget, depth, a, rows);
    RowsUnfold(server, budget, depth, b, rows);
    if rows == [] {
    } else {
      AlikeWalks(server, budget, Call(depth, ChildOf(a, rows[0])), Call(depth, ChildOf(b, rows[0])));
      var first := Walk(server, budget, depth, ChildOf(a, rows[0]));
      if first.status == Done {
        AlikeRows(server, budget, first.depth, a, b, rows[1..]);
      }
    }
  }

  // The loop over some rows, and then over the rest.
  lemma {:induction false} RowsSplit(server: Server, budget: nat, depth: nat, node: Node, rows: seq<FileInfo>, i: nat)
    requires i <= |rows|
    ensures var w := WalkRows(server, budget, depth, node, rows);
            var front := WalkRows(server, budget, depth, node, rows[..i]);
            if front.status != Done then w.status == front.status
            else w.status == WalkRows(server, budget, front.depth, node, rows[i..]).status
    decreases i
  {
    hide Walk, WalkRows, ChildOf;
    RowsUnfold(server, budget, depth, node, rows[..i]);
    if i == 0 {
      assert rows[0..] == rows;
    } else {
      RowsUnfold(server, budget, depth, node, rows);
      assert rows[..i][1..] == rows[1..][..i - 1] && rows[..i][0] == rows[0];
      assert rows[1..][i - 1..] == rows[i..];
      var first := Walk(server, budget, depth, ChildOf(node, rows[0]));
      RowsSplit(server, budget, first.depth, node, rows[1..], i - 1);
    }
  }

  // If a call gets stuck, so does the call that made it.
  lemma CallStuck(server: Server, a: Call, b: Call, n: nat)
    requires Calls(server, a, b) && Walk(server, n, b.depth, b.node).status == TooDeep
    ensures Walk(server, n + 1, a.depth, a.node).status == TooDeep
  {
    hide StatOk, OpenOk, HeaderName, Listing.ListDir, Walk, WalkRows, ChildOf;
    WalkUnfold(server, n + 1, a.depth, a.node);
    var i: nat :| CallsForRow(server, a, b, i);
    var l := ListDir(server, a.depth, a.node.abs);
    var rows := l.answer.value;
    var m: nat :| WalkRows(server, m, l.depth, a.node, rows[..i]).status == Done
                  && WalkRows(server, m, l.depth, a.node, rows[..i]).depth == b.depth;
    hide CallsForRow;
    RowsSplit(server, n, l.depth, a.node, rows, i);
    if WalkRows(server, n, l.depth, a.node, rows[..i]).status != TooDeep {
      var most := if m <= n then n else m;
      MoreBudgetRows(server, m, most, l.depth, a.node, rows[..i]);
      MoreBudgetRows(server, n, most, l.depth, a.node, rows[..i]);
      RowsUnfold(server, n, b.depth, a.node, rows[i..]);
      assert rows[i..][0] == rows[i];
    }
  }

  lemma {:induction false} ChainStuck(server: Server, chain: seq<Call>, n: nat)
    requires IsChain(server, chain)
    requires n >= |chain| ==>
               Walk(server, n + 1 - |chain|, chain[|chain| - 1].depth, chain[|chain| - 1].node).status == TooDeep
    ensures Walk(server, n, chain[0].depth, chain[0].node).status == TooDeep
    decreases |chain|
  {
    hide Walk, Calls;
    WalkUnfold(server, n, chain[0].depth, chain[0].node);
    if n == 0 || |chain| == 1 {
    } else {
      var tail := chain[1..];
      forall k | 0 < k < |tail| ensures Calls(server, tail[k - 1], tail[k]) {
        assert Calls(server, chain[k], chain[k + 1]);
      }
      ChainStuck(server, tail, n - 1);
      assert Calls(server, chain[0], chain[1]);
      CallStuck(server, chain[0], chain[1], n - 1);
    }
  }

  lemma {:induction false} LoopStuck(server: Server, chain: seq<Call>, n: nat)
    requires IsChain(server, chain) && |chain| > 1 && Alike(chain[0], chain[|chain| - 1])
    ensures Walk(server, n, chain[0].depth, chain[0].node).status == TooDeep
    decreases n
  {
    hide Walk, IsChain;
    if n < |chain| {
    } else {
      LoopStuck(server, chain, n + 1 - |chain|);
      AlikeWalks(server, n + 1 - |chain|, chain[0], chain[|chain| - 1]);
    }
    ChainStuck(server, chain, n);
  }

  lemma ChainPart(server: Server, chain: seq<Call>, j: nat, k: nat)
    requires IsChain(server, chain) && j < k <= |chain|
    ensures IsChain(server, chain[j..k])
  {
    hide Calls;
    forall i | 0 < i < k - j ensures Calls(server, chain[j..k][i - 1], chain[j..k][i]) {
      assert Calls(server, chain[j + i - 1], chain[j + i]);
    }
  }

  // If a directory is entered again, the walk never ends: however large the
  // budget, it is used up, and the archive has grown past it.
  lemma ReentryNeverEnds(server: Server, budget: nat, depth: nat, node: Node)
    requires Reenters(server, depth, node)
    ensures var w := Walk(server, budget, depth, node); w.status == TooDeep && |w.names| >= budget
  {
    hide Walk, IsChain;
    var chain, j: nat, k: nat :| ReentersIn(server, Call(depth, node), chain, j, k);
    ChainPart(server, chain, j, k + 1);
    ChainPart(server, chain, 0, j + 1);
    if budget > j {
      LoopStuck(server, chain[j..k + 1], budget - j);
    }
    assert chain[0..j + 1][j] == chain[j];
    ChainStuck(server, chain[0..j + 1], budget);
    TooDeepEmits(server, budget, depth, node);
  }

  // ---------------------------------------------------------------------
  // A walk that gets deep enough has entered a directory again
  // ---------------------------------------------------------------------

  lemma {:induction false} RowsStuck(server: Server, budget: nat, depth: nat, node: Node, rows: seq<FileInfo>)
    returns (i: nat, after: nat)
    requires WalkRows(server, budget, depth, node, rows).status == TooDeep
    ensures i < |rows| && GetsOver(server, depth, node, rows[..i], after)
    ensures WalkRows(server, budget, depth, node, rows[..i]).status == Done
    ensures WalkRows(server, budget, depth, node, rows[..i]).depth == after
    ensures Walk(server, budget, after, ChildOf(node, rows[i])).status == TooDeep
    decreases |rows|
  {
    hide Walk, WalkRows, ChildOf;
    RowsUnfold(server, budget, depth, node, rows);
    var first := Walk(server, budget, depth, ChildOf(node, rows[0]));
    if first.status == TooDeep {
      i, after := 0, depth;
      assert rows[..0] == [];
      RowsUnfold(server, budget, depth, node, rows[..0]);
    } else {
      var rest;
      rest, after := RowsStuck(server, budget, first.depth, node, rows[1..]);
      i := rest + 1;
      RowsUnfold(server, budget, depth, node, rows[..i]);
      assert rows[..i][1..] == rows[1..][..rest] && rows[..i][0] == rows[0];
    }
  }

  lemma {:induction false} DeepChain(server: Server, n: nat, a: Call) returns (chain: seq<Call>)
    requires Walk(server, n, a.depth, a.node).status == TooDeep
    ensures IsChain(server, chain) && chain[0] == a && |chain| == n + 1
    decreases n
  {
    hide StatOk, OpenOk, HeaderName, Listing.ListDir, Walk, WalkRows, GetsOver, ChildOf;
    WalkUnfold(server, n, a.depth, a.node);
    if n == 0 {
      chain := [a];
    } else {
      var l := ListDir(server, a.depth, a.node.abs);
      var i, after := RowsStuck(server, n - 1, l.depth, a.node, l.answer.value);
      var b := Call(after, ChildOf(a.node, l.answer.value[i]));
      assert CallsForRow(server, a, b, i);
      hide CallsForRow;
      var rest := DeepChain(server, n - 1, b);
      chain := [a] + rest;
      forall k | 0 < k < |chain| ensures Calls(server, chain[k - 1], chain[k]) {
        if k > 1 {
          assert Calls(server, rest[k - 2], rest[k - 1]);
        }
      }
    }
  }

  // Where a call stands: its directory and the depth cached.
  ghost predicate Stands(server: Server, a: Call) {
    a.node.isDir && server.Listable(a.node.abs) && a.depth <= MAX_CHROOT_DEPTH
  }

  lemma CallsKeepDepthSmall(server: Server, a: Call, b: Call)
    requires Calls(server, a, b) && a.depth <= MAX_CHROOT_DEPTH
    ensures Stands(server, a) && b.depth <= MAX_CHROOT_DEPTH
  {
    hide StatOk, OpenOk, Listing.ListDir, WalkRows, ChildOf;
    var i: nat :| CallsForRow(server, a, b, i);
    var l := ListDir(server, a.depth, a.node.abs);
    var m: nat :| WalkRows(server, m, l.depth, a.node, l.answer.value[..i]).status == Done
                  && WalkRows(server, m, l.depth, a.node, l.answer.value[..i]).depth == b.depth;
    ListDirOk(server, a.depth, a.node.abs);
    DepthStaysSmallRows(server, m, l.depth, a.node, l.answer.value[..i]);
  }

  lemma {:induction false} ChainStands(server: Server, chain: seq<Call>, k: nat)
    requires IsChain(server, chain) && chain[0].depth <= MAX_CHROOT_DEPTH && k < |chain|
    ensures chain[k].depth <= MAX_CHROOT_DEPTH && (k + 1 < |chain| ==> Stands(server, chain[k]))
    decreases k
  {
    hide Calls;
    if k == 0 {
    } else {
      ChainStands(server, chain, k - 1);
      CallsKeepDepthSmall(server, chain[k - 1], chain[k]);
    }
    if k + 1 < |chain| {
      assert Calls(server, chain[k + 1 - 1], chain[k + 1]);
      CallsKeepDepthSmall(server, chain[k], chain[k + 1]);
    }
  }

  function Pairs(abss: set<string>, n: nat): set<(string, nat)> {
    set a: string, d: nat | a in abss && d < n :: (a, d)
  }

  lemma {:induction false} PairsOfOne(a: string, n: nat)
    ensures |Pairs({a}, n)| == n
    decreases n
  {
    if n == 0 {
      assert Pairs({a}, 0) == {};
    } else {
      PairsOfOne(a, n - 1);
      assert Pairs({a}, n) == Pairs({a}, n - 1) + {(a, (n - 1) as nat)};
    }
  }

  lemma PairsApart(abss: set<string>, a: string, n: nat)
    requires a in abss
    ensures Pairs(abss, n) == Pairs(abss - {a}, n) + Pairs({a}, n)
    ensures Pairs(abss - {a}, n) !! Pairs({a}, n)
  {
  }

  lemma {:induction false} PairsCount(abss: set<string>, n: nat)
    ensures |Pairs(abss, n)| == |abss| * n
    decreases |abss|
  {
    if abss == {} {
      assert Pairs(abss, n) == {};
    } else {
      var a :| a in abss;
      CountOneMore(abss, a, n);
      PairsCount(abss - {a}, n);
      assert (|abss| - 1) * n + n == |abss| * n;
    }
  }

  lemma CountOneMore(abss: set<string>, a: string, n: nat)
    requires a in abss
    ensures |abss - {a}| == |abss| - 1
    ensures |Pairs(abss, n)| == |Pairs(abss - {a}, n)| + n
  {
    hide Pairs;
    PairsApart(abss, a, n);
    PairsOfOne(a, n);
  }

  lemma {:induction false} Pigeonhole<T>(xs: seq<T>, holes: set<T>) returns (j: nat, k: nat)
    requires (forall x | x in xs :: x in holes) && |xs| > |holes|
    ensures j < k < |xs| && xs[j] == xs[k]
    decreases |xs|
  {
    var n := |xs| - 1;
    var last := xs[n];
    if last in xs[..n] {
      j :| 0 <= j < n && xs[..n][j] == last;
      k := n;
    } else {
      assert last in xs && |holes - {last}| == |holes| - 1;
      forall x | x in xs[..n] ensures x in holes - {last} {
        assert x in xs;
      }
      j, k := Pigeonhole(xs[..n], holes - {last});
    }
  }

  // More nested calls than pairs of a directory and a cached depth.
  function Enough(server: Server): nat {
    |server.dirs| * (MAX_CHROOT_DEPTH + 1) + 1
  }

  lemma LongChainReenters(server: Server, chain: seq<Call>)
    requires IsChain(server, chain) && chain[0].depth <= MAX_CHROOT_DEPTH && |chain| > Enough(server)
    ensures Reenters(server, chain[0].depth, chain[0].node)
  {
    var n := Enough(server);
    var places := seq(n, k requires 0 <= k < n => (chain[k].node.abs, chain[k].depth));
    PairsCount(server.dirs.Keys, MAX_CHROOT_DEPTH + 1);
    assert |server.dirs.Keys| == |server.dirs|;
    forall k | 0 <= k < n
      ensures Stands(server, chain[k]) && places[k] in Pairs(server.dirs.Keys, MAX_CHROOT_DEPTH + 1)
    {
      ChainStands(server, chain, k);
    }
    hide IsChain;
    var j, k := Pigeonhole(places, Pairs(server.dirs.Keys, MAX_CHROOT_DEPTH + 1));
    assert Stands(server, chain[j]) && Stands(server, chain[k]);
    assert ReentersIn(server, Call(chain[0].depth, chain[0].node), chain, j, k);
  }

  lemma DeepWalkReenters(server: Server, depth: nat, node: Node)
    requires depth <= MAX_CHROOT_DEPTH
    ensures Walk(server, Enough(server), depth, node).status == TooDeep ==> Reenters(server, depth, node)
  {
    hide Walk, Reenters, Enough, IsChain;
    if Walk(server, Enough(server), depth, node).status == TooDeep {
      var chain := DeepChain(server, Enough(server), Call(depth, node));
      LongChainReenters(server, chain);
    }
  }

  // On every server, the walk ends for some budget exactly when no directory
  // is entered again while it is being walked; and then one more nested call
  // than there are directories and depths to cache is enough.
  lemma EndsIffNotReentered(server: Server, depth: nat, node: Node)
    requires depth <= MAX_CHROOT_DEPTH
    ensures (exists budget: nat :: Walk(server, budget, depth, node).status != TooDeep)
            <==> !Reenters(server, depth, node)
    ensures !Reenters(server, depth, node) ==> Walk(server, Enough(server), depth, node).status != TooDeep
    ensures Enough(server) == 6 * |server.dirs| + 1
  {
    hide Walk, Reenters;
    if Reenters(server, depth, node) {
      forall budget: nat ensures Walk(server, budget, depth, node).status == TooDeep {
        ReentryNeverEnds(server, budget, depth, node);
      }
    } else {
      DeepWalkReenters(server, depth, node);
      assert Walk(server, Enough(server), depth, node).status != TooDeep;
    }
  }

  // ---------------------------------------------------------------------
  // A static criterion: a rank on the directories below the root
  // ---------------------------------------------------------------------

  // The set is closed under stepping into a directory, whatever is cached,
  // and a rank drops along every such step.
  ghost predicate Acyclic(server: Server, inside: set<string>, rank: string -> nat) {
    forall abs: string, d: nat, i: nat
      | abs in inside && d <= MAX_CHROOT_DEPTH
        && ListDir(server, d, abs).answer.Ok? && i < |ListDir(server, d, abs).answer.value| ::
      var row := ListDir(server, d, abs).answer.value[i];
      row.IsDir() ==> ChildAbs(abs, row) in inside && rank(ChildAbs(abs, row)) < rank(abs)
  }

  function Budget(rank: string -> nat, node: Node): nat {
    if node.isDir then rank(node.abs) + 2 else 1
  }

  ghost predicate RowsBelow(inside: set<string>, rank: string -> nat, bound: nat, abs: string, rows: seq<FileInfo>) {
    forall i | 0 <= i < |rows| ::
      rows[i].IsDir() ==> ChildAbs(abs, rows[i]) in inside && rank(ChildAbs(abs, rows[i])) < bound
  }

  lemma {:induction false} RankEnds(
    server: Server, inside: set<string>, rank: string -> nat, budget: nat, depth: nat, node: Node)
    requires Acyclic(server, inside, rank) && (node.isDir ==> node.abs in inside)
    requires depth <= MAX_CHROOT_DEPTH && budget >= Budget(rank, node)
    ensures Walk(server, budget, depth, node).status != TooDeep
    decreases budget, 0
  {
    hide StatOk, OpenOk, HeaderName, Listing.ListDir, Walk, ChildAbs;
    WalkUnfold(server, budget, depth, node);
    if !node.isDir || !Succeeds(server, node) {
    } else {
      var l := ListDir(server, depth, node.abs);
      ListDirOk(server, depth, node.abs);
      assert RowsBelow(inside, rank, rank(node.abs), node.abs, l.answer.value);
      hide Acyclic, RowsBelow;
      RankEndsRows(server, inside, rank, budget - 1, l.depth, node, l.answer.value);
    }
  }

  lemma {:induction false} RankEndsRows(
    server: Server, inside: set<string>, rank: string -> nat, budget: nat, depth: nat, node: Node,
    rows: seq<FileInfo>)
    requires Acyclic(server, inside, rank) && depth <= MAX_CHROOT_DEPTH
    requires budget >= 1 && RowsBelow(inside, rank, budget - 1, node.abs, rows)
    ensures WalkRows(server, budget, depth, node, rows).status != TooDeep
    decreases budget, |rows| + 1
  {
    hide Acyclic, Walk, WalkRows, ChildAbs;
    RowsUnfold(server, budget, depth, node, rows);
    if rows == [] {
    } else {
      var child := ChildOf(node, rows[0]);
      assert rows[0].IsDir() ==>
          ChildAbs(node.abs, rows[0]) in inside && rank(ChildAbs(node.abs, rows[0])) < budget - 1;
      RankEnds(server, inside, rank, budget, depth, child);
      DepthStaysSmall(server, budget, depth, child);
      var first := Walk(server, budget, depth, child);
      if first.status == Done {
        RankEndsRows(server, inside, rank, budget, first.depth, node, rows[1..]);
      }
    }
  }

  // So the walk of an acyclic part of a server ends, whatever cycles the
  // server has elsewhere.
  lemma AcyclicEnds(server: Server, inside: set<string>, rank: string -> nat, depth: nat, node: Node)
    requires Acyclic(server, inside, rank) && (node.isDir ==> node.abs in inside) && depth <= MAX_CHROOT_DEPTH
    ensures Walk(server, Budget(rank, node), depth, node).status != TooDeep
    ensures !Reenters(server, depth, node)
  {
    hide Acyclic, Walk, Reenters;
    RankEnds(server, inside, rank, Budget(rank, node), depth, node);
    EndsIffNotReentered(server, depth, node);
  }

  // ---------------------------------------------------------------------
  // Trees that do not depend on the cache
  // ---------------------------------------------------------------------

  // This listing does not depend on what the session has cached.
  ghost predicate Stable(server: Server, abs: string) {
    forall d: nat | d <= MAX_CHROOT_DEPTH :: ListDir(server, d, abs).answer == ListDir(server, 0, abs).answer
  }

  // It is enough that its link targets resolve unambiguously.
  lemma UnambiguousIsStable(server: Server, abs: string)
    requires abs in server.dirs ==> UnambiguousLinks(server, abs, server.dirs[abs])
    ensures Stable(server, abs)
  {
    forall d: nat | d <= MAX_CHROOT_DEPTH ensures ListDir(server, d, abs).answer == ListDir(server, 0, abs).answer {
      ValidatePathExact(abs);
      hide ValidatePath, ListEntries;
      if ValidatePath(abs) == None && abs in server.dirs {
        ListingCacheIndependent(server, d, 0, abs, server.dirs[abs]);
      }
    }
  }

  // So is every listing below the node.
  ghost predicate Settled(server: Server, node: Node) {
    forall pos | Exists(server, COLD, node, pos) :: Stable(server, NodeAt(server, COLD, node, pos).value.abs)
  }

  // No call made anywhere below the node fails.
  ghost predicate AllSucceed(server: Server, node: Node) {
    forall pos | Exists(server, COLD, node, pos) :: Succeeds(server, NodeAt(server, COLD, node, pos).value)
  }

  predicate Small(c: Caches) {
    c.depth <= MAX_CHROOT_DEPTH && forall i | 0 <= i < |c.below| :: Small(c.below[i])
  }

  lemma {:induction false} CachesSmall(server: Server, budget: nat, depth: nat, node: Node)
    requires depth <= MAX_CHROOT_DEPTH
    ensures Small(CachesOf(server, budget, depth, node))
    decreases budget, 0
  {
    hide Listing.ListDir;
    ListDirOk(server, depth, node.abs);
    var l := ListDir(server, depth, node.abs);
    if budget == 0 || !node.isDir || l.answer.Err? {
    } else {
      CachesSmallRows(server, budget - 1, l.depth, node, l.answer.value);
    }
  }

  lemma {:induction false} CachesSmallRows(
    server: Server, budget: nat, depth: nat, node: Node, rows: seq<FileInfo>)
    requires depth <= MAX_CHROOT_DEPTH
    ensures forall c | c in CachesOfRows(server, budget, depth, node, rows) :: Small(c)
    decreases budget, |rows| + 1
  {
    hide Walk, ChildOf, CachesOf;
    if rows == [] {
    } else {
      var child := ChildOf(node, rows[0]);
      CachesSmall(server, budget, depth, child);
      DepthStaysSmall(server, budget, depth, child);
      CachesSmallRows(server, budget, Walk(server, budget, depth, child).depth, node, rows[1..]);
    }
  }

  lemma SettledKid(server: Server, node: Node, i: nat)
    requires Settled(server, node) && i < |Kids(server, 0, node)|
    ensures Settled(server, Kids(server, 0, node)[i])
  {
    hide Kids, Stable;
    var kid := Kids(server, 0, node)[i];
    forall pos | Exists(server, COLD, kid, pos) ensures Stable(server, NodeAt(server, COLD, kid, pos).value.abs) {
      KidPosition(server, COLD, node, i, pos);
      assert Exists(server, COLD, node, [i] + pos);
    }
  }

  lemma SettledHere(server: Server, node: Node, d: nat)
    requires Settled(server, node) && d <= MAX_CHROOT_DEPTH
    ensures Kids(server, d, node) == Kids(server, 0, node)
  {
    assert NodeAt(server, COLD, node, []) == Some(node) && Exists(server, COLD, node, []);
    assert Stable(server, node.abs);
    hide Listing.ListDir;
  }

  // Then the tree is the same whatever is cached.
  lemma {:induction false} SettledTree(server: Server, c: Caches, node: Node, pos: seq<nat>)
    requires Settled(server, node) && Small(c)
    ensures NodeAt(server, c, node, pos) == NodeAt(server, COLD, node, pos)
    decreases |pos|
  {
    hide Kids, Settled;
    if pos == [] {
    } else {
      SettledHere(server, node, c.depth);
      if pos[0] < |Kids(server, 0, node)| {
        SettledKid(server, node, pos[0]);
        SettledTree(server, Below(c, pos[0]), Kids(server, 0, node)[pos[0]], pos[1..]);
      }
    }
  }

  // So the reference order is the same, ...
  lemma {:induction false} SettledPositions(server: Server, c: Caches, bound: nat, node: Node)
    requires Settled(server, node) && Small(c)
    ensures Positions(server, c, bound, node) == Positions(server, COLD, bound, node)
    decreases bound, 0
  {
    if bound == 0 {
    } else {
      SettledHere(server, node, c.depth);
      hide Kids, Settled, Small;
      SettledPositionsFrom(server, c, bound - 1, node, 0);
    }
  }

  lemma {:induction false} SettledPositionsFrom(server: Server, c: Caches, bound: nat, node: Node, i: nat)
    requires Settled(server, node) && Small(c)
    ensures var kids := Kids(server, 0, node);
            PositionsFrom(server, c, bound, kids, i) == PositionsFrom(server, COLD, bound, kids, i)
    decreases bound, if i < |Kids(server, 0, node)| then |Kids(server, 0, node)| - i + 1 else 1
  {
    hide Kids, Settled, Positions, Under;
    if i >= |Kids(server, 0, node)| {
    } else {
      SettledKid(server, node, i);
      SettledPositions(server, Below(c, i), bound, Kids(server, 0, node)[i]);
      SettledPositionsFrom(server, c, bound, node, i + 1);
    }
  }

  // ... and the archive is read off the cache-free tree: its preorder up to
  // the first position that fails or is too deep.
  lemma SettledArchive(server: Server, budget: nat, depth: nat, node: Node) returns (k: nat)
    requires Settled(server, node) && depth <= MAX_CHROOT_DEPTH
    ensures var w := Walk(server, budget, depth, node);
            var order := Positions(server, COLD, budget + 1, node);
            && InPreorder(order)
            && (forall pos :: pos in order <==> Exists(server, COLD, node, pos) && |pos| <= budget)
            && |w.names| <= |order|
            && (forall i | 0 <= i < |w.names| :: w.names[i] == NameAt(server, COLD, node, order[i]))
            && k <= |order|
            && (forall i | 0 <= i < k :: FineAt(server, COLD, budget, node, order[i]))
            && (k == |order| ==>
                  w.status == Done && |w.names| == |order|
                  && forall pos | Exists(server, COLD, node, pos) :: pos in order)
            && (k < |order| ==>
                  !FineAt(server, COLD, budget, node, order[k])
                  && if |order[k]| == budget then w.status == TooDeep && |w.names| == k
                     else
                       w.status == Failed
                       && |w.names| == k + if StatOkAt(server, COLD, node, order[k]) then 1 else 0)
  {
    hide Walk, CachesOf, Settled, Positions, InPreorder, Small, FineAt, NameAt, StatOkAt, Exists;
    var c := CachesOf(server, budget, depth, node);
    k := ArchiveIsPreorder(server, budget, depth, node);
    CachesSmall(server, budget, depth, node);
    SettledPositions(server, c, budget + 1, node);
    forall pos
      ensures Exists(server, c, node, pos) == Exists(server, COLD, node, pos)
      ensures FineAt(server, c, budget, node, pos) == FineAt(server, COLD, budget, node, pos)
      ensures NameAt(server, c, node, pos) == NameAt(server, COLD, node, pos)
      ensures StatOkAt(server, c, node, pos) == StatOkAt(server, COLD, node, pos)
    {
      SettledAt(server, c, budget, node, pos);
    }
  }

  lemma SettledAt(server: Server, c: Caches, budget: nat, node: Node, pos: seq<nat>)
    requires Settled(server, node) && Small(c)
    ensures Exists(server, c, node, pos) == Exists(server, COLD, node, pos)
    ensures FineAt(server, c, budget, node, pos) == FineAt(server, COLD, budget, node, pos)
    ensures NameAt(server, c, node, pos) == NameAt(server, COLD, node, pos)
    ensures StatOkAt(server, c, node, pos) == StatOkAt(server, COLD, node, pos)
  {
    hide NodeAt, Settled, Small, Succeeds, StatOk, HeaderName;
    SettledTree(server, c, node, pos);
  }

  // ---------------------------------------------------------------------
  // Laws of preorder
  // ---------------------------------------------------------------------

  lemma {:induction false} BeforeAsymmetric(a: seq<nat>, b: seq<nat>)
    requires Before(a, b)
    ensures !Before(b, a)
    decreases |a|
  {
    if a == [] || a[0] < b[0] {
    } else {
      BeforeAsymmetric(a[1..], b[1..]);
    }
  }

  // What comes before a position comes before what lies below it.
  lemma {:induction false} BeforeBelow(a: seq<nat>, b: seq<nat>, ext: seq<nat>)
    requires Before(a, b)
    ensures Before(a, b + ext)
    decreases |a|
  {
    if a == [] || a[0] < b[0] {
    } else {
      assert (b + ext)[1..] == b[1..] + ext;
      BeforeBelow(a[1..], b[1..], ext);
    }
  }

  lemma {:induction false} SamePrefix(front: seq<nat>, a: seq<nat>, b: seq<nat>)
    ensures Before(front + a, front + b) <==> Before(a, b)
    decreases |front|
  {
    if front == [] {
      assert front + a == a && front + b == b;
    } else {
      assert (front + a)[1..] == front[1..] + a && (front + b)[1..] == front[1..] + b;
      SamePrefix(front[1..], a, b);
    }
  }

  lemma AboveIsBefore(a: seq<nat>, ext: seq<nat>)
    requires ext != []
    ensures Before(a, a + ext)
  {
    SamePrefix(a, [], ext);
    assert a + [] == a;
  }

  // Before front + b is what comes before front, and what lies below front
  // and there before b.
  lemma {:induction false} BeforeSplit(p: seq<nat>, front: seq<nat>, b: seq<nat>)
    requires Before(p, front + b)
    ensures Before(p, front) || (front <= p && Before(p[|front|..], b))
    decreases |front|
  {
    if front == [] {
      assert front + b == b && p[0..] == p;
    } else if p == [] || p[0] < front[0] {
    } else {
      assert (front + b)[1..] == front[1..] + b;
      BeforeSplit(p[1..], front[1..], b);
      if front[1..] <= p[1..] {
        assert front == [front[0]] + front[1..] && p == [p[0]] + p[1..];
        assert p[1..][|front[1..]|..] == p[|front|..];
      }
    }
  }

  // ---------------------------------------------------------------------
  // Cycles of the tree, and whether the walk gets to them
  // ---------------------------------------------------------------------

  lemma {:induction false} PositionAppend(server: Server, node: Node, pos: seq<nat>, ext: seq<nat>)
    requires Exists(server, COLD, node, pos)
    ensures NodeAt(server, COLD, node, pos + ext)
            == NodeAt(server, COLD, NodeAt(server, COLD, node, pos).value, ext)
    decreases |pos|
  {
    hide Kids;
    if pos == [] {
      assert pos + ext == ext;
    } else {
      assert (pos + ext)[1..] == pos[1..] + ext;
      PositionAppend(server, Kids(server, 0, node)[pos[0]], pos[1..], ext);
    }
  }

  predicate SameTarget(a: Node, b: Node) {
    a.abs == b.abs && a.isDir == b.isDir
  }

  lemma SameKids(server: Server, a: Node, b: Node)
    requires SameTarget(a, b)
    ensures var k, l := Kids(server, 0, a), Kids(server, 0, b);
            |k| == |l| && forall i | 0 <= i < |k| :: SameTarget(k[i], l[i])
  {
    hide Listing.ListDir, ChildAbs, PathJoin;
  }

  // What lies below a node depends only on where it points.
  lemma {:induction false} SameBelow(server: Server, a: Node, b: Node, pos: seq<nat>)
    requires SameTarget(a, b)
    ensures Exists(server, COLD, a, pos) <==> Exists(server, COLD, b, pos)
    ensures Exists(server, COLD, a, pos) ==>
              SameTarget(NodeAt(server, COLD, a, pos).value, NodeAt(server, COLD, b, pos).value)
    decreases |pos|
  {
    hide Kids;
    SameKids(server, a, b);
    if pos == [] || pos[0] >= |Kids(server, 0, a)| {
    } else {
      SameBelow(server, Kids(server, 0, a)[pos[0]], Kids(server, 0, b)[pos[0]], pos[1..]);
    }
  }

  // Some child path leads from the node back to where the node points.
  ghost predicate Loops(server: Server, node: Node, ext: seq<nat>) {
    ext != [] && Exists(server, COLD, node, ext) && SameTarget(NodeAt(server, COLD, node, ext).value, node)
  }

  ghost predicate LoopsAt(server: Server, node: Node, pos: seq<nat>, ext: seq<nat>) {
    Exists(server, COLD, node, pos) && Loops(server, NodeAt(server, COLD, node, pos).value, ext)
  }

  // No call made before this position fails.
  ghost predicate ClearTo(server: Server, node: Node, pos: seq<nat>) {
    forall p | Exists(server, COLD, node, p) && Before(p, pos) :: Succeeds(server, NodeAt(server, COLD, node, p).value)
  }

  // The tree leads back to a directory, and nothing fails before it does.
  ghost predicate HasOpenCycle(server: Server, node: Node) {
    exists pos, ext :: LoopsAt(server, node, pos, ext) && ClearTo(server, node, pos + ext)
  }

  function Repeat(ext: seq<nat>, n: nat): (r: seq<nat>)
    ensures ext != [] ==> |r| >= n
  {
    if n == 0 then [] else Repeat(ext, n - 1) + ext
  }

  // Around the loop once more, everything still succeeds.
  lemma {:induction false} AroundTheLoop(server: Server, node: Node, pos: seq<nat>, ext: seq<nat>, n: nat)
    requires LoopsAt(server, node, pos, ext) && ClearTo(server, node, pos + ext)
    ensures var q := pos + Repeat(ext, n);
            && Exists(server, COLD, node, q) && ClearTo(server, node, q)
            && SameTarget(NodeAt(server, COLD, node, q).value, NodeAt(server, COLD, node, pos).value)
    decreases n
  {
    hide NodeAt, Succeeds;
    var q := pos + Repeat(ext, n);
    if n == 0 {
      assert q == pos;
      forall p | Exists(server, COLD, node, p) && Before(p, pos)
        ensures Succeeds(server, NodeAt(server, COLD, node, p).value)
      {
        BeforeBelow(p, pos, ext);
      }
    } else {
      var last := pos + Repeat(ext, n - 1);
      assert q == last + ext;
      AroundTheLoop(server, node, pos, ext, n - 1);
      OnceMore(server, node, pos, last, ext);
    }
  }

  lemma OnceMore(server: Server, node: Node, pos: seq<nat>, last: seq<nat>, ext: seq<nat>)
    requires LoopsAt(server, node, pos, ext) && ClearTo(server, node, pos + ext)
    requires Exists(server, COLD, node, last) && ClearTo(server, node, last)
    requires SameTarget(NodeAt(server, COLD, node, last).value, NodeAt(server, COLD, node, pos).value)
    ensures Exists(server, COLD, node, last + ext) && ClearTo(server, node, last + ext)
    ensures SameTarget(NodeAt(server, COLD, node, last + ext).value, NodeAt(server, COLD, node, pos).value)
  {
    hide NodeAt, Succeeds, Before;
    var a, b := NodeAt(server, COLD, node, pos).value, NodeAt(server, COLD, node, last).value;
    SameBelow(server, a, b, ext);
    PositionAppend(server, node, last, ext);
    forall p | Exists(server, COLD, node, p) && Before(p, last + ext)
      ensures Succeeds(server, NodeAt(server, COLD, node, p).value)
    {
      BeforeSplit(p, last, ext);
      if !Before(p, last) {
        var r := p[|last|..];
        assert p == last + r;
        PositionAppend(server, node, last, r);
        SameBelow(server, a, b, r);
        PositionAppend(server, node, pos, r);
        SamePrefix(pos, r, ext);
        assert Exists(server, COLD, node, pos + r);
        SameSucceeds(server, NodeAt(server, COLD, node, pos + r).value, NodeAt(server, COLD, node, p).value);
      }
    }
  }

  lemma SameSucceeds(server: Server, a: Node, b: Node)
    requires SameTarget(a, b)
    ensures Succeeds(server, a) <==> Succeeds(server, b)
  {
    hide StatOk, OpenOk;
  }

  // If positions as deep as the budget lie ahead and nothing fails before
  // one of them, the walk does not get there.
  lemma ClearAndDeep(server: Server, budget: nat, depth: nat, node: Node, q: seq<nat>)
    requires Settled(server, node) && depth <= MAX_CHROOT_DEPTH
    requires Exists(server, COLD, node, q) && |q| >= budget && ClearTo(server, node, q)
    ensures Walk(server, budget, depth, node).status == TooDeep
  {
    hide Walk, Settled, Positions, Before, StatOkAt, NameAt, NodeAt, Succeeds;
    var order := Positions(server, COLD, budget + 1, node);
    var k := SettledArchive(server, budget, depth, node);
    var front := q[..budget];
    PrefixExists(server, COLD, node, q, budget);
    assert front in order;
    var i :| 0 <= i < |order| && order[i] == front;
    assert k <= i && order[k] in order;
    if k < i {
      assert Before(order[k], front);
      BeforeBelow(order[k], front, q[budget..]);
      assert front + q[budget..] == q;
      assert Succeeds(server, NodeAt(server, COLD, node, order[k]).value);
    }
  }

  // Only a listable directory has anything below it.
  lemma AboveIsDir(server: Server, node: Node, pos: seq<nat>)
    requires pos != [] && Exists(server, COLD, node, pos)
    ensures node.isDir && node.abs in server.dirs
  {
    ListDirOk(server, 0, node.abs);
    hide Listing.ListDir, ValidatePath;
  }

  lemma ParentIsDir(server: Server, node: Node, pos: seq<nat>, k: nat)
    requires Exists(server, COLD, node, pos) && k < |pos|
    ensures Exists(server, COLD, node, pos[..k])
    ensures var up := NodeAt(server, COLD, node, pos[..k]).value; up.isDir && up.abs in server.dirs
  {
    hide NodeAt;
    PrefixExists(server, COLD, node, pos, k);
    assert pos == pos[..k] + pos[k..];
    PositionAppend(server, node, pos[..k], pos[k..]);
    var up := NodeAt(server, COLD, node, pos[..k]).value;
    AboveIsDir(server, up, pos[k..]);
  }

  lemma RepeatLoops(server: Server, node: Node, pos: seq<nat>, j: nat, k: nat)
    requires j < k <= |pos|
    requires Exists(server, COLD, node, pos[..j]) && Exists(server, COLD, node, pos[..k])
    requires SameTarget(NodeAt(server, COLD, node, pos[..k]).value, NodeAt(server, COLD, node, pos[..j]).value)
    ensures LoopsAt(server, node, pos[..j], pos[j..k])
  {
    hide NodeAt;
    assert pos[..k] == pos[..j] + pos[j..k];
    PositionAppend(server, node, pos[..j], pos[j..k]);
  }

  // A position with more directories above it than the server has lies below
  // a cycle.
  lemma DeepMeansCycle(server: Server, node: Node, pos: seq<nat>) returns (j: nat, k: nat)
    requires Exists(server, COLD, node, pos) && |pos| > |server.dirs|
    ensures j < k < |pos| && LoopsAt(server, node, pos[..j], pos[j..k])
  {
    hide NodeAt, LoopsAt;
    forall k | 0 <= k < |pos|
      ensures Exists(server, COLD, node, pos[..k])
      ensures NodeAt(server, COLD, node, pos[..k]).value.isDir
      ensures NodeAt(server, COLD, node, pos[..k]).value.abs in server.dirs.Keys
    {
      ParentIsDir(server, node, pos, k);
    }
    var abss := seq(|pos|, k requires 0 <= k < |pos| => NodeAt(server, COLD, node, pos[..k]).value.abs);
    assert |server.dirs.Keys| == |server.dirs|;
    j, k := Pigeonhole(abss, server.dirs.Keys);
    RepeatLoops(server, node, pos, j, k);
  }

  // Everything before the position that was too deep succeeds.
  lemma TooDeepIsClear(server: Server, budget: nat, depth: nat, node: Node) returns (q: seq<nat>)
    requires Settled(server, node) && depth <= MAX_CHROOT_DEPTH
    requires Walk(server, budget, depth, node).status == TooDeep
    ensures Exists(server, COLD, node, q) && |q| == budget && ClearTo(server, node, q)
  {
    hide Walk, Settled, Positions, Before, StatOkAt, NameAt, NodeAt, Succeeds;
    var order := Positions(server, COLD, budget + 1, node);
    var k := SettledArchive(server, budget, depth, node);
    q := order[k];
    assert q in order;
    forall p | Exists(server, COLD, node, p) && Before(p, q)
      ensures Succeeds(server, NodeAt(server, COLD, node, p).value)
    {
      var n := if |p| <= budget then |p| else budget;
      var front, rest := p[..n], p[n..];
      PrefixExists(server, COLD, node, p, n);
      assert front in order && front + rest == p;
      var i :| 0 <= i < |order| && order[i] == front;
      BeforeAsymmetric(p, q);
      if i > k {
        BeforeBelow(q, front, rest);
      } else if i == k && rest != [] {
        AboveIsBefore(front, rest);
      }
      assert i < k || (i == k && rest == []);
      assert i == k ==> p == q;
      assert FineAt(server, COLD, budget, node, front);
      assert front == p;
    }
  }

  // Where no listing below the node depends on the cache, the walk ends for
  // some budget exactly if the tree has no cycle that nothing fails before;
  // and then one more nested call than there are directories is enough.
  lemma EndsIffNoOpenCycle(server: Server, depth: nat, node: Node)
    requires Settled(server, node) && depth <= MAX_CHROOT_DEPTH
    ensures (exists budget: nat :: Walk(server, budget, depth, node).status != TooDeep)
            <==> !HasOpenCycle(server, node)
    ensures !HasOpenCycle(server, node) ==> Walk(server, |server.dirs| + 1, depth, node).status != TooDeep
  {
    hide Walk, Settled, LoopsAt, ClearTo, Exists, NodeAt;
    if HasOpenCycle(server, node) {
      var pos, ext :| LoopsAt(server, node, pos, ext) && ClearTo(server, node, pos + ext);
      forall budget: nat ensures Walk(server, budget, depth, node).status == TooDeep {
        LoopIsNotEmpty(server, node, pos, ext);
        AroundTheLoop(server, node, pos, ext, budget);
        ClearAndDeep(server, budget, depth, node, pos + Repeat(ext, budget));
      }
    } else {
      DeepWalkHasOpenCycle(server, depth, node);
      assert Walk(server, |server.dirs| + 1, depth, node).status != TooDeep;
    }
  }

  lemma LoopIsNotEmpty(server: Server, node: Node, pos: seq<nat>, ext: seq<nat>)
    requires LoopsAt(server, node, pos, ext)
    ensures ext != []
  {
    hide NodeAt;
  }

  lemma DeepWalkHasOpenCycle(server: Server, depth: nat, node: Node)
    requires Settled(server, node) && depth <= MAX_CHROOT_DEPTH
    ensures Walk(server, |server.dirs| + 1, depth, node).status == TooDeep ==> HasOpenCycle(server, node)
  {
    hide Walk, Settled, LoopsAt, NodeAt, Succeeds, Before;
    if Walk(server, |server.dirs| + 1, depth, node).status == TooDeep {
      var q := TooDeepIsClear(server, |server.dirs| + 1, depth, node);
      var j, k := DeepMeansCycle(server, node, q);
      assert q[..j] + q[j..k] == q[..k] && q[..k] + q[k..] == q;
      forall p | Exists(server, COLD, node, p) && Before(p, q[..k])
        ensures Succeeds(server, NodeAt(server, COLD, node, p).value)
      {
        BeforeBelow(p, q[..k], q[k..]);
      }
      assert ClearTo(server, node, q[..j] + q[j..k]);
    }
  }

  ghost predicate HasCycle(server: Server, node: Node) {
    exists pos, ext :: LoopsAt(server, node, pos, ext)
  }

  // If moreover no call fails, every cycle counts, and without one the
  // archive is completed.
  lemma EndsIffNoCycle(server: Server, depth: nat, node: Node)
    requires Settled(server, node) && AllSucceed(server, node) && depth <= MAX_CHROOT_DEPTH
    ensures (exists budget: nat :: Walk(server, budget, depth, node).status != TooDeep) <==> !HasCycle(server, node)
    ensures !HasCycle(server, node) ==> Walk(server, |server.dirs| + 1, depth, node).status == Done
  {
    hide Walk, Settled, LoopsAt, NodeAt, Succeeds, Before, Exists, FineAt, InPreorder, Positions, NameAt, StatOkAt;
    EndsIffNoOpenCycle(server, depth, node);
    forall pos, ext | LoopsAt(server, node, pos, ext) ensures ClearTo(server, node, pos + ext) {
    }
    NothingFails(server, |server.dirs| + 1, depth, node);
  }

  lemma NothingFails(server: Server, budget: nat, depth: nat, node: Node)
    requires Settled(server, node) && AllSucceed(server, node) && depth <= MAX_CHROOT_DEPTH
    ensures Walk(server, budget, depth, node).status != Failed
  {
    hide Walk, Settled, NodeAt, Succeeds, InPreorder, Positions, NameAt, StatOkAt;
    var k := SettledArchive(server, budget, depth, node);
    var order := Positions(server, COLD, budget + 1, node);
    assert k < |order| ==> order[k] in order;
  }

  // ---------------------------------------------------------------------
  // Directories no walk gets out of
  // ---------------------------------------------------------------------

  // Walking this path fails under no budget and no cached depth.
  ghost predicate NeverFails(server: Server, abs: string, isDir: bool) {
    forall budget: nat, d: nat, rel: string | d <= MAX_CHROOT_DEPTH ::
      Walk(server, budget, d, Node(rel, abs, isDir)).status != Failed
  }

  lemma FileNeverFails(server: Server, abs: string)
    requires StatOk(server, abs) && OpenOk(server, abs)
    ensures NeverFails(server, abs, false)
  {
    forall budget: nat, d: nat, rel: string | d <= MAX_CHROOT_DEPTH
      ensures Walk(server, budget, d, Node(rel, abs, false)).status != Failed
    {
      WalkUnfold(server, budget, d, Node(rel, abs, false));
      hide Walk, StatOk, OpenOk, HeaderName, Listing.ListDir;
    }
  }

  // Row i leads to a directory of the set, and no row before it can fail.
  ghost predicate LeadsOn(server: Server, traps: set<string>, abs: string, rows: seq<FileInfo>, i: nat) {
    && i < |rows| && rows[i].IsDir() && ChildAbs(abs, rows[i]) in traps
    && forall j | 0 <= j < i :: NeverFails(server, ChildAbs(abs, rows[j]), rows[j].IsDir())
  }

  ghost predicate LeadsOnAt(server: Server, traps: set<string>, abs: string, d: nat) {
    var l := ListDir(server, d, abs);
    StatOk(server, abs) && l.answer.Ok? && exists i: nat :: LeadsOn(server, traps, abs, l.answer.value, i)
  }

  // From each directory of the set the walk goes on to another one, whatever
  // is cached.
  ghost predicate Trap(server: Server, traps: set<string>) {
    forall abs, d: nat | abs in traps && d <= MAX_CHROOT_DEPTH :: LeadsOnAt(server, traps, abs, d)
  }

  lemma {:induction false} TrapNeverEnds(
    server: Server, traps: set<string>, budget: nat, depth: nat, node: Node)
    requires Trap(server, traps) && node.isDir && node.abs in traps && depth <= MAX_CHROOT_DEPTH
    ensures var w := Walk(server, budget, depth, node); w.status == TooDeep && |w.names| >= budget
    decreases budget, 0
  {
    hide OpenOk, HeaderName, Listing.ListDir, Walk, LeadsOn, ValidatePath;
    WalkUnfold(server, budget, depth, node);
    ListDirOk(server, depth, node.abs);
    if budget == 0 {
    } else {
      assert LeadsOnAt(server, traps, node.abs, depth);
      var l := ListDir(server, depth, node.abs);
      var i: nat :| LeadsOn(server, traps, node.abs, l.answer.value, i);
      hide Trap;
      TrapRows(server, traps, budget - 1, l.depth, node, l.answer.value, i);
    }
    TooDeepEmits(server, budget, depth, node);
  }

  lemma {:induction false} TrapRows(
    server: Server, traps: set<string>, budget: nat, depth: nat, node: Node, rows: seq<FileInfo>, i: nat)
    requires Trap(server, traps) && depth <= MAX_CHROOT_DEPTH && LeadsOn(server, traps, node.abs, rows, i)
    ensures WalkRows(server, budget, depth, node, rows).status == TooDeep
    decreases budget, |rows| + 1
  {
    hide Trap, Walk, WalkRows, ChildAbs, PathJoin;
    RowsUnfold(server, budget, depth, node, rows);
    var child := ChildOf(node, rows[0]);
    if i == 0 {
      TrapNeverEnds(server, traps, budget, depth, child);
    } else {
      var first := Walk(server, budget, depth, child);
      DepthStaysSmall(server, budget, depth, child);
      assert NeverFails(server, child.abs, child.isDir) && first.status != Failed;
      if first.status == Done {
        assert forall j | 0 <= j < i - 1 :: rows[1..][j] == rows[j + 1];
        TrapRows(server, traps, budget, first.depth, node, rows[1..], i - 1);
      }
    }
  }

  // ---------------------------------------------------------------------
  // The junction of an NTFS volume that points back at its own directory
  // ---------------------------------------------------------------------

  // Entry i of the directory is a link that does not open; its target is
  // that directory behind the datamover's mount prefix, and no other number
  // of components dropped leads anywhere.
  ghost predicate SelfLoop(server: Server, mount: seq<string>, segs: seq<string>, i: nat) {
    var p := AbsPath(segs);
    && AllPlain(segs) && segs != [] && 1 <= |mount| <= MAX_CHROOT_DEPTH
    && p in server.stats && server.Listable(p) && i < |server.dirs[p]|
    && var info := server.dirs[p][i];
       var joined := AbsPath(segs + [info.name]);
       && info.IsSymlink() && Plain(info.name)
       && !server.Listable(joined) && joined in server.links
       && IsAbs(server.links[joined]) && CleanSegs(server.links[joined]) == mount + segs
       && forall d | 1 <= d <= MAX_CHROOT_DEPTH && d != |mount| :: !Reaches(server, mount + segs, d)
  }

  lemma SelfLoopResolves(server: Server, mount: seq<string>, segs: seq<string>, i: nat, d: nat)
    requires SelfLoop(server, mount, segs, i) && d <= MAX_CHROOT_DEPTH
    ensures var info := server.dirs[AbsPath(segs)][i];
            var target := server.links[AbsPath(segs + [info.name])];
            Resolve(server, d, target).answer == AbsPath(segs) != ""
  {
    var target := server.links[AbsPath(segs + [server.dirs[AbsPath(segs)][i].name])];
    ResolveCorrect(server, d, target);
    hide CleanSegs, Resolve, AllPlain;
    assert (mount + segs)[|mount|..] == segs;
    assert Reaches(server, mount + segs, |mount|);
  }

  // Whatever is cached, the listing shows the link as a directory that leads
  // back to the directory itself.
  lemma SelfLoopRow(server: Server, mount: seq<string>, segs: seq<string>, i: nat, d: nat)
    requires SelfLoop(server, mount, segs, i) && d <= MAX_CHROOT_DEPTH
    ensures var p := AbsPath(segs);
            var l := ListDir(server, d, p);
            && ValidatePath(p) == None && l.answer.Ok? && i < |l.answer.value|
            && l.answer.value[i] == WithDir(server.dirs[p][i], true, p)
  {
    var p := AbsPath(segs);
    var infos := server.dirs[p];
    AbsPathValid(segs);
    CleanSegsOfAbsPath(segs);
    CleanSegsJoin(p, infos[i].name);
    assert IsAbs(p);
    hide CleanSegs, AbsPath, Clean, PathJoin, ValidatePath, Resolve, Reaches, AllPlain;
    RowsPointwise(server, d, p, infos);
    var row := ListEntries(server, d, p, infos).out[i];
    assert RowOf(server, p, infos[i], row);
    var e: nat :| e <= MAX_CHROOT_DEPTH && row == ListEntry(server, e, p, infos[i]).fi;
    hide ListEntries;
    SelfLoopResolves(server, mount, segs, i, e);
  }

  // So its child i is a cycle of length one.
  lemma SelfLoopLoops(server: Server, mount: seq<string>, segs: seq<string>, i: nat, rel: string)
    requires SelfLoop(server, mount, segs, i)
    ensures Loops(server, Node(rel, AbsPath(segs), true), [i])
  {
    var node := Node(rel, AbsPath(segs), true);
    SelfLoopRow(server, mount, segs, i, 0);
    AbsPathNotEmpty(segs);
    hide Listing.ListDir, AbsPath, SelfLoop, PathJoin;
    var kid := Kids(server, 0, node)[i];
    assert NodeAt(server, COLD, kid, []) == Some(kid);
    assert [i][1..] == [];
  }

  // No row before the i-th can fail, whatever is cached.
  ghost predicate ClearBefore(server: Server, abs: string, i: nat) {
    forall d: nat, j: nat | d <= MAX_CHROOT_DEPTH && j < i ::
      var l := ListDir(server, d, abs);
      l.answer.Ok? && j < |l.answer.value| ==>
        NeverFails(server, ChildAbs(abs, l.answer.value[j]), l.answer.value[j].IsDir())
  }

  // Walking the directory never ends, if no row before the link can fail.
  lemma SelfLoopNeverEnds(
    server: Server, mount: seq<string>, segs: seq<string>, i: nat, rel: string, budget: nat, depth: nat)
    requires SelfLoop(server, mount, segs, i) && depth <= MAX_CHROOT_DEPTH
    requires ClearBefore(server, AbsPath(segs), i)
    ensures var w := Walk(server, budget, depth, Node(rel, AbsPath(segs), true));
            w.status == TooDeep && |w.names| >= budget
  {
    var p := AbsPath(segs);
    AbsPathNotEmpty(segs);
    hide Listing.ListDir, AbsPath, Walk, NeverFails, ValidatePath, PathJoin, Reaches, CleanSegs;
    forall abs, d: nat | abs in {p} && d <= MAX_CHROOT_DEPTH ensures LeadsOnAt(server, {p}, abs, d) {
      SelfLoopRow(server, mount, segs, i, d);
      assert LeadsOn(server, {p}, p, ListDir(server, d, p).answer.value, i);
    }
    hide SelfLoop, LeadsOnAt;
    TrapNeverEnds(server, {p}, budget, depth, Node(rel, p, true));
  }

  // ---------------------------------------------------------------------
  // Such a volume: a job, a volume, ProgramData, and in it a file and the
  // junction "Application Data" back to ProgramData
  // ---------------------------------------------------------------------

  const PROGRAM_DATA := "ProgramData"
  const DESKTOP_INI := "desktop.ini"
  const APPLICATION_DATA := "Application Data"
  const MOUNT: seq<string> := ["mnt", "export"]

  function Entry(name: string, mode: bv32): Info {
    Info(name, mode, 0, 0)
  }

  function DataPath(job: string, vol: string): seq<string> {
    [job, vol, PROGRAM_DATA]
  }

  function TestVolume(job: string, vol: string): Server {
    var data := DataPath(job, vol);
    Server(
      map[AbsPath([]) := [Entry(job, MODE_DIR)],
          AbsPath([job]) := [Entry(vol, MODE_DIR)],
          AbsPath([job, vol]) := [Entry(PROGRAM_DATA, MODE_DIR)],
          AbsPath(data) := [Entry(DESKTOP_INI, 0), Entry(APPLICATION_DATA, MODE_SYMLINK)]],
      map[AbsPath(data + [APPLICATION_DATA]) := AbsPath(MOUNT + data)],
      map[AbsPath([]) := Entry("/", MODE_DIR),
          AbsPath([job]) := Entry(job, MODE_DIR),
          AbsPath([job, vol]) := Entry(vol, MODE_DIR),
          AbsPath(data) := Entry(PROGRAM_DATA, MODE_DIR),
          AbsPath(data + [DESKTOP_INI]) := Entry(DESKTOP_INI, 0)],
      {AbsPath(data + [DESKTOP_INI])})
  }

  // The directories listed, by their segments.
  predicate Dirs(job: string, vol: string, segs: seq<string>) {
    segs == [] || segs == [job] || segs == [job, vol] || segs == DataPath(job, vol)
  }

  lemma TestVolumeDirs(job: string, vol: string, segs: seq<string>)
    requires Plain(job) && Plain(vol) && AllPlain(segs)
    ensures TestVolume(job, vol).Listable(AbsPath(segs)) <==> Dirs(job, vol, segs)
    ensures Dirs(job, vol, segs) ==>
              AbsPath(segs) in TestVolume(job, vol).stats
              && TestVolume(job, vol).dirs[AbsPath(segs)]
                 == if |segs| == 0 then [Entry(job, MODE_DIR)]
                    else if |segs| == 1 then [Entry(vol, MODE_DIR)]
                    else if |segs| == 2 then [Entry(PROGRAM_DATA, MODE_DIR)]
                    else [Entry(DESKTOP_INI, 0), Entry(APPLICATION_DATA, MODE_SYMLINK)]
  {
    assert AllPlain(DataPath(job, vol));
    AbsPathInjective(segs, []);
    AbsPathInjective(segs, [job]);
    AbsPathInjective(segs, [job, vol]);
    AbsPathInjective(segs, DataPath(job, vol));
    hide AbsPath, Plain, AllPlain, Entry;
  }

  lemma TestVolumeReaches(job: string, vol: string, d: nat)
    requires Plain(job) && Plain(vol) && job != PROGRAM_DATA && 1 <= d <= MAX_CHROOT_DEPTH
    ensures Reaches(TestVolume(job, vol), MOUNT + DataPath(job, vol), d) <==> d == |MOUNT|
  {
    var all := MOUNT + DataPath(job, vol);
    assert all == ["mnt", "export", job, vol, PROGRAM_DATA] && AllPlain(all);
    hide AbsPath, TestVolume, Plain;
    if d < |all| {
      TestVolumeDirs(job, vol, all[d..]);
    }
    assert all[1..] == ["export", job, vol, PROGRAM_DATA] && all[2..] == DataPath(job, vol);
    assert all[3..] == [vol, PROGRAM_DATA] && all[4..] == [PROGRAM_DATA];
  }

  lemma TestVolumeJunction(job: string, vol: string)
    requires Plain(job) && Plain(vol)
    ensures var server, data := TestVolume(job, vol), DataPath(job, vol);
            var joined := AbsPath(data + [APPLICATION_DATA]);
            && !server.Listable(joined) && joined in server.links
            && IsAbs(server.links[joined]) && CleanSegs(server.links[joined]) == MOUNT + data
  {
    var data := DataPath(job, vol);
    assert AllPlain(MOUNT + data) && AllPlain(data + [APPLICATION_DATA]);
    assert IsAbs(AbsPath(MOUNT + data));
    hide AbsPath, Plain, AllPlain, CleanSegs;
    TestVolumeDirs(job, vol, data + [APPLICATION_DATA]);
    CleanSegsOfAbsPath(MOUNT + data);
  }

  lemma TestVolumeLoops(job: string, vol: string)
    requires Plain(job) && Plain(vol) && job != PROGRAM_DATA
    ensures SelfLoop(TestVolume(job, vol), MOUNT, DataPath(job, vol), 1)
  {
    var server, data := TestVolume(job, vol), DataPath(job, vol);
    assert AllPlain(data) && Plain(APPLICATION_DATA);
    TestVolumeJunction(job, vol);
    TestVolumeDirs(job, vol, data);
    hide AbsPath, Plain, AllPlain, CleanSegs, Reaches, TestVolume;
    forall d: nat | 1 <= d <= MAX_CHROOT_DEPTH && d != |MOUNT| ensures !Reaches(server, MOUNT + data, d) {
      TestVolumeReaches(job, vol, d);
    }
  }

  // An entry that is no link stays as it is.
  lemma PlainRow(server: Server, segs: seq<string>, i: nat, d: nat)
    requires AllPlain(segs) && server.Listable(AbsPath(segs)) && i < |server.dirs[AbsPath(segs)]|
    requires var info := server.dirs[AbsPath(segs)][i]; !info.IsSymlink() && Plain(info.name)
    requires d <= MAX_CHROOT_DEPTH
    ensures var p := AbsPath(segs);
            var info := server.dirs[p][i];
            var l := ListDir(server, d, p);
            && ValidatePath(p) == None && l.answer.Ok? && i < |l.answer.value| && l.answer.value[i] == Raw(info)
            && ChildAbs(p, l.answer.value[i]) == AbsPath(segs + [info.name])
  {
    var p := AbsPath(segs);
    AbsPathValid(segs);
    ListingKeepsRows(server, d, p);
    CleanSegsOfAbsPath(segs);
    CleanSegsJoin(p, server.dirs[p][i].name);
    hide AbsPath, CleanSegs, PathJoin, ValidatePath, LinkOpens, Listing.ListDir;
  }

  // The next directory down from each one above ProgramData.
  function NextDown(job: string, vol: string, segs: seq<string>): string {
    if |segs| == 0 then job else if |segs| == 1 then vol else PROGRAM_DATA
  }

  lemma TestVolumeEntries(job: string, vol: string, segs: seq<string>)
    requires Plain(job) && Plain(vol) && Dirs(job, vol, segs) && |segs| < 3
    ensures var server, p := TestVolume(job, vol), AbsPath(segs);
            && AllPlain(segs) && Plain(NextDown(job, vol, segs)) && Dirs(job, vol, segs + [NextDown(job, vol, segs)])
            && p in server.stats && server.Listable(p) && server.dirs[p] == [Entry(NextDown(job, vol, segs), MODE_DIR)]
  {
    assert AllPlain(segs) && Plain(PROGRAM_DATA);
    hide AbsPath, Plain, TestVolume, Entry;
    TestVolumeDirs(job, vol, segs);
  }

  // The walk gets from each directory above ProgramData to the next, ...
  lemma TestVolumeLeadsDown(job: string, vol: string, traps: set<string>, segs: seq<string>, d: nat)
    requires Plain(job) && Plain(vol) && d <= MAX_CHROOT_DEPTH && |segs| < 3
    requires Dirs(job, vol, segs) && forall s | Dirs(job, vol, s) :: AbsPath(s) in traps
    ensures LeadsOnAt(TestVolume(job, vol), traps, AbsPath(segs), d)
  {
    hide AbsPath, Listing.ListDir, TestVolume, Plain, AllPlain, ChildAbs, ValidatePath, Dirs, NextDown;
    var server, p := TestVolume(job, vol), AbsPath(segs);
    TestVolumeEntries(job, vol, segs);
    PlainRow(server, segs, 0, d);
    assert LeadsOn(server, traps, p, ListDir(server, d, p).answer.value, 0);
  }

  lemma TestVolumeFile(job: string, vol: string)
    requires Plain(job) && Plain(vol)
    ensures NeverFails(TestVolume(job, vol), AbsPath(DataPath(job, vol) + [DESKTOP_INI]), false)
  {
    var server, ini := TestVolume(job, vol), AbsPath(DataPath(job, vol) + [DESKTOP_INI]);
    assert AllPlain(DataPath(job, vol) + [DESKTOP_INI]);
    AbsPathValid(DataPath(job, vol) + [DESKTOP_INI]);
    hide AbsPath, ValidatePath, AllPlain;
    assert ini in server.files && ini in server.stats;
    FileNeverFails(server, ini);
  }

  lemma TestVolumeData(job: string, vol: string)
    requires Plain(job) && Plain(vol)
    ensures var server, data := TestVolume(job, vol), DataPath(job, vol);
            && AllPlain(data) && AbsPath(data) != "" && AbsPath(data) in server.stats && server.Listable(AbsPath(data))
            && server.dirs[AbsPath(data)] == [Entry(DESKTOP_INI, 0), Entry(APPLICATION_DATA, MODE_SYMLINK)]
            && Plain(DESKTOP_INI) && !Entry(DESKTOP_INI, 0).IsSymlink() && !Entry(DESKTOP_INI, 0).IsDir()
            && Entry(DESKTOP_INI, 0).name == DESKTOP_INI
  {
    assert AllPlain(DataPath(job, vol)) && Plain(DESKTOP_INI);
    hide AbsPath, TestVolume, Plain, AllPlain;
    TestVolumeDirs(job, vol, DataPath(job, vol));
    AbsPathNotEmpty(DataPath(job, vol));
  }

  lemma TwoRowsLeadBack(server: Server, traps: set<string>, p: string, rows: seq<FileInfo>)
    requires |rows| >= 2 && p != "" && p in traps
    requires rows[1].WithDir? && rows[1].isDir && rows[1].resolvedPath == p
    requires NeverFails(server, ChildAbs(p, rows[0]), rows[0].IsDir())
    ensures LeadsOn(server, traps, p, rows, 1)
  {
    hide NeverFails, PathJoin;
  }

  // ... and from ProgramData to itself.
  lemma TestVolumeLeadsBack(job: string, vol: string, traps: set<string>, d: nat)
    requires Plain(job) && Plain(vol) && job != PROGRAM_DATA && d <= MAX_CHROOT_DEPTH
    requires AbsPath(DataPath(job, vol)) in traps
    ensures LeadsOnAt(TestVolume(job, vol), traps, AbsPath(DataPath(job, vol)), d)
  {
    hide AbsPath, Listing.ListDir, TestVolume, Plain, AllPlain, NeverFails, SelfLoop, ValidatePath, PathJoin, Entry;
    hide Reaches, CleanSegs, DataPath, ChildAbs, LeadsOn;
    var server, data := TestVolume(job, vol), DataPath(job, vol);
    TestVolumeData(job, vol);
    TestVolumeLoops(job, vol);
    SelfLoopRow(server, MOUNT, data, 1, d);
    PlainRow(server, data, 0, d);
    TestVolumeFile(job, vol);
    TwoRowsLeadBack(server, traps, AbsPath(data), ListDir(server, d, AbsPath(data)).answer.value);
  }

  // Downloading any of its directories, the root included, never ends.
  lemma TestVolumeNeverEnds(
    job: string, vol: string, segs: seq<string>, rel: string, budget: nat, depth: nat)
    requires Plain(job) && Plain(vol) && job != PROGRAM_DATA
    requires Dirs(job, vol, segs) && depth <= MAX_CHROOT_DEPTH
    ensures var w := Walk(TestVolume(job, vol), budget, depth, Node(rel, AbsPath(segs), true));
            w.status == TooDeep && |w.names| >= budget
  {
    var server := TestVolume(job, vol);
    var traps := {AbsPath([]), AbsPath([job]), AbsPath([job, vol]), AbsPath(DataPath(job, vol))};
    hide AbsPath, TestVolume, Walk, LeadsOnAt, Plain;
    forall abs, d: nat | abs in traps && d <= MAX_CHROOT_DEPTH ensures LeadsOnAt(server, traps, abs, d) {
      if abs == AbsPath(DataPath(job, vol)) {
        TestVolumeLeadsBack(job, vol, traps, d);
      } else {
        TestVolumeLeadsDown(
          job, vol, traps, if abs == AbsPath([]) then [] else if abs == AbsPath([job]) then [job] else [job, vol], d);
      }
    }
    TrapNeverEnds(server, traps, budget, depth, Node(rel, AbsPath(segs), true));
  }
}
