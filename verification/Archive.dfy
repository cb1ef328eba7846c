// The recursive walker behind "Download as ZIP": which tar header names it
// emits, in which order, and when it ends.
module Archive {
  import opened Basics
  import opened GoPath
  import opened SftpServer
  import opened Resolver
  import opened Listing
  import PathHelpers

  // A call of the walker: the name inside the archive, the path on the
  // server, and whether the entry was presented as a directory.
  datatype Node = Node(rel: string, abs: string, isDir: bool)

  function ChildAbs(abs: string, row: FileInfo): string {
    if row.ResolvedPath() != "" then row.ResolvedPath() else PathJoin(abs, row.info.name)
  }

  function ChildOf(node: Node, row: FileInfo): Node {
    Node(PathJoin(node.rel, row.info.name), ChildAbs(node.abs, row), row.IsDir())
  }

  function HeaderName(node: Node): string {
    var clean := Clean("/" + node.rel);
    if clean == "/" then "."
    else if !node.isDir then clean
    else if clean[|clean| - 1] == '/' then clean
    else clean + "/"
  }

  predicate Escapes(rel: string) {
    var clean := Clean("/" + rel);
    clean != "/" && "/../" <= clean
  }

  predicate StatOk(server: Server, abs: string) {
    ValidatePath(abs) == None && abs in server.stats
  }

  predicate OpenOk(server: Server, abs: string) {
    ValidatePath(abs) == None && abs in server.files
  }

  // ---------------------------------------------------------------------
  // The walk. Recursion may not end, so it gets a budget of nested calls;
  // running into it is its own outcome.
  // ---------------------------------------------------------------------

  datatype Status = Done | Failed | TooDeep

  datatype Walked = Walked(names: seq<string>, depth: nat, status: Status)

  function Walk(server: Server, budget: nat, depth: nat, node: Node): Walked
    decreases budget, 0
  {
    if budget == 0 then Walked([], depth, TooDeep)
    else if Escapes(node.rel) || !StatOk(server, node.abs) then Walked([], depth, Failed)
    else
      var name := HeaderName(node);
      if !node.isDir then Walked([name], depth, if OpenOk(server, node.abs) then Done else Failed)
      else
        var l := ListDir(server, depth, node.abs);
        match l.answer
        case Err(_) => Walked([name], l.depth, Failed)
        case Ok(rows) =>
          var below := WalkRows(server, budget - 1, l.depth, node, rows);
          below.(names := [name] + below.names)
  }

  function WalkRows(server: Server, budget: nat, depth: nat, node: Node, rows: seq<FileInfo>): Walked
    decreases budget, |rows| + 1
  {
    if rows == [] then Walked([], depth, Done)
    else
      var first := Walk(server, budget, depth, ChildOf(node, rows[0]));
      if first.status != Done then first
      else
        var rest := WalkRows(server, budget, first.depth, node, rows[1..]);
        rest.(names := first.names + rest.names)
  }

  // The traversal check in front of every header never fires.
  lemma NeverEscapes(rel: string)
    ensures !Escapes(rel)
  {
    var segs := CleanSegs("/" + rel);
    CleanSegsPlain("/" + rel);
    var clean := Clean("/" + rel);
    if "/../" <= clean {
      var rest := clean[4..];
      assert clean == "/.." + ['/'] + rest;
      SplitAround("/..", rest, '/');
      SplitAround("", "..", '/');
      SplitAtom("..", '/');
      assert Split(clean, '/')[1] == "..";
      SplitAbsPath(segs);
      assert false;
    }
  }

  // No call the walk makes for this node itself fails.
  predicate Succeeds(server: Server, node: Node) {
    StatOk(server, node.abs) && if node.isDir then server.Listable(node.abs) else OpenOk(server, node.abs)
  }

  // In terms of what the server holds.
  lemma SucceedsExact(server: Server, node: Node)
    ensures Succeeds(server, node) <==>
            ValidatePath(node.abs) == None && node.abs in server.stats
            && if node.isDir then node.abs in server.dirs else node.abs in server.files
  {
    hide ValidatePath;
  }

  lemma ListDirOk(server: Server, depth: nat, abs: string)
    ensures var l := ListDir(server, depth, abs);
            && (l.answer.Ok? <==> ValidatePath(abs) == None && server.Listable(abs))
            && (l.answer.Err? ==> l.depth == depth)
            && (depth <= MAX_CHROOT_DEPTH ==> l.depth <= MAX_CHROOT_DEPTH)
  {
    hide ValidatePath, ListEntries;
    if depth <= MAX_CHROOT_DEPTH {
      ListingKeepsRows(server, depth, abs);
    }
  }

  // One call of the walker, without the dead check.
  lemma WalkUnfold(server: Server, budget: nat, depth: nat, node: Node)
    ensures var w := Walk(server, budget, depth, node);
            var l := ListDir(server, depth, node.abs);
            if budget == 0 then w == Walked([], depth, TooDeep)
            else if !StatOk(server, node.abs) then w == Walked([], depth, Failed)
            else if !Succeeds(server, node) then w == Walked([HeaderName(node)], depth, Failed)
            else if !node.isDir then w == Walked([HeaderName(node)], depth, Done)
            else
              && l.answer.Ok?
              && var below := WalkRows(server, budget - 1, l.depth, node, l.answer.value);
                 w == below.(names := [HeaderName(node)] + below.names)
  {
    NeverEscapes(node.rel);
    ListDirOk(server, depth, node.abs);
    hide ValidatePath, HeaderName, Listing.ListDir, Escapes, WalkRows;
  }

  // One turn of its loop.
  lemma RowsUnfold(server: Server, budget: nat, depth: nat, node: Node, rows: seq<FileInfo>)
    ensures var w := WalkRows(server, budget, depth, node, rows);
            if rows == [] then w == Walked([], depth, Done)
            else
              var first := Walk(server, budget, depth, ChildOf(node, rows[0]));
              if first.status != Done then w == first
              else
                var rest := WalkRows(server, budget, first.depth, node, rows[1..]);
                w == rest.(names := first.names + rest.names)
  {
    hide Walk, ChildOf;
  }

  lemma {:induction false} DepthStaysSmall(server: Server, budget: nat, depth: nat, node: Node)
    requires depth <= MAX_CHROOT_DEPTH
    ensures Walk(server, budget, depth, node).depth <= MAX_CHROOT_DEPTH
    decreases budget, 0
  {
    hide StatOk, OpenOk, HeaderName, Listing.ListDir, Walk, WalkRows, ValidatePath, Succeeds;
    WalkUnfold(server, budget, depth, node);
    ListDirOk(server, depth, node.abs);
    var l := ListDir(server, depth, node.abs);
    if budget == 0 || l.answer.Err? {
    } else {
      DepthStaysSmallRows(server, budget - 1, l.depth, node, l.answer.value);
    }
  }

  lemma {:induction false} DepthStaysSmallRows(
    server: Server, budget: nat, depth: nat, node: Node, rows: seq<FileInfo>)
    requires depth <= MAX_CHROOT_DEPTH
    ensures WalkRows(server, budget, depth, node, rows).depth <= MAX_CHROOT_DEPTH
    decreases budget, |rows| + 1
  {
    hide Walk, WalkRows, ChildOf;
    RowsUnfold(server, budget, depth, node, rows);
    if rows == [] {
    } else {
      var first := Walk(server, budget, depth, ChildOf(node, rows[0]));
      DepthStaysSmall(server, budget, depth, ChildOf(node, rows[0]));
      DepthStaysSmallRows(server, budget, first.depth, node, rows[1..]);
    }
  }

  // ---------------------------------------------------------------------
  // A budget that was enough stays enough
  // ---------------------------------------------------------------------

  lemma {:induction false} MoreBudget(server: Server, a: nat, b: nat, depth: nat, node: Node)
    requires a <= b && Walk(server, a, depth, node).status != TooDeep
    ensures Walk(server, b, depth, node) == Walk(server, a, depth, node)
    decreases a, 0
  {
    hide StatOk, OpenOk, HeaderName, Listing.ListDir, Walk;
    WalkUnfold(server, a, depth, node);
    WalkUnfold(server, b, depth, node);
    var l := ListDir(server, depth, node.abs);
    if !node.isDir || !Succeeds(server, node) {
    } else {
      MoreBudgetRows(server, a - 1, b - 1, l.depth, node, l.answer.value);
    }
  }

  lemma {:induction false} MoreBudgetRows(server: Server, a: nat, b: nat, depth: nat, node: Node, rows: seq<FileInfo>)
    requires a <= b && WalkRows(server, a, depth, node, rows).status != TooDeep
    ensures WalkRows(server, b, depth, node, rows) == WalkRows(server, a, depth, node, rows)
    decreases a, |rows| + 1
  {
    hide Walk, ChildOf;
    if rows == [] {
    } else {
      MoreBudget(server, a, b, depth, ChildOf(node, rows[0]));
      var first := Walk(server, a, depth, ChildOf(node, rows[0]));
      if first.status == Done {
        MoreBudgetRows(server, a, b, first.depth, node, rows[1..]);
      }
    }
  }

  // Running out of budget means at least that many headers were emitted.
  lemma {:induction false} TooDeepEmits(server: Server, budget: nat, depth: nat, node: Node)
    requires Walk(server, budget, depth, node).status == TooDeep
    ensures |Walk(server, budget, depth, node).names| >= budget
    decreases budget, 0
  {
    hide StatOk, OpenOk, HeaderName, Listing.ListDir, Walk;
    WalkUnfold(server, budget, depth, node);
    var l := ListDir(server, depth, node.abs);
    if budget == 0 {
    } else {
      TooDeepEmitsRows(server, budget - 1, l.depth, node, l.answer.value);
    }
  }

  lemma {:induction false} TooDeepEmitsRows(server: Server, budget: nat, depth: nat, node: Node, rows: seq<FileInfo>)
    ensures var w := WalkRows(server, budget, depth, node, rows); w.status == TooDeep ==> |w.names| >= budget
    decreases budget, |rows| + 1
  {
    hide Walk, ChildOf;
    if rows == [] {
    } else {
      var first := Walk(server, budget, depth, ChildOf(node, rows[0]));
      if first.status == TooDeep {
        TooDeepEmits(server, budget, depth, ChildOf(node, rows[0]));
      } else if first.status == Done {
        TooDeepEmitsRows(server, budget, first.depth, node, rows[1..]);
      }
    }
  }

  // ---------------------------------------------------------------------
  // Reference: positions in the unfolded tree
  // ---------------------------------------------------------------------

  // The depth the session has cached when each directory of the tree is
  // listed, as a tree of the same shape; where it says nothing, 0.
  datatype Caches = Caches(depth: nat, below: seq<Caches>)

  const COLD: Caches := Caches(0, [])

  function Below(c: Caches, i: nat): Caches {
    if i < |c.below| then c.below[i] else COLD
  }

  // What the walk has cached at each directory it lists.
  function CachesOf(server: Server, budget: nat, depth: nat, node: Node): (c: Caches)
    ensures c.depth == depth
    decreases budget, 0
  {
    var l := ListDir(server, depth, node.abs);
    if budget == 0 || !node.isDir || l.answer.Err? then Caches(depth, [])
    else Caches(depth, CachesOfRows(server, budget - 1, l.depth, node, l.answer.value))
  }

  function CachesOfRows(server: Server, budget: nat, depth: nat, node: Node, rows: seq<FileInfo>): seq<Caches>
    decreases budget, |rows| + 1
  {
    if rows == [] then []
    else
      var first := Walk(server, budget, depth, ChildOf(node, rows[0]));
      [CachesOf(server, budget, depth, ChildOf(node, rows[0]))]
      + if first.status == Done then CachesOfRows(server, budget, first.depth, node, rows[1..]) else []
  }

  function Children(node: Node, rows: seq<FileInfo>): (kids: seq<Node>)
    ensures |kids| == |rows|
  {
    seq(|rows|, i requires 0 <= i < |rows| => ChildOf(node, rows[i]))
  }

  function Kids(server: Server, depth: nat, node: Node): seq<Node> {
    if !node.isDir then []
    else
      match ListDir(server, depth, node.abs).answer
      case Err(_) => []
      case Ok(rows) => Children(node, rows)
  }

  // The node reached by picking the pos[0]-th child, then its pos[1]-th, ...
  function NodeAt(server: Server, c: Caches, node: Node, pos: seq<nat>): Option<Node>
    decreases |pos|
  {
    if pos == [] then Some(node)
    else
      var kids := Kids(server, c.depth, node);
      if pos[0] < |kids| then NodeAt(server, Below(c, pos[0]), kids[pos[0]], pos[1..]) else None
  }

  predicate Exists(server: Server, c: Caches, node: Node, pos: seq<nat>) {
    NodeAt(server, c, node, pos).Some?
  }

  function NameAt(server: Server, c: Caches, node: Node, pos: seq<nat>): string {
    match NodeAt(server, c, node, pos)
    case Some(n) => HeaderName(n)
    case None => ""
  }

  lemma KidPosition(server: Server, c: Caches, node: Node, i: nat, pos: seq<nat>)
    requires i < |Kids(server, c.depth, node)|
    ensures NodeAt(server, c, node, [i] + pos)
            == NodeAt(server, Below(c, i), Kids(server, c.depth, node)[i], pos)
  {
    hide Kids, Below;
    assert ([i] + pos)[1..] == pos;
  }

  // Where a position exists, so do its prefixes.
  lemma {:induction false} PrefixExists(server: Server, c: Caches, node: Node, pos: seq<nat>, n: nat)
    requires Exists(server, c, node, pos) && n <= |pos|
    ensures Exists(server, c, node, pos[..n])
    decreases n
  {
    hide Kids, Below;
    if n == 0 {
      assert pos[..0] == [];
    } else {
      PrefixExists(server, Below(c, pos[0]), Kids(server, c.depth, node)[pos[0]], pos[1..], n - 1);
      assert pos[1..][..n - 1] == pos[..n][1..];
    }
  }

  // Preorder: a prefix before its extensions, otherwise the first
  // difference decides.
  predicate Before(a: seq<nat>, b: seq<nat>) {
    b != [] && (a == [] || a[0] < b[0] || (a[0] == b[0] && Before(a[1..], b[1..])))
  }

  ghost predicate InPreorder(ps: seq<seq<nat>>) {
    forall i, j | 0 <= i < j < |ps| :: Before(ps[i], ps[j])
  }

  function Under(i: nat, ps: seq<seq<nat>>): (r: seq<seq<nat>>)
    ensures |r| == |ps|
  {
    seq(|ps|, k requires 0 <= k < |ps| => [i] + ps[k])
  }

  // All positions shorter than the bound, in preorder.
  function Positions(server: Server, c: Caches, bound: nat, node: Node): seq<seq<nat>>
    decreases bound, 0
  {
    if bound == 0 then [] else [[]] + PositionsFrom(server, c, bound - 1, Kids(server, c.depth, node), 0)
  }

  function PositionsFrom(server: Server, c: Caches, bound: nat, kids: seq<Node>, i: nat): seq<seq<nat>>
    decreases bound, if i < |kids| then |kids| - i + 1 else 1
  {
    if i >= |kids| then []
    else Under(i, Positions(server, Below(c, i), bound, kids[i])) + PositionsFrom(server, c, bound, kids, i + 1)
  }

  lemma {:induction false} PositionsSorted(server: Server, c: Caches, bound: nat, node: Node)
    ensures InPreorder(Positions(server, c, bound, node))
    decreases bound, 0
  {
    hide Kids;
    if bound == 0 {
    } else {
      var ps := PositionsFrom(server, c, bound - 1, Kids(server, c.depth, node), 0);
      PositionsFromSorted(server, c, bound - 1, Kids(server, c.depth, node), 0);
      forall j | 0 <= j < |ps| ensures Before([], ps[j]) {
        assert ps[j] in ps;
      }
    }
  }

  lemma {:induction false} PositionsFromSorted(server: Server, c: Caches, bound: nat, kids: seq<Node>, i: nat)
    ensures var ps := PositionsFrom(server, c, bound, kids, i);
            InPreorder(ps) && forall p | p in ps :: p != [] && p[0] >= i
    decreases bound, if i < |kids| then |kids| - i + 1 else 1
  {
    hide Positions, Below;
    if i >= |kids| {
    } else {
      var first := Positions(server, Below(c, i), bound, kids[i]);
      PositionsSorted(server, Below(c, i), bound, kids[i]);
      PositionsFromSorted(server, c, bound, kids, i + 1);
      var rest := PositionsFrom(server, c, bound, kids, i + 1);
      var head := Under(i, first);
      forall a, b | 0 <= a < b < |head| + |rest| ensures Before((head + rest)[a], (head + rest)[b]) {
        if b < |head| {
          assert Before(first[a], first[b]);
          assert ([i] + first[a])[1..] == first[a] && ([i] + first[b])[1..] == first[b];
        } else {
          assert rest[b - |head|] in rest;
          if a >= |head| {
            assert Before(rest[a - |head|], rest[b - |head|]);
          }
        }
      }
    }
  }

  // Exactly the existing positions shorter than the bound are listed.
  lemma {:induction false} PositionsExact(server: Server, c: Caches, bound: nat, node: Node, pos: seq<nat>)
    ensures pos in Positions(server, c, bound, node) <==> Exists(server, c, node, pos) && |pos| < bound
    decreases bound, 0
  {
    hide Kids;
    if bound == 0 {
    } else {
      var kids := Kids(server, c.depth, node);
      PositionsFromExact(server, c, bound - 1, kids, 0, pos);
      var tail := PositionsFrom(server, c, bound - 1, kids, 0);
      assert pos in [[]] + tail <==> pos == [] || pos in tail;
    }
  }

  lemma {:induction false} PositionsFromExact(
    server: Server, c: Caches, bound: nat, kids: seq<Node>, i: nat, pos: seq<nat>)
    ensures pos in PositionsFrom(server, c, bound, kids, i) <==>
            pos != [] && i <= pos[0] < |kids|
            && Exists(server, Below(c, pos[0]), kids[pos[0]], pos[1..]) && |pos| <= bound
    decreases bound, if i < |kids| then |kids| - i + 1 else 1
  {
    hide Positions, Exists, Below;
    if i >= |kids| {
    } else {
      var first := Positions(server, Below(c, i), bound, kids[i]);
      PositionsFromExact(server, c, bound, kids, i + 1, pos);
      UnderMembers(i, first, pos);
      if pos != [] {
        PositionsExact(server, Below(c, i), bound, kids[i], pos[1..]);
      }
    }
  }

  lemma UnderMembers(i: nat, ps: seq<seq<nat>>, pos: seq<nat>)
    ensures pos in Under(i, ps) <==> pos != [] && pos[0] == i && pos[1..] in ps
  {
    if pos in Under(i, ps) {
      var k :| 0 <= k < |ps| && pos == [i] + ps[k];
      assert pos[1..] == ps[k];
    }
    if pos != [] && pos[0] == i && pos[1..] in ps {
      var k :| 0 <= k < |ps| && ps[k] == pos[1..];
      assert Under(i, ps)[k] == [i] + pos[1..] == pos;
    }
  }

  // ---------------------------------------------------------------------
  // The walk is a scan over the reference
  // ---------------------------------------------------------------------

  // A position as the walk meets it: its node, and the nested calls left.
  datatype Item = Item(node: Node, left: nat)

  function ItemAt(server: Server, c: Caches, budget: nat, node: Node, pos: seq<nat>): Item {
    match NodeAt(server, c, node, pos)
    case Some(n) => Item(n, if |pos| <= budget then budget - |pos| else 0)
    case None => Item(node, 0)
  }

  function Items(server: Server, c: Caches, budget: nat, node: Node, ps: seq<seq<nat>>): (items: seq<Item>)
    ensures |items| == |ps|
  {
    seq(|ps|, k requires 0 <= k < |ps| => ItemAt(server, c, budget, node, ps[k]))
  }

  datatype Scanned = Scanned(names: seq<string>, status: Status)

  // Write headers until the first item that fails or is too deep.
  function Scan(server: Server, items: seq<Item>): Scanned {
    if items == [] then Scanned([], Done)
    else
      var x := items[0];
      if x.left == 0 then Scanned([], TooDeep)
      else if !StatOk(server, x.node.abs) then Scanned([], Failed)
      else if !Succeeds(server, x.node) then Scanned([HeaderName(x.node)], Failed)
      else
        var rest := Scan(server, items[1..]);
        rest.(names := [HeaderName(x.node)] + rest.names)
  }

  lemma {:induction false} ScanAppend(server: Server, a: seq<Item>, b: seq<Item>)
    ensures Scan(server, a + b)
            == if Scan(server, a).status != Done then Scan(server, a)
               else Scanned(Scan(server, a).names + Scan(server, b).names, Scan(server, b).status)
    decreases |a|
  {
    hide StatOk, Succeeds, HeaderName;
    if a == [] {
      assert a + b == b;
      assert Scan(server, b).names == [] + Scan(server, b).names;
    } else {
      assert (a + b)[1..] == a[1..] + b && (a + b)[0] == a[0];
      ScanAppend(server, a[1..], b);
    }
  }

  // A node's items: itself, and then those of its children.
  lemma ItemsUnfold(server: Server, c: Caches, budget: nat, node: Node)
    ensures var kids := Kids(server, c.depth, node);
            Items(server, c, budget, node, Positions(server, c, budget + 1, node))
            == [Item(node, budget)] + Items(server, c, budget, node, PositionsFrom(server, c, budget, kids, 0))
  {
    hide Kids, PositionsFrom;
    var ps := PositionsFrom(server, c, budget, Kids(server, c.depth, node), 0);
    assert Items(server, c, budget, node, [[]] + ps) == [Item(node, budget)] + Items(server, c, budget, node, ps);
  }

  lemma NoKidsNoItems(server: Server, c: Caches, budget: nat, node: Node)
    requires !node.isDir
    ensures Items(server, c, budget, node, PositionsFrom(server, c, budget, Kids(server, c.depth, node), 0)) == []
  {
  }

  lemma {:induction false} WalkIsScan(server: Server, budget: nat, depth: nat, node: Node)
    ensures var w := Walk(server, budget, depth, node);
            var c := CachesOf(server, budget, depth, node);
            Scanned(w.names, w.status)
            == Scan(server, Items(server, c, budget, node, Positions(server, c, budget + 1, node)))
    decreases budget, 0
  {
    hide StatOk, OpenOk, HeaderName, Listing.ListDir, Walk, ValidatePath, Items, Positions;
    var c := CachesOf(server, budget, depth, node);
    var items := Items(server, c, budget, node, Positions(server, c, budget + 1, node));
    ItemsUnfold(server, c, budget, node);
    WalkUnfold(server, budget, depth, node);
    if budget == 0 || !Succeeds(server, node) {
    } else if !node.isDir {
      NoKidsNoItems(server, c, budget, node);
    } else {
      var l := ListDir(server, depth, node.abs);
      assert l.answer.value[0..] == l.answer.value;
      WalkRowsIsScan(server, budget - 1, l.depth, node, l.answer.value, c, 0);
      assert items[1..]
             == Items(server, c, budget, node, PositionsFrom(server, c, budget, Kids(server, depth, node), 0));
    }
  }

  // The same for the loop from row i on.
  lemma {:induction false} WalkRowsIsScan(
    server: Server, budget: nat, depth: nat, node: Node, rows: seq<FileInfo>, c: Caches, i: nat)
    requires i <= |rows| && i <= |c.below|
    requires c.below[i..] == CachesOfRows(server, budget, depth, node, rows[i..])
    requires Kids(server, c.depth, node) == Children(node, rows)
    ensures var w := WalkRows(server, budget, depth, node, rows[i..]);
            var ps := PositionsFrom(server, c, budget + 1, Children(node, rows), i);
            Scanned(w.names, w.status) == Scan(server, Items(server, c, budget + 1, node, ps))
    decreases budget, |rows| - i + 1
  {
    hide Walk, WalkRows, ChildOf, Kids, Scan, Positions, CachesOf;
    var kids := Children(node, rows);
    RowsUnfold(server, budget, depth, node, rows[i..]);
    if i == |rows| {
      ScanNothing(server, c, budget + 1, node);
    } else {
      var kid := kids[i];
      assert rows[i..][1..] == rows[i + 1..] && kid == ChildOf(node, rows[i..][0]);
      assert c.below[i] == c.below[i..][0] == CachesOf(server, budget, depth, kid);
      WalkIsScan(server, budget, depth, kid);
      var mine := Positions(server, Below(c, i), budget + 1, kid);
      var rest := PositionsFrom(server, c, budget + 1, kids, i + 1);
      forall p | p in mine ensures Exists(server, Below(c, i), kid, p) {
        PositionsExact(server, Below(c, i), budget + 1, kid, p);
      }
      ItemsUnder(server, c, budget, node, i, mine);
      var a := Items(server, c, budget + 1, node, Under(i, mine));
      var b := Items(server, c, budget + 1, node, rest);
      assert Items(server, c, budget + 1, node, Under(i, mine) + rest) == a + b;
      ScanAppend(server, a, b);
      var first := Walk(server, budget, depth, kid);
      if first.status == Done {
        assert c.below[i + 1..] == c.below[i..][1..];
        WalkRowsIsScan(server, budget, first.depth, node, rows, c, i + 1);
      }
    }
  }

  lemma ScanNothing(server: Server, c: Caches, budget: nat, node: Node)
    ensures Scan(server, Items(server, c, budget, node, [])) == Scanned([], Done)
  {
  }

  // Seen from the parent, a child's positions are the same items.
  lemma ItemsUnder(server: Server, c: Caches, budget: nat, node: Node, i: nat, ps: seq<seq<nat>>)
    requires i < |Kids(server, c.depth, node)|
    requires forall p | p in ps :: Exists(server, Below(c, i), Kids(server, c.depth, node)[i], p)
    ensures Items(server, c, budget + 1, node, Under(i, ps))
            == Items(server, Below(c, i), budget, Kids(server, c.depth, node)[i], ps)
  {
    hide Kids, Below;
    forall k | 0 <= k < |ps|
      ensures ItemAt(server, c, budget + 1, node, Under(i, ps)[k])
              == ItemAt(server, Below(c, i), budget, Kids(server, c.depth, node)[i], ps[k])
    {
      assert ps[k] in ps;
      KidPosition(server, c, node, i, ps[k]);
    }
  }

  // What a scan says about the item it stops at, and those before.
  lemma {:induction false} ScanStops(server: Server, items: seq<Item>) returns (k: nat)
    ensures var w := Scan(server, items);
            && k <= |items|
            && (forall i | 0 <= i < k :: items[i].left > 0 && Succeeds(server, items[i].node))
            && (forall i | 0 <= i < |w.names| :: i < |items| && w.names[i] == HeaderName(items[i].node))
            && (k == |items| ==> w.status == Done && |w.names| == k)
            && (k < |items| && items[k].left == 0 ==> w.status == TooDeep && |w.names| == k)
            && (k < |items| && items[k].left > 0 ==>
                  !Succeeds(server, items[k].node) && w.status == Failed
                  && |w.names| == k + if StatOk(server, items[k].node.abs) then 1 else 0)
    decreases |items|
  {
    hide StatOk, HeaderName, OpenOk;
    if items == [] || items[0].left == 0 || !Succeeds(server, items[0].node) {
      k := 0;
    } else {
      hide Succeeds;
      var tail := items[1..];
      var j := ScanStops(server, tail);
      k := j + 1;
      assert forall i | 0 < i < |items| :: items[i] == tail[i - 1];
    }
  }

  // The position exists, is not too deep, and no call made for it fails.
  predicate FineAt(server: Server, c: Caches, budget: nat, node: Node, pos: seq<nat>) {
    match NodeAt(server, c, node, pos)
    case Some(n) => |pos| < budget && Succeeds(server, n)
    case None => false
  }

  predicate StatOkAt(server: Server, c: Caches, node: Node, pos: seq<nat>) {
    match NodeAt(server, c, node, pos)
    case Some(n) => StatOk(server, n.abs)
    case None => false
  }

  // What is said about a position is said about its item.
  predicate ItemTells(server: Server, c: Caches, budget: nat, node: Node, pos: seq<nat>, x: Item) {
    && (x.left == 0 <==> |pos| == budget)
    && (FineAt(server, c, budget, node, pos) <==> x.left > 0 && Succeeds(server, x.node))
    && (StatOkAt(server, c, node, pos) <==> StatOk(server, x.node.abs))
    && NameAt(server, c, node, pos) == HeaderName(x.node)
  }

  lemma ItemAtTells(server: Server, c: Caches, budget: nat, node: Node, pos: seq<nat>)
    requires Exists(server, c, node, pos) && |pos| <= budget
    ensures ItemTells(server, c, budget, node, pos, ItemAt(server, c, budget, node, pos))
  {
    hide NodeAt, Succeeds, StatOk, HeaderName;
  }

  lemma ItemsTell(server: Server, c: Caches, budget: nat, node: Node, order: seq<seq<nat>>)
    requires forall pos | pos in order :: Exists(server, c, node, pos) && |pos| <= budget
    ensures var items := Items(server, c, budget, node, order);
            forall i | 0 <= i < |items| :: ItemTells(server, c, budget, node, order[i], items[i])
  {
    hide ItemAt, Exists, ItemTells;
    var items := Items(server, c, budget, node, order);
    forall i | 0 <= i < |items| ensures ItemTells(server, c, budget, node, order[i], items[i]) {
      assert order[i] in order;
      ItemAtTells(server, c, budget, node, order[i]);
    }
  }

  lemma OrderExact(server: Server, c: Caches, budget: nat, node: Node)
    ensures var order := Positions(server, c, budget + 1, node);
            && InPreorder(order)
            && forall pos :: pos in order <==> Exists(server, c, node, pos) && |pos| <= budget
  {
    var order := Positions(server, c, budget + 1, node);
    hide Positions, Exists;
    PositionsSorted(server, c, budget + 1, node);
    forall pos ensures pos in order <==> Exists(server, c, node, pos) && |pos| <= budget {
      PositionsExact(server, c, budget + 1, node, pos);
    }
  }

  // If every position up to the budget is fine, there are no others.
  lemma NoDeeper(server: Server, c: Caches, budget: nat, node: Node)
    requires var order := Positions(server, c, budget + 1, node);
             forall i | 0 <= i < |order| :: |order[i]| < budget
    ensures forall pos | Exists(server, c, node, pos) :: pos in Positions(server, c, budget + 1, node)
  {
    hide Positions, Exists, InPreorder;
    var order := Positions(server, c, budget + 1, node);
    OrderExact(server, c, budget, node);
    forall pos | Exists(server, c, node, pos) ensures pos in order {
      var n := if |pos| <= budget then |pos| else budget;
      PrefixExists(server, c, node, pos, n);
      assert pos[..n] in order;
    }
  }

  // The archive, for every server, every cached depth and every budget of
  // nested calls. The headers are an initial part of the preorder of all
  // junction-following positions. The first position that fails or is too
  // deep decides how the walk ends and how far the archive goes: everything
  // before it, and itself if its Stat still worked. Without one the walk
  // ends well, and the archive has every position there is.
  lemma ArchiveIsPreorder(server: Server, budget: nat, depth: nat, node: Node) returns (k: nat)
    ensures var w := Walk(server, budget, depth, node);
            var c := CachesOf(server, budget, depth, node);
            var order := Positions(server, c, budget + 1, node);
            && InPreorder(order)
            && (forall pos :: pos in order <==> Exists(server, c, node, pos) && |pos| <= budget)
            && |w.names| <= |order|
            && (forall i | 0 <= i < |w.names| :: w.names[i] == NameAt(server, c, node, order[i]))
            && k <= |order|
            && (forall i | 0 <= i < k :: FineAt(server, c, budget, node, order[i]))
            && (k == |order| ==>
                  w.status == Done && |w.names| == |order|
                  && forall pos | Exists(server, c, node, pos) :: pos in order)
            && (k < |order| ==>
                  !FineAt(server, c, budget, node, order[k])
                  && if |order[k]| == budget then w.status == TooDeep && |w.names| == k
                     else
                       w.status == Failed
                       && |w.names| == k + if StatOkAt(server, c, node, order[k]) then 1 else 0)
  {
    hide Walk, CachesOf, Positions, StatOk, Succeeds, Scan, HeaderName, InPreorder;
    hide Items, ItemAt, Exists, FineAt, StatOkAt, NameAt;
    var c := CachesOf(server, budget, depth, node);
    var order := Positions(server, c, budget + 1, node);
    var items := Items(server, c, budget, node, order);
    WalkIsScan(server, budget, depth, node);
    OrderExact(server, c, budget, node);
    ItemsTell(server, c, budget, node, order);
    k := ScanStops(server, items);
    if k == |order| {
      NoDeeper(server, c, budget, node);
    }
  }

  // So the walk ends well exactly when every position there is succeeds and
  // none lies deeper than the budget.
  lemma WalkDoneIff(server: Server, budget: nat, depth: nat, node: Node)
    ensures var c := CachesOf(server, budget, depth, node);
            Walk(server, budget, depth, node).status == Done <==>
            forall pos | Exists(server, c, node, pos) :: FineAt(server, c, budget, node, pos)
  {
    var c := CachesOf(server, budget, depth, node);
    var order := Positions(server, c, budget + 1, node);
    var k := ArchiveIsPreorder(server, budget, depth, node);
    hide Walk, CachesOf, Positions, FineAt, Exists, InPreorder, NameAt, StatOkAt;
    if k < |order| {
      assert order[k] in order;
    } else {
      forall pos | Exists(server, c, node, pos) ensures FineAt(server, c, budget, node, pos) {
        assert pos in order;
      }
    }
  }

  // ---------------------------------------------------------------------
  // Each name once
  // ---------------------------------------------------------------------

  predicate PlainNames(infos: seq<Info>) {
    forall i | 0 <= i < |infos| :: Plain(infos[i].name)
  }

  predicate DistinctNames(infos: seq<Info>) {
    forall i, j | 0 <= i < j < |infos| :: infos[i].name != infos[j].name
  }

  // A directory lists plain names, each once.
  ghost predicate PlainDistinct(server: Server) {
    forall abs | abs in server.dirs :: PlainNames(server.dirs[abs]) && DistinctNames(server.dirs[abs])
  }

  lemma ChildRel(rel: string, name: string)
    requires IsAbs(rel) && Plain(name)
    ensures IsAbs(PathJoin(rel, name)) && CleanSegs(PathJoin(rel, name)) == CleanSegs(rel) + [name]
  {
    CleanSegsJoin(rel, name);
    CleanSegsPlain(rel);
    var segs := CleanSegs(rel) + [name];
    hide CleanSegs, PathJoin;
    CleanSegsOfAbsPath(segs);
  }

  lemma HeaderOfSegs(node: Node)
    requires IsAbs(node.rel)
    ensures var segs := CleanSegs(node.rel);
            HeaderName(node) == if segs == [] then "." else AbsPath(segs) + (if node.isDir then "/" else "")
  {
    var segs := CleanSegs(node.rel);
    assert "/" + node.rel == "" + ['/'] + node.rel;
    SplitAround("", node.rel, '/');
    assert Split("/" + node.rel, '/')[1..] == Split(node.rel, '/');
    assert CleanSegs("/" + node.rel) == segs;
    CleanSegsPlain(node.rel);
    assert Clean("/" + node.rel) == AbsPath(segs);
    hide CleanSegs, Clean;
    PathHelpers.AbsPathEdges(segs);
    assert segs == [] ==> AbsPath(segs) == "/";
    assert AbsPath(segs) + "" == AbsPath(segs);
  }

  lemma HeaderInjective(a: Node, b: Node)
    requires IsAbs(a.rel) && IsAbs(b.rel) && HeaderName(a) == HeaderName(b)
    ensures CleanSegs(a.rel) == CleanSegs(b.rel)
  {
    var p, q := CleanSegs(a.rel), CleanSegs(b.rel);
    HeaderOfSegs(a);
    HeaderOfSegs(b);
    CleanSegsPlain(a.rel);
    CleanSegsPlain(b.rel);
    hide CleanSegs, HeaderName;
    PathHelpers.AbsPathEdges(p);
    PathHelpers.AbsPathEdges(q);
    if p != [] && q != [] {
      hide AbsPath;
      TrailingSlash(AbsPath(p), AbsPath(q), a.isDir, b.isDir);
      AbsPathInjective(p, q);
    }
  }

  lemma TrailingSlash(p: string, q: string, a: bool, b: bool)
    requires p != "" && q != "" && p[|p| - 1] != '/' && q[|q| - 1] != '/'
    requires p + (if a then "/" else "") == q + (if b then "/" else "")
    ensures p == q
  {
    var l, r := p + (if a then "/" else ""), q + (if b then "/" else "");
    assert a <==> l[|l| - 1] == '/';
    assert b <==> r[|r| - 1] == '/';
    assert l[..|p|] == p && r[..|q|] == q;
  }

  // The header name of some node below these segments.
  ghost predicate NamedUnder(name: string, segs: seq<string>) {
    exists n: Node :: IsAbs(n.rel) && HeaderName(n) == name && segs <= CleanSegs(n.rel)
  }

  ghost predicate AllUnder(names: seq<string>, segs: seq<string>) {
    forall i | 0 <= i < |names| :: NamedUnder(names[i], segs)
  }

  ghost predicate Distinct(names: seq<string>) {
    forall i, j | 0 <= i < j < |names| :: names[i] != names[j]
  }

  // Names below different children of a directory differ.
  lemma UnderApart(segs: seq<string>, a: string, b: string, x: string, y: string)
    requires NamedUnder(x, segs + [a]) && NamedUnder(y, segs + [b]) && a != b
    ensures x != y
  {
    hide CleanSegs, HeaderName;
    var m: Node :| IsAbs(m.rel) && HeaderName(m) == x && segs + [a] <= CleanSegs(m.rel);
    var n: Node :| IsAbs(n.rel) && HeaderName(n) == y && segs + [b] <= CleanSegs(n.rel);
    assert (segs + [a])[|segs|] == a && (segs + [b])[|segs|] == b;
    if x == y {
      HeaderInjective(m, n);
    }
  }

  lemma OwnNameApart(node: Node, x: string, a: string)
    requires IsAbs(node.rel) && NamedUnder(x, CleanSegs(node.rel) + [a])
    ensures x != HeaderName(node)
  {
    hide CleanSegs, HeaderName;
    var m: Node :| IsAbs(m.rel) && HeaderName(m) == x && CleanSegs(node.rel) + [a] <= CleanSegs(m.rel);
    if x == HeaderName(node) {
      HeaderInjective(m, node);
    }
  }

  lemma UnderFurther(x: string, segs: seq<string>, a: string)
    requires NamedUnder(x, segs + [a])
    ensures NamedUnder(x, segs)
  {
    hide CleanSegs, HeaderName;
    var m: Node :| IsAbs(m.rel) && HeaderName(m) == x && segs + [a] <= CleanSegs(m.rel);
    assert segs <= segs + [a];
  }

  // Each name lies below the child of one of these rows.
  ghost predicate UnderRows(names: seq<string>, segs: seq<string>, rows: seq<FileInfo>) {
    forall i | 0 <= i < |names| :: exists j | 0 <= j < |rows| :: NamedUnder(names[i], segs + [rows[j].info.name])
  }

  function Infos(rows: seq<FileInfo>): (infos: seq<Info>)
    ensures |infos| == |rows|
  {
    seq(|rows|, i requires 0 <= i < |rows| => rows[i].info)
  }

  // If every directory lists plain and distinct names, no header name
  // repeats: on every server, also in an archive that never ends.
  lemma {:induction false} EachNameOnce(server: Server, budget: nat, depth: nat, node: Node)
    requires PlainDistinct(server) && IsAbs(node.rel) && depth <= MAX_CHROOT_DEPTH
    ensures var names := Walk(server, budget, depth, node).names;
            AllUnder(names, CleanSegs(node.rel)) && Distinct(names)
    decreases budget, 0
  {
    hide StatOk, OpenOk, HeaderName, Listing.ListDir, Walk, WalkRows, CleanSegs, IsAbs, ValidatePath;
    hide PlainDistinct, PlainNames, DistinctNames, NamedUnder, UnderRows;
    WalkUnfold(server, budget, depth, node);
    OwnNameUnder(node);
    if budget == 0 || !Succeeds(server, node) || !node.isDir {
    } else {
      var l := ListDir(server, depth, node.abs);
      ListDirOk(server, depth, node.abs);
      ListedNames(server, depth, node.abs);
      EachNameOnceRows(server, budget - 1, l.depth, node, l.answer.value);
      OwnNameFirst(node, l.answer.value, WalkRows(server, budget - 1, l.depth, node, l.answer.value).names);
    }
  }

  lemma OwnNameUnder(node: Node)
    requires IsAbs(node.rel)
    ensures NamedUnder(HeaderName(node), CleanSegs(node.rel))
  {
    hide HeaderName, CleanSegs;
  }

  // A directory's own name, in front of the names of what lies below it.
  lemma OwnNameFirst(node: Node, rows: seq<FileInfo>, names: seq<string>)
    requires IsAbs(node.rel) && UnderRows(names, CleanSegs(node.rel), rows) && Distinct(names)
    ensures var all := [HeaderName(node)] + names; AllUnder(all, CleanSegs(node.rel)) && Distinct(all)
  {
    hide HeaderName, CleanSegs, IsAbs, NamedUnder;
    OwnNameUnder(node);
    var segs := CleanSegs(node.rel);
    forall i | 0 <= i < |names| ensures NamedUnder(names[i], segs) && names[i] != HeaderName(node) {
      var j :| 0 <= j < |rows| && NamedUnder(names[i], segs + [rows[j].info.name]);
      UnderFurther(names[i], segs, rows[j].info.name);
      OwnNameApart(node, names[i], rows[j].info.name);
    }
  }

  lemma ListedNames(server: Server, depth: nat, abs: string)
    requires PlainDistinct(server) && depth <= MAX_CHROOT_DEPTH && ListDir(server, depth, abs).answer.Ok?
    ensures var infos := Infos(ListDir(server, depth, abs).answer.value);
            PlainNames(infos) && DistinctNames(infos)
  {
    ListingKeepsRows(server, depth, abs);
    hide Listing.ListDir, PlainNames, DistinctNames, LinkOpens, ValidatePath;
    assert Infos(ListDir(server, depth, abs).answer.value) == server.dirs[abs];
  }

  lemma {:induction false} EachNameOnceRows(
    server: Server, budget: nat, depth: nat, node: Node, rows: seq<FileInfo>)
    requires PlainDistinct(server) && IsAbs(node.rel) && depth <= MAX_CHROOT_DEPTH
    requires PlainNames(Infos(rows)) && DistinctNames(Infos(rows))
    ensures var names := WalkRows(server, budget, depth, node, rows).names;
            UnderRows(names, CleanSegs(node.rel), rows) && Distinct(names)
    decreases budget, |rows| + 1
  {
    hide Walk, WalkRows, CleanSegs, HeaderName, NamedUnder, PlainDistinct, PathJoin, ChildAbs, Plain;
    RowsUnfold(server, budget, depth, node, rows);
    if rows == [] {
    } else {
      var segs := CleanSegs(node.rel);
      var child, name := ChildOf(node, rows[0]), rows[0].info.name;
      assert Infos(rows)[0].name == name;
      ChildRel(node.rel, name);
      EachNameOnce(server, budget, depth, child);
      DepthStaysSmall(server, budget, depth, child);
      var first := Walk(server, budget, depth, child);
      assert forall i | 0 <= i < |first.names| :: NamedUnder(first.names[i], segs + [name]);
      if first.status == Done {
        var rest := WalkRows(server, budget, first.depth, node, rows[1..]).names;
        assert Infos(rows[1..]) == Infos(rows)[1..];
        EachNameOnceRows(server, budget, first.depth, node, rows[1..]);
        forall i | 0 <= i < |rest|
          ensures exists j | 0 <= j < |rows| :: NamedUnder(rest[i], segs + [rows[j].info.name])
          ensures forall a | 0 <= a < |first.names| :: first.names[a] != rest[i]
        {
          var j :| 0 <= j < |rows[1..]| && NamedUnder(rest[i], segs + [rows[1..][j].info.name]);
          var other := rows[j + 1].info.name;
          assert NamedUnder(rest[i], segs + [other]);
          assert Infos(rows)[0].name != Infos(rows)[j + 1].name;
          forall a | 0 <= a < |first.names| ensures first.names[a] != rest[i] {
            UnderApart(segs, name, other, first.names[a], rest[i]);
          }
        }
      }
    }
  }

  // ---------------------------------------------------------------------
  // Where the walk goes
  // ---------------------------------------------------------------------

  // The walk enters what a click on the row would open: a promoted link is
  // followed to a listable directory, everything else is the plain child.
  lemma WalkFollowsClicks(server: Server, depth: nat, node: Node, i: nat)
    requires depth <= MAX_CHROOT_DEPTH
    requires i < |Kids(server, depth, node)| && PathHelpers.NearlyClean(node.abs)
    requires Plain(server.dirs[node.abs][i].name)
    ensures var info := server.dirs[node.abs][i];
            var row := ListDir(server, depth, node.abs).answer.value[i];
            var kid := Kids(server, depth, node)[i];
            && kid.rel == PathJoin(node.rel, info.name)
            && kid.abs == NewBrowseEntry(row, node.abs).clickPath
            && (if info.IsSymlink() && LinkOpens(server, node.abs, info)
                then kid.isDir && server.Listable(kid.abs)
                else kid.isDir == info.IsDir() && kid.abs == PathJoin(node.abs, info.name))
  {
    ListingKeepsRows(server, depth, node.abs);
    ValidatePathExact(node.abs);
    var info := server.dirs[node.abs][i];
    var row := ListDir(server, depth, node.abs).answer.value[i];
    assert Kids(server, depth, node)[i] == ChildOf(node, row) && row.info == info;
    PromotedLinksAreClickable(server, depth, node.abs, i);
    PathHelpers.JoinsAgree(node.abs, info.name);
    hide Listing.ListDir, PathJoin, LinkOpens, ValidatePath;
  }
}
