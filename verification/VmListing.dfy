// ListVMs and ListVMNamespaces: restore points grouped into virtual machines
// through a hash map, then sorted.
module VmListing {

  // created counts nanoseconds from Go's zero time.
  datatype RestorePoint = RestorePoint(labels: map<string, string>, name: string, created: int) {
    function Label(key: string): string {
      if key in labels then labels[key] else ""
    }

    predicate IsVM() {
      Label("k10.kasten.io/appType") == "virtualMachine"
    }

    function Ns(): string {
      Label("k10.kasten.io/appNamespace")
    }

    function Key(): VMKey {
      VMKey(Label("k10.kasten.io/appName"), Ns())
    }
  }

  datatype VMKey = VMKey(name: string, ns: string)

  datatype VM = VM(appName: string, appNamespace: string, lastRPName: string, lastRPTime: int, rpCount: nat) {
    function Key(): VMKey {
      VMKey(appName, appNamespace)
    }
  }

  // The restore point carries this label with this value; a missing label
  // counts as "".
  predicate Labelled(rp: RestorePoint, key: string, value: string) {
    (key in rp.labels && rp.labels[key] == value) || (key !in rp.labels && value == "")
  }

  // A restore point of this virtual machine, going by its labels.
  predicate IsRestorePointOf(rp: RestorePoint, name: string, ns: string) {
    && Labelled(rp, "k10.kasten.io/appType", "virtualMachine")
    && Labelled(rp, "k10.kasten.io/appName", name) && Labelled(rp, "k10.kasten.io/appNamespace", ns)
  }

  lemma LabelsDecide(rp: RestorePoint, name: string, ns: string)
    ensures rp.IsVM() && rp.Key() == VMKey(name, ns) <==> IsRestorePointOf(rp, name, ns)
    ensures rp.IsVM() && rp.Ns() == ns <==>
            Labelled(rp, "k10.kasten.io/appType", "virtualMachine") && Labelled(rp, "k10.kasten.io/appNamespace", ns)
  {
  }

  function Elems(ss: seq<string>): set<string> {
    set s | s in ss
  }

  // The allow-list: empty means everything.
  predicate Allowed(allow: set<string>, ns: string) {
    allow == {} || ns in allow
  }

  // ---------------------------------------------------------------------
  // Groups
  // ---------------------------------------------------------------------

  // The restore points of one virtual machine, in list order.
  function Group(items: seq<RestorePoint>, k: VMKey): seq<RestorePoint>
    decreases |items|
  {
    if items == [] then []
    else
      var rp := items[|items| - 1];
      Group(items[..|items| - 1], k) + if rp.IsVM() && rp.Key() == k then [rp] else []
  }

  // One more restore point seen.
  function Bump(v: VM, rp: RestorePoint): VM {
    var counted := v.(rpCount := v.rpCount + 1);
    if rp.created > v.lastRPTime then counted.(lastRPTime := rp.created, lastRPName := rp.name) else counted
  }

  function Summary(k: VMKey, group: seq<RestorePoint>): VM
    decreases |group|
  {
    if group == [] then VM(k.name, k.ns, "", 0, 0)
    else Bump(Summary(k, group[..|group| - 1]), group[|group| - 1])
  }

  function Keys(items: seq<RestorePoint>, allow: set<string>): set<VMKey> {
    set rp | rp in items && rp.IsVM() && Allowed(allow, rp.Ns()) :: rp.Key()
  }

  ghost predicate IsGrouping(items: seq<RestorePoint>, allow: set<string>, seen: map<VMKey, VM>) {
    seen.Keys == Keys(items, allow) && forall k | k in seen :: seen[k] == Summary(k, Group(items, k))
  }

  // The summary in plain terms: how many, the latest creation time, and the
  // first restore point created then.
  ghost predicate Summarizes(v: VM, k: VMKey, group: seq<RestorePoint>) {
    && v.Key() == k && v.rpCount == |group| && v.lastRPTime >= 0
    && (forall i | 0 <= i < |group| :: group[i].created <= v.lastRPTime)
    && (v.lastRPTime == 0 ==> v.lastRPName == "")
    && (v.lastRPTime > 0 ==>
          exists i | 0 <= i < |group| ::
            && group[i].created == v.lastRPTime && group[i].name == v.lastRPName
            && forall j | 0 <= j < i :: group[j].created < v.lastRPTime)
  }

  lemma {:induction false} SummaryMeans(k: VMKey, group: seq<RestorePoint>)
    ensures Summarizes(Summary(k, group), k, group)
    decreases |group|
  {
    if group == [] {
    } else {
      var n := |group| - 1;
      var front := group[..n];
      SummaryMeans(k, front);
      var was, v := Summary(k, front), Summary(k, group);
      assert forall i | 0 <= i < n :: front[i] == group[i];
      if group[n].created > was.lastRPTime {
        assert group[n].created == v.lastRPTime;
      } else if was.lastRPTime > 0 {
        var i :| 0 <= i < n && front[i].created == was.lastRPTime && front[i].name == was.lastRPName
                 && forall j | 0 <= j < i :: front[j].created < was.lastRPTime;
        assert group[i] == front[i];
      }
    }
  }

  lemma {:induction false} GroupMembers(items: seq<RestorePoint>, k: VMKey, rp: RestorePoint)
    ensures multiset(Group(items, k))[rp] == if rp.IsVM() && rp.Key() == k then multiset(items)[rp] else 0
    decreases |items|
  {
    if items == [] {
    } else {
      var n := |items| - 1;
      GroupMembers(items[..n], k, rp);
      assert items == items[..n] + [items[n]];
    }
  }

  // The counts of all virtual machines add up to the number of matching
  // restore points.
  function Matching(items: seq<RestorePoint>, allow: set<string>): nat
    decreases |items|
  {
    if items == [] then 0
    else
      var rp := items[|items| - 1];
      Matching(items[..|items| - 1], allow) + if rp.IsVM() && Allowed(allow, rp.Ns()) then 1 else 0
  }

  ghost function TotalCount(vms: seq<VM>): nat
    decreases |vms|
  {
    if vms == [] then 0 else TotalCount(vms[..|vms| - 1]) + vms[|vms| - 1].rpCount
  }

  // ---------------------------------------------------------------------
  // The order
  // ---------------------------------------------------------------------

  // Go's string comparison, byte by byte.
  predicate StrLess(a: string, b: string) {
    b != "" && (a == "" || a[0] < b[0] || (a[0] == b[0] && StrLess(a[1..], b[1..])))
  }

  // The first byte in which they differ decides; a proper prefix comes first.
  ghost predicate Bytewise(a: string, b: string) {
    exists i: nat :: FirstDifference(a, b, i)
  }

  predicate FirstDifference(a: string, b: string, i: nat) {
    i <= |a| && i < |b| && a[..i] == b[..i] && (i == |a| || a[i] < b[i])
  }

  lemma DifferenceLater(a: string, b: string, i: nat)
    requires FirstDifference(a, b, i)
    ensures i > 0 ==> a != "" && a[0] == b[0]
  {
    if i > 0 {
      assert a[..i][0] == a[0] && b[..i][0] == b[0];
    }
  }

  lemma {:induction false} StrLessIsBytewise(a: string, b: string)
    ensures StrLess(a, b) <==> Bytewise(a, b)
    decreases |a|
  {
    if a == "" || b == "" || a[0] != b[0] {
      if b != "" && (a == "" || a[0] < b[0]) {
        assert FirstDifference(a, b, 0);
      }
      forall i: nat | FirstDifference(a, b, i) ensures i > 0 ==> a != "" && a[0] == b[0] {
        DifferenceLater(a, b, i);
      }
    } else {
      StrLessIsBytewise(a[1..], b[1..]);
      if Bytewise(a[1..], b[1..]) {
        var i: nat :| FirstDifference(a[1..], b[1..], i);
        assert a[..i + 1] == [a[0]] + a[1..][..i] && b[..i + 1] == [b[0]] + b[1..][..i];
        assert FirstDifference(a, b, i + 1);
      }
      if Bytewise(a, b) {
        var i: nat :| FirstDifference(a, b, i);
        assert i > 0;
        assert a[1..][..i - 1] == a[..i][1..] && b[1..][..i - 1] == b[..i][1..];
        assert FirstDifference(a[1..], b[1..], i - 1);
      }
    }
  }

  lemma {:induction false} StrIrreflexive(a: string)
    ensures !StrLess(a, a)
  {
    if a == "" {
    } else {
      StrIrreflexive(a[1..]);
    }
  }

  lemma {:induction false} StrTransitive(a: string, b: string, c: string)
    requires StrLess(a, b) && StrLess(b, c)
    ensures StrLess(a, c)
  {
    if a == "" || !(a[0] == b[0] == c[0]) {
    } else {
      StrTransitive(a[1..], b[1..], c[1..]);
    }
  }

  lemma {:induction false} StrConnected(a: string, b: string)
    ensures a == b || StrLess(a, b) || StrLess(b, a)
  {
    if a == "" || b == "" || a[0] != b[0] {
    } else {
      StrConnected(a[1..], b[1..]);
      assert a == [a[0]] + a[1..] && b == [b[0]] + b[1..];
    }
  }

  predicate Less(a: VM, b: VM) {
    if a.appNamespace != b.appNamespace then StrLess(a.appNamespace, b.appNamespace)
    else if a.lastRPTime == b.lastRPTime then StrLess(a.appName, b.appName)
    else a.lastRPTime > b.lastRPTime
  }

  // A strict total order on machines with different keys.
  lemma LessIsStrictTotalOrder(a: VM, b: VM, c: VM)
    ensures !Less(a, a)
    ensures Less(a, b) && Less(b, c) ==> Less(a, c)
    ensures a.Key() != b.Key() ==> Less(a, b) || Less(b, a)
  {
    StrIrreflexive(a.appName);
    StrIrreflexive(a.appNamespace);
    StrConnected(a.appName, b.appName);
    StrConnected(a.appNamespace, b.appNamespace);
    if StrLess(a.appNamespace, b.appNamespace) && StrLess(b.appNamespace, c.appNamespace) {
      StrTransitive(a.appNamespace, b.appNamespace, c.appNamespace);
      StrIrreflexive(c.appNamespace);
    }
    if StrLess(a.appName, b.appName) && StrLess(b.appName, c.appName) {
      StrTransitive(a.appName, b.appName, c.appName);
    }
  }

  ghost predicate Sorted(vms: seq<VM>) {
    forall i, j | 0 <= i < j < |vms| :: Less(vms[i], vms[j])
  }

  lemma {:induction false} SortedUnique(a: seq<VM>, b: seq<VM>)
    requires Sorted(a) && Sorted(b) && forall v :: v in a <==> v in b
    ensures a == b
    decreases |a|
  {
    hide Less;
    assert b != [] ==> b[0] in b;
    if a == [] {
    } else {
      assert a[0] in b && b[0] in a;
      SameHead(a, b);
      forall v ensures v in a[1..] <==> v in b[1..] {
        TailMembers(a, v);
        TailMembers(b, v);
      }
      SortedUnique(a[1..], b[1..]);
      assert a == [a[0]] + a[1..] && b == [b[0]] + b[1..];
    }
  }

  lemma SameHead(a: seq<VM>, b: seq<VM>)
    requires Sorted(a) && Sorted(b) && a != [] && b != [] && a[0] in b && b[0] in a
    ensures a[0] == b[0]
  {
    hide Less;
    var i :| 0 <= i < |b| && b[i] == a[0];
    var j :| 0 <= j < |a| && a[j] == b[0];
    if i > 0 && j > 0 {
      LessIsStrictTotalOrder(a[0], b[0], a[0]);
    }
  }

  lemma TailMembers(a: seq<VM>, v: VM)
    requires Sorted(a) && a != []
    ensures v in a[1..] <==> v in a && v != a[0]
  {
    hide Less;
    if v in a[1..] {
      var i :| 0 <= i < |a[1..]| && a[1..][i] == v;
      assert Less(a[0], a[i + 1]);
      LessIsStrictTotalOrder(a[0], a[0], a[0]);
    }
  }

  function Insert(v: VM, sorted: seq<VM>): (r: seq<VM>)
    ensures |r| == |sorted| + 1
    decreases |sorted|
  {
    if sorted == [] || Less(v, sorted[0]) then [v] + sorted
    else [sorted[0]] + Insert(v, sorted[1..])
  }

  lemma {:induction false} InsertMembers(v: VM, sorted: seq<VM>, x: VM)
    ensures x in Insert(v, sorted) <==> x == v || x in sorted
    decreases |sorted|
  {
    if sorted == [] {
    } else {
      InsertMembers(v, sorted[1..], x);
      assert sorted == [sorted[0]] + sorted[1..];
    }
  }

  lemma {:induction false} InsertSorted(v: VM, sorted: seq<VM>)
    requires Sorted(sorted) && forall x | x in sorted :: x.Key() != v.Key()
    ensures Sorted(Insert(v, sorted))
    decreases |sorted|
  {
    hide Less;
    if sorted == [] {
    } else {
      var head, tail := sorted[0], sorted[1..];
      assert head in sorted;
      LessIsStrictTotalOrder(v, head, head);
      if Less(v, head) {
        forall i | 0 <= i < |sorted| ensures Less(v, sorted[i]) {
          LessIsStrictTotalOrder(v, head, sorted[i]);
        }
      } else {
        assert forall x | x in tail :: x in sorted;
        InsertSorted(v, tail);
        var rest := Insert(v, tail);
        forall i | 0 <= i < |rest| ensures Less(head, rest[i]) {
          InsertMembers(v, tail, rest[i]);
        }
      }
    }
  }

  // ---------------------------------------------------------------------
  // The listing
  // ---------------------------------------------------------------------

  // What ListVMs promises: sorted, and the summaries of exactly the allowed
  // groups.
  ghost predicate IsListing(items: seq<RestorePoint>, allow: set<string>, out: seq<VM>) {
    && Sorted(out)
    && (forall v | v in out :: v.Key() in Keys(items, allow) && v == Summary(v.Key(), Group(items, v.Key())))
    && (forall k | k in Keys(items, allow) :: Summary(k, Group(items, k)) in out)
  }

  // It promises exactly one result.
  lemma ListingUnique(items: seq<RestorePoint>, allow: set<string>, a: seq<VM>, b: seq<VM>)
    requires IsListing(items, allow, a) && IsListing(items, allow, b)
    ensures a == b
  {
    hide Sorted, Keys, Summary, Group;
    SortedUnique(a, b);
  }

  lemma {:induction false} SummaryKey(k: VMKey, group: seq<RestorePoint>)
    ensures Summary(k, group).Key() == k
    decreases |group|
  {
    if group == [] {
    } else {
      SummaryKey(k, group[..|group| - 1]);
    }
  }

  // A restore point that does not match changes no group.
  lemma GroupingSkip(items: seq<RestorePoint>, allow: set<string>, seen: map<VMKey, VM>, rp: RestorePoint)
    requires IsGrouping(items, allow, seen) && !(rp.IsVM() && Allowed(allow, rp.Ns()))
    ensures IsGrouping(items + [rp], allow, seen)
  {
    KeysSnoc(items, allow, rp);
    hide Keys, Group, Summary, Allowed;
    forall j | j in seen ensures seen[j] == Summary(j, Group(items + [rp], j)) {
      GroupSnoc(items, rp, j);
    }
  }

  function Taken(seen: map<VMKey, VM>, rp: RestorePoint): map<VMKey, VM> {
    var k := rp.Key();
    seen[k := Bump(if k in seen then seen[k] else VM(k.name, k.ns, "", 0, 0), rp)]
  }

  lemma TakenValue(items: seq<RestorePoint>, allow: set<string>, seen: map<VMKey, VM>, rp: RestorePoint, j: VMKey)
    requires IsGrouping(items, allow, seen) && rp.IsVM() && Allowed(allow, rp.Ns()) && j in Taken(seen, rp)
    ensures Taken(seen, rp)[j] == Summary(j, Group(items + [rp], j))
  {
    if j !in seen {
      NoGroup(items, allow, j);
    }
    hide Keys, Group, Summary, Bump, Allowed;
    GroupSnoc(items, rp, j);
    SummarySnoc(j, Group(items, j), rp);
  }

  // A matching one bumps its machine, which may be new.
  lemma GroupingTake(items: seq<RestorePoint>, allow: set<string>, seen: map<VMKey, VM>, rp: RestorePoint)
    requires IsGrouping(items, allow, seen) && rp.IsVM() && Allowed(allow, rp.Ns())
    ensures IsGrouping(items + [rp], allow, Taken(seen, rp))
  {
    KeysSnoc(items, allow, rp);
    assert Taken(seen, rp).Keys == seen.Keys + {rp.Key()};
    hide Keys, Group, Summary, Taken, Allowed;
    forall j | j in Taken(seen, rp) ensures Taken(seen, rp)[j] == Summary(j, Group(items + [rp], j)) {
      TakenValue(items, allow, seen, rp, j);
    }
  }

  lemma KeysSnoc(items: seq<RestorePoint>, allow: set<string>, rp: RestorePoint)
    ensures var taken := rp.IsVM() && Allowed(allow, rp.Ns());
            && Keys(items + [rp], allow) == Keys(items, allow) + (if taken then {rp.Key()} else {})
            && (rp.IsVM() && !taken ==> rp.Key() !in Keys(items, allow))
  {
  }

  lemma GroupSnoc(items: seq<RestorePoint>, rp: RestorePoint, k: VMKey)
    ensures Group(items + [rp], k) == if rp.IsVM() && rp.Key() == k then Group(items, k) + [rp] else Group(items, k)
  {
    assert (items + [rp])[..|items|] == items;
  }

  lemma SummarySnoc(k: VMKey, group: seq<RestorePoint>, rp: RestorePoint)
    ensures Summary(k, group + [rp]) == Bump(Summary(k, group), rp)
    ensures Summary(k, []) == VM(k.name, k.ns, "", 0, 0)
  {
    assert (group + [rp])[..|group|] == group;
  }

  lemma KeysOfFront(items: seq<RestorePoint>, allow: set<string>)
    requires items != []
    ensures var n := |items| - 1;
            && Keys(items[..n], allow) <= Keys(items, allow)
            && (items[n].IsVM() && Allowed(allow, items[n].Key().ns) ==> items[n].Key() in Keys(items, allow))
  {
    var n := |items| - 1;
    assert items[n] in items && forall rp | rp in items[..n] :: rp in items;
  }

  lemma {:induction false} NoGroup(items: seq<RestorePoint>, allow: set<string>, k: VMKey)
    requires k !in Keys(items, allow) && Allowed(allow, k.ns)
    ensures Group(items, k) == []
    decreases |items|
  {
    hide Keys, Allowed;
    if items == [] {
    } else {
      KeysOfFront(items, allow);
      NoGroup(items[..|items| - 1], allow, k);
    }
  }

  ghost predicate Lists(out: seq<VM>, name: string, ns: string) {
    exists v | v in out :: v.appName == name && v.appNamespace == ns
  }

  ghost predicate HasRestorePoint(items: seq<RestorePoint>, name: string, ns: string) {
    exists rp | rp in items :: IsRestorePointOf(rp, name, ns)
  }

  // Where in the list the restore points of a virtual machine are.
  function Places(items: seq<RestorePoint>, name: string, ns: string): set<nat> {
    set i: nat | i < |items| && IsRestorePointOf(items[i], name, ns)
  }

  // The record of a virtual machine, on the list it was made from: how many
  // restore points it has, the latest creation time, and the first restore
  // point in the list created then.
  ghost predicate SumsUp(v: VM, items: seq<RestorePoint>) {
    var places := Places(items, v.appName, v.appNamespace);
    && v.rpCount == |places| && v.lastRPTime >= 0
    && (forall i | i in places :: items[i].created <= v.lastRPTime)
    && (v.lastRPTime == 0 ==> v.lastRPName == "")
    && (v.lastRPTime > 0 ==>
          exists i | i in places ::
            && items[i].created == v.lastRPTime && items[i].name == v.lastRPName
            && forall j | j in places && j < i :: items[j].created < v.lastRPTime)
  }

  lemma PlacesSnoc(items: seq<RestorePoint>, name: string, ns: string)
    requires items != []
    ensures var n := |items| - 1;
            var front := Places(items[..n], name, ns);
            && n !in front && (forall i | i in front :: i < n)
            && Places(items, name, ns) == if IsRestorePointOf(items[n], name, ns) then front + {n} else front
  {
    hide IsRestorePointOf;
    assert forall i: nat | i < |items| - 1 :: items[..|items| - 1][i] == items[i];
  }

  lemma SummaryStep(items: seq<RestorePoint>, k: VMKey)
    requires items != []
    ensures var n := |items| - 1;
            var was := Summary(k, Group(items[..n], k));
            Summary(k, Group(items, k)) == if items[n].IsVM() && items[n].Key() == k then Bump(was, items[n]) else was
  {
    var n := |items| - 1;
    var front := Group(items[..n], k);
    assert Group(items, k) == front + if items[n].IsVM() && items[n].Key() == k then [items[n]] else [];
    SummarySnoc(k, front, items[n]);
    assert front + [] == front;
  }

  lemma {:induction false} SummaryOfItems(items: seq<RestorePoint>, k: VMKey)
    ensures Summary(k, Group(items, k)).Key() == k && SumsUp(Summary(k, Group(items, k)), items)
    decreases |items|
  {
    hide IsRestorePointOf, Places, SumsUp;
    SummaryKey(k, Group(items, k));
    if items == [] {
      NothingSumsUp(k);
    } else {
      var n := |items| - 1;
      SummaryOfItems(items[..n], k);
      SummaryStep(items, k);
      PlacesSnoc(items, k.name, k.ns);
      LabelsDecide(items[n], k.name, k.ns);
      SumsUpSnoc(Summary(k, Group(items[..n], k)), Summary(k, Group(items, k)), items);
    }
  }

  lemma NothingSumsUp(k: VMKey)
    ensures SumsUp(Summary(k, Group([], k)), [])
  {
    assert Places([], k.name, k.ns) == {};
  }

  lemma SumsUpSnoc(was: VM, v: VM, items: seq<RestorePoint>)
    requires items != [] && v.Key() == was.Key() && SumsUp(was, items[..|items| - 1])
    requires var rp := items[|items| - 1];
             v == if IsRestorePointOf(rp, v.appName, v.appNamespace) then Bump(was, rp) else was
    ensures SumsUp(v, items)
  {
    hide IsRestorePointOf, Places;
    var n := |items| - 1;
    var front := Places(items[..n], v.appName, v.appNamespace);
    PlacesSnoc(items, v.appName, v.appNamespace);
    if was.lastRPTime > 0 {
      var i :| i in front && items[..n][i].created == was.lastRPTime && items[..n][i].name == was.lastRPName
               && forall j | j in front && j < i :: items[..n][j].created < was.lastRPTime;
      assert items[i] == items[..n][i];
    }
    assert forall j | j in front :: items[j] == items[..n][j];
  }

  lemma ListedIff(items: seq<RestorePoint>, namespaces: seq<string>, out: seq<VM>, name: string, ns: string)
    requires IsListing(items, Elems(namespaces), out)
    ensures Lists(out, name, ns) <==> (namespaces == [] || ns in namespaces) && HasRestorePoint(items, name, ns)
  {
    hide Less, Summary, Group, StrLess, Sorted, IsRestorePointOf;
    var k := VMKey(name, ns);
    assert namespaces != [] ==> namespaces[0] in Elems(namespaces);
    forall rp: RestorePoint ensures rp.IsVM() && rp.Key() == k <==> IsRestorePointOf(rp, name, ns) {
      LabelsDecide(rp, name, ns);
    }
    SummaryKey(k, Group(items, k));
    assert k in Keys(items, Elems(namespaces)) <==>
           (namespaces == [] || ns in namespaces) && HasRestorePoint(items, name, ns);
  }

  // Namespaces ascend bytewise; within one, the newest machine comes first,
  // and names ascend bytewise among those of the same age.
  ghost predicate NewestFirst(out: seq<VM>) {
    forall i, j | 0 <= i < j < |out| ::
      && (out[i].appNamespace == out[j].appNamespace || Bytewise(out[i].appNamespace, out[j].appNamespace))
      && (out[i].appNamespace == out[j].appNamespace ==> out[i].lastRPTime >= out[j].lastRPTime)
      && (out[i].appNamespace == out[j].appNamespace && out[i].lastRPTime == out[j].lastRPTime ==>
            Bytewise(out[i].appName, out[j].appName))
  }

  method ListVMs(items: seq<RestorePoint>, namespaces: seq<string>) returns (out: seq<VM>)
    ensures IsListing(items, Elems(namespaces), out)
    ensures forall name: string, ns: string ::
              Lists(out, name, ns) <==> (namespaces == [] || ns in namespaces) && HasRestorePoint(items, name, ns)
    ensures forall v | v in out :: SumsUp(v, items)
    ensures NewestFirst(out)
  {
    hide Summary, Group, Keys, Less, StrLess, Bytewise, SumsUp, HasRestorePoint, Lists, IsGrouping;
    hide IsListing, NewestFirst;
    var allow := Elems(namespaces);
    var seen: map<VMKey, VM> := map[];
    assert items[..0] == [];
    NothingSeen(allow);
    for i := 0 to |items|
      invariant IsGrouping(items[..i], allow, seen)
    {
      var it := items[i];
      assert items[..i + 1] == items[..i] + [it];
      if !(it.IsVM() && Allowed(allow, it.Ns())) {
        GroupingSkip(items[..i], allow, seen, it);
      } else {
        GroupingTake(items[..i], allow, seen, it);
        assert items[..i] + [it] == items[..i + 1];
        var k := it.Key();
        var v := if k in seen then seen[k] else VM(k.name, k.ns, "", 0, 0);
        seen := seen[k := Bump(v, it)];
      }
    }
    assert items[..|items|] == items;
    out := SortedValues(items, allow, seen);
    ListingSays(items, namespaces, out);
  }

  lemma NothingSeen(allow: set<string>)
    ensures IsGrouping([], allow, map[])
  {
  }

  // What it means to be the listing.
  lemma ListingSays(items: seq<RestorePoint>, namespaces: seq<string>, out: seq<VM>)
    requires IsListing(items, Elems(namespaces), out)
    ensures forall name: string, ns: string ::
              Lists(out, name, ns) <==> (namespaces == [] || ns in namespaces) && HasRestorePoint(items, name, ns)
    ensures forall v | v in out :: SumsUp(v, items)
    ensures NewestFirst(out)
  {
    hide Less, Summary, Group, Keys, StrLess, Bytewise, SumsUp, HasRestorePoint, Lists, NewestFirst, Elems;
    forall v | v in out ensures SumsUp(v, items) {
      SummaryOfItems(items, v.Key());
    }
    forall name: string, ns: string
      ensures Lists(out, name, ns) <==> (namespaces == [] || ns in namespaces) && HasRestorePoint(items, name, ns)
    {
      ListedIff(items, namespaces, out, name, ns);
    }
    SortedIsNewestFirst(out);
  }

  lemma SortedIsNewestFirst(out: seq<VM>)
    requires Sorted(out)
    ensures NewestFirst(out)
  {
    hide StrLess, Bytewise;
    forall i, j | 0 <= i < j < |out|
      ensures Less(out[i], out[j])
      ensures StrLess(out[i].appNamespace, out[j].appNamespace) <==>
              Bytewise(out[i].appNamespace, out[j].appNamespace)
      ensures StrLess(out[i].appName, out[j].appName) <==> Bytewise(out[i].appName, out[j].appName)
    {
      StrLessIsBytewise(out[i].appNamespace, out[j].appNamespace);
      StrLessIsBytewise(out[i].appName, out[j].appName);
    }
  }

  // The map's values, in whatever order the map yields them, sorted.
  method SortedValues(ghost items: seq<RestorePoint>, ghost allow: set<string>, seen: map<VMKey, VM>)
    returns (out: seq<VM>)
    requires IsGrouping(items, allow, seen)
    ensures IsListing(items, allow, out)
  {
    hide Less, Insert, Keys, Group, Summary;
    var todo := seen.Keys;
    out := [];
    while todo != {}
      invariant todo <= seen.Keys
      invariant Sorted(out)
      invariant forall v :: v in out <==> v.Key() in seen && v.Key() !in todo && v == seen[v.Key()]
      decreases todo
    {
      var k :| k in todo;
      SummaryKey(k, Group(items, k));
      InsertSorted(seen[k], out);
      ghost var before := out;
      out := Insert(seen[k], out);
      todo := todo - {k};
      forall v ensures v in out <==> v.Key() in seen && v.Key() !in todo && v == seen[v.Key()] {
        InsertMembers(seen[k], before, v);
      }
    }
    forall k | k in seen ensures Summary(k, Group(items, k)) in out {
      SummaryKey(k, Group(items, k));
    }
  }

  // ---------------------------------------------------------------------
  // Namespaces, and the partition they induce
  // ---------------------------------------------------------------------

  ghost predicate Ascending(ss: seq<string>) {
    forall i, j | 0 <= i < j < |ss| :: StrLess(ss[i], ss[j])
  }

  ghost predicate IsNamespaceList(items: seq<RestorePoint>, out: seq<string>) {
    Ascending(out) && forall n :: n in out <==> n != "" && exists rp | rp in items :: rp.IsVM() && rp.Ns() == n
  }

  function InsertString(s: string, sorted: seq<string>): seq<string>
    decreases |sorted|
  {
    if sorted == [] || StrLess(s, sorted[0]) then [s] + sorted
    else [sorted[0]] + InsertString(s, sorted[1..])
  }

  lemma {:induction false} InsertStringMembers(s: string, sorted: seq<string>, x: string)
    ensures x in InsertString(s, sorted) <==> x == s || x in sorted
    decreases |sorted|
  {
    hide StrLess;
    if sorted == [] {
    } else {
      InsertStringMembers(s, sorted[1..], x);
      assert sorted == [sorted[0]] + sorted[1..];
    }
  }

  lemma {:induction false} InsertStringAscending(s: string, sorted: seq<string>)
    requires Ascending(sorted) && s !in sorted
    ensures Ascending(InsertString(s, sorted))
    decreases |sorted|
  {
    hide StrLess;
    if sorted == [] {
    } else {
      var head, tail := sorted[0], sorted[1..];
      assert head in sorted;
      StrConnected(s, head);
      if StrLess(s, head) {
        forall i | 0 < i < |sorted| ensures StrLess(s, sorted[i]) {
          StrTransitive(s, head, sorted[i]);
        }
      } else {
        InsertStringAscending(s, tail);
        var rest := InsertString(s, tail);
        forall i | 0 <= i < |rest| ensures StrLess(head, rest[i]) {
          InsertStringMembers(s, tail, rest[i]);
        }
      }
    }
  }

  method ListVMNamespaces(items: seq<RestorePoint>) returns (out: seq<string>)
    ensures IsNamespaceList(items, out)
    ensures forall i, j | 0 <= i < j < |out| :: Bytewise(out[i], out[j])
    ensures forall n: string ::
              n in out <==> n != "" && exists rp | rp in items ::
                Labelled(rp, "k10.kasten.io/appType", "virtualMachine")
                && Labelled(rp, "k10.kasten.io/appNamespace", n)
  {
    hide StrLess, Bytewise, InsertString, Labelled;
    var found: set<string> := {};
    for i := 0 to |items|
      invariant forall n :: n in found <==> n != "" && exists j | 0 <= j < i :: items[j].IsVM() && items[j].Ns() == n
    {
      if items[i].IsVM() && items[i].Ns() != "" {
        found := found + {items[i].Ns()};
      }
    }
    var todo := found;
    out := [];
    while todo != {}
      invariant todo <= found && Ascending(out)
      invariant forall n :: n in out <==> n in found && n !in todo
      decreases todo
    {
      var n :| n in todo;
      InsertStringAscending(n, out);
      ghost var before := out;
      out := InsertString(n, out);
      todo := todo - {n};
      forall x ensures x in out <==> x in found && x !in todo {
        InsertStringMembers(n, before, x);
      }
    }
    NamespacesByLabel(items, out);
  }

  lemma NamespacesByLabel(items: seq<RestorePoint>, out: seq<string>)
    requires IsNamespaceList(items, out)
    ensures forall i, j | 0 <= i < j < |out| :: Bytewise(out[i], out[j])
    ensures forall n: string ::
              n in out <==> n != "" && exists rp | rp in items ::
                Labelled(rp, "k10.kasten.io/appType", "virtualMachine")
                && Labelled(rp, "k10.kasten.io/appNamespace", n)
  {
    hide StrLess, Bytewise, Labelled;
    forall i, j | 0 <= i < j < |out| ensures Bytewise(out[i], out[j]) {
      StrLessIsBytewise(out[i], out[j]);
    }
    forall rp: RestorePoint, n: string
      ensures rp.IsVM() && rp.Ns() == n <==>
              Labelled(rp, "k10.kasten.io/appType", "virtualMachine")
              && Labelled(rp, "k10.kasten.io/appNamespace", n)
    {
      LabelsDecide(rp, "", n);
    }
  }

  function Concat(parts: seq<seq<VM>>): seq<VM>
    decreases |parts|
  {
    if parts == [] then [] else Concat(parts[..|parts| - 1]) + parts[|parts| - 1]
  }

  lemma NsOfKey(items: seq<RestorePoint>, allow: set<string>, k: VMKey)
    ensures k in Keys(items, allow) <==> k in Keys(items, {}) && Allowed(allow, k.ns)
  {
  }

  lemma KeysOfBoth(items: seq<RestorePoint>, low: set<string>, n: string)
    requires low != {}
    ensures Keys(items, low + {n}) == Keys(items, low) + Keys(items, {n})
  {
    hide Keys;
    forall k ensures k in Keys(items, low + {n}) <==> k in Keys(items, low) || k in Keys(items, {n}) {
      NsOfKey(items, low + {n}, k);
      NsOfKey(items, low, k);
      NsOfKey(items, {n}, k);
    }
  }

  lemma LowerNsLess(a: VM, b: VM)
    requires StrLess(a.Key().ns, b.Key().ns)
    ensures Less(a, b)
  {
    StrIrreflexive(b.Key().ns);
  }

  // Listings of disjoint, ordered namespaces can be put one after the other.
  lemma AppendListing(items: seq<RestorePoint>, low: set<string>, n: string, a: seq<VM>, b: seq<VM>)
    requires IsListing(items, low, a) && IsListing(items, {n}, b) && low != {}
    requires forall m | m in low :: StrLess(m, n)
    ensures IsListing(items, low + {n}, a + b)
  {
    hide Keys, Group, Summary, Less, StrLess;
    KeysOfBoth(items, low, n);
    forall i, j | 0 <= i < |a| && 0 <= j < |b| ensures Less(a[i], b[j]) {
      assert a[i] in a && b[j] in b;
      NsOfKey(items, low, a[i].Key());
      NsOfKey(items, {n}, b[j].Key());
      LowerNsLess(a[i], b[j]);
    }
    assert Sorted(a + b);
  }

  lemma NoElems(ss: seq<string>)
    requires ss == []
    ensures {""} + Elems(ss) == {""}
  {
  }

  lemma LowerNamespaces(nss: seq<string>, i: nat)
    requires Ascending(nss) && "" !in nss && 0 < i <= |nss|
    ensures var low := {""} + Elems(nss[..i - 1]);
            && (forall m | m in low :: StrLess(m, nss[i - 1]))
            && low + {nss[i - 1]} == {""} + Elems(nss[..i])
  {
    var low := {""} + Elems(nss[..i - 1]);
    assert nss[i - 1] in nss;
    forall m | m in low ensures StrLess(m, nss[i - 1]) {
      if m != "" {
        var j :| 0 <= j < i - 1 && nss[..i - 1][j] == m;
        assert nss[j] == m;
      }
    }
    assert nss[..i] == nss[..i - 1] + [nss[i - 1]];
  }

  lemma {:induction false} ListingOfFirst(
    items: seq<RestorePoint>, empty: seq<VM>, nss: seq<string>, parts: seq<seq<VM>>, i: nat)
    requires IsListing(items, {""}, empty)
    requires Ascending(nss) && "" !in nss && |parts| == |nss| && i <= |nss|
    requires forall j | 0 <= j < |nss| :: IsListing(items, {nss[j]}, parts[j])
    ensures IsListing(items, {""} + Elems(nss[..i]), empty + Concat(parts[..i]))
    decreases i
  {
    hide Keys, Group, Summary, Less, Sorted, IsListing, StrLess, Ascending, Elems;
    if i == 0 {
      NoElems(nss[..0]);
      assert empty + Concat(parts[..0]) == empty;
    } else {
      ListingOfFirst(items, empty, nss, parts, i - 1);
      var low := {""} + Elems(nss[..i - 1]);
      LowerNamespaces(nss, i);
      AppendListing(items, low, nss[i - 1], empty + Concat(parts[..i - 1]), parts[i - 1]);
      assert parts[..i][..i - 1] == parts[..i - 1];
      assert empty + Concat(parts[..i - 1]) + parts[i - 1] == empty + Concat(parts[..i]);
    }
  }

  lemma KeysOfEverything(items: seq<RestorePoint>, nss: seq<string>)
    requires IsNamespaceList(items, nss)
    ensures Keys(items, {""} + Elems(nss)) == Keys(items, {})
  {
    forall k ensures k in Keys(items, {""} + Elems(nss)) <==> k in Keys(items, {}) {
      NsOfKey(items, {""} + Elems(nss), k);
    }
  }

  // The unrestricted listing is the machines without a namespace, followed by
  // the per-namespace listings in namespace order.
  lemma ListingPartitions(
    items: seq<RestorePoint>, all: seq<VM>, empty: seq<VM>, nss: seq<string>, parts: seq<seq<VM>>)
    requires IsListing(items, {}, all) && IsListing(items, {""}, empty)
    requires IsNamespaceList(items, nss) && |parts| == |nss|
    requires forall j | 0 <= j < |nss| :: IsListing(items, {nss[j]}, parts[j])
    ensures all == empty + Concat(parts)
  {
    hide Keys, Group, Summary, Less, Sorted, Elems;
    var everything := {""} + Elems(nss);
    KeysOfEverything(items, nss);
    ListingOfFirst(items, empty, nss, parts, |nss|);
    assert nss[..|nss|] == nss && parts[..|parts|] == parts;
    assert IsListing(items, everything, empty + Concat(parts));
    assert IsListing(items, {}, empty + Concat(parts));
    ListingUnique(items, {}, all, empty + Concat(parts));
  }

  // ---------------------------------------------------------------------
  // The order in which restore points arrive
  // ---------------------------------------------------------------------

  lemma SummaryReordered(items: seq<RestorePoint>, other: seq<RestorePoint>, k: VMKey)
    requires multiset(items) == multiset(other)
    ensures var a, b := Summary(k, Group(items, k)), Summary(k, Group(other, k));
            && a.(lastRPName := "") == b.(lastRPName := "")
            && (a.lastRPName != b.lastRPName ==> Tie(items, k, a.lastRPTime, a.lastRPName, b.lastRPName))
  {
    hide Summary, Group;
    var g, h := Group(items, k), Group(other, k);
    GroupReordered(items, other, k);
    SummaryMeans(k, g);
    SummaryMeans(k, h);
    var a, b := Summary(k, g), Summary(k, h);
    AtMost(g, h, a.lastRPTime, b.lastRPTime);
    AtMost(h, g, b.lastRPTime, a.lastRPTime);
    if a.lastRPName != b.lastRPName {
      var i :| 0 <= i < |g| && g[i].created == a.lastRPTime && g[i].name == a.lastRPName;
      var j :| 0 <= j < |h| && h[j].created == b.lastRPTime && h[j].name == b.lastRPName;
      InItems(items, other, k, g, h, i, j);
    }
  }

  lemma GroupReordered(items: seq<RestorePoint>, other: seq<RestorePoint>, k: VMKey)
    requires multiset(items) == multiset(other)
    ensures multiset(Group(items, k)) == multiset(Group(other, k)) && |Group(items, k)| == |Group(other, k)|
  {
    hide Group;
    var g, h := Group(items, k), Group(other, k);
    forall rp ensures multiset(g)[rp] == multiset(h)[rp] {
      GroupMembers(items, k, rp);
      GroupMembers(other, k, rp);
    }
    assert |g| == |multiset(g)| && |h| == |multiset(h)|;
  }

  lemma AtMost(g: seq<RestorePoint>, h: seq<RestorePoint>, s: int, t: int)
    requires multiset(g) == multiset(h) && s >= 0 && t >= 0
    requires forall i | 0 <= i < |g| :: g[i].created <= s
    requires t > 0 ==> exists i | 0 <= i < |h| :: h[i].created == t
    ensures t <= s
  {
    if t > 0 {
      var i :| 0 <= i < |h| && h[i].created == t;
      assert h[i] in multiset(h);
      assert h[i] in g;
    }
  }

  // Two differently named restore points of one machine, created at once.
  ghost predicate Tie(items: seq<RestorePoint>, k: VMKey, t: int, a: string, b: string) {
    exists r, s | r in items && s in items ::
      && r.IsVM() && s.IsVM() && r.Key() == k == s.Key()
      && r.created == t == s.created && r.name == a && s.name == b
  }

  lemma InItems(items: seq<RestorePoint>, other: seq<RestorePoint>, k: VMKey,
                g: seq<RestorePoint>, h: seq<RestorePoint>, i: nat, j: nat)
    requires multiset(items) == multiset(other) && g == Group(items, k) && h == Group(other, k)
    requires i < |g| && j < |h| && g[i].created == h[j].created
    ensures Tie(items, k, g[i].created, g[i].name, h[j].name)
  {
    var r, s := g[i], h[j];
    assert r in multiset(g) && s in multiset(h);
    GroupMembers(items, k, r);
    GroupMembers(other, k, s);
    assert r in multiset(items) && s in multiset(items);
    assert r in items && s in items;
  }

  function Blank(vms: seq<VM>): (r: seq<VM>)
    ensures |r| == |vms|
  {
    seq(|vms|, i requires 0 <= i < |vms| => vms[i].(lastRPName := ""))
  }

  lemma BlankSorted(vms: seq<VM>)
    requires Sorted(vms)
    ensures Sorted(Blank(vms))
  {
    forall i, j | 0 <= i < j < |vms| ensures Less(Blank(vms)[i], Blank(vms)[j]) {
      assert Less(vms[i], vms[j]);
    }
  }

  lemma BlankCovers(items: seq<RestorePoint>, other: seq<RestorePoint>, allow: set<string>,
                    a: seq<VM>, b: seq<VM>, v: VM)
    requires multiset(items) == multiset(other)
    requires IsListing(items, allow, a) && IsListing(other, allow, b)
    requires v in Blank(a)
    ensures v in Blank(b)
  {
    var i :| 0 <= i < |a| && v == Blank(a)[i];
    var k := a[i].Key();
    assert a[i] in a;
    SameKeys(items, other, allow);
    SummaryReordered(items, other, k);
    hide Summary, Group, Keys;
    var w := Summary(k, Group(other, k));
    assert w in b;
    var j :| 0 <= j < |b| && b[j] == w;
    assert Blank(b)[j] == v;
  }

  lemma SameKeys(items: seq<RestorePoint>, other: seq<RestorePoint>, allow: set<string>)
    requires multiset(items) == multiset(other)
    ensures Keys(items, allow) == Keys(other, allow)
  {
    forall rp ensures rp in items <==> rp in other {
      assert rp in multiset(items) <==> rp in multiset(other);
    }
  }

  // Reordering the restore points changes nothing but LastRPName, and that
  // only between restore points created at the same instant.
  lemma ListingReordered(items: seq<RestorePoint>, other: seq<RestorePoint>, allow: set<string>, a: seq<VM>, b: seq<VM>)
    requires multiset(items) == multiset(other)
    requires IsListing(items, allow, a) && IsListing(other, allow, b)
    ensures |a| == |b|
    ensures forall i | 0 <= i < |a| ::
              && a[i].(lastRPName := "") == b[i].(lastRPName := "")
              && (a[i].lastRPName != b[i].lastRPName ==>
                    Tie(items, a[i].Key(), a[i].lastRPTime, a[i].lastRPName, b[i].lastRPName))
  {
    BlankSorted(a);
    BlankSorted(b);
    hide Summary, Group, Keys, Sorted;
    forall v ensures v in Blank(a) <==> v in Blank(b) {
      if v in Blank(a) {
        BlankCovers(items, other, allow, a, b, v);
      }
      if v in Blank(b) {
        BlankCovers(other, items, allow, b, a, v);
      }
    }
    SortedUnique(Blank(a), Blank(b));
    forall i | 0 <= i < |a|
      ensures a[i].(lastRPName := "") == b[i].(lastRPName := "")
      ensures a[i].lastRPName != b[i].lastRPName ==>
                Tie(items, a[i].Key(), a[i].lastRPTime, a[i].lastRPName, b[i].lastRPName)
    {
      assert Blank(a)[i] == Blank(b)[i];
      assert a[i] in a && b[i] in b;
      SummaryReordered(items, other, a[i].Key());
    }
  }

  // ---------------------------------------------------------------------
  // Counts add up
  // ---------------------------------------------------------------------

  // The matching restore points whose machine is in a set of keys.
  function Within(items: seq<RestorePoint>, ks: set<VMKey>): nat
    decreases |items|
  {
    if items == [] then 0
    else
      var rp := items[|items| - 1];
      Within(items[..|items| - 1], ks) + if rp.IsVM() && rp.Key() in ks then 1 else 0
  }

  lemma {:induction false} WithinOneMore(items: seq<RestorePoint>, ks: set<VMKey>, k: VMKey)
    requires k !in ks
    ensures Within(items, ks + {k}) == Within(items, ks) + |Group(items, k)|
    decreases |items|
  {
    if items == [] {
    } else {
      WithinOneMore(items[..|items| - 1], ks, k);
    }
  }

  lemma {:induction false} WithinNone(items: seq<RestorePoint>)
    ensures Within(items, {}) == 0
    decreases |items|
  {
    if items == [] {
    } else {
      WithinNone(items[..|items| - 1]);
    }
  }

  lemma {:induction false} WithinAll(items: seq<RestorePoint>, allow: set<string>, ks: set<VMKey>)
    requires forall rp | rp in items && rp.IsVM() :: rp.Key() in ks <==> Allowed(allow, rp.Ns())
    ensures Within(items, ks) == Matching(items, allow)
    decreases |items|
  {
    if items == [] {
    } else {
      var n := |items| - 1;
      assert items[n] in items && forall rp | rp in items[..n] :: rp in items;
      WithinAll(items[..n], allow, ks);
    }
  }

  ghost function KeysOf(vms: seq<VM>): set<VMKey> {
    set v | v in vms :: v.Key()
  }

  lemma KeysOfNone()
    ensures KeysOf([]) == {}
  {
  }

  lemma KeysOfSnoc(vms: seq<VM>)
    requires vms != [] && forall i, j | 0 <= i < j < |vms| :: vms[i].Key() != vms[j].Key()
    ensures var n := |vms| - 1;
            && vms[n] in vms && KeysOf(vms) == KeysOf(vms[..n]) + {vms[n].Key()}
            && vms[n].Key() !in KeysOf(vms[..n])
  {
    var n := |vms| - 1;
    assert vms == vms[..n] + [vms[n]];
  }

  lemma {:induction false} TotalOfListing(items: seq<RestorePoint>, out: seq<VM>)
    requires Sorted(out)
    requires forall v | v in out :: v == Summary(v.Key(), Group(items, v.Key()))
    requires forall i, j | 0 <= i < j < |out| :: out[i].Key() != out[j].Key()
    ensures TotalCount(out) == Within(items, KeysOf(out))
    decreases |out|
  {
    hide Less, Sorted, Summary, Group, Within, KeysOf;
    if out == [] {
      WithinNone(items);
      KeysOfNone();
    } else {
      var n := |out| - 1;
      var front := out[..n];
      assert forall i | 0 <= i < n :: front[i] == out[i];
      assert forall v | v in front :: v in out;
      SortedPrefix(out);
      TotalOfListing(items, front);
      KeysOfSnoc(out);
      WithinOneMore(items, KeysOf(front), out[n].Key());
      SummaryMeans(out[n].Key(), Group(items, out[n].Key()));
    }
  }

  lemma SortedPrefix(out: seq<VM>)
    requires Sorted(out) && out != []
    ensures Sorted(out[..|out| - 1])
  {
    hide Less;
  }

  // The RPCounts of a listing add up to the matching restore points.
  lemma CountsAddUp(items: seq<RestorePoint>, allow: set<string>, out: seq<VM>)
    requires IsListing(items, allow, out)
    ensures TotalCount(out) == Matching(items, allow)
    ensures forall i, j | 0 <= i < j < |out| :: out[i].Key() != out[j].Key()
  {
    forall i, j | 0 <= i < j < |out| ensures out[i].Key() != out[j].Key() {
      assert out[i] in out && out[j] in out && Less(out[i], out[j]);
      if out[i].Key() == out[j].Key() {
        assert out[i] == out[j];
        LessIsStrictTotalOrder(out[i], out[i], out[i]);
      }
    }
    hide Less, Sorted, Summary, Group;
    TotalOfListing(items, out);
    var ks := KeysOf(out);
    assert ks == Keys(items, allow) by {
      forall k | k in Keys(items, allow) ensures k in ks {
        SummaryMeans(k, Group(items, k));
        assert Summary(k, Group(items, k)) in out;
      }
    }
    forall rp | rp in items && rp.IsVM() ensures rp.Key() in ks <==> Allowed(allow, rp.Ns()) {
    }
    WithinAll(items, allow, ks);
  }
}
