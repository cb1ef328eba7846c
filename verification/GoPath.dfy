// The string layer: strings.Split / strings.Join, and the lexical path
// operations of Go's path and path/filepath packages on a Unix host.
// A Go string is a byte sequence; one `char` stands for one byte.
module GoPath {

  // ---------------------------------------------------------------------
  // strings.Split and strings.Join with a one-byte separator
  // ---------------------------------------------------------------------

  function Split(s: string, sep: char): (parts: seq<string>)
    ensures |parts| >= 1
  {
    if s == "" then [""]
    else
      var rest := Split(s[1..], sep);
      if s[0] == sep then [""] + rest else [[s[0]] + rest[0]] + rest[1..]
  }

  function Join(parts: seq<string>, sep: char): string {
    if |parts| == 0 then ""
    else if |parts| == 1 then parts[0]
    else parts[0] + [sep] + Join(parts[1..], sep)
  }

  lemma {:induction false} JoinSplit(s: string, sep: char)
    ensures Join(Split(s, sep), sep) == s
  {
    if s == "" {
    } else {
      JoinSplit(s[1..], sep);
      var rest := Split(s[1..], sep);
      if s[0] == sep {
        assert ([""] + rest)[1..] == rest;
      } else {
        assert ([[s[0]] + rest[0]] + rest[1..])[1..] == rest[1..];
      }
    }
  }

  lemma {:induction false} SplitPieces(s: string, sep: char)
    ensures forall i | 0 <= i < |Split(s, sep)| :: sep !in Split(s, sep)[i]
  {
    if s == "" {
    } else {
      SplitPieces(s[1..], sep);
    }
  }

  // The first part grows by one character, or a new one starts.
  function Grown(c: char, rest: seq<string>, sep: char): seq<string>
    requires |rest| >= 1
  {
    if c == sep then [""] + rest else [[c] + rest[0]] + rest[1..]
  }

  lemma SplitUnfold(c: char, s: string, sep: char)
    ensures Split([c] + s, sep) == Grown(c, Split(s, sep), sep)
  {
    assert ([c] + s)[1..] == s;
  }

  lemma GrownAppend(c: char, a: seq<string>, b: seq<string>, sep: char)
    requires |a| >= 1
    ensures Grown(c, a + b, sep) == Grown(c, a, sep) + b
  {
    if c == sep {
      assert [""] + (a + b) == ([""] + a) + b;
    } else {
      assert (a + b)[1..] == a[1..] + b;
    }
  }

  lemma SplitSep(b: string, sep: char)
    ensures Split([sep] + b, sep) == Split("", sep) + Split(b, sep)
  {
    SplitUnfold(sep, b, sep);
  }

  lemma {:induction false} SplitAround(a: string, b: string, sep: char)
    ensures Split(a + [sep] + b, sep) == Split(a, sep) + Split(b, sep)
    decreases |a|
  {
    hide Split, Grown;
    if a == "" {
      SplitSep(b, sep);
      assert a + [sep] + b == [sep] + b;
    } else {
      var c, rest := a[0], a[1..];
      assert a == [c] + rest;
      assert a + [sep] + b == [c] + (rest + [sep] + b);
      SplitAround(rest, b, sep);
      SplitUnfold(c, rest, sep);
      SplitUnfold(c, rest + [sep] + b, sep);
      GrownAppend(c, Split(rest, sep), Split(b, sep), sep);
    }
  }

  lemma {:induction false} SplitAtom(a: string, sep: char)
    requires sep !in a
    ensures Split(a, sep) == [a]
  {
    if a == "" {
    } else {
      SplitAtom(a[1..], sep);
      assert a == [a[0]] + a[1..];
    }
  }

  lemma {:induction false} SplitJoin(parts: seq<string>, sep: char)
    requires parts != [] && forall i | 0 <= i < |parts| :: sep !in parts[i]
    ensures Split(Join(parts, sep), sep) == parts
  {
    SplitAtom(parts[0], sep);
    if |parts| <= 1 {
    } else {
      SplitJoin(parts[1..], sep);
      SplitAround(parts[0], Join(parts[1..], sep), sep);
    }
  }

  // ---------------------------------------------------------------------
  // path.Clean, as the usual stack of segments
  // ---------------------------------------------------------------------

  predicate IsAbs(p: string) {
    p != "" && p[0] == '/'
  }

  // A plain segment: what a directory entry is called.
  predicate Plain(seg: string) {
    seg != "" && seg != "." && seg != ".." && '/' !in seg
  }

  predicate AllPlain(segs: seq<string>) {
    forall i | 0 <= i < |segs| :: Plain(segs[i])
  }

  function Push(rooted: bool, stack: seq<string>, seg: string): seq<string> {
    if seg == "" || seg == "." then stack
    else if seg == ".." then
      if stack != [] && stack[|stack| - 1] != ".." then stack[..|stack| - 1]
      else if rooted then stack
      else stack + [".."]
    else stack + [seg]
  }

  function PushAll(rooted: bool, stack: seq<string>, segs: seq<string>): seq<string>
    decreases |segs|
  {
    if segs == [] then stack else PushAll(rooted, Push(rooted, stack, segs[0]), segs[1..])
  }

  function CleanSegs(p: string): seq<string> {
    PushAll(IsAbs(p), [], Split(p, '/'))
  }

  function AbsPath(segs: seq<string>): string {
    "/" + Join(segs, '/')
  }

  lemma RootPath()
    ensures AbsPath([]) == "/"
  {
  }

  lemma AbsPathNotEmpty(segs: seq<string>)
    ensures AbsPath(segs) != ""
  {
  }

  function Clean(p: string): string {
    var segs := CleanSegs(p);
    if IsAbs(p) then AbsPath(segs)
    else if segs == [] then "."
    else Join(segs, '/')
  }

  // path.Join of two elements: empty elements are dropped, the rest is
  // joined with '/' and cleaned.
  function PathJoin(a: string, b: string): string {
    if a == "" && b == "" then ""
    else if a == "" then Clean(b)
    else if b == "" then Clean(a)
    else Clean(a + "/" + b)
  }

  function LastIndex(s: string, c: char): (i: int)
    ensures -1 <= i < |s|
    ensures i >= 0 ==> s[i] == c
  {
    if s == "" then -1
    else if s[|s| - 1] == c then |s| - 1
    else LastIndex(s[..|s| - 1], c)
  }

  function TrimRight(s: string, c: char): (r: string)
    ensures |r| <= |s| && r == s[..|r|]
    ensures r != "" ==> r[|r| - 1] != c
    ensures forall i | |r| <= i < |s| :: s[i] == c
  {
    if s != "" && s[|s| - 1] == c then TrimRight(s[..|s| - 1], c) else s
  }

  function Dir(p: string): string {
    Clean(p[..LastIndex(p, '/') + 1])
  }

  function Base(p: string): string {
    if p == "" then "."
    else
      var t := TrimRight(p, '/');
      var b := t[LastIndex(t, '/') + 1..];
      if b == "" then "/" else b
  }

  // ---------------------------------------------------------------------
  // Laws of Clean
  // ---------------------------------------------------------------------

  lemma {:induction false} PushAllAppend(rooted: bool, stack: seq<string>, a: seq<string>, b: seq<string>)
    ensures PushAll(rooted, stack, a + b) == PushAll(rooted, PushAll(rooted, stack, a), b)
    decreases |a|
  {
    if a == [] {
      assert a + b == b;
    } else {
      assert (a + b)[1..] == a[1..] + b;
      PushAllAppend(rooted, Push(rooted, stack, a[0]), a[1..], b);
    }
  }

  // Below the root no ".." ever survives.
  lemma {:induction false} PushAllPlain(stack: seq<string>, segs: seq<string>)
    requires AllPlain(stack) && forall i | 0 <= i < |segs| :: '/' !in segs[i]
    ensures AllPlain(PushAll(true, stack, segs))
    decreases |segs|
  {
    if segs == [] {
    } else {
      PushAllPlain(Push(true, stack, segs[0]), segs[1..]);
    }
  }

  lemma {:induction false} PushPlainSegs(rooted: bool, stack: seq<string>, segs: seq<string>)
    requires AllPlain(segs)
    ensures PushAll(rooted, stack, segs) == stack + segs
    decreases |segs|
  {
    if segs == [] {
    } else {
      PushPlainSegs(rooted, stack + [segs[0]], segs[1..]);
    }
  }

  // A cleaned absolute path consists of plain segments only.
  lemma CleanSegsPlain(p: string)
    requires IsAbs(p)
    ensures AllPlain(CleanSegs(p))
  {
    SplitPieces(p, '/');
    PushAllPlain([], Split(p, '/'));
  }

  lemma SplitAbsPath(segs: seq<string>)
    requires AllPlain(segs)
    ensures Split(AbsPath(segs), '/') == [""] + (if segs == [] then [""] else segs)
  {
    var rest := Join(segs, '/');
    assert AbsPath(segs) == "" + ['/'] + rest;
    SplitAround("", rest, '/');
    if segs != [] {
      SplitJoin(segs, '/');
    }
  }

  // Segments survive being printed as an absolute path and cleaned.
  lemma CleanSegsOfAbsPath(segs: seq<string>)
    requires AllPlain(segs)
    ensures CleanSegs(AbsPath(segs)) == segs && Clean(AbsPath(segs)) == AbsPath(segs)
  {
    SplitAbsPath(segs);
    var tail := if segs == [] then [""] else segs;
    assert Split(AbsPath(segs), '/')[1..] == tail;
    assert CleanSegs(AbsPath(segs)) == PushAll(true, [], tail);
    if segs == [] {
      assert tail[1..] == [];
    } else {
      PushPlainSegs(true, [], segs);
    }
  }

  lemma AbsPathInjective(a: seq<string>, b: seq<string>)
    requires AllPlain(a) && AllPlain(b)
    ensures AbsPath(a) == AbsPath(b) ==> a == b
  {
    CleanSegsOfAbsPath(a);
    CleanSegsOfAbsPath(b);
  }

  lemma CleanIdempotent(p: string)
    requires IsAbs(p)
    ensures IsAbs(Clean(p)) && CleanSegs(Clean(p)) == CleanSegs(p) && Clean(Clean(p)) == Clean(p)
  {
    CleanSegsPlain(p);
    CleanSegsOfAbsPath(CleanSegs(p));
  }

  // Appending one plain name to any absolute path.
  lemma CleanSegsJoin(p: string, name: string)
    requires IsAbs(p) && Plain(name)
    ensures CleanSegs(p + "/" + name) == CleanSegs(p) + [name]
    ensures PathJoin(p, name) == AbsPath(CleanSegs(p) + [name])
  {
    assert p + "/" + name == p + ['/'] + name;
    SplitAround(p, name, '/');
    SplitAtom(name, '/');
    PushAllAppend(true, [], Split(p, '/'), [name]);
    PushPlainSegs(true, CleanSegs(p), [name]);
  }

  // ---------------------------------------------------------------------
  // The last segment of an absolute path
  // ---------------------------------------------------------------------

  lemma {:induction false} LastIndexAround(a: string, b: string, c: char)
    requires c !in b
    ensures LastIndex(a + [c] + b, c) == |a|
  {
    var s := a + [c] + b;
    if b == "" {
    } else {
      var n := |b| - 1;
      assert s[|s| - 1] == b[n];
      assert s[..|s| - 1] == a + [c] + b[..n];
      LastIndexAround(a, b[..n], c);
    }
  }

  lemma {:induction false} JoinLast(segs: seq<string>, sep: char)
    requires |segs| > 1
    ensures Join(segs, sep) == Join(segs[..|segs| - 1], sep) + [sep] + segs[|segs| - 1]
  {
    if |segs| <= 2 {
    } else {
      JoinLast(segs[1..], sep);
      assert segs[1..][..|segs| - 2] == segs[..|segs| - 1][1..];
    }
  }

  // "/a/b/c" is "/a/b", a slash and "c"; "/c" is a slash and "c".
  lemma AbsPathLast(segs: seq<string>)
    requires segs != []
    ensures var init := segs[..|segs| - 1];
            AbsPath(segs) == (if init == [] then "" else AbsPath(init)) + "/" + segs[|segs| - 1]
  {
    if |segs| > 1 {
      JoinLast(segs, '/');
    }
  }

  lemma DirOfAbsPath(segs: seq<string>)
    requires AllPlain(segs)
    ensures Dir(AbsPath(segs)) == AbsPath(if segs == [] then [] else segs[..|segs| - 1])
  {
    if segs == [] {
      assert AbsPath(segs) == "/";
      CleanSegsOfAbsPath([]);
    } else {
      var init := segs[..|segs| - 1];
      var last := segs[|segs| - 1];
      var front := if init == [] then "" else AbsPath(init);
      AbsPathLast(segs);
      LastIndexAround(front, last, '/');
      var dir := AbsPath(segs)[..|front| + 1];
      assert dir == front + "/";
      if init == [] {
        assert dir == "/" == AbsPath([]);
      } else {
        CleanTrailingSlash(front);
      }
      CleanSegsOfAbsPath(init);
    }
  }

  // One trailing slash does not change the cleaned path.
  lemma CleanTrailingSlash(p: string)
    requires IsAbs(p)
    ensures CleanSegs(p + "/") == CleanSegs(p) && Clean(p + "/") == Clean(p)
  {
    assert p + "/" == p + ['/'] + "";
    SplitAround(p, "", '/');
    PushAllAppend(true, [], Split(p, '/'), [""]);
    assert PushAll(true, CleanSegs(p), [""]) == CleanSegs(p);
  }

  lemma {:induction false} LastIndexIsLast(s: string, c: char)
    ensures forall j | LastIndex(s, c) < j < |s| :: s[j] != c
  {
    if s == "" || s[|s| - 1] == c {
    } else {
      LastIndexIsLast(s[..|s| - 1], c);
    }
  }

  lemma TailHasNone(s: string, c: char)
    ensures c !in s[LastIndex(s, c) + 1..]
  {
    hide LastIndex;
    LastIndexIsLast(s, c);
  }

  // Base of anything has no slash in it unless it is "/" itself.
  lemma BaseNoSlash(p: string)
    ensures Base(p) == "/" || (Base(p) != "" && '/' !in Base(p))
  {
    hide LastIndex, TrimRight;
    TailHasNone(TrimRight(p, '/'), '/');
  }

  // ---------------------------------------------------------------------
  // Any path, clean or not, absolute or not
  // ---------------------------------------------------------------------

  // Some ".." segments, then plain ones.
  predicate NormalForm(segs: seq<string>) {
    segs == [] || (segs[0] == ".." && NormalForm(segs[1..])) || AllPlain(segs)
  }

  lemma {:induction false} NormalSnoc(segs: seq<string>, seg: string)
    requires NormalForm(segs)
    ensures Plain(seg) ==> NormalForm(segs + [seg])
    ensures segs == [] || segs[|segs| - 1] == ".." ==> NormalForm(segs + [".."])
    ensures segs != [] ==> NormalForm(segs[..|segs| - 1])
    ensures segs == [] || Plain(segs[|segs| - 1]) || segs[|segs| - 1] == ".."
    decreases |segs|
  {
    if AllPlain(segs) {
      assert segs == [] ==> (segs + [".."])[1..] == [];
    } else {
      hide Plain;
      var rest := segs[1..];
      NormalSnoc(rest, seg);
      assert (segs + [seg])[1..] == rest + [seg] && (segs + [".."])[1..] == rest + [".."];
      if |segs| > 1 {
        assert segs[..|segs| - 1][1..] == rest[..|rest| - 1];
      }
    }
  }

  // Cleaning a relative path leaves it in normal form.
  lemma {:induction false} PushAllNormal(stack: seq<string>, segs: seq<string>)
    requires NormalForm(stack) && forall i | 0 <= i < |segs| :: '/' !in segs[i]
    ensures NormalForm(PushAll(false, stack, segs))
    decreases |segs|
  {
    if segs == [] {
    } else {
      PushNormal(stack, segs[0]);
      hide Push, NormalForm;
      PushAllNormal(Push(false, stack, segs[0]), segs[1..]);
    }
  }

  lemma PushNormal(stack: seq<string>, seg: string)
    requires NormalForm(stack) && '/' !in seg
    ensures NormalForm(Push(false, stack, seg))
  {
    hide NormalForm;
    NormalSnoc(stack, seg);
  }

  lemma PushSame(base: seq<string>, stack: seq<string>, seg: string)
    requires NormalForm(stack)
    ensures PushAll(true, base, Push(false, stack, seg)) == Push(true, PushAll(true, base, stack), seg)
  {
    NormalSnoc(stack, seg);
    hide NormalForm;
    if seg == "" || seg == "." {
    } else if seg == ".." && stack != [] && stack[|stack| - 1] != ".." {
      var init, last := stack[..|stack| - 1], stack[|stack| - 1];
      assert stack == init + [last];
      PushAllAppend(true, base, init, [last]);
      PushOne(true, PushAll(true, base, init), last);
    } else {
      PushAllAppend(true, base, stack, [seg]);
      PushOne(true, PushAll(true, base, stack), seg);
    }
  }

  lemma PushOne(rooted: bool, stack: seq<string>, seg: string)
    ensures PushAll(rooted, stack, [seg]) == Push(rooted, stack, seg)
  {
    assert [seg][1..] == [];
  }

  // Seen from any directory, a cleaned path means what it meant before.
  lemma {:induction false} PushAllSame(base: seq<string>, stack: seq<string>, segs: seq<string>)
    requires NormalForm(stack) && forall i | 0 <= i < |segs| :: '/' !in segs[i]
    ensures PushAll(true, base, PushAll(false, stack, segs)) == PushAll(true, PushAll(true, base, stack), segs)
    decreases |segs|
  {
    if segs == [] {
    } else {
      PushSame(base, stack, segs[0]);
      PushNormal(stack, segs[0]);
      hide Push, NormalForm;
      PushAllSame(base, Push(false, stack, segs[0]), segs[1..]);
    }
  }

  lemma {:induction false} NormalStays(stack: seq<string>, segs: seq<string>)
    requires NormalForm(stack + segs)
    ensures PushAll(false, stack, segs) == stack + segs
    decreases |segs|
  {
    if segs == [] {
      assert stack + segs == stack;
    } else {
      assert stack + segs == (stack + [segs[0]]) + segs[1..];
      NormalStep(stack, segs);
      hide Push, NormalForm;
      NormalStays(stack + [segs[0]], segs[1..]);
    }
  }

  lemma {:induction false} NormalStep(stack: seq<string>, segs: seq<string>)
    requires segs != [] && NormalForm(stack + segs)
    ensures Push(false, stack, segs[0]) == stack + [segs[0]]
    decreases |stack|
  {
    var all := stack + segs;
    if stack == [] {
      assert all == segs;
    } else if AllPlain(all) {
      assert Plain(all[|stack|]) && Plain(all[|stack| - 1]);
    } else {
      assert all[1..] == stack[1..] + segs && all[0] == stack[0];
      NormalStep(stack[1..], segs);
      assert |stack| == 1 ==> stack[0] == "..";
      assert |stack| > 1 ==> stack[1..][|stack[1..]| - 1] == stack[|stack| - 1];
      assert |stack| > 1 ==> (Push(false, stack[1..], segs[0]) == stack[1..] + [segs[0]]);
    }
  }

  // path.Clean on any path: a cleaned relative path is "." or its segments in
  // normal form, it means the same from every directory, and cleaning again
  // changes nothing.
  lemma CleanRelative(p: string, base: seq<string>)
    requires !IsAbs(p)
    ensures NormalForm(CleanSegs(p))
    ensures Split(Clean(p), '/') == if CleanSegs(p) == [] then ["."] else CleanSegs(p)
    ensures PushAll(true, base, Split(p, '/')) == PushAll(true, base, CleanSegs(p))
    ensures !IsAbs(Clean(p)) && CleanSegs(Clean(p)) == CleanSegs(p)
  {
    var segs := CleanSegs(p);
    SplitPieces(p, '/');
    PushAllNormal([], Split(p, '/'));
    PushAllSame(base, [], Split(p, '/'));
    RelativeText(segs);
    assert [] + segs == segs;
    NormalStays([], segs);
    if segs == [] {
      SplitAtom(".", '/');
      PushOne(false, [], ".");
    }
  }

  // Segments in normal form, printed, are not taken for an absolute path and
  // split into themselves.
  lemma RelativeText(segs: seq<string>)
    requires NormalForm(segs)
    ensures segs != [] ==> !IsAbs(Join(segs, '/')) && Split(Join(segs, '/'), '/') == segs
  {
    NormalPieces(segs);
    if segs != [] {
      SplitJoin(segs, '/');
    }
  }

  lemma {:induction false} NormalPieces(segs: seq<string>)
    requires NormalForm(segs)
    ensures forall i | 0 <= i < |segs| :: segs[i] != "" && '/' !in segs[i]
    decreases |segs|
  {
    if segs == [] || AllPlain(segs) {
    } else {
      NormalPieces(segs[1..]);
    }
  }

  // path.Join of any two elements: an empty one is dropped; otherwise the
  // second is walked from where the first leads.
  lemma PathJoinMeans(a: string, b: string)
    ensures a == "" && b == "" ==> PathJoin(a, b) == ""
    ensures a == "" && b != "" ==> PathJoin(a, b) == Clean(b)
    ensures a != "" ==>
              && (IsAbs(PathJoin(a, b)) <==> IsAbs(a))
              && CleanSegs(PathJoin(a, b)) == PushAll(IsAbs(a), CleanSegs(a), Split(b, '/'))
              && PathJoin(a, b) == Clean(PathJoin(a, b))
  {
    if a != "" {
      var p := if b == "" then a else a + "/" + b;
      if b == "" {
        PushOne(IsAbs(a), CleanSegs(a), "");
      } else {
        assert a + "/" + b == a + ['/'] + b;
        SplitAround(a, b, '/');
        PushAllAppend(IsAbs(a), [], Split(a, '/'), Split(b, '/'));
      }
      assert IsAbs(p) <==> IsAbs(a);
      hide Split, Join, PushAll;
      CleanStays(p);
    }
  }

  lemma CleanStays(p: string)
    ensures IsAbs(Clean(p)) <==> IsAbs(p)
    ensures CleanSegs(Clean(p)) == CleanSegs(p) && Clean(Clean(p)) == Clean(p)
  {
    if IsAbs(p) {
      CleanIdempotent(p);
    } else {
      CleanRelative(p, []);
    }
  }

  function Slashes(n: nat): (s: string)
    ensures |s| == n && forall i | 0 <= i < n :: s[i] == '/'
  {
    if n == 0 then "" else "/" + Slashes(n - 1)
  }

  // There is one place after which all is c, and before which something else.
  lemma OneEnd(s: string, a: nat, b: nat, c: char)
    requires a <= |s| && b <= |s|
    requires (a == 0 || s[a - 1] != c) && (b == 0 || s[b - 1] != c)
    requires forall i | a <= i < |s| :: s[i] == c
    requires forall i | b <= i < |s| :: s[i] == c
    ensures a == b
  {
  }

  lemma TrimSlashes(p: string, n: nat)
    requires p == "" || p[|p| - 1] != '/'
    ensures TrimRight(p + Slashes(n), '/') == p
  {
    hide TrimRight, Slashes;
    var s := p + Slashes(n);
    var r := TrimRight(s, '/');
    assert forall i | |p| <= i < |s| :: s[i] == '/';
    assert p == "" || s[|p| - 1] == p[|p| - 1];
    OneEnd(s, |r|, |p|, '/');
    assert s[..|p|] == p;
  }

  // path.Base of any string: the last name, however many slashes follow it;
  // "/" if there are only slashes, and "." if there is nothing.
  lemma BaseOfAny(front: string, name: string, n: nat)
    requires '/' !in name && (front == "" || front[|front| - 1] == '/')
    requires name == "" ==> front == ""
    ensures Base(front + name + Slashes(n)) == if name != "" then name else if n == 0 then "." else "/"
  {
    hide TrimRight, LastIndex, Slashes;
    var p := front + name;
    assert name != "" ==> p[|p| - 1] == name[|name| - 1];
    TrimSlashes(p, n);
    if name == "" {
      assert LastIndex("", '/') == -1;
    } else if front == "" {
      assert p == name;
      NoIndex(name);
    } else {
      var init := front[..|front| - 1];
      assert p == init + ['/'] + name;
      LastIndexAround(init, name, '/');
      assert p[|init| + 1..] == name;
    }
  }

  lemma NoIndex(s: string)
    requires '/' !in s
    ensures LastIndex(s, '/') == -1 && s[0..] == s
  {
    hide LastIndex;
    LastIndexIsLast(s, '/');
  }

  // path.Dir of any absolute path: what all but its last part clean to.
  lemma DirOfAny(front: string, last: string)
    requires '/' !in last && (front == "" || IsAbs(front))
    ensures Dir(front + "/" + last) == AbsPath(PushAll(true, [], Split(front, '/')))
  {
    var p := front + "/" + last;
    assert p == front + ['/'] + last;
    LastIndexAround(front, last, '/');
    assert p[..|front| + 1] == front + ['/'] + "";
    SplitAround(front, "", '/');
    PushAllAppend(true, [], Split(front, '/'), [""]);
    PushOne(true, PushAll(true, [], Split(front, '/')), "");
    assert Split("", '/') == [""];
    assert IsAbs(front + ['/'] + "");
    hide LastIndex, Split;
  }
}
