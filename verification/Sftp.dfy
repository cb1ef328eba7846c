// The SFTP session object. Its methods issue ReadDir calls one by one and
// update the cached chroot depth; each is proved to do what the functions of
// Resolver and Listing say, call for call.
module Sftp {
  import opened Basics
  import opened GoPath
  import opened SftpServer
  import opened Resolver
  import opened Listing

  class Session {
    const server: Server
    var chrootDepth: nat
    ghost var log: seq<string>  // every ReadDir so far

    constructor (server: Server)
      ensures this.server == server && chrootDepth == 0 && log == []
    {
      this.server := server;
      chrootDepth := 0;
      log := [];
    }

    method ReadDir(p: string) returns (entries: Option<seq<Info>>)
      modifies this`log
      ensures entries == server.ReadDir(p) && log == old(log) + [p]
    {
      entries := server.ReadDir(p);
      log := log + [p];
    }

    method ResolveAbsoluteTarget(target: string) returns (answer: string)
      modifies this`chrootDepth, this`log
      ensures var r := Resolve(server, old(chrootDepth), target);
              answer == r.answer && chrootDepth == r.depth && log == old(log) + r.probes
    {
      hide Clean, Split, Join, Discover;
      var parts := Split(Clean(target), '/');
      ghost var goal := Resolve(server, chrootDepth, target);
      ghost var end := log + goal.probes;
      if chrootDepth > 0 {
        if chrootDepth + 1 < |parts| {
          var suffix := Join(parts[chrootDepth + 1..], '/');
          if suffix != "" {
            var sftpPath := "/" + suffix;
            assert Candidate(target, chrootDepth) == Some(sftpPath);
            ghost var before := log;
            var entries := ReadDir(sftpPath);
            if entries.Some? {
              return sftpPath;
            }
            assert before + ([sftpPath] + Discover(server, target, 1).probes)
                   == log + Discover(server, target, 1).probes;
          }
        }
        chrootDepth := 0;
      }
      var depth := 1;
      while depth <= MAX_CHROOT_DEPTH
        invariant 1 <= depth <= MAX_CHROOT_DEPTH + 1 && chrootDepth == 0
        invariant var rest := Discover(server, target, depth);
                  rest.answer == goal.answer && rest.depth == goal.depth && log + rest.probes == end
      {
        DiscoverUnfold(server, target, depth);
        if depth + 1 >= |parts| {
          DiscoverNothing(server, target, depth);
          return "";
        }
        var suffix := Join(parts[depth + 1..], '/');
        if suffix != "" {
          var sftpPath := "/" + suffix;
          assert Candidate(target, depth) == Some(sftpPath);
          ghost var before := log;
          var entries := ReadDir(sftpPath);
          if entries.Some? {
            chrootDepth := depth;
            return sftpPath;
          }
          ghost var rest := Discover(server, target, depth + 1).probes;
          assert before + ([sftpPath] + rest) == log + rest;
        }
        depth := depth + 1;
      }
      DiscoverUnfold(server, target, depth);
      answer := "";
    }

    method AncestorWalkResolve(parent: string, base: string) returns (resolved: string, depth: nat)
      modifies this`log
      ensures var w := AncestorWalk(server, parent, base);
              resolved == w.resolved && depth == w.depth && log == old(log) + w.probes
    {
      hide PathJoin, Dir, AncestorPaths, FirstListable;
      ghost var goal := AncestorWalk(server, parent, base);
      ghost var end := log + goal.probes;
      var candidate := parent;
      depth := 0;
      while depth <= MAX_JUNCTION_DEPTH
        invariant 0 <= depth <= MAX_JUNCTION_DEPTH + 1
        invariant var rest := FirstListable(server, AncestorPaths(candidate, base, depth), depth);
                  rest.resolved == goal.resolved && rest.depth == goal.depth && log + rest.probes == end
      {
        AncestorUnfold(server, candidate, base, depth);
        ghost var before := log;
        resolved := PathJoin(candidate, base);
        var entries := ReadDir(resolved);
        if entries.Some? {
          return;
        }
        if candidate == "/" || candidate == "." {
          return "", 0;
        }
        var next := Dir(candidate);
        if next == candidate {
          return "", 0;
        }
        ghost var rest := FirstListable(server, AncestorPaths(next, base, depth + 1), depth + 1).probes;
        assert before + ([resolved] + rest) == log + rest;
        candidate := next;
        depth := depth + 1;
      }
      AncestorEnd(server, candidate, base);
      return "", 0;
    }

    method ListDir(path: string) returns (answer: Result<seq<FileInfo>, ListError>)
      modifies this`chrootDepth, this`log
      ensures var l := Listing.ListDir(server, old(chrootDepth), path);
              answer == l.answer && chrootDepth == l.depth && log == old(log) + l.probes
    {
      hide ValidatePath, ListEntries, ListEntry, Listing.ListDir;
      ListDirUnfold(server, chrootDepth, path);
      var invalid := ValidatePath(path);
      if invalid.Some? {
        return Err(Invalid(invalid.value));
      }
      var read := ReadDir(path);
      if read.None? {
        return Err(NotListable);
      }
      var out := ListRows(path, read.value);
      answer := Ok(out);
    }

    // The loop of ListDir.
    method ListRows(path: string, infos: seq<Info>) returns (out: seq<FileInfo>)
      modifies this`chrootDepth, this`log
      ensures var rows := ListEntries(server, old(chrootDepth), path, infos);
              out == rows.out && chrootDepth == rows.depth && log == old(log) + rows.probes
    {
      ghost var start, depth0 := log, chrootDepth;
      ghost var done: seq<Info>, rows := [], ListEntries(server, depth0, path, []);
      hide ListEntry;
      assert rows == Rows([], depth0, []);
      assert log == start + [];
      hide ListEntries;
      out := [];
      for i := 0 to |infos|
        invariant done == infos[..i]
        invariant rows == ListEntries(server, depth0, path, done)
        invariant out == rows.out && chrootDepth == rows.depth && log == start + rows.probes
      {
        ghost var row := ListEntry(server, rows.depth, path, infos[i]);
        ListEntriesSnoc(server, depth0, path, done, infos[i]);
        var fi := ListOne(path, infos[i]);
        out := out + [fi];
        done := done + [infos[i]];
        assert start + rows.probes + row.probes == start + (rows.probes + row.probes);
        rows := Rows(rows.out + [row.fi], row.depth, rows.probes + row.probes);
      }
      assert done == infos;
    }

    // The loop body of ListDir: the row for one server entry.
    method ListOne(path: string, info: Info) returns (fi: FileInfo)
      modifies this`chrootDepth, this`log
      ensures var row := ListEntry(server, old(chrootDepth), path, info);
              fi == row.fi && chrootDepth == row.depth && log == old(log) + row.probes
    {
      hide PathJoin, Base, IsAbs, Resolve, AncestorWalk, ListEntry, FollowTarget;
      ListEntryUnfold(server, chrootDepth, path, info);
      if !info.IsSymlink() {
        return Raw(info);
      }
      var joined := PathJoin(path, info.name);
      var listed := ReadDir(joined);
      if listed.Some? {
        return WithDir(info, true, "");
      }
      var target := server.ReadLink(joined);
      if target.Some? && target.value != "" {
        if IsAbs(target.value) {
          var resolved := ResolveAbsoluteTarget(target.value);
          if resolved != "" {
            return WithDir(info, true, resolved);
          }
        }
        var base := Base(target.value);
        if base != "" && base != "." && base != "/" && base != ".." {
          var resolved, _ := AncestorWalkResolve(path, base);
          if resolved != "" {
            return WithDir(info, true, resolved);
          }
        }
      }
      fi := Raw(info);
    }
  }

  lemma {:induction false} DiscoverNothing(server: Server, target: string, depth: nat)
    requires depth + 1 >= |Split(Clean(target), '/')|
    ensures Discover(server, target, depth) == Resolution("", 0, [])
    decreases MAX_CHROOT_DEPTH + 1 - depth
  {
    if depth > MAX_CHROOT_DEPTH {
    } else {
      DiscoverNothing(server, target, depth + 1);
    }
  }

  lemma DiscoverUnfold(server: Server, target: string, depth: nat)
    ensures var r := Discover(server, target, depth);
            if depth > MAX_CHROOT_DEPTH then r == Resolution("", 0, [])
            else
              var rest := Discover(server, target, depth + 1);
              match Candidate(target, depth)
              case Some(p) => r == if server.Listable(p) then Resolution(p, depth, [p])
                                   else rest.(probes := [p] + rest.probes)
              case None => r == rest
  {
  }

  lemma AncestorUnfold(server: Server, candidate: string, base: string, depth: nat)
    requires depth <= MAX_JUNCTION_DEPTH
    ensures var w := FirstListable(server, AncestorPaths(candidate, base, depth), depth);
            var p := PathJoin(candidate, base);
            if server.Listable(p) then w == Ancestor(p, depth, [p])
            else if candidate == "/" || candidate == "." || Dir(candidate) == candidate then w == Ancestor("", 0, [p])
            else
              var rest := FirstListable(server, AncestorPaths(Dir(candidate), base, depth + 1), depth + 1);
              w == rest.(probes := [p] + rest.probes)
  {
    hide PathJoin, Dir;
    var tail := if candidate == "/" || candidate == "." || Dir(candidate) == candidate then []
                else AncestorPaths(Dir(candidate), base, depth + 1);
    assert AncestorPaths(candidate, base, depth)[1..] == tail;
    assert FirstListable(server, [], depth + 1) == Ancestor("", 0, []);
  }

  lemma ListEntriesSnoc(server: Server, depth: nat, path: string, infos: seq<Info>, info: Info)
    ensures var front := ListEntries(server, depth, path, infos);
            var row := ListEntry(server, front.depth, path, info);
            ListEntries(server, depth, path, infos + [info])
            == Rows(front.out + [row.fi], row.depth, front.probes + row.probes)
  {
    hide ListEntry;
    assert (infos + [info])[..|infos|] == infos;
  }

  lemma ListDirUnfold(server: Server, depth: nat, path: string)
    ensures var l := Listing.ListDir(server, depth, path);
            if ValidatePath(path).Some? then l == Listed(Err(Invalid(ValidatePath(path).value)), depth, [])
            else if path !in server.dirs then l == Listed(Err(NotListable), depth, [path])
            else
              var rows := ListEntries(server, depth, path, server.dirs[path]);
              l == Listed(Ok(rows.out), rows.depth, [path] + rows.probes)
  {
    hide ValidatePath, ListEntries;
  }

  lemma AncestorEnd(server: Server, candidate: string, base: string)
    ensures FirstListable(server, AncestorPaths(candidate, base, MAX_JUNCTION_DEPTH + 1), MAX_JUNCTION_DEPTH + 1)
            == Ancestor("", 0, [])
  {
  }

  lemma ListEntryUnfold(server: Server, depth: nat, path: string, info: Info)
    ensures var row := ListEntry(server, depth, path, info);
            var joined := PathJoin(path, info.name);
            if !info.IsSymlink() then row == Row(Raw(info), depth, [])
            else if server.Listable(joined) then row == Row(WithDir(info, true, ""), depth, [joined])
            else if joined !in server.links || server.links[joined] == "" then row == Row(Raw(info), depth, [joined])
            else
              var target := server.links[joined];
              var r := if IsAbs(target) then Resolve(server, depth, target) else Resolution("", depth, []);
              var w := AncestorWalk(server, path, Base(target));
              row.depth == r.depth &&
              if r.answer != "" then
                row.fi == WithDir(info, true, r.answer) && row.probes == [joined] + r.probes
              else if UsableBase(Base(target)) then
                && row.probes == [joined] + (r.probes + w.probes)
                && row.fi == if w.resolved != "" then WithDir(info, true, w.resolved) else Raw(info)
              else row.fi == Raw(info) && row.probes == [joined] + r.probes
  {
    hide PathJoin, Base, IsAbs, Resolve, AncestorWalk;
  }
}
