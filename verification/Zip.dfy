// handleDownloadZip: the walker closures over one SFTP session, writing tar
// headers as they go.
module Zip {
  import opened Basics
  import opened Resolver
  import opened Listing
  import opened Archive
  import opened Cycles
  import opened Sftp

  class Archiver {
    const sess: Session
    var headers: seq<string>  // tar header names written so far

    constructor (sess: Session)
      ensures this.sess == sess && headers == []
    {
      this.sess := sess;
      headers := [];
    }

    // walk: one header, and the contents of a file.
    method WriteEntry(node: Node) returns (ok: bool)
      modifies this`headers
      ensures ok <==>
              ValidatePath(node.abs) == None && node.abs in sess.server.stats
              && (node.isDir || node.abs in sess.server.files)
      ensures headers == old(headers) + if ValidatePath(node.abs) == None && node.abs in sess.server.stats
                                        then [HeaderName(node)] else []
    {
      NeverEscapes(node.rel);
      hide ValidatePath, HeaderName, Escapes;
      var escapes := Escapes(node.rel);
      if escapes {
        return false;
      }
      var stat := StatOk(sess.server, node.abs);
      if !stat {
        return false;
      }
      headers := headers + [HeaderName(node)];
      if !node.isDir {
        var opens := OpenOk(sess.server, node.abs);
        return opens;
      }
      ok := true;
    }

    // rec: the entry itself, then every row of its listing. It is called
    // where the recursion ends; the number of nested calls is the witness.
    method Rec(node: Node, ghost budget: nat) returns (ok: bool)
      requires sess.chrootDepth <= MAX_CHROOT_DEPTH
      requires Walk(sess.server, budget, sess.chrootDepth, node).status != TooDeep
      modifies this`headers, sess`chrootDepth, sess`log
      ensures var w := Walk(sess.server, budget, old(sess.chrootDepth), node);
              && headers == old(headers) + w.names && sess.chrootDepth == w.depth <= MAX_CHROOT_DEPTH
              && w.status == if ok then Done else Failed
      decreases budget, 0
    {
      hide HeaderName, Listing.ListDir, Walk, WalkRows, ValidatePath;
      ghost var depth0 := sess.chrootDepth;
      ghost var goal := Walk(sess.server, budget, depth0, node);
      ghost var end := headers + goal.names;
      WalkUnfold(sess.server, budget, depth0, node);
      DepthStaysSmall(sess.server, budget, depth0, node);
      ListDirOk(sess.server, depth0, node.abs);
      ok := WriteEntry(node);
      if !ok || !node.isDir {
        return;
      }
      var entries := sess.ListDir(node.abs);
      if entries.Err? {
        return false;
      }
      ghost var below := WalkRows(sess.server, budget - 1, sess.chrootDepth, node, entries.value).names;
      assert headers + below == end;
      ok := RecRows(node, entries.value, budget - 1);
      assert headers == end;
    }

    // The loop of rec over the rows of one directory.
    method RecRows(node: Node, rows: seq<FileInfo>, ghost budget: nat) returns (ok: bool)
      requires sess.chrootDepth <= MAX_CHROOT_DEPTH
      requires WalkRows(sess.server, budget, sess.chrootDepth, node, rows).status != TooDeep
      modifies this`headers, sess`chrootDepth, sess`log
      ensures var w := WalkRows(sess.server, budget, old(sess.chrootDepth), node, rows);
              && headers == old(headers) + w.names && sess.chrootDepth == w.depth <= MAX_CHROOT_DEPTH
              && w.status == if ok then Done else Failed
      decreases budget, 1
    {
      hide Walk, ChildAbs, WalkRows;
      ghost var goal := WalkRows(sess.server, budget, sess.chrootDepth, node, rows);
      ghost var end := headers + goal.names;
      assert rows[0..] == rows;
      for i := 0 to |rows|
        invariant sess.chrootDepth <= MAX_CHROOT_DEPTH
        invariant var rest := WalkRows(sess.server, budget, sess.chrootDepth, node, rows[i..]);
                  && headers + rest.names == end && rest.depth == goal.depth && rest.status == goal.status
      {
        ghost var depth0, before := sess.chrootDepth, headers;
        var child := ChildOf(node, rows[i]);
        RowsUnfold(sess.server, budget, depth0, node, rows[i..]);
        ghost var first := Walk(sess.server, budget, depth0, child);
        assert rows[i..][1..] == rows[i + 1..];
        var done := Rec(child, budget);
        if !done {
          return false;
        }
        ghost var rest := WalkRows(sess.server, budget, sess.chrootDepth, node, rows[i + 1..]);
        assert before + (first.names + rest.names) == headers + rest.names;
      }
      assert rows[|rows|..] == [];
      RowsUnfold(sess.server, budget, sess.chrootDepth, node, rows[|rows|..]);
      ok := true;
    }

    // handleDownloadZip once the session is at hand: an empty path means the
    // root, and an unreadable one is a 404 with no archive at all.
    method Download(root: string) returns (found: bool, complete: bool)
      requires sess.chrootDepth <= MAX_CHROOT_DEPTH
      requires var p := if root == "" then "/" else root;
               StatOk(sess.server, p) ==>
                 !Reenters(sess.server, sess.chrootDepth, Node(p, p, sess.server.stats[p].IsDir()))
      modifies this`headers, sess`chrootDepth, sess`log
      ensures var p := if root == "" then "/" else root;
              && (found <==> ValidatePath(p) == None && p in sess.server.stats)
              && if !found then headers == old(headers) && !complete
                 else
                   var node := Node(p, p, sess.server.stats[p].mode & 0x8000_0000 != 0);
                   var w := Walk(sess.server, Enough(sess.server), old(sess.chrootDepth), node);
                   headers == old(headers) + w.names && w.status == if complete then Done else Failed
    {
      var p := if root == "" then "/" else root;
      found := StatOk(sess.server, p);
      complete := false;
      if found {
        var isDir := sess.server.stats[p].IsDir();
        hide StatOk, Walk, Reenters, Enough;
        EndsIffNotReentered(sess.server, sess.chrootDepth, Node(p, p, isDir));
        complete := Rec(Node(p, p, isDir), Enough(sess.server));
      }
    }
  }
}
