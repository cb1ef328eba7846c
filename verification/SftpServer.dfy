// What the SFTP client can see of the file server: which ReadDir, ReadLink,
// Stat and Open calls succeed, and with what. The server compares path
// strings literally and does not change while a session is in use.
module SftpServer {
  import opened Basics

  // The two mode bits of os.FileMode that matter here.
  const MODE_DIR: bv32 := 0x8000_0000
  const MODE_SYMLINK: bv32 := 0x0800_0000

  datatype Info = Info(name: string, mode: bv32, size: int, modTime: int) {
    predicate IsSymlink() {
      mode & MODE_SYMLINK != 0
    }

    predicate IsDir() {
      mode & MODE_DIR != 0
    }
  }

  datatype Server = Server(
    dirs: map<string, seq<Info>>,
    links: map<string, string>,
    stats: map<string, Info>,
    files: set<string>)
  {
    function ReadDir(p: string): Option<seq<Info>> {
      if p in dirs then Some(dirs[p]) else None
    }

    function ReadLink(p: string): Option<string> {
      if p in links then Some(links[p]) else None
    }

    predicate Listable(p: string) {
      p in dirs
    }
  }
}
