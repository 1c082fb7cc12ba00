/** The per-principal Unix socket path, `<tmpDir>/.ssh_socks/<principal>.sock`
    (cmd/server/system/server.go, line 71). The same formula is written out in
    both clients of the socket, so every process derives the same path for the
    same principal. The principal is interpolated as it is: no sanitisation. */
module Sockets {
  import opened Wrappers

  /** The directory under the temporary root that holds the sockets. */
  const SocksDir: string := "/.ssh_socks/"

  const SockSuffix: string := ".sock"

  /** The socket path of `principal` under the temporary root `tmpDir`. */
  function SocketPath(tmpDir: string, principal: string): (path: string)
    ensures |path| == |tmpDir| + |SocksDir| + |principal| + |SockSuffix|
    ensures path[..|tmpDir| + |SocksDir|] == tmpDir + SocksDir
    ensures path[|path| - |SockSuffix|..] == SockSuffix
    ensures path[|tmpDir| + |SocksDir| .. |path| - |SockSuffix|] == principal
  {
    tmpDir + SocksDir + principal + SockSuffix
  }

  /** Recovers the principal from a path under `tmpDir`, if the path has the
      shape SocketPath gives. */
  function PrincipalOf(tmpDir: string, path: string): (r: Option<string>)
    ensures r.Some? ==> |r.value| == |path| - |tmpDir| - |SocksDir| - |SockSuffix|
  {
    var head := tmpDir + SocksDir;
    if |path| >= |head| + |SockSuffix|
       && path[..|head|] == head
       && path[|path| - |SockSuffix|..] == SockSuffix
    then Some(path[|head|..|path| - |SockSuffix|])
    else None
  }

  /** Every socket path names its principal back. */
  lemma PrincipalOfSocketPath(tmpDir: string, principal: string)
    ensures PrincipalOf(tmpDir, SocketPath(tmpDir, principal)) == Some(principal)
  {
  }

  /** Every path that names a principal is that principal's socket path. */
  lemma SocketPathOfPrincipal(tmpDir: string, path: string)
    requires PrincipalOf(tmpDir, path).Some?
    ensures SocketPath(tmpDir, PrincipalOf(tmpDir, path).value) == path
  {
  }

  /** Under one temporary root, distinct principal strings give distinct path
      strings. (Two distinct strings can still name the same file once the
      filesystem resolves `.`, `..` or `/` inside a principal.) */
  lemma SocketPathInjective(tmpDir: string, p1: string, p2: string)
    requires p1 != p2
    ensures SocketPath(tmpDir, p1) != SocketPath(tmpDir, p2)
  {
  }
}
