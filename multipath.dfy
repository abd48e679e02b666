/**
  The `multipath` search-path helper: six operations over an ordered list of
  candidate base directories `dirs` and a sequence of path fragments `frags`.

  The host's two primitives are parameters rather than I/O:
    - `pathJoin(base, frags)` stands for `os.path.join(base, *frags)`;
    - `pathExists(path)` stands for the filesystem existence probe, read
      against one snapshot of the filesystem that no call changes.
  Nothing about `pathJoin` is assumed except where a lemma asks for
  `BareBase(pathJoin)`: joining no fragments yields the base itself.
*/
module Multipath {
  import opened Wrappers
  import Sequences

  type Path = string

  /** The two failures of the strict operations: `ValueError` for an empty
      directory list, `FileNotFoundError` when no candidate exists. */
  datatype Error = InvalidArgument | NotFound

  /** `os.path.join(base, *frags)` */
  type PathJoin = (Path, seq<string>) -> Path

  /** The filesystem existence probe, as a total predicate on one snapshot
      of the filesystem. */
  type PathExists = Path -> bool

  /** Joining no fragments onto a base directory yields that directory. */
  ghost predicate BareBase(pathJoin: PathJoin) {
    forall base :: pathJoin(base, []) == base
  }

  /** No candidate directory has `frags` under it. */
  ghost predicate NoMatch(pathJoin: PathJoin, pathExists: PathExists, dirs: seq<Path>, frags: seq<string>) {
    forall i :: 0 <= i < |dirs| ==> !pathExists(pathJoin(dirs[i], frags))
  }

  /** `k` is the least index whose joined path exists. */
  ghost predicate IsFirstMatch(pathJoin: PathJoin, pathExists: PathExists, dirs: seq<Path>, frags: seq<string>, k: int) {
    && 0 <= k < |dirs|
    && pathExists(pathJoin(dirs[k], frags))
    && NoMatch(pathJoin, pathExists, dirs[..k], frags)
  }

  // ---------------------------------------------------------------------
  // Joining: never consults the filesystem.
  // ---------------------------------------------------------------------

  /** `join(dirs, *frags)`: the fragments joined onto the first directory;
      the other directories are ignored. */
  function Join(pathJoin: PathJoin, dirs: seq<Path>, frags: seq<string>): (r: Result<Path, Error>)
    ensures r.Err? <==> |dirs| == 0
    ensures r.Err? ==> r.error == InvalidArgument
    ensures r.Ok? ==> r.value == pathJoin(dirs[0], frags)
  {
    if |dirs| == 0 then Err(InvalidArgument) else Ok(pathJoin(dirs[0], frags))
  }

  /** `try_join(dirs, *frags)`: `join`, with `None` for an empty directory list. */
  function TryJoin(pathJoin: PathJoin, dirs: seq<Path>, frags: seq<string>): (r: Option<Path>)
    ensures r.None? <==> |dirs| == 0
    ensures r.Some? ==> r.value == pathJoin(dirs[0], frags)
  {
    if |dirs| == 0 then None else Some(pathJoin(dirs[0], frags))
  }

  /** `join_all(dirs, *frags)`: the fragments joined onto every directory,
      in the order of `dirs`. */
  function JoinAll(pathJoin: PathJoin, dirs: seq<Path>, frags: seq<string>): (r: seq<Path>)
    ensures |r| == |dirs|
    ensures forall i :: 0 <= i < |dirs| ==> r[i] == pathJoin(dirs[i], frags)
  {
    if |dirs| == 0 then [] else [pathJoin(dirs[0], frags)] + JoinAll(pathJoin, dirs[1..], frags)
  }

  // ---------------------------------------------------------------------
  // Resolving: probes each candidate in order.
  // ---------------------------------------------------------------------

  /** `try_resolve(dirs, *frags)`: the first joined path that exists, or
      `None` when there is none (an empty directory list included). */
  function TryResolve(pathJoin: PathJoin, pathExists: PathExists, dirs: seq<Path>, frags: seq<string>): (r: Option<Path>)
    ensures r.None? <==> NoMatch(pathJoin, pathExists, dirs, frags)
    ensures r.Some? ==> pathExists(r.value)
    decreases |dirs|
  {
    if |dirs| == 0 then None
    else
      var candidate := pathJoin(dirs[0], frags);
      if pathExists(candidate) then Some(candidate)
      else
        var rest := TryResolve(pathJoin, pathExists, dirs[1..], frags);
        assert forall i :: 1 <= i < |dirs| ==> dirs[i] == dirs[1..][i - 1];
        rest
  }

  /** `resolve(dirs, *frags)`: the first joined path that exists; fails with
      `InvalidArgument` on an empty directory list and `NotFound` when no
      candidate exists. */
  function Resolve(pathJoin: PathJoin, pathExists: PathExists, dirs: seq<Path>, frags: seq<string>): (r: Result<Path, Error>)
    ensures r == Err(InvalidArgument) <==> |dirs| == 0
    ensures r == Err(NotFound) <==> |dirs| > 0 && NoMatch(pathJoin, pathExists, dirs, frags)
    ensures r.Ok? ==> pathExists(r.value)
  {
    if |dirs| == 0 then Err(InvalidArgument)
    else
      match TryResolve(pathJoin, pathExists, dirs, frags)
      case Some(p) => Ok(p)
      case None => Err(NotFound)
  }

  /** `resolve_all(dirs, *frags)`: every joined path that exists, in the
      order of `dirs`. */
  function ResolveAll(pathJoin: PathJoin, pathExists: PathExists, dirs: seq<Path>, frags: seq<string>): (r: seq<Path>)
    ensures |r| <= |dirs|
    ensures r == [] <==> NoMatch(pathJoin, pathExists, dirs, frags)
    ensures forall p :: p in r <==> exists i :: 0 <= i < |dirs| && p == pathJoin(dirs[i], frags) && pathExists(p)
    decreases |dirs|
  {
    if |dirs| == 0 then []
    else
      var candidate := pathJoin(dirs[0], frags);
      var rest := ResolveAll(pathJoin, pathExists, dirs[1..], frags);
      assert forall i :: 1 <= i < |dirs| ==> dirs[i] == dirs[1..][i - 1];
      if pathExists(candidate) then [candidate] + rest else rest
  }
}
