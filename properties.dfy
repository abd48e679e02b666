/**
  Properties of the `multipath` operations: how the strict and permissive
  variants agree, how the singular and "all" variants relate, first-match
  search, and the behaviour with no fragments.
*/
module MultipathProperties {
  import opened Wrappers
  import opened Multipath
  import Sequences

  // ---------------------------------------------------------------------
  // Joining
  // ---------------------------------------------------------------------

  /** `join` looks only at the first directory: whatever follows it is ignored. */
  lemma JoinIgnoresLaterDirs(pathJoin: PathJoin, first: Path, more: seq<Path>, frags: seq<string>)
    ensures Join(pathJoin, [first] + more, frags) == Join(pathJoin, [first], frags) == Ok(pathJoin(first, frags))
  {
  }

  /** Every operation on an empty directory list, whatever the fragments:
      the strict ones fail with `InvalidArgument`, the others give nothing. */
  lemma EmptyDirs(pathJoin: PathJoin, pathExists: PathExists, frags: seq<string>)
    ensures Join(pathJoin, [], frags) == Err(InvalidArgument)
    ensures TryJoin(pathJoin, [], frags) == None
    ensures JoinAll(pathJoin, [], frags) == []
    ensures Resolve(pathJoin, pathExists, [], frags) == Err(InvalidArgument)
    ensures TryResolve(pathJoin, pathExists, [], frags) == None
    ensures ResolveAll(pathJoin, pathExists, [], frags) == []
  {
  }

  /** `try_join` is `join` with its error replaced by `None`. */
  lemma TryJoinAgreesWithJoin(pathJoin: PathJoin, dirs: seq<Path>, frags: seq<string>)
    ensures TryJoin(pathJoin, dirs, frags) == Join(pathJoin, dirs, frags).ToOption()
  {
  }

  /** The first element of `join_all` is what `join` returns. */
  lemma JoinAllHeadIsJoin(pathJoin: PathJoin, dirs: seq<Path>, frags: seq<string>)
    requires |dirs| > 0
    ensures Join(pathJoin, dirs, frags) == Ok(JoinAll(pathJoin, dirs, frags)[0])
  {
  }

  /** `join_all` distributes over concatenation of directory lists. */
  lemma JoinAllAppend(pathJoin: PathJoin, dirs: seq<Path>, more: seq<Path>, frags: seq<string>)
    ensures JoinAll(pathJoin, dirs + more, frags) == JoinAll(pathJoin, dirs, frags) + JoinAll(pathJoin, more, frags)
  {
  }

  /** With no fragments, `join` and `try_join` return the first directory. */
  lemma JoinNoFragments(pathJoin: PathJoin, dirs: seq<Path>)
    requires BareBase(pathJoin)
    requires |dirs| > 0
    ensures Join(pathJoin, dirs, []) == Ok(dirs[0])
    ensures TryJoin(pathJoin, dirs, []) == Some(dirs[0])
  {
  }

  /** With no fragments, `join_all` returns the directory list unchanged. */
  lemma JoinAllNoFragments(pathJoin: PathJoin, dirs: seq<Path>)
    requires BareBase(pathJoin)
    ensures JoinAll(pathJoin, dirs, []) == dirs
  {
    var r := JoinAll(pathJoin, dirs, []);
    assert forall i :: 0 <= i < |dirs| ==> r[i] == dirs[i];
  }

  // ---------------------------------------------------------------------
  // Resolving
  // ---------------------------------------------------------------------

  /** `try_resolve` returns the joined path of the least index that exists. */
  lemma {:induction false} TryResolveFirstMatch(pathJoin: PathJoin, pathExists: PathExists, dirs: seq<Path>, frags: seq<string>, k: int)
    requires IsFirstMatch(pathJoin, pathExists, dirs, frags, k)
    ensures TryResolve(pathJoin, pathExists, dirs, frags) == Some(pathJoin(dirs[k], frags))
    decreases |dirs|
  {
    if k > 0 {
      assert dirs[..k][0] == dirs[0];
      var tail := dirs[1..];
      var before := tail[..k - 1];
      forall i | 0 <= i < |before|
        ensures !pathExists(pathJoin(before[i], frags))
      {
        assert before[i] == dirs[..k][i + 1];
      }
      TryResolveFirstMatch(pathJoin, pathExists, tail, frags, k - 1);
    }
  }

  /** Whenever some candidate exists, there is a least index that does. */
  lemma {:induction false} FirstMatchExists(pathJoin: PathJoin, pathExists: PathExists, dirs: seq<Path>, frags: seq<string>)
    requires !NoMatch(pathJoin, pathExists, dirs, frags)
    ensures exists k :: IsFirstMatch(pathJoin, pathExists, dirs, frags, k)
    decreases |dirs|
  {
    if pathExists(pathJoin(dirs[0], frags)) {
      assert IsFirstMatch(pathJoin, pathExists, dirs, frags, 0);
    } else {
      var tail := dirs[1..];
      var j :| 0 <= j < |dirs| && pathExists(pathJoin(dirs[j], frags));
      assert tail[j - 1] == dirs[j];
      FirstMatchExists(pathJoin, pathExists, tail, frags);
      var k :| IsFirstMatch(pathJoin, pathExists, tail, frags, k);
      var before := dirs[..k + 1];
      forall i | 0 <= i < |before|
        ensures !pathExists(pathJoin(before[i], frags))
      {
        if i > 0 {
          assert before[i] == tail[..k][i - 1];
        }
      }
      assert IsFirstMatch(pathJoin, pathExists, dirs, frags, k + 1);
    }
  }

  /** `resolve` returns the joined path of the least index that exists; all
      earlier candidates are missing. */
  lemma ResolveFirstMatch(pathJoin: PathJoin, pathExists: PathExists, dirs: seq<Path>, frags: seq<string>, k: int)
    requires IsFirstMatch(pathJoin, pathExists, dirs, frags, k)
    ensures Resolve(pathJoin, pathExists, dirs, frags) == Ok(pathJoin(dirs[k], frags))
  {
    TryResolveFirstMatch(pathJoin, pathExists, dirs, frags, k);
  }

  /** `resolve` either fails or returns the first match: nothing else. */
  lemma ResolveOutcomes(pathJoin: PathJoin, pathExists: PathExists, dirs: seq<Path>, frags: seq<string>)
    ensures var r := Resolve(pathJoin, pathExists, dirs, frags);
      || (|dirs| == 0 && r == Err(InvalidArgument))
      || (|dirs| > 0 && NoMatch(pathJoin, pathExists, dirs, frags) && r == Err(NotFound))
      || exists k :: IsFirstMatch(pathJoin, pathExists, dirs, frags, k) && r == Ok(pathJoin(dirs[k], frags))
  {
    if !NoMatch(pathJoin, pathExists, dirs, frags) {
      FirstMatchExists(pathJoin, pathExists, dirs, frags);
      var k :| IsFirstMatch(pathJoin, pathExists, dirs, frags, k);
      ResolveFirstMatch(pathJoin, pathExists, dirs, frags, k);
    }
  }

  /** Candidates after the first match do not change what `resolve` returns. */
  lemma ResolveIgnoresLaterDirs(pathJoin: PathJoin, pathExists: PathExists, dirs: seq<Path>, frags: seq<string>, k: int, more: seq<Path>)
    requires IsFirstMatch(pathJoin, pathExists, dirs, frags, k)
    ensures Resolve(pathJoin, pathExists, dirs[..k + 1] + more, frags) == Resolve(pathJoin, pathExists, dirs, frags)
  {
    var other := dirs[..k + 1] + more;
    assert other[..k] == dirs[..k];
    assert other[k] == dirs[k];
    ResolveFirstMatch(pathJoin, pathExists, dirs, frags, k);
    ResolveFirstMatch(pathJoin, pathExists, other, frags, k);
  }

  /** `try_resolve` is `resolve` with both its errors replaced by `None`. */
  lemma TryResolveAgreesWithResolve(pathJoin: PathJoin, pathExists: PathExists, dirs: seq<Path>, frags: seq<string>)
    ensures TryResolve(pathJoin, pathExists, dirs, frags) == Resolve(pathJoin, pathExists, dirs, frags).ToOption()
  {
  }

  /** With no fragments and an existing first directory, `resolve` and
      `try_resolve` return that directory. */
  lemma ResolveNoFragments(pathJoin: PathJoin, pathExists: PathExists, dirs: seq<Path>)
    requires BareBase(pathJoin)
    requires |dirs| > 0 && pathExists(dirs[0])
    ensures Resolve(pathJoin, pathExists, dirs, []) == Ok(dirs[0])
    ensures TryResolve(pathJoin, pathExists, dirs, []) == Some(dirs[0])
  {
    assert IsFirstMatch(pathJoin, pathExists, dirs, [], 0);
    ResolveFirstMatch(pathJoin, pathExists, dirs, [], 0);
  }

  /** `resolve_all` is the order-preserving filter of `join_all` by existence. */
  lemma {:induction false} ResolveAllIsFilter(pathJoin: PathJoin, pathExists: PathExists, dirs: seq<Path>, frags: seq<string>)
    ensures ResolveAll(pathJoin, pathExists, dirs, frags) == Sequences.Filter(pathExists, JoinAll(pathJoin, dirs, frags))
    decreases |dirs|
  {
    if |dirs| > 0 {
      ResolveAllIsFilter(pathJoin, pathExists, dirs[1..], frags);
      assert JoinAll(pathJoin, dirs, frags)[1..] == JoinAll(pathJoin, dirs[1..], frags);
    }
  }

  /** `resolve_all` is a subsequence of `join_all`. */
  lemma ResolveAllIsSubsequence(pathJoin: PathJoin, pathExists: PathExists, dirs: seq<Path>, frags: seq<string>)
    ensures Sequences.IsSubsequence(ResolveAll(pathJoin, pathExists, dirs, frags), JoinAll(pathJoin, dirs, frags))
  {
    ResolveAllIsFilter(pathJoin, pathExists, dirs, frags);
    Sequences.FilterIsSubsequence(pathExists, JoinAll(pathJoin, dirs, frags));
  }

  /** The first path `resolve_all` finds is what `resolve` and `try_resolve`
      return; an empty `resolve_all` means both find nothing. */
  lemma {:induction false} ResolveAllHeadIsResolve(pathJoin: PathJoin, pathExists: PathExists, dirs: seq<Path>, frags: seq<string>)
    ensures var all := ResolveAll(pathJoin, pathExists, dirs, frags);
      TryResolve(pathJoin, pathExists, dirs, frags) == if all == [] then None else Some(all[0])
    ensures var all := ResolveAll(pathJoin, pathExists, dirs, frags);
      all != [] ==> Resolve(pathJoin, pathExists, dirs, frags) == Ok(all[0])
    decreases |dirs|
  {
    if |dirs| > 0 && !pathExists(pathJoin(dirs[0], frags)) {
      ResolveAllHeadIsResolve(pathJoin, pathExists, dirs[1..], frags);
    }
  }

  /** With no fragments and every directory existing, `resolve_all` returns
      the directory list unchanged. */
  lemma ResolveAllNoFragments(pathJoin: PathJoin, pathExists: PathExists, dirs: seq<Path>)
    requires BareBase(pathJoin)
    requires forall i :: 0 <= i < |dirs| ==> pathExists(dirs[i])
    ensures ResolveAll(pathJoin, pathExists, dirs, []) == dirs
  {
    ResolveAllIsFilter(pathJoin, pathExists, dirs, []);
    JoinAllNoFragments(pathJoin, dirs);
    Sequences.FilterKeepsAll(pathExists, dirs);
  }

  /** `resolve_all` distributes over concatenation of directory lists: the
      matches under `dirs` come before those under `more`. */
  lemma ResolveAllAppend(pathJoin: PathJoin, pathExists: PathExists, dirs: seq<Path>, more: seq<Path>, frags: seq<string>)
    ensures ResolveAll(pathJoin, pathExists, dirs + more, frags)
         == ResolveAll(pathJoin, pathExists, dirs, frags) + ResolveAll(pathJoin, pathExists, more, frags)
  {
    ResolveAllIsFilter(pathJoin, pathExists, dirs + more, frags);
    ResolveAllIsFilter(pathJoin, pathExists, dirs, frags);
    ResolveAllIsFilter(pathJoin, pathExists, more, frags);
    JoinAllAppend(pathJoin, dirs, more, frags);
    Sequences.FilterAppend(pathExists, JoinAll(pathJoin, dirs, frags), JoinAll(pathJoin, more, frags));
  }

  /** Three candidates where only the second and third hold the path: the
      second wins for `resolve` and `try_resolve`, and `resolve_all` lists
      both matches in directory order. */
  lemma SecondOfThreeMatches(pathJoin: PathJoin, pathExists: PathExists, a: Path, b: Path, c: Path, frags: seq<string>)
    requires !pathExists(pathJoin(a, frags))
    requires pathExists(pathJoin(b, frags)) && pathExists(pathJoin(c, frags))
    ensures Resolve(pathJoin, pathExists, [a, b, c], frags) == Ok(pathJoin(b, frags))
    ensures TryResolve(pathJoin, pathExists, [a, b, c], frags) == Some(pathJoin(b, frags))
    ensures ResolveAll(pathJoin, pathExists, [a, b, c], frags) == [pathJoin(b, frags), pathJoin(c, frags)]
  {
    var dirs := [a, b, c];
    assert dirs[..1] == [a];
    ResolveFirstMatch(pathJoin, pathExists, dirs, frags, 1);
    assert dirs[1..] == [b, c] && dirs[1..][1..] == [c] && [c][1..] == [];
    assert ResolveAll(pathJoin, pathExists, [c], frags) == [pathJoin(c, frags)];
    assert ResolveAll(pathJoin, pathExists, [b, c], frags) == [pathJoin(b, frags), pathJoin(c, frags)];
  }
}
