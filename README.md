# multipath, modelled in Dafny

`multipath` resolves a sub-path against an ordered list of candidate base
directories (a search path), much as a shell resolves a command against
`PATH`. It offers six operations over the directory list `dirs` and a
sequence of path fragments `frags`:

- `join` joins `frags` onto `dirs[0]` and raises `ValueError` when `dirs` is empty.
- `try_join` does the same but returns `None` for an empty `dirs`.
- `join_all` joins `frags` onto every directory, in order.
- `resolve` returns the first joined path that exists. It raises
  `ValueError` for an empty `dirs` and `FileNotFoundError` when nothing exists.
- `try_resolve` does the same search but returns `None` in both failure cases.
- `resolve_all` keeps every joined path that exists, in order.

The behaviour modelled is the one the test suite `tests/test_multipath.py`
asserts; the production module itself is not part of this model.

The two host primitives are parameters of the model, not I/O:

- `pathJoin: (Path, seq<string>) -> Path` stands for `os.path.join(base, *frags)`.
  It is left uninterpreted. Only the lemmas about calls with no fragments
  assume `BareBase`: joining no fragments yields the base directory, as the
  tests at lines 48 and 52 show.
- `pathExists: Path -> bool` stands for the filesystem existence probe,
  read against one snapshot of the filesystem.
  `Join`, `TryJoin` and `JoinAll` do not take it, so the joining operations
  never consult the filesystem.

The Python exceptions become `Result<Path, Error>` values. `ValueError` is
`Err(InvalidArgument)` and `FileNotFoundError` is `Err(NotFound)`. Python's
`None` is `Option.None`.

Files:

- `wrappers.dfy` (module `Wrappers`): `Option` and `Result`.
- `sequences.dfy` (module `Sequences`): ordered `Filter` and the
  `IsSubsequence` relation, with their lemmas.
- `multipath.dfy` (module `Multipath`): the six operations.
- `properties.dfy` (module `MultipathProperties`): the lemmas relating them.

## Model

| member | source | states |
|---|---|---|
| `Multipath.Join` | tests/test_multipath.py:25-58 | fails with `InvalidArgument` exactly when `dirs` is empty; otherwise returns the fragments joined onto `dirs[0]` |
| `Multipath.TryJoin` | tests/test_multipath.py:60-93 | `None` exactly when `dirs` is empty, as in the `([], [], None)` case at line 88; otherwise the fragments joined onto `dirs[0]` |
| `Multipath.JoinAll` | tests/test_multipath.py:95-110 | same length as `dirs`; element `i` is `dirs[i]` joined with the fragments; so it is empty for an empty `dirs` |
| `Multipath.TryResolve` | tests/test_multipath.py:164-208 | `None` exactly when no candidate's joined path exists, an empty `dirs` included; any path returned exists |
| `Multipath.Resolve` | tests/test_multipath.py:112-162 | `InvalidArgument` exactly for an empty `dirs`; `NotFound` exactly when `dirs` is non-empty and no joined path exists; any path returned exists |
| `Multipath.ResolveAll` | tests/test_multipath.py:210-259 | no longer than `dirs`; empty exactly when nothing exists; contains a path exactly when it is some `dirs[i]` joined with the fragments and it exists |
| `MultipathProperties.JoinIgnoresLaterDirs` | tests/test_multipath.py:39-58 | `join` on `[first] + more` equals `join` on `[first]`: later directories never matter |
| `MultipathProperties.EmptyDirs` | tests/test_multipath.py:35-37 | for any fragments and an empty `dirs`: `join` and `resolve` fail with `InvalidArgument`, `try_join` and `try_resolve` give `None`, `join_all` and `resolve_all` give `[]` (also lines 71, 110, 126, 162, 208) |
| `MultipathProperties.TryJoinAgreesWithJoin` | tests/test_multipath.py:60-93 | `try_join` is `join` with its error turned into `None` |
| `MultipathProperties.JoinAllHeadIsJoin` | tests/test_multipath.py:95-107 | for non-empty `dirs`, `join` returns the first element of `join_all` |
| `MultipathProperties.JoinAllAppend` | tests/test_multipath.py:103-107 | `join_all` over `dirs + more` is `join_all` over `dirs` followed by `join_all` over `more`: order follows the input |
| `MultipathProperties.JoinNoFragments` | tests/test_multipath.py:47-52 | with no fragments, `join` and `try_join` return `dirs[0]` itself |
| `MultipathProperties.JoinAllNoFragments` | tests/test_multipath.py:95-110 | with no fragments, `join_all` returns `dirs` unchanged; derived from the element-wise rule at line 106 and the bare-base cases at lines 48 and 52, since no test calls `join_all` without fragments |
| `MultipathProperties.TryResolveFirstMatch` | tests/test_multipath.py:176-188 | when `k` is the least index whose joined path exists, `try_resolve` returns `dirs[k]` joined with the fragments |
| `MultipathProperties.FirstMatchExists` | tests/test_multipath.py:128-140 | when some candidate exists there is a least index whose joined path exists |
| `MultipathProperties.ResolveFirstMatch` | tests/test_multipath.py:112-122 | when `k` is the least index whose joined path exists (all earlier ones do not), `resolve` returns `dirs[k]` joined with the fragments |
| `MultipathProperties.ResolveOutcomes` | tests/test_multipath.py:112-162 | `resolve` has exactly three outcomes: `InvalidArgument` for empty `dirs`, `NotFound` when nothing exists, or the first match's joined path |
| `MultipathProperties.ResolveIgnoresLaterDirs` | tests/test_multipath.py:128-140 | replacing everything after the first match by any other directories does not change what `resolve` returns |
| `MultipathProperties.TryResolveAgreesWithResolve` | tests/test_multipath.py:164-208 | `try_resolve` is `resolve` with both of its errors turned into `None` |
| `MultipathProperties.ResolveNoFragments` | tests/test_multipath.py:152-158 | with no fragments and an existing `dirs[0]`, `resolve` and `try_resolve` return `dirs[0]` |
| `MultipathProperties.ResolveAllIsFilter` | tests/test_multipath.py:210-239 | `resolve_all` equals the order-preserving filter of `join_all` by existence |
| `MultipathProperties.ResolveAllIsSubsequence` | tests/test_multipath.py:222-239 | `resolve_all` is a subsequence of `join_all` |
| `MultipathProperties.ResolveAllHeadIsResolve` | tests/test_multipath.py:128-239 | `try_resolve` is `None` when `resolve_all` is empty and otherwise its first element, which `resolve` also returns; derived by comparing the same three-directory scenario in the `resolve` (128-140), `try_resolve` (176-188) and `resolve_all` (222-239) tests |
| `MultipathProperties.ResolveAllAppend` | tests/test_multipath.py:222-239 | `resolve_all` over `dirs + more` is `resolve_all` over `dirs` followed by `resolve_all` over `more`: matches keep the order of the directories |
| `MultipathProperties.ResolveAllNoFragments` | tests/test_multipath.py:252-259 | with no fragments and every directory existing, `resolve_all` returns `dirs` unchanged |
| `MultipathProperties.SecondOfThreeMatches` | tests/test_multipath.py:128-140 | with candidates `[a, b, c]` where only `b` and `c` hold the path, `resolve` and `try_resolve` return `b`'s path, and `resolve_all` returns `b`'s then `c`'s path |

## Left out

- Real filesystem effects: creating temporary directories and empty files
  (tests/test_multipath.py:113-118, 261-262). Existence is the abstract
  predicate `pathExists`.
- Platform rules of `os.path.join`, such as the separator character and
  absolute fragments resetting the path. `pathJoin` is uninterpreted apart
  from `BareBase`.
- Exception messages, the fragments a `FileNotFoundError` may name, and the
  Python exception class hierarchy. Only `InvalidArgument` and `NotFound`
  are told apart.
- Errors raised by the existence probe itself. Only `resolve`,
  `try_resolve` and `resolve_all` probe; `join`, `try_join` and `join_all`
  never touch the filesystem. The probe is a total predicate, so a probe
  that raises is not modelled; a probe that reports an unreadable path as
  missing (as Python's `os.path.exists` does) is what `pathExists` returning
  `false` captures.
- Changes to the filesystem between calls. `pathExists` is one unchanging
  snapshot, so the lemmas that compare two calls (for example
  `TryResolveAgreesWithResolve` and `ResolveAllHeadIsResolve`) hold only when
  nothing creates or removes files between those calls.
- The test harness: `unittest` scaffolding and the loops over case tables
  (tests/test_multipath.py:56-58, 91-93).
- The production module `multipath` is not part of this model. The model
  follows what the tests assert. Where the tests say nothing (for example
  `resolve` with no fragments and a missing `dirs[0]`), it keeps the plain
  rule "probe every candidate, first match wins".
