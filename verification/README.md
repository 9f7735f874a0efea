# S3 `Move`: copy-then-delete relocation of an object or a prefix

This project models `storager.Move` of the S3 storage backend
(`s3/move.go`). `Move` relocates the object at `sourcePath` of the
storager's bucket to `destPath` of `destBucket`:

- both paths first lose their leading and trailing `/`;
- one lookup (`get`) resolves the source;
- a found object is copied, by a single `CopyObject` below the
  `maxCopySize` threshold and by the multipart copier at or above it, and
  only after a successful copy is the source deleted;
- a missing object is treated as a prefix, unless the caller passed the
  file-only hint. The prefix is listed, and every listed entry but the
  first (the prefix itself) is moved recursively, in listing order, with no
  options. The first failing child ends the move.

The store is an oracle. `ObjectStore.Storager` holds the bucket, the
threshold and one function per primitive (`get`, `List`, `CopyObject`, the
multipart copier, `Delete`). Each function takes the history of requests
issued before it, so a store that changes as objects are copied and deleted
is expressible, and every run stays deterministic. `Relocation.Move` is a
pure function. It returns a `Run`: the outcome (`Done` for Go's `nil`, or a
tagged `MoveError`) and the trace of store requests it issued, in order.
Recursion into prefixes is bounded by `fuel`. Running out of fuel is the
model-only outcome `OutOfFuel`.

Modules:

- `Paths` (`paths.dfy`): `strings.Trim(p, "/")` and the two-element
  `path.Join`, with their properties.
- `ObjectStore` (`store.dfy`): store answers, requests, the oracle.
- `Relocation` (`relocation.dfy`): `Move` and its parts: the NotFound
  branch `Expand`, the child loop `MoveEach`/`MoveChild`, the threshold
  dispatch `CopyRequest` and copy-then-delete `Transfer`.
- `MoveSteps` (`steps.dfy`): what one call does at its own level.
- `TraceFacts` (`traces.dfy`): trace properties and how they compose when
  runs are concatenated.
- `MoveTree` (`tree.dfy`): properties of a whole recursive move.
- `Scenarios` (`scenarios.dfy`): two concrete moves worked out request by
  request.

## Model

| member | source | states |
|---|---|---|
| Paths.TrimLeftCuts | s3/move.go:16-17 | cutting leading `/` keeps a suffix of the path, cuts separators only, and leaves no leading `/` |
| Paths.TrimRightCuts | s3/move.go:16-17 | cutting trailing `/` keeps a prefix of the path, cuts separators only, and leaves no trailing `/` |
| Paths.Trim | s3/move.go:16-17 | a trimmed path neither starts nor ends with `/` |
| Paths.TrimCuts | s3/move.go:16-17 | a trimmed path is a slice of the original path, with only `/` cut off each end |
| Paths.TrimUnique | s3/move.go:16-17 | any trimmed key wrapped in runs of `/` trims back to that key, so `Trim` is fixed by its contract |
| Paths.TrimIdempotent | s3/move.go:16-17 | trimming an already-trimmed path changes nothing; trimming twice equals trimming once |
| Paths.TrimJoin | s3/move.go:33 | a child path `join(dir, name)`, trimmed, is its parent followed by a suffix that is empty or starts with `/` |
| Paths.ChildUnder | s3/move.go:33 | the trimmed child of a key below a root is trimmed and still below that root |
| Paths.ChildAligned | s3/move.go:33 | joining the same name below a source key and a destination key keeps both at the same relative path |
| Relocation.Move | s3/move.go:15-18 | with fuel, the first request is the lookup of the trimmed source; a call issues requests exactly when it has fuel |
| Relocation.Expand | s3/move.go:24 | the NotFound branch always starts with one `List` of the trimmed source |
| Relocation.CopyRequest | s3/move.go:42-52 | the copy reads `bucket + "/" + source`, writes `destBucket`/`destPath`, and is multipart exactly when `size >= maxCopySize` |
| Relocation.Transfer | s3/move.go:42-59 | one copy, then a `Delete(source)` exactly when the copy succeeded; a failed copy yields an error naming both locations; after a good copy the delete's answer is the result |
| MoveSteps.MoveDependsOnTrimmedPaths | s3/move.go:16-17 | two calls whose paths trim alike behave identically |
| MoveSteps.MoveNormalizesPaths | s3/move.go:16-17 | a call behaves exactly as the call with both paths already trimmed |
| MoveSteps.LookupErrorIsReturned | s3/move.go:39-41 | a lookup error other than NotFound is returned unchanged after the lookup alone |
| MoveSteps.FileOnlyStopsAtNotFound | s3/move.go:19-23 | with the file-only hint, NotFound is returned as the same error and nothing is listed |
| MoveSteps.FileOnlyIrrelevantUnlessNotFound | s3/move.go:19-21 | the file-only hint changes nothing unless the lookup reports NotFound |
| MoveSteps.ListErrorIsReturned | s3/move.go:24-27 | a listing error is returned unchanged after the lookup and the listing, with no copy or delete |
| MoveSteps.EmptyListingIsNotFound | s3/move.go:28-30 | an empty listing is a "not found" error naming the trimmed source, with no copy or delete |
| MoveSteps.ListingIsExpanded | s3/move.go:31-37 | a non-empty listing skips entry 0, moves entries 1.. below the same destination bucket, and returns the loop's result |
| MoveSteps.PrefixOnlyListingSucceeds | s3/move.go:31-37 | a listing of the prefix's own entry alone succeeds after the lookup and the listing |
| MoveSteps.FoundObjectIsCopiedThenDeleted | s3/move.go:42-59 | for a found object: copy source and destination, threshold dispatch, no delete after a failed copy, exactly one delete after a good copy, and the delete's answer as result |
| MoveSteps.EmptyObjectUsesSingleCopy | s3/move.go:47-52 | with a positive threshold an empty object is copied by a single `CopyObject` |
| MoveTree.MoveEachAppend | s3/move.go:31-36 | the loop over `a + b` runs `b` after `a`'s requests only when `a` succeeded |
| MoveTree.MoveEachSingle | s3/move.go:31-37 | the loop over one name is that child's move |
| MoveTree.MoveEachFailFast | s3/move.go:33-35 | when a child fails after its predecessors succeeded, the loop returns that failure and no later child gets a request |
| MoveTree.MoveEachSnoc | s3/move.go:31-36 | the loop over `names + [name]` reaches `name` exactly when the loop over `names` succeeded |
| MoveTree.MoveEachDoneIffAllChildrenDone | s3/move.go:31-37 | the loop succeeds exactly when every child, run in listing order after its predecessors, succeeds |
| MoveTree.MoveEachStopsAtFirstFailure | s3/move.go:33-35 | a failing loop returns the outcome of its first failing child, and its trace ends with that child's requests |
| MoveTree.TransferDeletesFollowCopies | s3/move.go:53-58 | in the copy-then-delete step a delete comes right after an accepted copy of the same key |
| MoveTree.MoveDeletesFollowCopies | s3/move.go:53-58 | across the whole recursion the NotFound branch issues no delete of its own; every delete comes right after an accepted copy of that same key |
| MoveTree.ExpandDeletesFollowCopies | s3/move.go:24-37 | the same for the NotFound branch |
| MoveTree.MoveEachDeletesFollowCopies | s3/move.go:31-36 | the same for the child loop |
| MoveTree.ErrorsEndRunPrefix | s3/move.go:18-59 | prefixing a run with an accepted request keeps "a store error ends the run" |
| MoveTree.TransferErrorsEndRun | s3/move.go:53-59 | in the copy-then-delete step only the last request can have failed, and a failure is reported |
| MoveTree.MoveErrorsEndRun | s3/move.go:18-59 | across the recursion only the last request can have failed, a successful move saw no store error, and a failing last request means a failed move |
| MoveTree.ExpandErrorsEndRun | s3/move.go:24-37 | the same for the NotFound branch |
| MoveTree.MoveEachErrorsEndRun | s3/move.go:31-36 | the same for the child loop |
| MoveTree.MoveListsNotFound | s3/move.go:19-33 | below the top call every NotFound lookup is followed at once by a listing of that key, so the file-only hint never reaches a child |
| MoveTree.ExpandListsNotFound | s3/move.go:24-37 | the same for the NotFound branch |
| MoveTree.MoveEachListsNotFound | s3/move.go:31-36 | the same for the child loop |
| MoveTree.ConfinedAppend | s3/move.go:31-36 | confinement below the two roots survives concatenating runs |
| MoveTree.TransferConfined | s3/move.go:42-59 | the copy-then-delete step touches only the source key, and writes only the destination key of `destBucket` |
| MoveTree.MoveConfined | s3/move.go:15-60 | every request of a move below the roots touches trimmed keys below the source root, and copies write only below the destination root of `destBucket` |
| MoveTree.ExpandConfined | s3/move.go:24-37 | the same for the NotFound branch |
| MoveTree.MoveEachConfined | s3/move.go:31-36 | the same for the child loop |
| MoveTree.MoveStaysBelowPaths | s3/move.go:15-60 | a whole move stays below its trimmed source and destination paths and writes only to `destBucket`; when the two trimmed paths are both empty or both non-empty, each copy writes the key at the same relative path it reads |
| MoveTree.MoveFuelMonotone | s3/move.go:15-60 | a move that did not run out of fuel gives the same run under any larger fuel |
| MoveTree.ExpandFuelMonotone | s3/move.go:24-37 | the same for the NotFound branch |
| MoveTree.MoveEachFuelMonotone | s3/move.go:31-36 | the same for the child loop |
| Scenarios.SmallObjectMove | s3/move.go:15-59 | `/reports/jan.csv` to `2024/jan.csv/`: lookup of the trimmed key, a single `CopyObject` from `data/reports/jan.csv`, delete, success |
| Scenarios.ChildrenStopAtFebruary | s3/move.go:31-36 | after jan.csv moves, feb.csv's refused copy ends the loop with that error |
| Scenarios.PrefixMoveStopsAtFailedCopy | s3/move.go:15-60 | `reports/` to `2024/`: lookup, listing, jan.csv copied and deleted, feb.csv's copy refused with an error naming both locations, and nothing after it |

## Left out

- Network calls, the AWS SDK types and `CopyObjectWithContext` are replaced by the oracle's answers. Of `CopyObjectInput` only the copy source, destination bucket and key are modelled.
- The multipart copier (`newCopyer`, `defaultPartSize`, part planning, concurrent part workers) is one request `MultipartCopy(input, size)` whose answer the oracle decides. Its code is not part of this model.
- `maxCopySize` is defined outside `s3/move.go`, so it is a field of the storager rather than a constant.
- `context.Context`, cancellation and timeouts have no effect in the model.
- The variadic options bag and `option.Assign` are reduced to the boolean `fileOnly`, which is true when an `ObjectKind` option with `File` set is present.
- `path.Join` is modelled without `Clean`: an empty element is dropped, otherwise the two are joined by one `/`. Dot segments and doubled separators inside a name are not cleaned.
- Listing entries are reduced to their names, and object sizes (Go `int64`) to `nat`.
- Error texts (`errors.Wrapf`, `fmt.Errorf`) are tags: `Passthrough(cause)` for errors returned unchanged, `NotFoundEmpty(path)`, `CopyFailed(cause, from, to)`, and `DeleteFailed(cause)`. The last wraps the delete's error, which Go returns as it is.
- Relocation.Move: recursion is bounded by `fuel`, and `OutOfFuel` is an outcome of the model only. A listing entry `""` or `/` joins back to the same path in the model, and so does `.` in the Go code, whose `path.Join` cleans `reports/.` to `reports`, so the Go code can recurse without end on such a store, and no fuel bound covers every store.
- MoveTree.MoveFuelMonotone: stated in place of a "sufficient fuel" premise. Every property of `MoveTree` holds for every fuel and every property of `MoveSteps` for every positive fuel, and a finished run does not change with more fuel.
- MoveTree.MoveConfined: confinement below the source path, and with it `MoveTree.MoveStaysBelowPaths` and `Paths.ChildUnder`, is proved for the join without `Clean`. The Go code does not have this property: its `path.Join` resolves dot segments, so a listed `..` below `reports` makes it look up `.`, outside the source prefix, where the model looks up `reports/..`.
- MoveTree.MoveStaysBelowPaths: the same-relative-path part is proved only when the two trimmed paths are both empty or both non-empty. Moving the bucket root into a folder (source `""`, destination `2024`) is not covered, because with `path.Join` modelled without `Clean` a listed name that starts with `/` is trimmed differently below `""` than below `2024`.
- ObjectStore.Storager: the lookup's answer is assumed not to depend on the options passed to `get` at `s3/move.go:18`; the model's `get` receives no options. `MoveSteps.FileOnlyIrrelevantUnlessNotFound` rests on this assumption.
- Relocation.MoveEach and Relocation.MoveChild carry no contract of their own; their properties are the `MoveTree` lemmas.

The model follows the code where one might expect otherwise:

- With the file-only hint, NotFound returns the lookup's own error
  (`s3/move.go:19-23`), not a separate invalid-operation error.
- A listing that holds only the prefix's own entry moves nothing and
  returns `nil` (`s3/move.go:28-37`); a prefix without children is not
  reported as "not found".
- A failing child's error is returned as it is (`s3/move.go:33-35`), with
  no child-move wrapping, and so is the delete's error (`s3/move.go:57`);
  `DeleteFailed` is the model's tag only.
