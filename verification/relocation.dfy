/** `storager.Move` (s3/move.go): relocate an object, or every object below
    a prefix, by copy-then-delete. A run returns the outcome together with
    the requests it issued to the store, in order. */
module Relocation {
  import opened Paths
  import opened ObjectStore

  /** A bucket and a key, as named in a copy failure. */
  datatype Location = Location(bucket: string, key: string)

  /** The errors `Move` returns, by where they come from. */
  datatype MoveError =
      /** an error of `get` or `List`, returned unchanged */
    | Passthrough(cause: Cause)
      /** the listing of the source prefix was empty */
    | NotFoundEmpty(path: string)
      /** the copy failed; the error names both locations */
    | CopyFailed(cause: Cause, from: Location, to: Location)
      /** the copy succeeded and the delete of the source failed */
    | DeleteFailed(cause: Cause)

  /** `Done` is Go's nil error. `OutOfFuel` belongs to the model only: the
      recursion went deeper than the fuel allowed. */
  datatype Outcome = Done | Fail(error: MoveError) | OutOfFuel

  /** The outcome of a run and the store requests it issued, in order. */
  datatype Run = Run(outcome: Outcome, ops: Trace)

  /** Moves `sourcePath` of the storager's bucket to `destPath` of
      `destBucket`, after the requests `hist`. Each level of recursion into
      a prefix costs one unit of `fuel`. */
  function Move(st: Storager, fuel: nat, hist: Trace, sourcePath: string,
                destBucket: string, destPath: string, fileOnly: bool): (r: Run)
    ensures fuel == 0 <==> r.ops == []
    ensures fuel > 0 ==> r.ops[0] == Get(Trim(sourcePath))
    decreases fuel, 0, 0
  {
    if fuel == 0 then Run(OutOfFuel, [])
    else
      var src := Trim(sourcePath);
      var dst := Trim(destPath);
      var rest :=
        match st.get(hist, src)
        case NotFound(cause) =>
          if fileOnly then Run(Fail(Passthrough(cause)), [])
          else Expand(st, fuel - 1, hist + [Get(src)], src, destBucket, dst)
        case LookupFailed(cause) => Run(Fail(Passthrough(cause)), [])
        case Found(size) => Transfer(st, hist + [Get(src)], size, src, destBucket, dst);
      Run(rest.outcome, [Get(src)] + rest.ops)
  }

  /** The NotFound branch: list the prefix and move every listed entry but
      the first, the prefix itself. */
  function Expand(st: Storager, fuel: nat, hist: Trace, src: string,
                  destBucket: string, dst: string): (r: Run)
    ensures r.ops != [] && r.ops[0] == List(src)
    decreases fuel, 2, 0
  {
    match st.list(hist, src)
    case ListFailed(cause) => Run(Fail(Passthrough(cause)), [List(src)])
    case Listed(names) =>
      if |names| == 0 then Run(Fail(NotFoundEmpty(src)), [List(src)])
      else
        var each := MoveEach(st, fuel, hist + [List(src)], src, destBucket, dst, names[1..]);
        Run(each.outcome, [List(src)] + each.ops)
  }

  /** Moves `src/name` to `dst/name` for each name in order, without
      options, and stops at the first child that does not succeed. */
  function MoveEach(st: Storager, fuel: nat, hist: Trace, src: string,
                    destBucket: string, dst: string, names: seq<string>): (r: Run)
    decreases fuel, 1, |names|
  {
    if names == [] then Run(Done, [])
    else
      var child := MoveChild(st, fuel, hist, src, destBucket, dst, names[0]);
      if child.outcome != Done then child
      else
        var rest := MoveEach(st, fuel, hist + child.ops, src, destBucket, dst, names[1..]);
        Run(rest.outcome, child.ops + rest.ops)
  }

  /** One step of the loop over a listing: `Move(src/name, dst/name)` with
      no options, so a file-only hint never reaches a child. */
  function MoveChild(st: Storager, fuel: nat, hist: Trace, src: string,
                     destBucket: string, dst: string, name: string): Run
    decreases fuel, 0, 1
  {
    Move(st, fuel, hist, Join(src, name), destBucket, Join(dst, name), false)
  }

  /** The copy request for an object of `size` bytes: the multipart copier
      at or above the storager's threshold, a single `CopyObject` below. */
  function CopyRequest(st: Storager, size: nat, src: string, destBucket: string, dst: string): (op: Op)
    ensures op.IsCopy()
    ensures op.input.copySource == CopySource(st.bucket, src)
    ensures op.input.bucket == destBucket && op.input.key == dst
    ensures op.MultipartCopy? <==> size >= st.maxCopySize
  {
    var input := CopyInput(CopySource(st.bucket, src), destBucket, dst);
    if size >= st.maxCopySize then MultipartCopy(input, size) else CopyObject(input)
  }

  /** The found-object branch: copy, and only after a successful copy
      delete the source; the delete's answer is the result. */
  function Transfer(st: Storager, hist: Trace, size: nat, src: string,
                    destBucket: string, dst: string): (r: Run)
    ensures 1 <= |r.ops| <= 2
    ensures r.ops[0] == CopyRequest(st, size, src, destBucket, dst)
    ensures |r.ops| == 2 <==> !Fails(st, hist, r.ops[0])
    ensures |r.ops| == 2 ==> r.ops[1] == Delete(src)
    ensures Fails(st, hist, r.ops[0]) ==>
      r.outcome == Fail(CopyFailed(CopyReply(st, hist, r.ops[0]).cause,
                                   Location(st.bucket, src), Location(destBucket, dst)))
    ensures !Fails(st, hist, r.ops[0]) ==>
      (r.outcome == Done <==> !Fails(st, hist + [r.ops[0]], Delete(src)))
    ensures !Fails(st, hist, r.ops[0]) && Fails(st, hist + [r.ops[0]], Delete(src)) ==>
      r.outcome == Fail(DeleteFailed(st.delete(hist + [r.ops[0]], src).cause))
  {
    var copy := CopyRequest(st, size, src, destBucket, dst);
    match CopyReply(st, hist, copy)
    case Failed(cause) =>
      Run(Fail(CopyFailed(cause, Location(st.bucket, src), Location(destBucket, dst))), [copy])
    case Ok =>
      match st.delete(hist + [copy], src)
      case Ok => Run(Done, [copy, Delete(src)])
      case Failed(cause) => Run(Fail(DeleteFailed(cause)), [copy, Delete(src)])
  }
}
