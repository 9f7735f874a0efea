/** What one call of `Move` does at its own level: path normalisation, the
    lookup dispatch, the file-only guard, the listing checks, the threshold
    dispatch and copy-then-delete. */
module MoveSteps {
  import opened Paths
  import opened ObjectStore
  import opened Relocation

  /** `Move` sees its paths only through `Trim`. */
  lemma MoveDependsOnTrimmedPaths(st: Storager, fuel: nat, hist: Trace, s1: string, s2: string,
                                  destBucket: string, d1: string, d2: string, fileOnly: bool)
    requires Trim(s1) == Trim(s2) && Trim(d1) == Trim(d2)
    ensures Move(st, fuel, hist, s1, destBucket, d1, fileOnly)
         == Move(st, fuel, hist, s2, destBucket, d2, fileOnly)
  {
  }

  /** Both paths are trimmed before any request: a call with separators
      around either path behaves exactly as the call with trimmed paths. */
  lemma MoveNormalizesPaths(st: Storager, fuel: nat, hist: Trace, sourcePath: string,
                            destBucket: string, destPath: string, fileOnly: bool)
    ensures Move(st, fuel, hist, sourcePath, destBucket, destPath, fileOnly)
         == Move(st, fuel, hist, Trim(sourcePath), destBucket, Trim(destPath), fileOnly)
  {
    TrimIdempotent(sourcePath);
    TrimIdempotent(destPath);
    MoveDependsOnTrimmedPaths(st, fuel, hist, sourcePath, Trim(sourcePath),
                              destBucket, destPath, Trim(destPath), fileOnly);
  }

  /** A lookup error other than NotFound is returned unchanged, after the
      lookup alone: no listing, copy or delete. */
  lemma LookupErrorIsReturned(st: Storager, fuel: nat, hist: Trace, sourcePath: string,
                              destBucket: string, destPath: string, fileOnly: bool)
    requires fuel > 0 && st.get(hist, Trim(sourcePath)).LookupFailed?
    ensures Move(st, fuel, hist, sourcePath, destBucket, destPath, fileOnly)
         == Run(Fail(Passthrough(st.get(hist, Trim(sourcePath)).cause)), [Get(Trim(sourcePath))])
  {
  }

  /** With the file-only hint, NotFound is returned as the same error and
      the prefix is never listed. */
  lemma FileOnlyStopsAtNotFound(st: Storager, fuel: nat, hist: Trace, sourcePath: string,
                                destBucket: string, destPath: string)
    requires fuel > 0 && st.get(hist, Trim(sourcePath)).NotFound?
    ensures Move(st, fuel, hist, sourcePath, destBucket, destPath, true)
         == Run(Fail(Passthrough(st.get(hist, Trim(sourcePath)).cause)), [Get(Trim(sourcePath))])
  {
  }

  /** The file-only hint matters only when the lookup reports NotFound. */
  lemma FileOnlyIrrelevantUnlessNotFound(st: Storager, fuel: nat, hist: Trace, sourcePath: string,
                                         destBucket: string, destPath: string)
    requires fuel > 0 && !st.get(hist, Trim(sourcePath)).NotFound?
    ensures Move(st, fuel, hist, sourcePath, destBucket, destPath, true)
         == Move(st, fuel, hist, sourcePath, destBucket, destPath, false)
  {
  }

  /** Without the hint, NotFound leads to a listing of the same key; a
      listing error is returned unchanged and nothing else is issued. */
  lemma ListErrorIsReturned(st: Storager, fuel: nat, hist: Trace, sourcePath: string,
                            destBucket: string, destPath: string)
    requires fuel > 0 && st.get(hist, Trim(sourcePath)).NotFound?
    requires st.list(hist + [Get(Trim(sourcePath))], Trim(sourcePath)).ListFailed?
    ensures Move(st, fuel, hist, sourcePath, destBucket, destPath, false)
         == Run(Fail(Passthrough(st.list(hist + [Get(Trim(sourcePath))], Trim(sourcePath)).cause)),
                [Get(Trim(sourcePath)), List(Trim(sourcePath))])
  {
  }

  /** An empty listing is a "not found" error naming the trimmed source
      path, and nothing is copied or deleted. */
  lemma EmptyListingIsNotFound(st: Storager, fuel: nat, hist: Trace, sourcePath: string,
                               destBucket: string, destPath: string)
    requires fuel > 0 && st.get(hist, Trim(sourcePath)).NotFound?
    requires st.list(hist + [Get(Trim(sourcePath))], Trim(sourcePath)) == Listed([])
    ensures Move(st, fuel, hist, sourcePath, destBucket, destPath, false)
         == Run(Fail(NotFoundEmpty(Trim(sourcePath))), [Get(Trim(sourcePath)), List(Trim(sourcePath))])
  {
  }

  /** A non-empty listing: entry 0 is skipped, the other entries are moved
      in listing order below the same destination bucket, and the loop's
      result is the result, with no request of the prefix's own after it. */
  lemma ListingIsExpanded(st: Storager, fuel: nat, hist: Trace, sourcePath: string,
                          destBucket: string, destPath: string, names: seq<string>)
    requires fuel > 0 && st.get(hist, Trim(sourcePath)).NotFound?
    requires st.list(hist + [Get(Trim(sourcePath))], Trim(sourcePath)) == Listed(names)
    requires names != []
    ensures var src := Trim(sourcePath);
            var each := MoveEach(st, fuel - 1, hist + [Get(src)] + [List(src)], src,
                                 destBucket, Trim(destPath), names[1..]);
            (Move(st, fuel, hist, sourcePath, destBucket, destPath, false)
             == Run(each.outcome, [Get(src), List(src)] + each.ops))
  {
    var src := Trim(sourcePath);
    var each := MoveEach(st, fuel - 1, hist + [Get(src)] + [List(src)], src,
                         destBucket, Trim(destPath), names[1..]);
    assert [Get(src)] + ([List(src)] + each.ops) == [Get(src), List(src)] + each.ops;
  }

  /** A listing holding only the prefix's own entry moves nothing and
      succeeds. */
  lemma PrefixOnlyListingSucceeds(st: Storager, fuel: nat, hist: Trace, sourcePath: string,
                                  destBucket: string, destPath: string, marker: string)
    requires fuel > 0 && st.get(hist, Trim(sourcePath)).NotFound?
    requires st.list(hist + [Get(Trim(sourcePath))], Trim(sourcePath)) == Listed([marker])
    ensures Move(st, fuel, hist, sourcePath, destBucket, destPath, false)
         == Run(Done, [Get(Trim(sourcePath)), List(Trim(sourcePath))])
  {
    ListingIsExpanded(st, fuel, hist, sourcePath, destBucket, destPath, [marker]);
    assert [marker][1..] == [];
  }

  /** A found object is copied from "bucket/source" to the trimmed
      destination of `destBucket`, by the multipart copier exactly when its
      size reaches the threshold. A failed copy returns an error naming both
      locations and deletes nothing; a successful copy is followed by
      exactly one delete of the source, whose answer is the result. */
  lemma FoundObjectIsCopiedThenDeleted(st: Storager, fuel: nat, hist: Trace, sourcePath: string,
                                       destBucket: string, destPath: string, fileOnly: bool)
    requires fuel > 0 && st.get(hist, Trim(sourcePath)).Found?
    ensures var src := Trim(sourcePath);
            var dst := Trim(destPath);
            var size := st.get(hist, src).size;
            var r := Move(st, fuel, hist, sourcePath, destBucket, destPath, fileOnly);
            var copy := r.ops[1];
            var h := hist + [Get(src), copy];
            && 2 <= |r.ops| <= 3
            && copy.IsCopy()
            && copy.input == CopyInput(st.bucket + "/" + src, destBucket, dst)
            && (copy.MultipartCopy? <==> size >= st.maxCopySize)
            && (Fails(st, hist + [Get(src)], copy) ==>
                  |r.ops| == 2 &&
                  r.outcome == Fail(CopyFailed(CopyReply(st, hist + [Get(src)], copy).cause,
                                               Location(st.bucket, src), Location(destBucket, dst))))
            && (!Fails(st, hist + [Get(src)], copy) ==>
                  && r.ops[2] == Delete(src)
                  && (st.delete(h, src).Ok? ==> r.outcome == Done)
                  && (st.delete(h, src).Failed? ==> r.outcome == Fail(DeleteFailed(st.delete(h, src).cause))))
  {
    var src := Trim(sourcePath);
    var h1 := hist + [Get(src)];
    var t := Transfer(st, h1, st.get(hist, src).size, src, destBucket, Trim(destPath));
    assert h1 + [t.ops[0]] == hist + [Get(src), t.ops[0]];
  }

  /** Whatever the threshold, as long as it is positive, an empty object is
      copied by a single `CopyObject`, never by the multipart copier. */
  lemma EmptyObjectUsesSingleCopy(st: Storager, src: string, destBucket: string, dst: string)
    requires st.maxCopySize > 0
    ensures CopyRequest(st, 0, src, destBucket, dst).CopyObject?
  {
  }
}
