/** Properties of a whole `Move`, across its recursion into prefixes: the
    child loop runs children in listing order and stops at the first
    failure, deletes only follow accepted copies, a store error ends the
    whole run, the file-only hint stays at the top, every request stays
    below the source and destination paths, and extra fuel changes nothing
    once a run has finished. */
module MoveTree {
  import opened Paths
  import opened ObjectStore
  import opened Relocation
  import opened TraceFacts

  // ---------------------------------------------------------------------
  // The child loop

  /** Running the loop over `a + b` runs it over `a` and, only if that
      succeeded, continues with `b` after `a`'s requests. */
  lemma {:induction false} MoveEachAppend(st: Storager, fuel: nat, hist: Trace, src: string,
                                          destBucket: string, dst: string, a: seq<string>, b: seq<string>)
    ensures var ra := MoveEach(st, fuel, hist, src, destBucket, dst, a);
            var rb := MoveEach(st, fuel, hist + ra.ops, src, destBucket, dst, b);
            MoveEach(st, fuel, hist, src, destBucket, dst, a + b)
            == (if ra.outcome != Done then ra else Run(rb.outcome, ra.ops + rb.ops))
    decreases |a|
  {
    if a == [] {
      assert a + b == b;
      assert hist + [] == hist;
    } else {
      assert (a + b)[0] == a[0];
      assert (a + b)[1..] == a[1..] + b;
      var child := MoveChild(st, fuel, hist, src, destBucket, dst, a[0]);
      if child.outcome == Done {
        var h := hist + child.ops;
        MoveEachAppend(st, fuel, h, src, destBucket, dst, a[1..], b);
        var ra1 := MoveEach(st, fuel, h, src, destBucket, dst, a[1..]);
        AppendAssoc(hist, child.ops, ra1.ops);
        var rb := MoveEach(st, fuel, h + ra1.ops, src, destBucket, dst, b);
        AppendAssoc(child.ops, ra1.ops, rb.ops);
      }
    }
  }

  /** The loop over a single name is that child's move. */
  lemma MoveEachSingle(st: Storager, fuel: nat, hist: Trace, src: string,
                       destBucket: string, dst: string, name: string)
    ensures var child := MoveChild(st, fuel, hist, src, destBucket, dst, name);
            MoveEach(st, fuel, hist, src, destBucket, dst, [name])
            == (if child.outcome != Done then child else Run(Done, child.ops))
  {
    var child := MoveChild(st, fuel, hist, src, destBucket, dst, name);
    assert [name][1..] == [];
    assert child.ops + [] == child.ops;
  }

  /** Fail-fast: once the children before `name` have all moved and `name`
      fails, that failure is the result and no later child gets a request. */
  lemma MoveEachFailFast(st: Storager, fuel: nat, hist: Trace, src: string, destBucket: string,
                         dst: string, moved: seq<string>, name: string, later: seq<string>)
    requires MoveEach(st, fuel, hist, src, destBucket, dst, moved).outcome == Done
    requires MoveChild(st, fuel, hist + MoveEach(st, fuel, hist, src, destBucket, dst, moved).ops,
                       src, destBucket, dst, name).outcome != Done
    ensures var before := MoveEach(st, fuel, hist, src, destBucket, dst, moved);
            var child := MoveChild(st, fuel, hist + before.ops, src, destBucket, dst, name);
            MoveEach(st, fuel, hist, src, destBucket, dst, moved + [name] + later)
            == Run(child.outcome, before.ops + child.ops)
  {
    var before := MoveEach(st, fuel, hist, src, destBucket, dst, moved);
    AppendAssoc(moved, [name], later);
    MoveEachAppend(st, fuel, hist, src, destBucket, dst, moved, [name] + later);
    assert ([name] + later)[0] == name && ([name] + later)[1..] == later;
  }

  /** The run of the `k`-th child, after the runs of the children before it. */
  function ChildRun(st: Storager, fuel: nat, hist: Trace, src: string, destBucket: string,
                    dst: string, names: seq<string>, k: nat): Run
    requires k < |names|
  {
    var before := MoveEach(st, fuel, hist, src, destBucket, dst, names[..k]);
    MoveChild(st, fuel, hist + before.ops, src, destBucket, dst, names[k])
  }

  /** The loop over `names + [name]` stops before `name` exactly when the
      loop over `names` did not succeed. */
  lemma MoveEachSnoc(st: Storager, fuel: nat, hist: Trace, src: string, destBucket: string,
                     dst: string, names: seq<string>, name: string)
    ensures var ra := MoveEach(st, fuel, hist, src, destBucket, dst, names);
            var child := MoveChild(st, fuel, hist + ra.ops, src, destBucket, dst, name);
            MoveEach(st, fuel, hist, src, destBucket, dst, names + [name])
            == (if ra.outcome != Done then ra else Run(child.outcome, ra.ops + child.ops))
  {
    var ra := MoveEach(st, fuel, hist, src, destBucket, dst, names);
    MoveEachAppend(st, fuel, hist, src, destBucket, dst, names, [name]);
    MoveEachSingle(st, fuel, hist + ra.ops, src, destBucket, dst, name);
  }

  /** The loop succeeds exactly when every child, run in turn, succeeds. */
  lemma {:induction false} MoveEachDoneIffAllChildrenDone(st: Storager, fuel: nat, hist: Trace, src: string,
                                                          destBucket: string, dst: string, names: seq<string>)
    ensures MoveEach(st, fuel, hist, src, destBucket, dst, names).outcome == Done
        <==> forall k | 0 <= k < |names| :: ChildRun(st, fuel, hist, src, destBucket, dst, names, k).outcome == Done
    decreases |names|
  {
    if names != [] {
      var n := |names| - 1;
      var p := names[..n];
      SplitLast(names);
      MoveEachDoneIffAllChildrenDone(st, fuel, hist, src, destBucket, dst, p);
      MoveEachSnoc(st, fuel, hist, src, destBucket, dst, p, names[n]);
      var ra := MoveEach(st, fuel, hist, src, destBucket, dst, p);
      var last := ChildRun(st, fuel, hist, src, destBucket, dst, names, n);
      assert last == MoveChild(st, fuel, hist + ra.ops, src, destBucket, dst, names[n]);
      forall k | 0 <= k < n
        ensures ChildRun(st, fuel, hist, src, destBucket, dst, names, k)
             == ChildRun(st, fuel, hist, src, destBucket, dst, p, k)
      {
      }
      if MoveEach(st, fuel, hist, src, destBucket, dst, names).outcome == Done {
        assert ra.outcome == Done && last.outcome == Done;
      } else if ra.outcome == Done {
        assert last.outcome != Done;
      } else {
        var k :| 0 <= k < n && ChildRun(st, fuel, hist, src, destBucket, dst, p, k).outcome != Done;
        assert ChildRun(st, fuel, hist, src, destBucket, dst, names, k).outcome != Done;
      }
    }
  }

  /** A failing loop fails with the outcome of its first failing child,
      after the requests of the children before it and that child's own. */
  lemma {:induction false} MoveEachStopsAtFirstFailure(st: Storager, fuel: nat, hist: Trace, src: string,
                                                       destBucket: string, dst: string, names: seq<string>)
    returns (k: nat)
    requires MoveEach(st, fuel, hist, src, destBucket, dst, names).outcome != Done
    ensures k < |names|
    ensures MoveEach(st, fuel, hist, src, destBucket, dst, names[..k]).outcome == Done
    ensures ChildRun(st, fuel, hist, src, destBucket, dst, names, k).outcome
         == MoveEach(st, fuel, hist, src, destBucket, dst, names).outcome
    ensures MoveEach(st, fuel, hist, src, destBucket, dst, names).ops
         == MoveEach(st, fuel, hist, src, destBucket, dst, names[..k]).ops
          + ChildRun(st, fuel, hist, src, destBucket, dst, names, k).ops
    decreases |names|
  {
    var n := |names| - 1;
    var p := names[..n];
    SplitLast(names);
    MoveEachSnoc(st, fuel, hist, src, destBucket, dst, p, names[n]);
    if MoveEach(st, fuel, hist, src, destBucket, dst, p).outcome != Done {
      k := MoveEachStopsAtFirstFailure(st, fuel, hist, src, destBucket, dst, p);
    } else {
      k := n;
    }
  }

  // ---------------------------------------------------------------------
  // Deletes only follow accepted copies

  lemma TransferDeletesFollowCopies(st: Storager, hist: Trace, size: nat, src: string,
                                    destBucket: string, dst: string)
    ensures DeletesFollowCopies(st, hist, Transfer(st, hist, size, src, destBucket, dst).ops)
  {
    var t := Transfer(st, hist, size, src, destBucket, dst);
    assert Before(hist, t.ops, 0) == hist;
  }

  lemma {:induction false} MoveDeletesFollowCopies(st: Storager, fuel: nat, hist: Trace, sourcePath: string,
                                                   destBucket: string, destPath: string, fileOnly: bool)
    ensures DeletesFollowCopies(st, hist, Move(st, fuel, hist, sourcePath, destBucket, destPath, fileOnly).ops)
    decreases fuel, 0, 0
  {
    if fuel > 0 {
      var src := Trim(sourcePath);
      var dst := Trim(destPath);
      var h := hist + [Get(src)];
      var ops := Move(st, fuel, hist, sourcePath, destBucket, destPath, fileOnly).ops;
      assert DeletesFollowCopies(st, hist, [Get(src)]);
      match st.get(hist, src)
      case NotFound(_) =>
        if !fileOnly {
          var e := Expand(st, fuel - 1, h, src, destBucket, dst);
          assert ops == [Get(src)] + e.ops;
          ExpandDeletesFollowCopies(st, fuel - 1, h, src, destBucket, dst);
          DeletesFollowCopiesAppend(st, hist, [Get(src)], e.ops);
        } else {
          assert ops == [Get(src)];
        }
      case LookupFailed(_) =>
        assert ops == [Get(src)];
      case Found(size) =>
        var t := Transfer(st, h, size, src, destBucket, dst);
        assert ops == [Get(src)] + t.ops;
        TransferDeletesFollowCopies(st, h, size, src, destBucket, dst);
        DeletesFollowCopiesAppend(st, hist, [Get(src)], t.ops);
    }
  }

  lemma {:induction false} ExpandDeletesFollowCopies(st: Storager, fuel: nat, hist: Trace, src: string,
                                                     destBucket: string, dst: string)
    ensures DeletesFollowCopies(st, hist, Expand(st, fuel, hist, src, destBucket, dst).ops)
    decreases fuel, 2, 0
  {
    match st.list(hist, src)
    case ListFailed(_) =>
    case Listed(names) =>
      if |names| > 0 {
        var h := hist + [List(src)];
        var each := MoveEach(st, fuel, h, src, destBucket, dst, names[1..]);
        MoveEachDeletesFollowCopies(st, fuel, h, src, destBucket, dst, names[1..]);
        DeletesFollowCopiesAppend(st, hist, [List(src)], each.ops);
      }
  }

  lemma {:induction false} MoveEachDeletesFollowCopies(st: Storager, fuel: nat, hist: Trace, src: string,
                                                       destBucket: string, dst: string, names: seq<string>)
    ensures DeletesFollowCopies(st, hist, MoveEach(st, fuel, hist, src, destBucket, dst, names).ops)
    decreases fuel, 1, |names|
  {
    if names != [] {
      var child := MoveChild(st, fuel, hist, src, destBucket, dst, names[0]);
      MoveDeletesFollowCopies(st, fuel, hist, Join(src, names[0]), destBucket, Join(dst, names[0]), false);
      if child.outcome == Done {
        var rest := MoveEach(st, fuel, hist + child.ops, src, destBucket, dst, names[1..]);
        MoveEachDeletesFollowCopies(st, fuel, hist + child.ops, src, destBucket, dst, names[1..]);
        DeletesFollowCopiesAppend(st, hist, child.ops, rest.ops);
      }
    }
  }

  // ---------------------------------------------------------------------
  // A store error ends the whole run

  /** What every run keeps about store errors: no request but the last was
      answered with an error, a successful run saw no error at all, and a
      run whose last request failed reports a failure. */
  ghost predicate ErrorsEndRun(st: Storager, hist: Trace, r: Run) {
    && NoFailureBefore(st, hist, r.ops, |r.ops| - 1)
    && (r.outcome == Done ==> NoFailureBefore(st, hist, r.ops, |r.ops|))
    && (LastFails(st, hist, r.ops) ==> r.outcome.Fail?)
  }

  /** Prefixing a run with one request the store accepted keeps the
      property, and the run's outcome. */
  lemma ErrorsEndRunPrefix(st: Storager, hist: Trace, op: Op, r: Run)
    requires !Fails(st, hist, op)
    requires ErrorsEndRun(st, hist + [op], r)
    ensures ErrorsEndRun(st, hist, Run(r.outcome, [op] + r.ops))
  {
    assert NoFailureBefore(st, hist, [op], 1) by {
      assert Before(hist, [op], 0) == hist;
    }
    NoFailureAppend(st, hist, [op], r.ops, |r.ops| - 1);
    if r.outcome == Done {
      NoFailureAppend(st, hist, [op], r.ops, |r.ops|);
    }
    LastFailsAppend(st, hist, [op], r.ops);
    if r.ops == [] {
      assert Before(hist, [op], 0) == hist;
    }
  }

  lemma TransferErrorsEndRun(st: Storager, hist: Trace, size: nat, src: string,
                             destBucket: string, dst: string)
    ensures ErrorsEndRun(st, hist, Transfer(st, hist, size, src, destBucket, dst))
  {
    var t := Transfer(st, hist, size, src, destBucket, dst);
    assert Before(hist, t.ops, 0) == hist;
    if |t.ops| == 2 {
      assert Before(hist, t.ops, 1) == hist + [t.ops[0]];
    }
  }

  lemma {:induction false} MoveErrorsEndRun(st: Storager, fuel: nat, hist: Trace, sourcePath: string,
                                            destBucket: string, destPath: string, fileOnly: bool)
    ensures ErrorsEndRun(st, hist, Move(st, fuel, hist, sourcePath, destBucket, destPath, fileOnly))
    decreases fuel, 0, 0
  {
    if fuel > 0 {
      var src := Trim(sourcePath);
      var dst := Trim(destPath);
      var h := hist + [Get(src)];
      var r := Move(st, fuel, hist, sourcePath, destBucket, destPath, fileOnly);
      match st.get(hist, src)
      case NotFound(_) =>
        if !fileOnly {
          ExpandErrorsEndRun(st, fuel - 1, h, src, destBucket, dst);
          ErrorsEndRunPrefix(st, hist, Get(src), Expand(st, fuel - 1, h, src, destBucket, dst));
        } else {
          assert Before(hist, r.ops, 0) == hist;
        }
      case LookupFailed(_) =>
        assert Before(hist, r.ops, 0) == hist;
      case Found(size) =>
        TransferErrorsEndRun(st, h, size, src, destBucket, dst);
        ErrorsEndRunPrefix(st, hist, Get(src), Transfer(st, h, size, src, destBucket, dst));
    }
  }

  lemma {:induction false} ExpandErrorsEndRun(st: Storager, fuel: nat, hist: Trace, src: string,
                                              destBucket: string, dst: string)
    ensures ErrorsEndRun(st, hist, Expand(st, fuel, hist, src, destBucket, dst))
    decreases fuel, 2, 0
  {
    var r := Expand(st, fuel, hist, src, destBucket, dst);
    assert Before(hist, r.ops, 0) == hist;
    match st.list(hist, src)
    case ListFailed(_) =>
    case Listed(names) =>
      if |names| > 0 {
        var h := hist + [List(src)];
        MoveEachErrorsEndRun(st, fuel, h, src, destBucket, dst, names[1..]);
        ErrorsEndRunPrefix(st, hist, List(src), MoveEach(st, fuel, h, src, destBucket, dst, names[1..]));
      }
  }

  lemma {:induction false} MoveEachErrorsEndRun(st: Storager, fuel: nat, hist: Trace, src: string,
                                                destBucket: string, dst: string, names: seq<string>)
    ensures ErrorsEndRun(st, hist, MoveEach(st, fuel, hist, src, destBucket, dst, names))
    decreases fuel, 1, |names|
  {
    if names != [] {
      var child := MoveChild(st, fuel, hist, src, destBucket, dst, names[0]);
      MoveErrorsEndRun(st, fuel, hist, Join(src, names[0]), destBucket, Join(dst, names[0]), false);
      if child.outcome == Done {
        var rest := MoveEach(st, fuel, hist + child.ops, src, destBucket, dst, names[1..]);
        MoveEachErrorsEndRun(st, fuel, hist + child.ops, src, destBucket, dst, names[1..]);
        NoFailureAppend(st, hist, child.ops, rest.ops, |rest.ops| - 1);
        if rest.outcome == Done {
          NoFailureAppend(st, hist, child.ops, rest.ops, |rest.ops|);
        }
        LastFailsAppend(st, hist, child.ops, rest.ops);
        if child.ops != [] {
          assert !Fails(st, Before(hist, child.ops, |child.ops| - 1), child.ops[|child.ops| - 1]);
        }
      }
    }
  }

  // ---------------------------------------------------------------------
  // The file-only hint stays at the top

  lemma {:induction false} MoveListsNotFound(st: Storager, fuel: nat, hist: Trace, sourcePath: string,
                                             destBucket: string, destPath: string, fileOnly: bool)
    ensures var ops := Move(st, fuel, hist, sourcePath, destBucket, destPath, fileOnly).ops;
            NotFoundIsListed(st, hist, ops, 1) && (!fileOnly ==> NotFoundIsListed(st, hist, ops, 0))
    decreases fuel, 0, 0
  {
    if fuel > 0 {
      var src := Trim(sourcePath);
      var dst := Trim(destPath);
      var h := hist + [Get(src)];
      var ops := Move(st, fuel, hist, sourcePath, destBucket, destPath, fileOnly).ops;
      assert Before(hist, ops, 0) == hist;
      match st.get(hist, src)
      case NotFound(_) =>
        if !fileOnly {
          var e := Expand(st, fuel - 1, h, src, destBucket, dst);
          ExpandListsNotFound(st, fuel - 1, h, src, destBucket, dst);
          NotFoundIsListedAppend(st, hist, [Get(src)], e.ops, 1);
          assert ops[1] == e.ops[0];
        }
      case LookupFailed(_) =>
      case Found(size) =>
        var t := Transfer(st, h, size, src, destBucket, dst);
        assert NotFoundIsListed(st, h, t.ops, 0);
        NotFoundIsListedAppend(st, hist, [Get(src)], t.ops, 1);
    }
  }

  lemma {:induction false} ExpandListsNotFound(st: Storager, fuel: nat, hist: Trace, src: string,
                                               destBucket: string, dst: string)
    ensures NotFoundIsListed(st, hist, Expand(st, fuel, hist, src, destBucket, dst).ops, 0)
    decreases fuel, 2, 0
  {
    match st.list(hist, src)
    case ListFailed(_) =>
    case Listed(names) =>
      if |names| > 0 {
        var h := hist + [List(src)];
        var each := MoveEach(st, fuel, h, src, destBucket, dst, names[1..]);
        MoveEachListsNotFound(st, fuel, h, src, destBucket, dst, names[1..]);
        NotFoundIsListedAppend(st, hist, [List(src)], each.ops, 0);
      }
  }

  lemma {:induction false} MoveEachListsNotFound(st: Storager, fuel: nat, hist: Trace, src: string,
                                                 destBucket: string, dst: string, names: seq<string>)
    ensures NotFoundIsListed(st, hist, MoveEach(st, fuel, hist, src, destBucket, dst, names).ops, 0)
    decreases fuel, 1, |names|
  {
    if names != [] {
      var child := MoveChild(st, fuel, hist, src, destBucket, dst, names[0]);
      MoveListsNotFound(st, fuel, hist, Join(src, names[0]), destBucket, Join(dst, names[0]), false);
      if child.outcome == Done {
        var rest := MoveEach(st, fuel, hist + child.ops, src, destBucket, dst, names[1..]);
        MoveEachListsNotFound(st, fuel, hist + child.ops, src, destBucket, dst, names[1..]);
        NotFoundIsListedAppend(st, hist, child.ops, rest.ops, 0);
      }
    }
  }

  // ---------------------------------------------------------------------
  // Every request stays below the source and destination paths

  /** Every request of `ops` touches only trimmed keys below `sRoot`, and
      every copy writes a trimmed key below `dRoot` of `destBucket`; when
      `mirrored`, every copy also writes the key at the same relative path
      as the key it reads. */
  ghost predicate Confined(st: Storager, sRoot: string, destBucket: string, dRoot: string,
                           mirrored: bool, ops: Trace) {
    forall i | 0 <= i < |ops| ::
      OpWithin(st, sRoot, destBucket, dRoot, ops[i]) && (mirrored ==> CopyMirrors(st, sRoot, dRoot, ops[i]))
  }

  lemma ConfinedAppend(st: Storager, sRoot: string, destBucket: string, dRoot: string,
                       mirrored: bool, a: Trace, b: Trace)
    requires Confined(st, sRoot, destBucket, dRoot, mirrored, a)
    requires Confined(st, sRoot, destBucket, dRoot, mirrored, b)
    ensures Confined(st, sRoot, destBucket, dRoot, mirrored, a + b)
  {
    forall i | 0 <= i < |a + b|
      ensures OpWithin(st, sRoot, destBucket, dRoot, (a + b)[i])
      ensures mirrored ==> CopyMirrors(st, sRoot, dRoot, (a + b)[i])
    {
      if i < |a| { assert (a + b)[i] == a[i]; } else { assert (a + b)[i] == b[i - |a|]; }
    }
  }

  lemma TransferConfined(st: Storager, hist: Trace, size: nat, src: string, destBucket: string,
                         dst: string, sRoot: string, dRoot: string, mirrored: bool)
    requires KeyWithin(sRoot, src) && KeyWithin(dRoot, dst)
    requires mirrored ==> Aligned(sRoot, dRoot, src, dst)
    ensures Confined(st, sRoot, destBucket, dRoot, mirrored, Transfer(st, hist, size, src, destBucket, dst).ops)
  {
    var t := Transfer(st, hist, size, src, destBucket, dst);
    SourceKeyOfCopySource(st, t.ops[0].input, src);
  }

  lemma {:induction false} MoveConfined(st: Storager, fuel: nat, hist: Trace, sourcePath: string,
                                        destBucket: string, destPath: string, fileOnly: bool,
                                        sRoot: string, dRoot: string, mirrored: bool)
    requires Under(sRoot, Trim(sourcePath)) && Under(dRoot, Trim(destPath))
    requires mirrored ==> Aligned(sRoot, dRoot, Trim(sourcePath), Trim(destPath))
    ensures Confined(st, sRoot, destBucket, dRoot, mirrored,
                     Move(st, fuel, hist, sourcePath, destBucket, destPath, fileOnly).ops)
    decreases fuel, 0, 0
  {
    if fuel > 0 {
      var src := Trim(sourcePath);
      var dst := Trim(destPath);
      var h := hist + [Get(src)];
      var ops := Move(st, fuel, hist, sourcePath, destBucket, destPath, fileOnly).ops;
      assert KeyWithin(sRoot, src) && KeyWithin(dRoot, dst);
      assert Confined(st, sRoot, destBucket, dRoot, mirrored, [Get(src)]);
      match st.get(hist, src)
      case NotFound(_) =>
        if !fileOnly {
          var e := Expand(st, fuel - 1, h, src, destBucket, dst);
          assert ops == [Get(src)] + e.ops;
          ExpandConfined(st, fuel - 1, h, src, destBucket, dst, sRoot, dRoot, mirrored);
          ConfinedAppend(st, sRoot, destBucket, dRoot, mirrored, [Get(src)], e.ops);
        } else {
          assert ops == [Get(src)];
        }
      case LookupFailed(_) =>
        assert ops == [Get(src)];
      case Found(size) =>
        var t := Transfer(st, h, size, src, destBucket, dst);
        assert ops == [Get(src)] + t.ops;
        TransferConfined(st, h, size, src, destBucket, dst, sRoot, dRoot, mirrored);
        ConfinedAppend(st, sRoot, destBucket, dRoot, mirrored, [Get(src)], t.ops);
    }
  }

  lemma {:induction false} ExpandConfined(st: Storager, fuel: nat, hist: Trace, src: string,
                                          destBucket: string, dst: string,
                                          sRoot: string, dRoot: string, mirrored: bool)
    requires KeyWithin(sRoot, src) && KeyWithin(dRoot, dst)
    requires mirrored ==> Aligned(sRoot, dRoot, src, dst)
    ensures Confined(st, sRoot, destBucket, dRoot, mirrored, Expand(st, fuel, hist, src, destBucket, dst).ops)
    decreases fuel, 2, 0
  {
    assert Confined(st, sRoot, destBucket, dRoot, mirrored, [List(src)]);
    match st.list(hist, src)
    case ListFailed(_) =>
    case Listed(names) =>
      if |names| > 0 {
        var h := hist + [List(src)];
        var each := MoveEach(st, fuel, h, src, destBucket, dst, names[1..]);
        MoveEachConfined(st, fuel, h, src, destBucket, dst, names[1..], sRoot, dRoot, mirrored);
        ConfinedAppend(st, sRoot, destBucket, dRoot, mirrored, [List(src)], each.ops);
      }
  }

  lemma {:induction false} MoveEachConfined(st: Storager, fuel: nat, hist: Trace, src: string,
                                            destBucket: string, dst: string, names: seq<string>,
                                            sRoot: string, dRoot: string, mirrored: bool)
    requires KeyWithin(sRoot, src) && KeyWithin(dRoot, dst)
    requires mirrored ==> Aligned(sRoot, dRoot, src, dst)
    ensures Confined(st, sRoot, destBucket, dRoot, mirrored,
                     MoveEach(st, fuel, hist, src, destBucket, dst, names).ops)
    decreases fuel, 1, |names|
  {
    if names != [] {
      var child := MoveChild(st, fuel, hist, src, destBucket, dst, names[0]);
      ChildUnder(sRoot, src, names[0]);
      ChildUnder(dRoot, dst, names[0]);
      if mirrored {
        ChildAligned(sRoot, dRoot, src, dst, names[0]);
      }
      MoveConfined(st, fuel, hist, Join(src, names[0]), destBucket, Join(dst, names[0]), false,
                   sRoot, dRoot, mirrored);
      if child.outcome == Done {
        var rest := MoveEach(st, fuel, hist + child.ops, src, destBucket, dst, names[1..]);
        MoveEachConfined(st, fuel, hist + child.ops, src, destBucket, dst, names[1..], sRoot, dRoot, mirrored);
        ConfinedAppend(st, sRoot, destBucket, dRoot, mirrored, child.ops, rest.ops);
      }
    }
  }

  /** A whole move stays below its own (trimmed) source and destination
      paths and writes only to `destBucket`; when both paths are empty or
      both are not, each copy writes the same relative path it reads. */
  lemma MoveStaysBelowPaths(st: Storager, fuel: nat, hist: Trace, sourcePath: string,
                            destBucket: string, destPath: string, fileOnly: bool)
    ensures var sRoot := Trim(sourcePath);
            var dRoot := Trim(destPath);
            Confined(st, sRoot, destBucket, dRoot, (sRoot == []) == (dRoot == []),
                     Move(st, fuel, hist, sourcePath, destBucket, destPath, fileOnly).ops)
  {
    var sRoot := Trim(sourcePath);
    var dRoot := Trim(destPath);
    assert Under(sRoot, sRoot) && Under(dRoot, dRoot);
    AlignedSelf(sRoot, dRoot);
    MoveConfined(st, fuel, hist, sourcePath, destBucket, destPath, fileOnly, sRoot, dRoot,
                 (sRoot == []) == (dRoot == []));
  }

  // ---------------------------------------------------------------------
  // Fuel

  /** A run that did not run out of fuel is the run of every larger fuel:
      the fuel bound changes no finished move. */
  lemma {:induction false} MoveFuelMonotone(st: Storager, fuel: nat, more: nat, hist: Trace, sourcePath: string,
                                            destBucket: string, destPath: string, fileOnly: bool)
    requires fuel <= more
    requires Move(st, fuel, hist, sourcePath, destBucket, destPath, fileOnly).outcome != OutOfFuel
    ensures Move(st, more, hist, sourcePath, destBucket, destPath, fileOnly)
         == Move(st, fuel, hist, sourcePath, destBucket, destPath, fileOnly)
    decreases fuel, 0, 0
  {
    var src := Trim(sourcePath);
    var dst := Trim(destPath);
    var h := hist + [Get(src)];
    if st.get(hist, src).NotFound? && !fileOnly {
      var e := Expand(st, fuel - 1, h, src, destBucket, dst);
      assert Move(st, fuel, hist, sourcePath, destBucket, destPath, fileOnly) == Run(e.outcome, [Get(src)] + e.ops);
      ExpandFuelMonotone(st, fuel - 1, more - 1, h, src, destBucket, dst);
      assert Move(st, more, hist, sourcePath, destBucket, destPath, fileOnly)
          == Run(e.outcome, [Get(src)] + e.ops);
    }
  }

  lemma {:induction false} ExpandFuelMonotone(st: Storager, fuel: nat, more: nat, hist: Trace, src: string,
                                              destBucket: string, dst: string)
    requires fuel <= more
    requires Expand(st, fuel, hist, src, destBucket, dst).outcome != OutOfFuel
    ensures Expand(st, more, hist, src, destBucket, dst) == Expand(st, fuel, hist, src, destBucket, dst)
    decreases fuel, 2, 0
  {
    match st.list(hist, src)
    case ListFailed(_) =>
    case Listed(names) =>
      if |names| > 0 {
        MoveEachFuelMonotone(st, fuel, more, hist + [List(src)], src, destBucket, dst, names[1..]);
      }
  }

  lemma {:induction false} MoveEachFuelMonotone(st: Storager, fuel: nat, more: nat, hist: Trace, src: string,
                                                destBucket: string, dst: string, names: seq<string>)
    requires fuel <= more
    requires MoveEach(st, fuel, hist, src, destBucket, dst, names).outcome != OutOfFuel
    ensures MoveEach(st, more, hist, src, destBucket, dst, names)
         == MoveEach(st, fuel, hist, src, destBucket, dst, names)
    decreases fuel, 1, |names|
  {
    if names != [] {
      var child := MoveChild(st, fuel, hist, src, destBucket, dst, names[0]);
      if child.outcome != OutOfFuel {
        MoveFuelMonotone(st, fuel, more, hist, Join(src, names[0]), destBucket, Join(dst, names[0]), false);
      }
      if child.outcome == Done {
        MoveEachFuelMonotone(st, fuel, more, hist + child.ops, src, destBucket, dst, names[1..]);
      }
    }
  }
}
