/** Properties of request traces that `Move` keeps, and how they survive
    concatenation of two runs. Every request of a run is judged in the
    history it was issued after: the requests before the run, then the
    run's own earlier requests. */
module TraceFacts {
  import opened Paths
  import opened ObjectStore

  /** The history request `i` of `ops` was issued after. */
  function Before(hist: Trace, ops: Trace, i: nat): Trace
    requires i <= |ops|
  {
    hist + ops[..i]
  }

  /** A non-empty sequence is its front followed by its last element, and
      the front keeps every earlier element and prefix. */
  lemma SplitLast<T>(s: seq<T>)
    requires s != []
    ensures s == s[..|s| - 1] + [s[|s| - 1]]
    ensures forall k | 0 <= k < |s| - 1 :: s[..|s| - 1][..k] == s[..k] && s[..|s| - 1][k] == s[k]
  {
  }

  /** Histories inside a concatenation of two runs. */
  lemma BeforeAppend(hist: Trace, a: Trace, b: Trace, i: nat)
    requires i <= |a| + |b|
    ensures i <= |a| ==> Before(hist, a + b, i) == Before(hist, a, i)
    ensures |a| <= i ==> Before(hist, a + b, i) == Before(hist + a, b, i - |a|)
  {
    if i <= |a| {
      assert (a + b)[..i] == a[..i];
    }
    if |a| <= i {
      assert (a + b)[..i] == a + b[..i - |a|];
    }
  }

  /** `op` copies `key` of the storager's bucket. */
  predicate CopiesFrom(st: Storager, op: Op, key: string) {
    op.IsCopy() && op.input.copySource == CopySource(st.bucket, key)
  }

  /** Every delete is issued right after a copy of the same key that the
      store accepted. */
  ghost predicate DeletesFollowCopies(st: Storager, hist: Trace, ops: Trace) {
    forall i | 0 <= i < |ops| && ops[i].Delete? ::
      && 1 <= i
      && CopiesFrom(st, ops[i - 1], ops[i].key)
      && !Fails(st, Before(hist, ops, i - 1), ops[i - 1])
  }

  lemma DeletesFollowCopiesAppend(st: Storager, hist: Trace, a: Trace, b: Trace)
    requires DeletesFollowCopies(st, hist, a)
    requires DeletesFollowCopies(st, hist + a, b)
    ensures DeletesFollowCopies(st, hist, a + b)
  {
    var ab := a + b;
    forall i | 0 <= i < |ab| && ab[i].Delete?
      ensures 1 <= i && CopiesFrom(st, ab[i - 1], ab[i].key)
      ensures !Fails(st, Before(hist, ab, i - 1), ab[i - 1])
    {
      if i < |a| {
        assert ab[i] == a[i] && ab[i - 1] == a[i - 1];
        BeforeAppend(hist, a, b, i - 1);
      } else {
        var j := i - |a|;
        assert ab[i] == b[j];
        assert 1 <= j;
        assert ab[i - 1] == b[j - 1];
        BeforeAppend(hist, a, b, i - 1);
      }
    }
  }

  /** None of the first `n` requests of `ops` was answered with an error. */
  ghost predicate NoFailureBefore(st: Storager, hist: Trace, ops: Trace, n: int) {
    forall i | 0 <= i < |ops| && i < n :: !Fails(st, Before(hist, ops, i), ops[i])
  }

  lemma NoFailureAppend(st: Storager, hist: Trace, a: Trace, b: Trace, n: int)
    requires NoFailureBefore(st, hist, a, |a|)
    requires NoFailureBefore(st, hist + a, b, n)
    ensures NoFailureBefore(st, hist, a + b, |a| + n)
  {
    var ab := a + b;
    forall i | 0 <= i < |ab| && i < |a| + n
      ensures !Fails(st, Before(hist, ab, i), ab[i])
    {
      BeforeAppend(hist, a, b, i);
      if i < |a| {
        assert ab[i] == a[i];
      } else {
        assert ab[i] == b[i - |a|];
      }
    }
  }

  /** The last request of `ops` was answered with an error. */
  ghost predicate LastFails(st: Storager, hist: Trace, ops: Trace) {
    ops != [] && Fails(st, Before(hist, ops, |ops| - 1), ops[|ops| - 1])
  }

  lemma LastFailsAppend(st: Storager, hist: Trace, a: Trace, b: Trace)
    ensures b != [] ==> (LastFails(st, hist, a + b) <==> LastFails(st, hist + a, b))
    ensures b == [] ==> (LastFails(st, hist, a + b) <==> LastFails(st, hist, a))
  {
    if b != [] {
      BeforeAppend(hist, a, b, |a + b| - 1);
      assert (a + b)[|a + b| - 1] == b[|b| - 1];
    } else {
      assert a + b == a;
    }
  }

  /** From request `from` on, every lookup answered NotFound is followed at
      once by a listing of the same key. */
  ghost predicate NotFoundIsListed(st: Storager, hist: Trace, ops: Trace, from: nat) {
    forall i | from <= i < |ops| && ops[i].Get? && st.get(Before(hist, ops, i), ops[i].key).NotFound? ::
      i + 1 < |ops| && ops[i + 1] == List(ops[i].key)
  }

  lemma NotFoundIsListedAppend(st: Storager, hist: Trace, a: Trace, b: Trace, from: nat)
    requires from <= |a|
    requires NotFoundIsListed(st, hist, a, from)
    requires NotFoundIsListed(st, hist + a, b, 0)
    ensures NotFoundIsListed(st, hist, a + b, from)
  {
    var ab := a + b;
    forall i | from <= i < |ab| && ab[i].Get? && st.get(Before(hist, ab, i), ab[i].key).NotFound?
      ensures i + 1 < |ab| && ab[i + 1] == List(ab[i].key)
    {
      BeforeAppend(hist, a, b, i);
      if i < |a| {
        assert ab[i] == a[i];
        assert ab[i + 1] == a[i + 1];
      } else {
        assert ab[i] == b[i - |a|];
        assert ab[i + 1] == b[i + 1 - |a|];
      }
    }
  }

  /** The key a copy request reads, for a `CopySource` of the storager's
      bucket. */
  function SourceKey(st: Storager, input: CopyInput): string {
    if CopySource(st.bucket, "") <= input.copySource
    then input.copySource[|st.bucket| + 1..]
    else input.copySource
  }

  /** `SourceKey` recovers the key a copy request was built from. */
  lemma SourceKeyOfCopySource(st: Storager, input: CopyInput, key: string)
    requires input.copySource == CopySource(st.bucket, key)
    ensures CopySource(st.bucket, "") <= input.copySource
    ensures SourceKey(st, input) == key
  {
    assert CopySource(st.bucket, key)[..|st.bucket| + 1] == CopySource(st.bucket, "");
    assert CopySource(st.bucket, key)[|st.bucket| + 1..] == key;
  }

  /** A trimmed key that is `root` or lies below it. */
  predicate KeyWithin(root: string, k: string) {
    IsTrimmed(k) && Under(root, k)
  }

  /** `op` touches only keys below `sRoot` of the storager's bucket and, for
      a copy, writes only below `dRoot` of `destBucket`. */
  predicate OpWithin(st: Storager, sRoot: string, destBucket: string, dRoot: string, op: Op) {
    match op
    case Get(k) => KeyWithin(sRoot, k)
    case List(k) => KeyWithin(sRoot, k)
    case Delete(k) => KeyWithin(sRoot, k)
    case CopyObject(input) => CopyWithin(st, sRoot, destBucket, dRoot, input)
    case MultipartCopy(input, _) => CopyWithin(st, sRoot, destBucket, dRoot, input)
  }

  predicate CopyWithin(st: Storager, sRoot: string, destBucket: string, dRoot: string, input: CopyInput) {
    && CopySource(st.bucket, "") <= input.copySource
    && KeyWithin(sRoot, SourceKey(st, input))
    && input.bucket == destBucket
    && KeyWithin(dRoot, input.key)
  }

  /** A copy request writes the key at the same path relative to `dRoot`
      as the key it reads relative to `sRoot`. */
  predicate CopyMirrors(st: Storager, sRoot: string, dRoot: string, op: Op) {
    op.IsCopy() ==>
      CopySource(st.bucket, "") <= op.input.copySource &&
      Aligned(sRoot, dRoot, SourceKey(st, op.input), op.input.key)
  }
}
