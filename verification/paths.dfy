/** Path handling used by `Move`: stripping separators from both ends of a
    key (Go's `strings.Trim(p, "/")`) and appending a child name to a
    directory key (Go's `path.Join`, without `Clean`). */
module Paths {

  /** The separator `Move` strips from both ends of its paths. */
  const Sep: char := '/'

  /** Every character of `s` is the separator (true of the empty string). */
  predicate SlashesOnly(s: string) {
    forall i | 0 <= i < |s| :: s[i] == Sep
  }

  /** `s` neither starts nor ends with the separator. */
  predicate IsTrimmed(s: string) {
    s == [] || (s[0] != Sep && s[|s| - 1] != Sep)
  }

  /** `s` without its leading separators. */
  function TrimLeft(s: string): string {
    if |s| > 0 && s[0] == Sep then TrimLeft(s[1..]) else s
  }

  /** What `TrimLeft` keeps is a suffix of `s`, what it cuts off is
      separators only, and what is left does not start with one. */
  lemma {:induction false} TrimLeftCuts(s: string)
    ensures |TrimLeft(s)| <= |s| && TrimLeft(s) == s[|s| - |TrimLeft(s)|..]
    ensures SlashesOnly(s[..|s| - |TrimLeft(s)|])
    ensures TrimLeft(s) == [] || TrimLeft(s)[0] != Sep
  {
    if |s| > 0 && s[0] == Sep {
      var r := TrimLeft(s[1..]);
      TrimLeftCuts(s[1..]);
      assert s[..|s| - |r|] == [Sep] + s[1..][..|s| - 1 - |r|];
    }
  }

  /** `s` without its trailing separators. */
  function TrimRight(s: string): string {
    if |s| > 0 && s[|s| - 1] == Sep then TrimRight(s[..|s| - 1]) else s
  }

  /** What `TrimRight` keeps is a prefix of `s`, what it cuts off is
      separators only, and what is left does not end with one. */
  lemma {:induction false} TrimRightCuts(s: string)
    ensures |TrimRight(s)| <= |s| && TrimRight(s) == s[..|TrimRight(s)|]
    ensures SlashesOnly(s[|TrimRight(s)|..])
    ensures TrimRight(s) == [] || TrimRight(s)[|TrimRight(s)| - 1] != Sep
  {
    if |s| > 0 && s[|s| - 1] == Sep {
      var r := TrimRight(s[..|s| - 1]);
      TrimRightCuts(s[..|s| - 1]);
      assert s[|r|..] == s[..|s| - 1][|r|..] + [Sep];
    }
  }

  /** `strings.Trim(s, "/")`: the result has no separator at either end. */
  function Trim(s: string): (r: string)
    ensures IsTrimmed(r)
  {
    var t := TrimLeft(s);
    TrimLeftCuts(s);
    TrimRightCuts(t);
    TrimRight(t)
  }

  /** What `Trim` keeps is a slice of `s` with a run of separators cut off
      each end. */
  lemma TrimCuts(s: string) returns (k: nat)
    ensures k + |Trim(s)| <= |s| && Trim(s) == s[k..k + |Trim(s)|]
    ensures SlashesOnly(s[..k]) && SlashesOnly(s[k + |Trim(s)|..])
  {
    var t := TrimLeft(s);
    var r := TrimRight(t);
    TrimLeftCuts(s);
    TrimRightCuts(t);
    k := |s| - |t|;
    assert r == s[k..k + |r|];
    assert s[k + |r|..] == t[|r|..];
  }

  /** Cutting leading separators stops at the first other character. */
  lemma {:induction false} TrimLeftStops(a: string, x: string)
    requires SlashesOnly(a)
    requires x == [] || x[0] != Sep
    ensures TrimLeft(a + x) == x
    decreases |a|
  {
    if a != [] {
      assert (a + x)[1..] == a[1..] + x;
      TrimLeftStops(a[1..], x);
    } else {
      assert a + x == x;
    }
  }

  /** Cutting trailing separators stops at the last other character. */
  lemma {:induction false} TrimRightStops(x: string, b: string)
    requires SlashesOnly(b)
    requires x == [] || x[|x| - 1] != Sep
    ensures TrimRight(x + b) == x
    decreases |b|
  {
    if b != [] {
      assert (x + b)[..|x + b| - 1] == x + b[..|b| - 1];
      TrimRightStops(x, b[..|b| - 1]);
    } else {
      assert x + b == x;
    }
  }

  /** `Trim` is determined by its contract: whatever trimmed key is wrapped
      in runs of separators, trimming gives that key back. */
  lemma TrimUnique(a: string, t: string, b: string)
    requires SlashesOnly(a) && IsTrimmed(t) && SlashesOnly(b)
    ensures Trim(a + t + b) == t
  {
    if t == [] {
      assert a + t + b == (a + b) + [];
      assert SlashesOnly(a + b);
      TrimLeftStops(a + b, []);
    } else {
      assert a + t + b == a + (t + b);
      TrimLeftStops(a, t + b);
      TrimRightStops(t, b);
    }
  }

  /** Trimming a trimmed key changes nothing, so trimming is idempotent. */
  lemma TrimIdempotent(s: string)
    ensures IsTrimmed(s) ==> Trim(s) == s
    ensures Trim(Trim(s)) == Trim(s)
  {
    if IsTrimmed(s) {
      assert [] + s + [] == s;
      TrimUnique([], s, []);
    }
    var t := Trim(s);
    assert [] + t + [] == t;
    TrimUnique([], t, []);
  }

  /** `path.Join(dir, name)` for two elements, without `Clean`: an empty
      element is dropped, otherwise the two are joined by one separator. */
  function Join(dir: string, name: string): string {
    if dir == [] then name
    else if name == [] then dir
    else dir + [Sep] + name
  }

  /** What joining `name` below a non-empty trimmed directory adds to it,
      once the result is trimmed again. */
  function ChildSuffix(name: string): string {
    if SlashesOnly(name) then [] else [Sep] + TrimRight(name)
  }

  /** A child key is its trimmed parent followed by a suffix that depends on
      the child's name alone, and that suffix is empty or starts with the
      separator. */
  lemma TrimJoin(dir: string, name: string)
    requires IsTrimmed(dir) && dir != []
    ensures Trim(Join(dir, name)) == dir + ChildSuffix(name)
    ensures ChildSuffix(name) == [] || ChildSuffix(name)[0] == Sep
  {
    if name == [] {
      TrimJoinEmpty(dir);
    } else if SlashesOnly(name) {
      TrimJoinSlashes(dir, name);
    } else {
      TrimJoinName(dir, name);
    }
  }

  /** An empty name adds nothing to its trimmed parent. */
  lemma TrimJoinEmpty(dir: string)
    requires IsTrimmed(dir) && dir != []
    ensures Trim(Join(dir, [])) == dir + ChildSuffix([])
  {
    assert [] + dir + [] == dir;
    TrimUnique([], dir, []);
    assert dir + [] == dir;
  }

  /** A name of separators only adds nothing to its trimmed parent. */
  lemma TrimJoinSlashes(dir: string, name: string)
    requires IsTrimmed(dir) && name != [] && SlashesOnly(name)
    ensures Trim(Join(dir, name)) == dir + ChildSuffix(name)
    ensures ChildSuffix(name) == []
  {
    var b := [Sep] + name;
    assert SlashesOnly(b) by {
      forall i | 0 <= i < |b| ensures b[i] == Sep {
        if i > 0 { assert b[i] == name[i - 1]; }
      }
    }
    if dir != [] {
      assert Join(dir, name) == [] + dir + b;
      TrimUnique([], dir, b);
    } else {
      assert Join(dir, name) == name + [] + [];
      TrimUnique(name, [], []);
    }
    assert dir + [] == dir;
  }

  /** A name with some other character adds a separator and the name
      without its trailing separators. */
  lemma TrimJoinName(dir: string, name: string)
    requires IsTrimmed(dir) && dir != [] && !SlashesOnly(name)
    ensures Trim(Join(dir, name)) == dir + ChildSuffix(name)
    ensures ChildSuffix(name)[0] == Sep
  {
    var n := TrimRight(name);
    TrimAppendName(dir, name);
    assert Join(dir, name) == dir + [Sep] + name;
    assert ChildSuffix(name) == [Sep] + n;
    AppendAssoc(dir, [Sep], n);
  }

  /** Concatenation is associative. */
  lemma AppendAssoc<T>(a: seq<T>, b: seq<T>, c: seq<T>)
    ensures a + b + c == a + (b + c)
  {
  }

  /** Trimming a non-empty trimmed directory, a separator and a name with
      some other character cuts only the name's trailing separators. */
  lemma TrimAppendName(dir: string, name: string)
    requires IsTrimmed(dir) && dir != [] && !SlashesOnly(name)
    ensures Trim(dir + [Sep] + name) == dir + [Sep] + TrimRight(name)
  {
    var n := TrimRight(name);
    TrimRightCuts(name);
    var b := name[|n|..];
    TrimRightKeeps(name);
    var t := dir + [Sep] + n;
    assert IsTrimmed(t) by {
      assert t[0] == dir[0];
      assert t[|t| - 1] == n[|n| - 1];
    }
    assert dir + [Sep] + name == [] + t + b by {
      assert name == n + b;
    }
    TrimUnique([], t, b);
  }

  /** A name with some other character keeps it when trailing separators
      are cut. */
  lemma TrimRightKeeps(name: string)
    requires !SlashesOnly(name)
    ensures TrimRight(name) != []
  {
    TrimRightCuts(name);
    assert name[0..] == name;
  }

  /** `k` is `root` itself or lies below it; every key lies below "". */
  predicate Under(root: string, k: string) {
    root == [] || k == root || root + [Sep] <= k
  }

  /** Extending a key below `root` by nothing or by a separator and more
      stays below `root`. */
  lemma UnderExtend(root: string, k: string, x: string)
    requires Under(root, k)
    requires x == [] || x[0] == Sep
    ensures Under(root, k + x)
  {
    if root != [] && x != [] {
      if k == root {
        assert (k + x)[..|root| + 1] == root + [Sep];
      } else {
        assert (k + x)[..|root| + 1] == k[..|root| + 1];
      }
    } else if x == [] {
      assert k + x == k;
    }
  }

  /** Children of a key below `root` are below `root` too, and trimmed. */
  lemma ChildUnder(root: string, dir: string, name: string)
    requires IsTrimmed(dir) && Under(root, dir)
    ensures IsTrimmed(Trim(Join(dir, name)))
    ensures Under(root, Trim(Join(dir, name)))
  {
    if dir != [] {
      TrimJoin(dir, name);
      UnderExtend(root, dir, ChildSuffix(name));
    }
  }

  /** `s` and `d` lie below `sRoot` and `dRoot` at the same relative path,
      and are both empty or both non-empty. */
  predicate Aligned(sRoot: string, dRoot: string, s: string, d: string) {
    && sRoot <= s
    && dRoot <= d
    && s[|sRoot|..] == d[|dRoot|..]
    && (s == [] <==> d == [])
  }

  /** Two keys are aligned with themselves when both are empty or both
      are not. */
  lemma AlignedSelf(s: string, d: string)
    ensures (s == []) == (d == []) ==> Aligned(s, d, s, d)
  {
    assert s[|s|..] == [] == d[|d|..];
  }

  /** Appending the same suffix to two aligned non-empty keys keeps them
      aligned. */
  lemma AlignedExtend(sRoot: string, dRoot: string, s: string, d: string, x: string)
    requires Aligned(sRoot, dRoot, s, d) && s != []
    ensures Aligned(sRoot, dRoot, s + x, d + x)
  {
    assert (s + x)[|sRoot|..] == s[|sRoot|..] + x;
    assert (d + x)[|dRoot|..] == d[|dRoot|..] + x;
  }

  /** Joining the same name below two aligned keys keeps them aligned: the
      destination tree mirrors the source tree. */
  lemma ChildAligned(sRoot: string, dRoot: string, s: string, d: string, name: string)
    requires IsTrimmed(s) && IsTrimmed(d) && Aligned(sRoot, dRoot, s, d)
    ensures Aligned(sRoot, dRoot, Trim(Join(s, name)), Trim(Join(d, name)))
  {
    if s == [] {
      assert sRoot == [] && dRoot == [];
    } else {
      TrimJoin(s, name);
      TrimJoin(d, name);
      AlignedExtend(sRoot, dRoot, s, d, ChildSuffix(name));
    }
  }
}
