/** Python list behaviour the modelled code relies on: positional indexing
    (negative indices count from the end), `list.remove`, `list.pop()` and
    the `[:-1]` slice; and the subsequence relation used to state that a
    filtered list keeps its order. */
module Lists {
  import opened Wrappers

  /** `xs[idx]` for a Python list, and `.iloc[idx]` for a pandas column:
      `-len <= idx < len` is accepted, negative indices count from the end,
      anything else raises IndexError. */
  function Index<T>(xs: seq<T>, idx: int): (r: Result<T>)
    ensures r.Success? <==> -|xs| <= idx < |xs|
    ensures r.Failure? ==> r.error == IndexError
    ensures 0 <= idx < |xs| ==> r == Success(xs[idx])
    ensures -|xs| <= idx < 0 ==> r == Success(xs[|xs| + idx])
  {
    if 0 <= idx < |xs| then Success(xs[idx])
    else if -|xs| <= idx < 0 then Success(xs[|xs| + idx])
    else Failure(IndexError)
  }

  /** `xs[:-1]`: everything but the last element (empty stays empty). */
  function DropLast<T>(xs: seq<T>): (r: seq<T>)
    ensures |r| == if |xs| == 0 then 0 else |xs| - 1
    ensures forall k :: 0 <= k < |r| ==> r[k] == xs[k]
  {
    if |xs| == 0 then [] else xs[..|xs| - 1]
  }

  /** The value `xs.pop()` returns: the last element, or IndexError on an
      empty list. */
  function Pop<T>(xs: seq<T>): (r: Result<T>)
    ensures r.Success? <==> |xs| > 0
    ensures r.Failure? ==> r.error == IndexError
    ensures r.Success? ==> r.value == xs[|xs| - 1]
  {
    if |xs| == 0 then Failure(IndexError) else Success(xs[|xs| - 1])
  }

  /** The list `xs.remove(x)` leaves behind: the first occurrence of `x` is
      deleted; ValueError when `x` does not occur. */
  function Remove<T(==)>(xs: seq<T>, x: T): (r: Result<seq<T>>)
    ensures r.Success? <==> x in xs
    ensures r.Failure? ==> r.error == ValueError
    ensures r.Success? ==> |r.value| == |xs| - 1
  {
    if |xs| == 0 then Failure(ValueError)
    else if xs[0] == x then
      assert xs == [x] + xs[1..];
      Success(xs[1..])
    else
      var rest := Remove(xs[1..], x);
      if rest.Failure? then rest
      else
        assert xs == [xs[0]] + xs[1..];
        Success([xs[0]] + rest.value)
  }

  /** Removing an element skips a prefix it does not occur in and deletes
      its first occurrence after that prefix. */
  lemma {:induction false} RemoveAfter<T>(a: seq<T>, x: T, b: seq<T>)
    requires x !in a
    ensures Remove(a + [x] + b, x) == Success(a + b)
  {
    var xs := a + [x] + b;
    if |a| == 0 {
      assert xs == [x] + b;
      assert xs[0] == x;
      assert xs[1..] == b;
      assert a + b == b;
    } else {
      assert xs[0] == a[0] != x;
      assert xs[1..] == a[1..] + [x] + b;
      RemoveAfter(a[1..], x, b);
      assert Remove(xs[1..], x) == Success(a[1..] + b);
      assert a + b == [a[0]] + (a[1..] + b);
    }
  }

  /** Sequence concatenation regroups freely. */
  lemma AppendAssoc<T>(a: seq<T>, b: seq<T>, c: seq<T>)
    ensures a + (b + c) == a + b + c
  {
  }

  /** A prefix agrees with the sequence on its positions. */
  lemma TakeAt<T>(s: seq<T>, n: nat)
    requires n <= |s|
    ensures forall k :: 0 <= k < n ==> s[..n][k] == s[k]
  {
  }

  /** A non-empty sequence is its front followed by its last element. */
  lemma SplitLast<T>(s: seq<T>)
    requires |s| > 0
    ensures s == s[..|s| - 1] + [s[|s| - 1]]
  {
  }

  /** A prefix one longer is the shorter prefix and the next element. */
  lemma TakeSnoc<T>(s: seq<T>, i: nat)
    requires i < |s|
    ensures s[..i + 1] == s[..i] + [s[i]]
  {
  }

  /** `a` is obtained from `b` by deleting elements, keeping the order. */
  predicate IsSubseq<T(==)>(a: seq<T>, b: seq<T>)
    decreases |b|
  {
    |a| == 0 ||
    (|b| > 0 &&
     ((a[0] == b[0] && IsSubseq(a[1..], b[1..])) || IsSubseq(a, b[1..])))
  }

  /** Dropping the head of `b` keeps a subsequence a subsequence. */
  lemma SubseqSkip<T>(a: seq<T>, x: T, b: seq<T>)
    requires IsSubseq(a, b)
    ensures IsSubseq(a, [x] + b)
  {
    assert ([x] + b)[1..] == b;
  }

  /** Keeping the head of `b` on both sides keeps a subsequence. */
  lemma SubseqKeep<T>(a: seq<T>, x: T, b: seq<T>)
    requires IsSubseq(a, b)
    ensures IsSubseq([x] + a, [x] + b)
  {
    assert ([x] + a)[1..] == a;
    assert ([x] + b)[1..] == b;
  }
}
