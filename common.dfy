/** Option and Result, the two failure-carrying wrappers the model uses for Go's
    `(value, ok)` and `(value, error)` returns. */
module Common {

  datatype Option<+T> = None | Some(value: T)

  /** A Go `(value, error)` pair: exactly one of the two is meaningful. */
  datatype Result<+T, +E> = Success(value: T) | Failure(error: E)

  /** A Go `error` return with no value beside it: nil, or an error. */
  datatype Outcome<+E> = Pass | Fail(error: E)

  /** A suffix of a sequence, split at its first element. */
  lemma SuffixCons<T>(s: seq<T>, k: nat)
    requires k < |s|
    ensures s[k..] == [s[k]] + s[k + 1..]
  {
  }

  /** A slice, split at its first element. */
  lemma SliceCons<T>(s: seq<T>, i: nat, f: nat)
    requires i < f <= |s|
    ensures s[i..f] == [s[i]] + s[i + 1..f]
  {
  }

  /** A sequence is its prefix followed by its suffix. */
  lemma PrefixSuffix<T>(s: seq<T>, k: nat)
    requires k <= |s|
    ensures s == s[..k] + s[k..]
  {
  }

  /** A longer prefix: the shorter one and one more element. */
  lemma PrefixSnoc<T>(s: seq<T>, k: nat)
    requires k < |s|
    ensures s[..k + 1] == s[..k] + [s[k]]
  {
  }

  lemma AppendAssoc<T>(a: seq<T>, b: seq<T>, c: seq<T>)
    ensures (a + b) + c == a + (b + c)
  {
  }

  lemma AppendEmpty<T>(s: seq<T>)
    ensures s + [] == s && [] + s == s
  {
  }

  /** Head and tail of a concatenation whose left part is not empty. */
  lemma AppendHead<T>(a: seq<T>, b: seq<T>)
    requires a != []
    ensures (a + b)[0] == a[0] && (a + b)[1..] == a[1..] + b
  {
  }

  lemma PrefixEnds<T>(s: seq<T>)
    ensures s[..0] == [] && s[..|s|] == s
  {
  }

  /** A slice cut at four inner points. */
  lemma Slices5<T>(s: seq<T>, a: nat, b: nat, c: nat, d: nat, e: nat, f: nat)
    requires a <= b <= c <= d <= e <= f <= |s|
    ensures s[a..f] == s[a..b] + s[b..c] + s[c..d] + s[d..e] + s[e..f]
  {
    assert s[a..f] == s[a..b] + s[b..f];
    assert s[b..f] == s[b..c] + s[c..f];
    assert s[c..f] == s[c..d] + s[d..f];
    assert s[d..f] == s[d..e] + s[e..f];
  }
}
