/**
 * The numpy indexing operations the bookkeeping code is built from:
 * `np.arange`, integer-array ("fancy") indexing, boolean-mask indexing,
 * `~mask` and `np.isin`.  `Interleaves` is the reference notion of an
 * order-preserving partition: a boolean mask and its negation split an
 * array into two subsequences that together rebuild it.
 */
module ArrayOps {

  /** Length of `np.arange(0, n)`: a negative n gives an empty range. */
  function Clamp(n: int): nat
  {
    if n < 0 then 0 else n
  }

  /** `np.arange(0, n)`: 0, 1, ..., n-1. */
  function Arange(n: int): (r: seq<int>)
    ensures |r| == Clamp(n)
    ensures forall j :: 0 <= j < |r| ==> r[j] == j
  {
    seq(Clamp(n), j => j)
  }

  /** Every index lies in [0, n). */
  ghost predicate InBounds(idx: seq<int>, n: int)
  {
    forall j :: 0 <= j < |idx| ==> 0 <= idx[j] < n
  }

  /** Integer-array indexing `x[idx]` (and `iloc[idx]`): entry j is `x[idx[j]]`. */
  function Take<T>(x: seq<T>, idx: seq<int>): (r: seq<T>)
    requires InBounds(idx, |x|)
    ensures |r| == |idx|
    ensures forall j :: 0 <= j < |idx| ==> r[j] == x[idx[j]]
  {
    seq(|idx|, j requires 0 <= j < |idx| => x[idx[j]])
  }

  /** `~m`. */
  function Not(m: seq<bool>): (r: seq<bool>)
    ensures |r| == |m|
    ensures forall j :: 0 <= j < |m| ==> r[j] == !m[j]
  {
    seq(|m|, j requires 0 <= j < |m| => !m[j])
  }

  /** `np.isin(s, vals)`: entry j tells whether `s[j]` occurs in `vals`. */
  function IsIn<T(==)>(s: seq<T>, vals: seq<T>): (r: seq<bool>)
    ensures |r| == |s|
    ensures forall j :: 0 <= j < |s| ==> r[j] == (s[j] in vals)
  {
    seq(|s|, j requires 0 <= j < |s| => s[j] in vals)
  }

  /** Boolean-mask indexing `s[m]`: the entries whose mask bit is set, in order. */
  function Compress<T>(s: seq<T>, m: seq<bool>): seq<T>
    requires |m| == |s|
    decreases |s|
  {
    if s == [] then [] else (if m[0] then [s[0]] else []) + Compress(s[1..], m[1..])
  }

  /**
   * `s` is an order-preserving merge of `a` and `b`: every entry of `s` is
   * taken, in turn, from the front of `a` or of `b`, and nothing is left over.
   */
  ghost predicate Interleaves<T>(s: seq<T>, a: seq<T>, b: seq<T>)
    decreases |s|
  {
    if s == [] then a == [] && b == []
    else
      || (a != [] && a[0] == s[0] && Interleaves(s[1..], a[1..], b))
      || (b != [] && b[0] == s[0] && Interleaves(s[1..], a, b[1..]))
  }

  /** Taking the identity range gives the array back. */
  lemma TakeArange<T>(x: seq<T>)
    ensures Take(x, Arange(|x|)) == x
  {
  }

  /** A mask and its negation split an array into an order-preserving partition. */
  lemma {:induction false} CompressInterleaves<T>(s: seq<T>, m: seq<bool>)
    requires |m| == |s|
    ensures Interleaves(s, Compress(s, m), Compress(s, Not(m)))
    decreases |s|
  {
    if s != [] {
      assert Not(m)[1..] == Not(m[1..]);
      CompressInterleaves(s[1..], m[1..]);
      var a, b := Compress(s, m), Compress(s, Not(m));
      if m[0] {
        assert a == [s[0]] + Compress(s[1..], m[1..]);
        assert a[1..] == Compress(s[1..], m[1..]);
        assert b == Compress(s[1..], Not(m)[1..]);
      } else {
        assert a == Compress(s[1..], m[1..]);
        assert b == [s[0]] + Compress(s[1..], Not(m)[1..]);
        assert b[1..] == Compress(s[1..], Not(m)[1..]);
      }
    }
  }

  /** An order-preserving partition keeps every entry exactly once. */
  lemma {:induction false} InterleavesCounts<T>(s: seq<T>, a: seq<T>, b: seq<T>)
    requires Interleaves(s, a, b)
    ensures |s| == |a| + |b|
    ensures multiset(s) == multiset(a) + multiset(b)
    decreases |s|
  {
    if s != [] {
      assert s == [s[0]] + s[1..];
      if a != [] && a[0] == s[0] && Interleaves(s[1..], a[1..], b) {
        InterleavesCounts(s[1..], a[1..], b);
        assert a == [a[0]] + a[1..];
      } else {
        InterleavesCounts(s[1..], a, b[1..]);
        assert b == [b[0]] + b[1..];
      }
    }
  }

  /** An entry survives the mask exactly when some position holding it has its bit set. */
  lemma {:induction false} CompressMember<T>(s: seq<T>, m: seq<bool>, x: T)
    requires |m| == |s|
    ensures x in Compress(s, m) <==> exists j :: 0 <= j < |s| && s[j] == x && m[j]
    decreases |s|
  {
    if s != [] {
      CompressMember(s[1..], m[1..], x);
      if exists j :: 0 <= j < |s| && s[j] == x && m[j] {
        var j :| 0 <= j < |s| && s[j] == x && m[j];
        if j > 0 {
          assert s[1..][j - 1] == x && m[1..][j - 1];
        }
      }
      if x in Compress(s[1..], m[1..]) {
        var j :| 0 <= j < |s[1..]| && s[1..][j] == x && m[1..][j];
        assert s[j + 1] == x && m[j + 1];
      }
    }
  }
}
