/** Shared vocabulary: optional values, results and byte strings. */
module Common {
  datatype Option<+T> = None | Some(value: T)

  datatype Result<+T, +E> = Success(value: T) | Failure(error: E)

  /** An unsigned 8-bit value. */
  type byte = x: int | 0 <= x < 256

  function Min(a: nat, b: nat): nat { if a < b then a else b }

  lemma SliceOfSlice<T>(s: seq<T>, a: nat, b: nat, c: nat, d: nat)
    requires a <= b <= |s| && c <= d <= b - a
    ensures s[a..b][c..d] == s[a + c..a + d]
  {
    forall i | 0 <= i < d - c
      ensures s[a..b][c..d][i] == s[a + c..a + d][i]
    {
      assert s[a..b][c..d][i] == s[a..b][c + i] == s[a + (c + i)];
    }
  }

  /** What begins with `a + b` begins with `a`, and then with `b`. */
  lemma PrefixSplit<T>(s: seq<T>, a: seq<T>, b: seq<T>)
    requires a + b <= s
    ensures s[..|a|] == a && b <= s[|a|..]
  {
    assert (a + b)[..|a|] == a && (a + b)[|a|..] == b;
  }
}
