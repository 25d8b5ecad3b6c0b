/** Byte strings and their lexicographic order (Go's bytes.Compare), shared by the trie,
    the range code and the fuzz helpers. */
module Bytes {

  /** Go's byte (uint8). */
  newtype byte = x: int | 0 <= x < 0x100

  /** Go's bytes.Compare: -1, 0 or +1 as a is lexicographically below, equal to or above b.
      A strict prefix is below every extension of itself. */
  function Compare(a: seq<byte>, b: seq<byte>): (r: int)
    ensures -1 <= r <= 1
    ensures r == 0 <==> a == b
  {
    if a == [] then (if b == [] then 0 else -1)
    else if b == [] then 1
    else if a[0] < b[0] then -1
    else if a[0] > b[0] then 1
    else Compare(a[1..], b[1..])
  }

  /** p is a prefix of k (possibly all of k). */
  predicate IsPrefix(p: seq<byte>, k: seq<byte>)
  {
    |p| <= |k| && k[..|p|] == p
  }

  lemma PrefixReflexive(k: seq<byte>)
    ensures IsPrefix(k, k)
  {
    assert k[..|k|] == k;
  }

  predicate Less(a: seq<byte>, b: seq<byte>)
  {
    Compare(a, b) < 0
  }

  /** Every element of s is strictly below every later one. */
  predicate StrictlyAscending(s: seq<seq<byte>>)
  {
    forall i, j :: 0 <= i < j < |s| ==> Less(s[i], s[j])
  }

  /** Swapping the arguments negates the comparison. */
  lemma {:induction false} CompareAntisymmetric(a: seq<byte>, b: seq<byte>)
    ensures Compare(b, a) == -Compare(a, b)
  {
    if a != [] && b != [] && a[0] == b[0] {
      CompareAntisymmetric(a[1..], b[1..]);
    }
  }

  /** A strict prefix is below its extensions. */
  lemma {:induction false} PrefixIsLess(a: seq<byte>, b: seq<byte>)
    requires |a| < |b| && b[..|a|] == a
    ensures Less(a, b)
  {
    if a != [] {
      assert b[0] == a[0];
      assert b[1..][..|a| - 1] == a[1..];
      PrefixIsLess(a[1..], b[1..]);
    }
  }

  /** Two strings that agree up to n and then differ are ordered by their bytes at n. */
  lemma {:induction false} FirstDifference(a: seq<byte>, b: seq<byte>, n: nat)
    requires n < |a| && n < |b| && a[..n] == b[..n] && a[n] < b[n]
    ensures Less(a, b)
  {
    if n > 0 {
      assert a[0] == a[..n][0] == b[..n][0] == b[0];
      assert a[1..][..n - 1] == a[..n][1..] == b[..n][1..] == b[1..][..n - 1];
      FirstDifference(a[1..], b[1..], n - 1);
    }
  }

  /** Comparison is transitive on the strict order. */
  lemma {:induction false} LessTransitive(a: seq<byte>, b: seq<byte>, c: seq<byte>)
    requires Less(a, b) && Less(b, c)
    ensures Less(a, c)
  {
    if a != [] && b != [] && c != [] && a[0] == b[0] == c[0] {
      LessTransitive(a[1..], b[1..], c[1..]);
    }
  }

  /** k + [0] is the least string strictly above k: nothing lies strictly between them. */
  lemma {:induction false} PadIsSuccessor(k: seq<byte>, x: seq<byte>)
    ensures Less(k, k + [0])
    ensures Less(k, x) ==> !Less(x, k + [0])
  {
    PrefixIsLess(k, k + [0]);
    if k == [] {
      if x != [] {
        assert [0][1..] == [] && Compare(x[1..], []) >= 0;
      }
    } else if x != [] {
      assert (k + [0])[0] == k[0] && (k + [0])[1..] == k[1..] + [0];
      PadIsSuccessor(k[1..], x[1..]);
    }
  }

  /** Two strictly ascending sequences, every element of the first below every element of
      the second, concatenate to a strictly ascending one. */
  lemma AscendingConcat(a: seq<seq<byte>>, b: seq<seq<byte>>)
    requires StrictlyAscending(a) && StrictlyAscending(b)
    requires forall x, y | x in a && y in b :: Less(x, y)
    ensures StrictlyAscending(a + b)
  {
    var s := a + b;
    forall i, j | 0 <= i < j < |s|
      ensures Less(s[i], s[j])
    {
      if j < |a| {
        assert s[i] == a[i] && s[j] == a[j];
      } else if i >= |a| {
        assert s[i] == b[i - |a|] && s[j] == b[j - |a|];
      } else {
        assert s[i] == a[i] && s[j] == b[j - |a|];
      }
    }
  }
}
