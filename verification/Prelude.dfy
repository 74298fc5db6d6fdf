/** What several modules share. */
module Prelude {

  type byte = bv8

  /** An address that `uint32_t` can hold. */
  type Address = a: nat | a < 0x1_0000_0000

  datatype Option<+T> = None | Some(value: T)

  ghost predicate Distinct<T>(s: seq<T>) {
    forall i, j | 0 <= i < j < |s| :: s[i] != s[j]
  }

  /** s without the element at place k. */
  function Without<T>(s: seq<T>, k: nat): (r: seq<T>)
    requires k < |s|
    ensures forall x | x in r :: x in s
    ensures forall i | 0 <= i < |s| && i != k :: s[i] in r
    ensures Distinct(s) ==> Distinct(r) && s[k] !in r
  {
    assert forall i | 0 <= i < |s| && i != k :: (s[..k] + s[k + 1 ..])[if i < k then i else i - 1] == s[i];
    s[..k] + s[k + 1 ..]
  }

  lemma WithoutAt<T>(s: seq<T>, k: nat, i: nat)
    requires k < |s|
    ensures |Without(s, k)| == |s| - 1
    ensures i < |s| - 1 ==> Without(s, k)[i] == s[if i < k then i else i + 1]
  {
  }

  lemma SuffixesAgree<T>(s: seq<T>, t: seq<T>, a: nat, b: nat)
    requires |s| == |t| && a <= b <= |s| && s[a..] == t[a..]
    ensures s[b..] == t[b..]
  {
    assert s[b..] == s[a..][b - a..] && t[b..] == t[a..][b - a..];
  }

  ghost predicate Increasing(s: seq<nat>) {
    forall i, j | 0 <= i < j < |s| :: s[i] < s[j]
  }
}
