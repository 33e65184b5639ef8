/** Specification helpers on sequences, used by the containers' contracts. */
module Seqs {

  /** The position of the first occurrence of `x` in `s`, or -1 when `x` does
      not occur. */
  function FirstIndexOf<T(==)>(s: seq<T>, x: T): (k: int)
    ensures -1 <= k < |s|
    ensures k == -1 <==> x !in s
    ensures 0 <= k ==> s[k] == x && x !in s[..k]
  {
    if s == [] then -1
    else if s[0] == x then 0
    else
      var k := FirstIndexOf(s[1..], x);
      assert s[1..][..if k < 0 then 0 else k] == s[1..if k < 0 then 1 else k + 1];
      if k == -1 then -1 else k + 1
  }

  /** The position of the last occurrence of `x` in `s`, or -1 when `x` does
      not occur. */
  function LastIndexOf<T(==)>(s: seq<T>, x: T): (k: int)
    ensures -1 <= k < |s|
    ensures k == -1 <==> x !in s
    ensures 0 <= k ==> s[k] == x && x !in s[k + 1..]
  {
    if s == [] then -1
    else if s[|s| - 1] == x then |s| - 1
    else
      var k := LastIndexOf(s[..|s| - 1], x);
      assert s[..|s| - 1][k + 1..] + [s[|s| - 1]] == s[k + 1..];
      k
  }

  /** `s` in the opposite order. */
  function Reverse<T>(s: seq<T>): (r: seq<T>)
    ensures |r| == |s|
    ensures forall i :: 0 <= i < |s| ==> r[i] == s[|s| - 1 - i]
  {
    if s == [] then [] else Reverse(s[1..]) + [s[0]]
  }

  /** No element occurs twice. */
  predicate NoDuplicates<T(==)>(s: seq<T>) {
    forall i, j :: 0 <= i < j < |s| ==> s[i] != s[j]
  }

  /** Inserting an element that does not occur keeps the elements distinct. */
  lemma InsertKeepsDistinct<T>(s: seq<T>, k: nat, x: T)
    requires k <= |s| && NoDuplicates(s) && x !in s
    ensures NoDuplicates(s[..k] + [x] + s[k..])
  {
    var r := s[..k] + [x] + s[k..];
    forall i, j | 0 <= i < j < |r|
      ensures r[i] != r[j]
    {
      if i != k && j != k {
        assert r[i] == s[if i < k then i else i - 1];
        assert r[j] == s[if j < k then j else j - 1];
      } else if i == k {
        assert r[j] == s[j - 1];
      } else {
        assert r[i] == s[i];
      }
    }
  }

  /** Removing an element keeps the elements distinct. */
  lemma RemoveKeepsDistinct<T>(s: seq<T>, k: nat)
    requires k < |s| && NoDuplicates(s)
    ensures NoDuplicates(s[..k] + s[k + 1..])
  {
    var r := s[..k] + s[k + 1..];
    forall i, j | 0 <= i < j < |r|
      ensures r[i] != r[j]
    {
      assert r[i] == s[if i < k then i else i + 1];
      assert r[j] == s[if j < k then j else j + 1];
    }
  }
}
