/** Shared vocabulary: optional values and first-occurrence search in sequences. */
module Basics {

  datatype Option<+T> = None | Some(value: T)

  /** Index of the first occurrence of `x`, or `|s|` when there is none. */
  function IndexOf<T(==)>(s: seq<T>, x: T): (i: nat)
    ensures i <= |s|
    ensures forall j :: 0 <= j < i ==> s[j] != x
    ensures i < |s| ==> s[i] == x
  {
    IndexFrom(s, x, 0)
  }

  /** The search from position `k` on. */
  function IndexFrom<T(==)>(s: seq<T>, x: T, k: nat): (i: nat)
    requires k <= |s| && forall j :: 0 <= j < k ==> s[j] != x
    ensures i <= |s|
    ensures forall j :: 0 <= j < i ==> s[j] != x
    ensures i < |s| ==> s[i] == x
    decreases |s| - k
  {
    if k == |s| || s[k] == x then k else IndexFrom(s, x, k + 1)
  }

  /** The contract of `IndexOf` determines its value. */
  lemma IndexOfUnique<T>(s: seq<T>, x: T, i: nat)
    requires i <= |s|
    requires forall j :: 0 <= j < i ==> s[j] != x
    requires i < |s| ==> s[i] == x
    ensures IndexOf(s, x) == i
  {
    var k := IndexOf(s, x);
    assert k < |s| ==> s[k] == x;
    assert i < |s| ==> s[i] == x;
  }

  /** How often `x` occurs in `s`. */
  function Times<T(==)>(s: seq<T>, x: T): nat {
    if s == [] then 0 else Times(s[..|s| - 1], x) + (if s[|s| - 1] == x then 1 else 0)
  }

  lemma TimesSnoc<T>(s: seq<T>, y: T, x: T)
    ensures Times(s + [y], x) == Times(s, x) + if y == x then 1 else 0
  {
    assert (s + [y])[..|s|] == s;
  }

  lemma {:induction false} TimesSplit<T>(s: seq<T>, n: nat, x: T)
    requires n <= |s|
    ensures Times(s, x) == Times(s[..n], x) + Times(s[n..], x)
  {
    if n == |s| {
      assert s[..n] == s;
    } else {
      var m := |s| - 1;
      TimesSplit(s[..m], n, x);
      assert s[..m][..n] == s[..n] && s[..m][n..] == s[n..m];
      assert s[n..][..m - n] == s[n..m];
    }
  }

  lemma {:induction false} TimesMember<T>(s: seq<T>, x: T)
    ensures x in s <==> Times(s, x) > 0
  {
    if s != [] {
      TimesMember(s[..|s| - 1], x);
      assert s == s[..|s| - 1] + [s[|s| - 1]];
    }
  }
}
