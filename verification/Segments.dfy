/** Splitting strings at '/' and joining them again, and substring search. */
module Segments {
  import opened Basics

  function Split(s: string): (r: seq<string>)
    ensures |r| >= 1
  {
    var i := IndexOf(s, '/');
    if i == |s| then [s] else [s[..i]] + Split(s[i + 1..])
  }

  function Join(segs: seq<string>): string
    requires |segs| >= 1
  {
    if |segs| == 1 then segs[0] else segs[0] + "/" + Join(segs[1..])
  }

  predicate NoSlash(seg: string) {
    '/' !in seg
  }

  lemma SplitWhole(s: string)
    requires NoSlash(s)
    ensures Split(s) == [s]
  {
    IndexOfUnique(s, '/', |s|);
  }

  lemma SplitFirst(seg: string, y: string)
    requires NoSlash(seg)
    ensures Split(seg + "/" + y) == [seg] + Split(y)
  {
    var s := seg + "/" + y;
    assert forall j :: 0 <= j < |seg| ==> s[j] == seg[j];
    IndexOfUnique(s, '/', |seg|);
    assert s[..|seg|] == seg && s[|seg| + 1..] == y;
  }

  /** Splitting distributes over a slash. */
  lemma {:induction false} SplitCat(x: string, y: string)
    ensures Split(x + "/" + y) == Split(x) + Split(y)
    decreases |x|
  {
    hide Split, IndexOf;
    var i := IndexOf(x, '/');
    if i == |x| {
      SplitWhole(x);
      SplitFirst(x, y);
    } else {
      var seg, x' := x[..i], x[i + 1..];
      assert x == seg + "/" + x';
      assert x + "/" + y == seg + "/" + (x' + "/" + y);
      SplitFirst(seg, x');
      SplitFirst(seg, x' + "/" + y);
      SplitCat(x', y);
      assert [seg] + (Split(x') + Split(y)) == [seg] + Split(x') + Split(y);
    }
  }

  lemma {:induction false} SplitNoSlash(s: string, k: nat)
    requires k < |Split(s)|
    ensures NoSlash(Split(s)[k])
    decreases |s|
  {
    var i := IndexOf(s, '/');
    if i < |s| && k > 0 {
      SplitNoSlash(s[i + 1..], k - 1);
    }
  }

  lemma {:induction false} JoinSplit(s: string)
    ensures Join(Split(s)) == s
    decreases |s|
  {
    hide Split, Join, IndexOf;
    SplitStep(s);
    var i := IndexOf(s, '/');
    if i == |s| {
      JoinOne(s);
    } else {
      JoinSplit(s[i + 1..]);
      JoinMore(s[..i], Split(s[i + 1..]));
      assert s == s[..i] + "/" + s[i + 1..];
    }
  }

  lemma {:induction false} SplitStep(s: string)
    ensures var i := IndexOf(s, '/'); Split(s) == if i == |s| then [s] else [s[..i]] + Split(s[i + 1..])
  {
  }

  lemma JoinOne(seg: string)
    ensures Join([seg]) == seg
  {
  }

  lemma JoinMore(seg: string, segs: seq<string>)
    requires |segs| >= 1
    ensures Join([seg] + segs) == seg + "/" + Join(segs)
  {
    assert ([seg] + segs)[1..] == segs;
  }

  lemma {:induction false} SplitJoin(segs: seq<string>)
    requires |segs| >= 1 && forall k :: 0 <= k < |segs| ==> NoSlash(segs[k])
    ensures Split(Join(segs)) == segs
  {
    if |segs| == 1 {
      SplitWhole(segs[0]);
    } else {
      SplitFirst(segs[0], Join(segs[1..]));
      SplitJoin(segs[1..]);
    }
  }

  // ---------------------------------------------------------------- characters

  ghost predicate AllOf(s: string, of: string) {
    forall c :: c in s ==> c in of
  }

  lemma {:induction false} SplitChars(s: string, k: nat)
    requires k < |Split(s)|
    ensures AllOf(Split(s)[k], s)
    decreases |s|
  {
    var i := IndexOf(s, '/');
    if i < |s| && k > 0 {
      SplitChars(s[i + 1..], k - 1);
    }
  }

  lemma {:induction false} JoinChars(segs: seq<string>, of: string)
    requires |segs| >= 1 && '/' in of && forall k :: 0 <= k < |segs| ==> AllOf(segs[k], of)
    ensures AllOf(Join(segs), of)
  {
    if |segs| > 1 {
      JoinChars(segs[1..], of);
    }
  }

  // ---------------------------------------------------------------- search

  predicate OccursAt(s: string, pat: string, i: int) {
    0 <= i && i + |pat| <= |s| && s[i..i + |pat|] == pat
  }

  ghost predicate Absent(s: string, pat: string) {
    forall i :: !OccursAt(s, pat, i)
  }

  ghost predicate AbsentBelow(s: string, pat: string, n: int) {
    forall i :: 0 <= i < n ==> !OccursAt(s, pat, i)
  }

  /** `bytes.Index`: the first occurrence. */
  function Find(s: string, pat: string): (r: Option<nat>)
    ensures r.Some? ==> r.value + |pat| <= |s| && OccursAt(s, pat, r.value) && AbsentBelow(s, pat, r.value)
    ensures r.None? ==> Absent(s, pat)
  {
    FindFrom(s, pat, 0)
  }

  function FindFrom(s: string, pat: string, i: nat): (r: Option<nat>)
    requires AbsentBelow(s, pat, i)
    ensures r.Some? ==> r.value + |pat| <= |s| && OccursAt(s, pat, r.value) && AbsentBelow(s, pat, r.value)
    ensures r.None? ==> Absent(s, pat)
    decreases |s| - i
  {
    if OccursAt(s, pat, i) then Some(i)
    else if i >= |s| then None
    else FindFrom(s, pat, i + 1)
  }

  /** `bytes.LastIndexByte`. */
  function LastSlash(s: string): (r: Option<nat>)
    ensures r.Some? ==> r.value < |s| && s[r.value] == '/' && NoSlash(s[r.value + 1..])
    ensures r.None? ==> NoSlash(s)
  {
    if s == "" then None
    else if s[|s| - 1] == '/' then Some(|s| - 1)
    else
      var r := LastSlash(s[..|s| - 1]);
      assert r.Some? ==> s[r.value + 1..] == s[..|s| - 1][r.value + 1..] + [s[|s| - 1]];
      assert s == s[..|s| - 1] + [s[|s| - 1]];
      r
  }
}
