/** What normalising a path means: its segments folded on a stack (compare section 5.2.4 of
    RFC 3986). "." and empty segments vanish, ".." removes the segment before it; after a final ".."
    the path ends in a slash; a final "." is kept (fasthttp/uri.go, `normalizePath`). */
module PathFold {
  import opened Basics
  import opened Segments

  function Pop(stack: seq<string>): seq<string> {
    if stack == [] then [] else stack[..|stack| - 1]
  }

  /** A segment that is followed by a slash. */
  function Step(stack: seq<string>, seg: string): seq<string> {
    if seg == "" || seg == "." then stack
    else if seg == ".." then Pop(stack)
    else stack + [seg]
  }

  function Inner(stack: seq<string>, segs: seq<string>): seq<string>
    decreases |segs|
  {
    if segs == [] then stack else Inner(Step(stack, segs[0]), segs[1..])
  }

  /** The last segment. */
  function Final(stack: seq<string>, seg: string): (r: seq<string>)
    ensures |r| >= 1
  {
    if seg == ".." then Pop(stack) + [""] else stack + [seg]
  }

  function Folded(segs: seq<string>): (r: seq<string>)
    requires |segs| >= 1
    ensures |r| >= 1
  {
    Final(Inner([], segs[..|segs| - 1]), segs[|segs| - 1])
  }

  predicate Rooted(s: string) {
    s != "" && s[0] == '/'
  }

  function SegmentsOf(s: string): (r: seq<string>)
    requires Rooted(s)
    ensures |r| >= 1
  {
    Split(s[1..])
  }

  /** The normal form of a rooted path. */
  function Normal(s: string): (r: string)
    requires Rooted(s)
    ensures Rooted(r)
  {
    "/" + Join(Folded(SegmentsOf(s)))
  }

  // ---------------------------------------------------------------- folding

  lemma {:induction false} InnerCat(stack: seq<string>, a: seq<string>, b: seq<string>)
    ensures Inner(stack, a + b) == Inner(Inner(stack, a), b)
    decreases |a|
  {
    if a == [] {
      assert a + b == b;
    } else {
      assert (a + b)[1..] == a[1..] + b;
      InnerCat(Step(stack, a[0]), a[1..], b);
    }
  }

  lemma FoldedCat(a: seq<string>, b: seq<string>)
    requires |b| >= 1
    ensures Folded(a + b) == Final(Inner(Inner([], a), b[..|b| - 1]), b[|b| - 1])
  {
    hide Inner, Final;
    var s := a + b;
    assert s[..|s| - 1] == a + b[..|b| - 1] && s[|s| - 1] == b[|b| - 1];
    InnerCat([], a, b[..|b| - 1]);
  }

  /** Segments without effect: dropping a run of interior segments that leaves the stack alone. */
  lemma FoldedDrop(a: seq<string>, x: seq<string>, b: seq<string>)
    requires |b| >= 1 && Inner(Inner([], a), x) == Inner([], a)
    ensures Folded(a + x + b) == Folded(a + b)
  {
    InnerCat([], a, x);
    FoldedCat(a + x, b);
    FoldedCat(a, b);
  }

  predicate Plain(seg: string) {
    seg != "" && seg != "." && seg != ".." && NoSlash(seg)
  }

  lemma InnerOne(stack: seq<string>, seg: string)
    ensures Inner(stack, [seg]) == Step(stack, seg)
  {
    assert [seg][1..] == [];
  }

  lemma InnerCancel(stack: seq<string>, seg: string)
    requires Plain(seg)
    ensures Inner(stack, [seg, ".."]) == stack
  {
    assert [seg, ".."][1..] == [".."];
    InnerOne(stack + [seg], "..");
  }

  /** Folding keeps plain segments as they are. */
  lemma {:induction false} InnerPlain(stack: seq<string>, segs: seq<string>)
    requires forall k :: 0 <= k < |segs| ==> Plain(segs[k])
    ensures Inner(stack, segs) == stack + segs
    decreases |segs|
  {
    if segs != [] {
      InnerPlain(stack + [segs[0]], segs[1..]);
      assert stack + segs == stack + [segs[0]] + segs[1..];
    }
  }

  lemma {:induction false} InnerIsPlain(stack: seq<string>, segs: seq<string>)
    requires forall k :: 0 <= k < |stack| ==> Plain(stack[k])
    requires forall k :: 0 <= k < |segs| ==> NoSlash(segs[k])
    ensures forall k :: 0 <= k < |Inner(stack, segs)| ==> Plain(Inner(stack, segs)[k])
    decreases |segs|
  {
    if segs != [] {
      InnerIsPlain(Step(stack, segs[0]), segs[1..]);
    }
  }

  /** A folded path: plain segments, then anything but "..". */
  ghost predicate Settled(segs: seq<string>)
    requires |segs| >= 1
  {
    && (forall k :: 0 <= k < |segs| - 1 ==> Plain(segs[k]))
    && segs[|segs| - 1] != ".." && NoSlash(segs[|segs| - 1])
  }

  lemma FoldedSettled(segs: seq<string>)
    requires |segs| >= 1 && forall k :: 0 <= k < |segs| ==> NoSlash(segs[k])
    ensures Settled(Folded(segs))
  {
    InnerIsPlain([], segs[..|segs| - 1]);
  }

  lemma SettledFolds(segs: seq<string>)
    requires |segs| >= 1 && Settled(segs)
    ensures Folded(segs) == segs
  {
    InnerPlain([], segs[..|segs| - 1]);
    assert [] + segs[..|segs| - 1] == segs[..|segs| - 1];
    assert segs == segs[..|segs| - 1] + [segs[|segs| - 1]];
  }

  /** The segments of the normal form are the folded segments. */
  lemma NormalSegments(s: string)
    requires Rooted(s)
    ensures SegmentsOf(Normal(s)) == Folded(SegmentsOf(s)) && Settled(Folded(SegmentsOf(s)))
  {
    hide Split, Folded, Join;
    var segs := SegmentsOf(s);
    forall k | 0 <= k < |segs|
      ensures NoSlash(segs[k])
    {
      SplitNoSlash(s[1..], k);
    }
    FoldedSettled(segs);
    var f := Folded(segs);
    SplitJoin(f);
    assert Normal(s)[1..] == Join(f);
  }

  /** Normalising twice is normalising once. */
  lemma NormalIdempotent(s: string)
    requires Rooted(s)
    ensures Normal(Normal(s)) == Normal(s)
  {
    hide SegmentsOf, Folded, Join, Settled;
    NormalSegments(s);
    SettledFolds(Folded(SegmentsOf(s)));
  }

  lemma {:induction false} InnerChars(stack: seq<string>, segs: seq<string>, of: string)
    requires forall k :: 0 <= k < |stack| ==> AllOf(stack[k], of)
    requires forall k :: 0 <= k < |segs| ==> AllOf(segs[k], of)
    ensures forall k :: 0 <= k < |Inner(stack, segs)| ==> AllOf(Inner(stack, segs)[k], of)
    decreases |segs|
  {
    if segs != [] {
      InnerChars(Step(stack, segs[0]), segs[1..], of);
    }
  }

  /** Normalising makes up no characters. */
  lemma NormalChars(s: string)
    requires Rooted(s)
    ensures AllOf(Normal(s), s)
  {
    var segs := SegmentsOf(s);
    forall k | 0 <= k < |segs|
      ensures AllOf(segs[k], s)
    {
      SplitChars(s[1..], k);
    }
    InnerChars([], segs[..|segs| - 1], s);
    hide Split, Join, Inner;
    JoinChars(Folded(segs), s);
  }

  /** A normal path does not start with two slashes. */
  lemma NormalStart(s: string)
    requires Rooted(s) && Normal(s) == s
    ensures !(|s| >= 2 && s[1] == '/')
  {
    var segs := SegmentsOf(s);
    forall k | 0 <= k < |segs|
      ensures NoSlash(segs[k])
    {
      SplitNoSlash(s[1..], k);
    }
    FoldedSettled(segs);
    var f := Folded(segs);
    hide Folded, Split;
    assert s[1..] == Join(f);
    assert |f| > 1 ==> Join(f)[0] == f[0][0] && f[0][0] in f[0];
    assert |f| == 1 ==> Join(f) == f[0];
  }

  // ---------------------------------------------------------------- rewriting steps

  /** The segments of what precedes a slash. */
  function Before(p: string): seq<string>
    requires p == "" || Rooted(p)
  {
    if p == "" then [] else Split(p[1..])
  }

  lemma SegmentsCat(p: string, y: string)
    requires p == "" || Rooted(p)
    ensures SegmentsOf(p + "/" + y) == Before(p) + Split(y)
  {
    if p == "" {
      assert (p + "/" + y)[1..] == y && [] + Split(y) == Split(y);
    } else {
      assert (p + "/" + y)[1..] == p[1..] + "/" + y;
      SplitCat(p[1..], y);
    }
  }

  /** A "//" or "/./" may lose its first segment. */
  lemma DropSegment(p: string, seg: string, y: string)
    requires (p == "" || Rooted(p)) && (seg == "" || seg == ".")
    ensures Normal(p + "/" + seg + "/" + y) == Normal(p + "/" + y)
  {
    hide Folded, Join, Split, SegmentsOf, Before, Inner;
    assert p + "/" + (seg + "/" + y) == p + "/" + seg + "/" + y;
    SegmentsCat(p, seg + "/" + y);
    SplitFirst(seg, y);
    SegmentsCat(p, y);
    InnerOne(Inner([], Before(p)), seg);
    assert Before(p) + ([seg] + Split(y)) == Before(p) + [seg] + Split(y);
    FoldedDrop(Before(p), [seg], Split(y));
  }

  /** The segments of "p/seg/../y". */
  lemma CancelParts(p: string, seg: string, y: string)
    requires (p == "" || Rooted(p)) && NoSlash(seg)
    ensures Rooted(p + "/" + seg + "/../" + y)
    ensures SegmentsOf(p + "/" + seg + "/../" + y) == Before(p) + [seg, ".."] + Split(y)
  {
    hide Split, SegmentsOf;
    var t := ".." + "/" + y;
    assert p + "/" + (seg + "/" + t) == p + "/" + seg + "/../" + y;
    SegmentsCat(p, seg + "/" + t);
    SplitFirst(seg, t);
    SplitFirst("..", y);
    assert Before(p) + ([seg] + ([".."] + Split(y))) == Before(p) + [seg, ".."] + Split(y);
  }

  /** "/seg/../" is "/". */
  lemma CancelSegment(p: string, seg: string, y: string)
    requires (p == "" || Rooted(p)) && Plain(seg)
    ensures Normal(p + "/" + seg + "/../" + y) == Normal(p + "/" + y)
  {
    hide Folded, Join, Split, SegmentsOf, Before, Inner;
    CancelParts(p, seg, y);
    SegmentsCat(p, y);
    InnerCancel(Inner([], Before(p)), seg);
    FoldedDrop(Before(p), [seg, ".."], Split(y));
  }

  /** ".." at the root has no effect. */
  lemma RootParent(y: string)
    ensures Normal("/../" + y) == Normal("/" + y)
  {
    assert ("/../" + y)[1..] == ".." + "/" + y && ("/" + y)[1..] == y;
    SplitFirst("..", y);
    hide Folded, Join, Split;
    InnerOne([], "..");
    assert [] + [".."] + Split(y) == [".."] + Split(y) && [] + Split(y) == Split(y);
    FoldedDrop([], [".."], Split(y));
  }

  /** The segments of "p/seg/..". */
  lemma CancelLastParts(p: string, seg: string)
    requires (p == "" || Rooted(p)) && NoSlash(seg)
    ensures Rooted(p + "/" + seg + "/..") && SegmentsOf(p + "/" + seg + "/..") == Before(p) + [seg, ".."]
    ensures SegmentsOf(p + "/") == Before(p) + [""]
  {
    hide Split, SegmentsOf;
    assert p + "/" + (seg + "/" + "..") == p + "/" + seg + "/..";
    SegmentsCat(p, seg + "/" + "..");
    SplitFirst(seg, "..");
    SplitWhole("..");
    assert [seg] + [".."] == [seg, ".."];
    SegmentsCat(p, "");
    SplitWhole("");
    assert p + "/" + "" == p + "/";
  }

  lemma FoldedCancelLast(a: seq<string>, seg: string)
    requires Plain(seg)
    ensures Folded(a + [seg, ".."]) == Folded(a + [""])
  {
    FoldedCat(a, [seg, ".."]);
    FoldedCat(a, [""]);
    hide Folded, Inner;
    var stack := Inner([], a);
    assert [seg, ".."][..1] == [seg] && [""][..0] == [];
    InnerOne(stack, seg);
    InnerNone(stack);
    assert Pop(stack + [seg]) == stack;
  }

  lemma InnerNone(stack: seq<string>)
    ensures Inner(stack, []) == stack
  {
  }

  /** A final "/seg/.." leaves the slash. */
  lemma CancelLast(p: string, seg: string)
    requires (p == "" || Rooted(p)) && Plain(seg)
    ensures Normal(p + "/" + seg + "/..") == Normal(p + "/")
  {
    hide Folded, Join, Split, SegmentsOf, Before, Inner;
    CancelLastParts(p, seg);
    FoldedCancelLast(Before(p), seg);
  }

  lemma RootLast()
    ensures Normal("/..") == "/"
  {
    assert "/.."[1..] == "..";
    SplitWhole("..");
  }

  /** No rewriting applies: the path is its own normal form. */
  ghost predicate Clean(s: string) {
    Rooted(s) && Absent(s, "//") && Absent(s, "/./") && Absent(s, "/../") && !EndsWith(s, "/..")
  }

  predicate EndsWith(s: string, suffix: string) {
    |s| >= |suffix| && s[|s| - |suffix|..] == suffix
  }

  /** A segment of `s` after the slash at `i`: the last one, or one before another slash. */
  predicate LiesAt(s: string, seg: string, i: nat, last: bool) {
    && i + 1 + |seg| <= |s| && s[i] == '/' && s[i + 1..i + 1 + |seg|] == seg
    && if last then i + 1 + |seg| == |s| else i + 1 + |seg| < |s| && s[i + 1 + |seg|] == '/'
  }

  lemma LiesFurther(s: string, d: nat, seg: string, i: nat, last: bool)
    requires d <= |s| && LiesAt(s[d..], seg, i, last)
    ensures LiesAt(s, seg, i + d, last)
  {
    assert s[d..][i + 1..i + 1 + |seg|] == s[d + i + 1..d + i + 1 + |seg|];
  }

  /** The first segment of a path, and the path from the next slash on. */
  lemma SegmentsStep(s: string) returns (seg: string, rest: string)
    requires Rooted(s)
    ensures rest == "" ==> SegmentsOf(s) == [seg]
    ensures rest != "" ==> Rooted(rest) && SegmentsOf(s) == [seg] + SegmentsOf(rest)
    ensures |seg| + 1 <= |s| && rest == s[|seg| + 1..] && s[1..|seg| + 1] == seg
  {
    var u := s[1..];
    var j := IndexOf(u, '/');
    seg, rest := u[..j], s[j + 1..];
    if j < |u| {
      assert rest[1..] == u[j + 1..];
    } else {
      assert seg == u;
    }
  }

  /** Every segment of a rooted path lies somewhere. */
  lemma {:induction false} SegmentAt(s: string, k: nat) returns (i: nat)
    requires Rooted(s) && k < |SegmentsOf(s)|
    ensures LiesAt(s, SegmentsOf(s)[k], i, k == |SegmentsOf(s)| - 1)
    decreases |s|
  {
    hide SegmentsOf;
    var seg, rest := SegmentsStep(s);
    if k == 0 {
      i := 0;
    } else {
      hide LiesAt;
      i := SegmentAt(rest, k - 1);
      LiesFurther(s, |seg| + 1, SegmentsOf(s)[k], i, k == |SegmentsOf(s)| - 1);
      i := i + |seg| + 1;
    }
  }

  lemma CleanSettled(s: string)
    requires Clean(s)
    ensures Settled(SegmentsOf(s))
  {
    var segs := SegmentsOf(s);
    forall k | 0 <= k < |segs|
      ensures NoSlash(segs[k]) && (k < |segs| - 1 ==> Plain(segs[k])) && (k == |segs| - 1 ==> segs[k] != "..")
    {
      SplitNoSlash(s[1..], k);
      var i := SegmentAt(s, k);
      CleanSegment(s, i, segs[k], k == |segs| - 1);
    }
  }

  lemma LiesBetween(s: string, seg: string, i: nat, last: bool)
    requires LiesAt(s, seg, i, last)
    ensures if last then s[i..] == "/" + seg else s[i..i + 2 + |seg|] == "/" + seg + "/"
  {
    assert s[i..i + 1 + |seg|] == [s[i]] + s[i + 1..i + 1 + |seg|];
    if !last {
      assert s[i..i + 2 + |seg|] == s[i..i + 1 + |seg|] + [s[i + 1 + |seg|]];
    }
  }

  lemma CleanSegment(s: string, i: nat, seg: string, last: bool)
    requires Clean(s) && NoSlash(seg)
    requires LiesAt(s, seg, i, last)
    ensures !last ==> Plain(seg)
    ensures last ==> seg != ".."
  {
    assert "/" + ".." == "/..";
    LiesBetween(s, seg, i, last);
    if last {
      assert |seg| == 2 ==> i == |s| - 3;
    } else {
      assert !OccursAt(s, "//", i) && !OccursAt(s, "/./", i) && !OccursAt(s, "/../", i);
    }
  }

  lemma CleanIsNormal(s: string)
    requires Clean(s)
    ensures Normal(s) == s
  {
    assert Rooted(s);
    hide *;
    CleanSettled(s);
    SettledNormal(s);
  }

  lemma SettledNormal(s: string)
    requires Rooted(s) && Settled(SegmentsOf(s))
    ensures Normal(s) == s
  {
    hide Folded, Join, Split, Settled;
    SettledFolds(SegmentsOf(s));
    JoinSplit(s[1..]);
    assert s == "/" + s[1..];
  }

  // ---------------------------------------------------------------- the final dot

  function Last(segs: seq<string>): string
    requires |segs| >= 1
  {
    segs[|segs| - 1]
  }

  /** A path ends in "/." exactly when its last segment is ".". */
  lemma LastIsDot(s: string)
    requires Rooted(s)
    ensures EndsWith(s, "/.") <==> Last(SegmentsOf(s)) == "."
  {
    hide Split;
    var k := |SegmentsOf(s)| - 1;
    SplitNoSlash(s[1..], k);
    var seg := SegmentsOf(s)[k];
    var i := SegmentAt(s, k);
    LiesBetween(s, seg, i, true);
    EndsInDot(s, i, seg);
  }

  lemma EndsInDot(s: string, i: nat, seg: string)
    requires i < |s| && s[i..] == "/" + seg && NoSlash(seg)
    ensures EndsWith(s, "/.") <==> seg == "."
  {
    assert "/" + "." == "/.";
    assert forall x :: 0 <= x < |seg| ==> s[i..][x + 1] == seg[x] && seg[x] in seg;
    if EndsWith(s, "/.") {
      var m := |s| - 2;
      assert s[m..][0] == '/' && s[m..][1] == '.';
      assert s[i..][0] == '/';
      assert i == m;
    }
  }

  /** Folding takes no final dot away and adds none. */
  lemma FoldedLast(segs: seq<string>)
    requires |segs| >= 1
    ensures Last(Folded(segs)) == "." <==> Last(segs) == "."
  {
  }

  /** The normal form ends in "/." exactly when the path does. */
  lemma FinalDotStays(s: string)
    requires Rooted(s)
    ensures EndsWith(Normal(s), "/.") <==> EndsWith(s, "/.")
  {
    hide SegmentsOf, Folded, Normal, EndsWith;
    NormalSegments(s);
    LastIsDot(s);
    LastIsDot(Normal(s));
    FoldedLast(SegmentsOf(s));
  }

  /** What the documentation calls normalised: no dot segment, and no empty one but a last. */
  ghost predicate FullyNormal(s: string)
    requires Rooted(s)
  {
    var segs := SegmentsOf(s);
    && (forall k :: 0 <= k < |segs| - 1 ==> Plain(segs[k]))
    && (Last(segs) == "" || Plain(Last(segs)))
  }

  /** The normal form is fully normal exactly when the path does not end in "/.". */
  lemma FullyNormalIff(s: string)
    requires Rooted(s)
    ensures FullyNormal(Normal(s)) <==> !EndsWith(s, "/.")
  {
    hide SegmentsOf, Folded, Normal, EndsWith;
    NormalSegments(s);
    LastIsDot(s);
    FoldedLast(SegmentsOf(s));
  }

  /** For example, a path that keeps its final dot. */
  lemma FinalDotIsKept()
    ensures Rooted("/a/.") && Normal("/a/.") == "/a/." && !FullyNormal("/a/.")
  {
    hide Folded, Split, Join;
    assert "/a/."[1..] == "a" + "/" + ".";
    SplitFirst("a", ".");
    SplitWhole(".");
    var segs := ["a", "."];
    assert SegmentsOf("/a/.") == segs;
    SettledFolds(segs);
    JoinSplit("a/.");
    assert "/" + "a/." == "/a/.";
  }
}
