/** In-place path normalisation on Unix (fasthttp/uri.go, `normalizePath`; fasthttp/uri_unix.go). The
    byte slice is an array and a length; each pass moves the tail of the array down over what it
    removes. */
module NormalizePath {
  import opened Basics
  import opened Segments
  import opened PathFold
  import Percent

  /** `copy(b[to:], b[from:])` on the first `n` cells, then cutting the slice. */
  method CopyDown(a: array<char>, to: nat, from: nat, n: nat) returns (m: nat)
    requires to <= from <= n <= a.Length
    modifies a
    ensures m == n - (from - to)
    ensures a[..m] == old(a[..to]) + old(a[from..n])
  {
    m := n - (from - to);
    var d := from - to;
    for i := to to m
      invariant forall k :: 0 <= k < to ==> a[k] == old(a[k])
      invariant forall k :: to <= k < i ==> a[k] == old(a[..])[k + d]
      invariant forall k :: i + d <= k < n ==> a[k] == old(a[k])
    {
      a[i] := a[i + d];
    }
    ghost var was := old(a[..]);
    assert forall k :: 0 <= k < m ==> a[k] == if k < to then was[k] else was[k + d];
    assert a[..m] == was[..to] + was[from..n];
  }

  // ---------------------------------------------------------------- what one removal keeps

  /** A removal: from one slash to a later one. */
  predicate Cut(s: string, i: nat, j: nat) {
    i < j < |s| && s[i] == '/' && s[j] == '/'
  }

  function Removed(s: string, i: nat, j: nat): string
    requires Cut(s, i, j)
  {
    s[..i] + s[j..]
  }

  /** A pattern with slashes at its ends only. */
  predicate Bracketed(pat: string) {
    |pat| >= 2 && forall m :: 0 < m < |pat| - 1 ==> pat[m] != '/'
  }

  /** A removal from slash to slash makes no new occurrence of a bracketed pattern. */
  lemma RemovalKeepsAbsent(s: string, i: nat, j: nat, pat: string)
    requires Cut(s, i, j) && Bracketed(pat) && Absent(s, pat)
    ensures Absent(Removed(s, i, j), pat)
  {
    var t := Removed(s, i, j);
    forall k
      ensures !OccursAt(t, pat, k)
    {
      if 0 <= k && k + |pat| <= |t| {
        if k >= i {
          assert !OccursAt(s, pat, k + j - i);
          assert t[k..k + |pat|] == s[k + j - i..k + j - i + |pat|];
        } else if k + |pat| <= i + 1 {
          assert !OccursAt(s, pat, k);
          assert t[k..k + |pat|] == s[k..k + |pat|];
        } else {
          assert t[k..k + |pat|][i - k] == t[i] == '/';
        }
      }
    }
  }

  /** Removing the first of two slashes makes no "//" before it. */
  lemma SlashesBefore(s: string, i: nat)
    requires OccursAt(s, "//", i) && AbsentBelow(s, "//", i)
    ensures Cut(s, i, i + 1) && AbsentBelow(Removed(s, i, i + 1), "//", i)
  {
    assert s[i..i + 2][0] == '/' && s[i..i + 2][1] == '/';
    var t := Removed(s, i, i + 1);
    forall k | 0 <= k < i
      ensures !OccursAt(t, "//", k)
    {
      assert !OccursAt(s, "//", k) && t[..i + 1] == s[..i + 1];
      assert t[k..k + 2] == t[..i + 1][k..k + 2] == s[..i + 1][k..k + 2] == s[k..k + 2];
    }
  }

  /** Removing "/" from "//", or "/." from "/./". */
  lemma RemoveDot(s: string, i: nat, seg: string)
    requires Rooted(s) && (seg == "" || seg == ".") && OccursAt(s, "/" + seg + "/", i)
    ensures Cut(s, i, i + 1 + |seg|) && Rooted(Removed(s, i, i + 1 + |seg|))
    ensures Normal(Removed(s, i, i + 1 + |seg|)) == Normal(s)
  {
    hide Normal;
    var pat := "/" + seg + "/";
    var j := i + 1 + |seg|;
    assert s[i] == s[i..i + |pat|][0] == '/' && s[j] == s[i..i + |pat|][1 + |seg|] == '/';
    var p, y := s[..i], s[j + 1..];
    assert s == p + "/" + seg + "/" + y by {
      assert s == p + pat + y;
    }
    assert Removed(s, i, j) == p + "/" + y;
    hide *;
    DropSegment(p, seg, y);
  }

  lemma SlashStep(s: string, i: nat)
    requires Rooted(s) && OccursAt(s, "//", i) && AbsentBelow(s, "//", i)
    ensures Cut(s, i, i + 1) && Rooted(Removed(s, i, i + 1))
    ensures Normal(Removed(s, i, i + 1)) == Normal(s) && AbsentBelow(Removed(s, i, i + 1), "//", i)
  {
    hide Normal;
    SlashesBefore(s, i);
    assert "/" + "" + "/" == "//";
    RemoveDot(s, i, "");
  }

  /** A segment between slashes of a path without "//", "/./" and, here, "/../" is plain. */
  lemma PlainBetween(s: string, i: nat, j: nat)
    requires i < j < |s| && s[i] == '/' && s[j] == '/' && NoSlash(s[i + 1..j])
    requires !OccursAt(s, "//", i) && !OccursAt(s, "/./", i) && !OccursAt(s, "/../", i)
    ensures Plain(s[i + 1..j])
  {
    var seg := s[i + 1..j];
    assert s[i..j + 1] == "/" + seg + "/";
    assert "/" + "" + "/" == "//" && "/" + "." + "/" == "/./" && "/" + ".." + "/" == "/../";
  }

  /** Where a removal of the first "/../" starts. */
  function ParentStart(s: string, n: nat): (i: nat)
    requires n <= |s|
    ensures i <= n
  {
    var l := LastSlash(s[..n]);
    if l.None? then 0 else l.value
  }

  lemma OnlyRootBefore(s: string, n: nat)
    requires Rooted(s) && n <= |s| && NoSlash(s[..n])
    ensures n == 0
  {
    if n > 0 {
      FirstInPrefix(s, n);
      assert false;
    }
  }

  lemma FirstInPrefix(s: string, n: nat)
    requires 0 < n <= |s|
    ensures s[0] in s[..n]
  {
    assert s[..n][0] == s[0];
  }

  lemma RemoveParent(s: string, n: nat)
    requires Rooted(s) && Absent(s, "//") && Absent(s, "/./")
    requires OccursAt(s, "/../", n) && AbsentBelow(s, "/../", n)
    ensures var i := ParentStart(s, n);
            Cut(s, i, n + 3) && Rooted(Removed(s, i, n + 3)) && Normal(Removed(s, i, n + 3)) == Normal(s)
  {
    hide Normal;
    var i := ParentStart(s, n);
    var y := s[n + 4..];
    assert s[n..n + 4][0] == '/' && s[n..n + 4][3] == '/';
    assert s == s[..n] + s[n..n + 4] + y;
    assert s[n + 3..] == [s[n + 3]] + y;
    if LastSlash(s[..n]).None? {
      OnlyRootBefore(s, n);
      assert s == "/../" + y && Removed(s, i, n + 3) == "/" + y;
      RootParent(y);
    } else {
      var p, seg := s[..i], s[i + 1..n];
      assert s[..n][i + 1..] == seg && s[..n][i] == '/';
      PlainBetween(s, i, n);
      assert s[..n] == p + "/" + seg;
      assert s == p + "/" + seg + "/../" + y;
      assert Removed(s, i, n + 3) == p + "/" + y;
      CancelSegment(p, seg, y);
    }
  }

  /** The last pass: what remains after a final "/.." is taken off. */
  function Trimmed(s: string): string {
    if !EndsWith(s, "/..") then s
    else
      var l := LastSlash(s[..|s| - 3]);
      if l.None? then "/" else s[..l.value + 1]
  }

  lemma PrefixKeepsAbsent(s: string, n: nat, pat: string)
    requires n <= |s| && Absent(s, pat)
    ensures Absent(s[..n], pat)
  {
    forall k
      ensures !OccursAt(s[..n], pat, k)
    {
      assert !OccursAt(s, pat, k);
      if 0 <= k && k + |pat| <= n {
        assert s[..n][k..k + |pat|] == s[k..k + |pat|];
      }
    }
  }

  lemma TrimmedIsNormal(s: string)
    requires Rooted(s) && Absent(s, "//") && Absent(s, "/./") && Absent(s, "/../")
    ensures Rooted(Trimmed(s)) && Normal(Trimmed(s)) == Normal(s) && Clean(Trimmed(s))
  {
    hide Normal;
    if EndsWith(s, "/..") {
      var n := |s| - 3;
      var l := LastSlash(s[..n]);
      assert s[n..][0] == '/';
      assert s == s[..n] + "/..";
      if l.None? {
        OnlyRootBefore(s, n);
        assert s == "/..";
        RootLast();
        RootIsClean();
      } else {
        var i := l.value;
        var p, seg := s[..i], s[i + 1..n];
        assert s[..n][i + 1..] == seg && s[..n][i] == '/';
        PlainBetween(s, i, n);
        assert s[..n] == p + "/" + seg;
        assert s == p + "/" + seg + "/..";
        assert s[..i + 1] == p + "/";
        CancelLast(p, seg);
        TrimmedIsClean(s, i + 1);
      }
    }
  }

  lemma TrimmedIsClean(s: string, n: nat)
    requires Rooted(s) && Absent(s, "//") && Absent(s, "/./") && Absent(s, "/../")
    requires 0 < n <= |s| && s[n - 1] == '/'
    ensures Clean(s[..n])
  {
    PrefixKeepsAbsent(s, n, "//");
    PrefixKeepsAbsent(s, n, "/./");
    PrefixKeepsAbsent(s, n, "/../");
    var t := s[..n];
    assert |t| >= 3 ==> t[|t| - 3..][2] == '/';
  }

  lemma RootIsClean()
    ensures Clean("/") && Normal("/") == "/"
  {
    CleanIsNormal("/");
  }

  // ---------------------------------------------------------------- the passes

  /** Remove duplicate slashes; the search goes on where the last one was found. */
  method DropSlashes(a: array<char>, size: nat) returns (n: nat)
    requires size <= a.Length && Rooted(a[..size])
    modifies a
    ensures n <= size && Rooted(a[..n]) && Normal(a[..n]) == Normal(old(a[..size])) && Absent(a[..n], "//")
  {
    hide Normal, Absent, OccursAt, Find;
    n := size;
    var at: nat := 0;
    while true
      invariant at <= n <= size && Rooted(a[..n]) && Normal(a[..n]) == Normal(old(a[..size]))
      invariant AbsentBelow(a[..n], "//", at)
      decreases n
    {
      ghost var s := a[..n];
      SearchOn(s, "//", at);
      assert s[at..] == a[at..n];
      var found := Find(a[at..n], "//");
      if found.None? {
        return;
      }
      at := at + found.value;
      SlashStep(s, at);
      n := CopyDown(a, at, at + 1, n);
      assert a[..n] == Removed(s, at, at + 1);
    }
  }

  /** Remove "/./" parts. */
  method DropDots(a: array<char>, size: nat) returns (n: nat)
    requires size <= a.Length && Rooted(a[..size]) && Absent(a[..size], "//")
    modifies a
    ensures n <= size && Rooted(a[..n]) && Normal(a[..n]) == Normal(old(a[..size]))
    ensures Absent(a[..n], "//") && Absent(a[..n], "/./")
  {
    hide Normal, Absent, OccursAt, LastSlash, Find;
    n := size;
    while true
      invariant n <= size && Rooted(a[..n]) && Normal(a[..n]) == Normal(old(a[..size])) && Absent(a[..n], "//")
      decreases n
    {
      ghost var s := a[..n];
      var found := Find(a[..n], "/./");
      if found.None? {
        return;
      }
      var i := found.value;
      assert "/" + "." + "/" == "/./";
      RemoveDot(s, i, ".");
      RemovalKeepsAbsent(s, i, i + 2, "//");
      n := CopyDown(a, i, i + 2, n);
      assert a[..n] == Removed(s, i, i + 2);
    }
  }

  /** Remove "/foo/../" parts, the first one first. */
  method DropParents(a: array<char>, size: nat) returns (n: nat)
    requires size <= a.Length && Rooted(a[..size]) && Absent(a[..size], "//") && Absent(a[..size], "/./")
    modifies a
    ensures n <= size && Rooted(a[..n]) && Normal(a[..n]) == Normal(old(a[..size]))
    ensures Absent(a[..n], "//") && Absent(a[..n], "/./") && Absent(a[..n], "/../")
  {
    hide Normal, Absent, OccursAt, LastSlash, Find;
    n := size;
    while true
      invariant n <= size && Rooted(a[..n]) && Normal(a[..n]) == Normal(old(a[..size]))
      invariant Absent(a[..n], "//") && Absent(a[..n], "/./")
      decreases n
    {
      ghost var s := a[..n];
      var found := Find(a[..n], "/../");
      if found.None? {
        return;
      }
      var last := LastSlash(a[..found.value]);
      var i := if last.None? then 0 else last.value;
      var j := found.value + 3;
      assert s[..found.value] == a[..found.value];
      RemoveParent(s, found.value);
      RemovalKeepsAbsent(s, i, j, "//");
      RemovalKeepsAbsent(s, i, j, "/./");
      n := CopyDown(a, i, j, n);
      assert a[..n] == Removed(s, i, j);
    }
  }

  /** Remove a trailing "/foo/..". */
  method DropLastParent(a: array<char>, size: nat) returns (n: nat)
    requires 0 < size <= a.Length
    modifies a
    ensures n <= a.Length && a[..n] == Trimmed(old(a[..size]))
  {
    n := size;
    ghost var s := a[..size];
    if size >= 3 && a[size - 3..size] == "/.." {
      assert s[..size - 3] == a[..size - 3];
      var last := LastSlash(a[..size - 3]);
      if last.None? {
        a[0] := '/';
        n := 1;
      } else {
        n := last.value + 1;
      }
    }
  }

  /** What the passes start from. */
  function Prepared(src: string): (r: string)
    ensures Rooted(r)
  {
    (if src == "" || src[0] != '/' then "/" else "") + Percent.Decoded(src, false)
  }

  /** `normalizePath` into a fresh buffer. */
  method NormalizeBuffer(src: string) returns (a: array<char>, n: nat)
    ensures fresh(a) && n <= a.Length
    ensures a[..n] == Normal(Prepared(src)) && Clean(a[..n])
  {
    var dst := if src == "" || src[0] != '/' then "/" else "";
    dst := Percent.DecodeAppend(dst, src, false);
    hide *;
    a := new char[|dst|](i requires 0 <= i < |dst| => dst[i]);
    n := |dst|;
    assert a[..n] == dst;
    n := DropSlashes(a, n);
    n := DropDots(a, n);
    n := DropParents(a, n);
    TrimmedIsNormal(a[..n]);
    ghost var s := a[..n];
    n := DropLastParent(a, n);
    CleanIsNormal(a[..n]);
  }

  /** `normalizePath`: the folded path, which no rewriting step applies to; free of dot segments
      exactly when the decoded path does not end in "/.". */
  method NormalizedPath(src: string) returns (r: string)
    ensures r == Normal(Prepared(src)) && Clean(r)
    ensures FullyNormal(r) <==> !EndsWith(Prepared(src), "/.")
  {
    hide *;
    var a, n := NormalizeBuffer(src);
    r := a[..n];
    FullyNormalIff(Prepared(src));
  }

  /** A search that starts where nothing can have been missed. */
  lemma SearchOn(s: string, pat: string, at: nat)
    requires at <= |s| && AbsentBelow(s, pat, at)
    ensures match Find(s[at..], pat)
            case None => Absent(s, pat)
            case Some(k) => OccursAt(s, pat, at + k) && AbsentBelow(s, pat, at + k)
  {
    var t := s[at..];
    forall k | at <= k
      ensures OccursAt(s, pat, k) == OccursAt(t, pat, k - at)
    {
      if k + |pat| <= |s| {
        assert t[k - at..k - at + |pat|] == s[k..k + |pat|];
      }
    }
  }
}
