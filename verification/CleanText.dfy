/** `CleanUrlPath` (helpers/http.go), on the text of the path: what may be rewritten in it without
    changing the result, and which paths are clean as they are. Together these determine it. */
module CleanText {
  import opened Basics
  import opened Segments
  import opened PathFold
  import opened CleanPath

  lemma KeptCat(p: string, y: string)
    requires p == "" || Rooted(p)
    ensures Kept(p + "/" + y) == Inner(Inner([], Before(p)), Split(y))
  {
    hide Split, Inner, Before;
    assert Rooted(p + "/" + y);
    SegmentsCat(p, y);
    InnerCat([], Before(p), Split(y));
  }

  /** Whether the path ends like a directory is seen from what follows any of its slashes. */
  lemma TrailingCat(p: string, y: string)
    requires (p == "" || Rooted(p)) && p + "/" + y != "/"
    ensures Trailing(p + "/" + y) <==> y == "" || y[|y| - 1] == '/' || Last(Split(y)) == "."
  {
    hide Split, FinalDot, Last;
    var s := p + "/" + y;
    FinalDotCat(p, y);
    assert s[|s| - 1] == if y == "" then '/' else y[|y| - 1];
  }

  lemma FinalDotCat(p: string, y: string)
    requires p == "" || Rooted(p)
    ensures FinalDot(p + "/" + y) <==> Last(Split(y)) == "."
  {
    hide Split, Before;
    SegmentsCat(p, y);
    assert Rooted(p + "/" + y);
    assert Last(Before(p) + Split(y)) == Last(Split(y));
  }

  lemma RootIsEmpty()
    ensures Kept("/") == [] && Cleaned("/") == "/"
  {
    SplitWhole("");
    assert Body("/") == "";
    InnerOne([], "");
  }

  /** Two paths with the same kept segments and the same text behind a slash. */
  lemma SameCleaned(p: string, q: string, y: string)
    requires (p == "" || Rooted(p)) && (q == "" || Rooted(q)) && Kept(p + "/" + y) == Kept(q + "/" + y)
    ensures Cleaned(p + "/" + y) == Cleaned(q + "/" + y)
  {
    hide Kept, Trailing, Spelled;
    RootIsEmpty();
    if p + "/" + y != "/" {
      TrailingCat(p, y);
    }
    if q + "/" + y != "/" {
      TrailingCat(q, y);
    }
  }

  /** Double slashes and "." segments may go. */
  lemma DropClean(p: string, seg: string, y: string)
    requires (p == "" || Rooted(p)) && (seg == "" || seg == ".")
    ensures Cleaned(p + "/" + seg + "/" + y) == Cleaned(p + "/" + y)
  {
    hide Split, Inner, Before, Kept, Cleaned;
    var stack := Inner([], Before(p));
    assert p + "/" + seg + "/" + y == p + "/" + (seg + "/" + y);
    KeptCat(p, seg + "/" + y);
    SplitFirst(seg, y);
    InnerCat(stack, [seg], Split(y));
    InnerOne(stack, seg);
    KeptCat(p, y);
    SameCleaned(p + "/" + seg, p, y);
  }

  /** ".." goes with the segment before it. */
  lemma CancelClean(p: string, seg: string, y: string)
    requires (p == "" || Rooted(p)) && Plain(seg)
    ensures Cleaned(p + "/" + seg + "/../" + y) == Cleaned(p + "/" + y)
  {
    hide Split, Inner, Before, Kept, Cleaned;
    var stack := Inner([], Before(p));
    var q := p + "/" + seg + "/..";
    assert p + "/" + seg + "/../" + y == q + "/" + y;
    assert q + "/" + y == p + "/" + (seg + "/" + (".." + "/" + y));
    KeptCat(p, seg + "/" + (".." + "/" + y));
    SplitFirst(seg, ".." + "/" + y);
    SplitFirst("..", y);
    assert [seg] + ([".."] + Split(y)) == [seg, ".."] + Split(y);
    InnerCat(stack, [seg, ".."], Split(y));
    InnerCancel(stack, seg);
    KeptCat(p, y);
    SameCleaned(q, p, y);
  }

  /** At the root ".." has no effect. */
  lemma RootParentClean(y: string)
    ensures Cleaned("/../" + y) == Cleaned("/" + y) && Cleaned("/..") == "/"
  {
    hide Split, Inner, Cleaned, Kept;
    assert "/../" + y == "/.." + "/" + y && "/../" + y == "" + "/" + (".." + "/" + y) && "/" + y == "" + "/" + y;
    KeptCat("", ".." + "/" + y);
    SplitFirst("..", y);
    InnerNone([]);
    InnerCat([], [".."], Split(y));
    InnerOne([], "..");
    KeptCat("", y);
    SameCleaned("/..", "", y);
    RootLastClean();
  }

  lemma RootLastClean()
    ensures Cleaned("/..") == "/"
  {
    hide Split, Inner;
    assert Body("/..") == "..";
    SplitWhole("..");
    InnerOne([], "..");
  }

  /** A path without a slash in front is taken as if it had one. */
  lemma UnrootedClean(y: string)
    requires !Rooted(y)
    ensures Cleaned(y) == Cleaned("/" + y)
  {
    hide Inner, Split;
    assert ("/" + y)[1..] == y;
    RootIsEmpty();
    assert y == "" ==> "/" + y == "/";
  }

  /** A final "." leaves the slash before it. */
  lemma FinalDotClean(p: string)
    requires p == "" || Rooted(p)
    ensures Cleaned(p + "/.") == Cleaned(p + "/")
  {
    hide Split, Inner, Before, Kept, Trailing, Spelled;
    var stack := Inner([], Before(p));
    assert p + "/" + "." == p + "/." && p + "/" + "" == p + "/";
    KeptCat(p, ".");
    KeptCat(p, "");
    SplitWhole(".");
    SplitWhole("");
    InnerOne(stack, ".");
    InnerOne(stack, "");
    TrailingCat(p, ".");
    RootIsEmpty();
    if p == "" {
      assert p + "/" == "/" && Kept(p + "/.") == [];
      assert Spelled([]) + "" == Spelled([]);
    } else {
      TrailingCat(p, "");
    }
  }

  /** A final ".." goes with the segment before it and leaves no slash. */
  lemma FinalParentClean(p: string, seg: string)
    requires (p == "" || Rooted(p)) && Plain(seg)
    ensures var x := Cleaned(p + "/" + seg + "/.."); Cleaned(p + "/") == if x == "/" then x else x + "/"
  {
    hide Split, Inner, Before, Kept, Trailing;
    var stack := Inner([], Before(p));
    assert p + "/" + seg + "/.." == p + "/" + (seg + "/" + "..") && p + "/" + "" == p + "/";
    KeptCat(p, seg + "/" + "..");
    SplitFirst(seg, "..");
    SplitWhole("..");
    InnerCancel(stack, seg);
    assert [seg] + [".."] == [seg, ".."];
    KeptCat(p, "");
    SplitWhole("");
    InnerOne(stack, "");
    assert p + "/" + seg + "/.." == (p + "/" + seg) + "/" + "..";
    TrailingCat(p + "/" + seg, "..");
    KeptIsPlain(p + "/");
    var kept := Kept(p + "/");
    assert Kept(p + "/" + seg + "/..") == kept;
    assert Spelled(kept) + "" == Spelled(kept);
    if p == "" {
      RootIsEmpty();
      assert p + "/" == "/";
    } else if kept != [] {
      TrailingCat(p, "");
      JoinLast(kept);
    }
  }

  /** A path with none of these is clean as it is. */
  lemma CleanIsCleaned(p: string)
    requires Clean(p) && !EndsWith(p, "/.")
    ensures Cleaned(p) == p
  {
    hide Split, Inner, Join, EndsWith, Clean;
    RootedClean(p);
    CleanSettled(p);
    PathFold.LastIsDot(p);
    var segs := SegmentsOf(p);
    var n := |segs| - 1;
    JoinSplit(p[1..]);
    assert p == "/" + Join(segs);
    if segs[n] == "" {
      assert segs == segs[..n] + [""];
      DirectoryText(p, segs[..n]);
      SpelledIsClean(segs[..n], segs[..n] != []);
    } else {
      assert p + "" == p;
      SpelledIsClean(segs, false);
    }
  }

  lemma RootedClean(p: string)
    requires Clean(p)
    ensures Rooted(p)
  {
  }

  lemma DirectoryText(p: string, front: seq<string>)
    requires p == "/" + Join(front + [""])
    ensures p == Spelled(front) + if front != [] then "/" else ""
  {
    if front != [] {
      JoinSnoc(front);
      assert "/" + (Join(front) + "/") == "/" + Join(front) + "/";
    } else {
      assert front + [""] == [""];
    }
  }

  lemma {:induction false} JoinSnoc(front: seq<string>)
    requires front != []
    ensures Join(front + [""]) == Join(front) + "/"
  {
    if |front| > 1 {
      JoinSnoc(front[1..]);
      assert (front + [""])[1..] == front[1..] + [""];
    } else {
      assert (front + [""])[1..] == [""];
    }
  }
}
