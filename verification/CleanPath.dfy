/** `CleanUrlPath` (helpers/http.go): a path is cleaned with a reading and a writing index, and into a
    buffer that exists only once the result departs from the input. It is split, fold and join. */
module CleanPath {
  import opened Basics
  import opened Segments
  import opened PathFold

  // ---------------------------------------------------------------- meaning

  function Body(p: string): string {
    if Rooted(p) then p[1..] else p
  }

  /** The segments that are left. */
  function Kept(p: string): seq<string> {
    Inner([], Split(Body(p)))
  }

  /** A path of kept segments. */
  function Spelled(stack: seq<string>): string {
    if stack == [] then "/" else "/" + Join(stack)
  }

  /** Does the input end like a directory? */
  predicate Trailing(p: string) {
    (|p| > 1 && p[|p| - 1] == '/') || FinalDot(p)
  }

  predicate FinalDot(p: string) {
    Split(Body(p))[|Split(Body(p))| - 1] == "."
  }

  /** Drop empty and "." segments, let ".." remove the one before it, and keep a trailing slash. */
  function Cleaned(p: string): string {
    Spelled(Kept(p)) + if Trailing(p) && Kept(p) != [] then "/" else ""
  }

  // ---------------------------------------------------------------- idempotence

  lemma KeptIsPlain(p: string)
    ensures forall k :: 0 <= k < |Kept(p)| ==> Plain(Kept(p)[k])
  {
    var segs := Split(Body(p));
    forall k | 0 <= k < |segs|
      ensures NoSlash(segs[k])
    {
      SplitNoSlash(Body(p), k);
    }
    InnerIsPlain([], segs);
  }

  /** The segments of a spelled path with an optional slash behind it. */
  lemma SpelledSegments(stack: seq<string>, slash: bool)
    requires stack != [] && forall k :: 0 <= k < |stack| ==> Plain(stack[k])
    ensures Split(Join(stack) + if slash then "/" else "") == stack + if slash then [""] else []
  {
    hide Split, Join;
    SplitJoin(stack);
    if slash {
      SplitCat(Join(stack), "");
      SplitWhole("");
      assert Join(stack) + "/" + "" == Join(stack) + "/";
    } else {
      assert Join(stack) + "" == Join(stack) && stack + [] == stack;
    }
  }

  lemma {:induction false} JoinLast(stack: seq<string>)
    requires stack != [] && forall k :: 0 <= k < |stack| ==> Plain(stack[k])
    ensures Join(stack) != "" && Join(stack)[|Join(stack)| - 1] != '/'
  {
    if |stack| > 1 {
      JoinLast(stack[1..]);
    } else {
      assert stack[0][|stack[0]| - 1] in stack[0];
    }
  }

  /** A path of plain segments is cleaned to itself. */
  lemma SpelledIsClean(stack: seq<string>, slash: bool)
    requires (forall k :: 0 <= k < |stack| ==> Plain(stack[k])) && (slash ==> stack != [])
    ensures Cleaned(Spelled(stack) + if slash then "/" else "") == Spelled(stack) + if slash then "/" else ""
  {
    var p := Spelled(stack) + if slash then "/" else "";
    hide Split, Join, Inner, Plain;
    if stack == [] {
      assert p == "/" && Body(p) == "";
      SplitWhole("");
      InnerOne([], "");
    } else {
      hide Kept, FinalDot;
      JoinLast(stack);
      assert Body(p) == Join(stack) + if slash then "/" else "";
      SpelledSegments(stack, slash);
      PlainSegments(p, stack, if slash then [""] else []);
      assert slash <==> p[|p| - 1] == '/';
    }
  }

  lemma PlainSegments(p: string, stack: seq<string>, tail: seq<string>)
    requires stack != [] && forall k :: 0 <= k < |stack| ==> Plain(stack[k])
    requires Split(Body(p)) == stack + tail && (tail == [] || tail == [""])
    ensures Kept(p) == stack && !FinalDot(p)
  {
    hide Split, Inner;
    InnerPlain([], stack);
    assert [] + stack == stack;
    InnerCat([], stack, tail);
    InnerOne(stack, "");
    InnerNone(stack);
    assert Plain(stack[|stack| - 1]);
  }

  /** Cleaning twice is cleaning once. */
  lemma CleanedTwice(p: string)
    ensures Cleaned(Cleaned(p)) == Cleaned(p)
  {
    KeptIsPlain(p);
    hide Kept, Trailing, Spelled;
    SpelledIsClean(Kept(p), Trailing(p) && Kept(p) != []);
  }

  // ---------------------------------------------------------------- the buffer

  /** The bytes written so far: in the buffer, or a prefix of the input while there is none. */
  ghost function View(buf: array<char>, s: string, w: nat): string
    requires w <= if buf.Length == 0 then |s| else buf.Length
    reads buf
  {
    if buf.Length == 0 then s[..w] else buf[..w]
  }

  /** `bufApp`. */
  method BufApp(buf: array<char>, s: string, w: nat, c: char) returns (b: array<char>)
    requires w < if buf.Length == 0 then |s| else buf.Length
    modifies buf
    ensures b == buf || (fresh(b) && buf.Length == 0 && b.Length == |s|)
    ensures View(b, s, w + 1) == old(View(buf, s, w)) + [c]
  {
    b := buf;
    if b.Length == 0 {
      if s[w] == c {
        return;
      }
      b := new char[|s|];
      for i := 0 to w
        invariant forall k :: 0 <= k < i ==> b[k] == s[k]
      {
        b[i] := s[i];
      }
    }
    b[w] := c;
  }

  // ---------------------------------------------------------------- segments ahead

  /** The segments from position `r` on. */
  function Left(p: string, r: nat): seq<string> {
    if r <= |p| then Split(p[r..]) else []
  }

  predicate SegmentFrom(p: string, r: nat, seg: string) {
    && r + |seg| <= |p| && NoSlash(seg) && p[r..r + |seg|] == seg
    && (r + |seg| < |p| ==> p[r + |seg|] == '/')
  }

  lemma LeftSplit(p: string, r: nat, seg: string)
    requires SegmentFrom(p, r, seg)
    ensures Left(p, r) == [seg] + Left(p, r + |seg| + 1)
    ensures Left(p, r + |seg|) == [""] + Left(p, r + |seg| + 1)
  {
    hide Split;
    var e := r + |seg|;
    var t := p[r..];
    assert t == seg + p[e..];
    if e == |p| {
      assert t == seg && p[e..] == "";
      SplitWhole("");
      SplitWhole(seg);
    } else {
      assert p[e..] == "" + "/" + p[e + 1..];
      assert t == seg + "/" + p[e + 1..];
      SplitFirst(seg, p[e + 1..]);
      SplitFirst("", p[e + 1..]);
    }
  }

  /** The segments from `r` on take the stack to the result. */
  ghost predicate Ahead(p: string, r: nat, stack: seq<string>) {
    AllPlain(stack) && Inner(stack, Left(p, r)) == Kept(p)
  }

  lemma AheadFirst(p: string)
    ensures Ahead(p, 1 - Shift(p), [])
  {
    assert p[1 - Shift(p)..] == Body(p);
  }

  lemma AheadPlain(p: string, r: nat, stack: seq<string>)
    requires Ahead(p, r, stack)
    ensures AllPlain(stack)
  {
    hide Inner, Left, Kept, AllPlain;
  }

  lemma AheadLast(p: string, r: nat, stack: seq<string>)
    requires Ahead(p, r, stack) && r >= |p|
    ensures Kept(p) == stack
  {
    InnerNone(stack);
    InnerOne(stack, "");
    if r == |p| {
      SplitWhole("");
      assert p[r..] == "";
    }
  }

  /** A segment is passed, with the slash behind it or without. */
  lemma AheadStep(p: string, r: nat, stack: seq<string>, seg: string)
    requires Ahead(p, r, stack) && SegmentFrom(p, r, seg)
    ensures Ahead(p, r + |seg|, Step(stack, seg)) && Ahead(p, r + |seg| + 1, Step(stack, seg))
  {
    StepKeepsPlain(p, r, stack, seg);
    hide Left, Inner, SegmentFrom, AllPlain, Step, Kept;
    LeftSplit(p, r, seg);
    var rest := Left(p, r + |seg| + 1);
    InnerOne(stack, seg);
    StepNothing(Step(stack, seg));
    InnerOne(Step(stack, seg), "");
    InnerCat(stack, [seg], rest);
    InnerCat(Step(stack, seg), [""], rest);
  }

  lemma StepNothing(stack: seq<string>)
    ensures Step(stack, "") == stack
  {
  }

  lemma StepKeepsPlain(p: string, r: nat, stack: seq<string>, seg: string)
    requires AllPlain(stack) && SegmentFrom(p, r, seg)
    ensures AllPlain(Step(stack, seg))
  {
  }

  ghost predicate AllPlain(stack: seq<string>) {
    forall k :: 0 <= k < |stack| ==> Plain(stack[k])
  }

  // ---------------------------------------------------------------- the path written

  lemma {:induction false} JoinSnoc(a: seq<string>, seg: string)
    requires a != []
    ensures Join(a + [seg]) == Join(a) + "/" + seg
  {
    if |a| == 1 {
      assert (a + [seg])[1..] == [seg];
    } else {
      assert (a + [seg])[1..] == a[1..] + [seg];
      JoinSnoc(a[1..], seg);
    }
  }

  lemma SpelledSnoc(a: seq<string>, seg: string)
    ensures Spelled(a + [seg]) == Spelled(a) + (if a == [] then "" else "/") + seg
  {
    if a == [] {
      assert a + [seg] == [seg];
    } else {
      JoinSnoc(a, seg);
    }
  }

  /** Where the last segment of a spelled path starts. */
  lemma SpelledPop(stack: seq<string>)
    requires stack != [] && AllPlain(stack)
    ensures var s, k := Spelled(stack), |Spelled(Pop(stack))|;
            && 1 <= k < |s| && s[..k] == Spelled(Pop(stack))
            && (k > 1 ==> s[k] == '/') && (forall j :: k < j < |s| ==> s[j] != '/') && (k == 1 || Pop(stack) != [])
  {
    var a, seg := Pop(stack), stack[|stack| - 1];
    assert stack == a + [seg];
    assert Plain(seg);
    SpelledSnoc(a, seg);
    hide Spelled, Join;
    var s, t := Spelled(stack), Spelled(a) + if a == [] then "" else "/";
    assert s == t + seg;
    assert forall j :: |t| <= j < |s| ==> s[j] == seg[j - |t|] && seg[j - |t|] in seg;
    SpelledLength(a);
  }

  lemma SpelledLength(a: seq<string>)
    ensures |Spelled(a)| >= 1 && (a == [] ==> Spelled(a) == "/")
    ensures AllPlain(a) && a != [] ==> |Spelled(a)| > 1
  {
    if AllPlain(a) && a != [] {
      JoinLast(a);
    }
  }

  /** What is written spells the stack. */
  ghost predicate Wrote(buf: array<char>, p: string, w: nat, stack: seq<string>)
    reads buf
  {
    && Fits(buf, p) && 1 <= w <= |p| + Shift(p)
    && View(buf, p, w) == Spelled(stack)
  }

  /** The distance between positions in the output and in the input. */
  function Shift(p: string): nat {
    if Rooted(p) then 0 else 1
  }

  /** The buffer, once there, has room for the input with a leading slash. */
  ghost predicate Fits(buf: array<char>, p: string) {
    if buf.Length == 0 then Rooted(p) else buf.Length == |p| + Shift(p)
  }

  lemma WroteSome(buf: array<char>, p: string, w: nat, stack: seq<string>)
    requires Wrote(buf, p, w, stack) && AllPlain(stack)
    ensures w > 1 <==> stack != []
  {
    SpelledLength(stack);
    assert |View(buf, p, w)| == w;
  }

  /** Go back to before the last segment. */
  method Backtrack(buf: array<char>, p: string, w: nat, ghost stack: seq<string>) returns (v: nat)
    requires Wrote(buf, p, w, stack) && stack != [] && AllPlain(stack)
    ensures 1 <= v < w && Wrote(buf, p, v, Pop(stack))
  {
    hide Spelled, AllPlain, Pop;
    ghost var s := View(buf, p, w);
    ghost var k := |Spelled(Pop(stack))|;
    SpelledPop(stack);
    v := w - 1;
    if buf.Length == 0 {
      while v > 1 && p[v] != '/'
        invariant k <= v < w
      {
        assert p[v] == s[v];
        v := v - 1;
      }
      assert p[v] == s[v];
      assert p[..v] == s[..v];
    } else {
      while v > 1 && buf[v] != '/'
        invariant k <= v < w
      {
        assert buf[v] == s[v];
        v := v - 1;
      }
      assert buf[v] == s[v];
      assert buf[..v] == s[..v];
    }
  }

  /** Copy the segment at `r` behind `w` bytes. */
  method CopySegment(buf: array<char>, p: string, r: nat, w: nat)
    returns (b: array<char>, r': nat, w': nat, ghost seg: string)
    requires r < |p| && p[r] != '/' && Fits(buf, p) && w <= r + Shift(p)
    modifies buf
    ensures Fits(b, p) && (b == buf || fresh(b))
    ensures seg != "" && SegmentFrom(p, r, seg) && r' == r + |seg| && w' == w + |seg|
    ensures View(b, p, w') == old(View(buf, p, w)) + seg
  {
    hide View, NoSlash, SegmentFrom;
    b, r', w' := buf, r, w;
    ghost var out := View(buf, p, w);
    EmptyRun(p, r);
    assert out + "" == out;
    while r' < |p| && p[r'] != '/'
      invariant r <= r' <= |p| && w' - w == r' - r && Fits(b, p) && (b == buf || fresh(b))
      invariant NoSlash(p[r..r']) && View(b, p, w') == out + p[r..r']
      decreases |p| - r'
    {
      LongerRun(p, r, r');
      assert out + p[r..r'] + [p[r']] == out + p[r..r' + 1];
      b := BufApp(b, p, w', p[r']);
      w' := w' + 1;
      r' := r' + 1;
    }
    seg := p[r..r'];
    RunIsSegment(p, r, r');
  }

  lemma EmptyRun(p: string, r: nat)
    requires r <= |p|
    ensures p[r..r] == "" && NoSlash(p[r..r])
  {
  }

  lemma LongerRun(p: string, r: nat, e: nat)
    requires r <= e < |p| && NoSlash(p[r..e]) && p[e] != '/'
    ensures p[r..e + 1] == p[r..e] + [p[e]] && NoSlash(p[r..e + 1])
  {
  }

  lemma RunIsSegment(p: string, r: nat, e: nat)
    requires r < |p| && p[r] != '/' && r <= e <= |p| && NoSlash(p[r..e]) && (e == |p| || p[e] == '/')
    ensures p[r..e] != "" && SegmentFrom(p, r, p[r..e])
  {
  }

  // ---------------------------------------------------------------- positions

  predicate BehindSlash(p: string, r: nat)
    requires r <= |p|
  {
    r == 0 || p[r - 1] == '/'
  }

  predicate EndsInDot(p: string) {
    |p| > 0 && p[|p| - 1] == '.' && BehindSlash(p, |p| - 1)
  }

  /** Reading at `r`, `w` bytes written. Behind a slash there is room for one more; reading stops at
      slashes and at the end, and passes a final "." only by marking it. */
  predicate Placed(p: string, r: nat, w: nat, dotted: bool) {
    && p != "" && 1 <= r + Shift(p) && r <= |p| + 1 && w <= r + Shift(p) && w <= |p| + Shift(p)
    && (r <= |p| && BehindSlash(p, r) && w > 1 ==> w < r + Shift(p))
    && (r < |p| ==> BehindSlash(p, r) || p[r] == '/')
    && (r == |p| + 1 ==> p[|p| - 1] != '/')
    && (if dotted then EndsInDot(p) && r >= |p| && (w > 1 ==> w < |p| + Shift(p)) else EndsInDot(p) ==> r < |p|)
  }

  predicate ParentAt(p: string, r: nat) {
    r + 1 < |p| && p[r] == '.' && p[r + 1] == '.' && (r + 2 == |p| || p[r + 2] == '/')
  }

  lemma PlacedParent(p: string, r: nat, w: nat, dotted: bool, w': nat)
    requires Placed(p, r, w, dotted) && ParentAt(p, r) && w' <= w
    ensures Placed(p, r + 3, w', dotted) && SegmentFrom(p, r, "..")
  {
    assert p[r..r + 2] == "..";
  }

  lemma PlacedDot(p: string, r: nat, w: nat, dotted: bool)
    requires Placed(p, r, w, dotted) && r < |p| && p[r] == '.' && (r + 1 == |p| || p[r + 1] == '/')
    ensures SegmentFrom(p, r, ".") && !dotted
    ensures if r + 1 == |p| then Placed(p, r + 1, w, true) else Placed(p, r + 2, w, dotted)
  {
    assert p[r..r + 1] == ".";
  }

  lemma PlacedSlash(p: string, r: nat, w: nat, dotted: bool)
    requires Placed(p, r, w, dotted) && r < |p| && p[r] == '/'
    ensures Placed(p, r + 1, w, dotted) && SegmentFrom(p, r, "")
  {
  }

  /** A segment at a place where reading stops, that is neither empty nor dots, is plain. */
  lemma CopiedIsPlain(p: string, r: nat, seg: string)
    requires SegmentFrom(p, r, seg) && seg != "" && !ParentAt(p, r)
    requires !(p[r] == '.' && (r + 1 == |p| || p[r + 1] == '/'))
    ensures Plain(seg)
  {
    assert forall k :: 0 <= k < |seg| ==> seg[k] == p[r + k];
  }

  lemma PlacedSegment(p: string, r: nat, w: nat, seg: string, dotted: bool)
    requires Placed(p, r, w, dotted) && SegmentFrom(p, r, seg) && Plain(seg)
    ensures Placed(p, r + |seg|, w + |seg| + (if w > 1 then 1 else 0), dotted) && !dotted
    ensures w <= r + Shift(p) && (w > 1 ==> w < r + Shift(p))
  {
    var e := r + |seg|;
    assert forall k :: 0 <= k < |seg| ==> seg[k] == p[r + k];
    assert seg[0] in seg && p[r] == seg[0];
    assert seg[|seg| - 1] in seg && p[e - 1] == seg[|seg| - 1];
    if EndsInDot(p) && e == |p| {
      LoneDot(p, r, seg);
    }
  }

  lemma SlashAt(s: string, k: nat)
    requires k < |s| && s[k] == '/'
    ensures !NoSlash(s)
  {
  }

  /** A segment behind which a path ends in a lone dot is that dot. */
  lemma LoneDot(p: string, r: nat, seg: string)
    requires EndsInDot(p) && r + |seg| == |p| && BehindSlash(p, r) && NoSlash(seg)
    requires forall k :: 0 <= k < |seg| ==> seg[k] == p[r + k]
    ensures seg == "."
  {
    if |seg| >= 2 {
      SlashAt(seg, |seg| - 2);
      assert false;
    }
  }

  /** The last segment is what follows the last slash. */
  lemma {:induction false} LastSegment(s: string) returns (r: nat)
    ensures var last := Split(s)[|Split(s)| - 1];
            r <= |s| && NoSlash(last) && last == s[r..] && BehindSlash(s, r)
    decreases |s|
  {
    hide Split;
    var i := IndexOf(s, '/');
    if i < |s| {
      var t := s[i + 1..];
      r := LastSegment(t);
      assert s == s[..i] + "/" + t;
      SplitFirst(s[..i], t);
      r := r + i + 1;
      assert s[r..] == t[r - i - 1..];
    } else {
      SplitWhole(s);
      r := 0;
    }
  }

  lemma FinalDotIs(p: string)
    ensures FinalDot(p) <==> EndsInDot(p)
  {
    hide Split, EndsInDot;
    var s := Body(p);
    var k := LastSegment(s);
    LastInBody(p, k);
    LastIsDot(p, k + 1 - Shift(p));
  }

  lemma LastInBody(p: string, k: nat)
    requires k <= |Body(p)| && BehindSlash(Body(p), k)
    ensures k + 1 - Shift(p) <= |p| && Body(p)[k..] == p[k + 1 - Shift(p)..] && BehindSlash(p, k + 1 - Shift(p))
  {
  }

  lemma LastIsDot(p: string, r: nat)
    requires r <= |p| && NoSlash(p[r..]) && BehindSlash(p, r)
    ensures p[r..] == "." <==> EndsInDot(p)
  {
    var last := p[r..];
    assert forall k :: 0 <= k < |last| ==> last[k] == p[r + k];
    if EndsInDot(p) {
      LoneDot(p, r, last);
    }
  }

  // ---------------------------------------------------------------- the loop

  /** `CleanUrlPath`. */
  method CleanUrlPath(p: string) returns (res: string)
    ensures res == Cleaned(p)
  {
    hide Cleaned, Ahead, Wrote, Placed, SegmentFrom;
    if p == "" {
      CleanedNothing();
      return "/";
    }
    var n := |p|;
    var buf := new char[0];
    var r: nat, w: nat := 1, 1;
    if p[0] != '/' {
      r := 0;
      buf := new char[n + 1];
      buf[0] := '/';
    }
    var trailing := n > 1 && p[n - 1] == '/';
    ghost var stack, dotted := [], false;
    AheadFirst(p);
    CleaningStarts(buf, p, r);
    while r < n
      invariant Ahead(p, r, stack) && Placed(p, r, w, dotted) && Wrote(buf, p, w, stack) && fresh(buf)
      invariant trailing == ((n > 1 && p[n - 1] == '/') || dotted)
      decreases n - r
    {
      if p[r] == '/' {
        PlacedSlash(p, r, w, dotted);
        AheadStep(p, r, stack, "");
        r := r + 1;
      } else if p[r] == '.' && r + 1 == n {
        PlacedDot(p, r, w, dotted);
        AheadStep(p, r, stack, ".");
        trailing, dotted := true, true;
        r := r + 1;
      } else if p[r] == '.' && p[r + 1] == '/' {
        PlacedDot(p, r, w, dotted);
        AheadStep(p, r, stack, ".");
        r := r + 2;
      } else if p[r] == '.' && p[r + 1] == '.' && (r + 2 == n || p[r + 2] == '/') {
        var w' := Parent(buf, p, r, w, stack);
        PlacedParent(p, r, w, dotted, w');
        AheadStep(p, r, stack, "..");
        r, w, stack := r + 3, w', Pop(stack);
      } else {
        buf, r, w, stack := Element(buf, p, r, w, stack, dotted);
      }
    }
    res := Finish(buf, p, r, w, trailing, stack, dotted);
  }

  lemma CleanedNothing()
    ensures Cleaned("") == "/"
  {
    SplitWhole("");
    InnerOne([], "");
  }

  lemma CleaningStarts(buf: array<char>, p: string, r: nat)
    requires p != "" && r + Shift(p) == 1
    requires if Rooted(p) then buf.Length == 0 else buf.Length == |p| + 1 && buf[0] == '/'
    ensures Placed(p, r, 1, false) && Wrote(buf, p, 1, [])
  {
    assert View(buf, p, 1) == "/";
  }

  /** ".." removes the last element, if there is one. */
  method Parent(buf: array<char>, p: string, r: nat, w: nat, ghost stack: seq<string>) returns (w': nat)
    requires Wrote(buf, p, w, stack) && Ahead(p, r, stack)
    ensures w' <= w && Wrote(buf, p, w', Pop(stack))
  {
    hide Wrote, Ahead, AllPlain;
    AheadPlain(p, r, stack);
    WroteSome(buf, p, w, stack);
    w' := w;
    if w > 1 {
      w' := Backtrack(buf, p, w, stack);
    }
  }

  /** Copy an element, behind a slash unless it is the first. */
  method Element(buf: array<char>, p: string, r: nat, w: nat, ghost stack: seq<string>, ghost dotted: bool)
    returns (b: array<char>, r': nat, w': nat, ghost stack': seq<string>)
    requires Ahead(p, r, stack) && Placed(p, r, w, dotted) && Wrote(buf, p, w, stack)
    requires r < |p| && p[r] != '/' && !ParentAt(p, r) && !(p[r] == '.' && (r + 1 == |p| || p[r + 1] == '/'))
    modifies buf
    ensures r < r' && (b == buf || fresh(b))
    ensures Ahead(p, r', stack') && Placed(p, r', w', dotted) && Wrote(b, p, w', stack')
  {
    hide Ahead, Placed, SegmentFrom, Wrote, AllPlain;
    AheadPlain(p, r, stack);
    WroteSome(buf, p, w, stack);
    RoomForSlash(p, r, w, dotted);
    ghost var seg;
    b, r', w', seg := WriteElement(buf, p, r, w, stack);
    stack' := stack + [seg];
    PassElement(p, r, w, stack, seg, dotted);
  }

  method WriteElement(buf: array<char>, p: string, r: nat, w: nat, ghost stack: seq<string>)
    returns (b: array<char>, r': nat, w': nat, ghost seg: string)
    requires Wrote(buf, p, w, stack) && (w > 1 <==> stack != [])
    requires r < |p| && p[r] != '/' && w <= r + Shift(p) && (w > 1 ==> w < r + Shift(p))
    modifies buf
    ensures b == buf || fresh(b)
    ensures seg != "" && SegmentFrom(p, r, seg) && r' == r + |seg| && w' == w + |seg| + (if w > 1 then 1 else 0)
    ensures Wrote(b, p, w', stack + [seg])
  {
    hide Spelled;
    b, w' := buf, w;
    ghost var out := View(b, p, w);
    if w' > 1 {
      b := BufApp(b, p, w', '/');
      w' := w' + 1;
      out := out + "/";
    }
    b, r', w', seg := CopySegment(b, p, r, w');
    SpelledSnoc(stack, seg);
    hide View, SegmentFrom;
    assert stack == [] ==> out == Spelled(stack) + "";
    assert View(b, p, w') == out + seg == Spelled(stack + [seg]);
  }

  lemma PassElement(p: string, r: nat, w: nat, stack: seq<string>, seg: string, dotted: bool)
    requires Ahead(p, r, stack) && Placed(p, r, w, dotted) && SegmentFrom(p, r, seg) && seg != ""
    requires p[r] != '/' && !ParentAt(p, r) && !(p[r] == '.' && (r + 1 == |p| || p[r + 1] == '/'))
    ensures Ahead(p, r + |seg|, stack + [seg])
    ensures Placed(p, r + |seg|, w + |seg| + (if w > 1 then 1 else 0), dotted)
  {
    CopiedIsPlain(p, r, seg);
    hide Ahead, Placed, SegmentFrom;
    assert Step(stack, seg) == stack + [seg];
    PlacedSegment(p, r, w, seg, dotted);
    AheadStep(p, r, stack, seg);
  }

  lemma RoomForSlash(p: string, r: nat, w: nat, dotted: bool)
    requires Placed(p, r, w, dotted) && r < |p| && p[r] != '/'
    ensures w <= r + Shift(p) && (w > 1 ==> w < r + Shift(p))
  {
  }

  /** Add the trailing slash and take the result. */
  method Finish(buf: array<char>, p: string, r: nat, w: nat, trailing: bool, ghost stack: seq<string>, ghost dotted: bool)
    returns (res: string)
    requires Ahead(p, r, stack) && Placed(p, r, w, dotted) && Wrote(buf, p, w, stack) && r >= |p|
    requires trailing == ((|p| > 1 && p[|p| - 1] == '/') || dotted)
    modifies buf
    ensures res == Cleaned(p)
  {
    hide Spelled, Kept, FinalDot, Ahead, Placed, EndsInDot, AllPlain;
    AtTheEnd(p, r, w, dotted);
    AheadPlain(p, r, stack);
    WroteSome(buf, p, w, stack);
    AheadLast(p, r, stack);
    assert trailing == Trailing(p);
    var b, v := buf, w;
    if trailing && v > 1 {
      b := BufApp(b, p, v, '/');
      v := v + 1;
    }
    assert View(b, p, v) == Cleaned(p);
    if b.Length == 0 {
      return p[..v];
    }
    return b[..v];
  }

  lemma AtTheEnd(p: string, r: nat, w: nat, dotted: bool)
    requires Placed(p, r, w, dotted) && r >= |p|
    ensures p != "" && (dotted <==> FinalDot(p))
    ensures (p[|p| - 1] == '/' || dotted) && w > 1 ==> w < |p| + Shift(p)
  {
    FinalDotIs(p);
    hide FinalDot;
  }
}
