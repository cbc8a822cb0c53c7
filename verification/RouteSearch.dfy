/** Searching the radix tree: the unpruned reference search `Best`, and the theorem that it is
    the linear "first added wins" scan over the keys that built the tree
    (fasthttp-routing/README.md, section Routes). */
module RouteSearch {
  import opened Basics
  import opened RouteKeys
  import opened RouteTree

  /** A successful search: the data, when it was added, the parameter names and values. */
  datatype Hit<D> = Hit(data: D, order: int, names: seq<string>, values: seq<string>)

  /** The amount of path a node itself consumes. */
  function Step<D>(re: Matcher, t: Tree<D>, path: string): (r: Option<nat>)
    ensures r.Some? ==> r.value <= |path|
  {
    if t.isStatic then (if t.key <= path then Some(|t.key|) else None)
    else if IsToken(t.key) then Consumed(re, t.key, path)
    else None
  }

  function Better<D>(a: Option<Hit<D>>, b: Option<Hit<D>>): Option<Hit<D>> {
    if b.Some? && (a.None? || b.value.order < a.value.order) then b else a
  }

  function WithCapture<D>(t: Tree<D>, value: string, h: Option<Hit<D>>): Option<Hit<D>> {
    if t.isStatic || h.None? then h else Some(h.value.(values := [value] + h.value.values))
  }

  /** The match with the least order in the whole subtree. */
  function Best<D>(re: Matcher, t: Tree<D>, path: string): Option<Hit<D>>
    decreases t, 2
  {
    match Step(re, t, path)
    case None => None
    case Some(n) => WithCapture(t, path[..n], BestBelow(re, t, |t.pchildren|, path[n..]))
  }

  /** The best of the node's own data, its static child and its first `i` parameter children. */
  function BestBelow<D>(re: Matcher, t: Tree<D>, i: nat, rest: string): Option<Hit<D>>
    requires i <= |t.pchildren|
    decreases t, 1, i
  {
    if i == 0 then BestStatic(re, t, rest)
    else Better(BestBelow(re, t, i - 1, rest), Best(re, t.pchildren[i - 1], rest))
  }

  function BestStatic<D>(re: Matcher, t: Tree<D>, rest: string): Option<Hit<D>>
    decreases t, 0
  {
    if rest == "" then
      if t.data.Some? then Some(Hit(t.data.value, t.order, t.pnames, [])) else None
    else if rest[0] in t.children then Best(re, t.children[rest[0]], rest)
    else None
  }

  /** The names collected before the node. */
  function NamesBefore<D>(t: Tree<D>): seq<string>
  {
    if t.isStatic || t.pnames == [] then t.pnames else t.pnames[..|t.pnames| - 1]
  }

  ghost predicate Explains<D>(re: Matcher, h: Hit<D>, names: seq<string>, e: Option<Entry<D>>, key: string, path: string) {
    && e == Some(Entry(h.data, h.order))
    && Match(re, key, path) == Some(h.values)
    && h.names == names + Names(key)
  }

  /** What `Best` finds is a key of the tree that matches, with its names and captures. */
  lemma {:induction false} BestSound<D>(re: Matcher, t: Tree<D>, path: string) returns (key: string)
    requires Shaped(t) && Best(re, t, path).Some?
    ensures Explains(re, Best(re, t, path).value, NamesBefore(t), Lookup(t, key), key, path)
    decreases t, 2
  {
    var n := Step(re, t, path).value;
    var h := BestBelow(re, t, |t.pchildren|, path[n..]).value;
    var rest := BestBelowSound(re, t, path[n..], h);
    key := t.key + rest;
    StepSound(re, t, rest, path, n, h);
  }

  /** Putting a node's own key in front of what was found below it. */
  lemma StepSound<D>(re: Matcher, t: Tree<D>, rest: string, path: string, n: nat, h: Hit<D>)
    requires if t.isStatic then IsLiteral(t.key) else IsToken(t.key) && EndsWithOwnName(t)
    requires Step(re, t, path) == Some(n)
    requires Explains(re, h, t.pnames, LookupBelow(t, rest), rest, path[n..])
    ensures Explains(re, WithCapture(t, path[..n], Some(h)).value, NamesBefore(t),
                     Lookup(t, t.key + rest), t.key + rest, path)
  {
    LookupCat(t, rest);
    var key := t.key + rest;
    if t.isStatic {
      LiteralSound(re, t.key, rest, path, h.values);
    } else {
      TokenSound(re, t.key, rest, path, n, h.values);
      NamesAppend(t, rest, key);
    }
  }

  lemma NamesAppend<D>(t: Tree<D>, rest: string, key: string)
    requires !t.isStatic && IsToken(t.key) && EndsWithOwnName(t) && Names(key) == [NameOf(t.key)] + Names(rest)
    ensures t.pnames + Names(rest) == NamesBefore(t) + Names(key)
  {
    assert t.pnames == NamesBefore(t) + [NameOf(t.key)];
  }

  lemma LiteralSound(re: Matcher, lit: string, rest: string, path: string, values: seq<string>)
    requires IsLiteral(lit) && lit <= path
    requires Match(re, rest, path[|lit|..]) == Some(values)
    ensures Match(re, lit + rest, path) == Some(values)
    ensures Names(lit + rest) == Names(rest)
  {
    MatchLiteral(re, lit, rest, path);
  }

  lemma TokenSound(re: Matcher, tok: string, rest: string, path: string, n: nat, values: seq<string>)
    requires IsToken(tok) && Consumed(re, tok, path) == Some(n)
    requires Match(re, rest, path[n..]) == Some(values)
    ensures Match(re, tok + rest, path) == Some([path[..n]] + values)
    ensures Names(tok + rest) == [NameOf(tok)] + Names(rest)
  {
    MatchToken(re, tok, rest, path);
  }

  lemma {:induction false} BestBelowSound<D>(re: Matcher, t: Tree<D>, p: string, h: Hit<D>) returns (rest: string)
    requires Shaped(t) && BestBelow(re, t, |t.pchildren|, p) == Some(h)
    ensures Explains(re, h, t.pnames, LookupBelow(t, rest), rest, p)
    decreases t, 1
  {
    var j := BestBelowSource(re, t, |t.pchildren|, p, h);
    if j < |t.pchildren| {
      rest := BestParamSound(re, t, j, p);
    } else {
      rest := BestStaticSound(re, t, p);
    }
  }

  /** The best hit comes from one parameter child, or else from the static side. */
  lemma {:induction false} BestBelowSource<D>(re: Matcher, t: Tree<D>, i: nat, p: string, h: Hit<D>) returns (j: nat)
    requires i <= |t.pchildren| && BestBelow(re, t, i, p) == Some(h)
    ensures j < |t.pchildren| ==> j < i && Best(re, t.pchildren[j], p) == Some(h)
    ensures j >= |t.pchildren| ==> BestStatic(re, t, p) == Some(h)
  {
    if i == 0 {
      j := |t.pchildren|;
    } else if BestBelow(re, t, i - 1, p) == Some(h) {
      j := BestBelowSource(re, t, i - 1, p, h);
    } else {
      j := i - 1;
    }
  }

  lemma {:induction false} BestParamSound<D>(re: Matcher, t: Tree<D>, i: nat, p: string) returns (rest: string)
    requires Shaped(t) && i < |t.pchildren| && Best(re, t.pchildren[i], p).Some?
    ensures Explains(re, Best(re, t.pchildren[i], p).value, t.pnames, LookupBelow(t, rest), rest, p)
    decreases t, 0
  {
    var k := t.pchildren[i];
    assert ParamKid(t, k);
    rest := BestSound(re, k, p);
    assert NamesBefore(k) == t.pnames;
    ReachParamKid(t, i, rest);
  }

  /** A key that starts with the token of a parameter child is looked up there. */
  lemma ReachParamKid<D>(t: Tree<D>, i: nat, rest: string)
    requires Shaped(t) && i < |t.pchildren| && t.pchildren[i].key <= rest
    ensures rest != "" && rest[0] !in t.children && ParamIndex(t.pchildren, rest) == i
    ensures LookupBelow(t, rest) == Lookup(t.pchildren[i], rest)
  {
    var k := t.pchildren[i];
    assert ParamKid(t, k) && k.key <= rest && rest[0] == '<';
    assert '<' !in t.children by {
      assert forall c :: c in t.children ==> StaticKid(t, c, t.children[c]);
    }
    forall j | 0 <= j < i
      ensures !(t.pchildren[j].key <= rest)
    {
      assert ParamKid(t, t.pchildren[j]);
      if t.pchildren[j].key <= rest {
        TokensArePrefixFree(t.pchildren[j].key, k.key, rest);
      }
    }
    ParamIndexIs(t.pchildren, rest, i);
  }

  lemma {:induction false} BestStaticSound<D>(re: Matcher, t: Tree<D>, p: string) returns (rest: string)
    requires Shaped(t) && BestStatic(re, t, p).Some?
    ensures Explains(re, BestStatic(re, t, p).value, t.pnames, LookupBelow(t, rest), rest, p)
    decreases t, 0
  {
    if p == "" {
      rest := "";
    } else {
      var k := t.children[p[0]];
      assert StaticKid(t, p[0], k);
      rest := BestSound(re, k, p);
    }
  }

  /** Every node's parameters fit into a buffer of size `n`. */
  ghost predicate Fits<D>(t: Tree<D>, n: nat) {
    && |t.pnames| <= n
    && (forall c :: c in t.children ==> Fits(t.children[c], n))
    && (forall i :: 0 <= i < |t.pchildren| ==> Fits(t.pchildren[i], n))
  }

  lemma {:induction false} BestBelowFits<D>(re: Matcher, t: Tree<D>, i: nat, p: string, n: nat)
    requires Fits(t, n) && i <= |t.pchildren| && BestBelow(re, t, i, p).Some?
    ensures |BestBelow(re, t, i, p).value.names| <= n
    decreases t, 1
  {
    var h := BestBelow(re, t, i, p).value;
    var j := BestBelowSource(re, t, i, p, h);
    if j < |t.pchildren| {
      BestFits(re, t.pchildren[j], p, n);
    } else if p != "" {
      BestFits(re, t.children[p[0]], p, n);
    }
  }

  lemma {:induction false} BestFits<D>(re: Matcher, t: Tree<D>, path: string, n: nat)
    requires Fits(t, n) && Best(re, t, path).Some?
    ensures |Best(re, t, path).value.names| <= n
    decreases t, 2
  {
    var m := Step(re, t, path).value;
    BestBelowFits(re, t, |t.pchildren|, path[m..], n);
  }

  // ---------------------------------------------------------------- the buffer

  /** The order a search starts from: larger than any order it can meet. */
  const MAX_INT32 := 0x7FFF_FFFF

  function OrderOf<D>(h: Option<Hit<D>>): int {
    if h.None? then MAX_INT32 else h.value.order
  }

  /** The node matches and its own parameter has no cell in a buffer of this size. */
  predicate OverrunsHere<D>(re: Matcher, t: Tree<D>, path: string, size: nat) {
    !t.isStatic && |t.pnames| > size && Step(re, t, path).Some?
  }

  /** The pruned search writes a captured value past the end of a buffer of this size. */
  predicate Overruns<D>(re: Matcher, t: Tree<D>, path: string, size: nat)
    decreases t, 2
  {
    match Step(re, t, path)
    case None => false
    case Some(n) =>
      OverrunsHere(re, t, path, size) || OverrunsBelow(re, t, |t.pchildren|, path[n..], size)
  }

  /** The same below the node: in the static child, or in one of the first `i` parameter children
      that is not skipped. */
  predicate OverrunsBelow<D>(re: Matcher, t: Tree<D>, i: nat, rest: string, size: nat)
    requires i <= |t.pchildren|
    decreases t, 1, i
  {
    if i == 0 then rest != "" && rest[0] in t.children && Overruns(re, t.children[rest[0]], rest, size)
    else
      || OverrunsBelow(re, t, i - 1, rest, size)
      || (t.pchildren[i - 1].minOrder < OrderOf(BestBelow(re, t, i - 1, rest)) &&
          Overruns(re, t.pchildren[i - 1], rest, size))
  }

  lemma {:induction false} OverrunsMore<D>(re: Matcher, t: Tree<D>, i: nat, j: nat, rest: string, size: nat)
    requires i <= j <= |t.pchildren| && OverrunsBelow(re, t, i, rest, size)
    ensures OverrunsBelow(re, t, j, rest, size)
    decreases j
  {
    if i < j {
      OverrunsMore(re, t, i, j - 1, rest, size);
    }
  }

  lemma {:induction false} BestBelowStep<D>(re: Matcher, t: Tree<D>, i: nat, rest: string, size: nat)
    requires i < |t.pchildren|
    ensures BestBelow(re, t, i + 1, rest) == Better(BestBelow(re, t, i, rest), Best(re, t.pchildren[i], rest))
    ensures OverrunsBelow(re, t, i + 1, rest, size) <==>
            || OverrunsBelow(re, t, i, rest, size)
            || (t.pchildren[i].minOrder < OrderOf(BestBelow(re, t, i, rest)) && Overruns(re, t.pchildren[i], rest, size))
  {
  }

  lemma {:induction false} OverrunsStep<D>(re: Matcher, t: Tree<D>, path: string, size: nat)
    ensures Overruns(re, t, path, size) ==
            match Step(re, t, path)
            case None => false
            case Some(n) => OverrunsHere(re, t, path, size) || OverrunsBelow(re, t, |t.pchildren|, path[n..], size)
  {
  }

  /** A buffer that every node fits is never too small. */
  lemma {:induction false} FitsNeverOverruns<D>(re: Matcher, t: Tree<D>, path: string, size: nat)
    requires Fits(t, size)
    ensures !Overruns(re, t, path, size)
    decreases t, 2
  {
    var n := Step(re, t, path);
    if n.Some? {
      FitsNeverOverrunsBelow(re, t, |t.pchildren|, path[n.value..], size);
    }
  }

  lemma {:induction false} FitsNeverOverrunsBelow<D>(re: Matcher, t: Tree<D>, i: nat, rest: string, size: nat)
    requires Fits(t, size) && i <= |t.pchildren|
    ensures !OverrunsBelow(re, t, i, rest, size)
    decreases t, 1, i
  {
    if i == 0 {
      if rest != "" && rest[0] in t.children {
        FitsNeverOverruns(re, t.children[rest[0]], rest, size);
      }
    } else {
      FitsNeverOverrunsBelow(re, t, i - 1, rest, size);
      FitsNeverOverruns(re, t.pchildren[i - 1], rest, size);
    }
  }

  /** `h` is at least as good as order `o`. */
  predicate NoWorse<D>(h: Option<Hit<D>>, o: int) {
    h.Some? && h.value.order <= o
  }

  /** Every matching key of the tree is met with an order no larger than its own. */
  lemma {:induction false} BestComplete<D>(re: Matcher, t: Tree<D>, key: string, path: string)
    requires Shaped(t) && Lookup(t, key).Some? && Match(re, key, path).Some?
    ensures NoWorse(Best(re, t, path), Lookup(t, key).value.order)
    decreases t, 2
  {
    StepComplete(re, t, key, path);
    BestBelowComplete(re, t, key[|t.key|..], path[Step(re, t, path).value..]);
  }

  /** If a key through the node matches, the node consumes its part and the rest matches. */
  lemma StepComplete<D>(re: Matcher, t: Tree<D>, key: string, path: string)
    requires (if t.isStatic then IsLiteral(t.key) else IsToken(t.key)) && t.key <= key
    requires Match(re, key, path).Some?
    ensures Step(re, t, path).Some?
    ensures Match(re, key[|t.key|..], path[Step(re, t, path).value..]).Some?
  {
    var rest := key[|t.key|..];
    assert key == t.key + rest;
    if t.isStatic {
      MatchLiteral(re, t.key, rest, path);
    } else {
      MatchToken(re, t.key, rest, path);
    }
  }

  lemma {:induction false} BestBelowComplete<D>(re: Matcher, t: Tree<D>, rest: string, p: string)
    requires Shaped(t) && LookupBelow(t, rest).Some? && Match(re, rest, p).Some?
    ensures NoWorse(BestBelow(re, t, |t.pchildren|, p), LookupBelow(t, rest).value.order)
    decreases t, 1
  {
    var o := LookupBelow(t, rest).value.order;
    if rest == "" || rest[0] in t.children {
      BestStaticComplete(re, t, rest, p);
      BestBelowMonotone(re, t, 0, |t.pchildren|, p, o);
    } else {
      var i := ParamIndex(t.pchildren, rest);
      BestParamComplete(re, t, i, rest, p);
      BestBelowMonotone(re, t, i + 1, |t.pchildren|, p, o);
    }
  }

  lemma {:induction false} BestParamComplete<D>(re: Matcher, t: Tree<D>, i: nat, rest: string, p: string)
    requires Shaped(t) && i < |t.pchildren|
    requires Lookup(t.pchildren[i], rest).Some? && Match(re, rest, p).Some?
    ensures NoWorse(BestBelow(re, t, i + 1, p), Lookup(t.pchildren[i], rest).value.order)
    decreases t, 0
  {
    BestComplete(re, t.pchildren[i], rest, p);
  }

  lemma {:induction false} BestStaticComplete<D>(re: Matcher, t: Tree<D>, rest: string, p: string)
    requires Shaped(t) && LookupBelow(t, rest).Some? && Match(re, rest, p).Some?
    requires rest == "" || rest[0] in t.children
    ensures NoWorse(BestStatic(re, t, p), LookupBelow(t, rest).value.order)
    decreases t, 0
  {
    if rest != "" {
      var k := t.children[rest[0]];
      assert StaticKid(t, rest[0], k) && rest[0] != '<';
      BestComplete(re, k, rest, p);
      LiteralHead(re, rest, p);
    }
  }

  lemma LiteralHead(re: Matcher, key: string, p: string)
    requires key != "" && key[0] != '<' && Match(re, key, p).Some?
    ensures p != "" && p[0] == key[0]
  {
  }

  lemma {:induction false} BestBelowMonotone<D>(re: Matcher, t: Tree<D>, i: nat, j: nat, p: string, o: int)
    requires i <= j <= |t.pchildren| && NoWorse(BestBelow(re, t, i, p), o)
    ensures NoWorse(BestBelow(re, t, j, p), o)
    decreases j
  {
    if i < j {
      BestBelowMonotone(re, t, i, j - 1, p, o);
    }
  }

  /** Nothing below a node is older than its `minOrder`: this is what makes pruning sound. */
  lemma {:induction false} BestNotBeforeMinOrder<D>(re: Matcher, t: Tree<D>, path: string, hi: int)
    requires Valid(t, hi) && Best(re, t, path).Some?
    ensures t.minOrder <= Best(re, t, path).value.order < hi
  {
    var key := BestSound(re, t, path);
    LookupWithinOrders(t, key, hi);
  }

  lemma {:induction false} LookupWithinOrders<D>(t: Tree<D>, key: string, hi: int)
    requires Valid(t, hi) && Lookup(t, key).Some?
    ensures t.minOrder <= Lookup(t, key).value.order < hi
    decreases t
  {
    var rest := key[|t.key|..];
    if rest == "" {
    } else if rest[0] in t.children {
      assert OrderedKid(t, t.children[rest[0]]);
      LookupWithinOrders(t.children[rest[0]], rest, hi);
    } else {
      var i := ParamIndex(t.pchildren, rest);
      assert OrderedKid(t, t.pchildren[i]);
      LookupWithinOrders(t.pchildren[i], rest, hi);
    }
  }

  /** `minOrder` of a non-root node is the least order in its subtree: some key has it. */
  lemma {:induction false} MinOrderIsLeast<D>(t: Tree<D>, hi: int) returns (key: string)
    requires Valid(t, hi) && Attained(t)
    ensures Lookup(t, key).Some? && Lookup(t, key).value.order == t.minOrder
    ensures forall k :: Lookup(t, k).Some? ==> t.minOrder <= Lookup(t, k).value.order
    decreases t
  {
    var rest := "";
    if t.data.Some? && t.order == t.minOrder {
    } else if c :| c in t.children && t.children[c].minOrder == t.minOrder {
      assert StaticKid(t, c, t.children[c]) && OrderedKid(t, t.children[c]);
      rest := MinOrderIsLeast(t.children[c], hi);
    } else {
      var i :| 0 <= i < |t.pchildren| && t.pchildren[i].minOrder == t.minOrder;
      assert ParamKid(t, t.pchildren[i]) && OrderedKid(t, t.pchildren[i]);
      rest := MinOrderIsLeast(t.pchildren[i], hi);
      ReachParamKid(t, i, rest);
    }
    key := t.key + rest;
    LookupCat(t, rest);
    forall k | Lookup(t, k).Some?
      ensures t.minOrder <= Lookup(t, k).value.order
    {
      LookupWithinOrders(t, k, hi);
    }
  }

  /** Every node has data below it, so a buffer that fits every stored key fits every node. */
  lemma {:induction false} KeysFit<D>(t: Tree<D>, hi: int, n: nat)
    requires Valid(t, hi) && |t.pnames| <= n
    requires forall k :: Lookup(t, k).Some? ==> |NamesBefore(t)| + |Names(k)| <= n
    ensures Fits(t, n)
    decreases t
  {
    hide Rising, Attained, Names;
    forall c | c in t.children
      ensures Fits(t.children[c], n)
    {
      var k := t.children[c];
      assert StaticKid(t, c, k) && OrderedKid(t, k);
      forall q | Lookup(k, q).Some?
        ensures |NamesBefore(k)| + |Names(q)| <= n
      {
        KeyThroughNode(t, q, n);
      }
      KeysFit(k, hi, n);
    }
    forall i | 0 <= i < |t.pchildren|
      ensures Fits(t.pchildren[i], n)
    {
      var k := t.pchildren[i];
      assert ParamKid(t, k) && OrderedKid(t, k);
      forall q | Lookup(k, q).Some?
        ensures |NamesBefore(k)| + |Names(q)| <= n
      {
        ReachParamKid(t, i, q);
        KeyThroughNode(t, q, n);
      }
      var q := MinOrderIsLeast(k, hi);
      assert |k.pnames| <= |NamesBefore(k)| + |Names(q)| by {
        NamesOfNode(k, q);
      }
      KeysFit(k, hi, n);
    }
  }

  lemma NamesOfNode<D>(t: Tree<D>, key: string)
    requires Shaped(t) && Lookup(t, key).Some?
    ensures |t.pnames| <= |NamesBefore(t)| + |Names(key)|
  {
    NamesFromNode(t, key[|t.key|..]);
    assert key == t.key + key[|t.key|..];
  }

  lemma KeyThroughNode<D>(t: Tree<D>, q: string, n: nat)
    requires Shaped(t) && LookupBelow(t, q).Some?
    requires forall k :: Lookup(t, k).Some? ==> |NamesBefore(t)| + |Names(k)| <= n
    ensures |t.pnames| + |Names(q)| <= n
  {
    LookupCat(t, q);
    NamesFromNode(t, q);
    assert Lookup(t, t.key + q).Some?;
  }

  /** The parameters of a key that runs through a node. */
  lemma NamesFromNode<D>(t: Tree<D>, rest: string)
    requires Shaped(t)
    ensures |NamesBefore(t)| + |Names(t.key + rest)| == |t.pnames| + |Names(rest)|
  {
    if t.isStatic {
      MatchLiteral((p, s) => None, t.key, rest, "");
    } else {
      MatchToken((p, s) => None, t.key, rest, "");
    }
  }

  // ---------------------------------------------------------------- histories of additions

  datatype Added<D> = Added(key: string, data: D)

  /** Index of the first addition of `key`, or `|adds|`. */
  function FirstAddition<D>(adds: seq<Added<D>>, key: string): (i: nat)
    ensures i <= |adds|
    ensures i < |adds| ==> adds[i].key == key
    ensures forall j :: 0 <= j < i ==> adds[j].key != key
  {
    if adds == [] || adds[0].key == key then 0 else 1 + FirstAddition(adds[1..], key)
  }

  /** Index of the first addition whose key matches the path, or `|adds|`: the routing rule. */
  function FirstMatch<D>(re: Matcher, adds: seq<Added<D>>, path: string): (i: nat)
    ensures i <= |adds|
    ensures i < |adds| ==> Match(re, adds[i].key, path).Some?
    ensures forall j :: 0 <= j < i ==> Match(re, adds[j].key, path).None?
  {
    if adds == [] || Match(re, adds[0].key, path).Some? then 0 else 1 + FirstMatch(re, adds[1..], path)
  }

  /** The tree holds the history: each added key with its first order, and no other key. */
  ghost predicate Indexes<D>(t: Tree<D>, adds: seq<Added<D>>) {
    && t.key == "" && t.isStatic && t.pnames == []
    && Valid(t, |adds| + 1)
    && forall k :: Lookup(t, k) == EntryFor(adds, k)
  }

  function EntryFor<D>(adds: seq<Added<D>>, k: string): Option<Entry<D>> {
    var i := FirstAddition(adds, k);
    if i < |adds| then Some(Entry(adds[i].data, i + 1)) else None
  }

  lemma EmptyIndexes<D>()
    ensures Indexes(EmptyTree<D>(), [])
  {
    forall k
      ensures Lookup(EmptyTree<D>(), k) == EntryFor([], k)
    {
      assert EmptyTree<D>().key + k == k;
      BareLookup<D>(true, "", 0, [], k);
    }
  }

  /** One more `Add` extends the history by one entry. */
  lemma AddIndexes<D>(t: Tree<D>, adds: seq<Added<D>>, key: string, d: D)
    requires Indexes(t, adds) && WellFormed(key)
    ensures Accepts(t, key) && Indexes(Add(t, key, d, |adds| + 1), adds + [Added(key, d)])
  {
    var order := |adds| + 1;
    AddValid(t, key, d, order);
    var t' := Add(t, key, d, order);
    var adds' := adds + [Added(key, d)];
    forall k
      ensures Lookup(t', k) == EntryFor(adds', k)
    {
      AddLookup(t, key, d, order, k);
      EntryForSnoc(adds, key, d, k);
    }
  }

  lemma EntryForSnoc<D>(adds: seq<Added<D>>, key: string, d: D, k: string)
    ensures EntryFor(adds + [Added(key, d)], k) == WithEntry(EntryFor(adds, k), k == key, Entry(d, |adds| + 1))
  {
    FirstAdditionSnoc(adds, Added(key, d), k);
  }

  lemma FirstAdditionSnoc<D>(adds: seq<Added<D>>, a: Added<D>, k: string)
    ensures FirstAddition(adds + [a], k) ==
            if FirstAddition(adds, k) < |adds| then FirstAddition(adds, k)
            else if a.key == k then |adds| else |adds| + 1
  {
    var i, i' := FirstAddition(adds, k), FirstAddition(adds + [a], k);
    assert forall j :: 0 <= j < |adds| ==> (adds + [a])[j] == adds[j];
    assert (adds + [a])[|adds|] == a;
    assert i < |adds| ==> (adds + [a])[i].key == k;
    assert i' < |adds| ==> adds[i'].key == k;
  }

  /** The outcome the documentation promises for a path. */
  function Expected<D>(re: Matcher, adds: seq<Added<D>>, path: string): Option<Hit<D>> {
    var i := FirstMatch(re, adds, path);
    if i == |adds| then None
    else Some(Hit(adds[i].data, i + 1, Names(adds[i].key), Match(re, adds[i].key, path).value))
  }

  /** The tree search is the linear scan: of all matching routes the one added first wins. */
  lemma SearchIsFirstMatch<D>(re: Matcher, t: Tree<D>, adds: seq<Added<D>>, path: string)
    requires Indexes(t, adds)
    ensures Best(re, t, path) == Expected(re, adds, path)
  {
    var i := FirstMatch(re, adds, path);
    if i < |adds| {
      var k := adds[i].key;
      var j := FirstAddition(adds, k);
      assert Lookup(t, k) == EntryFor(adds, k);
      assert i == j;
      BestComplete(re, t, k, path);
    }
    if Best(re, t, path).Some? {
      var key := BestSound(re, t, path);
      assert Lookup(t, key) == EntryFor(adds, key);
      HitIsAddition(re, adds, path, key, Best(re, t, path).value);
    }
  }

  lemma HitIsAddition<D>(re: Matcher, adds: seq<Added<D>>, path: string, key: string, h: Hit<D>)
    requires Explains(re, h, [], EntryFor(adds, key), key, path)
    requires FirstMatch(re, adds, path) < |adds| ==> h.order <= FirstMatch(re, adds, path) + 1
    ensures Expected(re, adds, path) == Some(h)
  {
    var i, j := FirstMatch(re, adds, path), FirstAddition(adds, key);
    assert j < |adds| && adds[j].key == key && h.order == j + 1;
    assert i == j;
    assert [] + Names(key) == Names(key);
  }
}
