/** Which lookups need more cells than their buffer has, in terms of the added keys
    (fasthttp-routing/store.go, `get`; fasthttp-routing/router.go, where contexts keep the buffer they
    were made with). */
module RouteBuffer {
  import opened Basics
  import opened RouteKeys
  import opened RouteTree
  import opened RouteSearch

  /** The key matches the front of the path up to and including its parameter number `k`. */
  predicate Walks(re: Matcher, key: string, path: string, k: nat)
    decreases |key|
  {
    if key == "" then false
    else if StartsWithToken(key) then
      var tok := FirstToken(key);
      var n := Consumed(re, tok, path);
      n.Some? && (k == 0 || Walks(re, key[|tok|..], path[n.value..], k - 1))
    else path != "" && path[0] == key[0] && Walks(re, key[1..], path[1..], k)
  }

  lemma {:induction false} WalksLiteral(re: Matcher, lit: string, rest: string, path: string, k: nat)
    requires IsLiteral(lit)
    ensures Walks(re, lit + rest, path, k) <==> lit <= path && Walks(re, rest, path[|lit|..], k)
  {
    if lit == "" {
      assert lit + rest == rest && path[0..] == path;
    } else {
      assert lit[0] != '<' && (lit + rest)[1..] == lit[1..] + rest && IsLiteral(lit[1..]);
      if path != "" && path[0] == lit[0] {
        WalksLiteral(re, lit[1..], rest, path[1..], k);
        assert lit == [lit[0]] + lit[1..] && path == [path[0]] + path[1..];
        assert lit <= path <==> lit[1..] <= path[1..];
        assert lit <= path ==> path[1..][|lit[1..]|..] == path[|lit|..];
      }
    }
  }

  lemma {:induction false} WalksToken(re: Matcher, tok: string, rest: string, path: string, k: nat)
    requires IsToken(tok)
    ensures Walks(re, tok + rest, path, k) <==>
            var n := Consumed(re, tok, path);
            n.Some? && (k == 0 || Walks(re, rest, path[n.value..], k - 1))
  {
    TokenThenRest(tok, rest);
  }

  /** Through a node: its own key is taken off, and its parameter is counted. */
  lemma WalksNode<D>(re: Matcher, t: Tree<D>, rest: string, path: string, k: nat)
    requires if t.isStatic then IsLiteral(t.key) else IsToken(t.key)
    ensures Walks(re, t.key + rest, path, k) <==>
            var n := Step(re, t, path);
            && n.Some?
            && ((!t.isStatic && k == 0) || Walks(re, rest, path[n.value..], if t.isStatic then k else k - 1))
  {
    if t.isStatic {
      WalksLiteral(re, t.key, rest, path, k);
    } else {
      WalksToken(re, t.key, rest, path, k);
    }
  }

  /** A node's own key, and how many parameters it adds. */
  lemma OwnKey<D>(t: Tree<D>, hi: int)
    requires Valid(t, hi)
    ensures if t.isStatic then IsLiteral(t.key) && NamesBefore(t) == t.pnames
            else IsToken(t.key) && |t.pnames| == |NamesBefore(t)| + 1
  {
  }

  lemma StaticChild<D>(t: Tree<D>, c: char, hi: int)
    requires Valid(t, hi) && c in t.children
    ensures var k := t.children[c];
            Valid(k, hi) && k.isStatic && k.key != "" && k.key[0] == c != '<' && k.pnames == t.pnames
  {
    assert StaticKid(t, c, t.children[c]) && OrderedKid(t, t.children[c]);
  }

  lemma ParamChild<D>(t: Tree<D>, i: nat, hi: int)
    requires Valid(t, hi) && i < |t.pchildren|
    ensures var k := t.pchildren[i]; Valid(k, hi) && !k.isStatic && Attained(k) && NamesBefore(k) == t.pnames
  {
    assert ParamKid(t, t.pchildren[i]) && OrderedKid(t, t.pchildren[i]);
  }

  lemma LookupPrefix<D>(t: Tree<D>, key: string)
    requires Lookup(t, key).Some?
    ensures t.key <= key && key == t.key + key[|t.key|..] && LookupBelow(t, key[|t.key|..]) == Lookup(t, key)
  {
  }

  /** Where the rest of a key is looked up. */
  lemma LookupStep<D>(t: Tree<D>, rest: string)
    requires rest != ""
    ensures LookupBelow(t, rest) ==
            if rest[0] in t.children then Lookup(t.children[rest[0]], rest)
            else
              var i := ParamIndex(t.pchildren, rest);
              if i < |t.pchildren| then Lookup(t.pchildren[i], rest) else None
  {
  }

  // ---------------------------------------------------------------- where pruning lets a key through

  /** What is stored under each key. */
  type Entries<D> = string -> Option<Entry<D>>

  /** A key that starts with `pre` is older than the order. */
  ghost predicate Sooner<D>(entries: Entries<D>, pre: string, order: int) {
    exists q :: pre <= q && entries(q).Some? && entries(q).value.order < order
  }

  /** Each key that starts with `pre`, goes on other than with `tok` and matches the path is younger
      than some key that starts with `pre` and `tok`. */
  ghost predicate Ahead<D>(re: Matcher, entries: Entries<D>, pre: string, tok: string, path: string) {
    forall q :: pre <= q && !(pre + tok <= q) && entries(q).Some? && Match(re, q, path).Some? ==>
      Sooner(entries, pre + tok, entries(q).value.order)
  }

  /** That holds at each parameter of the rest `key` of a key behind `pre`, up to number `k`. */
  ghost predicate Reached<D>(re: Matcher, entries: Entries<D>, pre: string, key: string, path: string, k: nat)
    decreases |key|
  {
    if key == "" then true
    else if StartsWithToken(key) then
      var tok := FirstToken(key);
      && Ahead(re, entries, pre, tok, path)
      && (k == 0 || Reached(re, entries, pre + tok, key[|tok|..], path, k - 1))
    else Reached(re, entries, pre + [key[0]], key[1..], path, k)
  }

  function At<D>(t: Tree<D>): Entries<D> {
    (q: string) => Lookup(t, q)
  }

  function Below<D>(t: Tree<D>): Entries<D> {
    (q: string) => LookupBelow(t, q)
  }

  /** Behind `x` the first entries and path are what the second are. */
  ghost predicate SameAt<D>(re: Matcher, e: Entries<D>, x: string, path: string, e': Entries<D>, path': string, q: string) {
    e(x + q) == e'(q) && (Match(re, x + q, path).Some? <==> Match(re, q, path').Some?)
  }

  ghost predicate Same<D>(re: Matcher, e: Entries<D>, x: string, path: string, e': Entries<D>, path': string, pre: string) {
    forall q :: pre <= q ==> SameAt(re, e, x, path, e', path', q)
  }

  lemma AheadSame<D>(
      re: Matcher, e: Entries<D>, x: string, path: string, e': Entries<D>, path': string, pre: string, tok: string)
    requires Same(re, e, x, path, e', path', pre)
    ensures Ahead(re, e, x + pre, tok, path) <==> Ahead(re, e', pre, tok, path')
  {
    hide Match, Sooner;
    assert x + pre + tok == x + (pre + tok);
    if Ahead(re, e, x + pre, tok, path) {
      forall q | pre <= q && !(pre + tok <= q) && e'(q).Some? && Match(re, q, path').Some?
        ensures Sooner(e', pre + tok, e'(q).value.order)
      {
        assert SameAt(re, e, x, path, e', path', q);
        PrefixBehind(x, pre, q);
        PrefixBehind(x, pre + tok, q);
        SoonerSame(re, e, x, path, e', path', pre, tok, e'(q).value.order);
      }
    }
    if Ahead(re, e', pre, tok, path') {
      forall q | x + pre <= q && !(x + pre + tok <= q) && e(q).Some? && Match(re, q, path).Some?
        ensures Sooner(e, x + pre + tok, e(q).value.order)
      {
        var r := q[|x|..];
        assert q == x + r;
        PrefixBehind(x, pre, r);
        PrefixBehind(x, pre + tok, r);
        assert SameAt(re, e, x, path, e', path', r);
        SoonerSame(re, e, x, path, e', path', pre, tok, e(q).value.order);
      }
    }
  }

  lemma PrefixBehind(x: string, a: string, b: string)
    ensures x + a <= x + b <==> a <= b
  {
    if x + a <= x + b {
      assert a == (x + a)[|x|..] && b == (x + b)[|x|..];
      assert (x + b)[..|x + a|] == x + a;
      assert forall i :: 0 <= i < |a| ==> b[i] == (x + b)[|x| + i] == (x + a)[|x| + i] == a[i];
    }
  }

  lemma SoonerSame<D>(
      re: Matcher, e: Entries<D>, x: string, path: string, e': Entries<D>, path': string, pre: string, tok: string, o: int)
    requires Same(re, e, x, path, e', path', pre)
    ensures Sooner(e, x + (pre + tok), o) <==> Sooner(e', pre + tok, o)
  {
    hide Match;
    if Sooner(e, x + (pre + tok), o) {
      var q :| x + (pre + tok) <= q && e(q).Some? && e(q).value.order < o;
      var r := q[|x|..];
      assert q == x + r;
      PrefixBehind(x, pre + tok, r);
      assert SameAt(re, e, x, path, e', path', r);
    }
    if Sooner(e', pre + tok, o) {
      var r :| pre + tok <= r && e'(r).Some? && e'(r).value.order < o;
      PrefixBehind(x, pre + tok, r);
      assert SameAt(re, e, x, path, e', path', r);
    }
  }

  lemma {:induction false} ReachedSame<D>(
      re: Matcher, e: Entries<D>, x: string, path: string, e': Entries<D>, path': string, pre: string, key: string, k: nat)
    requires Same(re, e, x, path, e', path', pre)
    ensures Reached(re, e, x + pre, key, path, k) <==> Reached(re, e', pre, key, path', k)
    decreases |key|
  {
    hide Match, Ahead, SameAt, IndexOf, IsToken;
    if key == "" {
    } else if StartsWithToken(key) {
      var tok := FirstToken(key);
      AheadSame(re, e, x, path, e', path', pre, tok);
      assert x + pre + tok == x + (pre + tok);
      if k > 0 {
        ReachedSame(re, e, x, path, e', path', pre + tok, key[|tok|..], k - 1);
      }
    } else {
      assert x + pre + [key[0]] == x + (pre + [key[0]]);
      ReachedSame(re, e, x, path, e', path', pre + [key[0]], key[1..], k);
    }
  }

  lemma {:induction false} ReachedLiteral<D>(
      re: Matcher, entries: Entries<D>, pre: string, lit: string, rest: string, path: string, k: nat)
    requires IsLiteral(lit)
    ensures Reached(re, entries, pre, lit + rest, path, k) <==> Reached(re, entries, pre + lit, rest, path, k)
    decreases lit
  {
    hide Match, Ahead;
    if lit == "" {
      assert lit + rest == rest && pre + lit == pre;
    } else {
      assert lit[0] != '<' && (lit + rest)[1..] == lit[1..] + rest && IsLiteral(lit[1..]);
      assert pre + [lit[0]] + lit[1..] == pre + lit;
      ReachedLiteral(re, entries, pre + [lit[0]], lit[1..], rest, path, k);
    }
  }

  lemma ReachedToken<D>(re: Matcher, entries: Entries<D>, tok: string, rest: string, path: string, k: nat)
    requires IsToken(tok)
    ensures Reached(re, entries, "", tok + rest, path, k) <==>
            && Ahead(re, entries, "", tok, path)
            && (k == 0 || Reached(re, entries, tok, rest, path, k - 1))
  {
    hide Match, Ahead, IndexOf;
    TokenThenRest(tok, rest);
    assert "" + tok == tok;
  }

  /** All keys of a node start with its own key, so nothing can be ahead of that. */
  lemma OwnTokenAhead<D>(re: Matcher, t: Tree<D>, path: string)
    ensures Ahead(re, At(t), "", t.key, path)
  {
    assert "" + t.key == t.key;
  }

  /** Through a node, as `WalksNode`. */
  lemma ReachedNode<D>(re: Matcher, t: Tree<D>, rest: string, path: string, k: nat)
    requires if t.isStatic then IsLiteral(t.key) else IsToken(t.key)
    requires Step(re, t, path).Some?
    ensures Reached(re, At(t), "", t.key + rest, path, k) <==>
            (!t.isStatic && k == 0) ||
            Reached(re, Below(t), "", rest, path[Step(re, t, path).value..], if t.isStatic then k else k - 1)
  {
    hide Reached, Ahead, Same, IsLiteral, IsToken, Consumed;
    var p := path[Step(re, t, path).value..];
    BelowIsSame(re, t, path);
    assert t.key + "" == t.key && "" + t.key == t.key;
    if t.isStatic {
      ReachedLiteral(re, At(t), "", t.key, rest, path, k);
      ReachedSame(re, At(t), t.key, path, Below(t), p, "", rest, k);
    } else {
      ReachedToken(re, At(t), t.key, rest, path, k);
      OwnTokenAhead(re, t, path);
      if k > 0 {
        ReachedSame(re, At(t), t.key, path, Below(t), p, "", rest, k - 1);
      }
    }
  }

  lemma BelowIsSame<D>(re: Matcher, t: Tree<D>, path: string)
    requires if t.isStatic then IsLiteral(t.key) else IsToken(t.key)
    requires Step(re, t, path).Some?
    ensures Same(re, At(t), t.key, path, Below(t), path[Step(re, t, path).value..], "")
  {
    hide Lookup, LookupBelow, Match, IsLiteral, IsToken, Consumed;
    forall q: string
      ensures SameAt(re, At(t), t.key, path, Below(t), path[Step(re, t, path).value..], q)
    {
      LookupCat(t, q);
      if t.isStatic {
        MatchLiteral(re, t.key, q, path);
      } else {
        MatchToken(re, t.key, q, path);
      }
    }
  }

  /** Into a static child. */
  lemma ReachedStatic<D>(re: Matcher, t: Tree<D>, key: string, p: string, k: nat)
    requires key != "" && key[0] in t.children && key[0] != '<'
    ensures Reached(re, Below(t), "", key, p, k) <==> Reached(re, At(t.children[key[0]]), "", key, p, k)
  {
    hide Reached, Match, Lookup, LookupBelow, Same;
    var kid := t.children[key[0]];
    var c := [key[0]];
    assert key == c + key[1..] && "" + c == c;
    ReachedLiteral(re, Below(t), "", c, key[1..], p, k);
    ReachedLiteral(re, At(kid), "", c, key[1..], p, k);
    assert Same(re, Below(t), "", p, At(kid), p, c) by {
      forall q: string | c <= q
        ensures SameAt(re, Below(t), "", p, At(kid), p, q)
      {
        assert "" + q == q && q[0] == key[0];
        LookupStep(t, q);
      }
      SameIntro(re, Below(t), "", p, At(kid), p, c);
    }
    ReachedSame(re, Below(t), "", p, At(kid), p, c, key[1..], k);
  }

  lemma SameIntro<D>(re: Matcher, e: Entries<D>, x: string, path: string, e': Entries<D>, path': string, pre: string)
    requires forall q :: pre <= q ==> SameAt(re, e, x, path, e', path', q)
    ensures Same(re, e, x, path, e', path', pre)
  {
  }

  /** Into a parameter child, unless it is pruned. */
  lemma ReachedParam<D>(re: Matcher, t: Tree<D>, i: nat, key: string, p: string, k: nat)
    requires Shaped(t) && i < |t.pchildren| && t.pchildren[i].key <= key
    ensures Reached(re, Below(t), "", key, p, k) <==>
            Ahead(re, Below(t), "", t.pchildren[i].key, p) && Reached(re, At(t.pchildren[i]), "", key, p, k)
  {
    hide Reached, Match, Lookup, LookupBelow, Same, Ahead, IsToken, Shaped;
    var kid := t.pchildren[i];
    ParamIsToken(t, i);
    var tok := kid.key;
    var rest := key[|tok|..];
    assert key == tok + rest && tok + "" == tok && "" + tok == tok;
    ReachedToken(re, Below(t), tok, rest, p, k);
    ReachedToken(re, At(kid), tok, rest, p, k);
    OwnTokenAhead(re, kid, p);
    if k > 0 {
      forall q: string | tok <= q
        ensures SameAt(re, Below(t), "", p, At(kid), p, q)
      {
        assert "" + q == q;
        ReachParamKid(t, i, q);
      }
      SameIntro(re, Below(t), "", p, At(kid), p, tok);
      ReachedSame(re, Below(t), "", p, At(kid), p, tok, rest, k - 1);
    }
  }

  lemma ParamIsToken<D>(t: Tree<D>, i: nat)
    requires Shaped(t) && i < |t.pchildren|
    ensures IsToken(t.pchildren[i].key)
  {
    assert ParamKid(t, t.pchildren[i]);
  }

  // ---------------------------------------------------------------- pruning

  /** A parameter child is tried exactly when its oldest key is ahead of all that match elsewhere. */
  lemma TriedIff<D>(re: Matcher, t: Tree<D>, i: nat, p: string, hi: int)
    requires Valid(t, hi) && hi <= MAX_INT32 && i < |t.pchildren|
    ensures t.pchildren[i].minOrder < OrderOf(BestBelow(re, t, i, p)) <==> Ahead(re, Below(t), "", t.pchildren[i].key, p)
  {
    hide BestBelow, Ahead, Shaped, Ordered;
    if t.pchildren[i].minOrder < OrderOf(BestBelow(re, t, i, p)) {
      TriedIsAhead(re, t, i, p, hi);
    } else {
      PrunedIsNotAhead(re, t, i, p, hi);
    }
  }

  lemma TriedIsAhead<D>(re: Matcher, t: Tree<D>, i: nat, p: string, hi: int)
    requires Valid(t, hi) && hi <= MAX_INT32 && i < |t.pchildren|
    requires t.pchildren[i].minOrder < OrderOf(BestBelow(re, t, i, p))
    ensures Ahead(re, Below(t), "", t.pchildren[i].key, p)
  {
    hide BestBelow, Shaped, Ordered, Lookup, LookupBelow, Match;
    var kid := t.pchildren[i];
    ParamChild(t, i, hi);
    var oldest := MinOrderIsLeast(kid, hi);
    LookupPrefix(kid, oldest);
    ReachParamKid(t, i, oldest);
    assert "" + kid.key == kid.key;
    forall q: string | !(kid.key <= q) && LookupBelow(t, q).Some? && Match(re, q, p).Some?
      ensures Sooner(Below(t), kid.key, LookupBelow(t, q).value.order)
    {
      MatchElsewhere(re, t, i, q, p, hi);
      assert Below(t)(oldest) == Lookup(kid, oldest);
    }
  }

  /** A match elsewhere was either seen before the child, or is younger than the child. */
  lemma MatchElsewhere<D>(re: Matcher, t: Tree<D>, i: nat, q: string, p: string, hi: int)
    requires Valid(t, hi) && i < |t.pchildren| && !(t.pchildren[i].key <= q)
    requires LookupBelow(t, q).Some? && Match(re, q, p).Some?
    ensures var o := LookupBelow(t, q).value.order;
            NoWorse(BestBelow(re, t, i, p), o) || t.pchildren[i].minOrder < o
  {
    hide BestBelow, BestStatic, Shaped, Lookup, Match, ParamIndex, Attained;
    var o := LookupBelow(t, q).value.order;
    if q == "" || q[0] in t.children {
      BestStaticComplete(re, t, q, p);
      BestBelowStatic(re, t, p);
      BestBelowMonotone(re, t, 0, i, p, o);
    } else {
      var j := ParamIndex(t.pchildren, q);
      if j < i {
        BestParamComplete(re, t, j, q, p);
        BestBelowMonotone(re, t, j + 1, i, p, o);
      } else {
        ParamChild(t, j, hi);
        LookupWithinOrders(t.pchildren[j], q, hi);
        assert Rising(t.pchildren);
      }
    }
  }

  lemma BestBelowStatic<D>(re: Matcher, t: Tree<D>, p: string)
    ensures BestBelow(re, t, 0, p) == BestStatic(re, t, p)
  {
  }

  lemma PrunedIsNotAhead<D>(re: Matcher, t: Tree<D>, i: nat, p: string, hi: int)
    requires Valid(t, hi) && hi <= MAX_INT32 && i < |t.pchildren|
    requires OrderOf(BestBelow(re, t, i, p)) <= t.pchildren[i].minOrder
    ensures !Ahead(re, Below(t), "", t.pchildren[i].key, p)
  {
    hide BestBelow, Shaped, Ordered, Lookup, LookupBelow, Match;
    var kid := t.pchildren[i];
    ParamChild(t, i, hi);
    var oldest := MinOrderIsLeast(kid, hi);
    LookupWithinOrders(kid, oldest, hi);
    var q := SeenElsewhere(re, t, i, p, hi);
    assert "" + kid.key == kid.key && "" <= q;
    var o := LookupBelow(t, q).value.order;
    if Sooner(Below(t), kid.key, o) {
      var r :| kid.key <= r && Below(t)(r).Some? && Below(t)(r).value.order < o;
      ReachParamKid(t, i, r);
      LookupWithinOrders(kid, r, hi);
    }
    assert Below(t)(q) == LookupBelow(t, q);
  }

  /** What was found before a parameter child is a key that does not lead to it. */
  lemma SeenElsewhere<D>(re: Matcher, t: Tree<D>, i: nat, p: string, hi: int) returns (q: string)
    requires Valid(t, hi) && i < |t.pchildren| && BestBelow(re, t, i, p).Some?
    ensures !(t.pchildren[i].key <= q) && LookupBelow(t, q).Some? && Match(re, q, p).Some?
    ensures LookupBelow(t, q).value.order == BestBelow(re, t, i, p).value.order
  {
    hide BestBelow, Ordered, Lookup, LookupBelow, Match, Best, BestStatic;
    var h := BestBelow(re, t, i, p).value;
    var j := BestBelowSource(re, t, i, p, h);
    if j < |t.pchildren| {
      ParamChild(t, j, hi);
      ParamChild(t, i, hi);
      q := BestParamFound(re, t, j, p);
      if t.pchildren[i].key <= q {
        ReachParamKid(t, i, q);
        ReachParamKid(t, j, q);
      }
    } else {
      q := BestStaticFound(re, t, p, hi);
      if t.pchildren[i].key <= q {
        ReachParamKid(t, i, q);
      }
    }
  }

  lemma BestParamFound<D>(re: Matcher, t: Tree<D>, j: nat, p: string) returns (q: string)
    requires Shaped(t) && j < |t.pchildren| && Best(re, t.pchildren[j], p).Some?
    ensures t.pchildren[j].key <= q && Match(re, q, p).Some?
    ensures LookupBelow(t, q).Some? && LookupBelow(t, q).value.order == Best(re, t.pchildren[j], p).value.order
  {
    hide Lookup, LookupBelow, Match, Best;
    assert ParamKid(t, t.pchildren[j]);
    q := BestSound(re, t.pchildren[j], p);
    LookupPrefix(t.pchildren[j], q);
    ReachParamKid(t, j, q);
  }

  lemma BestStaticFound<D>(re: Matcher, t: Tree<D>, p: string, hi: int) returns (q: string)
    requires Valid(t, hi) && BestStatic(re, t, p).Some?
    ensures (q == "" || q[0] in t.children) && Match(re, q, p).Some?
    ensures LookupBelow(t, q).Some? && LookupBelow(t, q).value.order == BestStatic(re, t, p).value.order
  {
    hide Lookup, Best, Shaped, Ordered;
    if p == "" {
      q := "";
    } else {
      var kid := t.children[p[0]];
      StaticChild(t, p[0], hi);
      q := BestSound(re, kid, p);
      LookupPrefix(kid, q);
      LookupStep(t, q);
    }
  }

  // ---------------------------------------------------------------- only such keys

  /** The key leads past a buffer with `k` cells left, and pruning lets it through. */
  ghost predicate Leads<D>(re: Matcher, entries: Entries<D>, key: string, path: string, k: nat) {
    entries(key).Some? && Walks(re, key, path, k) && Reached(re, entries, "", key, path, k)
  }

  /** If the search runs out of cells, some stored key leads to the missing one. */
  lemma {:induction false} OverrunsSound<D>(re: Matcher, t: Tree<D>, path: string, size: nat, hi: int) returns (key: string)
    requires Valid(t, hi) && hi <= MAX_INT32 && Overruns(re, t, path, size)
    requires |NamesBefore(t)| <= size && (t.isStatic || Attained(t))
    ensures Leads(re, At(t), key, path, size - |NamesBefore(t)|)
    decreases t, 2
  {
    hide Overruns, OverrunsBelow, Walks, Reached, Shaped, Ordered, Lookup, LookupBelow, Step, IsToken, IsLiteral;
    OverrunsStep(re, t, path, size);
    OwnKey(t, hi);
    var n := Step(re, t, path).value;
    if OverrunsHere(re, t, path, size) {
      key := MinOrderIsLeast(t, hi);
      LookupPrefix(t, key);
      WalksNode(re, t, key[|t.key|..], path, 0);
      ReachedNode(re, t, key[|t.key|..], path, 0);
    } else {
      var rest := OverrunsBelowSound(re, t, |t.pchildren|, path[n..], size, hi);
      key := t.key + rest;
      LookupCat(t, rest);
      WalksNode(re, t, rest, path, size - |NamesBefore(t)|);
      ReachedNode(re, t, rest, path, size - |NamesBefore(t)|);
    }
  }

  lemma {:induction false} OverrunsBelowSound<D>(
      re: Matcher, t: Tree<D>, i: nat, p: string, size: nat, hi: int) returns (rest: string)
    requires Valid(t, hi) && hi <= MAX_INT32
    requires i <= |t.pchildren| && OverrunsBelow(re, t, i, p, size) && |t.pnames| <= size
    ensures Leads(re, Below(t), rest, p, size - |t.pnames|)
    decreases t, 1, i
  {
    hide Overruns, OverrunsBelow, Walks, Reached, Ahead, Shaped, Ordered, Lookup, LookupBelow, BestBelow;
    if i == 0 {
      OverrunsStatic(re, t, p, size);
      StaticChild(t, p[0], hi);
      rest := OverrunsSound(re, t.children[p[0]], p, size, hi);
      LookupPrefix(t.children[p[0]], rest);
      LookupStep(t, rest);
      ReachedStatic(re, t, rest, p, size - |t.pnames|);
    } else {
      BestBelowStep(re, t, i - 1, p, size);
      if OverrunsBelow(re, t, i - 1, p, size) {
        rest := OverrunsBelowSound(re, t, i - 1, p, size, hi);
      } else {
        ParamChild(t, i - 1, hi);
        rest := OverrunsSound(re, t.pchildren[i - 1], p, size, hi);
        LookupPrefix(t.pchildren[i - 1], rest);
        ReachParamKid(t, i - 1, rest);
        TriedIff(re, t, i - 1, p, hi);
        ReachedParam(re, t, i - 1, rest, p, size - |t.pnames|);
      }
    }
  }

  lemma OverrunsStatic<D>(re: Matcher, t: Tree<D>, p: string, size: nat)
    ensures OverrunsBelow(re, t, 0, p, size) <==>
            p != "" && p[0] in t.children && Overruns(re, t.children[p[0]], p, size)
  {
  }

  // ---------------------------------------------------------------- and all of them

  /** A key that leads past the buffer makes the search run out of cells. */
  lemma {:induction false} OverrunsComplete<D>(re: Matcher, t: Tree<D>, key: string, path: string, size: nat, hi: int)
    requires Valid(t, hi) && hi <= MAX_INT32 && |NamesBefore(t)| <= size
    requires Leads(re, At(t), key, path, size - |NamesBefore(t)|)
    ensures Overruns(re, t, path, size)
    decreases t, 2
  {
    hide Overruns, OverrunsBelow, Walks, Reached, Shaped, Ordered, Lookup, LookupBelow, Step, IsToken, IsLiteral;
    LookupPrefix(t, key);
    OwnKey(t, hi);
    var rest := key[|t.key|..];
    WalksNode(re, t, rest, path, size - |NamesBefore(t)|);
    OverrunsStep(re, t, path, size);
    if t.isStatic || |NamesBefore(t)| < size {
      ReachedNode(re, t, rest, path, size - |NamesBefore(t)|);
      OverrunsBelowComplete(re, t, rest, path[Step(re, t, path).value..], size, hi);
    }
  }

  lemma {:induction false} OverrunsBelowComplete<D>(re: Matcher, t: Tree<D>, rest: string, p: string, size: nat, hi: int)
    requires Valid(t, hi) && hi <= MAX_INT32 && |t.pnames| <= size && Leads(re, Below(t), rest, p, size - |t.pnames|)
    ensures OverrunsBelow(re, t, |t.pchildren|, p, size)
    decreases t, 1
  {
    hide Overruns, OverrunsBelow, Walks, Reached, Ahead, Shaped, Ordered, Lookup, LookupBelow, BestBelow, ParamIndex;
    var n, k := |t.pchildren|, size - |t.pnames|;
    WalksSomewhere(re, rest, p, k);
    LookupStep(t, rest);
    if rest[0] in t.children {
      StaticChild(t, rest[0], hi);
      WalksStatic(re, rest, p, k);
      OverrunsStatic(re, t, p, size);
      ReachedStatic(re, t, rest, p, k);
      OverrunsComplete(re, t.children[rest[0]], rest, p, size, hi);
      OverrunsMore(re, t, 0, n, p, size);
    } else {
      var i := ParamIndex(t.pchildren, rest);
      ParamChild(t, i, hi);
      LookupPrefix(t.pchildren[i], rest);
      ReachedParam(re, t, i, rest, p, k);
      TriedIff(re, t, i, p, hi);
      BestBelowStep(re, t, i, p, size);
      OverrunsComplete(re, t.pchildren[i], rest, p, size, hi);
      OverrunsMore(re, t, i + 1, n, p, size);
    }
  }

  lemma WalksSomewhere(re: Matcher, rest: string, p: string, k: nat)
    requires Walks(re, rest, p, k)
    ensures rest != ""
  {
  }

  lemma WalksStatic(re: Matcher, rest: string, p: string, k: nat)
    requires rest != "" && rest[0] != '<' && Walks(re, rest, p, k)
    ensures p != "" && p[0] == rest[0]
  {
  }

  // ---------------------------------------------------------------- histories

  /** What a history stores. */
  function Stored<D>(adds: seq<Added<D>>): Entries<D> {
    (q: string) => EntryFor(adds, q)
  }

  /** For every history, path and buffer: the lookup goes past the end of the buffer if and only if
      some added key does so by itself and no older match keeps the search away from it. */
  lemma OverrunsIff<D>(re: Matcher, t: Tree<D>, adds: seq<Added<D>>, path: string, size: nat)
    requires Indexes(t, adds) && |adds| < MAX_INT32
    ensures Overruns(re, t, path, size) <==> exists key :: Leads(re, Stored(adds), key, path, size)
  {
    hide Overruns, Walks, Reached, Shaped, Ordered, Lookup;
    var hi := |adds| + 1;
    forall key: string
      ensures Leads(re, Stored(adds), key, path, size) <==> Leads(re, At(t), key, path, size)
    {
      StoredIsAt(re, t, adds, path);
      assert "" + "" == "";
      ReachedSame(re, Stored(adds), "", path, At(t), path, "", key, size);
    }
    if Overruns(re, t, path, size) {
      var key := OverrunsSound(re, t, path, size, hi);
    }
    forall key | Leads(re, At(t), key, path, size)
      ensures Overruns(re, t, path, size)
    {
      OverrunsComplete(re, t, key, path, size, hi);
    }
  }

  lemma StoredIsAt<D>(re: Matcher, t: Tree<D>, adds: seq<Added<D>>, path: string)
    requires Indexes(t, adds)
    ensures forall q :: Stored(adds)(q) == At(t)(q)
    ensures Same(re, Stored(adds), "", path, At(t), path, "")
  {
    hide Match, Lookup, EntryFor;
    forall q: string
      ensures SameAt(re, Stored(adds), "", path, At(t), path, q)
    {
      assert "" + q == q;
    }
  }

  /** In particular a key that wins, or precedes the winner, or is added while there is no winner, is
      reached: with more parameters than cells on its way it makes the lookup panic. */
  lemma WinnerOverruns<D>(re: Matcher, t: Tree<D>, adds: seq<Added<D>>, i: nat, path: string, size: nat)
    requires Indexes(t, adds) && i < |adds| < MAX_INT32 && i <= FirstMatch(re, adds, path)
    requires Walks(re, adds[i].key, path, size)
    ensures Overruns(re, t, path, size)
  {
    hide Overruns, Walks, Reached, Indexes, FirstMatch;
    OldestReached(re, adds, i, "", adds[i].key, path, size);
    assert Leads(re, Stored(adds), adds[i].key, path, size);
    OverrunsIff(re, t, adds, path, size);
  }

  lemma {:induction false} OldestReached<D>(
      re: Matcher, adds: seq<Added<D>>, i: nat, pre: string, rest: string, path: string, k: nat)
    requires i < |adds| && i <= FirstMatch(re, adds, path) && adds[i].key == pre + rest
    ensures Reached(re, Stored(adds), pre, rest, path, k)
    decreases |rest|
  {
    hide Match, FirstMatch, FirstAddition, IndexOf, IsToken, Ahead;
    if rest == "" {
    } else if StartsWithToken(rest) {
      var tok := FirstToken(rest);
      assert pre + rest == pre + tok + rest[|tok|..];
      OldestAhead(re, adds, i, pre, tok, path);
      if k > 0 {
        OldestReached(re, adds, i, pre + tok, rest[|tok|..], path, k - 1);
      }
    } else {
      assert pre + rest == pre + [rest[0]] + rest[1..];
      OldestReached(re, adds, i, pre + [rest[0]], rest[1..], path, k);
    }
  }

  lemma OldestAhead<D>(re: Matcher, adds: seq<Added<D>>, i: nat, pre: string, tok: string, path: string)
    requires i < |adds| && i <= FirstMatch(re, adds, path) && pre + tok <= adds[i].key
    ensures Ahead(re, Stored(adds), pre, tok, path)
  {
    hide Match, FirstMatch, FirstAddition;
    var key := adds[i].key;
    assert FirstAddition(adds, key) <= i;
    assert Stored(adds)(key).Some?;
  }

  /** For example, a buffer made before the first route with a parameter was added. */
  lemma OldBufferOverruns<D>(re: Matcher, t: Tree<D>, d: D)
    requires Indexes(t, [Added("/<a>", d)])
    ensures Overruns(re, t, "/x", 0)
  {
    hide Overruns, Indexes, Walks, FirstMatch;
    OldBufferWalks(re);
    WinnerOverruns(re, t, [Added("/<a>", d)], 0, "/x", 0);
  }

  lemma OldBufferWalks(re: Matcher)
    ensures Walks(re, "/<a>", "/x", 0)
  {
    var tok := "<a>";
    IndexOfUnique(tok, '>', 2);
    assert RouteKeys.Inner(tok) == "a";
    IndexOfUnique("a", ':', 1);
    assert "/" + (tok + "") == "/<a>" && "/x"[1..] == "x";
    hide IsToken, IndexOf, PatternOf, Walks;
    WalksToken(re, tok, "", "x", 0);
    WalksLiteral(re, "/", tok + "", "/x", 0);
  }
}
