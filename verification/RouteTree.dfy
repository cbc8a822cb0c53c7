/** The radix tree of fasthttp-routing/store.go as a value, and the laws that make it a
    faithful index of the keys added to it. The heap nodes of `RouteStore` are proved to
    carry exactly these values. */
module RouteTree {
  import opened Basics
  import opened RouteKeys

  /** One node and everything below it. `children` is indexed by the first byte of each static
      child; `pchildren` keeps the parameter children in the order they were created. */
  datatype Tree<D> = Node(
    isStatic: bool,
    key: string,
    data: Option<D>,
    order: int,
    minOrder: int,
    children: map<char, Tree<D>>,
    pchildren: seq<Tree<D>>,
    pnames: seq<string>)

  /** A node without data and children. */
  function Bare<D>(isStatic: bool, key: string, minOrder: int, pnames: seq<string>): Tree<D> {
    Node(isStatic, key, None, 0, minOrder, map[], [], pnames)
  }

  function EmptyTree<D>(): Tree<D> {
    Bare(true, "", 0, [])
  }

  /** The value stored under a key, with the order at which it was added. */
  datatype Entry<D> = Entry(data: D, order: int)

  // ---------------------------------------------------------------- adding

  function CommonPrefix(a: string, b: string): (n: nat)
    ensures n <= |a| && n <= |b| && a[..n] == b[..n]
    ensures n < |a| && n < |b| ==> a[n] != b[n]
  {
    if a == "" || b == "" || a[0] != b[0] then 0
    else
      var m := CommonPrefix(a[1..], b[1..]);
      assert a[..m + 1] == [a[0]] + a[1..][..m] && b[..m + 1] == [b[0]] + b[1..][..m];
      m + 1
  }

  /** Position of the parameter child whose token starts `key`, or `|ps|`. */
  function ParamIndex<D>(ps: seq<Tree<D>>, key: string): (i: nat)
    ensures i <= |ps|
    ensures i < |ps| ==> ps[i].key <= key
    ensures forall j :: 0 <= j < i ==> !(ps[j].key <= key)
  {
    if ps == [] || ps[0].key <= key then 0 else 1 + ParamIndex(ps[1..], key)
  }

  /** The length of the literal run at the front of a key: up to the first '<'. */
  function LiteralRun(key: string): nat {
    IndexOf(key, '<')
  }

  /** The fields `add` leaves alone on a node whose key is used up. */
  predicate SameNode<D>(t: Tree<D>, u: Tree<D>) {
    u.key == t.key && u.isStatic == t.isStatic && u.pnames == t.pnames && u.minOrder == t.minOrder
  }

  /** Creates the static and parameter nodes for a key none of whose beginning is in the tree. */
  function AddChild<D>(t: Tree<D>, key: string, d: D, order: int): (r: Tree<D>)
    requires key != "" && WellFormed(key)
    ensures SameNode(t, r)
    decreases |key|, 1
  {
    var p0 := LiteralRun(key);
    if p0 == 0 then AddParam(t, key, d, order)
    else
      LiteralRunWellFormed(key);
      var child := AddStaticTail(Bare<D>(true, key[..p0], order, t.pnames), key[p0..], d, order);
      t.(children := t.children[key[0] := child])
  }

  /** Completes a fresh static node: its literal run is followed by a token or by nothing. */
  function AddStaticTail<D>(child: Tree<D>, rest: string, d: D, order: int): (r: Tree<D>)
    requires WellFormed(rest) && (rest != "" ==> StartsWithToken(rest))
    ensures SameNode(child, r)
    decreases |rest|, 1
  {
    if rest == "" then child.(data := Some(d), order := order) else AddParam(child, rest, d, order)
  }

  /** Creates the parameter node for the token at the front of `key`. */
  function AddParam<D>(t: Tree<D>, key: string, d: D, order: int): (r: Tree<D>)
    requires StartsWithToken(key) && WellFormed(key)
    ensures SameNode(t, r)
    decreases |key|, 0
  {
    var tok := FirstToken(key);
    var child := AddParamTail(Bare<D>(false, tok, order, t.pnames + [NameOf(tok)]), key[|tok|..], d, order);
    t.(pchildren := t.pchildren + [child])
  }

  /** Completes a fresh parameter node with the rest of the key. */
  function AddParamTail<D>(child: Tree<D>, rest: string, d: D, order: int): (r: Tree<D>)
    requires WellFormed(rest)
    ensures SameNode(child, r)
    decreases |rest|, 2
  {
    if rest == "" then child.(data := Some(d), order := order) else AddChild(child, rest, d, order)
  }

  lemma {:induction false} LiteralRunWellFormed(key: string)
    requires WellFormed(key)
    ensures WellFormed(key[LiteralRun(key)..])
    ensures IsLiteral(key[..LiteralRun(key)])
    ensures LiteralRun(key) < |key| ==> StartsWithToken(key[LiteralRun(key)..])
    decreases |key|
  {
    if key == "" || key[0] == '<' {
      assert key[0..] == key;
    } else {
      LiteralRunWellFormed(key[1..]);
      assert key[1..][LiteralRun(key[1..])..] == key[LiteralRun(key)..];
    }
  }

  /** The part of a node's key after `m` characters becomes its only child. */
  function Split<D>(t: Tree<D>, m: nat): Tree<D>
    requires 0 < m < |t.key|
  {
    Node(true, t.key[..m], None, t.order, t.minOrder,
         map[t.key[m] := t.(isStatic := true, key := t.key[m..])], [], t.pnames)
  }

  function Cut<D>(t: Tree<D>, m: nat): Tree<D>
    requires m == |t.key| || 0 < m < |t.key|
  {
    if m == |t.key| then t else Split(t, m)
  }

  /** `add` on a node goes ahead when the key continues the node's key, or when the node is
      static and shares at least its first character; otherwise it reports -1. */
  predicate Accepts<D>(t: Tree<D>, key: string) {
    var m := CommonPrefix(key, t.key);
    m == |t.key| || (m > 0 && t.isStatic)
  }

  ghost predicate StaticKid<D>(t: Tree<D>, c: char, k: Tree<D>) {
    k.isStatic && k.key != "" && k.key[0] == c && k.pnames == t.pnames
  }

  ghost predicate ParamKid<D>(t: Tree<D>, k: Tree<D>) {
    !k.isStatic && IsToken(k.key) && k.pnames == t.pnames + [NameOf(k.key)]
  }

  ghost predicate EndsWithOwnName<D>(t: Tree<D>)
    requires IsToken(t.key)
  {
    t.pnames != [] && t.pnames[|t.pnames| - 1] == NameOf(t.key)
  }

  /** The structural invariant: static keys hold no token and static siblings differ in their
      first byte; parameter keys are single tokens and differ from their siblings; each node
      knows the names of the parameters on the way to it. */
  ghost predicate Shaped<D>(t: Tree<D>) {
    && (if t.isStatic then IsLiteral(t.key) else IsToken(t.key) && EndsWithOwnName(t))
    && (forall c :: c in t.children ==> StaticKid(t, c, t.children[c]) && Shaped(t.children[c]))
    && (forall i :: 0 <= i < |t.pchildren| ==> ParamKid(t, t.pchildren[i]) && Shaped(t.pchildren[i]))
    && (forall i, j :: 0 <= i < j < |t.pchildren| ==> t.pchildren[i].key != t.pchildren[j].key)
  }

  lemma CutShaped<D>(t: Tree<D>, m: nat)
    requires Shaped(t) && (m == |t.key| || (t.isStatic && 0 < m < |t.key|))
    ensures Shaped(Cut(t, m))
  {
    if m < |t.key| {
      var tail := t.(isStatic := true, key := t.key[m..]);
      assert Shaped(tail) by {
        assert forall c :: c in t.children ==> StaticKid(tail, c, t.children[c]);
        assert forall i :: 0 <= i < |t.pchildren| ==> ParamKid(tail, t.pchildren[i]);
      }
    }
  }

  /** `add` on a node: skip the common prefix, splitting the node when it covers only a part. */
  function Add<D>(t: Tree<D>, key: string, d: D, order: int): (r: Tree<D>)
    requires Shaped(t) && Accepts(t, key) && WellFormed(key)
    ensures SameNode(t.(key := t.key[..CommonPrefix(key, t.key)]), r)
    decreases |key|, if t.key == "" then 2 else 0
  {
    var m := CommonPrefix(key, t.key);
    RestWellFormed(t, key);
    CutShaped(t, m);
    AddBelow(Cut(t, m), key[m..], d, order)
  }

  /** `add` once the node's own key is used up. */
  function AddBelow<D>(t: Tree<D>, rest: string, d: D, order: int): (r: Tree<D>)
    requires Shaped(t) && WellFormed(rest)
    ensures SameNode(t, r)
    decreases |rest|, 1
  {
    if rest == "" then
      if t.data.None? then t.(data := Some(d), order := order) else t
    else if rest[0] in t.children then
      assert StaticKid(t, rest[0], t.children[rest[0]]);
      t.(children := t.children[rest[0] := Add(t.children[rest[0]], rest, d, order)])
    else
      var i := ParamIndex(t.pchildren, rest);
      if i < |t.pchildren| then
        assert ParamKid(t, t.pchildren[i]);
        t.(pchildren := t.pchildren[i := Add(t.pchildren[i], rest, d, order)])
      else AddChild(t, rest, d, order)
  }

  lemma {:induction false} LiteralPrefixWellFormed(key: string, m: nat)
    requires WellFormed(key) && m <= |key| && IsLiteral(key[..m])
    ensures WellFormed(key[m..])
    decreases m
  {
    if m == 0 {
      assert key[0..] == key;
    } else {
      assert key[0] == key[..m][0] != '<';
      assert key[1..][..m - 1] == key[..m][1..];
      LiteralPrefixWellFormed(key[1..], m - 1);
      assert key[1..][m - 1..] == key[m..];
    }
  }

  /** What is left of a key after the part it shares with a node is again well formed. */
  lemma RestWellFormed<D>(t: Tree<D>, key: string)
    requires Shaped(t) && Accepts(t, key) && WellFormed(key)
    ensures WellFormed(key[CommonPrefix(key, t.key)..])
  {
    var m := CommonPrefix(key, t.key);
    if t.isStatic {
      LiteralPrefixWellFormed(key, m);
    } else {
      assert key == t.key + key[m..];
      TokenThenRest(t.key, key[m..]);
    }
  }

  // ---------------------------------------------------------------- exact lookup

  /** Walks the nodes that spell `key`. This is the meaning of the tree as a map from keys. */
  function Lookup<D>(t: Tree<D>, key: string): Option<Entry<D>>
    decreases t, 1
  {
    if t.key <= key then LookupBelow(t, key[|t.key|..]) else None
  }

  function LookupBelow<D>(t: Tree<D>, rest: string): Option<Entry<D>>
    decreases t, 0
  {
    if rest == "" then
      if t.data.Some? then Some(Entry(t.data.value, t.order)) else None
    else if rest[0] in t.children then Lookup(t.children[rest[0]], rest)
    else
      var i := ParamIndex(t.pchildren, rest);
      if i < |t.pchildren| then Lookup(t.pchildren[i], rest) else None
  }

  /** The meaning of a map of keys after `key` is added: an earlier entry for it stays. */
  function WithEntry<D>(old': Option<Entry<D>>, hit: bool, e: Entry<D>): Option<Entry<D>> {
    if hit && old'.None? then Some(e) else old'
  }

  lemma LookupCat<D>(t: Tree<D>, r: string)
    ensures Lookup(t, t.key + r) == LookupBelow(t, r)
  {
    assert (t.key + r)[|t.key|..] == r;
  }

  /** Two nodes with the same key that agree below agree everywhere. */
  lemma LookupFromBelow<D>(t: Tree<D>, u: Tree<D>, rest: string, e: Entry<D>, k: string)
    requires t.key == u.key
    requires t.key <= k ==>
      LookupBelow(u, k[|t.key|..]) == WithEntry(LookupBelow(t, k[|t.key|..]), k[|t.key|..] == rest, e)
    ensures Lookup(u, k) == WithEntry(Lookup(t, k), k == t.key + rest, e)
  {
    if t.key <= k {
      assert k == t.key + k[|t.key|..];
      assert (t.key + rest)[|t.key|..] == rest;
    }
  }

  /** Parameter children only take keys that start with '<'. */
  lemma NoLiteralParam<D>(t: Tree<D>, q: string)
    requires Shaped(t) && q != "" && q[0] != '<'
    ensures ParamIndex(t.pchildren, q) == |t.pchildren|
  {
    assert forall i :: 0 <= i < |t.pchildren| ==> ParamKid(t, t.pchildren[i]) && t.pchildren[i].key[0] == '<';
  }

  lemma NewStaticChild<D>(t: Tree<D>, child: Tree<D>, key: string, e: Entry<D>, q: string)
    requires Shaped(t) && key != "" && key[0] != '<' && key[0] !in t.children
    requires child.key != "" && child.key[0] == key[0]
    requires Lookup(child, q) == WithEntry(None, q == key, e)
    ensures LookupBelow(t.(children := t.children[key[0] := child]), q) ==
            WithEntry(LookupBelow(t, q), q == key, e)
  {
    if q != "" && q[0] == key[0] {
      NoLiteralParam(t, q);
    }
  }

  lemma NewParamChild<D>(t: Tree<D>, child: Tree<D>, key: string, e: Entry<D>, q: string)
    requires child.key <= key && child.key != "" && child.key[0] !in t.children
    requires child.key <= q ==> ParamIndex(t.pchildren, q) == |t.pchildren|
    requires Lookup(child, q) == WithEntry(None, q == key, e)
    ensures LookupBelow(t.(pchildren := t.pchildren + [child]), q) ==
            WithEntry(LookupBelow(t, q), q == key, e)
  {
    hide ParamIndex, Lookup;
    var i := ParamIndex(t.pchildren, q);
    var ps := t.pchildren + [child];
    assert forall j :: 0 <= j < |t.pchildren| ==> ps[j] == t.pchildren[j];
    ParamIndexIs(ps, q, if i < |t.pchildren| || child.key <= q then i else |ps|);
    if child.key <= q {
      assert q[0] == child.key[0];
    }
  }

  lemma BareLookup<D>(isStatic: bool, key: string, minOrder: int, pnames: seq<string>, r: string)
    ensures LookupBelow(Bare<D>(isStatic, key, minOrder, pnames), r) == None
  {
  }

  /** A chain of fresh nodes answers to exactly the key it was built from. */
  lemma {:induction false} AddChildLookup<D>(t: Tree<D>, key: string, d: D, order: int, q: string)
    requires Shaped(t) && key != "" && WellFormed(key)
    requires key[0] !in t.children && ParamIndex(t.pchildren, key) == |t.pchildren|
    ensures LookupBelow(AddChild(t, key, d, order), q) ==
            WithEntry(LookupBelow(t, q), q == key, Entry(d, order))
    decreases |key|, 1
  {
    var p0 := LiteralRun(key);
    LiteralRunWellFormed(key);
    if p0 == 0 {
      assert key[0..] == key;
      AddParamLookup(t, key, d, order, q);
    } else {
      var child := Bare<D>(true, key[..p0], order, t.pnames);
      assert key == key[..p0] + key[p0..];
      var child' := AddStaticTail(child, key[p0..], d, order);
      if key[..p0] <= q {
        AddStaticTailLookup(child, key[p0..], d, order, q[p0..]);
      }
      LookupFromBelow(child, child', key[p0..], Entry(d, order), q);
      BareLookup<D>(true, key[..p0], order, t.pnames, if key[..p0] <= q then q[p0..] else "");
      NewStaticChild(t, child', key, Entry(d, order), q);
    }
  }

  lemma {:induction false} AddStaticTailLookup<D>(child: Tree<D>, rest: string, d: D, order: int, q: string)
    requires child == Bare<D>(true, child.key, child.minOrder, child.pnames) && Shaped(child)
    requires WellFormed(rest) && (rest != "" ==> StartsWithToken(rest))
    ensures LookupBelow(AddStaticTail(child, rest, d, order), q) ==
            WithEntry(LookupBelow(child, q), q == rest, Entry(d, order))
    decreases |rest|, 1
  {
    if rest != "" {
      AddParamLookup(child, rest, d, order, q);
    }
  }

  lemma {:induction false} AddParamLookup<D>(t: Tree<D>, key: string, d: D, order: int, q: string)
    requires Shaped(t) && StartsWithToken(key) && WellFormed(key)
    requires ParamIndex(t.pchildren, key) == |t.pchildren|
    ensures LookupBelow(AddParam(t, key, d, order), q) ==
            WithEntry(LookupBelow(t, q), q == key, Entry(d, order))
    decreases |key|, 0
  {
    var tok := FirstToken(key);
    var child := Bare<D>(false, tok, order, t.pnames + [NameOf(tok)]);
    assert key == tok + key[|tok|..];
    var child' := AddParamTail(child, key[|tok|..], d, order);
    if tok <= q {
      AddParamTailLookup(child, key[|tok|..], d, order, q[|tok|..]);
    }
    LookupFromBelow(child, child', key[|tok|..], Entry(d, order), q);
    BareLookup<D>(false, tok, order, t.pnames + [NameOf(tok)], if tok <= q then q[|tok|..] else "");
    assert tok[0] !in t.children by {
      assert forall c :: c in t.children ==> StaticKid(t, c, t.children[c]);
    }
    if tok <= q {
      FreshToken(t, key, q);
    }
    NewParamChild(t, child', key, Entry(d, order), q);
  }

  lemma {:induction false} AddParamTailLookup<D>(child: Tree<D>, rest: string, d: D, order: int, q: string)
    requires child == Bare<D>(false, child.key, child.minOrder, child.pnames) && Shaped(child)
    requires WellFormed(rest)
    ensures LookupBelow(AddParamTail(child, rest, d, order), q) ==
            WithEntry(LookupBelow(child, q), q == rest, Entry(d, order))
    decreases |rest|, 2
  {
    if rest != "" {
      AddChildLookup(child, rest, d, order, q);
    }
  }

  lemma ParamIndexIs<D>(ps: seq<Tree<D>>, key: string, i: nat)
    requires i <= |ps|
    requires i < |ps| ==> ps[i].key <= key
    requires forall j :: 0 <= j < i ==> !(ps[j].key <= key)
    ensures ParamIndex(ps, key) == i
  {
    var k := ParamIndex(ps, key);
    assert k < |ps| ==> ps[k].key <= key;
  }

  /** If no child takes `key`, no child takes any key with the same first token. */
  lemma FreshToken<D>(t: Tree<D>, key: string, q: string)
    requires Shaped(t) && StartsWithToken(key) && FirstToken(key) <= q
    requires ParamIndex(t.pchildren, key) == |t.pchildren|
    ensures ParamIndex(t.pchildren, q) == |t.pchildren|
  {
    forall j | 0 <= j < |t.pchildren|
      ensures !(t.pchildren[j].key <= q)
    {
      assert ParamKid(t, t.pchildren[j]);
      if t.pchildren[j].key <= q {
        TokensArePrefixFree(t.pchildren[j].key, FirstToken(key), q);
      }
    }
  }

  lemma CutLookup<D>(t: Tree<D>, m: nat, k: string)
    requires m == |t.key| || 0 < m < |t.key|
    ensures Lookup(Cut(t, m), k) == Lookup(t, k)
  {
    if m < |t.key| {
      var head, tail := t.key[..m], t.(isStatic := true, key := t.key[m..]);
      assert t.key == head + tail.key;
      if head <= k {
        var r := k[m..];
        assert k == head + r;
        assert Lookup(Split(t, m), k) == LookupBelow(Split(t, m), r);
        assert Lookup(tail, r) == Lookup(t, k) by {
          assert t.key <= k <==> tail.key <= r;
          assert t.key <= k ==> k[|t.key|..] == r[|tail.key|..];
          LookupBelowSame(t, tail, if t.key <= k then k[|t.key|..] else "");
        }
      } else {
        assert !(t.key <= k);
      }
    }
  }

  lemma LookupBelowSame<D>(t: Tree<D>, u: Tree<D>, r: string)
    requires t.data == u.data && t.order == u.order && t.children == u.children && t.pchildren == u.pchildren
    ensures LookupBelow(t, r) == LookupBelow(u, r)
  {
  }

  /** Adding a key changes the tree's meaning at that key only, and only if it was absent. */
  lemma {:induction false} AddLookup<D>(t: Tree<D>, key: string, d: D, order: int, k: string)
    requires Shaped(t) && Accepts(t, key) && WellFormed(key)
    ensures Lookup(Add(t, key, d, order), k) == WithEntry(Lookup(t, k), k == key, Entry(d, order))
    decreases |key|, if t.key == "" then 3 else 0
  {
    var m := CommonPrefix(key, t.key);
    RestWellFormed(t, key);
    CutShaped(t, m);
    CutLookup(t, m, k);
    assert key == key[..m] + key[m..];
    var u := Cut(t, m);
    assert u.key == key[..m];
    AddUncutLookup(u, key[m..], d, order, k);
  }

  lemma {:induction false} AddUncutLookup<D>(u: Tree<D>, rest: string, d: D, order: int, k: string)
    requires Shaped(u) && WellFormed(rest)
    ensures Lookup(AddBelow(u, rest, d, order), k) ==
            WithEntry(Lookup(u, k), k == u.key + rest, Entry(d, order))
    decreases |rest|, 2
  {
    if u.key <= k {
      AddBelowLookup(u, rest, d, order, k[|u.key|..]);
    }
    LookupFromBelow(u, AddBelow(u, rest, d, order), rest, Entry(d, order), k);
  }

  lemma {:induction false} AddBelowLookup<D>(t: Tree<D>, rest: string, d: D, order: int, q: string)
    requires Shaped(t) && WellFormed(rest)
    ensures LookupBelow(AddBelow(t, rest, d, order), q) ==
            WithEntry(LookupBelow(t, q), q == rest, Entry(d, order))
    decreases |rest|, 1
  {
    if rest == "" {
    } else if rest[0] in t.children {
      var c := t.children[rest[0]];
      assert StaticKid(t, rest[0], c);
      AddLookup(c, rest, d, order, q);
      UpdateStaticChild(t, rest[0], Add(c, rest, d, order), q, Entry(d, order), q == rest);
    } else {
      var i := ParamIndex(t.pchildren, rest);
      if i < |t.pchildren| {
        var c := t.pchildren[i];
        assert ParamKid(t, c);
        AddLookup(c, rest, d, order, q);
        UpdateParamChild(t, i, Add(c, rest, d, order), q, Entry(d, order), q == rest);
      } else {
        AddChildLookup(t, rest, d, order, q);
      }
    }
  }

  lemma UpdateStaticChild<D>(t: Tree<D>, ch: char, c: Tree<D>, q: string, e: Entry<D>, hit: bool)
    requires ch in t.children
    requires Lookup(c, q) == WithEntry(Lookup(t.children[ch], q), hit, e)
    requires hit ==> q != "" && q[0] == ch
    ensures LookupBelow(t.(children := t.children[ch := c]), q) == WithEntry(LookupBelow(t, q), hit, e)
  {
  }

  lemma UpdateParamChild<D>(t: Tree<D>, i: nat, c: Tree<D>, q: string, e: Entry<D>, hit: bool)
    requires i < |t.pchildren| && c.key == t.pchildren[i].key
    requires Lookup(c, q) == WithEntry(Lookup(t.pchildren[i], q), hit, e)
    requires hit ==> q != "" && q[0] !in t.children && ParamIndex(t.pchildren, q) == i
    ensures LookupBelow(t.(pchildren := t.pchildren[i := c]), q) == WithEntry(LookupBelow(t, q), hit, e)
  {
    ParamIndexIs(t.pchildren[i := c], q, ParamIndex(t.pchildren, q));
  }

  // ---------------------------------------------------------------- the invariant is kept

  /** Some data item below (or at) the node has the node's `minOrder`. */
  ghost predicate Attained<D>(t: Tree<D>) {
    || (t.data.Some? && t.order == t.minOrder)
    || (exists c :: c in t.children && t.children[c].minOrder == t.minOrder)
    || (exists i :: 0 <= i < |t.pchildren| && t.pchildren[i].minOrder == t.minOrder)
  }

  /** All orders are below `hi`; `minOrder` bounds them from below and, except at the root
      (where it is never consulted), is attained. */
  ghost predicate Ordered<D>(t: Tree<D>, hi: int) {
    && t.minOrder < hi
    && (t.data.Some? ==> t.minOrder <= t.order < hi)
    && (forall c :: c in t.children ==> OrderedKid(t, t.children[c]) && Ordered(t.children[c], hi))
    && (forall i :: 0 <= i < |t.pchildren| ==> OrderedKid(t, t.pchildren[i]) && Ordered(t.pchildren[i], hi))
    && Rising(t.pchildren)
  }

  /** Parameter children stand in the order in which their first keys were added. */
  ghost predicate Rising<D>(kids: seq<Tree<D>>) {
    forall i, j :: 0 <= i < j < |kids| ==> kids[i].minOrder < kids[j].minOrder
  }

  ghost predicate KidsBefore<D>(kids: seq<Tree<D>>, order: int) {
    forall i :: 0 <= i < |kids| ==> kids[i].minOrder < order
  }

  lemma KidsAreBefore<D>(t: Tree<D>, hi: int)
    requires Ordered(t, hi)
    ensures KidsBefore(t.pchildren, hi)
  {
  }

  ghost predicate OrderedKid<D>(t: Tree<D>, k: Tree<D>) {
    t.minOrder <= k.minOrder && Attained(k)
  }

  ghost predicate Valid<D>(t: Tree<D>, hi: int) {
    Shaped(t) && Ordered(t, hi)
  }

  lemma {:induction false} OrderedHigher<D>(t: Tree<D>, hi: int, hi': int)
    requires Ordered(t, hi) && hi <= hi'
    ensures Ordered(t, hi')
    decreases t
  {
    forall c | c in t.children
      ensures Ordered(t.children[c], hi')
    {
      OrderedHigher(t.children[c], hi, hi');
    }
    forall i | 0 <= i < |t.pchildren|
      ensures Ordered(t.pchildren[i], hi')
    {
      OrderedHigher(t.pchildren[i], hi, hi');
    }
  }

  lemma PutStaticKid<D>(t: Tree<D>, c: char, k: Tree<D>, hi: int)
    requires Valid(t, hi) && StaticKid(t, c, k) && OrderedKid(t, k) && Valid(k, hi)
    requires c in t.children ==> k.minOrder == t.children[c].minOrder
    ensures var t' := t.(children := t.children[c := k]);
            Valid(t', hi) && (Attained(t) || k.minOrder == t.minOrder ==> Attained(t'))
  {
    hide Shaped, Ordered;
    var t' := t.(children := t.children[c := k]);
    PutStaticShaped(t, c, k);
    PutStaticOrdered(t, c, k, hi);
    if exists d :: d in t.children && t.children[d].minOrder == t.minOrder {
      var d :| d in t.children && t.children[d].minOrder == t.minOrder;
      assert d in t'.children && t'.children[d].minOrder == t.minOrder;
    }
    assert c in t'.children;
  }

  lemma PutStaticShaped<D>(t: Tree<D>, c: char, k: Tree<D>)
    requires Shaped(t) && StaticKid(t, c, k) && Shaped(k)
    ensures Shaped(t.(children := t.children[c := k]))
  {
    var t' := t.(children := t.children[c := k]);
    assert forall d :: d in t'.children ==> StaticKid(t', d, t'.children[d]) && Shaped(t'.children[d]);
    assert forall i :: 0 <= i < |t.pchildren| ==> ParamKid(t', t.pchildren[i]);
  }

  lemma PutStaticOrdered<D>(t: Tree<D>, c: char, k: Tree<D>, hi: int)
    requires Ordered(t, hi) && OrderedKid(t, k) && Ordered(k, hi)
    ensures Ordered(t.(children := t.children[c := k]), hi)
  {
    var t' := t.(children := t.children[c := k]);
    assert forall d :: d in t'.children ==> OrderedKid(t', t'.children[d]) && Ordered(t'.children[d], hi);
    assert forall i :: 0 <= i < |t.pchildren| ==> OrderedKid(t', t.pchildren[i]);
  }

  lemma PutParamKid<D>(t: Tree<D>, i: nat, k: Tree<D>, hi: int)
    requires Valid(t, hi) && i < |t.pchildren| && ParamKid(t, k) && OrderedKid(t, k) && Valid(k, hi)
    requires k.key == t.pchildren[i].key && k.minOrder == t.pchildren[i].minOrder
    ensures var t' := t.(pchildren := t.pchildren[i := k]);
            Valid(t', hi) && (Attained(t) ==> Attained(t'))
  {
    hide Shaped, Ordered;
    var t' := t.(pchildren := t.pchildren[i := k]);
    PutParamShaped(t, i, k);
    PutParamOrdered(t, i, k, hi);
    if exists j :: 0 <= j < |t.pchildren| && t.pchildren[j].minOrder == t.minOrder {
      var j :| 0 <= j < |t.pchildren| && t.pchildren[j].minOrder == t.minOrder;
      assert t'.pchildren[j].minOrder == t.minOrder;
    }
  }

  lemma PutParamShaped<D>(t: Tree<D>, i: nat, k: Tree<D>)
    requires Shaped(t) && i < |t.pchildren| && ParamKid(t, k) && Shaped(k) && k.key == t.pchildren[i].key
    ensures Shaped(t.(pchildren := t.pchildren[i := k]))
  {
    var t' := t.(pchildren := t.pchildren[i := k]);
    assert forall c :: c in t.children ==> StaticKid(t', c, t.children[c]);
    assert forall j :: 0 <= j < |t'.pchildren| ==> ParamKid(t', t'.pchildren[j]) && Shaped(t'.pchildren[j]);
  }

  lemma PutParamOrdered<D>(t: Tree<D>, i: nat, k: Tree<D>, hi: int)
    requires Ordered(t, hi) && i < |t.pchildren| && OrderedKid(t, k) && Ordered(k, hi)
    requires k.minOrder == t.pchildren[i].minOrder
    ensures Ordered(t.(pchildren := t.pchildren[i := k]), hi)
  {
    hide Rising, Attained;
    var t' := t.(pchildren := t.pchildren[i := k]);
    RisingPut(t.pchildren, i, k);
    assert forall c :: c in t.children ==> OrderedKid(t', t.children[c]);
    assert forall j :: 0 <= j < |t'.pchildren| ==> OrderedKid(t', t'.pchildren[j]) && Ordered(t'.pchildren[j], hi);
  }

  lemma RisingPut<D>(kids: seq<Tree<D>>, i: nat, k: Tree<D>)
    requires Rising(kids) && i < |kids| && k.minOrder == kids[i].minOrder
    ensures Rising(kids[i := k])
  {
  }

  lemma RisingAppend<D>(kids: seq<Tree<D>>, k: Tree<D>)
    requires Rising(kids) && KidsBefore(kids, k.minOrder)
    ensures Rising(kids + [k])
  {
  }

  lemma AppendParamKid<D>(t: Tree<D>, k: Tree<D>, hi: int)
    requires Valid(t, hi) && ParamKid(t, k) && OrderedKid(t, k) && Valid(k, hi)
    requires KidsBefore(t.pchildren, k.minOrder)
    requires forall i :: 0 <= i < |t.pchildren| ==> t.pchildren[i].key != k.key
    ensures var t' := t.(pchildren := t.pchildren + [k]);
            Valid(t', hi) && (Attained(t) || k.minOrder == t.minOrder ==> Attained(t'))
  {
    hide Shaped, Ordered, Rising, KidsBefore;
    var t' := t.(pchildren := t.pchildren + [k]);
    AppendParamShaped(t, k);
    AppendParamOrdered(t, k, hi);
    if exists j :: 0 <= j < |t.pchildren| && t.pchildren[j].minOrder == t.minOrder {
      var j :| 0 <= j < |t.pchildren| && t.pchildren[j].minOrder == t.minOrder;
      assert t'.pchildren[j].minOrder == t.minOrder;
    }
    assert t'.pchildren[|t.pchildren|] == k;
  }

  lemma AppendParamShaped<D>(t: Tree<D>, k: Tree<D>)
    requires Shaped(t) && ParamKid(t, k) && Shaped(k)
    requires forall i :: 0 <= i < |t.pchildren| ==> t.pchildren[i].key != k.key
    ensures Shaped(t.(pchildren := t.pchildren + [k]))
  {
    var t' := t.(pchildren := t.pchildren + [k]);
    assert forall c :: c in t.children ==> StaticKid(t', c, t.children[c]);
    assert forall j :: 0 <= j < |t'.pchildren| ==> ParamKid(t', t'.pchildren[j]) && Shaped(t'.pchildren[j]);
  }

  lemma AppendParamOrdered<D>(t: Tree<D>, k: Tree<D>, hi: int)
    requires Ordered(t, hi) && OrderedKid(t, k) && Ordered(k, hi) && KidsBefore(t.pchildren, k.minOrder)
    ensures Ordered(t.(pchildren := t.pchildren + [k]), hi)
  {
    hide Rising, Attained, KidsBefore;
    var t' := t.(pchildren := t.pchildren + [k]);
    RisingAppend(t.pchildren, k);
    assert forall c :: c in t.children ==> OrderedKid(t', t.children[c]);
    assert forall j :: 0 <= j < |t'.pchildren| ==> OrderedKid(t', t'.pchildren[j]) && Ordered(t'.pchildren[j], hi);
  }

  lemma LiteralIsValid<D>(lit: string, order: int, pnames: seq<string>, d: D)
    requires IsLiteral(lit)
    ensures var child := Bare<D>(true, lit, order, pnames);
            Valid(child, order + 1) && Valid(child.(data := Some(d), order := order), order + 1)
  {
  }

  lemma {:induction false} AddChildValid<D>(t: Tree<D>, key: string, d: D, order: int)
    requires Valid(t, order + 1) && key != "" && WellFormed(key) && t.minOrder <= order && KidsBefore(t.pchildren, order)
    requires key[0] !in t.children && ParamIndex(t.pchildren, key) == |t.pchildren|
    ensures var t' := AddChild(t, key, d, order);
            Valid(t', order + 1) && (Attained(t) || t.minOrder == order ==> Attained(t'))
    decreases |key|, 1
  {
    hide Shaped, Ordered, WellFormed;
    var p0 := LiteralRun(key);
    LiteralRunWellFormed(key);
    if p0 == 0 {
      assert key[0..] == key;
      AddParamValid(t, key, d, order);
    } else {
      var child := Bare<D>(true, key[..p0], order, t.pnames);
      LiteralIsValid(key[..p0], order, t.pnames, d);
      if p0 < |key| {
        AddParamValid(child, key[p0..], d, order);
      }
      PutStaticKid(t, key[0], AddStaticTail(child, key[p0..], d, order), order + 1);
    }
  }

  lemma {:induction false} AddParamValid<D>(t: Tree<D>, key: string, d: D, order: int)
    requires Valid(t, order + 1) && StartsWithToken(key) && WellFormed(key) && t.minOrder <= order
    requires KidsBefore(t.pchildren, order)
    requires ParamIndex(t.pchildren, key) == |t.pchildren|
    ensures var t' := AddParam(t, key, d, order);
            Valid(t', order + 1) && (Attained(t) || t.minOrder == order ==> Attained(t'))
    decreases |key|, 0
  {
    var tok := FirstToken(key);
    var child := Bare<D>(false, tok, order, t.pnames + [NameOf(tok)]);
    assert Valid(child, order + 1);
    if |tok| < |key| {
      AddChildValid(child, key[|tok|..], d, order);
    }
    AppendParamKid(t, AddParamTail(child, key[|tok|..], d, order), order + 1);
  }

  lemma CutValid<D>(t: Tree<D>, m: nat, hi: int)
    requires Valid(t, hi) && (m == |t.key| || (t.isStatic && 0 < m < |t.key|))
    requires m < |t.key| ==> Attained(t)
    ensures Valid(Cut(t, m), hi) && (Attained(t) ==> Attained(Cut(t, m)))
  {
    CutShaped(t, m);
    if m < |t.key| {
      var tail := t.(isStatic := true, key := t.key[m..]);
      assert Ordered(tail, hi) by {
        assert forall c :: c in t.children ==> OrderedKid(tail, t.children[c]);
        assert forall i :: 0 <= i < |t.pchildren| ==> OrderedKid(tail, t.pchildren[i]);
      }
      assert Attained(tail);
      var u := Split(t, m);
      assert t.key[m] in u.children && u.children[t.key[m]] == tail;
      assert OrderedKid(u, tail);
    }
  }

  /** Every `add` with a fresh, larger order keeps the invariant. */
  lemma {:induction false} AddValid<D>(t: Tree<D>, key: string, d: D, order: int)
    requires Valid(t, order) && Accepts(t, key) && WellFormed(key)
    requires t.key != "" ==> Attained(t)
    ensures var t' := Add(t, key, d, order);
            Valid(t', order + 1) && (Attained(t) ==> Attained(t'))
    decreases |key|, if t.key == "" then 2 else 0, 0
  {
    var m := CommonPrefix(key, t.key);
    RestWellFormed(t, key);
    CutValid(t, m, order);
    AddBelowValid(Cut(t, m), key[m..], d, order);
  }

  lemma {:induction false} AddBelowValid<D>(t: Tree<D>, rest: string, d: D, order: int)
    requires Valid(t, order) && WellFormed(rest)
    ensures var t' := AddBelow(t, rest, d, order);
            Valid(t', order + 1) && (Attained(t) ==> Attained(t'))
    decreases |rest|, 1
  {
    hide Shaped, Ordered, WellFormed, KidsBefore;
    OrderedHigher(t, order, order + 1);
    KidsAreBefore(t, order);
    if rest == "" {
      FillValid(t, d, order);
    } else if rest[0] in t.children {
      var c := AddStaticKidValid(t, rest[0], rest, d, order);
      PutStaticKid(t, rest[0], c, order + 1);
    } else {
      var i := ParamIndex(t.pchildren, rest);
      if i < |t.pchildren| {
        var c := AddParamKidValid(t, i, rest, d, order);
        PutParamKid(t, i, c, order + 1);
      } else {
        AddChildValid(t, rest, d, order);
      }
    }
  }

  lemma {:induction false} AddStaticKidValid<D>(t: Tree<D>, ch: char, rest: string, d: D, order: int)
      returns (k: Tree<D>)
    requires Valid(t, order) && WellFormed(rest) && rest != "" && rest[0] == ch && ch in t.children
    ensures Accepts(t.children[ch], rest) && k == Add(t.children[ch], rest, d, order)
    ensures StaticKid(t, ch, k) && OrderedKid(t, k) && Valid(k, order + 1)
    decreases |rest|, 0, 1
  {
    var c := t.children[ch];
    assert StaticKid(t, ch, c) && OrderedKid(t, c);
    AddValid(c, rest, d, order);
    k := Add(c, rest, d, order);
  }

  lemma {:induction false} AddParamKidValid<D>(t: Tree<D>, i: nat, rest: string, d: D, order: int)
      returns (k: Tree<D>)
    requires Valid(t, order) && WellFormed(rest) && i < |t.pchildren| && t.pchildren[i].key <= rest
    ensures k == Add(t.pchildren[i], rest, d, order)
    ensures ParamKid(t, k) && OrderedKid(t, k) && Valid(k, order + 1) && k.key == t.pchildren[i].key
    decreases |rest|, 0, 1
  {
    var c := t.pchildren[i];
    assert ParamKid(t, c) && OrderedKid(t, c);
    AddValid(c, rest, d, order);
    k := Add(c, rest, d, order);
  }

  lemma FillValid<D>(t: Tree<D>, d: D, order: int)
    requires Valid(t, order + 1) && t.minOrder <= order
    ensures var t' := if t.data.None? then t.(data := Some(d), order := order) else t;
            Valid(t', order + 1) && (Attained(t) ==> Attained(t'))
  {
    var t' := t.(data := Some(d), order := order);
    assert Shaped(t') by {
      assert forall c :: c in t.children ==> StaticKid(t', c, t.children[c]);
      assert forall i :: 0 <= i < |t.pchildren| ==> ParamKid(t', t.pchildren[i]);
    }
    assert Ordered(t', order + 1) by {
      assert forall c :: c in t.children ==> OrderedKid(t', t.children[c]);
      assert forall i :: 0 <= i < |t.pchildren| ==> OrderedKid(t', t.pchildren[i]);
    }
  }
}
