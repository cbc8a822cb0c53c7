/** The route store on the heap: nodes that `add` splits and extends in place, and the pruned
    search `get` that writes captured values into a caller's buffer
    (fasthttp-routing/store.go). */
module RouteStore {
  import opened Basics
  import opened RouteKeys
  import opened RouteTree
  import opened RouteSearch

  /** How a node reaches a child: by first byte, or by position among the parameter children. */
  datatype Edge = ByChar(c: char) | ByIndex(i: nat)

  predicate HasKid<D>(t: Tree<D>, e: Edge) {
    match e
    case ByChar(c) => c in t.children
    case ByIndex(i) => i < |t.pchildren|
  }

  function KidOf<D>(t: Tree<D>, e: Edge): Tree<D>
    requires HasKid(t, e)
  {
    match e
    case ByChar(c) => t.children[c]
    case ByIndex(i) => t.pchildren[i]
  }

  /** The fields of a node as one value. */
  datatype Shell<D> = Shell(
    isStatic: bool, key: string, data: Option<D>, order: int, minOrder: int,
    pnames: seq<string>, pindex: int, firsts: set<char>, params: nat)

  ghost function ShellOf<D>(t: Tree<D>): Shell<D> {
    Shell(t.isStatic, t.key, t.data, t.order, t.minOrder, t.pnames, |t.pnames| - 1, t.children.Keys, |t.pchildren|)
  }

  class Node<D(!new)> {
    var isStatic: bool
    var key: string
    var data: Option<D>
    var order: int
    var minOrder: int
    var children: map<char, Node<D>>
    var pchildren: seq<Node<D>>
    var pindex: int
    var pnames: seq<string>

    ghost var Repr: set<Node<D>>
    ghost var own: map<Node<D>, Edge>  // the edge each node below hangs under

    ghost predicate Has(e: Edge)
      reads this
    {
      match e
      case ByChar(c) => c in children
      case ByIndex(i) => i < |pchildren|
    }

    ghost function At(e: Edge): Node<D>
      requires Has(e)
      reads this
    {
      match e
      case ByChar(c) => children[c]
      case ByIndex(i) => pchildren[i]
    }

    /** The nodes of the child under `e` belong to this edge only. */
    ghost predicate Owns(e: Edge, k: Node<D>)
      reads this, k
    {
      k.Repr <= Repr && this !in k.Repr && forall m :: m in k.Repr ==> m in own && own[m] == e
    }

    ghost predicate Fields(t: Tree<D>)
      reads this
    {
      Shell(isStatic, key, data, order, minOrder, pnames, pindex, children.Keys, |pchildren|) == ShellOf(t)
    }

    /** The nodes in `Repr` spell the tree `t`. */
    ghost predicate Rep(t: Tree<D>)
      reads this, Repr
      decreases t, 0
    {
      && this in Repr
      && Fields(t)
      && (forall e :: Has(e) ==> Hangs(e, KidOf(t, e)))
    }

    /** The child under `e` spells `kt`, with nodes of its own. */
    ghost predicate Hangs(e: Edge, kt: Tree<D>)
      requires Has(e)
      reads this, Repr
      decreases kt, 1
    {
      At(e) in Repr && Owns(e, At(e)) && At(e).Rep(kt)
    }

    constructor (isStatic: bool, key: string, minOrder: int, pindex: int, pnames: seq<string>)
      requires pindex == |pnames| - 1
      ensures Rep(Bare(isStatic, key, minOrder, pnames)) && Repr == {this}
    {
      this.isStatic, this.key, this.minOrder, this.pnames := isStatic, key, minOrder, pnames;
      this.pindex, data, order, children, pchildren := pindex, None, 0, map[], [];
      Repr, own := {this}, map[];
    }

    /** Nothing below `e` changed. */
    twostate predicate Kept(e: Edge)
      requires old(Has(e))
      reads this, Repr
    {
      && Has(e) && At(e) == old(At(e)) && At(e) in Repr
      && (forall m :: m in old(At(e).Repr) ==> m in Repr && unchanged(m) && m in own && own[m] == e)
    }

    /** Children nothing below which changed still hang where they did. */
    twostate lemma KeptKids(t: Tree<D>)
      requires old(Rep(t))
      ensures forall e :: old(Has(e)) && Kept(e) ==> Hangs(e, KidOf(t, e))
    {
      forall e | old(Has(e)) && Kept(e)
        ensures Hangs(e, KidOf(t, e))
      {
        assert old(Hangs(e, KidOf(t, e)));
        var k := old(At(e));
        assert old(k.Rep(KidOf(t, e)));
        assert old(k in k.Repr);
      }
    }

    method SetData(ghost t: Tree<D>, d: D, order: int)
      requires Rep(t)
      modifies this
      ensures Rep(t.(data := Some(d), order := order)) && Repr == old(Repr)
      ensures pindex == old(pindex)
    {
      data, this.order := Some(d), order;
      KeptKids(t);
      ghost var t' := t.(data := Some(d), order := order);
      forall e | Has(e)
        ensures Hangs(e, KidOf(t', e))
      {
        assert old(Hangs(e, KidOf(t, e)));
        assert Kept(e);
      }
    }

    method LinkStatic(ghost t: Tree<D>, child: Node<D>, ghost ct: Tree<D>, c: char)
      requires Rep(t) && child.Rep(ct) && child.Repr !! Repr && c !in children
      modifies this
      ensures Rep(t.(children := t.children[c := ct])) && Repr == old(Repr) + child.Repr
    {
      children := children[c := child];
      Repr := Repr + child.Repr;
      own := own + (map m | m in child.Repr :: ByChar(c));
      KeptKids(t);
      ghost var t' := t.(children := t.children[c := ct]);
      forall e | Has(e)
        ensures Hangs(e, KidOf(t', e))
      {
        if e != ByChar(c) {
          assert old(Hangs(e, KidOf(t, e)));
          assert Kept(e);
        }
      }
    }

    method LinkParam(ghost t: Tree<D>, child: Node<D>, ghost ct: Tree<D>)
      requires Rep(t) && child.Rep(ct) && child.Repr !! Repr
      modifies this
      ensures Rep(t.(pchildren := t.pchildren + [ct])) && Repr == old(Repr) + child.Repr
    {
      own := own + (map m | m in child.Repr :: ByIndex(|pchildren|));
      pchildren := pchildren + [child];
      Repr := Repr + child.Repr;
      KeptKids(t);
      ghost var t' := t.(pchildren := t.pchildren + [ct]);
      forall e | Has(e)
        ensures Hangs(e, KidOf(t', e))
      {
        if e != ByIndex(|t.pchildren|) {
          assert old(Hangs(e, KidOf(t, e)));
          assert Kept(e);
        }
      }
    }

    /** `addChild`: builds the nodes for a key none of whose beginning is in the tree. */
    method AddChild(ghost t: Tree<D>, key: string, d: D, order: int) returns (pn: int)
      requires Rep(t) && key != "" && WellFormed(key) && key[0] !in t.children
      modifies this
      ensures Rep(RouteTree.AddChild(t, key, d, order)) && fresh(Repr - old(Repr))
      ensures pn == |t.pnames| + |Names(key)|
      decreases |key|, 2
    {
      var p0, p1 := FindToken(key);
      if 0 < p0 || p1 < 0 {
        pn := AddStatic(t, key, if p1 < 0 then |key| else p0, d, order);
      } else {
        pn := AddParam(t, key, p1, d, order);
      }
    }

    /** The part of `addChild` that creates a static node for the literal run `key[..p0]`. */
    method AddStatic(ghost t: Tree<D>, key: string, p0: nat, d: D, order: int) returns (pn: int)
      requires Rep(t) && WellFormed(key) && 0 < p0 == LiteralRun(key) && key[0] !in t.children
      modifies this
      ensures Rep(RouteTree.AddChild(t, key, d, order)) && fresh(Repr - old(Repr))
      ensures pn == |t.pnames| + |Names(key)|
      decreases |key|, 1
    {
      LiteralRunWellFormed(key);
      LiteralRunNames(key);
      ghost var ct := Bare<D>(true, key[..p0], order, pnames);
      var child := new Node<D>(true, key[..p0], order, pindex, pnames);
      pn := child.Complete(ct, key[p0..], d, order);
      LinkStatic(t, child, AddStaticTail(ct, key[p0..], d, order), key[0]);
    }

    /** The fresh static node either takes the data or gets a parameter child. */
    method Complete(ghost t: Tree<D>, rest: string, d: D, order: int) returns (pn: int)
      requires Rep(t) && WellFormed(rest) && (rest != "" ==> StartsWithToken(rest))
      modifies this
      ensures Rep(AddStaticTail(t, rest, d, order)) && fresh(Repr - old(Repr))
      ensures pn == |t.pnames| + |Names(rest)|
      decreases |rest|, 1
    {
      if rest == "" {
        SetData(t, d, order);
        pn := pindex + 1;
      } else {
        var p0, p1 := FindToken(rest);
        assert rest[0..] == rest;
        pn := AddParam(t, rest, p1, d, order);
      }
    }

    /** The part of `addChild` that creates a parameter node for the token `key[..p1 + 1]`. */
    method AddParam(ghost t: Tree<D>, key: string, p1: nat, d: D, order: int) returns (pn: int)
      requires Rep(t) && StartsWithToken(key) && WellFormed(key) && p1 == IndexOf(key, '>')
      modifies this
      ensures Rep(RouteTree.AddParam(t, key, d, order)) && fresh(Repr - old(Repr))
      ensures pn == |t.pnames| + |Names(key)|
      decreases |key|, 0
    {
      hide PatternOf, NameOf, IsToken, WellFormed, Names, IndexOf, RouteTree.AddChild, SameNode;
      AfterToken(key);
      var tok := key[..p1 + 1];
      var pname, _ := SplitToken(tok);
      var child := new Node<D>(false, tok, order, |pnames|, pnames + [pname]);
      ghost var ct := Bare<D>(false, tok, order, pnames + [NameOf(tok)]);
      if p1 + 1 == |key| {
        child.SetData(ct, d, order);
        pn := child.pindex + 1;
      } else {
        pn := child.AddChild(ct, key[p1 + 1..], d, order);
      }
      LinkParam(t, child, AddParamTail(ct, key[p1 + 1..], d, order));
    }

    /** Splits a static node: a new child takes over the tail of the key, the data and the children. */
    method SplitAt(ghost t: Tree<D>, m: nat)
      requires Rep(t) && isStatic && 0 < m < |key|
      modifies this
      ensures Rep(Split(t, m)) && fresh(Repr - old(Repr))
    {
      var n1 := new Node<D>(true, key[m..], minOrder, pindex, pnames);
      n1.Take(t, this, m);
      Narrow(t, n1, m);
    }

    /** Leaves this node with the first `m` characters of its key and `n1` as its only child. */
    method Narrow(ghost t: Tree<D>, n1: Node<D>, m: nat)
      requires Fields(t) && isStatic && 0 < m < |key| && this !in n1.Repr
      requires n1.Rep(t.(isStatic := true, key := t.key[m..])) && n1 in n1.Repr && n1.key == t.key[m..]
      modifies this
      ensures Rep(Split(t, m)) && Repr == {this} + n1.Repr
    {
      hide Rep, Hangs;
      ghost var kt := t.(isStatic := true, key := t.key[m..]);
      var c := n1.key[0];
      key, data := key[..m], None;
      pchildren, children := [], map[c := n1];
      own := map k | k in n1.Repr :: ByChar(c);
      Repr := {this} + n1.Repr;
      assert n1.Rep(kt);
      assert Split(t, m).children == map[c := kt];
      assert Owns(ByChar(c), n1);
      OneKid(Split(t, m), c, n1, kt);
    }

    /** A node with a single child. */
    lemma OneKid(t: Tree<D>, c: char, k: Node<D>, kt: Tree<D>)
      requires this in Repr && Fields(t) && t.children == map[c := kt] && t.pchildren == []
      requires c in children && children[c] == k && k in Repr && Owns(ByChar(c), k) && k.Rep(kt)
      ensures Rep(t)
    {
      forall e | Has(e)
        ensures Hangs(e, KidOf(t, e))
      {
        assert e == ByChar(c);
      }
    }

    /** Moves the contents of `n` to this fresh node. */
    method Take(ghost t: Tree<D>, n: Node<D>, m: nat)
      requires n.Rep(t) && this !in n.Repr && m < |n.key|
      requires isStatic && key == n.key[m..] && minOrder == n.minOrder && pindex == n.pindex && pnames == n.pnames
      modifies this
      ensures Rep(t.(isStatic := true, key := t.key[m..])) && Repr == n.Repr - {n} + {this}
      ensures key == old(key)
    {
      data, order, pchildren, children := n.data, n.order, n.pchildren, n.children;
      own, Repr := n.own, n.Repr - {n} + {this};
      ghost var t' := t.(isStatic := true, key := t.key[m..]);
      forall e | Has(e)
        ensures Hangs(e, KidOf(t', e))
      {
        assert n.Hangs(e, KidOf(t, e));
      }
    }

    /** Records the nodes the child under `e` got. */
    ghost method Adopt(t: Tree<D>, e: Edge, kt: Tree<D>)
      requires this in Repr && Fields(t) && Has(e) && At(e).Rep(kt) && this !in At(e).Repr
      requires forall m :: m in At(e).Repr && m in Repr ==> m in own && own[m] == e
      requires forall f :: Has(f) && f != e ==> Hangs(f, KidOf(t, f))
      modifies this
      ensures Rep(PutKid(t, e, kt)) && Repr == old(Repr) + old(At(e).Repr)
    {
      Repr := Repr + At(e).Repr;
      own := own + (map m | m in At(e).Repr :: e);
      var t' := PutKid(t, e, kt);
      forall f | Has(f)
        ensures Hangs(f, KidOf(t', f))
      {
        if f != e {
          assert old(Hangs(f, KidOf(t, f)));
          assert At(f) == old(At(f));
          assert Owns(f, At(f));
        } else {
          assert At(e) == old(At(e));
          assert Owns(e, At(e));
        }
      }
    }

    /** Recurses into the child under `e`. */
    method AddToKid(ghost t: Tree<D>, ghost e: Edge, child: Node<D>, rest: string, d: D, order: int) returns (pn: int)
      requires Rep(t) && Shaped(t) && WellFormed(rest) && Has(e) && child == At(e)
      requires Shaped(KidOf(t, e)) && KidOf(t, e).key != ""
      modifies Repr
      ensures fresh(Repr - old(Repr))
      ensures Accepts(KidOf(t, e), rest) ==>
        Rep(PutKid(t, e, RouteTree.Add(KidOf(t, e), rest, d, order))) &&
        pn == |NamesBefore(KidOf(t, e))| + |Names(rest)|
      ensures !Accepts(KidOf(t, e), rest) ==> pn == -1 && unchanged(old(Repr))
      decreases |rest|, 0, |KidOf(t, e).key| + 1
    {
      ghost var kt := KidOf(t, e);
      assert Hangs(e, kt);
      pn := child.Add(kt, rest, d, order);
      if pn >= 0 {
        KeptKids(t);
        forall f | Has(f) && f != e
          ensures Hangs(f, KidOf(t, f))
        {
          assert old(Hangs(f, KidOf(t, f)));
          assert Kept(f);
        }
        Adopt(t, e, RouteTree.Add(kt, rest, d, order));
      }
    }

    /** Tries the parameter children in order; only one can take the key. */
    method AddToParams(ghost t: Tree<D>, rest: string, d: D, order: int) returns (pn: int)
      requires Rep(t) && Shaped(t) && WellFormed(rest) && rest != "" && rest[0] !in t.children
      modifies Repr
      ensures fresh(Repr - old(Repr))
      ensures ParamIndex(t.pchildren, rest) < |t.pchildren| ==>
        Rep(RouteTree.AddBelow(t, rest, d, order)) && pn == |t.pnames| + |Names(rest)|
      ensures ParamIndex(t.pchildren, rest) == |t.pchildren| ==> pn == -1 && unchanged(old(Repr))
      decreases |rest|, 1, 0
    {
      pn := -1;
      var i := 0;
      while i < |pchildren|
        invariant i <= ParamIndex(t.pchildren, rest) && i <= |pchildren| && pn == -1
        invariant unchanged(old(Repr)) && Rep(t)
      {
        ParamStep(t, i, rest, d, order);
        pn := AddToKid(t, ByIndex(i), pchildren[i], rest, d, order);
        if pn >= 0 {
          return;
        }
        i := i + 1;
      }
    }

    /** `add` once the node's own key is used up. */
    method AddBelow(ghost t: Tree<D>, rest: string, d: D, order: int) returns (pn: int)
      requires Rep(t) && Shaped(t) && WellFormed(rest)
      modifies Repr
      ensures fresh(Repr - old(Repr))
      ensures Rep(RouteTree.AddBelow(t, rest, d, order)) && pn == |t.pnames| + |Names(rest)|
      decreases |rest|, 1, 1
    {
      if rest == "" {
        if data.None? {
          SetData(t, d, order);
        }
        return pindex + 1;
      }
      if rest[0] in children {
        assert StaticKid(t, rest[0], t.children[rest[0]]) && Shaped(t.children[rest[0]]);
        pn := AddToKid(t, ByChar(rest[0]), children[rest[0]], rest, d, order);
        return;
      }
      pn := AddToParams(t, rest, d, order);
      if pn < 0 {
        pn := AddChild(t, rest, d, order);
      }
    }

    /** `add`: the number of parameters of the whole key, or -1 when this node has to be skipped. */
    method Add(ghost t: Tree<D>, key: string, d: D, order: int) returns (pn: int)
      requires Rep(t) && Shaped(t) && WellFormed(key)
      modifies Repr
      ensures fresh(Repr - old(Repr))
      ensures Accepts(t, key) ==>
        Rep(RouteTree.Add(t, key, d, order)) && pn == |NamesBefore(t)| + |Names(key)|
      ensures !Accepts(t, key) ==> pn == -1 && unchanged(old(Repr))
      decreases |key|, if t.key == "" then 2 else 0, |t.key|
    {
      var matched := PrefixLength(key, this.key);
      if matched == |this.key| {
        AddHere(t, key, d, order);
        pn := AddBelow(t, key[matched..], d, order);
        return;
      }
      if matched == 0 || !isStatic {
        return -1;
      }
      CutShaped(t, matched);
      SplitAt(t, matched);
      SplitAdd(t, key, d, order);
      pn := Add(Split(t, matched), key, d, order);
    }

    /** Records a captured value; an index past the end of the buffer is a panic. */
    method Put(pvalues: array<string>, value: string) returns (ok: bool)
      requires pindex >= 0
      modifies pvalues
      ensures ok <==> pindex < pvalues.Length
      ensures pvalues[..] == if ok then old(pvalues[..])[pindex := value] else old(pvalues[..])
    {
      ok := pindex < pvalues.Length;
      if ok {
        pvalues[pindex] := value;
      }
    }

    /** The part of `get` that matches the node's own key and records a captured value. */
    method Eat(ghost t: Tree<D>, re: Matcher, path: string, pvalues: array<string>) returns (ok: bool, r: Option<nat>)
      requires Rep(t) && Shaped(t)
      modifies pvalues
      ensures ok <==> !OverrunsHere(re, t, path, pvalues.Length)
      ensures r == Step(re, t, path)
      ensures ok ==> !t.isStatic && r.Some? ==> 0 < |t.pnames| <= pvalues.Length
      ensures ok ==> pvalues[..] == if isStatic || r.None? then old(pvalues[..])
                                    else old(pvalues[..])[|t.pnames| - 1 := path[..r.value]]
    {
      ok := true;
      if isStatic {
        if |key| > |path| {
          return true, None;
        }
        var same := EqualPrefix(key, path);
        return true, if same then Some(|key|) else None;
      }
      var _, pattern := SplitToken(key);
      if pattern == "" {
        var i := SlashOrEnd(path);
        ok := Put(pvalues, path[..i]);
        return ok, Some(i);
      } else if pattern == ".*" {
        ok := Put(pvalues, path);
        assert path[..|path|] == path;
        return ok, Some(|path|);
      } else {
        r := FindEnd(re, "^" + pattern, path);
        if r.Some? {
          ok := Put(pvalues, path[..r.value]);
        }
      }
    }

    /** `get`: the match with the least order below this node. The captured values are written to
        `pvalues` from the node's first own parameter on; what is before stays as it was. A buffer
        that is too small makes it panic. */
    method Get(ghost t: Tree<D>, ghost hi: int, re: Matcher, path: string, pvalues: array<string>)
        returns (ok: bool, data: Option<D>, pnames: seq<string>, order: int)
      requires Rep(t) && Searchable(t, hi) && |NamesBefore(t)| <= pvalues.Length
      modifies pvalues
      ensures ok <==> !Overruns(re, t, path, pvalues.Length)
      ensures ok ==> Reports(Best(re, t, path), data, pnames, order)
      ensures ok ==> Keeps(pvalues[..], old(pvalues[..]), |NamesBefore(t)|)
      ensures ok ==> Holds(pvalues[..], |NamesBefore(t)|, Best(re, t, path))
      decreases t, 2
    {
      hide Best, BestBelow, Overruns, OverrunsBelow, Shaped, Ordered, Rep;
      ghost var nt, caps;
      var n, rest, on;
      data, pnames, order := None, [], MAX_INT32;
      ok, on, n, rest, nt, caps := Descend(t, hi, re, path, pvalues);
      if !ok || !on {
        return;
      }
      ghost var mid := pvalues[..];
      ok, data, pnames, order := n.GetBelow(nt, hi, re, rest, pvalues);
      if ok {
        ghost var h := BestBelow(re, nt, |nt.pchildren|, rest);
        Assemble(pvalues[..], mid, old(pvalues[..]), |NamesBefore(t)|, caps, h);
      }
    }

    /** Follows the node and then, as the `goto` does, static children while there are no parameter
        children to try as well. */
    method Descend(ghost t: Tree<D>, ghost hi: int, re: Matcher, path: string, pvalues: array<string>)
        returns (ok: bool, on: bool, n: Node<D>, rest: string, ghost nt: Tree<D>, ghost caps: seq<string>)
      requires Rep(t) && Searchable(t, hi) && |NamesBefore(t)| <= pvalues.Length
      modifies pvalues
      ensures !ok ==> Overruns(re, t, path, pvalues.Length)
      ensures ok && !on ==> Best(re, t, path) == None && !Overruns(re, t, path, pvalues.Length)
      ensures ok && on ==> n.Rep(nt) && Searchable(nt, hi) && (nt == t || nt < t)
      ensures ok && on ==> Best(re, t, path) == Prefixed(caps, BestBelow(re, nt, |nt.pchildren|, rest))
      ensures ok && on ==>
        Overruns(re, t, path, pvalues.Length) == OverrunsBelow(re, nt, |nt.pchildren|, rest, pvalues.Length)
      ensures ok && on ==> |nt.pnames| == |NamesBefore(t)| + |caps| <= pvalues.Length
      ensures ok && on ==> pvalues[|NamesBefore(t)|..|nt.pnames|] == caps
      ensures ok ==> Keeps(pvalues[..], old(pvalues[..]), |NamesBefore(t)|)
      decreases t, 1
    {
      hide Best, BestBelow, Overruns, OverrunsBelow, Shaped, Ordered;
      n, rest, nt, caps := this, path, t, [];
      ghost var base := |NamesBefore(t)|;
      ghost var goal, over := Best(re, t, path), Overruns(re, t, path, pvalues.Length);
      PrefixedNothing(goal);
      while true
        invariant n.Rep(nt) && Searchable(nt, hi) && (nt == t || nt < t)
        invariant goal == Prefixed(caps, Best(re, nt, rest)) && over == Overruns(re, nt, rest, pvalues.Length)
        invariant |NamesBefore(nt)| == base + |caps| <= pvalues.Length
        invariant pvalues[base..base + |caps|] == caps
        invariant Keeps(pvalues[..], old(pvalues[..]), base)
        decreases nt
      {
        var r;
        ghost var caps';
        OverrunsStep(re, nt, rest, pvalues.Length);
        ok, r, caps' := n.Bite(nt, hi, re, rest, pvalues, base, caps);
        if !ok {
          return false, false, n, rest, nt, caps;
        }
        if r.None? {
          NoStep(re, nt, rest);
          return true, false, n, rest, nt, caps;
        }
        PrefixedStep(re, nt, rest, caps);
        caps, rest := caps', rest[r.value..];
        if rest != "" && rest[0] in n.children && |n.pchildren| == 0 {
          n.RepKid(nt, ByChar(rest[0]), hi);
          OnlyStatic(re, nt, rest, pvalues.Length);
          n, nt := n.children[rest[0]], nt.children[rest[0]];
        } else {
          return true, true, n, rest, nt, caps;
        }
      }
    }

    /** One node of `Descend`: eats the node's key and extends the captures so far. */
    method Bite(ghost t: Tree<D>, ghost hi: int, re: Matcher, path: string, pvalues: array<string>,
                ghost base: nat, ghost caps: seq<string>)
        returns (ok: bool, r: Option<nat>, ghost caps': seq<string>)
      requires Rep(t) && Searchable(t, hi) && |NamesBefore(t)| == base + |caps| <= pvalues.Length
      requires pvalues[base..base + |caps|] == caps
      modifies pvalues
      ensures ok <==> !OverrunsHere(re, t, path, pvalues.Length)
      ensures r == Step(re, t, path)
      ensures ok ==> Keeps(pvalues[..], old(pvalues[..]), base)
      ensures ok && r.Some? ==>
        && caps' == caps + OwnCapture(t, path[..r.value])
        && |t.pnames| == base + |caps'| <= pvalues.Length
        && pvalues[base..base + |caps'|] == caps'
    {
      hide Step, Ordered;
      ok, r := Eat(t, re, path, pvalues);
      caps' := if r.None? then caps else caps + OwnCapture(t, path[..r.value]);
      if ok {
        assert pvalues[..base] == old(pvalues[..base]);
        assert pvalues[base..base + |caps|] == old(pvalues[base..base + |caps|]);
      }
    }

    /** The rest of `get` once the node's own key is used up: its data or static child, then the
        parameter children. */
    method GetBelow(ghost t: Tree<D>, ghost hi: int, re: Matcher, rest: string, pvalues: array<string>)
        returns (ok: bool, data: Option<D>, pnames: seq<string>, order: int)
      requires Rep(t) && Searchable(t, hi) && |t.pnames| <= pvalues.Length
      modifies pvalues
      ensures ok <==> !OverrunsBelow(re, t, |t.pchildren|, rest, pvalues.Length)
      ensures ok ==> Reports(BestBelow(re, t, |t.pchildren|, rest), data, pnames, order)
      ensures ok ==> Keeps(pvalues[..], old(pvalues[..]), |t.pnames|)
      ensures ok ==> Holds(pvalues[..], |t.pnames|, BestBelow(re, t, |t.pchildren|, rest))
      decreases t, 0, 2
    {
      ok, data, pnames, order := true, None, [], MAX_INT32;
      if rest != "" {
        if rest[0] in children {
          RepKid(t, ByChar(rest[0]), hi);
          ok, data, pnames, order := children[rest[0]].Get(t.children[rest[0]], hi, re, rest, pvalues);
          if !ok {
            OverrunsMore(re, t, 0, |t.pchildren|, rest, pvalues.Length);
            return;
          }
        }
      } else if this.data.Some? {
        data, pnames, order := this.data, this.pnames, this.order;
      }
      assert BestBelow(re, t, 0, rest) == BestStatic(re, t, rest);
      ok, data, pnames, order := TryParams(t, hi, re, rest, pvalues, data, pnames, order);
    }

    /** One attempt of the loop of `get`: searches this parameter node and keeps the better result. */
    method TryOne(ghost t: Tree<D>, ghost hi: int, re: Matcher, rest: string,
                  pvalues: array<string>, tvalues: array<string>, copied: bool,
                  ghost h: Option<Hit<D>>, data0: Option<D>, pnames0: seq<string>, order0: int)
        returns (ok: bool, data: Option<D>, pnames: seq<string>, order: int)
      requires Rep(t) && !isStatic && Searchable(t, hi) && |NamesBefore(t)| <= pvalues.Length == tvalues.Length
      requires Reports(h, data0, pnames0, order0) && Holds(pvalues[..], |NamesBefore(t)|, h)
      requires if copied then tvalues != pvalues else tvalues == pvalues && h.None?
      modifies pvalues, tvalues
      ensures ok <==> !Overruns(re, t, rest, pvalues.Length)
      ensures ok ==> Reports(Better(h, Best(re, t, rest)), data, pnames, order)
      ensures ok ==> Keeps(pvalues[..], old(pvalues[..]), |NamesBefore(t)|)
      ensures ok ==> Holds(pvalues[..], |NamesBefore(t)|, Better(h, Best(re, t, rest)))
      decreases t, 3
    {
      hide Best, Overruns, Shaped, Ordered, Rep;
      OwnIndex(t);
      data, pnames, order := data0, pnames0, order0;
      var d, p, s;
      ok, d, p, s := Get(t, hi, re, rest, tvalues);
      if ok && d.Some? {
        BestNotBeforeMinOrder(re, t, rest, hi);
        if s < order {
          if copied {
            CopyRange(tvalues, pvalues, pindex, |p|);
          }
          data, pnames, order := d, p, s;
        }
      }
    }

    lemma OwnIndex(t: Tree<D>)
      requires Rep(t) && Shaped(t) && !isStatic
      ensures !t.isStatic && pindex == |NamesBefore(t)|
    {
    }

    /** The loop of `get` over the parameter children. Children that cannot beat the current order
        are skipped; once something is found, further attempts write to a scratch buffer. */
    method TryParams(ghost t: Tree<D>, ghost hi: int, re: Matcher, rest: string, pvalues: array<string>,
                     data0: Option<D>, pnames0: seq<string>, order0: int)
        returns (ok: bool, data: Option<D>, pnames: seq<string>, order: int)
      requires Rep(t) && Searchable(t, hi) && |t.pnames| <= pvalues.Length
      requires Reports(BestBelow(re, t, 0, rest), data0, pnames0, order0)
      requires Holds(pvalues[..], |t.pnames|, BestBelow(re, t, 0, rest))
      requires !OverrunsBelow(re, t, 0, rest, pvalues.Length)
      modifies pvalues
      ensures ok <==> !OverrunsBelow(re, t, |t.pchildren|, rest, pvalues.Length)
      ensures ok ==> Reports(BestBelow(re, t, |t.pchildren|, rest), data, pnames, order)
      ensures ok ==> Keeps(pvalues[..], old(pvalues[..]), |t.pnames|)
      ensures ok ==> Holds(pvalues[..], |t.pnames|, BestBelow(re, t, |t.pchildren|, rest))
      decreases t, 0, 1
    {
      hide Best, BestBelow, Overruns, OverrunsBelow, Shaped, Ordered;
      ok, data, pnames, order := true, data0, pnames0, order0;
      var tvalues, copied := pvalues, false;
      ghost var base, h := |t.pnames|, BestBelow(re, t, 0, rest);
      var i, n := 0, |pchildren|;
      while i < n
        invariant i <= n && Rep(t) && ok && !OverrunsBelow(re, t, i, rest, pvalues.Length)
        invariant h == BestBelow(re, t, i, rest) && Reports(h, data, pnames, order)
        invariant Keeps(pvalues[..], old(pvalues[..]), base) && Holds(pvalues[..], base, h)
        invariant tvalues.Length == pvalues.Length && (if copied then fresh(tvalues) && data.Some? else tvalues == pvalues)
      {
        BestBelowStep(re, t, i, rest, pvalues.Length);
        ok, data, pnames, order, tvalues, copied :=
          Attempt(t, hi, re, rest, pvalues, i, tvalues, copied, h, data, pnames, order);
        if !ok {
          OverrunsMore(re, t, i + 1, n, rest, pvalues.Length);
          return;
        }
        h := Better(h, Best(re, t.pchildren[i], rest));
        i := i + 1;
      }
    }

    /** The body of that loop for the `i`-th parameter child. */
    method Attempt(ghost t: Tree<D>, ghost hi: int, re: Matcher, rest: string, pvalues: array<string>, i: nat,
                   tvalues0: array<string>, copied0: bool,
                   ghost h: Option<Hit<D>>, data0: Option<D>, pnames0: seq<string>, order0: int)
        returns (ok: bool, data: Option<D>, pnames: seq<string>, order: int, tvalues: array<string>, copied: bool)
      requires Rep(t) && i < |t.pchildren| && Searchable(t, hi) && |t.pnames| <= pvalues.Length == tvalues0.Length
      requires if copied0 then tvalues0 != pvalues && h.Some? else tvalues0 == pvalues
      requires Reports(h, data0, pnames0, order0) && Holds(pvalues[..], |t.pnames|, h)
      modifies pvalues, tvalues0
      ensures ok <==> !(t.pchildren[i].minOrder < OrderOf(h) && Overruns(re, t.pchildren[i], rest, pvalues.Length))
      ensures ok ==> Reports(Better(h, Best(re, t.pchildren[i], rest)), data, pnames, order)
      ensures ok ==> Keeps(pvalues[..], old(pvalues[..]), |t.pnames|)
      ensures ok ==> Holds(pvalues[..], |t.pnames|, Better(h, Best(re, t.pchildren[i], rest)))
      ensures tvalues.Length == pvalues.Length && (tvalues == tvalues0 || fresh(tvalues))
      ensures ok ==> if copied then tvalues != pvalues && data.Some? else tvalues == pvalues
      decreases t, 0, 0
    {
      hide Best, Overruns, Shaped, Ordered;
      var child := pchildren[i];
      RepKid(t, ByIndex(i), hi);
      ok, data, pnames, order, tvalues, copied := true, data0, pnames0, order0, tvalues0, copied0;
      if child.minOrder < order {
        if data.Some? && !copied {
          tvalues := new string[pvalues.Length](_ => "");
          copied := true;
        }
        ok, data, pnames, order :=
          child.TryOne(t.pchildren[i], hi, re, rest, pvalues, tvalues, copied, h, data, pnames, order);
      } else {
        PrunedKeeps(re, t.pchildren[i], rest, hi, h, order);
      }
    }

    /** What a node knows about the child under `e`. */
    lemma RepKid(t: Tree<D>, e: Edge, hi: int)
      requires Rep(t) && Searchable(t, hi) && Has(e)
      ensures HasKid(t, e) && At(e).Rep(KidOf(t, e)) && Searchable(KidOf(t, e), hi)
      ensures At(e).minOrder == KidOf(t, e).minOrder
      ensures |NamesBefore(KidOf(t, e))| == |t.pnames| && At(e).isStatic == e.ByChar?
    {
      assert Hangs(e, KidOf(t, e));
      KidSearchable(t, e, hi);
    }
  }

  /** What `get` relies on: a valid tree with orders below MaxInt32. */
  ghost predicate Searchable<D>(t: Tree<D>, hi: int) {
    Valid(t, hi) && hi <= MAX_INT32
  }

  /** `get`'s results spell the hit `h`. */
  ghost predicate Reports<D>(h: Option<Hit<D>>, data: Option<D>, pnames: seq<string>, order: int) {
    match h
    case None => data.None? && pnames == [] && order == MAX_INT32
    case Some(b) => data == Some(b.data) && pnames == b.names && order == b.order
  }

  ghost predicate Keeps(pv: seq<string>, was: seq<string>, base: nat) {
    |pv| == |was| && base <= |pv| && pv[..base] == was[..base]
  }

  /** The buffer holds the captured values of `h` from `base` on. */
  ghost predicate Holds<D>(pv: seq<string>, base: nat, h: Option<Hit<D>>) {
    h.Some? ==>
      && base + |h.value.values| <= |pv|
      && pv[base..base + |h.value.values|] == h.value.values
      && base + |h.value.values| == |h.value.names|
  }

  function Prefixed<D>(caps: seq<string>, h: Option<Hit<D>>): Option<Hit<D>> {
    if h.None? then None else Some(h.value.(values := caps + h.value.values))
  }

  function OwnCapture<D>(t: Tree<D>, value: string): seq<string> {
    if t.isStatic then [] else [value]
  }

  lemma NoStep<D>(re: Matcher, t: Tree<D>, path: string)
    requires Step(re, t, path).None?
    ensures Best(re, t, path) == None
  {
  }

  lemma PrefixedStep<D>(re: Matcher, t: Tree<D>, path: string, caps: seq<string>)
    requires Step(re, t, path).Some?
    ensures var n := Step(re, t, path).value;
            Prefixed(caps, Best(re, t, path)) ==
            Prefixed(caps + OwnCapture(t, path[..n]), BestBelow(re, t, |t.pchildren|, path[n..]))
  {
    var n := Step(re, t, path).value;
    var h := BestBelow(re, t, |t.pchildren|, path[n..]);
    if h.Some? {
      assert caps + ([path[..n]] + h.value.values) == caps + [path[..n]] + h.value.values;
      assert caps + [] == caps;
    }
  }

  /** Skipping a child whose `minOrder` is not below the current order loses nothing. */
  lemma PrunedKeeps<D>(re: Matcher, t: Tree<D>, rest: string, hi: int, h: Option<Hit<D>>, order: int)
    requires Valid(t, hi) && hi <= MAX_INT32 && order <= t.minOrder
    requires order == if h.Some? then h.value.order else MAX_INT32
    ensures Better(h, Best(re, t, rest)) == h
  {
    if Best(re, t, rest).Some? {
      BestNotBeforeMinOrder(re, t, rest, hi);
    }
  }

  lemma PrefixedNothing<D>(h: Option<Hit<D>>)
    ensures Prefixed([], h) == h
  {
    if h.Some? {
      assert [] + h.value.values == h.value.values;
    }
  }

  lemma {:induction false} OnlyStatic<D>(re: Matcher, t: Tree<D>, rest: string, size: nat)
    requires t.pchildren == [] && rest != "" && rest[0] in t.children
    ensures BestBelow(re, t, |t.pchildren|, rest) == Best(re, t.children[rest[0]], rest)
    ensures OverrunsBelow(re, t, |t.pchildren|, rest, size) == Overruns(re, t.children[rest[0]], rest, size)
  {
  }

  /** What was captured on the way down and what was found below lie next to each other. */
  lemma Assemble<D>(pv: seq<string>, mid: seq<string>, was: seq<string>, base: nat, caps: seq<string>, h: Option<Hit<D>>)
    requires Keeps(mid, was, base) && base + |caps| <= |mid| && mid[base..base + |caps|] == caps
    requires Keeps(pv, mid, base + |caps|) && Holds(pv, base + |caps|, h)
    ensures Keeps(pv, was, base) && Holds(pv, base, Prefixed(caps, h))
  {
    var b := base + |caps|;
    assert pv[..base] == pv[..b][..base] == mid[..b][..base] == mid[..base];
    assert pv[base..b] == pv[..b][base..] == mid[..b][base..] == mid[base..b];
    if h.Some? {
      var e := b + |h.value.values|;
      assert pv[base..e] == pv[base..b] + pv[b..e];
    }
  }

  lemma KidSearchable<D>(t: Tree<D>, e: Edge, hi: int)
    requires Searchable(t, hi) && HasKid(t, e)
    ensures Searchable(KidOf(t, e), hi) && t.minOrder <= KidOf(t, e).minOrder < hi
    ensures |NamesBefore(KidOf(t, e))| == |t.pnames| && KidOf(t, e).isStatic == e.ByChar?
  {
    match e
    case ByChar(c) => assert StaticKid(t, c, t.children[c]) && OrderedKid(t, t.children[c]);
    case ByIndex(i) => assert ParamKid(t, t.pchildren[i]) && OrderedKid(t, t.pchildren[i]);
  }

  /** Copies `src[from..to]` to the same positions of `dst`. */
  method CopyRange(src: array<string>, dst: array<string>, from: nat, to: nat)
    requires src != dst && from <= to <= src.Length && to <= dst.Length
    modifies dst
    ensures dst[..from] == old(dst[..from]) && dst[from..to] == src[from..to] && dst[to..] == old(dst[to..])
  {
    for i := from to to
      invariant dst[..from] == old(dst[..from]) && dst[from..i] == src[from..i] && dst[i..] == old(dst[i..])
    {
      dst[i] := src[i];
    }
  }

  /** The backward comparison loop of `get` on a static node. */
  method EqualPrefix(key: string, path: string) returns (same: bool)
    requires |key| <= |path|
    ensures same <==> key <= path
  {
    var i := |key|;
    while i > 0
      invariant 0 <= i <= |key| && key[i..] == path[i..|key|]
    {
      i := i - 1;
      if key[i] != path[i] {
        return false;
      }
    }
    assert key == key[0..] == path[0..|key|];
    return true;
  }

  /** The loop of `get` that finds where a plain parameter ends. */
  method SlashOrEnd(path: string) returns (i: nat)
    ensures i == IndexOf(path, '/')
  {
    i := 0;
    while i < |path| && path[i] != '/'
      invariant i <= IndexOf(path, '/')
    {
      i := i + 1;
    }
  }

  /** The loop of `addChild` that splits a token at its first ':'. */
  method SplitToken(tok: string) returns (pname: string, pattern: string)
    requires IsToken(tok)
    ensures pname == NameOf(tok) && pattern == PatternOf(tok)
  {
    hide Inner, IndexOf, IsToken;
    InnerIs(tok);
    pname, pattern := tok[1..|tok| - 1], "";
    var i := 1;
    while i < |tok| - 1
      invariant 1 <= i <= |tok| - 1 && i - 1 <= IndexOf(Inner(tok), ':')
      invariant pname == Inner(tok) && pattern == ""
    {
      InnerAt(tok, i);
      if tok[i] == ':' {
        return tok[1..i], tok[i + 1..|tok| - 1];
      }
      i := i + 1;
    }
    assert pname[..|pname|] == pname;
  }

  lemma InnerIs(tok: string)
    requires IsToken(tok)
    ensures |tok| >= 2 && Inner(tok) == tok[1..|tok| - 1]
  {
  }

  lemma InnerAt(tok: string, i: int)
    requires IsToken(tok) && 1 <= i < |tok| - 1
    ensures |Inner(tok)| == |tok| - 2 && Inner(tok)[i - 1] == tok[i]
    ensures Inner(tok)[..i - 1] == tok[1..i] && Inner(tok)[i..] == tok[i + 1..|tok| - 1]
  {
  }

  /** The tree with the child under `e` replaced. */
  function PutKid<D>(t: Tree<D>, e: Edge, k: Tree<D>): Tree<D>
    requires HasKid(t, e)
  {
    match e
    case ByChar(c) => t.(children := t.children[c := k])
    case ByIndex(i) => t.(pchildren := t.pchildren[i := k])
  }

  /** When the node's key is a prefix of the key, adding means adding the rest below it. */
  lemma AddHere<D>(t: Tree<D>, key: string, d: D, order: int)
    requires Shaped(t) && WellFormed(key) && CommonPrefix(key, t.key) == |t.key|
    ensures WellFormed(key[|t.key|..])
    ensures RouteTree.Add(t, key, d, order) == RouteTree.AddBelow(t, key[|t.key|..], d, order)
    ensures |NamesBefore(t)| + |Names(key)| == |t.pnames| + |Names(key[|t.key|..])|
  {
    RestWellFormed(t, key);
    assert key == t.key + key[|t.key|..];
    NamesFromNode(t, key[|t.key|..]);
  }

  lemma TokenNotEmpty(tok: string)
    requires IsToken(tok)
    ensures tok != ""
  {
  }

  /** A parameter child takes a key exactly when the key starts with its token. */
  lemma ParamStep<D>(t: Tree<D>, i: nat, rest: string, d: D, order: int)
    requires Shaped(t) && WellFormed(rest) && rest != "" && rest[0] !in t.children && i < |t.pchildren|
    ensures var k := t.pchildren[i];
            && Shaped(k) && k.key != "" && |NamesBefore(k)| == |t.pnames|
            && (Accepts(k, rest) <==> k.key <= rest)
            && (i == ParamIndex(t.pchildren, rest) ==>
                  RouteTree.AddBelow(t, rest, d, order) == PutKid(t, ByIndex(i), RouteTree.Add(k, rest, d, order)))
  {
    hide RouteTree.Add, WellFormed, CommonPrefix, ParamIndex, IsToken, NameOf;
    var k := t.pchildren[i];
    assert ParamKid(t, k) && Shaped(k);
    TokenNotEmpty(k.key);
    if k.key <= rest {
      assert forall j :: 0 <= j < |k.key| ==> rest[j] == k.key[j];
    }
  }

  /** Adding to a split node is what adding to the node means. */
  lemma SplitAdd<D>(t: Tree<D>, key: string, d: D, order: int)
    requires Shaped(t) && t.isStatic && WellFormed(key) && 0 < CommonPrefix(key, t.key) < |t.key|
    ensures var u := Split(t, CommonPrefix(key, t.key));
            && Shaped(u) && Accepts(u, key) && CommonPrefix(key, u.key) == |u.key|
            && RouteTree.Add(u, key, d, order) == RouteTree.Add(t, key, d, order)
            && NamesBefore(u) == NamesBefore(t)
  {
    var m := CommonPrefix(key, t.key);
    CutShaped(t, m);
    var u := Split(t, m);
    assert key[..m] == u.key;
    assert forall j :: 0 <= j < m ==> key[j] == u.key[j];
  }

  /** The key behind its first token. */
  lemma AfterToken(key: string)
    requires StartsWithToken(key) && WellFormed(key)
    ensures var tok := FirstToken(key);
            && tok == key[..IndexOf(key, '>') + 1] && IsToken(tok) && WellFormed(key[|tok|..])
            && Names(key) == [NameOf(tok)] + Names(key[|tok|..]) && (|tok| == |key| ==> |Names(key)| == 1)
  {
  }

  lemma NamesAfterLiteral(lit: string, rest: string)
    requires IsLiteral(lit)
    ensures Names(lit + rest) == Names(rest)
  {
    MatchLiteral((p, s) => None, lit, rest, "");
  }

  lemma LiteralRunNames(key: string)
    requires WellFormed(key)
    ensures Names(key) == Names(key[LiteralRun(key)..])
  {
    hide Names, WellFormed, Match, IndexOf;
    var n := LiteralRun(key);
    assert IsLiteral(key[..n]);
    NamesAfterLiteral(key[..n], key[n..]);
    assert key == key[..n] + key[n..];
  }

  /** The loop of `add` that finds the common prefix. */
  method PrefixLength(key: string, nodeKey: string) returns (matched: nat)
    ensures matched == CommonPrefix(key, nodeKey)
  {
    matched := 0;
    while matched < |key| && matched < |nodeKey| && key[matched] == nodeKey[matched]
      invariant matched <= CommonPrefix(key, nodeKey)
    {
      matched := matched + 1;
    }
  }

  /** The scan of `addChild` for the first parameter token: the first '<' and the first '>' after it. */
  method FindToken(key: string) returns (p0: int, p1: int)
    requires WellFormed(key)
    ensures p1 < 0 <==> LiteralRun(key) == |key|
    ensures p1 >= 0 ==> p0 == LiteralRun(key) && p1 == p0 + IndexOf(key[p0..], '>') < |key|
  {
    p0, p1 := -1, -1;
    LiteralRunWellFormed(key);
    var i := 0;
    while i < |key|
      invariant 0 <= i <= |key| && p1 == -1
      invariant p0 == -1 ==> i <= LiteralRun(key)
      invariant p0 != -1 ==> p0 == LiteralRun(key) <= i && i - p0 <= IndexOf(key[p0..], '>')
    {
      if p0 < 0 && key[i] == '<' {
        p0 := i;
      }
      if p0 >= 0 && key[i] == '>' {
        p1 := i;
        break;
      }
      i := i + 1;
    }
  }

  /** `store`: the root node and the number of additions so far, with the history it stands for. */
  class Store<D(!new)> {
    var root: Node<D>
    var count: int
    ghost var adds: seq<Added<D>>
    ghost var tree: Tree<D>

    ghost predicate Valid()
      reads this, root, root.Repr
    {
      && root.Rep(tree)
      && Indexes(tree, adds)
      && count == |adds|
    }

    constructor ()
      ensures Valid() && adds == [] && fresh(root.Repr)
    {
      root := new Node<D>(true, "", 0, -1, []);
      count, adds, tree := 0, [], EmptyTree<D>();
      EmptyIndexes<D>();
    }

    /** `store.Add`: extends the history and returns the number of parameters of the key. */
    method Add(key: string, data: D) returns (n: int)
      requires Valid() && WellFormed(key)
      modifies this, root.Repr
      ensures Valid() && adds == old(adds) + [Added(key, data)]
      ensures n == |Names(key)| && root == old(root) && fresh(root.Repr - old(root.Repr))
    {
      hide RouteTree.Add, Lookup, Shaped, Ordered, Names;
      AddIndexes(tree, adds, key, data);
      count := count + 1;
      n := root.Add(tree, key, data, count);
      tree := RouteTree.Add(tree, key, data, count);
      adds := adds + [Added(key, data)];
    }

    /** `store.Get`: the data of the first added key that matches the path, with the names and the
        captured values of its parameters in the buffer; or a panic when the search runs into a
        parameter the buffer has no cell for, which cannot happen if every key's parameters fit. */
    method Get(re: Matcher, path: string, pvalues: array<string>) returns (ok: bool, data: Option<D>, pnames: seq<string>)
      requires Valid() && |adds| < MAX_INT32
      modifies pvalues
      ensures ok <==> !Overruns(re, tree, path, pvalues.Length)
      ensures (forall i :: 0 <= i < |adds| ==> |Names(adds[i].key)| <= pvalues.Length) ==> ok
      ensures ok ==>
        match Expected(re, adds, path)
        case None => data == None && pnames == []
        case Some(h) =>
          data == Some(h.data) && pnames == h.names && |pnames| <= pvalues.Length && pvalues[..|pnames|] == h.values
    {
      hide Best, Lookup, Names, Shaped, Ordered, Fits, Overruns;
      SearchIsFirstMatch(re, tree, adds, path);
      if forall i :: 0 <= i < |adds| ==> |Names(adds[i].key)| <= pvalues.Length {
        RootFits(tree, adds, pvalues.Length);
        FitsNeverOverruns(re, tree, path, pvalues.Length);
      }
      var order;
      ok, data, pnames, order := root.Get(tree, |adds| + 1, re, path, pvalues);
    }
  }

  lemma RootFits<D>(t: Tree<D>, adds: seq<Added<D>>, size: nat)
    requires Indexes(t, adds) && forall i :: 0 <= i < |adds| ==> |Names(adds[i].key)| <= size
    ensures Fits(t, size) && |NamesBefore(t)| == 0
  {
    forall k | Lookup(t, k).Some?
      ensures |NamesBefore(t)| + |Names(k)| <= size
    {
      assert Lookup(t, k) == EntryFor(adds, k);
    }
    KeysFit(t, |adds| + 1, size);
  }
}
