/** The handler chain of a request (fasthttp-routing/context.go, `Next` and `Abort`). A handler is
    what it does with its context: it may abort, call `Next` any number of times, and return. A call
    of `Next` has one continuation for the error it gives in the run at hand and one for none, so
    every terminating handler is covered. */
module Handlers {
  import opened Basics

  type Err = Option<int>

  datatype Body =
    | Return(err: Err)
    | ReturnLast // the result of the last `Next`
    | Abort(after: Body)
    | CallNext(onOk: Body, onErr: Body)

  /** What happens, in order. A handler swallows an error that `Next` gave it when it calls `Next`
      again or returns without an error. */
  datatype Event = Started(i: int) | Ended(i: int, err: Err) | Aborted | Swallowed(i: int)

  datatype Done = Done(trace: seq<Event>, index: int, err: Err)

  // ---------------------------------------------------------------- meaning

  function Rem(hs: seq<Body>, index: int): nat {
    if index >= |hs| then 0 else |hs| - index
  }

  /** The index goes up, or past the last handler. */
  predicate Onward(hs: seq<Body>, from: int, to: int) {
    to >= from || to >= |hs|
  }

  /** The loop of `Next` from the handler at `index` on. */
  function Loop(hs: seq<Body>, index: int): (d: Done)
    requires index >= 0
    ensures Onward(hs, index, d.index) && d.index >= 0
    decreases Rem(hs, index), if index >= |hs| then 0 else 2, ReturnLast
  {
    if index >= |hs| then Done([], index, None)
    else
      var r := Run(hs, index, hs[index], index, None);
      if r.err.Some? then Done(Whole(index, r), r.index, r.err)
      else
        var rest := Loop(hs, r.index + 1);
        Done(Whole(index, r) + rest.trace, rest.index, rest.err)
  }

  /** The events of a handler from its start to its end. */
  function Whole(i: int, r: Done): seq<Event> {
    [Started(i)] + r.trace + [Ended(i, r.err)]
  }

  /** What handler `i` does; `last` is the result of its last `Next`. */
  function Run(hs: seq<Body>, i: int, b: Body, index: int, last: Err): (d: Done)
    requires index >= 0
    ensures Onward(hs, index, d.index) && d.index >= 0
    decreases Rem(hs, index), 1, b
  {
    match b
    case Return(e) => Done(if e.None? then Swallow(i, last) else [], index, e)
    case ReturnLast => Done([], index, last)
    case Abort(b') =>
      var r := Run(hs, i, b', |hs|, last);
      Done([Aborted] + r.trace, r.index, r.err)
    case CallNext(onOk, onErr) =>
      var r := Loop(hs, index + 1);
      var s := Run(hs, i, if r.err.None? then onOk else onErr, r.index, r.err);
      Done(Swallow(i, last) + r.trace + s.trace, s.index, s.err)
  }

  function Swallow(i: int, last: Err): seq<Event> {
    if last.Some? then [Swallowed(i)] else []
  }

  // ---------------------------------------------------------------- order

  /** Handlers start in increasing order, from `lo` on and below `hi`. */
  ghost predicate Ordered(trace: seq<Event>, lo: int, hi: int) {
    && (forall a :: 0 <= a < |trace| && trace[a].Started? ==> lo <= trace[a].i < hi)
    && (forall a, b :: 0 <= a < b < |trace| && trace[a].Started? && trace[b].Started? ==> trace[a].i < trace[b].i)
  }

  lemma OrderedCat(x: seq<Event>, y: seq<Event>, lo: int, mid: int, hi: int)
    requires Ordered(x, lo, mid) && Ordered(y, mid, hi) && lo <= mid <= hi
    ensures Ordered(x + y, lo, hi)
  {
    var t := x + y;
    forall a | 0 <= a < |t|
      ensures t[a] == if a < |x| then x[a] else y[a - |x|]
    {
    }
  }

  /** No start at all. */
  lemma OrderedQuiet(x: seq<Event>, lo: int, hi: int)
    requires forall a :: 0 <= a < |x| ==> !x[a].Started?
    ensures Ordered(x, lo, hi)
  {
  }

  lemma OrderedWhole(i: int, r: Done, hi: int)
    requires Ordered(r.trace, i + 1, hi) && i < hi
    ensures Ordered(Whole(i, r), i, hi)
  {
    assert Ordered([Started(i)], i, i + 1);
    OrderedCat([Started(i)], r.trace, i, i + 1, hi);
    OrderedQuiet([Ended(i, r.err)], hi, hi);
    OrderedCat([Started(i)] + r.trace, [Ended(i, r.err)], i, hi, hi);
  }

  /** The handlers up to `index`, of those there are. */
  function Upto(hs: seq<Body>, index: int): int {
    if index + 1 < |hs| then index + 1 else |hs|
  }

  /** Nothing starts once the index is past the handlers. */
  lemma {:induction false} RunsNothing(hs: seq<Body>, i: int, b: Body, index: int, last: Err)
    requires index >= |hs|
    ensures forall a :: 0 <= a < |Run(hs, i, b, index, last).trace| ==> !Run(hs, i, b, index, last).trace[a].Started?
    ensures Run(hs, i, b, index, last).index >= |hs|
    decreases b
  {
    match b
    case Return(_) =>
    case ReturnLast =>
    case Abort(b') => RunsNothing(hs, i, b', |hs|, last);
    case CallNext(onOk, onErr) =>
      RunsNothing(hs, i, onOk, index + 1, None);
  }

  lemma {:induction false} LoopOrdered(hs: seq<Body>, index: int)
    requires index >= 0
    ensures var d := Loop(hs, index); index <= |hs| ==> index <= Upto(hs, d.index) && Ordered(d.trace, index, Upto(hs, d.index))
    decreases Rem(hs, index), if index >= |hs| then 0 else 2, ReturnLast
  {
    if index < |hs| {
      var r := Run(hs, index, hs[index], index, None);
      RunOrdered(hs, index, hs[index], index, None);
      hide Run;
      var m := Upto(hs, r.index);
      OrderedWhole(index, r, m);
      if r.err.None? {
        hide Ordered, Whole;
        var rest := Loop(hs, r.index + 1);
        if r.index < |hs| {
          LoopOrdered(hs, r.index + 1);
          OrderedCat(Whole(index, r), rest.trace, index, m, Upto(hs, rest.index));
        } else {
          assert Whole(index, r) + [] == Whole(index, r);
        }
      }
    }
  }

  lemma {:induction false} RunOrdered(hs: seq<Body>, i: int, b: Body, index: int, last: Err)
    requires 0 <= index < |hs|
    ensures var d := Run(hs, i, b, index, last);
            index + 1 <= Upto(hs, d.index) && Ordered(d.trace, index + 1, Upto(hs, d.index))
    decreases Rem(hs, index), 1, b
  {
    RunStep(hs, i, b, index, last);
    hide Run, Loop, Ordered;
    match b
    case Return(e) =>
      OrderedQuiet(if e.None? then Swallow(i, last) else [], index + 1, Upto(hs, index));
    case ReturnLast =>
      OrderedQuiet([], index + 1, Upto(hs, index));
    case Abort(b') =>
      RunsNothing(hs, i, b', |hs|, last);
      OrderedQuiet([Aborted] + Run(hs, i, b', |hs|, last).trace, index + 1, |hs|);
    case CallNext(onOk, onErr) =>
      var r := Loop(hs, index + 1);
      LoopOrdered(hs, index + 1);
      var b' := if r.err.None? then onOk else onErr;
      var s := Run(hs, i, b', r.index, r.err);
      if r.index < |hs| {
        RunOrdered(hs, i, b', r.index, r.err);
      } else {
        RunsNothing(hs, i, b', r.index, r.err);
        OrderedQuiet(s.trace, |hs|, |hs|);
      }
      OrderedQuiet(Swallow(i, last), index + 1, index + 1);
      OrderedCat(Swallow(i, last), r.trace, index + 1, index + 1, Upto(hs, r.index));
      OrderedCat(Swallow(i, last) + r.trace, s.trace, index + 1, Upto(hs, r.index), Upto(hs, s.index));
  }

  /** In a whole dispatch each handler starts at most once, and after those before it. */
  lemma StartsInOrder(hs: seq<Body>, a: int, b: int)
    requires var t := Loop(hs, 0).trace; 0 <= a < b < |t| && t[a].Started? && t[b].Started?
    ensures var t := Loop(hs, 0).trace; 0 <= t[a].i < t[b].i < |hs|
  {
    LoopOrdered(hs, 0);
  }

  // ---------------------------------------------------------------- abort

  ghost predicate Quiet(trace: seq<Event>) {
    forall a, b :: 0 <= a < b < |trace| && trace[a].Aborted? ==> !trace[b].Started?
  }

  /** Nothing starts after an abort, which leaves the index past the handlers. */
  ghost predicate Sealed(hs: seq<Body>, d: Done) {
    Quiet(d.trace) && (Aborted in d.trace ==> d.index >= |hs|)
  }

  lemma QuietCat(x: seq<Event>, y: seq<Event>)
    requires Quiet(x) && Quiet(y) && (Aborted in x ==> forall b :: 0 <= b < |y| ==> !y[b].Started?)
    ensures Quiet(x + y)
  {
    var t := x + y;
    forall a, b | 0 <= a < b < |t| && t[a].Aborted?
      ensures !t[b].Started?
    {
      assert t[a] == if a < |x| then x[a] else y[a - |x|];
      assert t[b] == if b < |x| then x[b] else y[b - |x|];
    }
  }

  lemma QuietWhole(i: int, r: Done)
    requires Quiet(r.trace)
    ensures Quiet(Whole(i, r)) && (Aborted in Whole(i, r) <==> Aborted in r.trace)
  {
    QuietCat([Started(i)], r.trace);
    QuietCat([Started(i)] + r.trace, [Ended(i, r.err)]);
  }

  lemma {:induction false} LoopSealed(hs: seq<Body>, index: int)
    requires index >= 0
    ensures Sealed(hs, Loop(hs, index))
    decreases Rem(hs, index), if index >= |hs| then 0 else 2, ReturnLast
  {
    if index < |hs| {
      var r := Run(hs, index, hs[index], index, None);
      RunSealed(hs, index, hs[index], index, None);
      hide Run;
      QuietWhole(index, r);
      if r.err.None? {
        LoopSealed(hs, r.index + 1);
        QuietCat(Whole(index, r), Loop(hs, r.index + 1).trace);
      }
    }
  }

  lemma {:induction false} RunSealed(hs: seq<Body>, i: int, b: Body, index: int, last: Err)
    requires index >= 0
    ensures Sealed(hs, Run(hs, i, b, index, last))
    decreases Rem(hs, index), 1, b
  {
    match b
    case Return(_) =>
    case ReturnLast =>
    case Abort(b') =>
      RunSealed(hs, i, b', |hs|, last);
      RunsNothing(hs, i, b', |hs|, last);
    case CallNext(onOk, onErr) =>
      var r := Loop(hs, index + 1);
      LoopSealed(hs, index + 1);
      var b' := if r.err.None? then onOk else onErr;
      RunSealed(hs, i, b', r.index, r.err);
      if r.index >= |hs| {
        RunsNothing(hs, i, b', r.index, r.err);
      }
      var s := Run(hs, i, b', r.index, r.err);
      hide Run, Loop;
      QuietCat(Swallow(i, last), r.trace);
      QuietCat(Swallow(i, last) + r.trace, s.trace);
  }

  /** After an abort no handler starts. */
  lemma AbortIsFinal(hs: seq<Body>, a: int, b: int)
    requires var t := Loop(hs, 0).trace; 0 <= a < b < |t| && t[a].Aborted?
    ensures !Loop(hs, 0).trace[b].Started?
  {
    LoopSealed(hs, 0);
  }

  // ---------------------------------------------------------------- errors

  /** Is there an error that nobody has swallowed? `None` when a handler starts under one. */
  function Scan(open: bool, trace: seq<Event>): Option<bool> {
    if trace == [] then Some(open)
    else
      var before := Scan(open, trace[..|trace| - 1]);
      if before.None? then None
      else
        match trace[|trace| - 1]
        case Started(_) => if before.value then None else before
        case Ended(_, e) => if e.Some? then Some(true) else before
        case Aborted => before
        case Swallowed(_) => Some(false)
  }

  lemma {:induction false} ScanCat(open: bool, x: seq<Event>, y: seq<Event>)
    ensures Scan(open, x + y) == (match Scan(open, x) case None => None case Some(o) => Scan(o, y))
    decreases |y|
  {
    if y == [] {
      assert x + y == x;
    } else {
      var n := |y| - 1;
      ScanCat(open, x, y[..n]);
      assert (x + y)[..|x| + n] == x + y[..n];
    }
  }

  /** The scan finds what it is meant to: an error, then a start with nothing swallowed in between. */
  lemma {:induction false} ScanMeans(open: bool, t: seq<Event>, a: int, b: int)
    requires Scan(open, t).Some? && 0 <= a < b < |t| && t[a].Ended? && t[a].err.Some? && t[b].Started?
    ensures exists m :: a < m < b && t[m].Swallowed?
  {
    ScanCat(open, t[..b], t[b..]);
    assert t == t[..b] + t[b..];
    ScanPrefix(open, t, b + 1);
    var u := t[..b + 1];
    assert u[..b] == t[..b] && u[b] == t[b];
    ScanStaysOpen(open, t[..b], a);
    var m :| a < m < b && t[..b][m].Swallowed?;
    assert t[m].Swallowed?;
  }

  lemma ScanPrefix(open: bool, t: seq<Event>, n: int)
    requires 0 <= n <= |t| && Scan(open, t).Some?
    ensures Scan(open, t[..n]).Some?
  {
    ScanCat(open, t[..n], t[n..]);
    assert t == t[..n] + t[n..];
  }

  lemma {:induction false} ScanStaysOpen(open: bool, t: seq<Event>, a: int)
    requires Scan(open, t) == Some(false) && 0 <= a < |t| && t[a].Ended? && t[a].err.Some?
    ensures exists m :: a < m < |t| && t[m].Swallowed?
    decreases |t|
  {
    var n := |t| - 1;
    if !t[n].Swallowed? {
      ScanStaysOpen(open, t[..n], a);
      var m :| a < m < n && t[..n][m].Swallowed?;
      assert t[m].Swallowed?;
    }
  }

  lemma ScanOne(open: bool, e: Event)
    ensures Scan(open, []) == Some(open)
    ensures Scan(open, [e]) ==
            match e
            case Started(_) => if open then None else Some(false)
            case Ended(_, err) => if err.Some? then Some(true) else Some(open)
            case Aborted => Some(open)
            case Swallowed(_) => Some(false)
  {
    assert [e][..0] == [];
  }

  lemma {:induction false} LoopScan(hs: seq<Body>, index: int)
    requires index >= 0
    ensures Scan(false, Loop(hs, index).trace) == Some(Loop(hs, index).err.Some?)
    decreases Rem(hs, index), if index >= |hs| then 0 else 2, ReturnLast
  {
    if index < |hs| {
      var r := Run(hs, index, hs[index], index, None);
      RunScan(hs, index, hs[index], index, None);
      hide Run, Scan;
      ScanOne(false, Started(index));
      ScanCat(false, [Started(index)], r.trace);
      ScanOne(r.err.Some?, Ended(index, r.err));
      ScanCat(false, [Started(index)] + r.trace, [Ended(index, r.err)]);
      if r.err.None? {
        LoopScan(hs, r.index + 1);
        ScanCat(false, Whole(index, r), Loop(hs, r.index + 1).trace);
      }
    }
  }

  lemma {:induction false} RunScan(hs: seq<Body>, i: int, b: Body, index: int, last: Err)
    requires index >= 0
    ensures Scan(last.Some?, Run(hs, i, b, index, last).trace).Some?
    ensures Scan(last.Some?, Run(hs, i, b, index, last).trace).value ==> Run(hs, i, b, index, last).err.Some?
    decreases Rem(hs, index), 1, b
  {
    hide Scan;
    ScanOne(last.Some?, Swallowed(i));
    match b
    case Return(_) =>
    case ReturnLast =>
    case Abort(b') =>
      RunScan(hs, i, b', |hs|, last);
      ScanOne(last.Some?, Aborted);
      ScanCat(last.Some?, [Aborted], Run(hs, i, b', |hs|, last).trace);
    case CallNext(onOk, onErr) =>
      var r := Loop(hs, index + 1);
      LoopScan(hs, index + 1);
      var b' := if r.err.None? then onOk else onErr;
      RunScan(hs, i, b', r.index, r.err);
      var s := Run(hs, i, b', r.index, r.err);
      hide Run, Loop;
      ScanCat(last.Some?, Swallow(i, last), r.trace);
      ScanCat(last.Some?, Swallow(i, last) + r.trace, s.trace);
  }

  /** After an error no handler starts unless somebody swallows the error first. */
  lemma ErrorStopsChain(hs: seq<Body>, a: int, b: int)
    requires var t := Loop(hs, 0).trace; 0 <= a < b < |t| && t[a].Ended? && t[a].err.Some? && t[b].Started?
    ensures exists m :: a < m < b && Loop(hs, 0).trace[m].Swallowed?
  {
    LoopScan(hs, 0);
    ScanMeans(false, Loop(hs, 0).trace, a, b);
  }

  /** A handler returned an error and nobody has swallowed one since. */
  ghost predicate Unswallowed(t: seq<Event>) {
    exists a :: 0 <= a < |t| && t[a].Ended? && t[a].err.Some? && forall m :: a < m < |t| ==> !t[m].Swallowed?
  }

  lemma {:induction false} ScanIsUnswallowed(t: seq<Event>)
    requires Scan(false, t).Some?
    ensures Scan(false, t).value <==> Unswallowed(t)
  {
    if t != [] {
      var n := |t| - 1;
      ScanIsUnswallowed(t[..n]);
      hide Scan;
      if t[n].Ended? && t[n].err.Some? {
        assert Unswallowed(t);
      } else if !t[n].Swallowed? {
        UnswallowedOn(t);
      }
    }
  }

  /** An event that neither ends with an error nor swallows one changes nothing. */
  lemma UnswallowedOn(t: seq<Event>)
    requires t != []
    requires var e := t[|t| - 1]; !e.Swallowed? && !(e.Ended? && e.err.Some?)
    ensures Unswallowed(t) <==> Unswallowed(t[..|t| - 1])
  {
    var u := t[..|t| - 1];
    if Unswallowed(u) {
      var a :| 0 <= a < |u| && u[a].Ended? && u[a].err.Some? && forall m :: a < m < |u| ==> !u[m].Swallowed?;
      assert t[a].Ended? && forall m :: a < m < |t| - 1 ==> t[m] == u[m];
    }
  }

  /** The dispatch returns an error exactly when some handler returned one that nobody swallowed. */
  lemma ErrorIsReported(hs: seq<Body>)
    ensures var t := Loop(hs, 0).trace;
            Loop(hs, 0).err.Some? <==>
            exists a :: 0 <= a < |t| && t[a].Ended? && t[a].err.Some? && forall m :: a < m < |t| ==> !t[m].Swallowed?
  {
    LoopScan(hs, 0);
    hide Scan, Loop;
    ScanIsUnswallowed(Loop(hs, 0).trace);
  }

  // ---------------------------------------------------------------- completeness

  ghost predicate Covers(trace: seq<Event>, lo: int, hi: int) {
    Aborted in trace || forall i :: lo <= i < hi ==> Started(i) in trace
  }

  lemma CoversCat(x: seq<Event>, y: seq<Event>, lo: int, mid: int, hi: int)
    requires Covers(x, lo, mid) && Covers(y, mid, hi)
    ensures Covers(x + y, lo, hi)
  {
    forall i | lo <= i < hi && Aborted !in x + y
      ensures Started(i) in x + y
    {
      assert if i < mid then Started(i) in x else Started(i) in y;
    }
  }

  lemma {:induction false} LoopCovers(hs: seq<Body>, index: int)
    requires index >= 0
    ensures Covers(Loop(hs, index).trace, if index < |hs| then index else |hs|, Upto(hs, Loop(hs, index).index))
    ensures Loop(hs, index).err.None? ==> Loop(hs, index).index >= |hs|
    decreases Rem(hs, index), if index >= |hs| then 0 else 2, ReturnLast
  {
    hide Loop, Run, Covers, Whole;
    if index >= |hs| {
      LoopEnd(hs, index);
      CoversNothing(|hs|, |hs|);
    } else {
      LoopStep(hs, index);
      var r := Run(hs, index, hs[index], index, None);
      RunCovers(hs, index, hs[index], index, None);
      CoversWhole(index, r, Upto(hs, r.index));
      if r.err.None? {
        LoopCovers(hs, r.index + 1);
        var rest := Loop(hs, r.index + 1);
        CoversCat(Whole(index, r), rest.trace, index, Upto(hs, r.index), Upto(hs, rest.index));
      }
    }
  }

  lemma CoversNothing(lo: int, hi: int)
    requires lo >= hi
    ensures Covers([], lo, hi)
  {
  }

  lemma CoversWhole(i: int, r: Done, hi: int)
    requires Covers(r.trace, i + 1, hi)
    ensures Covers(Whole(i, r), i, hi)
  {
    var t := Whole(i, r);
    assert t[0] == Started(i);
    assert forall e :: e in r.trace ==> e in t;
  }

  lemma {:induction false} RunCovers(hs: seq<Body>, i: int, b: Body, index: int, last: Err)
    requires index >= 0
    ensures Covers(Run(hs, i, b, index, last).trace, Upto(hs, index), Upto(hs, Run(hs, i, b, index, last).index))
    decreases Rem(hs, index), 1, b
  {
    match b
    case Return(_) =>
    case ReturnLast =>
    case Abort(b') =>
      assert ([Aborted] + Run(hs, i, b', |hs|, last).trace)[0] == Aborted;
    case CallNext(onOk, onErr) =>
      var r := Loop(hs, index + 1);
      LoopCovers(hs, index + 1);
      var b' := if r.err.None? then onOk else onErr;
      RunCovers(hs, i, b', r.index, r.err);
      var s := Run(hs, i, b', r.index, r.err);
      hide Run, Loop;
      var x := Swallow(i, last) + r.trace;
      assert Covers(x, Upto(hs, index), Upto(hs, r.index));
      CoversCat(x, s.trace, Upto(hs, index), Upto(hs, r.index), Upto(hs, s.index));
  }

  /** Without an abort and without an error in the end, every handler has started. */
  lemma AllStart(hs: seq<Body>, i: int)
    requires Loop(hs, 0).err.None? && Aborted !in Loop(hs, 0).trace && 0 <= i < |hs|
    ensures Started(i) in Loop(hs, 0).trace
  {
    LoopCovers(hs, 0);
  }

  // ---------------------------------------------------------------- the context

  lemma {:induction false} LoopStep(hs: seq<Body>, index: int)
    requires 0 <= index < |hs|
    ensures var r := Run(hs, index, hs[index], index, None);
            Loop(hs, index) ==
            if r.err.Some? then Done(Whole(index, r), r.index, r.err)
            else
              var rest := Loop(hs, r.index + 1);
              Done(Whole(index, r) + rest.trace, rest.index, rest.err)
  {
  }

  lemma {:induction false} LoopEnd(hs: seq<Body>, index: int)
    requires index >= 0 && index >= |hs|
    ensures Loop(hs, index) == Done([], index, None)
  {
  }

  lemma {:induction false} RunStep(hs: seq<Body>, i: int, b: Body, index: int, last: Err)
    requires index >= 0
    ensures Run(hs, i, b, index, last) ==
            match b
            case Return(e) => Done(if e.None? then Swallow(i, last) else [], index, e)
            case ReturnLast => Done([], index, last)
            case Abort(b') =>
              var r := Run(hs, i, b', |hs|, last);
              Done([Aborted] + r.trace, r.index, r.err)
            case CallNext(onOk, onErr) =>
              var r := Loop(hs, index + 1);
              var s := Run(hs, i, if r.err.None? then onOk else onErr, r.index, r.err);
              Done(Swallow(i, last) + r.trace + s.trace, s.index, s.err)
  {
  }

  lemma WholeAppended(before: seq<Event>, i: int, r: Done)
    ensures before + [Started(i)] + r.trace + [Ended(i, r.err)] == before + Whole(i, r)
  {
  }

  lemma Assoc(w: seq<Event>, x: seq<Event>, y: seq<Event>, z: seq<Event>)
    ensures w + x + y == w + (x + y) && w + x + y + z == w + (x + y + z)
  {
  }

  /** `Ctx`: the handlers of the route found, and the position among them. */
  class Ctx {
    const handlers: seq<Body>
    var index: int
    ghost var trace: seq<Event>

    constructor (handlers: seq<Body>)
      ensures this.handlers == handlers && index == -1 && trace == []
    {
      this.handlers := handlers;
      index := -1;
      trace := [];
    }

    /** `Next`. */
    method Next() returns (err: Err)
      requires index >= -1
      modifies this
      ensures var d := Loop(handlers, old(index) + 1);
              err == d.err && index == d.index && trace == old(trace) + d.trace
      decreases Rem(handlers, index + 1), if index + 1 >= |handlers| then 0 else 2, ReturnLast
    {
      hide Loop, Run, Whole;
      index := index + 1;
      ghost var d := Loop(handlers, index);
      ghost var from := index;
      while index < |handlers|
        invariant index >= from >= 0
        invariant trace + Loop(handlers, index).trace == old(trace) + d.trace
        invariant Loop(handlers, index).index == d.index && Loop(handlers, index).err == d.err
        decreases Rem(handlers, index)
      {
        ghost var i, before := index, trace;
        LoopStep(handlers, i);
        ghost var r := Run(handlers, i, handlers[i], i, None);
        trace := trace + [Started(i)];
        err := Call(index, handlers[index], None);
        trace := trace + [Ended(i, err)];
        WholeAppended(before, i, r);
        assert trace == before + Whole(i, r);
        if err.Some? {
          return;
        }
        ghost var rest := Loop(handlers, index + 1);
        assert before + (Whole(i, r) + rest.trace) == trace + rest.trace;
        index := index + 1;
      }
      LoopEnd(handlers, index);
      assert trace + [] == trace;
      err := None;
    }

    /** `Abort`. */
    method AbortChain()
      modifies this
      ensures index == |handlers| && trace == old(trace) + [Aborted]
    {
      index := |handlers|;
      trace := trace + [Aborted];
    }

    /** A handler at work on the context. */
    method Call(i: int, b: Body, last: Err) returns (err: Err)
      requires index >= 0
      modifies this
      ensures var d := Run(handlers, i, b, old(index), last);
              err == d.err && index == d.index && trace == old(trace) + d.trace
      decreases Rem(handlers, index), 1, b, 1
    {
      hide Run, Loop, Swallow;
      RunStep(handlers, i, b, index, last);
      match b
      case Return(e) =>
        assert trace + [] == trace;
        if e.None? {
          trace := trace + Swallow(i, last);
        }
        err := e;
      case ReturnLast =>
        assert trace + [] == trace;
        err := last;
      case Abort(b') =>
        Assoc(old(trace), [Aborted], Run(handlers, i, b', |handlers|, last).trace, []);
        AbortChain();
        err := Call(i, b', last);
      case CallNext(_, _) =>
        err := CallOn(i, b, last);
    }

    /** A handler that calls `Next` and goes on with what it gave. */
    method CallOn(i: int, b: Body, last: Err) returns (err: Err)
      requires index >= 0 && b.CallNext?
      modifies this
      ensures var d := Run(handlers, i, b, old(index), last);
              err == d.err && index == d.index && trace == old(trace) + d.trace
      decreases Rem(handlers, index), 1, b, 0
    {
      hide Run, Loop, Swallow;
      RunStep(handlers, i, b, index, last);
      ghost var r := Loop(handlers, index + 1);
      ghost var s := Run(handlers, i, if r.err.None? then b.onOk else b.onErr, r.index, r.err);
      Assoc(trace, Swallow(i, last), r.trace, s.trace);
      trace := trace + Swallow(i, last);
      err := Next();
      err := Call(i, if err.None? then b.onOk else b.onErr, err);
    }
  }
}
