/** What handler chains (fasthttp-routing/context.go, `Next`) do for those who write them: plain
    handlers run one after the other until one fails, a handler that only calls `Next` is not
    noticed, one that reacts to the outcome decides it, and the error that is reported is the last one. */
module HandlerChains {
  import opened Basics
  import opened Handlers

  // ---------------------------------------------------------------- plain handlers

  /** Handlers that return at once, the `i`-th with the `i`-th result. */
  function Plain(results: seq<Err>): seq<Body> {
    seq(|results|, i requires 0 <= i < |results| => Return(results[i]))
  }

  /** Starts and ends of the handlers from `from` up to `to`. */
  function Calls(results: seq<Err>, from: nat, to: nat): seq<Event>
    requires from <= to <= |results|
    decreases |results| - from
  {
    if from == to then [] else [Started(from), Ended(from, results[from])] + Calls(results, from + 1, to)
  }

  /** They run in order up to and including the first that fails, whose error is the result. */
  lemma {:induction false} PlainChain(results: seq<Err>, from: nat, fails: nat)
    requires from <= fails <= |results|
    requires forall i :: from <= i < fails ==> results[i].None?
    requires fails < |results| ==> results[fails].Some?
    ensures var d := Loop(Plain(results), from);
            && d.err == (if fails < |results| then results[fails] else None)
            && d.trace == Calls(results, from, if fails < |results| then fails + 1 else fails)
    decreases |results| - from
  {
    var hs := Plain(results);
    hide Loop, Run;
    if from == |results| {
      LoopEnd(hs, from);
    } else {
      LoopStep(hs, from);
      RunStep(hs, from, hs[from], from, None);
      if from < fails {
        PlainChain(results, from + 1, fails);
      } else {
        assert Calls(results, from + 1, from + 1) == [];
      }
    }
  }

  // ---------------------------------------------------------------- a handler in front

  /** The same event one place further. */
  function Later(e: Event): Event {
    match e
    case Started(i) => Started(i + 1)
    case Ended(i, err) => Ended(i + 1, err)
    case Aborted => Aborted
    case Swallowed(i) => Swallowed(i + 1)
  }

  function AllLater(t: seq<Event>): seq<Event> {
    seq(|t|, k requires 0 <= k < |t| => Later(t[k]))
  }

  function Shifted(d: Done): Done {
    Done(AllLater(d.trace), d.index + 1, d.err)
  }

  lemma LaterCat(x: seq<Event>, y: seq<Event>)
    ensures AllLater(x + y) == AllLater(x) + AllLater(y)
  {
  }

  lemma LaterWhole(i: int, r: Done)
    ensures AllLater(Whole(i, r)) == Whole(i + 1, Shifted(r))
  {
  }

  lemma LaterSwallow(i: int, last: Err)
    ensures AllLater(Swallow(i, last)) == Swallow(i + 1, last)
  {
  }

  /** A handler in front moves what the others do one place on. */
  lemma {:induction false} LoopBehind(x: Body, hs: seq<Body>, index: int)
    requires index >= 0
    ensures Loop([x] + hs, index + 1) == Shifted(Loop(hs, index))
    decreases Rem(hs, index), if index >= |hs| then 0 else 2, ReturnLast
  {
    hide Loop, Run, Whole;
    var all := [x] + hs;
    if index >= |hs| {
      LoopEnd(hs, index);
      LoopEnd(all, index + 1);
    } else {
      LoopStep(hs, index);
      LoopStep(all, index + 1);
      var r := Run(hs, index, hs[index], index, None);
      RunBehind(x, hs, index, hs[index], index, None);
      LaterWhole(index, r);
      if r.err.None? {
        LoopBehind(x, hs, r.index + 1);
        LaterCat(Whole(index, r), Loop(hs, r.index + 1).trace);
      }
    }
  }

  lemma {:induction false} RunBehind(x: Body, hs: seq<Body>, i: int, b: Body, index: int, last: Err)
    requires index >= 0
    ensures Run([x] + hs, i + 1, b, index + 1, last) == Shifted(Run(hs, i, b, index, last))
    decreases Rem(hs, index), 1, b
  {
    hide Loop, Run;
    var all := [x] + hs;
    RunStep(hs, i, b, index, last);
    RunStep(all, i + 1, b, index + 1, last);
    match b {
      case Return(e) =>
        LaterSwallow(i, last);
      case ReturnLast =>
      case Abort(b') =>
        RunBehind(x, hs, i, b', |hs|, last);
        LaterCat([Aborted], Run(hs, i, b', |hs|, last).trace);
      case CallNext(onOk, onErr) =>
        var r := Loop(hs, index + 1);
        LoopBehind(x, hs, index + 1);
        var b' := if r.err.None? then onOk else onErr;
        RunBehind(x, hs, i, b', r.index, r.err);
        LaterSwallow(i, last);
        LaterCat(Swallow(i, last), r.trace);
        LaterCat(Swallow(i, last) + r.trace, Run(hs, i, b', r.index, r.err).trace);
    }
  }

  /** A handler that calls `Next` and passes its result on is not noticed: the others do the same
      with the same outcome. */
  lemma Transparent(hs: seq<Body>)
    ensures var d := Loop([CallNext(ReturnLast, ReturnLast)] + hs, 0);
            && d.err == Loop(hs, 0).err
            && d.trace == [Started(0)] + AllLater(Loop(hs, 0).trace) + [Ended(0, d.err)]
  {
    hide Loop, Run, Covers;
    Wrapped(ReturnLast, ReturnLast, hs);
    var r := Shifted(Loop(hs, 0));
    LoopCovers(hs, 0);
    RunStep([CallNext(ReturnLast, ReturnLast)] + hs, 0, ReturnLast, r.index, r.err);
    assert r.trace + [] == r.trace;
  }

  /** The outcome of a handler that calls `Next` and goes on by its result, in front of the others. */
  lemma Wrapped(onOk: Body, onErr: Body, hs: seq<Body>)
    ensures var all, r := [CallNext(onOk, onErr)] + hs, Shifted(Loop(hs, 0));
            var s := Run(all, 0, if r.err.None? then onOk else onErr, r.index, r.err);
            && (s.err.Some? ==> Loop(all, 0).err == s.err)
            && (s.err.None? ==> Loop(all, 0).err == Loop(all, s.index + 1).err)
            && (s.err.Some? || s.index >= |hs| ==>
                  Loop(all, 0).err == s.err && Loop(all, 0).trace == Whole(0, Done(r.trace + s.trace, s.index, s.err)))
  {
    hide Loop, Run, Whole, Shifted, Swallow;
    var all, b := [CallNext(onOk, onErr)] + hs, CallNext(onOk, onErr);
    LoopStep(all, 0);
    RunStep(all, 0, b, 0, None);
    LoopBehind(b, hs, 0);
    var r := Loop(all, 1);
    var s := Run(all, 0, if r.err.None? then onOk else onErr, r.index, r.err);
    SwallowsNothing(r.trace);
    if s.err.None? && s.index >= |hs| {
      LoopEnd(all, s.index + 1);
      var w := Whole(0, Done(r.trace + s.trace, s.index, s.err));
      assert w + [] == w;
    }
  }

  lemma SwallowsNothing(t: seq<Event>)
    ensures Swallow(0, None) == [] && Swallow(0, None) + t == t
  {
  }

  /** With results of its own it decides: its first result if all went well, its second one in the
      place of their error; and if that is none, the chain goes on behind the handler that failed. */
  lemma Deciding(ok: Err, failed: Err, hs: seq<Body>)
    ensures var d, r := Loop([CallNext(Return(ok), Return(failed))] + hs, 0), Loop(hs, 0);
            && (r.err.None? ==> d.err == ok)
            && (r.err.Some? && failed.Some? ==> d.err == failed)
            && (r.err.Some? && failed.None? ==> d.err == Loop(hs, r.index + 1).err)
  {
    hide Loop, Run, Covers, Whole, AllLater, Swallow;
    var b := CallNext(Return(ok), Return(failed));
    var all, r := [b] + hs, Shifted(Loop(hs, 0));
    Wrapped(Return(ok), Return(failed), hs);
    LoopCovers(hs, 0);
    RunStep(all, 0, if r.err.None? then Return(ok) else Return(failed), r.index, r.err);
    LoopBehind(b, hs, Loop(hs, 0).index + 1);
  }

  /** Calling `Next` once more, after all went well, runs nothing. */
  lemma NextAgain(hs: seq<Body>)
    requires Loop(hs, 0).err.None?
    ensures var d := Loop([CallNext(CallNext(ReturnLast, ReturnLast), ReturnLast)] + hs, 0);
            && d.err == None
            && d.trace == [Started(0)] + AllLater(Loop(hs, 0).trace) + [Ended(0, None)]
  {
    hide Loop, Run, Covers;
    var again := CallNext(ReturnLast, ReturnLast);
    var all, r := [CallNext(again, ReturnLast)] + hs, Shifted(Loop(hs, 0));
    Wrapped(again, ReturnLast, hs);
    LoopCovers(hs, 0);
    RunStep(all, 0, again, r.index, r.err);
    LoopEnd(all, r.index + 1);
    RunStep(all, 0, ReturnLast, r.index + 1, None);
    assert Swallow(0, None) + [] + [] == [];
    assert r.trace + [] == r.trace;
  }

  // ---------------------------------------------------------------- the error

  /** The error of a dispatch is the one its last event ended with. */
  lemma {:induction false} ReportedIsLast(hs: seq<Body>, index: int)
    requires index >= 0 && Loop(hs, index).err.Some?
    ensures var d := Loop(hs, index);
            d.trace != [] && d.trace[|d.trace| - 1].Ended? && d.trace[|d.trace| - 1].err == d.err
    decreases Rem(hs, index)
  {
    hide Run;
    if index < |hs| {
      LoopStep(hs, index);
      var r := Run(hs, index, hs[index], index, None);
      if r.err.None? {
        ReportedIsLast(hs, r.index + 1);
      }
    }
  }
}
