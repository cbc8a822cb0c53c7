/** What the pipelining client (fasthttp/client.go, `pipelineConnClient`) does for its callers: requests
    are written in the order in which they were queued, who is turned away, and nobody is forgotten
    when a worker ends. */
module PipelineOrder {
  import opened Basics
  import opened Pipeline

  // ---------------------------------------------------------------- the order on the wire

  /** The items of a run in the order in which they entered the queue of requests. */
  ghost function Queued(maxPending: int, run: seq<Action>): seq<Work>
    requires Exec(maxPending, run).Some?
    decreases |run|
  {
    if run == [] then []
    else
      var prefix, a := run[..|run| - 1], run[|run| - 1];
      Queued(maxPending, prefix) + Entering(Exec(maxPending, prefix).value, a)
  }

  /** The item that an action puts into the queue. */
  ghost function Entering(s: State, a: Action): seq<Work> {
    if a.Enqueue? || (a.Retry? && |s.chW| < s.maxPending) then [a.w] else []
  }

  /** Requests on the wire, the one in hand, and those in the queue. */
  ghost function Requests(s: State): seq<Work> {
    s.written + (if s.writer.WHolds? then [s.writer.w] else []) + s.chW
  }

  /** `a` is `b` with some places left out; `at` says where each element of `a` is in `b`. */
  ghost predicate Embeds(at: seq<nat>, a: seq<Work>, b: seq<Work>) {
    && |at| == |a|
    && (forall i :: 0 <= i < |a| ==> at[i] < |b| && a[i] == b[at[i]])
    && (forall i, j :: 0 <= i < j < |a| ==> at[i] < at[j])
  }

  lemma EmbedsMore(at: seq<nat>, a: seq<Work>, b: seq<Work>, w: Work)
    requires Embeds(at, a, b)
    ensures Embeds(at + [|b|], a + [w], b + [w])
  {
  }

  lemma EmbedsLess(at: seq<nat>, a: seq<Work>, b: seq<Work>, k: nat)
    requires Embeds(at, a, b) && k < |a|
    ensures Embeds(at[..k] + at[k + 1..], a[..k] + a[k + 1..], b)
  {
  }

  /** What an action does to the requests: one enters at the end, one is dropped, or none. */
  ghost predicate Moves(s: State, a: Action, k: nat)
    requires Enabled(s, a)
  {
    var r, r' := Requests(s), Requests(Next(s, a));
    && k <= |r|
    && (if k < |r| then Entering(s, a) == [] && r' == r[..k] + r[k + 1..] else r' == r + Entering(s, a))
  }

  lemma RequestsStep(s: State, a: Action) returns (k: nat)
    requires Enabled(s, a)
    ensures Moves(s, a, k)
  {
    hide Moves, Next, Enabled;
    if ByCaller(a) {
      k := CallerMoves(s, a);
    } else {
      k := WorkerMoves(s, a);
    }
  }

  lemma CallerMoves(s: State, a: Action) returns (k: nat)
    requires Enabled(s, a) && ByCaller(a)
    ensures Moves(s, a, k)
  {
    var r, r' := Requests(s), Requests(Next(s, a));
    k := |r|;
    if a.Evict? && s.chW != [] {
      k := |r| - |s.chW|;
      assert r[..k] + r[k + 1..] == r';
    } else {
      assert r' == r + Entering(s, a);
    }
  }

  lemma WorkerMoves(s: State, a: Action) returns (k: nat)
    requires Enabled(s, a) && !ByCaller(a)
    ensures Moves(s, a, k)
  {
    if a.WriterDrops? || a.WriteFails? {
      k := DropMoves(s, a);
    } else {
      hide Signal;
      k := |Requests(s)|;
      assert Requests(s) + [] == Requests(s);
      if a.WriterTakes? {
        assert s.written + [] + s.chW == s.written + [s.chW[0]] + s.chW[1..];
      } else if a.WriteOk? {
        assert s.written + [s.writer.w] + s.chW == s.written + [s.writer.w] + [] + s.chW;
      }
      assert Requests(Next(s, a)) == Requests(s) by {
        SignalKeeps(s);
      }
    }
  }

  lemma SignalKeeps(s: State)
    ensures forall w :: Signal(s, w).(signals := s.signals) == s
  {
  }

  lemma DropMoves(s: State, a: Action) returns (k: nat)
    requires Enabled(s, a) && (a.WriterDrops? || a.WriteFails?)
    ensures Moves(s, a, k)
  {
    k := |s.written|;
    CutOne(s.written, s.writer.w, s.chW);
  }

  lemma CutOne(x: seq<Work>, w: Work, y: seq<Work>)
    ensures var r := x + [w] + y; r[..|x|] + r[|x| + 1..] == x + [] + y
  {
  }

  /** Over every run of one worker: requests are on the wire in the order in which they were queued,
      ahead of the one in hand and of those still in the queue. */
  lemma {:induction false} SentInOrder(maxPending: int, run: seq<Action>) returns (at: seq<nat>)
    requires Exec(maxPending, run).Some?
    ensures Embeds(at, Requests(Exec(maxPending, run).value), Queued(maxPending, run))
    decreases |run|
  {
    if run == [] {
      at := [];
    } else {
      var prefix, a := run[..|run| - 1], run[|run| - 1];
      at := SentInOrder(maxPending, prefix);
      var s, b := Exec(maxPending, prefix).value, Queued(maxPending, prefix);
      var s' := Exec(maxPending, run).value;
      assert s' == Next(s, a) && Queued(maxPending, run) == b + Entering(s, a);
      var k := RequestsStep(s, a);
      assert Moves(s, a, k);
      hide Requests, Next, Enabled, Exec, Queued, Embeds;
      if k < |Requests(s)| {
        EmbedsLess(at, Requests(s), b, k);
        at := at[..k] + at[k + 1..];
        assert b + [] == b;
      } else if Entering(s, a) != [] {
        EmbedsMore(at, Requests(s), b, a.w);
        at := at + [|b|];
      } else {
        assert b + [] == b && Requests(s) + [] == Requests(s);
      }
    }
  }

  // ---------------------------------------------------------------- who is turned away

  lemma InitialCapacity(maxPending: int)
    ensures Exec(maxPending, []).Some?
    ensures Exec(maxPending, []).value.maxPending == if maxPending > 0 then maxPending else 1024
  {
  }

  /** Making room in a full queue: the oldest request leaves it and its caller is told; the others
      move up and nobody else is told. */
  lemma EvictsOldest(s: State, w: Work)
    requires Inv(s) && Enabled(s, Evict(w)) && s.chW != []
    ensures var s' := Next(s, Evict(w));
            && s.chW == [s.chW[0]] + s'.chW && s'.callers == s.callers[w := Retrying]
            && |s'.signals| == |s.signals|
            && forall v :: 0 <= v < |s.signals| ==> s'.signals[v] == s.signals[v] + if v == s.chW[0] then 1 else 0
  {
    ItemExists(s, s.chW[0]);
  }

  /** After that a request is refused if and only if the queue is full again; otherwise it is the
      last one in it and its caller waits. */
  lemma RetryOutcome(s: State, w: Work)
    requires Enabled(s, Retry(w))
    ensures var s' := Next(s, Retry(w));
            && (s'.callers == s.callers[w := Refused] <==> |s.chW| >= s.maxPending)
            && (|s.chW| < s.maxPending ==> s'.callers == s.callers[w := Waiting(false)])
            && s'.chW == s.chW + (if |s.chW| < s.maxPending then [w] else [])
            && s'.signals == s.signals
  {
    assert s.chW + [] == s.chW;
    assert s.callers[w := Refused][w] == Refused && s.callers[w := Waiting(false)][w] == Waiting(false);
  }

  /** Nobody is turned away as long as there is room. */
  lemma RoomForAll(s: State, w: Work)
    requires CallerIn(s, w) && s.callers[w].Submitting? && |s.chW| < s.maxPending
    ensures Enabled(s, Enqueue(w))
    ensures var s' := Next(s, Enqueue(w));
            s'.chW == s.chW + [w] && s'.callers == s.callers[w := Waiting(s.callers[w].timed)]
  {
  }

  // ---------------------------------------------------------------- deadlines

  /** Which items of a run have a deadline. */
  function Timed(run: seq<Action>): seq<bool> {
    if run == [] then []
    else
      var a := run[|run| - 1];
      Timed(run[..|run| - 1]) + if a.Submit? then [a.timed] else []
  }

  ghost predicate TimedOk(s: State, timed: seq<bool>) {
    && |timed| == |s.callers|
    && forall w :: 0 <= w < |timed| ==> CallerTimed(s.callers[w], timed[w])
  }

  predicate CallerTimed(c: Caller, timed: bool) {
    match c
    case Submitting(b) => b == timed
    case Waiting(b) => b == timed
    case Retrying => !timed
    case Abandoned => timed
    case _ => true
  }

  lemma TimedStep(s: State, a: Action, timed: seq<bool>)
    requires TimedOk(s, timed) && Enabled(s, a)
    ensures TimedOk(Next(s, a), timed + if a.Submit? then [a.timed] else [])
  {
    assert timed + [] == timed;
  }

  /** Over every run: only the caller of an item with a deadline leaves it behind, and only such an
      item is dropped by the writer; without one the caller waits for its signal. */
  lemma {:induction false} OnlyDeadlinesExpire(maxPending: int, run: seq<Action>, w: Work)
    requires Exec(maxPending, run).Some?
    ensures var s := Exec(maxPending, run).value;
            && |Timed(run)| == |s.callers|
            && (0 <= w < |s.callers| && !Timed(run)[w] ==>
                  && !s.callers[w].Abandoned? && !Enabled(s, Expire(w))
                  && (Enabled(s, WriterDrops) ==> s.writer.w != w))
  {
    RunTimed(maxPending, run);
    var s := Exec(maxPending, run).value;
    hide Exec, Timed;
    assert 0 <= w < |s.callers| ==> CallerTimed(s.callers[w], Timed(run)[w]);
  }

  lemma {:induction false} RunTimed(maxPending: int, run: seq<Action>)
    requires Exec(maxPending, run).Some?
    ensures TimedOk(Exec(maxPending, run).value, Timed(run))
    decreases |run|
  {
    if run != [] {
      var prefix, a := run[..|run| - 1], run[|run| - 1];
      RunTimed(maxPending, prefix);
      hide TimedOk, Next, Enabled;
      TimedStep(Exec(maxPending, prefix).value, a, Timed(prefix));
    }
  }

  // ---------------------------------------------------------------- the end of a worker

  /** The writer and the reader have stopped and the queue of responses is empty. */
  ghost predicate Ended(s: State) {
    s.writer.WStopped? && s.reader.RStopped? && s.chR == []
  }

  /** Until then the worker can go on. */
  lemma WorkerGoesOn(s: State)
    requires Inv(s) && !Ended(s)
    ensures exists a :: !ByCaller(a) && Enabled(s, a)
  {
    hide Inv;
    var a :=
      if s.writer.WIdle? then WriterStops
      else if s.writer.WHolds? then WriteOk
      else if s.writer.WWrote? then ForwardStops
      else if s.reader.RIdle? then ReaderStops
      else if s.reader.RHolds? then ReadOk
      else Drain;
    assert !ByCaller(a) && Enabled(s, a);
  }

  /** When a worker has ended nobody is forgotten: whoever still waits without a signal is in the
      queue for the next worker. */
  lemma NobodyForgotten(s: State, w: Work)
    requires Inv(s) && Ended(s) && CallerIn(s, w) && s.callers[w].Waiting? && s.signals[w] == 0
    ensures w in s.chW
  {
    assert Places(s, w) == 1;
    TimesNone(w);
    TimesMember(s.chW, w);
  }
}
