/** What the sections of the connection pool (fasthttp/client.go, `acquireConn` to `releaseConn`) do
    for their callers: which way each of them goes, whom a free connection or slot serves, who
    decides a waiter, and that every goroutine comes to its end. */
module ConnOutcomes {
  import opened Basics
  import opened WantQueue
  import opened ConnPool

  // ---------------------------------------------------------------- acquiring

  /** Nothing but the list of goroutines changed, which is one longer. */
  ghost predicate Started(s: State, s': State, p: Pc) {
    s'.threads == s.threads + [p]
  }

  /** For every state of the pool: a caller is turned away exactly when there is no idle connection,
      no room and no waiting; it dials exactly when nothing is idle and there is room; it waits
      exactly when nothing is idle, there is no room and waiting is on. */
  lemma AcquireOutcome(s: State, lifo: bool)
    requires Enabled(s, Acquire(lifo))
    ensures var s' := Next(s, Acquire(lifo));
            && (Started(s, s', Finished) <==> s.conns == [] && s.connsCount >= s.maxConns && !s.waits)
            && (Started(s, s', Dialing) <==> s.conns == [] && s.connsCount < s.maxConns)
            && (Started(s, s', Queueing(|s.wants|)) <==> s.conns == [] && s.connsCount >= s.maxConns && s.waits)
            && ((exists c :: Started(s, s', Holding(c))) <==> s.conns != [])
  {
    var s' := Next(s, Acquire(lifo));
    var n := |s.threads|;
    assert |s'.threads| == n + 1;
    assert forall p :: Started(s, s', p) <==> s'.threads[n] == p && s'.threads[..n] == s.threads;
    if s.conns != [] {
      assert Started(s, s', Holding(s'.threads[n].c));
    }
  }

  ghost predicate Takes(s: State, lifo: bool, c: Conn, rest: seq<Conn>, s': State) {
    && s.conns == (if lifo then rest + [c] else [c] + rest)
    && s' == s.(threads := s.threads + [Holding(c)], conns := rest)
  }

  /** An idle connection that is taken is the last one, or the first one, and the others stay in
      their order. */
  lemma AcquireTakes(s: State, lifo: bool)
    requires s.locked.None? && s.conns != []
    ensures exists c, rest :: Takes(s, lifo, c, rest, Next(s, Acquire(lifo)))
  {
    var n := |s.conns| - 1;
    if lifo {
      var c, rest := s.conns[n], s.conns[..n];
      assert s.conns[..n] + s.conns[n + 1..] == rest;
      assert Takes(s, lifo, c, rest, Next(s, Acquire(lifo)));
    } else {
      var c, rest := s.conns[0], s.conns[1..];
      assert s.conns[..0] + s.conns[1..] == rest;
      assert Takes(s, lifo, c, rest, Next(s, Acquire(lifo)));
    }
  }

  /** Without one, dialing takes a slot, waiting makes a new undecided waiter that belongs to the
      caller, and being turned away changes nothing. */
  lemma AcquireElse(s: State, lifo: bool)
    requires s.locked.None? && s.conns == []
    ensures var s' := Next(s, Acquire(lifo));
            if s.connsCount < s.maxConns then
              s' == s.(threads := s.threads + [Dialing], connsCount := s.connsCount + 1)
            else if s.waits then
              && s' == s.(threads := s.threads + [Queueing(|s.wants|)], wants := s'.wants)
              && |s'.wants| == |s.wants| + 1 && s'.wants[..|s.wants|] == s.wants
              && s'.wants[|s.wants|].owner == |s.threads| && s'.wants[|s.wants|].closes == 0
              && s'.wants[|s.wants|].outcome == None
            else s' == s.(threads := s.threads + [Finished])
  {
  }

  /** `MaxConns`, or 512 connections when it is not set. */
  lemma InitialLimit(maxConns: int, waits: bool)
    ensures Exec(maxConns, waits, []).Some?
    ensures var s := Exec(maxConns, waits, []).value;
            s.maxConns == (if maxConns > 0 then maxConns else 512) && s.waits == waits && s.connsCount == 0 && s.conns == []
  {
  }

  // ---------------------------------------------------------------- whom a connection or slot serves

  /** The waiter at place `i` of the queue is the first one nobody has decided. */
  ghost predicate FirstOpen(s: State, i: int) {
    && 0 <= i < |s.queue| && Open(s, s.queue[i])
    && forall j :: 0 <= j < i ==> !Open(s, s.queue[j])
  }

  ghost predicate Open(s: State, w: Wid) {
    0 <= w < |s.wants| && s.wants[w].closes == 0
  }

  ghost predicate AnyOpen(s: State) {
    s.waits && exists i :: 0 <= i < |s.queue| && Open(s, s.queue[i])
  }

  /** What is left of the queue starts with the first open waiter. */
  lemma LeftOver(s: State) returns (i: nat)
    requires Inv(s)
    ensures i <= |s.queue| && DropDone(s.queue, Done(s)) == s.queue[i..]
    ensures i < |s.queue| ==> FirstOpen(s, i)
    ensures i == |s.queue| ==> forall j :: 0 <= j < |s.queue| ==> !Open(s, s.queue[j])
  {
    hide DropDone, Books, Structure;
    var q := DropDone(s.queue, Done(s));
    DropDoneFacts(s.queue, Done(s));
    i := |s.queue| - |q|;
    assert forall j :: 0 <= j < i ==> s.queue[j] in Done(s);
    if i < |s.queue| {
      assert q[0] == s.queue[i];
      QueuedExist(s, s.queue[i]);
    }
  }

  lemma OnlyOneFirst(s: State, i: int, j: int)
    requires FirstOpen(s, i) && FirstOpen(s, j)
    ensures i == j
  {
  }

  /** A released connection is for the first waiter in the queue that is undecided, who leaves the
      queue with all in front of it; it becomes idle exactly when there is no such waiter. */
  lemma ReleaseOutcome(s: State, t: Tid)
    requires Inv(s) && Enabled(s, Release(t))
    ensures var s', c := Next(s, Release(t)), s.threads[t].c;
            && (forall i :: s.waits && FirstOpen(s, i) ==>
                  s' == s.(queue := s.queue[i + 1..], locked := Some(t), threads := s.threads[t := Delivering(c, s.queue[i])]))
            && (!AnyOpen(s) ==>
                  && s' == s.(conns := s'.conns, queue := s'.queue, threads := s.threads[t := Finished])
                  && s'.conns == s.conns + [c])
            && (AnyOpen(s) <==> s.waits && exists i :: FirstOpen(s, i))
  {
    hide Inv, DropDone, Done;
    var i := LeftOver(s);
    if s.waits && i < |s.queue| {
      assert s.queue[i..][0] == s.queue[i] && s.queue[i..][1..] == s.queue[i + 1..];
      forall j | FirstOpen(s, j)
        ensures j == i
      {
        OnlyOneFirst(s, i, j);
      }
    }
  }

  /** A slot that becomes free (after a failed dial, or for a connection about to be closed) is for
      the first undecided waiter, for whom a goroutine starts to dial; the count goes down exactly
      when there is no such waiter. */
  lemma DecOutcome(s: State, t: Tid, p: Pc)
    requires Inv(s) && Enabled(s, Dec(t)) && s.threads[t] == p
    ensures var s' := Next(s, Dec(t));
            var after := s.threads[t := if p.GivingUp? then Finished else Shutting(p.cs[0], p.cs[1..])];
            && (forall i :: s.waits && FirstOpen(s, i) ==>
                  s' == s.(queue := s.queue[i + 1..], threads := after + [DialFor(s.queue[i])]))
            && (!AnyOpen(s) ==>
                  s' == s.(queue := s'.queue, connsCount := s.connsCount - 1, threads := after))
  {
    hide Inv, DropDone, Done;
    var i := LeftOver(s);
    if s.waits && i < |s.queue| {
      assert s.queue[i..][0] == s.queue[i] && s.queue[i..][1..] == s.queue[i + 1..];
      var q := if p.GivingUp? then Finished else Shutting(p.cs[0], p.cs[1..]);
      assert (s.threads + [DialFor(s.queue[i])])[t := q] == s.threads[t := q] + [DialFor(s.queue[i])];
      forall j | FirstOpen(s, j)
        ensures j == i
      {
        OnlyOneFirst(s, i, j);
      }
    }
  }

  /** The first `k` leave the queue and `last` is new at its end; of those that leave only the last
      may be undecided, and it is being served. */
  ghost predicate Advances(s: State, s': State, k: int, last: seq<Wid>) {
    && 0 <= k <= |s.queue| && s'.queue == s.queue[k..] + last
    && forall j :: 0 <= j < k && Open(s, s.queue[j]) ==> j == k - 1 && Served(s', s.queue[j])
  }

  ghost predicate Served(s: State, w: Wid) {
    exists t :: 0 <= t < |s.threads| && Serves(s.threads[t], w)
  }

  predicate Serves(p: Pc, w: Wid) {
    p == DialFor(w) || (p.Delivering? && p.to == w)
  }

  /** Nobody overtakes in the queue: whatever happens, those that leave it are decided waiters in
      front and at most one that is served, the first that was undecided; a newcomer goes to the end. */
  lemma NobodyOvertakes(s: State, a: Action)
    requires Inv(s) && Enabled(s, a)
    ensures exists k, last :: Advances(s, Next(s, a), k, last) && (last != [] ==> Joins(s, a, last))
  {
    hide Inv, Next, NextIn, EnabledIn, Open, Advances, FirstOpen;
    match a
    case Enqueue(t) => EnqueueAdvances(s, t);
    case Release(t) => ReleaseAdvances(s, t);
    case Dec(t) => DecAdvances(s, t, s.threads[t]);
    case _ => OthersLeaveQueue(s, a);
  }

  /** The waiter that its caller queues. */
  ghost predicate Joins(s: State, a: Action, last: seq<Wid>) {
    a.Enqueue? && 0 <= a.t < |s.threads| && s.threads[a.t].Queueing? && last == [s.threads[a.t].w]
  }

  lemma OthersLeaveQueue(s: State, a: Action)
    requires Enabled(s, a) && !a.Enqueue? && !a.Release? && !a.Dec?
    ensures Advances(s, Next(s, a), 0, [])
  {
    hide Open, Served;
    assert s.queue[0..] + [] == s.queue;
  }

  lemma EnqueueAdvances(s: State, t: Tid)
    requires Inv(s) && Enabled(s, Enqueue(t))
    ensures exists k, last :: Advances(s, Next(s, Enqueue(t)), k, last) && Joins(s, Enqueue(t), last)
  {
    hide Inv, DropDone, Done;
    var i := LeftOver(s);
    hide Open;
    assert Advances(s, Next(s, Enqueue(t)), i, [s.threads[t].w]);
  }

  lemma ReleaseAdvances(s: State, t: Tid)
    requires Inv(s) && Enabled(s, Release(t))
    ensures exists k :: Advances(s, Next(s, Release(t)), k, [])
  {
    hide Inv, DropDone, Done;
    var s' := Next(s, Release(t));
    var i := LeftOver(s);
    hide Open;
    if s.waits && i < |s.queue| {
      assert s.queue[i..][0] == s.queue[i] && s.queue[i..][1..] == s.queue[i + 1..];
      assert Serves(s'.threads[t], s.queue[i]);
    }
    ServedAdvances(s, s', i);
  }

  lemma DecAdvances(s: State, t: Tid, p: Pc)
    requires Inv(s) && Enabled(s, Dec(t)) && s.threads[t] == p
    ensures exists k :: Advances(s, Next(s, Dec(t)), k, [])
  {
    hide Inv, DropDone, Done;
    var s' := Next(s, Dec(t));
    var i := LeftOver(s);
    hide Open;
    if s.waits && i < |s.queue| {
      assert s.queue[i..][0] == s.queue[i] && s.queue[i..][1..] == s.queue[i + 1..];
      assert Serves(s'.threads[|s.threads|], s.queue[i]);
    }
    ServedAdvances(s, s', i);
  }

  lemma ServedAdvances(s: State, s': State, i: nat)
    requires i <= |s.queue| && (i < |s.queue| ==> FirstOpen(s, i))
    requires i == |s.queue| ==> forall j :: 0 <= j < |s.queue| ==> !Open(s, s.queue[j])
    requires s.waits && i < |s.queue| ==> s'.queue == s.queue[i + 1..] && Served(s', s.queue[i])
    requires s.waits && i == |s.queue| ==> s'.queue == []
    requires !s.waits ==> s'.queue == s.queue
    ensures exists k :: Advances(s, s', k, [])
  {
    hide Served, Open;
    var k := if !s.waits then 0 else if i < |s.queue| then i + 1 else i;
    assert s.queue[k..] + [] == s.queue[k..];
    assert Advances(s, s', k, []);
  }

  // ---------------------------------------------------------------- who decides a waiter

  /** What an action tells a waiter, if the waiter is still undecided. */
  ghost function Message(s: State, a: Action, w: Wid): Option<Outcome>
    requires Enabled(s, a)
  {
    if a.Acquire? || a.TakeIdle? then None
    else
      match s.threads[a.t]
      case Delivering(c, to) => if a.Deliver? && to == w then Some(GotConn(c)) else None
      case HandOver(to, c) => if a.HandOverTo? && to == w then Some(GotConn(c)) else None
      case Report(to) => if a.ReportTo? && to == w then Some(GotError) else None
      case Cancelling(v) => if a.Cancel? && v == w then Some(Cancelled) else None
      case _ => None
  }

  /** The first message decides a waiter and later ones change nothing. */
  lemma FirstMessageDecides(s: State, a: Action, w: Wid)
    requires Inv(s) && Enabled(s, a) && 0 <= w < |s.wants|
    ensures |Next(s, a).wants| >= |s.wants|
    ensures Next(s, a).wants[w].outcome ==
            if s.wants[w].outcome.Some? then s.wants[w].outcome else Message(s, a, w)
  {
    hide Inv, Next, NextIn, Message, Enabled, EnabledIn;
    WantIsOk(s, w);
    if IsMessage(a) {
      MessageDecides(s, a, w);
    } else {
      QuietForWants(s, a, w);
    }
  }

  predicate IsMessage(a: Action) {
    a.Deliver? || a.HandOverTo? || a.ReportTo? || a.Cancel?
  }

  lemma QuietForWants(s: State, a: Action, w: Wid)
    requires Enabled(s, a) && 0 <= w < |s.wants| && !IsMessage(a)
    ensures |Next(s, a).wants| >= |s.wants| && Message(s, a, w) == None
    ensures Next(s, a).wants[w].outcome == s.wants[w].outcome
  {
    hide DropDone, Done;
  }

  lemma MessageDecides(s: State, a: Action, w: Wid)
    requires Enabled(s, a) && 0 <= w < |s.wants| && IsMessage(a)
    requires s.wants[w].Undecided() <==> s.wants[w].outcome.None?
    ensures |Next(s, a).wants| >= |s.wants|
    ensures Next(s, a).wants[w].outcome ==
            if s.wants[w].outcome.Some? then s.wants[w].outcome else Message(s, a, w)
  {
    hide DropDone, Done;
  }

  /** A connection that comes too late for its waiter is not lost, and one that comes in time is not
      kept: the release puts it into the pool exactly when the waiter is decided. */
  lemma ReleasedLate(s: State, t: Tid, c: Conn, w: Wid)
    requires Inv(s) && Enabled(s, Deliver(t)) && s.threads[t] == Delivering(c, w)
    ensures Next(s, Deliver(t)).conns == s.conns + if s.wants[w].outcome.Some? then [c] else []
    ensures Next(s, Deliver(t)).threads == s.threads[t := Finished] && Next(s, Deliver(t)).locked == None
  {
    hide Inv;
    WantIsOk(s, w);
  }

  /** The goroutine that dialed it goes on to release it exactly then. */
  lemma DialedLate(s: State, t: Tid, c: Conn, w: Wid)
    requires Inv(s) && Enabled(s, HandOverTo(t)) && s.threads[t] == HandOver(w, c)
    ensures Next(s, HandOverTo(t)).threads == s.threads[t := if s.wants[w].outcome.Some? then Releasing(c) else Finished]
    ensures Next(s, HandOverTo(t)).conns == s.conns
  {
    hide Inv;
    WantIsOk(s, w);
  }

  /** A waiting caller whose channel is closed comes back with the connection it was given; without
      one it has an error, and cancels. */
  lemma CallerCollects(s: State, t: Tid, w: Wid)
    requires Inv(s) && Enabled(s, Collect(t)) && s.threads[t] == Waiting(w)
    ensures s.wants[w].outcome.Some?
    ensures Next(s, Collect(t)).threads ==
            s.threads[t := match s.wants[w].outcome.value
                           case GotConn(c) => if s.wants[w].conn.Some? then Holding(c) else Cancelling(w)
                           case _ => Cancelling(w)]
  {
    hide Inv;
    WantIsOk(s, w);
  }

  // ---------------------------------------------------------------- keeping connections

  ghost predicate TakesFirst(s: State, first: seq<Conn>, rest: seq<Conn>, s': State) {
    s.conns == first + rest && s' == s.(conns := rest, threads := s.threads + [Closing(first)])
  }

  /** What is closed for idleness are the connections in front, which were released first. */
  lemma CleanerTakesOldest(s: State, n: nat)
    requires Enabled(s, TakeIdle(n))
    ensures exists first, rest :: |first| == n && TakesFirst(s, first, rest, Next(s, TakeIdle(n)))
  {
    assert s.conns == s.conns[..n] + s.conns[n..];
    assert TakesFirst(s, s.conns[..n], s.conns[n..], Next(s, TakeIdle(n)));
  }

  /** Keep-alive: a connection released while nobody waits is the next one a LIFO client gets. */
  lemma KeepAlive(s: State, t: Tid, c: Conn)
    requires Inv(s) && !AnyOpen(s) && s.locked.None? && 0 <= t < |s.threads| && s.threads[t] == Holding(c)
    ensures Enabled(s, BeginRelease(t))
    ensures var s1 := Next(s, BeginRelease(t));
            && Enabled(s1, Release(t))
            && var s2 := Next(s1, Release(t));
               && Enabled(s2, Acquire(true))
               && Started(s2, Next(s2, Acquire(true)), Holding(c))
  {
    hide Inv, Open;
    var s1 := Next(s, BeginRelease(t));
    NextKeeps(s, BeginRelease(t));
    assert s1 == s.(threads := s.threads[t := Releasing(c)]);
    SameQueue(s, s1);
    hide AnyOpen;
    ReleaseOutcome(s1, t);
    hide FirstOpen;
    var s2 := Next(s1, Release(t));
    assert s2.conns == s.conns + [c] && s2.locked.None?;
    hide Next, NextIn;
    LifoTakesLast(s2, s.conns, c);
  }

  lemma SameQueue(s: State, s1: State)
    requires s1.queue == s.queue && s1.wants == s.wants && s1.waits == s.waits
    ensures AnyOpen(s1) == AnyOpen(s)
  {
    assert forall w :: Open(s1, w) == Open(s, w);
  }

  lemma LifoTakesLast(s: State, rest: seq<Conn>, c: Conn)
    requires s.locked.None? && s.conns == rest + [c]
    ensures Enabled(s, Acquire(true)) && Started(s, Next(s, Acquire(true)), Holding(c))
  {
  }

  /** The goroutine was told to close connections: its caller closed the one it had, or it is a cleaner. */
  ghost predicate AskedToClose(maxConns: int, waits: bool, run: seq<Action>, t: Tid)
    requires Exec(maxConns, waits, run).Some?
    decreases |run|
  {
    run != [] &&
    var prefix, a := run[..|run| - 1], run[|run| - 1];
    var s := Exec(maxConns, waits, prefix).value;
    || AskedToClose(maxConns, waits, prefix, t)
    || a == BeginClose(t)
    || (a.TakeIdle? && t == |s.threads|)
  }

  /** Over every run: only goroutines that were told so close connections. */
  lemma {:induction false} OnlyAskedClose(maxConns: int, waits: bool, run: seq<Action>, t: Tid)
    requires Exec(maxConns, waits, run).Some?
    ensures var s := Exec(maxConns, waits, run).value;
            0 <= t < |s.threads| && (s.threads[t].Closing? || s.threads[t].Shutting?) ==>
              AskedToClose(maxConns, waits, run, t)
    decreases |run|
  {
    if run != [] {
      var prefix, a := run[..|run| - 1], run[|run| - 1];
      OnlyAskedClose(maxConns, waits, prefix, t);
      hide Exec;
      hide AskedToClose;
      ClosingStep(Exec(maxConns, waits, prefix).value, a, t);
    }
  }

  lemma ClosingStep(s: State, a: Action, t: Tid)
    requires Enabled(s, a)
    ensures var s' := Next(s, a);
            0 <= t < |s'.threads| && (s'.threads[t].Closing? || s'.threads[t].Shutting?) ==>
              || (t < |s.threads| && (s.threads[t].Closing? || s.threads[t].Shutting?))
              || a == BeginClose(t) || (a.TakeIdle? && t == |s.threads|)
  {
    hide DropDone, Done;
  }

  // ---------------------------------------------------------------- coming to an end

  /** How many steps of its own a goroutine may still take. */
  function StepsLeft(p: Pc): nat {
    match p
    case Finished => 0
    case GivingUp => 1
    case Delivering(_, _) => 1
    case Releasing(_) => 2
    case Report(_) => 2
    case Closing(cs) => 2 * |cs|
    case Shutting(_, cs) => 2 * |cs| + 1
    case Holding(_) => 3
    case HandOver(_, _) => 3
    case Cancelling(_) => 3
    case Dialing => 4
    case DialFor(_) => 4
    case Waiting(_) => 4
    case Queueing(_) => 5
  }

  /** The goroutine whose action it is. */
  ghost function Actor(s: State, a: Action): Tid {
    if a.Acquire? || a.TakeIdle? then |s.threads| else a.t
  }

  /** Every action brings its own goroutine nearer to its end, and leaves the others where they are. */
  lemma NearerToTheEnd(s: State, a: Action, t: Tid)
    requires Enabled(s, a) && 0 <= t < |s.threads|
    ensures t < |Next(s, a).threads|
    ensures if Actor(s, a) == t then StepsLeft(Next(s, a).threads[t]) < StepsLeft(s.threads[t])
            else Next(s, a).threads[t] == s.threads[t]
  {
    hide Next, NextIn, EnabledIn, StepsLeft;
    if Actor(s, a) == t {
      OwnStep(s, a);
    } else {
      OthersStay(s, a, t);
    }
  }

  lemma OwnStep(s: State, a: Action)
    requires Enabled(s, a) && !a.Acquire? && !a.TakeIdle?
    ensures |Next(s, a).threads| >= |s.threads| && StepsLeft(Next(s, a).threads[a.t]) < StepsLeft(s.threads[a.t])
  {
    hide Next, NextIn, EnabledIn, StepsLeft;
    if OfServer(a) {
      ServerStep(s, a);
    } else {
      CallerStep(s, a);
    }
  }

  /** Actions of goroutines that release, close, or dial for others. */
  predicate OfServer(a: Action) {
    a.Release? || a.Deliver? || a.Dec? || a.Shut? || a.DialForOk? || a.DialForFail? || a.HandOverTo? || a.ReportTo?
  }

  lemma ServerStep(s: State, a: Action)
    requires Enabled(s, a) && OfServer(a)
    ensures |Next(s, a).threads| >= |s.threads| && StepsLeft(Next(s, a).threads[a.t]) < StepsLeft(s.threads[a.t])
  {
    hide DropDone, Done, AcquireSection, DecSection;
    DecSpawns(s);
  }

  lemma DecSpawns(s: State)
    ensures |DecSection(s).threads| >= |s.threads|
  {
    hide DropDone, Done;
  }

  lemma CallerStep(s: State, a: Action)
    requires Enabled(s, a) && !OfServer(a) && !a.Acquire? && !a.TakeIdle?
    ensures |Next(s, a).threads| >= |s.threads| && StepsLeft(Next(s, a).threads[a.t]) < StepsLeft(s.threads[a.t])
  {
    hide DropDone, Done, AcquireSection;
  }

  /** A goroutine that has not come to its end can go on, or the one that has the lock can. */
  lemma NoDeadlock(s: State, t: Tid)
    requires Inv(s) && 0 <= t < |s.threads| && StepsLeft(s.threads[t]) > 0
    ensures exists a :: Enabled(s, a) && (Actor(s, a) == t || s.locked == Some(Actor(s, a)))
  {
    hide Books, WantOk;
    assert ThreadOk(s.threads[t], t, s.wants);
    if s.locked.Some? {
      var u := s.locked.value;
      assert ThreadOk(s.threads[u], u, s.wants);
      assert Enabled(s, Deliver(u));
    } else {
      var a := Turn(s.threads[t], t);
      assert Enabled(s, a);
    }
  }

  /** What a goroutine can do next. */
  function Turn(p: Pc, t: Tid): Action {
    match p
    case Dialing => DialOk(t)
    case Queueing(_) => Enqueue(t)
    case Waiting(_) => Timeout(t)
    case Cancelling(_) => Cancel(t)
    case Holding(_) => BeginRelease(t)
    case Releasing(_) => Release(t)
    case Delivering(_, _) => Deliver(t)
    case DialFor(_) => DialForOk(t)
    case HandOver(_, _) => HandOverTo(t)
    case Report(_) => ReportTo(t)
    case Shutting(_, _) => Shut(t)
    case _ => Dec(t)
  }
}
