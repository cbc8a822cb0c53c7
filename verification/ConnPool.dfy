/** The connection pool of a host client (fasthttp/client.go, `acquireConn` to `releaseConn` and
    `wantConn`) as a state machine over goroutines. One action is one `connsLock` section, one
    `w.mu` section, one dial, or one select. A section that only reads `w.waiting()` on the way
    takes effect at its last read; `releaseConn` keeps the lock between finding a waiter and
    delivering to it, and other goroutines may cancel or deliver in between. */
module ConnPool {
  import opened Basics
  import opened WantQueue

  type Conn = int
  type Wid = int
  type Tid = int

  /** How a waiter was decided: the first of delivery, dial error and cancellation. */
  datatype Outcome = GotConn(c: Conn) | GotError | Cancelled

  /** `wantConn`. `closes` counts how often `ready` was closed; `collected` marks a connection its
      caller has returned with; `outcome` is the decision, for the proofs only. */
  datatype Want = Want(owner: Tid, conn: Option<Conn>, err: bool, closes: nat, collected: bool, outcome: Option<Outcome>)
  {
    predicate Undecided() { conn.None? && !err }
    predicate Parked() { conn.Some? && !collected }
  }

  /** Where a goroutine is. */
  datatype Pc =
    | Dialing                           // acquireConn: took a slot, dials
    | Queueing(w: Wid)                  // acquireConn: before queueForIdle
    | Waiting(w: Wid)                   // acquireConn: in the select
    | Cancelling(w: Wid)                // acquireConn: deferred cancel
    | Holding(c: Conn)                  // the caller of acquireConn uses the connection
    | Releasing(c: Conn)                // releaseConn: before the lock
    | Delivering(c: Conn, to: Wid)      // releaseConn: has the lock, found a waiter
    | GivingUp                          // decConnsCount after a failed dial
    | DialFor(to: Wid)                  // dialConnFor: dials
    | HandOver(to: Wid, c: Conn)        // dialConnFor: delivers a connection
    | Report(to: Wid)                   // dialConnFor: delivers an error
    | Closing(cs: seq<Conn>)            // closeConn for each connection
    | Shutting(c: Conn, cs: seq<Conn>)  // closeConn: count is down, socket still open
    | Finished

  datatype State = State(
    maxConns: nat,
    waits: bool,  // MaxConnWaitTimeout > 0
    connsCount: int,
    conns: seq<Conn>,
    queue: seq<Wid>,
    wants: seq<Want>,
    threads: seq<Pc>,
    locked: Option<Tid>,  // who keeps connsLock between two actions
    live: set<Conn>,  // connections dialed and not closed
    dialed: nat)

  datatype Action =
    | Acquire(lifo: bool) | DialOk(t: Tid) | DialFail(t: Tid)
    | Enqueue(t: Tid) | Collect(t: Tid) | Timeout(t: Tid) | Cancel(t: Tid)
    | BeginRelease(t: Tid) | BeginClose(t: Tid) | Release(t: Tid) | Deliver(t: Tid)
    | Dec(t: Tid) | Shut(t: Tid)
    | DialForOk(t: Tid) | DialForFail(t: Tid) | HandOverTo(t: Tid) | ReportTo(t: Tid)
    | TakeIdle(n: nat)

  const DEFAULT_MAX_CONNS_PER_HOST := 512

  function Init(maxConns: int, waits: bool): State {
    State(if maxConns <= 0 then DEFAULT_MAX_CONNS_PER_HOST else maxConns, waits, 0, [], [], [], [], None, {}, 0)
  }

  // ---------------------------------------------------------------- the sections

  /** Waiters whose `ready` channel is closed. */
  function Done(s: State): set<Wid> {
    set w | 0 <= w < |s.wants| && s.wants[w].closes > 0
  }

  function Goto(s: State, t: Tid, p: Pc): State
    requires 0 <= t < |s.threads|
  {
    s.(threads := s.threads[t := p])
  }

  function Spawn(s: State, p: Pc): State {
    s.(threads := s.threads + [p])
  }

  /** A dial succeeds: a connection that did not exist before. */
  function Dialed(s: State): State {
    s.(live := s.live + {s.dialed}, dialed := s.dialed + 1)
  }

  /** `tryDeliver(cc, nil)`. */
  function TryDeliver(s: State, w: Wid, c: Conn): State
    requires 0 <= w < |s.wants|
  {
    var x := s.wants[w];
    if x.Undecided() then
      s.(wants := s.wants[w := x.(conn := Some(c), closes := x.closes + 1, outcome := Some(GotConn(c)))])
    else s
  }

  /** `tryDeliver(nil, err)`. */
  function TryFail(s: State, w: Wid): State
    requires 0 <= w < |s.wants|
  {
    var x := s.wants[w];
    if x.Undecided() then
      s.(wants := s.wants[w := x.(err := true, closes := x.closes + 1, outcome := Some(GotError))])
    else s
  }

  /** The `w.mu` section of `cancel`. */
  function CancelWant(s: State, w: Wid): State
    requires 0 <= w < |s.wants|
  {
    var x := s.wants[w];
    var x' :=
      if x.Undecided() then x.(closes := x.closes + 1, outcome := Some(Cancelled)) else x;
    s.(wants := s.wants[w := x'.(conn := None, err := true)])
  }

  /** The first section of `acquireConn`. */
  function AcquireSection(s: State, lifo: bool): State {
    if s.conns != [] then
      var i := if lifo then |s.conns| - 1 else 0;
      Spawn(s.(conns := s.conns[..i] + s.conns[i + 1..]), Holding(s.conns[i]))
    else if s.connsCount < s.maxConns then Spawn(s.(connsCount := s.connsCount + 1), Dialing)
    else if !s.waits then Spawn(s, Finished)
    else
      Spawn(s.(wants := s.wants + [NewWant(|s.threads|)]), Queueing(|s.wants|))
  }

  /** `decConnsCount`: the slot goes to the first waiter still waiting, or is given up. */
  function DecSection(s: State): State {
    var q := if s.waits then DropDone(s.queue, Done(s)) else [];
    if q == [] then s.(connsCount := s.connsCount - 1, queue := if s.waits then [] else s.queue)
    else Spawn(s.(queue := q[1..]), DialFor(q[0]))
  }

  /** The `connsLock` section of `releaseConn` up to the delivery. */
  function ReleaseSection(s: State, t: Tid, c: Conn): State
    requires 0 <= t < |s.threads|
  {
    var q := if s.waits then DropDone(s.queue, Done(s)) else [];
    if q == [] then
      Goto(s.(conns := s.conns + [c], queue := if s.waits then [] else s.queue), t, Finished)
    else Goto(s.(queue := q[1..], locked := Some(t)), t, Delivering(c, q[0]))
  }

  // ---------------------------------------------------------------- actions

  /** The waiters a goroutine refers to exist. */
  predicate WidOk(n: nat, p: Pc) {
    match p
    case Queueing(w) => 0 <= w < n
    case Waiting(w) => 0 <= w < n
    case Cancelling(w) => 0 <= w < n
    case Delivering(_, w) => 0 <= w < n
    case DialFor(w) => 0 <= w < n
    case HandOver(w, _) => 0 <= w < n
    case Report(w) => 0 <= w < n
    case _ => true
  }

  /** When an action may happen. */
  ghost predicate Enabled(s: State, a: Action) {
    match a
    case Acquire(_) => s.locked.None?
    case TakeIdle(n) => s.locked.None? && n <= |s.conns|
    case _ => 0 <= a.t < |s.threads| && WidOk(|s.wants|, s.threads[a.t]) && EnabledIn(s, a, s.threads[a.t])
  }

  ghost predicate EnabledIn(s: State, a: Action, p: Pc)
    requires !a.Acquire? && !a.TakeIdle? && WidOk(|s.wants|, p)
  {
    match a
    case DialOk(_) => p.Dialing?
    case DialFail(_) => p.Dialing?
    case Enqueue(_) => p.Queueing? && s.locked.None?
    case Collect(_) => p.Waiting? && s.wants[p.w].closes > 0
    case Timeout(_) => p.Waiting?
    case Cancel(_) => p.Cancelling?
    case BeginRelease(_) => p.Holding?
    case BeginClose(_) => p.Holding?
    case Release(_) => p.Releasing? && s.locked.None?
    case Deliver(_) => p.Delivering?
    case Dec(_) => (p.GivingUp? || (p.Closing? && p.cs != [])) && s.locked.None?
    case Shut(_) => p.Shutting?
    case DialForOk(_) => p.DialFor?
    case DialForFail(_) => p.DialFor?
    case HandOverTo(_) => p.HandOver?
    case ReportTo(_) => p.Report?
  }

  ghost function Next(s: State, a: Action): State
    requires Enabled(s, a)
  {
    match a
    case Acquire(lifo) => AcquireSection(s, lifo)
    case TakeIdle(n) => Spawn(s.(conns := s.conns[n..]), Closing(s.conns[..n]))
    case _ => NextIn(s, a, a.t, s.threads[a.t])
  }

  ghost function NextIn(s: State, a: Action, t: Tid, p: Pc): State
    requires !a.Acquire? && !a.TakeIdle? && 0 <= t < |s.threads| && p == s.threads[t]
    requires WidOk(|s.wants|, p) && EnabledIn(s, a, p)
  {
    match a
    case DialOk(_) => Goto(Dialed(s), t, Holding(s.dialed))
    case DialFail(_) => Goto(s, t, GivingUp)
    case Enqueue(_) => Goto(s.(queue := DropDone(s.queue, Done(s)) + [p.w]), t, Waiting(p.w))
    case Collect(_) => CollectSection(s, t, p.w)
    case Timeout(_) => Goto(s, t, Cancelling(p.w))
    case Cancel(_) =>
      Goto(CancelWant(s, p.w), t, if s.wants[p.w].conn.Some? then Releasing(s.wants[p.w].conn.value) else Finished)
    case BeginRelease(_) => Goto(s, t, Releasing(p.c))
    case BeginClose(_) => Goto(s, t, Closing([p.c]))
    case Release(_) => ReleaseSection(s, t, p.c)
    case Deliver(_) => DeliverSection(s, t, p.c, p.to)
    case Dec(_) => Goto(DecSection(s), t, if p.GivingUp? then Finished else Shutting(p.cs[0], p.cs[1..]))
    case Shut(_) => Goto(s.(live := s.live - {p.c}), t, Closing(p.cs))
    case DialForOk(_) => Goto(Dialed(s), t, HandOver(p.to, s.dialed))
    case DialForFail(_) => Goto(s, t, Report(p.to))
    case HandOverTo(_) =>
      Goto(TryDeliver(s, p.to, p.c), t, if s.wants[p.to].Undecided() then Finished else Releasing(p.c))
    case ReportTo(_) => Goto(TryFail(s, p.to), t, GivingUp)
  }

  /** The ready branch of the select in `acquireConn`. */
  function CollectSection(s: State, t: Tid, w: Wid): State
    requires 0 <= t < |s.threads| && 0 <= w < |s.wants|
  {
    var x := s.wants[w];
    if x.conn.Some? then Goto(s.(wants := s.wants[w := x.(collected := true)]), t, Holding(x.conn.value))
    else Goto(s, t, Cancelling(w))
  }

  /** The end of `releaseConn`: deliver, or else put the connection into the pool; then unlock. */
  function DeliverSection(s: State, t: Tid, c: Conn, w: Wid): State
    requires 0 <= t < |s.threads| && 0 <= w < |s.wants|
  {
    var s' := if s.wants[w].Undecided() then TryDeliver(s, w, c) else s.(conns := s.conns + [c]);
    Goto(s'.(locked := None), t, Finished)
  }

  /** The state after an interleaving, if every action of it may happen. */
  ghost function Exec(maxConns: int, waits: bool, run: seq<Action>): Option<State>
    decreases |run|
  {
    if run == [] then Some(Init(maxConns, waits))
    else
      var s := Exec(maxConns, waits, run[..|run| - 1]);
      var a := run[|run| - 1];
      if s.Some? && Enabled(s.value, a) then Some(Next(s.value, a)) else None
  }

  // ---------------------------------------------------------------- the ledger

  /** What a party has: slots counted in `connsCount`, connections, and claims on waiters (at most
      one party may be about to serve a waiter). */
  datatype Ledger = Ledger(slots: int, conns: multiset<Conn>, claims: multiset<Wid>) {
    function Plus(o: Ledger): Ledger {
      Ledger(slots + o.slots, conns + o.conns, claims + o.claims)
    }
  }

  const NOTHING := Ledger(0, multiset{}, multiset{})

  function Has(p: Pc): Ledger {
    match p
    case Dialing => Ledger(1, multiset{}, multiset{})
    case Queueing(w) => Ledger(0, multiset{}, multiset{w})
    case Holding(c) => Ledger(1, multiset{c}, multiset{})
    case Releasing(c) => Ledger(1, multiset{c}, multiset{})
    case Delivering(c, w) => Ledger(1, multiset{c}, multiset{w})
    case GivingUp => Ledger(1, multiset{}, multiset{})
    case DialFor(w) => Ledger(1, multiset{}, multiset{w})
    case HandOver(w, c) => Ledger(1, multiset{c}, multiset{w})
    case Report(w) => Ledger(1, multiset{}, multiset{w})
    case Closing(cs) => Ledger(|cs|, multiset(cs), multiset{})
    case Shutting(c, cs) => Ledger(|cs|, multiset{c} + multiset(cs), multiset{})
    case _ => NOTHING
  }

  function ThreadsHave(ts: seq<Pc>): Ledger {
    if ts == [] then NOTHING else ThreadsHave(ts[..|ts| - 1]).Plus(Has(ts[|ts| - 1]))
  }

  function WantHas(x: Want): Ledger {
    if x.Parked() then Ledger(1, multiset{x.conn.value}, multiset{}) else NOTHING
  }

  function WantsHave(ws: seq<Want>): Ledger {
    if ws == [] then NOTHING else WantsHave(ws[..|ws| - 1]).Plus(WantHas(ws[|ws| - 1]))
  }

  function Shelf(s: State): Ledger {
    Ledger(|s.conns|, multiset(s.conns), multiset(s.queue))
  }

  function Total(s: State): Ledger {
    Shelf(s).Plus(ThreadsHave(s.threads)).Plus(WantsHave(s.wants))
  }

  lemma PlusSwap(a: Ledger, b: Ledger, c: Ledger)
    ensures a.Plus(b).Plus(c) == a.Plus(c).Plus(b)
  {
    assert a.conns + b.conns + c.conns == a.conns + c.conns + b.conns;
    assert a.claims + b.claims + c.claims == a.claims + c.claims + b.claims;
  }

  lemma {:induction false} ThreadsUpdate(ts: seq<Pc>, i: nat, p: Pc)
    requires i < |ts|
    ensures ThreadsHave(ts[i := p]).Plus(Has(ts[i])) == ThreadsHave(ts).Plus(Has(p))
  {
    hide Has;
    var n := |ts| - 1;
    var r := ThreadsHave(ts[..n]);
    if i < n {
      assert ts[i := p][..n] == ts[..n][i := p];
      ThreadsUpdate(ts[..n], i, p);
      PlusSwap(ThreadsHave(ts[..n][i := p]), Has(ts[n]), Has(ts[i]));
      PlusSwap(r, Has(ts[n]), Has(p));
    } else {
      assert ts[i := p][..n] == ts[..n];
      PlusSwap(r, Has(p), Has(ts[i]));
    }
  }

  lemma {:induction false} WantsUpdate(ws: seq<Want>, i: nat, x: Want)
    requires i < |ws|
    ensures WantsHave(ws[i := x]).Plus(WantHas(ws[i])) == WantsHave(ws).Plus(WantHas(x))
  {
    hide WantHas;
    var n := |ws| - 1;
    var r := WantsHave(ws[..n]);
    if i < n {
      assert ws[i := x][..n] == ws[..n][i := x];
      WantsUpdate(ws[..n], i, x);
      PlusSwap(WantsHave(ws[..n][i := x]), WantHas(ws[n]), WantHas(ws[i]));
      PlusSwap(r, WantHas(ws[n]), WantHas(x));
    } else {
      assert ws[i := x][..n] == ws[..n];
      PlusSwap(r, WantHas(x), WantHas(ws[i]));
    }
  }

  lemma ThreadsSpawn(ts: seq<Pc>, p: Pc)
    ensures ThreadsHave(ts + [p]) == ThreadsHave(ts).Plus(Has(p))
  {
    assert (ts + [p])[..|ts|] == ts;
  }

  lemma WantsNew(ws: seq<Want>, x: Want)
    ensures WantsHave(ws + [x]) == WantsHave(ws).Plus(WantHas(x))
  {
    assert (ws + [x])[..|ws|] == ws;
  }

  /** One goroutine moves on: the total changes by what it gains and loses. */
  lemma GotoTotal(s: State, t: Tid, p: Pc)
    requires 0 <= t < |s.threads|
    ensures Shift(Total(s), Has(s.threads[t]), Has(p), Total(Goto(s, t, p)))
  {
    hide Has, ThreadsHave, WantsHave;
    ThreadsUpdate(s.threads, t, p);
    var b, b' := ThreadsHave(s.threads), ThreadsHave(s.threads[t := p]);
    PlusPointwise(b', Has(s.threads[t]), b, Has(p));
  }

  lemma SpawnTotal(s: State, p: Pc)
    ensures Shift(Total(s), NOTHING, Has(p), Total(Spawn(s, p)))
  {
    hide Has, ThreadsHave, WantsHave;
    ThreadsSpawn(s.threads, p);
  }

  lemma WantTotal(s: State, w: Wid, x: Want)
    requires 0 <= w < |s.wants|
    ensures Shift(Total(s), WantHas(s.wants[w]), WantHas(x), Total(s.(wants := s.wants[w := x])))
  {
    hide WantHas, ThreadsHave, WantsHave;
    WantsUpdate(s.wants, w, x);
    PlusPointwise(WantsHave(s.wants[w := x]), WantHas(s.wants[w]), WantsHave(s.wants), WantHas(x));
  }

  lemma ShelfTotal(s: State, u: State)
    requires u.threads == s.threads && u.wants == s.wants
    ensures Shift(Total(s), Shelf(s), Shelf(u), Total(u))
  {
    hide ThreadsHave, WantsHave;
  }

  /** `b` is `a` without `minus` and with `plus`, counted one connection and one claim at a time. */
  ghost predicate Shift(a: Ledger, minus: Ledger, plus: Ledger, b: Ledger) {
    && b.slots + minus.slots == a.slots + plus.slots
    && (forall c: Conn :: b.conns[c] + minus.conns[c] == a.conns[c] + plus.conns[c])
    && (forall w: Wid :: b.claims[w] + minus.claims[w] == a.claims[w] + plus.claims[w])
  }

  lemma PlusPointwise(b: Ledger, minus: Ledger, a: Ledger, plus: Ledger)
    requires b.Plus(minus) == a.Plus(plus)
    ensures Shift(a, minus, plus, b)
  {
    forall c: Conn
      ensures b.conns[c] + minus.conns[c] == a.conns[c] + plus.conns[c]
    {
      assert b.Plus(minus).conns[c] == a.Plus(plus).conns[c];
    }
    forall w: Wid
      ensures b.claims[w] + minus.claims[w] == a.claims[w] + plus.claims[w]
    {
      assert b.Plus(minus).claims[w] == a.Plus(plus).claims[w];
    }
  }

  // ---------------------------------------------------------------- the invariant

  /** The books balance: every slot counted in `connsCount` is an idle connection, a delivered one
      nobody collected, or in the hands of one goroutine; every open connection is in exactly one
      place; no waiter has two parties about to serve it. */
  ghost predicate Books(s: State) {
    && Total(s).slots == s.connsCount <= s.maxConns
    && (forall c: Conn :: Total(s).conns[c] == if c in s.live then 1 else 0)
    && (forall c :: c in s.live ==> c < s.dialed)
    && (forall w: Wid :: Total(s).claims[w] <= if 0 <= w < |s.wants| then 1 else 0)
  }

  /** A waiter is decided exactly when its channel is closed, and that happens at most once. A
      delivered connection that was not collected still has its caller to collect or return it. */
  ghost predicate WantOk(x: Want, w: Wid, threads: seq<Pc>) {
    && x.closes <= 1
    && (x.Undecided() <==> x.closes == 0)
    && (x.outcome.Some? <==> x.closes == 1)
    && (x.conn.Some? ==> x.outcome == Some(GotConn(x.conn.value)))
    && (x.collected ==> x.conn.Some?)
    && 0 <= x.owner < |threads|
    && (x.Undecided() ==> threads[x.owner] in {Queueing(w), Waiting(w), Cancelling(w)})
    && (x.Parked() ==> threads[x.owner] in {Waiting(w), Cancelling(w)})
  }

  ghost predicate ThreadOk(p: Pc, t: Tid, wants: seq<Want>) {
    && WidOk(|wants|, p)
    && (p.Queueing? || p.Waiting? || p.Cancelling? ==> wants[p.w].owner == t && !wants[p.w].collected)
    && (p.Queueing? ==> wants[p.w].Undecided())
  }

  ghost predicate LockOk(threads: seq<Pc>, locked: Option<Tid>) {
    locked.Some? ==> 0 <= locked.value < |threads| && threads[locked.value].Delivering?
  }

  ghost predicate Structure(wants: seq<Want>, threads: seq<Pc>, locked: Option<Tid>) {
    && (forall w :: 0 <= w < |wants| ==> WantOk(wants[w], w, threads))
    && (forall t :: 0 <= t < |threads| ==> ThreadOk(threads[t], t, wants))
    && LockOk(threads, locked)
  }

  ghost predicate Inv(s: State) {
    Books(s) && Structure(s.wants, s.threads, s.locked)
  }

  /** A goroutine moves on without leaving a waiter or the lock behind. */
  lemma GotoOk(wants: seq<Want>, threads: seq<Pc>, locked: Option<Tid>, t: Tid, p: Pc)
    requires Structure(wants, threads, locked) && 0 <= t < |threads| && ThreadOk(p, t, wants)
    requires locked == Some(t) ==> p.Delivering?
    requires forall w :: 0 <= w < |wants| && wants[w].owner == t && wants[w].Undecided() ==>
      p in {Queueing(w), Waiting(w), Cancelling(w)}
    requires forall w :: 0 <= w < |wants| && wants[w].owner == t && wants[w].Parked() ==>
      p in {Waiting(w), Cancelling(w)}
    ensures Structure(wants, threads[t := p], locked)
  {
    forall w | 0 <= w < |wants|
      ensures WantOk(wants[w], w, threads[t := p])
    {
      assert WantOk(wants[w], w, threads);
    }
  }

  lemma SpawnOk(wants: seq<Want>, threads: seq<Pc>, locked: Option<Tid>, p: Pc)
    requires Structure(wants, threads, locked) && ThreadOk(p, |threads|, wants)
    ensures Structure(wants, threads + [p], locked)
  {
    forall w | 0 <= w < |wants|
      ensures WantOk(wants[w], w, threads + [p])
    {
      assert WantOk(wants[w], w, threads);
    }
  }

  lemma PutWantOk(wants: seq<Want>, threads: seq<Pc>, locked: Option<Tid>, w: Wid, x: Want)
    requires Structure(wants, threads, locked) && 0 <= w < |wants| && WantOk(x, w, threads)
    requires x.owner == wants[w].owner && !x.collected
    requires threads[x.owner] == Queueing(w) ==> x.Undecided()
    ensures Structure(wants[w := x], threads, locked)
  {
    forall t | 0 <= t < |threads|
      ensures ThreadOk(threads[t], t, wants[w := x])
    {
      assert ThreadOk(threads[t], t, wants);
    }
  }

  // ---------------------------------------------------------------- every action keeps it

  /** A goroutine that is not a waiting caller owns no open waiter. */
  lemma OwnsNoWant(s: State, t: Tid)
    requires Inv(s) && 0 <= t < |s.threads|
    requires !s.threads[t].Queueing? && !s.threads[t].Waiting? && !s.threads[t].Cancelling?
    ensures forall w :: 0 <= w < |s.wants| && s.wants[w].owner == t ==> !s.wants[w].Undecided() && !s.wants[w].Parked()
  {
    forall w | 0 <= w < |s.wants| && s.wants[w].owner == t
      ensures !s.wants[w].Undecided() && !s.wants[w].Parked()
    {
      assert WantOk(s.wants[w], w, s.threads);
    }
  }

  /** A waiting caller owns no open waiter but its own. */
  lemma OwnsOneWant(s: State, t: Tid)
    requires Inv(s) && 0 <= t < |s.threads|
    requires s.threads[t].Queueing? || s.threads[t].Waiting? || s.threads[t].Cancelling?
    ensures ThreadOk(s.threads[t], t, s.wants) && WantOk(s.wants[s.threads[t].w], s.threads[t].w, s.threads)
    ensures forall w :: 0 <= w < |s.wants| && s.wants[w].owner == t && (s.wants[w].Undecided() || s.wants[w].Parked()) ==>
              w == s.threads[t].w
  {
    assert ThreadOk(s.threads[t], t, s.wants);
    forall w | 0 <= w < |s.wants| && s.wants[w].owner == t && (s.wants[w].Undecided() || s.wants[w].Parked())
      ensures w == s.threads[t].w
    {
      assert WantOk(s.wants[w], w, s.threads);
    }
  }

  /** The books after a change of `minus` to `plus`. */
  lemma BooksAfter(s: State, minus: Ledger, plus: Ledger, s': State)
    requires Books(s) && Shift(Total(s), minus, plus, Total(s'))
    requires s'.connsCount == s.connsCount + plus.slots - minus.slots <= s'.maxConns
    requires forall c: Conn ::
      (if c in s'.live then 1 else 0) + minus.conns[c] == (if c in s.live then 1 else 0) + plus.conns[c]
    requires forall c :: c in s'.live ==> c < s'.dialed
    requires |s.wants| <= |s'.wants|
    requires forall w: Wid :: plus.claims[w] <= minus.claims[w] + (if |s.wants| <= w < |s'.wants| then 1 else 0)
    ensures Books(s')
  {
    hide Total;
  }

  /** The books after things changed hands evenly. */
  lemma BooksEven(s: State, minus: Ledger, plus: Ledger, s': State)
    requires Books(s) && Shift(Total(s), minus, plus, Total(s'))
    requires minus.slots == plus.slots && minus.conns == plus.conns && plus.claims <= minus.claims
    requires s'.connsCount == s.connsCount && s'.maxConns == s.maxConns
    requires s'.live == s.live && s'.dialed == s.dialed && |s'.wants| == |s.wants|
    ensures Books(s')
  {
    hide Total;
    BooksAfter(s, minus, plus, s');
  }

  lemma ShiftThen(a: Ledger, m: Ledger, p: Ledger, b: Ledger, m': Ledger, p': Ledger, c: Ledger)
    requires Shift(a, m, p, b) && Shift(b, m', p', c)
    ensures Shift(a, m.Plus(m'), p.Plus(p'), c)
  {
  }

  /** The books after the shelf and one goroutine changed. */
  lemma ShelfAndGoto(s: State, u: State, t: Tid, p: Pc)
    requires 0 <= t < |s.threads| && u.threads == s.threads && u.wants == s.wants
    ensures Shift(Total(s), Shelf(s).Plus(Has(s.threads[t])), Shelf(u).Plus(Has(p)), Total(Goto(u, t, p)))
  {
    hide Total, Has, Shelf, Shift;
    ShelfTotal(s, u);
    GotoTotal(u, t, p);
    ShiftThen(Total(s), Shelf(s), Shelf(u), Total(u), Has(s.threads[t]), Has(p), Total(Goto(u, t, p)));
  }

  lemma ShelfAndSpawn(s: State, u: State, p: Pc)
    requires u.threads == s.threads && u.wants == s.wants
    ensures Shift(Total(s), Shelf(s).Plus(NOTHING), Shelf(u).Plus(Has(p)), Total(Spawn(u, p)))
  {
    hide Total, Has, Shelf, Shift;
    ShelfTotal(s, u);
    SpawnTotal(u, p);
    ShiftThen(Total(s), Shelf(s), Shelf(u), Total(u), NOTHING, Has(p), Total(Spawn(u, p)));
  }

  /** The books after one waiter and one goroutine changed. */
  lemma WantAndGoto(s: State, w: Wid, x: Want, t: Tid, p: Pc)
    requires 0 <= t < |s.threads| && 0 <= w < |s.wants|
    ensures Shift(Total(s), WantHas(s.wants[w]).Plus(Has(s.threads[t])), WantHas(x).Plus(Has(p)),
                  Total(Goto(s.(wants := s.wants[w := x]), t, p)))
  {
    hide Total, Has, WantHas, Shift;
    var u := s.(wants := s.wants[w := x]);
    WantTotal(s, w, x);
    GotoTotal(u, t, p);
    ShiftThen(Total(s), WantHas(s.wants[w]), WantHas(x), Total(u), Has(s.threads[t]), Has(p), Total(Goto(u, t, p)));
  }

  lemma MoveOk(s: State, t: Tid, p: Pc)
    requires Inv(s) && 0 <= t < |s.threads|
    requires !s.threads[t].Queueing? && !s.threads[t].Waiting? && !s.threads[t].Cancelling? && !s.threads[t].Delivering?
    requires !p.Queueing? && !p.Waiting? && !p.Cancelling?
    requires WidOk(|s.wants|, s.threads[t]) ==> WidOk(|s.wants|, p)
    ensures Structure(s.wants, s.threads[t := p], s.locked)
  {
    hide Total, Books;
    OwnsNoWant(s, t);
    assert ThreadOk(s.threads[t], t, s.wants);
    GotoOk(s.wants, s.threads, s.locked, t, p);
  }

  /** DialFail, DialForFail, BeginRelease, BeginClose: nothing changes hands. */
  lemma MoveKeeps(s: State, t: Tid, p: Pc)
    requires Inv(s) && 0 <= t < |s.threads| && Has(p) == Has(s.threads[t])
    requires s.threads[t].Dialing? || s.threads[t].DialFor? || s.threads[t].Holding?
    requires p.GivingUp? || p.Releasing? || p.Closing? || (p.Report? && s.threads[t] == DialFor(p.to))
    ensures Inv(Goto(s, t, p))
  {
    MoveOk(s, t, p);
    hide Total, Has, Structure;
    GotoTotal(s, t, p);
    BooksAfter(s, Has(p), Has(p), Goto(s, t, p));
  }

  lemma TimeoutKeeps(s: State, t: Tid)
    requires Inv(s) && 0 <= t < |s.threads| && s.threads[t].Waiting?
    ensures Inv(Goto(s, t, Cancelling(s.threads[t].w)))
  {
    var p := Cancelling(s.threads[t].w);
    OwnsOneWant(s, t);
    GotoOk(s.wants, s.threads, s.locked, t, p);
    hide Total, Structure;
    GotoTotal(s, t, p);
    BooksAfter(s, NOTHING, NOTHING, Goto(s, t, p));
  }

  /** DialOk and DialForOk: a new connection in one place. */
  lemma DialedKeeps(s: State, t: Tid, p: Pc)
    requires Inv(s) && 0 <= t < |s.threads|
    requires (s.threads[t].Dialing? && p == Holding(s.dialed)) ||
             (s.threads[t].DialFor? && p == HandOver(s.threads[t].to, s.dialed))
    ensures Inv(Goto(Dialed(s), t, p))
  {
    hide Total, Structure, Has, Shelf, Shift, Books;
    MoveOk(s, t, p);
    ShelfAndGoto(s, Dialed(s), t, p);
    BooksDialed(s);
    DialedEnters(s, s.threads[t], p);
    BooksAfter(s, Shelf(s).Plus(Has(s.threads[t])), Shelf(Dialed(s)).Plus(Has(p)), Goto(Dialed(s), t, p));
  }

  /** The new connection enters the books as it enters the open ones. */
  lemma DialedEnters(s: State, p: Pc, p': Pc)
    requires s.dialed !in s.live
    requires (p.Dialing? && p' == Holding(s.dialed)) || (p.DialFor? && p' == HandOver(p.to, s.dialed))
    ensures var m, n, u := Shelf(s).Plus(Has(p)), Shelf(Dialed(s)).Plus(Has(p')), Dialed(s);
            && m.slots == n.slots && n.claims == m.claims
            && forall c: Conn :: (if c in u.live then 1 else 0) + m.conns[c] == (if c in s.live then 1 else 0) + n.conns[c]
  {
    var l, l' := Has(p), Has(p');
    assert l.slots == l'.slots == 1 && l.claims == l'.claims && l.conns == multiset{} && l'.conns == multiset{s.dialed};
    hide Has;
  }

  lemma WithoutAt(cs: seq<Conn>, i: nat)
    requires i < |cs|
    ensures forall c: Conn :: multiset(cs)[c] == multiset(cs[..i] + cs[i + 1..])[c] + multiset{cs[i]}[c]
  {
    assert cs == cs[..i] + [cs[i]] + cs[i + 1..];
  }

  lemma TakeIdleKeeps(s: State, n: nat)
    requires Inv(s) && n <= |s.conns|
    ensures Inv(Spawn(s.(conns := s.conns[n..]), Closing(s.conns[..n])))
  {
    hide Total, Structure, Shift, Books;
    var u, p := s.(conns := s.conns[n..]), Closing(s.conns[..n]);
    SpawnOk(s.wants, s.threads, s.locked, p);
    assert s.conns == s.conns[..n] + s.conns[n..];
    assert multiset(s.conns) == multiset(s.conns[..n]) + multiset(s.conns[n..]);
    ShelfAndSpawn(s, u, p);
    BooksEven(s, Shelf(s).Plus(NOTHING), Shelf(u).Plus(Has(p)), Spawn(u, p));
  }

  lemma AcquireIdleKeeps(s: State, i: nat)
    requires Inv(s) && i < |s.conns|
    ensures Inv(Spawn(s.(conns := s.conns[..i] + s.conns[i + 1..]), Holding(s.conns[i])))
  {
    var u, p := s.(conns := s.conns[..i] + s.conns[i + 1..]), Holding(s.conns[i]);
    SpawnOk(s.wants, s.threads, s.locked, p);
    hide Total, Structure;
    WithoutAt(s.conns, i);
    ShelfAndSpawn(s, u, p);
    BooksAfter(s, Shelf(s).Plus(NOTHING), Shelf(u).Plus(Has(p)), Spawn(u, p));
  }

  lemma AcquireDialKeeps(s: State)
    requires Inv(s) && s.connsCount < s.maxConns
    ensures Inv(Spawn(s.(connsCount := s.connsCount + 1), Dialing))
  {
    var u := s.(connsCount := s.connsCount + 1);
    SpawnOk(s.wants, s.threads, s.locked, Dialing);
    hide Total, Structure;
    ShelfAndSpawn(s, u, Dialing);
    BooksAfter(s, Shelf(s).Plus(NOTHING), Shelf(u).Plus(Has(Dialing)), Spawn(u, Dialing));
  }

  lemma AcquireRefusedKeeps(s: State)
    requires Inv(s)
    ensures Inv(Spawn(s, Finished))
  {
    SpawnOk(s.wants, s.threads, s.locked, Finished);
    hide Total, Structure;
    SpawnTotal(s, Finished);
    BooksAfter(s, NOTHING, NOTHING, Spawn(s, Finished));
  }

  function NewWant(owner: Tid): Want {
    Want(owner, None, false, 0, false, None)
  }

  lemma NewWantOk(wants: seq<Want>, threads: seq<Pc>, locked: Option<Tid>)
    requires Structure(wants, threads, locked)
    ensures Structure(wants + [NewWant(|threads|)], threads + [Queueing(|wants|)], locked)
  {
    var wants', threads' := wants + [NewWant(|threads|)], threads + [Queueing(|wants|)];
    forall v | 0 <= v < |wants'|
      ensures WantOk(wants'[v], v, threads')
    {
      assert v < |wants| ==> WantOk(wants[v], v, threads);
    }
    forall t | 0 <= t < |threads'|
      ensures ThreadOk(threads'[t], t, wants')
    {
      assert 0 <= t < |threads| ==> ThreadOk(threads[t], t, wants);
    }
  }

  lemma AcquireWaitKeeps(s: State)
    requires Inv(s)
    ensures Inv(Spawn(s.(wants := s.wants + [NewWant(|s.threads|)]), Queueing(|s.wants|)))
  {
    var x, p := NewWant(|s.threads|), Queueing(|s.wants|);
    var u := s.(wants := s.wants + [x]);
    NewWantOk(s.wants, s.threads, s.locked);
    hide Total, Structure;
    NewWantTotal(s, x);
    AcquireWaitBooks(s, u, p);
  }

  lemma NewWantTotal(s: State, x: Want)
    requires !x.Parked()
    ensures Shift(Total(s), NOTHING, NOTHING, Total(s.(wants := s.wants + [x])))
  {
    WantsNew(s.wants, x);
    hide ThreadsHave, WantsHave;
    var u := s.(wants := s.wants + [x]);
    assert WantsHave(u.wants) == WantsHave(s.wants).Plus(NOTHING);
  }

  lemma AcquireWaitBooks(s: State, u: State, p: Pc)
    requires Books(s) && Shift(Total(s), NOTHING, NOTHING, Total(u)) && p == Queueing(|s.wants|)
    requires |u.wants| == |s.wants| + 1 && u == s.(wants := u.wants)
    ensures Books(Spawn(u, p))
  {
    hide Total;
    SpawnTotal(u, p);
    ShiftNothing(Total(s), Total(u), Has(p), Total(Spawn(u, p)));
    BooksAfter(s, NOTHING, Has(p), Spawn(u, p));
  }

  lemma ShiftNothing(a: Ledger, b: Ledger, p: Ledger, c: Ledger)
    requires Shift(a, NOTHING, NOTHING, b) && Shift(b, NOTHING, p, c)
    ensures Shift(a, NOTHING, p, c)
  {
  }

  lemma AcquireKeeps(s: State, lifo: bool)
    requires Inv(s)
    ensures Inv(AcquireSection(s, lifo))
  {
    hide Inv;
    if s.conns != [] {
      AcquireIdleKeeps(s, if lifo then |s.conns| - 1 else 0);
    } else if s.connsCount < s.maxConns {
      AcquireDialKeeps(s);
    } else if !s.waits {
      AcquireRefusedKeeps(s);
    } else {
      AcquireWaitKeeps(s);
    }
  }

  lemma {:induction false} DropDoneCounts(q: seq<Wid>, done: set<Wid>)
    ensures forall w: Wid :: multiset(DropDone(q, done))[w] <= multiset(q)[w]
  {
    DropDoneFacts(q, done);
    var r: seq<Wid> := DropDone(q, done);
    var l: seq<Wid> := q[..|q| - |r|];
    assert q == l + r;
    forall w: Wid
      ensures multiset(r)[w] <= multiset(q)[w]
    {
      assert multiset(q)[w] == multiset(l)[w] + multiset(r)[w];
    }
  }

  lemma TotalSame(s: State, u: State)
    requires u.conns == s.conns && u.queue == s.queue && u.threads == s.threads && u.wants == s.wants
    ensures Total(u) == Total(s)
  {
  }

  lemma QueuedExist(s: State, w: Wid)
    requires Books(s) && w in s.queue
    ensures 0 <= w < |s.wants|
  {
    hide ThreadsHave, WantsHave;
    assert Total(s).claims[w] >= multiset(s.queue)[w] >= 1;
  }

  lemma EnqueueKeeps(s: State, t: Tid)
    requires Inv(s) && 0 <= t < |s.threads| && s.threads[t].Queueing?
    ensures Inv(Goto(s.(queue := DropDone(s.queue, Done(s)) + [s.threads[t].w]), t, Waiting(s.threads[t].w)))
  {
    var w := s.threads[t].w;
    hide Books, Done, DropDone;
    OwnsOneWant(s, t);
    GotoOk(s.wants, s.threads, s.locked, t, Waiting(w));
    EnqueueBooks(s, t, w, DropDone(s.queue, Done(s)), Done(s));
  }

  lemma EnqueueBooks(s: State, t: Tid, w: Wid, q: seq<Wid>, done: set<Wid>)
    requires Books(s) && 0 <= t < |s.threads| && s.threads[t] == Queueing(w) && q == DropDone(s.queue, done)
    ensures Books(Goto(s.(queue := q + [w]), t, Waiting(w)))
  {
    DropDoneCounts(s.queue, done);
    hide Total, DropDone;
    var u := s.(queue := q + [w]);
    assert multiset(q + [w]) == multiset(q) + multiset{w};
    ShelfAndGoto(s, u, t, Waiting(w));
    BooksAfter(s, Shelf(s).Plus(Has(s.threads[t])), Shelf(u).Plus(Has(Waiting(w))), Goto(u, t, Waiting(w)));
  }

  /** A caller leaves its decided waiter for good. */
  lemma LeaveOk(s: State, t: Tid, x: Want, p: Pc)
    requires Inv(s) && 0 <= t < |s.threads| && (s.threads[t].Waiting? || s.threads[t].Cancelling?)
    requires 0 <= s.threads[t].w < |s.wants|
    requires x.owner == t && x.closes == 1 && x.outcome.Some? && !x.Undecided() && !x.Parked()
    requires x.conn.Some? ==> x.outcome == Some(GotConn(x.conn.value))
    requires x.collected ==> x.conn.Some?
    requires p.Holding? || p.Releasing? || p.Finished?
    ensures Structure(s.wants[s.threads[t].w := x], s.threads[t := p], s.locked)
  {
    var w := s.threads[t].w;
    var wants', threads' := s.wants[w := x], s.threads[t := p];
    hide Total, Books;
    OwnsOneWant(s, t);
    forall v | 0 <= v < |wants'|
      ensures WantOk(wants'[v], v, threads')
    {
      assert WantOk(s.wants[v], v, s.threads);
    }
    forall t' | 0 <= t' < |threads'|
      ensures ThreadOk(threads'[t'], t', wants')
    {
      assert ThreadOk(s.threads[t'], t', s.wants);
    }
  }

  /** The same slots and connections, and no claim more. */
  ghost predicate Even(m: Ledger, n: Ledger) {
    m.slots == n.slots && m.conns == n.conns && n.claims <= m.claims
  }

  /** The books when a caller's waiter and the caller itself change. */
  lemma WantBooks(s: State, w: Wid, x: Want, t: Tid, p: Pc)
    requires Books(s) && 0 <= t < |s.threads| && 0 <= w < |s.wants|
    requires Even(WantHas(s.wants[w]).Plus(Has(s.threads[t])), WantHas(x).Plus(Has(p)))
    ensures Books(Goto(s.(wants := s.wants[w := x]), t, p))
  {
    hide Total, Has, WantHas;
    WantAndGoto(s, w, x, t, p);
    BooksAfter(s, WantHas(s.wants[w]).Plus(Has(s.threads[t])), WantHas(x).Plus(Has(p)),
               Goto(s.(wants := s.wants[w := x]), t, p));
  }

  lemma CollectKeeps(s: State, t: Tid)
    requires Inv(s) && 0 <= t < |s.threads| && s.threads[t].Waiting? && 0 <= s.threads[t].w < |s.wants|
    requires s.wants[s.threads[t].w].closes > 0
    ensures Inv(CollectSection(s, t, s.threads[t].w))
  {
    var w := s.threads[t].w;
    var x := s.wants[w];
    if x.conn.Some? {
      hide Books, Total;
      OwnsOneWant(s, t);
      LeaveOk(s, t, x.(collected := true), Holding(x.conn.value));
      CollectBooks(s, t, w, x);
    } else {
      hide Inv;
      TimeoutKeeps(s, t);
    }
  }

  lemma CollectEven(x: Want, w: Wid)
    requires x.Parked()
    ensures Even(WantHas(x).Plus(Has(Waiting(w))), WantHas(x.(collected := true)).Plus(Has(Holding(x.conn.value))))
  {
    assert WantHas(x).Plus(Has(Waiting(w))) == Ledger(1, multiset{x.conn.value}, multiset{});
  }

  lemma CollectBooks(s: State, t: Tid, w: Wid, x: Want)
    requires Books(s) && 0 <= t < |s.threads| && s.threads[t] == Waiting(w) && 0 <= w < |s.wants|
    requires x == s.wants[w] && x.Parked()
    ensures Books(Goto(s.(wants := s.wants[w := x.(collected := true)]), t, Holding(x.conn.value)))
  {
    hide Books, Total, Has, WantHas, Even;
    var x', p := x.(collected := true), Holding(x.conn.value);
    CollectEven(x, w);
    WantBooks(s, w, x', t, p);
  }

  lemma CancelKeeps(s: State, t: Tid)
    requires Inv(s) && 0 <= t < |s.threads| && s.threads[t].Cancelling? && 0 <= s.threads[t].w < |s.wants|
    ensures var x := s.wants[s.threads[t].w];
            Inv(Goto(CancelWant(s, s.threads[t].w), t, if x.conn.Some? then Releasing(x.conn.value) else Finished))
  {
    hide Books, Total;
    var w := s.threads[t].w;
    var x := s.wants[w];
    var p := if x.conn.Some? then Releasing(x.conn.value) else Finished;
    OwnsOneWant(s, t);
    LeaveOk(s, t, CancelWant(s, w).wants[w], p);
    CancelBooks(s, t, w, x, p);
  }

  lemma CancelBooks(s: State, t: Tid, w: Wid, x: Want, p: Pc)
    requires Books(s) && 0 <= t < |s.threads| && s.threads[t] == Cancelling(w) && 0 <= w < |s.wants|
    requires x == s.wants[w] && !x.collected
    requires p == if x.conn.Some? then Releasing(x.conn.value) else Finished
    ensures Books(Goto(CancelWant(s, w), t, p))
  {
    var x' := CancelWant(s, w).wants[w];
    CancelEven(x, x', w, p);
    hide Books, Total, Has, WantHas;
    WantBooks(s, w, x', t, p);
  }

  /** An uncollected connection moves from the waiter to its caller. */
  lemma CancelEven(x: Want, x': Want, w: Wid, p: Pc)
    requires !x.collected && !x'.Parked() && p == if x.conn.Some? then Releasing(x.conn.value) else Finished
    ensures Even(WantHas(x).Plus(Has(Cancelling(w))), WantHas(x').Plus(Has(p)))
  {
    assert Has(Cancelling(w)) == NOTHING == WantHas(x') && WantHas(x) == Has(p);
    hide Has, WantHas;
    PlusNothing(Has(p));
  }

  lemma ReleaseKeeps(s: State, t: Tid)
    requires Inv(s) && 0 <= t < |s.threads| && s.threads[t].Releasing? && s.locked.None?
    ensures Inv(ReleaseSection(s, t, s.threads[t].c))
  {
    var q := if s.waits then DropDone(s.queue, Done(s)) else [];
    DropDoneCounts(s.queue, Done(s));
    hide Done, DropDone, Books, Structure;
    if q == [] {
      MoveOk(s, t, Finished);
      ReleaseBooks(s, t, if s.waits then [] else s.queue);
    } else {
      ReleaseFoundKeeps(s, t, q);
    }
  }

  lemma ReleaseBooks(s: State, t: Tid, q: seq<Wid>)
    requires Books(s) && 0 <= t < |s.threads| && s.threads[t].Releasing? && (q == [] || q == s.queue)
    ensures Books(Goto(s.(conns := s.conns + [s.threads[t].c], queue := q), t, Finished))
  {
    hide Total, Shift, Books;
    var c := s.threads[t].c;
    var u := s.(conns := s.conns + [c], queue := q);
    AppendEven(s.conns, c);
    ShelfAndGoto(s, u, t, Finished);
    BooksEven(s, Shelf(s).Plus(Has(Releasing(c))), Shelf(u).Plus(Has(Finished)), Goto(u, t, Finished));
  }

  lemma AppendEven(cs: seq<Conn>, c: Conn)
    ensures multiset(cs + [c]) + multiset{} == multiset(cs) + multiset{c}
  {
  }

  lemma ReleaseFoundKeeps(s: State, t: Tid, q: seq<Wid>)
    requires Inv(s) && 0 <= t < |s.threads| && s.threads[t].Releasing? && s.locked.None?
    requires q != [] && forall w: Wid :: multiset(q)[w] <= multiset(s.queue)[w]
    ensures Inv(Goto(s.(queue := q[1..], locked := Some(t)), t, Delivering(s.threads[t].c, q[0])))
  {
    hide Books;
    var p := Delivering(s.threads[t].c, q[0]);
    assert q[0] in multiset(q) && q[0] in multiset(s.queue);
    QueuedExist(s, q[0]);
    MoveOk(s, t, p);
    assert Structure(s.wants, s.threads[t := p], Some(t));
    ReleaseFoundBooks(s, t, q);
  }

  lemma ReleaseFoundBooks(s: State, t: Tid, q: seq<Wid>)
    requires Books(s) && 0 <= t < |s.threads| && s.threads[t].Releasing?
    requires q != [] && forall w: Wid :: multiset(q)[w] <= multiset(s.queue)[w]
    ensures Books(Goto(s.(queue := q[1..], locked := Some(t)), t, Delivering(s.threads[t].c, q[0])))
  {
    hide Total, Shift, Books;
    var p := Delivering(s.threads[t].c, q[0]);
    var u := s.(queue := q[1..], locked := Some(t));
    assert q == [q[0]] + q[1..];
    ShelfAndGoto(s, u, t, p);
    BooksDialed(s);
    BooksAfter(s, Shelf(s).Plus(Has(s.threads[t])), Shelf(u).Plus(Has(p)), Goto(u, t, p));
  }

  lemma ShutKeeps(s: State, t: Tid)
    requires Inv(s) && 0 <= t < |s.threads| && s.threads[t].Shutting?
    ensures Inv(Goto(s.(live := s.live - {s.threads[t].c}), t, Closing(s.threads[t].cs)))
  {
    var p, u := Closing(s.threads[t].cs), s.(live := s.live - {s.threads[t].c});
    hide Total;
    MoveOk(s, t, p);
    HeldIsLive(s, t, s.threads[t].c);
    ShutBooks(s, u, t, p);
  }

  lemma ShutBooks(s: State, u: State, t: Tid, p: Pc)
    requires Books(s) && 0 <= t < |s.threads| && s.threads[t].Shutting? && s.threads[t].c in s.live
    requires p == Closing(s.threads[t].cs) && u == s.(live := s.live - {s.threads[t].c})
    ensures Books(Goto(u, t, p))
  {
    hide Total, Shift, Has, Shelf, Books;
    ShelfAndGoto(s, u, t, p);
    ShutLeaves(s, u, s.threads[t].c, s.threads[t].cs);
    BooksDialed(s);
    BooksAfter(s, Shelf(s).Plus(Has(s.threads[t])), Shelf(u).Plus(Has(p)), Goto(u, t, p));
  }

  lemma BooksDialed(s: State)
    requires Books(s)
    ensures s.connsCount <= s.maxConns && forall c :: c in s.live ==> c < s.dialed
  {
    hide Total;
  }

  /** The connection leaves the books as it leaves the open ones. */
  lemma ShutLeaves(s: State, u: State, k: Conn, cs: seq<Conn>)
    requires k in s.live && u == s.(live := s.live - {k})
    ensures var m, n := Shelf(s).Plus(Has(Shutting(k, cs))), Shelf(u).Plus(Has(Closing(cs)));
            && m.slots == n.slots && n.claims == m.claims
            && forall c: Conn :: (if c in u.live then 1 else 0) + m.conns[c] == (if c in s.live then 1 else 0) + n.conns[c]
  {
    hide Has;
    ShutHas(k, cs);
    var a, b := multiset(s.conns), multiset(cs);
    var m, n := Shelf(s).Plus(Has(Shutting(k, cs))), Shelf(u).Plus(Has(Closing(cs)));
    assert m.conns == a + (multiset{k} + b) && n.conns == a + b;
    forall c: Conn
      ensures (if c in u.live then 1 else 0) + m.conns[c] == (if c in s.live then 1 else 0) + n.conns[c]
    {
      ShutAt(a, b, k, s.live, c);
    }
  }

  lemma ShutHas(k: Conn, cs: seq<Conn>)
    ensures Has(Shutting(k, cs)) == Ledger(|cs|, multiset{k} + multiset(cs), multiset{})
    ensures Has(Closing(cs)) == Ledger(|cs|, multiset(cs), multiset{})
  {
  }

  lemma ShutAt(a: multiset<Conn>, b: multiset<Conn>, k: Conn, live: set<Conn>, c: Conn)
    requires k in live
    ensures (if c in live - {k} then 1 else 0) + (a + (multiset{k} + b))[c] == (if c in live then 1 else 0) + (a + b)[c]
  {
  }

  /** What a goroutine holds is open and held once. */
  lemma HeldIsLive(s: State, t: Tid, c: Conn)
    requires Inv(s) && 0 <= t < |s.threads| && c in Has(s.threads[t]).conns
    ensures c in s.live && Has(s.threads[t]).conns[c] == 1
  {
    hide ThreadsHave, WantsHave, Structure;
    ThreadsUpdate(s.threads, t, Finished);
    PlusPointwise(ThreadsHave(s.threads[t := Finished]), Has(s.threads[t]), ThreadsHave(s.threads), Has(Finished));
    assert Total(s).conns[c] >= ThreadsHave(s.threads).conns[c] >= Has(s.threads[t]).conns[c];
  }

  /** Two parties that claim the same waiter show up twice in the books. */
  lemma TwoClaims(ts: seq<Pc>, i: Tid, j: Tid, w: Wid)
    requires 0 <= i < |ts| && 0 <= j < |ts| && i != j
    ensures ThreadsHave(ts).claims[w] >= Has(ts[i]).claims[w] + Has(ts[j]).claims[w]
  {
    hide ThreadsHave;
    var ts' := ts[i := Finished];
    ThreadsUpdate(ts, i, Finished);
    PlusPointwise(ThreadsHave(ts'), Has(ts[i]), ThreadsHave(ts), NOTHING);
    ThreadsUpdate(ts', j, Finished);
    PlusPointwise(ThreadsHave(ts'[j := Finished]), Has(ts[j]), ThreadsHave(ts'), NOTHING);
  }

  /** An undecided waiter that some party is about to serve is past the queueing section. */
  lemma ServedIsWaiting(s: State, t: Tid, w: Wid)
    requires Inv(s) && 0 <= t < |s.threads| && 0 <= w < |s.wants| && s.wants[w].Undecided()
    requires s.threads[t].Delivering? || s.threads[t].HandOver? || s.threads[t].Report?
    requires s.threads[t].to == w
    ensures s.threads[s.wants[w].owner] in {Waiting(w), Cancelling(w)} && s.wants[w].owner != t
  {
    assert WantOk(s.wants[w], w, s.threads);
    hide Books, Total, Structure;
    var o := s.wants[w].owner;
    if s.threads[o] == Queueing(w) {
      OneServer(s, o, t, w);
    }
  }

  /** At most one goroutine has a claim on a waiter. */
  lemma OneServer(s: State, i: Tid, j: Tid, w: Wid)
    requires Books(s) && 0 <= i < |s.threads| && 0 <= j < |s.threads|
    requires w in Has(s.threads[i]).claims && w in Has(s.threads[j]).claims
    ensures i == j
  {
    hide ThreadsHave, WantsHave, Has;
    assert Total(s).claims[w] >= ThreadsHave(s.threads).claims[w];
    if i != j {
      TwoClaims(s.threads, i, j, w);
    }
  }

  /** Deciding a waiter on behalf of its caller, then moving the server on. */
  lemma DecideOk(s: State, t: Tid, w: Wid, x: Want, p: Pc, locked: Option<Tid>)
    requires Inv(s) && 0 <= t < |s.threads| && 0 <= w < |s.wants| && s.wants[w].Undecided()
    requires s.threads[t].Delivering? || s.threads[t].HandOver? || s.threads[t].Report?
    requires s.threads[t].to == w
    requires x == TryFail(s, w).wants[w] || exists c: Conn :: x == TryDeliver(s, w, c).wants[w]
    requires p.Finished? || p.GivingUp?
    requires locked.None? || (locked == s.locked && !s.threads[t].Delivering?)
    ensures Structure(s.wants[w := x], s.threads[t := p], locked)
  {
    ServedIsWaiting(s, t, w);
    OwnsNoWant(s, t);
    hide Total, Books;
    assert WantOk(s.wants[w], w, s.threads);
    assert ThreadOk(s.threads[s.wants[w].owner], s.wants[w].owner, s.wants);
    PutWantOk(s.wants, s.threads, locked, w, x);
    GotoOk(s.wants[w := x], s.threads, locked, t, p);
  }

  lemma DeliverKeeps(s: State, t: Tid)
    requires Inv(s) && 0 <= t < |s.threads| && s.threads[t].Delivering? && 0 <= s.threads[t].to < |s.wants|
    ensures Inv(DeliverSection(s, t, s.threads[t].c, s.threads[t].to))
  {
    hide Books;
    var c, w := s.threads[t].c, s.threads[t].to;
    if s.wants[w].Undecided() {
      DecideOk(s, t, w, TryDeliver(s, w, c).wants[w], Finished, None);
      DeliverBooks(s, t, w, c, Finished);
      UnlockBooks(Goto(TryDeliver(s, w, c), t, Finished));
    } else {
      OwnsNoWant(s, t);
      GotoOk(s.wants, s.threads, None, t, Finished);
      PutBackBooks(s, t, c);
      UnlockBooks(Goto(s.(conns := s.conns + [c]), t, Finished));
    }
  }

  lemma UnlockBooks(s: State)
    requires Books(s)
    ensures Books(s.(locked := None))
  {
    TotalSame(s, s.(locked := None));
    hide Total;
  }

  lemma DeliverBooks(s: State, t: Tid, w: Wid, c: Conn, p: Pc)
    requires Books(s) && 0 <= t < |s.threads| && 0 <= w < |s.wants| && s.wants[w].Undecided() && !s.wants[w].collected
    requires s.threads[t] == Delivering(c, w) || s.threads[t] == HandOver(w, c)
    requires p.Finished?
    ensures Books(Goto(TryDeliver(s, w, c), t, p))
  {
    hide Books, Total, Has, WantHas, Even;
    var x' := TryDeliver(s, w, c).wants[w];
    DeliverEven(s.wants[w], x', s.threads[t], c, w);
    WantBooks(s, w, x', t, p);
  }

  lemma DeliverEven(x: Want, x': Want, p: Pc, c: Conn, w: Wid)
    requires x.Undecided() && x'.Parked() && x'.conn == Some(c) && (p == Delivering(c, w) || p == HandOver(w, c))
    ensures Even(WantHas(x).Plus(Has(p)), WantHas(x').Plus(Has(Finished)))
  {
    var l := Ledger(1, multiset{c}, multiset{});
    assert WantHas(x) == NOTHING && Has(p) == Ledger(1, multiset{c}, multiset{w});
    assert WantHas(x') == l && Has(Finished) == NOTHING;
    hide Has, WantHas;
    PlusNothing(Has(p));
    PlusNothing(l);
  }

  lemma PlusNothing(l: Ledger)
    ensures l.Plus(NOTHING) == l && NOTHING.Plus(l) == l
  {
    assert l.conns + multiset{} == l.conns && multiset{} + l.conns == l.conns;
    assert l.claims + multiset{} == l.claims && multiset{} + l.claims == l.claims;
  }

  lemma PutBackBooks(s: State, t: Tid, c: Conn)
    requires Books(s) && 0 <= t < |s.threads| && s.threads[t].Delivering? && s.threads[t].c == c
    ensures Books(Goto(s.(conns := s.conns + [c]), t, Finished))
  {
    hide Total, Shift, Books;
    var u := s.(conns := s.conns + [c]);
    ShelfAndGoto(s, u, t, Finished);
    PutBackEven(s, c, s.threads[t].to);
    BooksEven(s, Shelf(s).Plus(Has(s.threads[t])), Shelf(u).Plus(Has(Finished)), Goto(u, t, Finished));
  }

  lemma PutBackEven(s: State, c: Conn, w: Wid)
    ensures var m := Shelf(s).Plus(Has(Delivering(c, w)));
            var n := Shelf(s.(conns := s.conns + [c])).Plus(Has(Finished));
            m.slots == n.slots && m.conns == n.conns && n.claims <= m.claims
  {
    AppendEven(s.conns, c);
    var m, n := Shelf(s).Plus(Has(Delivering(c, w))), Shelf(s.(conns := s.conns + [c])).Plus(Has(Finished));
    forall v: Wid
      ensures n.claims[v] <= m.claims[v]
    {
      assert n.claims[v] == multiset(s.queue)[v] && m.claims[v] == multiset(s.queue)[v] + multiset{w}[v];
    }
  }

  lemma HandOverKeeps(s: State, t: Tid)
    requires Inv(s) && 0 <= t < |s.threads| && s.threads[t].HandOver? && 0 <= s.threads[t].to < |s.wants|
    ensures var w, c := s.threads[t].to, s.threads[t].c;
            Inv(Goto(TryDeliver(s, w, c), t, if s.wants[w].Undecided() then Finished else Releasing(c)))
  {
    hide Books;
    var c, w := s.threads[t].c, s.threads[t].to;
    if s.wants[w].Undecided() {
      DecideOk(s, t, w, TryDeliver(s, w, c).wants[w], Finished, s.locked);
      assert WantOk(s.wants[w], w, s.threads);
      DeliverBooks(s, t, w, c, Finished);
    } else {
      MoveOk(s, t, Releasing(c));
      FewerClaimsBooks(s, t, Releasing(c));
    }
  }

  /** A goroutine that keeps its slot and connection may drop a claim. */
  lemma FewerClaimsBooks(s: State, t: Tid, p: Pc)
    requires Books(s) && 0 <= t < |s.threads|
    requires var m, n := Has(s.threads[t]), Has(p);
             m.slots == n.slots && m.conns == n.conns && n.claims <= m.claims
    ensures Books(Goto(s, t, p))
  {
    hide Total, Has;
    GotoTotal(s, t, p);
    BooksEven(s, Has(s.threads[t]), Has(p), Goto(s, t, p));
  }

  lemma ReportKeeps(s: State, t: Tid)
    requires Inv(s) && 0 <= t < |s.threads| && s.threads[t].Report? && 0 <= s.threads[t].to < |s.wants|
    ensures Inv(Goto(TryFail(s, s.threads[t].to), t, GivingUp))
  {
    hide Books;
    var w := s.threads[t].to;
    if s.wants[w].Undecided() {
      DecideOk(s, t, w, TryFail(s, w).wants[w], GivingUp, s.locked);
      ReportBooks(s, t, w);
    } else {
      MoveOk(s, t, GivingUp);
      FewerClaimsBooks(s, t, GivingUp);
    }
  }

  lemma ReportBooks(s: State, t: Tid, w: Wid)
    requires Books(s) && 0 <= t < |s.threads| && 0 <= w < |s.wants| && s.wants[w].Undecided()
    requires s.threads[t] == Report(w)
    ensures Books(Goto(TryFail(s, w), t, GivingUp))
  {
    hide Books, Total;
    var x' := TryFail(s, w).wants[w];
    assert WantHas(s.wants[w]) == NOTHING == WantHas(x');
    assert Has(s.threads[t]) == Ledger(1, multiset{}, multiset{w}) && Has(GivingUp) == Ledger(1, multiset{}, multiset{});
    hide WantHas, Has;
    PlusNothing(Has(s.threads[t]));
    PlusNothing(Has(GivingUp));
    WantBooks(s, w, x', t, GivingUp);
  }

  /** Where `decConnsCount` leaves its caller. */
  function AfterDec(p: Pc): Pc
    requires p.GivingUp? || (p.Closing? && p.cs != [])
  {
    if p.GivingUp? then Finished else Shutting(p.cs[0], p.cs[1..])
  }

  lemma AfterDecHas(p: Pc)
    requires p.GivingUp? || (p.Closing? && p.cs != [])
    ensures Has(p) == Ledger(Has(AfterDec(p)).slots + 1, Has(AfterDec(p)).conns, multiset{})
    ensures Has(AfterDec(p)).claims == multiset{}
  {
    if p.Closing? {
      assert p.cs == [p.cs[0]] + p.cs[1..];
    }
  }

  lemma DecKeeps(s: State, t: Tid)
    requires Inv(s) && 0 <= t < |s.threads| && s.locked.None?
    requires s.threads[t].GivingUp? || (s.threads[t].Closing? && s.threads[t].cs != [])
    ensures Inv(Goto(DecSection(s), t, AfterDec(s.threads[t])))
  {
    var q := if s.waits then DropDone(s.queue, Done(s)) else [];
    DropDoneCounts(s.queue, Done(s));
    hide Done, DropDone, Books;
    MoveOk(s, t, AfterDec(s.threads[t]));
    if q == [] {
      DecBooks(s, t, if s.waits then [] else s.queue);
    } else {
      assert multiset(s.queue)[q[0]] >= multiset(q)[q[0]] >= 1;
      QueuedExist(s, q[0]);
      SpawnOk(s.wants, s.threads[t := AfterDec(s.threads[t])], s.locked, DialFor(q[0]));
      assert (s.threads + [DialFor(q[0])])[t := AfterDec(s.threads[t])] ==
             s.threads[t := AfterDec(s.threads[t])] + [DialFor(q[0])];
      DecHandsOverBooks(s, t, q);
    }
  }

  lemma DecBooks(s: State, t: Tid, q: seq<Wid>)
    requires Books(s) && 0 <= t < |s.threads| && (q == [] || q == s.queue)
    requires s.threads[t].GivingUp? || (s.threads[t].Closing? && s.threads[t].cs != [])
    ensures Books(Goto(s.(connsCount := s.connsCount - 1, queue := q), t, AfterDec(s.threads[t])))
  {
    var p, u := AfterDec(s.threads[t]), s.(connsCount := s.connsCount - 1, queue := q);
    AfterDecHas(s.threads[t]);
    hide Total, Has;
    assert multiset(q) <= multiset(s.queue);
    ShelfAndGoto(s, u, t, p);
    BooksAfter(s, Shelf(s).Plus(Has(s.threads[t])), Shelf(u).Plus(Has(p)), Goto(u, t, p));
  }

  lemma DecHandsOverBooks(s: State, t: Tid, q: seq<Wid>)
    requires Books(s) && 0 <= t < |s.threads| && q != []
    requires s.threads[t].GivingUp? || (s.threads[t].Closing? && s.threads[t].cs != [])
    requires forall w: Wid :: multiset(q)[w] <= multiset(s.queue)[w]
    ensures Books(Goto(Spawn(s.(queue := q[1..]), DialFor(q[0])), t, AfterDec(s.threads[t])))
  {
    var p, u := AfterDec(s.threads[t]), s.(queue := q[1..]);
    var v := Spawn(u, DialFor(q[0]));
    AfterDecHas(s.threads[t]);
    hide Total, Books, Has, Shift, Shelf;
    ShelfSpawnGoto(s, u, DialFor(q[0]), t, p);
    HandsOverEven(s, q, Has(s.threads[t]), Has(p));
    HandsOverBooks(s, Shelf(s).Plus(NOTHING).Plus(Has(s.threads[t])),
                   Shelf(u).Plus(Has(DialFor(q[0]))).Plus(Has(p)), Goto(v, t, p));
  }

  lemma HandsOverBooks(s: State, m: Ledger, n: Ledger, s': State)
    requires Books(s) && Shift(Total(s), m, n, Total(s'))
    requires m.slots == n.slots && m.conns == n.conns && n.claims <= m.claims
    requires s' == s.(queue := s'.queue, threads := s'.threads)
    ensures Books(s')
  {
    hide Total, Books, Shift;
    BooksEven(s, m, n, s');
  }

  /** The books after the shelf changed, a goroutine was started and another one moved on. */
  lemma ShelfSpawnGoto(s: State, u: State, x: Pc, t: Tid, p: Pc)
    requires 0 <= t < |s.threads| && u.threads == s.threads && u.wants == s.wants
    ensures Shift(Total(s), Shelf(s).Plus(NOTHING).Plus(Has(s.threads[t])), Shelf(u).Plus(Has(x)).Plus(Has(p)),
                  Total(Goto(Spawn(u, x), t, p)))
  {
    hide Total, Has, Shift, Shelf;
    var v := Spawn(u, x);
    ShelfAndSpawn(s, u, x);
    assert v.threads[t] == s.threads[t];
    GotoTotal(v, t, p);
    ShiftThen(Total(s), Shelf(s).Plus(NOTHING), Shelf(u).Plus(Has(x)), Total(v), Has(s.threads[t]), Has(p), Total(Goto(v, t, p)));
  }

  /** The slot moves from the caller to the new dialer, the claim from the queue to it. */
  lemma HandsOverEven(s: State, q: seq<Wid>, h: Ledger, h': Ledger)
    requires q != [] && forall w: Wid :: multiset(q)[w] <= multiset(s.queue)[w]
    requires h == Ledger(h'.slots + 1, h'.conns, multiset{}) && h'.claims == multiset{}
    ensures var m := Shelf(s).Plus(NOTHING).Plus(h);
            var n := Shelf(s.(queue := q[1..])).Plus(Has(DialFor(q[0]))).Plus(h');
            m.slots == n.slots && m.conns == n.conns && n.claims <= m.claims
  {
    assert q == [q[0]] + q[1..];
    var m, n := Shelf(s).Plus(NOTHING).Plus(h), Shelf(s.(queue := q[1..])).Plus(Has(DialFor(q[0]))).Plus(h');
    assert multiset(q) == multiset{q[0]} + multiset(q[1..]);
    forall w: Wid
      ensures n.claims[w] <= m.claims[w]
    {
      assert n.claims[w] == multiset(q)[w] && m.claims[w] == multiset(s.queue)[w];
    }
  }

  // ---------------------------------------------------------------- every run

  lemma InitInv(maxConns: int, waits: bool)
    ensures Inv(Init(maxConns, waits))
  {
    hide Books;
    EmptyBooks(Init(maxConns, waits));
  }

  lemma EmptyBooks(s: State)
    requires s.conns == [] && s.queue == [] && s.threads == [] && s.wants == []
    requires s.connsCount == 0 && s.live == {}
    ensures Books(s)
  {
    hide Total;
    EmptyTotal(s);
    forall c: Conn
      ensures Total(s).conns[c] == if c in s.live then 1 else 0
    {
    }
    forall w: Wid
      ensures Total(s).claims[w] <= if 0 <= w < |s.wants| then 1 else 0
    {
    }
  }

  lemma EmptyTotal(s: State)
    requires s.conns == [] && s.queue == [] && s.threads == [] && s.wants == []
    ensures Total(s) == Ledger(0, multiset{}, multiset{})
  {
    assert Shelf(s) == NOTHING;
    assert ThreadsHave([]) == NOTHING && WantsHave([]) == NOTHING;
    PlusNothing(NOTHING);
  }

  lemma BeginCloseKeeps(s: State, t: Tid)
    requires Inv(s) && 0 <= t < |s.threads| && s.threads[t].Holding?
    ensures Inv(Goto(s, t, Closing([s.threads[t].c])))
  {
    hide Inv;
    assert multiset([s.threads[t].c]) == multiset{s.threads[t].c};
    MoveKeeps(s, t, Closing([s.threads[t].c]));
  }

  /** Actions of `acquireConn` and of the holder of a connection. */
  lemma CallerKeeps(s: State, a: Action)
    requires Inv(s) && Enabled(s, a)
    requires a.DialOk? || a.DialFail? || a.Enqueue? || a.Collect? || a.Timeout? || a.Cancel? || a.BeginRelease? || a.BeginClose?
    ensures Inv(Next(s, a))
  {
    hide Inv, Has;
    var t := a.t;
    var p := s.threads[t];
    match a {
      case DialOk(_) => DialedKeeps(s, t, Holding(s.dialed));
      case DialFail(_) => SameHas(p, GivingUp); MoveKeeps(s, t, GivingUp);
      case Enqueue(_) => EnqueueKeeps(s, t);
      case Collect(_) => CollectKeeps(s, t);
      case Timeout(_) => TimeoutKeeps(s, t);
      case Cancel(_) => CancelKeeps(s, t);
      case BeginRelease(_) => SameHas(p, Releasing(p.c)); MoveKeeps(s, t, Releasing(p.c));
      case BeginClose(_) => BeginCloseKeeps(s, t);
    }
  }

  lemma SameHas(p: Pc, q: Pc)
    requires (p.Dialing? && q.GivingUp?) || (p.Holding? && q == Releasing(p.c)) || (p.DialFor? && q == Report(p.to))
    ensures Has(p) == Has(q)
  {
  }

  /** Actions of `releaseConn`, `closeConn`, `decConnsCount` and `dialConnFor`. */
  lemma ServerKeeps(s: State, a: Action)
    requires Inv(s) && Enabled(s, a)
    requires a.Release? || a.Deliver? || a.Dec? || a.Shut? || a.DialForOk? || a.DialForFail? || a.HandOverTo? || a.ReportTo?
    ensures Inv(Next(s, a))
  {
    hide Inv, Has;
    var t := a.t;
    var p := s.threads[t];
    match a {
      case Release(_) => ReleaseKeeps(s, t);
      case Deliver(_) => DeliverKeeps(s, t);
      case Dec(_) => DecKeeps(s, t);
      case Shut(_) => ShutKeeps(s, t);
      case DialForOk(_) => DialedKeeps(s, t, HandOver(p.to, s.dialed));
      case DialForFail(_) => SameHas(p, Report(p.to)); MoveKeeps(s, t, Report(p.to));
      case HandOverTo(_) => HandOverKeeps(s, t);
      case ReportTo(_) => ReportKeeps(s, t);
    }
  }

  /** Every action keeps the invariant. */
  lemma NextKeeps(s: State, a: Action)
    requires Inv(s) && Enabled(s, a)
    ensures Inv(Next(s, a))
  {
    hide Inv;
    match a {
      case Acquire(lifo) => AcquireKeeps(s, lifo);
      case TakeIdle(n) => TakeIdleKeeps(s, n);
      case Release(_) => ServerKeeps(s, a);
      case Deliver(_) => ServerKeeps(s, a);
      case Dec(_) => ServerKeeps(s, a);
      case Shut(_) => ServerKeeps(s, a);
      case DialForOk(_) => ServerKeeps(s, a);
      case DialForFail(_) => ServerKeeps(s, a);
      case HandOverTo(_) => ServerKeeps(s, a);
      case ReportTo(_) => ServerKeeps(s, a);
      case _ => CallerKeeps(s, a);
    }
  }

  /** The invariant holds after every interleaving. */
  lemma {:induction false} RunsKeepInv(maxConns: int, waits: bool, run: seq<Action>)
    requires Exec(maxConns, waits, run).Some?
    ensures Inv(Exec(maxConns, waits, run).value)
    decreases |run|
  {
    hide Inv;
    if run == [] {
      InitInv(maxConns, waits);
    } else {
      var prefix := run[..|run| - 1];
      RunsKeepInv(maxConns, waits, prefix);
      NextKeeps(Exec(maxConns, waits, prefix).value, run[|run| - 1]);
    }
  }

  // ---------------------------------------------------------------- what it means

  /** A place where a connection can be. */
  datatype Place = Idle(i: int) | InHand(t: Tid) | Delivered(w: Wid)

  ghost predicate IsAt(s: State, c: Conn, p: Place) {
    match p
    case Idle(i) => 0 <= i < |s.conns| && s.conns[i] == c
    case InHand(t) => 0 <= t < |s.threads| && c in Has(s.threads[t]).conns
    case Delivered(w) => 0 <= w < |s.wants| && s.wants[w].Parked() && s.wants[w].conn.value == c
  }

  lemma {:induction false} ThreadsHold(ts: seq<Pc>, c: Conn)
    ensures ThreadsHave(ts).conns[c] >= 0
    ensures ThreadsHave(ts).conns[c] > 0 ==> exists t :: 0 <= t < |ts| && c in Has(ts[t]).conns
  {
    if ts != [] {
      var n := |ts| - 1;
      ThreadsHold(ts[..n], c);
      hide Has;
      if c in Has(ts[n]).conns {
      } else if ThreadsHave(ts[..n]).conns[c] > 0 {
        var t :| 0 <= t < |ts[..n]| && c in Has(ts[..n][t]).conns;
        assert c in Has(ts[t]).conns;
      }
    }
  }

  lemma {:induction false} WantsHold(ws: seq<Want>, c: Conn)
    ensures WantsHave(ws).conns[c] > 0 ==> exists w :: 0 <= w < |ws| && c in WantHas(ws[w]).conns
  {
    if ws != [] {
      var n := |ws| - 1;
      WantsHold(ws[..n], c);
      hide WantHas;
      if c in WantHas(ws[n]).conns {
      } else if WantsHave(ws[..n]).conns[c] > 0 {
        var w :| 0 <= w < |ws[..n]| && c in WantHas(ws[..n][w]).conns;
        assert c in WantHas(ws[w]).conns;
      }
    }
  }

  /** No open connection is lost. */
  lemma LiveIsSomewhere(s: State, c: Conn)
    requires Inv(s) && c in s.live
    ensures exists p :: IsAt(s, c, p)
  {
    hide ThreadsHave, WantsHave, Structure, Has;
    ThreadsHold(s.threads, c);
    WantsHold(s.wants, c);
    assert Total(s).conns[c] == multiset(s.conns)[c] + ThreadsHave(s.threads).conns[c] + WantsHave(s.wants).conns[c];
    if multiset(s.conns)[c] > 0 {
      assert c in s.conns;
      var i :| 0 <= i < |s.conns| && s.conns[i] == c;
      assert IsAt(s, c, Idle(i));
    } else if ThreadsHave(s.threads).conns[c] > 0 {
      var t :| 0 <= t < |s.threads| && c in Has(s.threads[t]).conns;
      assert IsAt(s, c, InHand(t));
    } else {
      var w :| 0 <= w < |s.wants| && c in WantHas(s.wants[w]).conns;
      assert IsAt(s, c, Delivered(w));
    }
  }

  lemma TwoIdle(cs: seq<Conn>, i: int, j: int)
    requires 0 <= i < j < |cs| && cs[i] == cs[j]
    ensures multiset(cs)[cs[i]] >= 2
  {
    var l, r := cs[..j], cs[j..];
    assert cs == l + r && l[i] == cs[i] && r[0] == cs[j];
    assert multiset(cs)[cs[i]] == multiset(l)[cs[i]] + multiset(r)[cs[i]];
  }

  lemma ThreadsAtLeast(ts: seq<Pc>, i: Tid, j: Tid, c: Conn)
    requires 0 <= i < |ts| && 0 <= j < |ts|
    ensures ThreadsHave(ts).conns[c] >= Has(ts[i]).conns[c] + (if i == j then 0 else Has(ts[j]).conns[c])
  {
    hide ThreadsHave;
    var ts' := ts[i := Finished];
    ThreadsUpdate(ts, i, Finished);
    PlusPointwise(ThreadsHave(ts'), Has(ts[i]), ThreadsHave(ts), NOTHING);
    if i != j {
      ThreadsUpdate(ts', j, Finished);
      PlusPointwise(ThreadsHave(ts'[j := Finished]), Has(ts[j]), ThreadsHave(ts'), NOTHING);
    }
  }

  lemma WantsAtLeast(ws: seq<Want>, i: Wid, j: Wid, c: Conn)
    requires 0 <= i < |ws| && 0 <= j < |ws|
    ensures WantsHave(ws).conns[c] >= WantHas(ws[i]).conns[c] + (if i == j then 0 else WantHas(ws[j]).conns[c])
  {
    hide WantsHave;
    var none := NewWant(0);
    var ws' := ws[i := none];
    WantsUpdate(ws, i, none);
    PlusPointwise(WantsHave(ws'), WantHas(ws[i]), WantsHave(ws), NOTHING);
    if i != j {
      WantsUpdate(ws', j, none);
      PlusPointwise(WantsHave(ws'[j := none]), WantHas(ws[j]), WantsHave(ws'), NOTHING);
    }
  }

  /** How often a place of one kind shows up in the books. */
  lemma PlaceCounts(s: State, c: Conn, p: Place, q: Place)
    requires IsAt(s, c, p) && IsAt(s, c, q) && p != q
    ensures multiset(s.conns)[c] + ThreadsHave(s.threads).conns[c] + WantsHave(s.wants).conns[c] >= 2
  {
    hide ThreadsHave, WantsHave, Has;
    match (p, q) {
      case (Idle(i), Idle(j)) => TwoIdle(s.conns, if i < j then i else j, if i < j then j else i);
      case (Idle(i), InHand(t)) => ThreadsAtLeast(s.threads, t, t, c); assert c in multiset(s.conns);
      case (Idle(i), Delivered(w)) => WantsAtLeast(s.wants, w, w, c); assert c in multiset(s.conns);
      case (InHand(t), Idle(i)) => ThreadsAtLeast(s.threads, t, t, c); assert c in multiset(s.conns);
      case (InHand(t), InHand(t')) => ThreadsAtLeast(s.threads, t, t', c);
      case (InHand(t), Delivered(w)) => ThreadsAtLeast(s.threads, t, t, c); WantsAtLeast(s.wants, w, w, c);
      case (Delivered(w), Idle(i)) => WantsAtLeast(s.wants, w, w, c); assert c in multiset(s.conns);
      case (Delivered(w), InHand(t)) => ThreadsAtLeast(s.threads, t, t, c); WantsAtLeast(s.wants, w, w, c);
      case (Delivered(w), Delivered(w')) => WantsAtLeast(s.wants, w, w', c);
    }
  }

  /** No connection is in two places. */
  lemma OnePlace(s: State, c: Conn, p: Place, q: Place)
    requires Inv(s) && IsAt(s, c, p) && IsAt(s, c, q)
    ensures p == q
  {
    hide ThreadsHave, WantsHave, Structure, IsAt;
    assert Total(s).conns[c] == multiset(s.conns)[c] + ThreadsHave(s.threads).conns[c] + WantsHave(s.wants).conns[c];
    if p != q {
      PlaceCounts(s, c, p, q);
    }
  }

  /** Safety over every interleaving: the count is exact and within the limit, every open
      connection is in exactly one place, every waiter is decided and its channel closed at most
      once, and one whose caller has left is decided. */
  lemma PoolSafety(maxConns: int, waits: bool, run: seq<Action>)
    requires Exec(maxConns, waits, run).Some?
    ensures var s := Exec(maxConns, waits, run).value;
            && s.connsCount == |s.conns| + ThreadsHave(s.threads).slots + WantsHave(s.wants).slots
            && s.connsCount <= s.maxConns
            && (forall c :: c in s.live ==> exists p :: IsAt(s, c, p))
            && (forall c, p, q :: IsAt(s, c, p) && IsAt(s, c, q) ==> p == q)
            && (forall w :: 0 <= w < |s.wants| ==>
                 s.wants[w].closes <= 1 && (s.wants[w].closes == 1 <==> s.wants[w].outcome.Some?))
            && (forall w :: 0 <= w < |s.wants| ==> 0 <= s.wants[w].owner < |s.threads|)
            && (forall w :: 0 <= w < |s.wants| && s.wants[w].outcome.None? ==>
                 s.threads[s.wants[w].owner] in {Queueing(w), Waiting(w), Cancelling(w)})
  {
    hide Inv, Exec, IsAt, ThreadsHave, WantsHave;
    RunsKeepInv(maxConns, waits, run);
    var s := Exec(maxConns, waits, run).value;
    CountIsExact(s);
    WaitersDecidedOnce(s);
    forall c | c in s.live
      ensures exists p :: IsAt(s, c, p)
    {
      LiveIsSomewhere(s, c);
    }
    forall c, p, q | IsAt(s, c, p) && IsAt(s, c, q)
      ensures p == q
    {
      OnePlace(s, c, p, q);
    }
  }

  lemma CountIsExact(s: State)
    requires Inv(s)
    ensures s.connsCount == |s.conns| + ThreadsHave(s.threads).slots + WantsHave(s.wants).slots <= s.maxConns
  {
    hide Structure;
  }

  lemma WaitersDecidedOnce(s: State)
    requires Inv(s)
    ensures forall w :: 0 <= w < |s.wants| ==>
      s.wants[w].closes <= 1 && (s.wants[w].closes == 1 <==> s.wants[w].outcome.Some?)
    ensures forall w :: 0 <= w < |s.wants| ==> 0 <= s.wants[w].owner < |s.threads|
    ensures forall w :: 0 <= w < |s.wants| && s.wants[w].outcome.None? ==>
      s.threads[s.wants[w].owner] in {Queueing(w), Waiting(w), Cancelling(w)}
  {
    hide Books;
    assert forall w :: 0 <= w < |s.wants| ==> WantOk(s.wants[w], w, s.threads);
  }

  /** A decision is final: later actions neither change the outcome nor close the channel again. */
  lemma OutcomeIsFinal(s: State, a: Action, w: Wid)
    requires Inv(s) && Enabled(s, a) && 0 <= w < |s.wants| && s.wants[w].outcome.Some?
    ensures |Next(s, a).wants| >= |s.wants| && Next(s, a).wants[w].outcome == s.wants[w].outcome
    ensures Next(s, a).wants[w].closes == 1
  {
    hide Books, Total, DropDone, Done, Structure;
    WantIsOk(s, w);
  }

  /** Whatever happens later in a run, a waiter keeps the outcome it got. */
  lemma {:induction false} DecidedForGood(maxConns: int, waits: bool, run: seq<Action>, n: nat, w: Wid)
    requires n <= |run| && Exec(maxConns, waits, run).Some?
    requires Exec(maxConns, waits, run[..n]).Some? && 0 <= w < |Exec(maxConns, waits, run[..n]).value.wants|
    requires Exec(maxConns, waits, run[..n]).value.wants[w].outcome.Some?
    ensures var s, s' := Exec(maxConns, waits, run[..n]).value, Exec(maxConns, waits, run).value;
            w < |s'.wants| && s'.wants[w].outcome == s.wants[w].outcome
    decreases |run|
  {
    hide Inv, Next, Enabled;
    if n == |run| {
      assert run[..n] == run;
    } else {
      var prefix := run[..|run| - 1];
      assert prefix[..n] == run[..n];
      DecidedForGood(maxConns, waits, prefix, n, w);
      RunsKeepInv(maxConns, waits, prefix);
      OutcomeIsFinal(Exec(maxConns, waits, prefix).value, run[|run| - 1], w);
    }
  }

  lemma WantIsOk(s: State, w: Wid)
    requires Inv(s) && 0 <= w < |s.wants|
    ensures WantOk(s.wants[w], w, s.threads)
  {
    hide Books, Total;
  }

  lemma ExecMore(maxConns: int, waits: bool, run: seq<Action>, a: Action)
    requires Exec(maxConns, waits, run).Some? && Enabled(Exec(maxConns, waits, run).value, a)
    ensures Exec(maxConns, waits, run + [a]) == Some(Next(Exec(maxConns, waits, run).value, a))
  {
    assert (run + [a])[..|run|] == run;
  }

  /** The race does happen: a run in which a release picks a waiter, the waiter times out, the
      connection is delivered all the same, and the cancelling caller has it to release. */
  lemma LateDeliveryHappens() returns (run: seq<Action>)
    ensures Exec(1, true, run).Some? && Exec(1, true, run).value.threads == [Finished, Releasing(0)]
  {
    hide Exec;
    run := UpToRelease();
    ExecMore(1, true, run, Timeout(1));
    run := run + [Timeout(1)];
    ExecMore(1, true, run, Deliver(0));
    run := run + [Deliver(0)];
    ExecMore(1, true, run, Cancel(1));
    run := run + [Cancel(1)];
  }

  lemma UpToRelease() returns (run: seq<Action>)
    ensures Exec(1, true, run).Some?
    ensures var s := Exec(1, true, run).value;
            s.threads == [Delivering(0, 0), Waiting(0)] && s.wants == [NewWant(1)] && s.locked == Some(0)
  {
    run := UpToQueued();
    hide Exec;
    ExecMore(1, true, run, BeginRelease(0));
    run := run + [BeginRelease(0)];
    ExecMore(1, true, run, Release(0));
    run := run + [Release(0)];
  }

  lemma UpToQueued() returns (run: seq<Action>)
    ensures Exec(1, true, run).Some?
    ensures var s := Exec(1, true, run).value;
            && s.threads == [Holding(0), Waiting(0)] && s.wants == [NewWant(1)] && s.queue == [0]
            && s.waits && s.locked == None
  {
    run := [];
    ExecMore(1, true, run, Acquire(true));
    run := run + [Acquire(true)];
    hide Exec;
    ExecMore(1, true, run, DialOk(0));
    run := run + [DialOk(0)];
    ExecMore(1, true, run, Acquire(true));
    run := run + [Acquire(true)];
    ExecMore(1, true, run, Enqueue(1));
    run := run + [Enqueue(1)];
  }

  // ---------------------------------------------------------------- deliveries that come too late

  /** Connection `c` was delivered to waiter `w` while its caller `t` was timing out, and the caller
      has not released it yet. */
  ghost predicate ComesBack(s: State, t: Tid, w: Wid, c: Conn) {
    && 0 <= t < |s.threads| && 0 <= w < |s.wants| && s.wants[w].closes > 0
    && ((s.threads[t] == Cancelling(w) && s.wants[w].conn == Some(c)) || s.threads[t] == Releasing(c))
  }

  /** The release of `c` by `t` put it into the pool, or it is on its way to another waiter who is
      still waiting. */
  ghost predicate CameBack(s: State, t: Tid, w: Wid, c: Conn) {
    && 0 <= t < |s.threads|
    && ((s.threads[t] == Finished && c in s.conns) ||
        (exists v :: v != w && 0 <= v < |s.wants| && s.wants[v].closes == 0 && s.threads[t] == Delivering(c, v)))
  }

  /** Nobody else takes such a connection, and its release brings it back. */
  lemma ComesBackStep(s: State, a: Action, t: Tid, w: Wid, c: Conn)
    requires Inv(s) && Enabled(s, a) && ComesBack(s, t, w, c)
    ensures if a == Release(t) then CameBack(Next(s, a), t, w, c) else ComesBack(Next(s, a), t, w, c)
  {
    hide Books, Structure, ComesBack, CameBack, ReleaseSection, DropDone, Done;
    if a == Release(t) {
      IsReleasing(s, t, w, c);
      ReleaseComesBack(s, t, w, c);
    } else if !a.Acquire? && !a.TakeIdle? && a.t == t {
      CallerComesBack(s, a, t, w, c);
    } else {
      OthersLeaveIt(s, a, t, w, c);
    }
  }

  lemma IsReleasing(s: State, t: Tid, w: Wid, c: Conn)
    requires ComesBack(s, t, w, c) && s.threads[t].Releasing?
    ensures 0 <= t < |s.threads| && s.threads[t] == Releasing(c) && 0 <= w < |s.wants| && s.wants[w].closes > 0
  {
  }

  /** The caller itself can only cancel, and release. */
  lemma CallerComesBack(s: State, a: Action, t: Tid, w: Wid, c: Conn)
    requires !a.Acquire? && !a.TakeIdle? && a.t == t && a != Release(t) && Enabled(s, a) && ComesBack(s, t, w, c)
    ensures ComesBack(Next(s, a), t, w, c)
  {
    hide DropDone, Done;
    assert a.Cancel?;
  }

  /** What another goroutine does leaves the caller and a decided waiter of his as they are. */
  lemma OthersLeaveIt(s: State, a: Action, t: Tid, w: Wid, c: Conn)
    requires Inv(s) && Enabled(s, a) && ComesBack(s, t, w, c) && (a.Acquire? || a.TakeIdle? || a.t != t)
    ensures ComesBack(Next(s, a), t, w, c)
  {
    hide Inv, Next, Enabled, EnabledIn;
    OthersStay(s, a, t);
    DecidedHasOutcome(s, w);
    OutcomeIsFinal(s, a, w);
    if s.threads[t] == Cancelling(w) {
      ConnStays(s, a, t, w);
    }
  }

  lemma DecidedHasOutcome(s: State, w: Wid)
    requires Inv(s) && 0 <= w < |s.wants| && s.wants[w].closes > 0
    ensures s.wants[w].outcome.Some?
  {
    hide Books, Structure;
    WantIsOk(s, w);
  }

  lemma OthersStay(s: State, a: Action, t: Tid)
    requires Enabled(s, a) && (a.Acquire? || a.TakeIdle? || a.t != t) && 0 <= t < |s.threads|
    ensures t < |Next(s, a).threads| && Next(s, a).threads[t] == s.threads[t]
  {
    hide DropDone, Done;
  }

  /** Only its own caller takes a delivered connection from a waiter. */
  lemma ConnStays(s: State, a: Action, t: Tid, w: Wid)
    requires Inv(s) && Enabled(s, a) && (a.Acquire? || a.TakeIdle? || a.t != t)
    requires 0 <= t < |s.threads| && s.threads[t] == Cancelling(w) && 0 <= w < |s.wants| && s.wants[w].conn.Some?
    ensures w < |Next(s, a).wants| && Next(s, a).wants[w].conn == s.wants[w].conn
  {
    hide Books, Structure, DropDone, Done;
    ThreadIsOk(s, t);
    if !a.Acquire? && !a.TakeIdle? {
      ThreadIsOk(s, a.t);
    }
  }

  lemma ThreadIsOk(s: State, t: Tid)
    requires Inv(s) && 0 <= t < |s.threads|
    ensures ThreadOk(s.threads[t], t, s.wants)
  {
    hide Books, Total;
  }

  lemma ReleaseComesBack(s: State, t: Tid, w: Wid, c: Conn)
    requires Books(s) && 0 <= t < |s.threads| && s.threads[t] == Releasing(c)
    requires 0 <= w < |s.wants| && s.wants[w].closes > 0
    ensures CameBack(ReleaseSection(s, t, c), t, w, c)
  {
    hide Books, DropDone;
    var q := if s.waits then DropDone(s.queue, Done(s)) else [];
    if q != [] {
      DropDoneFacts(s.queue, Done(s));
      assert q[0] in s.queue && q[0] !in Done(s);
      QueuedExist(s, q[0]);
      assert ReleaseSection(s, t, c).threads[t] == Delivering(c, q[0]);
    }
  }

  /** Over every run: from the delivery on, the connection is with its waiter or its caller, until
      the caller releases it into the pool or to another waiter. */
  lemma {:induction false} LateDeliveryIsReturned(
      maxConns: int, waits: bool, run: seq<Action>, n: nat, t: Tid, w: Wid, c: Conn)
    requires n <= |run| && Exec(maxConns, waits, run).Some? && Exec(maxConns, waits, run[..n]).Some?
    requires ComesBack(Exec(maxConns, waits, run[..n]).value, t, w, c)
    ensures ComesBack(Exec(maxConns, waits, run).value, t, w, c) ||
            exists k :: n <= k < |run| && run[k] == Release(t) && Exec(maxConns, waits, run[..k + 1]).Some? &&
              CameBack(Exec(maxConns, waits, run[..k + 1]).value, t, w, c)
    decreases |run|
  {
    hide Inv, Next, Enabled, ComesBack, CameBack;
    if n == |run| {
      assert run[..n] == run;
    } else {
      var m := |run| - 1;
      var prefix := run[..m];
      assert prefix[..n] == run[..n];
      LateDeliveryIsReturned(maxConns, waits, prefix, n, t, w, c);
      if ComesBack(Exec(maxConns, waits, prefix).value, t, w, c) {
        RunsKeepInv(maxConns, waits, prefix);
        ComesBackStep(Exec(maxConns, waits, prefix).value, run[m], t, w, c);
        assert run[..m + 1] == run;
      } else {
        var k :| n <= k < m && prefix[k] == Release(t) && Exec(maxConns, waits, prefix[..k + 1]).Some? &&
          CameBack(Exec(maxConns, waits, prefix[..k + 1]).value, t, w, c);
        assert prefix[..k + 1] == run[..k + 1] && run[k] == Release(t);
      }
    }
  }
}
