/** The worker pool of the server (fasthttp/workerpool.go) as a state machine over its acceptors,
    workers and cleaner. One action is one `lock` section, one channel operation, or one call of
    the serve handler. A worker's channel holds at most one message. Time passes between actions; a
    worker notes the time of its last use before it takes the lock to become ready again. */
module WorkerPool {
  import opened Basics

  type Wid = int
  type Conn = int

  /** A message on a worker's channel: a connection, or nil which tells the worker to stop. */
  datatype Msg = Job(c: Conn) | Quit

  datatype Pc =
    | Idle           // receiving from its channel
    | Serving(c: Conn)
    | Releasing      // before the lock section of release
    | Exiting        // before the last lock section of workerFunc
    | Gone

  datatype Worker = Worker(pc: Pc, box: Option<Msg>, lastUse: int)

  /** A channel send that is still to happen: `Serve` after getCh, or `clean` outside its lock. */
  datatype Send = Send(to: Wid, msg: Msg)

  datatype State = State(
    maxWorkers: nat,
    workersCount: int,
    mustStop: bool,
    ready: seq<Wid>,
    workers: seq<Worker>,
    sends: seq<Send>,
    calls: nat,  // Serve calls so far; the n-th call brings connection n
    refused: set<Conn>,
    received: seq<Conn>,  // connections in the order workers took them
    now: int)

  datatype Action =
    | Serve
    | Put(i: nat)
    | Receive(w: Wid)
    | Finish(w: Wid)
    | Release(w: Wid)
    | Exit(w: Wid)
    | Clean(critical: int)
    | Stop
    | Tick

  function Init(maxWorkers: nat): State {
    State(maxWorkers, 0, false, [], [], [], 0, {}, [], 0)
  }

  /** `getCh` with the lock: the most recently used worker, a new one, or none. */
  function ServeSection(s: State): State {
    var c := s.calls;
    var s1 := s.(calls := c + 1);
    var n := |s.ready| - 1;
    if n >= 0 then s1.(ready := s.ready[..n], sends := s.sends + [Send(s.ready[n], Job(c))])
    else if s.workersCount < s.maxWorkers then
      s1.(workersCount := s.workersCount + 1, workers := s.workers + [Worker(Idle, None, 0)],
          sends := s.sends + [Send(|s.workers|, Job(c))])
    else s1.(refused := s.refused + {c})
  }

  function QuitAll(ws: seq<Wid>): seq<Send> {
    seq(|ws|, i requires 0 <= i < |ws| => Send(ws[i], Quit))
  }

  /** `Stop` with the lock: every ready worker finds nil in its channel. */
  function PutQuit(workers: seq<Worker>, ready: seq<Wid>): seq<Worker> {
    seq(|workers|, w requires 0 <= w < |workers| =>
      if w in ready then workers[w].(box := Some(Quit)) else workers[w])
  }

  predicate HasWorkers(s: State) {
    forall i :: 0 <= i < |s.ready| ==> 0 <= s.ready[i] < |s.workers|
  }

  /** When the ready workers were last used. */
  function LastUses(s: State): seq<int>
    requires HasWorkers(s)
  {
    seq(|s.ready|, i requires 0 <= i < |s.ready| => s.workers[s.ready[i]].lastUse)
  }

  /** The binary search of `clean`, with `ready[l..r + 1]` still to search: how many workers in
      front of `ready` it takes for obsolete. It stops between an obsolete worker and one that is
      not, or at an end. */
  function CutBetween(lastUse: seq<int>, critical: int, l: int, r: int): (n: nat)
    requires 0 <= l <= r + 1 <= |lastUse|
    requires 0 < l ==> lastUse[l - 1] < critical
    requires r + 1 < |lastUse| ==> critical <= lastUse[r + 1]
    ensures n <= |lastUse|
    ensures 0 < n ==> lastUse[n - 1] < critical
    ensures n < |lastUse| ==> critical <= lastUse[n]
    decreases r - l + 1
  {
    if l > r then r + 1
    else
      var mid := (l + r) / 2;
      if critical > lastUse[mid] then CutBetween(lastUse, critical, mid + 1, r)
      else CutBetween(lastUse, critical, l, mid - 1)
  }

  function Cut(lastUse: seq<int>, critical: int): (n: nat)
    ensures n <= |lastUse|
  {
    CutBetween(lastUse, critical, 0, |lastUse| - 1)
  }

  ghost predicate At(s: State, w: Wid, pc: Pc) {
    0 <= w < |s.workers| && s.workers[w].pc == pc
  }

  ghost predicate Enabled(s: State, a: Action) {
    match a
    case Serve => true
    case Put(i) => i < |s.sends| && 0 <= s.sends[i].to < |s.workers| && s.workers[s.sends[i].to].box.None?
    case Receive(w) => At(s, w, Idle) && s.workers[w].box.Some?
    case Finish(w) => 0 <= w < |s.workers| && s.workers[w].pc.Serving?
    case Release(w) => At(s, w, Releasing)
    case Exit(w) => At(s, w, Exiting)
    case Clean(critical) => critical <= s.now && HasWorkers(s)
    case Stop => true
    case Tick => true
  }

  function Goto(s: State, w: Wid, x: Worker): State
    requires 0 <= w < |s.workers|
  {
    s.(workers := s.workers[w := x])
  }

  function ReceiveSection(s: State, w: Wid): State
    requires 0 <= w < |s.workers| && s.workers[w].box.Some?
  {
    match s.workers[w].box.value
    case Quit => Goto(s, w, s.workers[w].(pc := Exiting, box := None))
    case Job(c) => Goto(s.(received := s.received + [c]), w, s.workers[w].(pc := Serving(c), box := None))
  }

  ghost function Next(s: State, a: Action): State
    requires Enabled(s, a)
  {
    match a
    case Serve => ServeSection(s)
    case Put(i) =>
      var x := s.sends[i];
      Goto(s.(sends := s.sends[..i] + s.sends[i + 1..]), x.to, s.workers[x.to].(box := Some(x.msg)))
    case Receive(w) => ReceiveSection(s, w)
    case Finish(w) => Goto(s, w, s.workers[w].(pc := Releasing, lastUse := s.now))
    case Release(w) =>
      if s.mustStop then Goto(s, w, s.workers[w].(pc := Exiting))
      else Goto(s.(ready := s.ready + [w]), w, s.workers[w].(pc := Idle))
    case Exit(w) => Goto(s.(workersCount := s.workersCount - 1), w, s.workers[w].(pc := Gone))
    case Clean(critical) =>
      var n := Cut(LastUses(s), critical);
      s.(ready := s.ready[n..], sends := s.sends + QuitAll(s.ready[..n]))
    case Stop => s.(workers := PutQuit(s.workers, s.ready), ready := [], mustStop := true)
    case Tick => s.(now := s.now + 1)
  }

  ghost function Exec(maxWorkers: nat, run: seq<Action>): Option<State>
    decreases |run|
  {
    if run == [] then Some(Init(maxWorkers))
    else
      var s := Exec(maxWorkers, run[..|run| - 1]);
      var a := run[|run| - 1];
      if s.Some? && Enabled(s.value, a) then Some(Next(s.value, a)) else None
  }

  // ---------------------------------------------------------------- counting

  function Live(workers: seq<Worker>): nat {
    if workers == [] then 0
    else Live(workers[..|workers| - 1]) + (if workers[|workers| - 1].pc.Gone? then 0 else 1)
  }

  function SendsTo(sends: seq<Send>, w: Wid): nat {
    if sends == [] then 0 else SendsTo(sends[..|sends| - 1], w) + (if sends[|sends| - 1].to == w then 1 else 0)
  }

  function SendsOf(sends: seq<Send>, c: Conn): nat {
    if sends == [] then 0
    else SendsOf(sends[..|sends| - 1], c) + (if sends[|sends| - 1].msg == Job(c) then 1 else 0)
  }

  function BoxesWith(workers: seq<Worker>, c: Conn): nat {
    if workers == [] then 0
    else BoxesWith(workers[..|workers| - 1], c) + (if workers[|workers| - 1].box == Some(Job(c)) then 1 else 0)
  }

  /** How many parties can put a message into the channel of `w`, or have done so. */
  function Claims(s: State, w: Wid): nat {
    Times(s.ready, w) + SendsTo(s.sends, w) +
    if 0 <= w < |s.workers| && s.workers[w].box.Some? then 1 else 0
  }

  /** In how many places connection `c` is. */
  function Copies(s: State, c: Conn): nat {
    SendsOf(s.sends, c) + BoxesWith(s.workers, c) + Times(s.received, c)
  }

  ghost predicate Waits(s: State, w: Wid) {
    0 <= w < |s.workers| && s.workers[w].pc.Idle?
  }

  /** An idle worker is in `ready`, or has one message coming or waiting: exactly one of these. A
      worker that is not idle has none. An accepted connection is on its way to a worker or was
      received, and only once. */
  ghost predicate Inv(s: State) {
    && s.workersCount == Live(s.workers) <= s.maxWorkers
    && (s.mustStop ==> s.ready == [])
    && (forall w: Wid :: Claims(s, w) == if Waits(s, w) then 1 else 0)
    && (forall c: Conn :: Copies(s, c) == if 0 <= c < s.calls && c !in s.refused then 1 else 0)
    && (forall c :: c in s.refused ==> 0 <= c < s.calls)
  }

  lemma {:induction false} LiveUpdate(ws: seq<Worker>, i: Wid, x: Worker)
    requires 0 <= i < |ws|
    ensures Live(ws[i := x]) + (if ws[i].pc.Gone? then 0 else 1) == Live(ws) + (if x.pc.Gone? then 0 else 1)
  {
    var n := |ws| - 1;
    if i < n {
      assert ws[i := x][..n] == ws[..n][i := x];
      LiveUpdate(ws[..n], i, x);
    } else {
      assert ws[i := x][..n] == ws[..n];
    }
  }

  lemma {:induction false} BoxesUpdate(ws: seq<Worker>, i: Wid, x: Worker, c: Conn)
    requires 0 <= i < |ws|
    ensures BoxesWith(ws[i := x], c) + (if ws[i].box == Some(Job(c)) then 1 else 0) ==
            BoxesWith(ws, c) + (if x.box == Some(Job(c)) then 1 else 0)
  {
    var n := |ws| - 1;
    if i < n {
      assert ws[i := x][..n] == ws[..n][i := x];
      BoxesUpdate(ws[..n], i, x, c);
    } else {
      assert ws[i := x][..n] == ws[..n];
    }
  }

  lemma SendsSnoc(sends: seq<Send>, x: Send, w: Wid, c: Conn)
    ensures SendsTo(sends + [x], w) == SendsTo(sends, w) + if x.to == w then 1 else 0
    ensures SendsOf(sends + [x], c) == SendsOf(sends, c) + if x.msg == Job(c) then 1 else 0
  {
    assert (sends + [x])[..|sends|] == sends;
  }

  lemma {:induction false} SendsRemove(sends: seq<Send>, i: nat, w: Wid, c: Conn)
    requires i < |sends|
    ensures var r := sends[..i] + sends[i + 1..];
            && SendsTo(sends, w) == SendsTo(r, w) + (if sends[i].to == w then 1 else 0)
            && SendsOf(sends, c) == SendsOf(r, c) + (if sends[i].msg == Job(c) then 1 else 0)
  {
    var n := |sends| - 1;
    var r := sends[..i] + sends[i + 1..];
    if i == n {
      assert r == sends[..n];
    } else {
      SendsRemove(sends[..n], i, w, c);
      assert r[..n - 1] == sends[..n][..i] + sends[..n][i + 1..];
      assert r[n - 1] == sends[n];
    }
  }

  lemma {:induction false} QuitAllCounts(sends: seq<Send>, ws: seq<Wid>, w: Wid, c: Conn)
    ensures SendsTo(sends + QuitAll(ws), w) == SendsTo(sends, w) + Times(ws, w)
    ensures SendsOf(sends + QuitAll(ws), c) == SendsOf(sends, c)
  {
    if ws == [] {
      assert sends + QuitAll(ws) == sends;
    } else {
      var n := |ws| - 1;
      QuitAllCounts(sends, ws[..n], w, c);
      assert sends + QuitAll(ws) == (sends + QuitAll(ws[..n])) + [Send(ws[n], Quit)];
      SendsSnoc(sends + QuitAll(ws[..n]), Send(ws[n], Quit), w, c);
    }
  }

  lemma {:induction false} PutQuitCounts(ws: seq<Worker>, ready: seq<Wid>, c: Conn)
    requires forall w :: 0 <= w < |ws| && w in ready ==> ws[w].box.None?
    ensures Live(PutQuit(ws, ready)) == Live(ws)
    ensures BoxesWith(PutQuit(ws, ready), c) == BoxesWith(ws, c)
  {
    if ws != [] {
      var n := |ws| - 1;
      PutQuitCounts(ws[..n], ready, c);
      assert PutQuit(ws, ready)[..n] == PutQuit(ws[..n], ready);
    }
  }

  // ---------------------------------------------------------------- every action keeps the invariant

  lemma ServeKeeps(s: State)
    requires Inv(s)
    ensures Inv(ServeSection(s))
  {
    hide Live, Times, SendsTo, SendsOf, BoxesWith;
    var s', c0, n := ServeSection(s), s.calls, |s.ready| - 1;
    var created := n < 0 && s.workersCount < s.maxWorkers;
    if created {
      assert s'.workers[..|s.workers|] == s.workers;
    }
    forall w: Wid
      ensures Claims(s', w) == if Waits(s', w) then 1 else 0
    {
      assert Claims(s, w) == if Waits(s, w) then 1 else 0;
      if n >= 0 {
        SendsSnoc(s.sends, Send(s.ready[n], Job(c0)), w, 0);
        TimesSnoc(s.ready[..n], s.ready[n], w);
        assert s.ready == s.ready[..n] + [s.ready[n]];
      } else if created {
        SendsSnoc(s.sends, Send(|s.workers|, Job(c0)), w, 0);
      }
    }
    forall c: Conn
      ensures Copies(s', c) == if 0 <= c < s'.calls && c !in s'.refused then 1 else 0
    {
      assert Copies(s, c) == if 0 <= c < s.calls && c !in s.refused then 1 else 0;
      if n >= 0 {
        SendsSnoc(s.sends, Send(s.ready[n], Job(c0)), 0, c);
      } else if created {
        SendsSnoc(s.sends, Send(|s.workers|, Job(c0)), 0, c);
        BoxesSnoc(s.workers, Worker(Idle, None, 0), c);
      }
    }
    if created {
      LiveSnoc(s.workers, Worker(Idle, None, 0));
    }
  }

  lemma LiveSnoc(ws: seq<Worker>, x: Worker)
    ensures Live(ws + [x]) == Live(ws) + if x.pc.Gone? then 0 else 1
  {
    assert (ws + [x])[..|ws|] == ws;
  }

  lemma BoxesSnoc(ws: seq<Worker>, x: Worker, c: Conn)
    ensures BoxesWith(ws + [x], c) == BoxesWith(ws, c) + if x.box == Some(Job(c)) then 1 else 0
  {
    assert (ws + [x])[..|ws|] == ws;
  }

  lemma PutKeeps(s: State, i: nat)
    requires Inv(s) && Enabled(s, Put(i))
    ensures Inv(Next(s, Put(i)))
  {
    var s', x := Next(s, Put(i)), s.sends[i];
    var y := s.workers[x.to].(box := Some(x.msg));
    hide Live, Times, SendsTo, SendsOf, BoxesWith;
    LiveUpdate(s.workers, x.to, y);
    forall w: Wid
      ensures Claims(s', w) == if Waits(s', w) then 1 else 0
    {
      assert Claims(s, w) == if Waits(s, w) then 1 else 0;
      SendsRemove(s.sends, i, w, 0);
    }
    forall c: Conn
      ensures Copies(s', c) == Copies(s, c)
    {
      SendsRemove(s.sends, i, 0, c);
      BoxesUpdate(s.workers, x.to, y, c);
    }
  }

  /** A worker changes by itself: its channel can only lose the message it received. */
  lemma WorkerKeeps(s: State, w0: Wid, x: Worker, s': State)
    requires Inv(s) && 0 <= w0 < |s.workers| && !x.pc.Gone? && !s.workers[w0].pc.Gone?
    requires s' == Goto(s, w0, x).(ready := s'.ready, received := s'.received)
    requires x.box.None? && (s'.ready == s.ready || (s'.ready == s.ready + [w0] && !s.mustStop))
    requires (if x.pc.Idle? then 1 else 0) - (if s.workers[w0].pc.Idle? then 1 else 0) ==
      |s'.ready| - |s.ready| - (if s.workers[w0].box.Some? then 1 else 0)
    requires s'.received ==
      if s.workers[w0].box.Some? && s.workers[w0].box.value.Job? then s.received + [s.workers[w0].box.value.c] else s.received
    ensures Inv(s')
  {
    hide Live, Times, SendsTo, SendsOf, BoxesWith;
    LiveUpdate(s.workers, w0, x);
    forall w: Wid
      ensures Claims(s', w) == if Waits(s', w) then 1 else 0
    {
      assert Claims(s, w) == if Waits(s, w) then 1 else 0;
      TimesSnoc(s.ready, w0, w);
    }
    forall c: Conn
      ensures Copies(s', c) == Copies(s, c)
    {
      BoxesUpdate(s.workers, w0, x, c);
      if s.workers[w0].box.Some? && s.workers[w0].box.value.Job? {
        TimesSnoc(s.received, s.workers[w0].box.value.c, c);
      }
    }
  }

  /** A busy worker has nothing in its channel. */
  lemma BusyIsUnclaimed(s: State, w: Wid)
    requires Inv(s) && 0 <= w < |s.workers| && !s.workers[w].pc.Idle?
    ensures s.workers[w].box.None?
  {
    assert Claims(s, w) == if Waits(s, w) then 1 else 0;
  }

  lemma ExitKeeps(s: State, w0: Wid)
    requires Inv(s) && Enabled(s, Exit(w0))
    ensures Inv(Next(s, Exit(w0)))
  {
    var s', x := Next(s, Exit(w0)), s.workers[w0].(pc := Gone);
    hide Live, Times, SendsTo, SendsOf, BoxesWith;
    LiveUpdate(s.workers, w0, x);
    forall w: Wid
      ensures Claims(s', w) == if Waits(s', w) then 1 else 0
    {
      assert Claims(s, w) == if Waits(s, w) then 1 else 0;
    }
    forall c: Conn
      ensures Copies(s', c) == Copies(s, c)
    {
      BoxesUpdate(s.workers, w0, x, c);
    }
  }

  lemma CleanKeeps(s: State, critical: int)
    requires Inv(s) && Enabled(s, Clean(critical))
    ensures Inv(Next(s, Clean(critical)))
  {
    var s', n := Next(s, Clean(critical)), Cut(LastUses(s), critical);
    hide Cut, LastUses, Live, Times, SendsTo, SendsOf, BoxesWith;
    forall w: Wid
      ensures Claims(s', w) == if Waits(s', w) then 1 else 0
    {
      assert Claims(s, w) == if Waits(s, w) then 1 else 0;
      TimesSplit(s.ready, n, w);
      QuitAllCounts(s.sends, s.ready[..n], w, 0);
    }
    forall c: Conn
      ensures Copies(s', c) == Copies(s, c)
    {
      QuitAllCounts(s.sends, s.ready[..n], 0, c);
    }
  }

  /** A worker in `ready` waits with an empty channel and nothing on the way. */
  lemma ReadyIsEmpty(s: State, w: Wid)
    requires Inv(s) && w in s.ready
    ensures 0 <= w < |s.workers| && s.workers[w].pc == Idle && s.workers[w].box == None
    ensures Times(s.ready, w) == 1 && SendsTo(s.sends, w) == 0
  {
    TimesMember(s.ready, w);
    assert Claims(s, w) == if Waits(s, w) then 1 else 0;
  }

  lemma StopKeeps(s: State)
    requires Inv(s)
    ensures Inv(Next(s, Stop))
  {
    var s' := Next(s, Stop);
    forall w | w in s.ready
      ensures 0 <= w < |s.workers| && s.workers[w].box.None?
    {
      ReadyIsEmpty(s, w);
    }
    PutQuitCounts(s.workers, s.ready, 0);
    assert Times([], 0) == 0;
    forall w: Wid
      ensures Claims(s', w) == if Waits(s', w) then 1 else 0
    {
      assert Claims(s, w) == if Waits(s, w) then 1 else 0;
      TimesMember(s.ready, w);
      hide SendsTo;
    }
    hide Live, Times, SendsTo, SendsOf, BoxesWith;
    forall c: Conn
      ensures Copies(s', c) == Copies(s, c)
    {
      PutQuitCounts(s.workers, s.ready, c);
    }
  }

  lemma TickKeeps(s: State)
    requires Inv(s)
    ensures Inv(Next(s, Tick))
  {
    var s' := Next(s, Tick);
    hide Live, Times, SendsTo, SendsOf, BoxesWith;
    forall w: Wid
      ensures Claims(s', w) == if Waits(s', w) then 1 else 0
    {
      assert Claims(s, w) == if Waits(s, w) then 1 else 0;
    }
    forall c: Conn
      ensures Copies(s', c) == Copies(s, c)
    {
    }
  }

  /** Every action keeps the invariant. */
  lemma NextKeeps(s: State, a: Action)
    requires Inv(s) && Enabled(s, a)
    ensures Inv(Next(s, a))
  {
    match a {
      case Serve => ServeKeeps(s);
      case Put(i) => PutKeeps(s, i);
      case Clean(critical) => CleanKeeps(s, critical);
      case Stop => StopKeeps(s);
      case Tick => TickKeeps(s);
      case Exit(w) => ExitKeeps(s, w);
      case _ => WorkerActionKeeps(s, a);
    }
  }

  lemma WorkerActionKeeps(s: State, a: Action)
    requires Inv(s) && Enabled(s, a) && (a.Receive? || a.Finish? || a.Release?)
    ensures Inv(Next(s, a))
  {
    var s' := Next(s, a);
    if !a.Receive? {
      BusyIsUnclaimed(s, a.w);
    }
    hide Inv;
    WorkerKeeps(s, a.w, s'.workers[a.w], s');
  }

  lemma {:induction false} RunsKeepInv(maxWorkers: nat, run: seq<Action>)
    requires Exec(maxWorkers, run).Some?
    ensures Inv(Exec(maxWorkers, run).value)
    decreases |run|
  {
    if run == [] {
    } else {
      hide Inv;
      var prefix := run[..|run| - 1];
      RunsKeepInv(maxWorkers, prefix);
      NextKeeps(Exec(maxWorkers, prefix).value, run[|run| - 1]);
    }
  }

  /** Safety over every interleaving: the count is that of the live workers and within the limit; a
      ready worker waits with an empty channel; every send finds room, so none blocks; each accepted
      connection is received at most once and until then is on its way to exactly one worker; and
      after Stop no worker is ready. */
  lemma PoolSafety(maxWorkers: nat, run: seq<Action>)
    requires Exec(maxWorkers, run).Some?
    ensures var s := Exec(maxWorkers, run).value;
            && s.workersCount == Live(s.workers) <= s.maxWorkers
            && (forall w :: w in s.ready ==> 0 <= w < |s.workers| && s.workers[w].pc == Idle && s.workers[w].box == None)
            && (forall i: nat :: i < |s.sends| ==> Enabled(s, Put(i)))
            && (forall c :: 0 <= c < s.calls && c !in s.refused ==>
                 Times(s.received, c) + SendsOf(s.sends, c) + BoxesWith(s.workers, c) == 1)
            && (s.mustStop ==> s.ready == [])
  {
    RunsKeepInv(maxWorkers, run);
    hide Exec, Live, Times, SendsOf, BoxesWith, SendsTo;
    var s := Exec(maxWorkers, run).value;
    forall w | w in s.ready
      ensures 0 <= w < |s.workers| && s.workers[w].pc == Idle && s.workers[w].box == None
    {
      ReadyIsEmpty(s, w);
    }
    forall i: nat | i < |s.sends|
      ensures Enabled(s, Put(i))
    {
      SendHasRoom(s, i);
    }
    forall c | 0 <= c < s.calls && c !in s.refused
      ensures Times(s.received, c) + SendsOf(s.sends, c) + BoxesWith(s.workers, c) == 1
    {
      assert Copies(s, c) == 1;
    }
  }

  lemma SendHasRoom(s: State, i: nat)
    requires Inv(s) && i < |s.sends|
    ensures Enabled(s, Put(i))
  {
    var w := s.sends[i].to;
    SendsRemove(s.sends, i, w, 0);
    assert Claims(s, w) == if Waits(s, w) then 1 else 0;
  }

  /** Stop is final. */
  lemma StopIsFinal(s: State, a: Action)
    requires Inv(s) && Enabled(s, a) && s.mustStop
    ensures Next(s, a).mustStop && Next(s, a).ready == []
  {
    NextKeeps(s, a);
  }

  /** From Stop on, to the end of every run, no worker is ready. */
  lemma {:induction false} StoppedForGood(maxWorkers: nat, run: seq<Action>, n: nat)
    requires n <= |run| && Exec(maxWorkers, run).Some?
    requires Exec(maxWorkers, run[..n]).Some? && Exec(maxWorkers, run[..n]).value.mustStop
    ensures Exec(maxWorkers, run).value.mustStop && Exec(maxWorkers, run).value.ready == []
    decreases |run|
  {
    if n == |run| {
      assert run[..n] == run;
      RunsKeepInv(maxWorkers, run);
    } else {
      hide Inv, Next, Enabled;
      var prefix := run[..|run| - 1];
      assert prefix[..n] == run[..n];
      StoppedForGood(maxWorkers, prefix, n);
      RunsKeepInv(maxWorkers, prefix);
      StopIsFinal(Exec(maxWorkers, prefix).value, run[|run| - 1]);
    }
  }

  // ---------------------------------------------------------------- the cleaner's search

  /** No worker that is still fresh stands before an obsolete one. */
  ghost predicate ObsoleteFirst(lastUse: seq<int>, critical: int) {
    forall j, k :: 0 <= j < k < |lastUse| && lastUse[k] < critical ==> lastUse[j] < critical
  }

  ghost predicate Sorted(lastUse: seq<int>) {
    forall j, k :: 0 <= j < k < |lastUse| ==> lastUse[j] <= lastUse[k]
  }

  /** The first `n` are the obsolete ones. */
  ghost predicate AreObsolete(lastUse: seq<int>, critical: int, n: int) {
    forall j :: 0 <= j < |lastUse| ==> (lastUse[j] < critical <==> j < n)
  }

  /** The search finds exactly the obsolete workers if and only if they stand in front. */
  lemma CutIsExactIff(lastUse: seq<int>, critical: int)
    ensures AreObsolete(lastUse, critical, Cut(lastUse, critical)) <==> ObsoleteFirst(lastUse, critical)
  {
    var n := Cut(lastUse, critical);
    assert 0 < n ==> lastUse[n - 1] < critical;
    assert n < |lastUse| ==> critical <= lastUse[n];
  }

  /** `clean` up to where it copies: the workers `ready[..i + 1]` are stopped. */
  method CleanCut(lastUse: seq<int>, critical: int) returns (i: int)
    ensures -1 <= i < |lastUse| && i + 1 == Cut(lastUse, critical)
    ensures AreObsolete(lastUse, critical, i + 1) <==> ObsoleteFirst(lastUse, critical)
  {
    hide AreObsolete, ObsoleteFirst, CutBetween;
    CutIsExactIff(lastUse, critical);
    var l, r := 0, |lastUse| - 1;
    while l <= r
      invariant 0 <= l <= r + 1 <= |lastUse|
      invariant 0 < l ==> lastUse[l - 1] < critical
      invariant r + 1 < |lastUse| ==> critical <= lastUse[r + 1]
      invariant CutBetween(lastUse, critical, l, r) == Cut(lastUse, critical)
    {
      CutStep(lastUse, critical, l, r);
      var mid := (l + r) / 2;
      if critical > lastUse[mid] {
        l := mid + 1;
      } else {
        r := mid - 1;
      }
    }
    CutStep(lastUse, critical, l, r);
    return r;
  }

  lemma CutStep(lastUse: seq<int>, critical: int, l: int, r: int)
    requires 0 <= l <= r + 1 <= |lastUse|
    requires 0 < l ==> lastUse[l - 1] < critical
    requires r + 1 < |lastUse| ==> critical <= lastUse[r + 1]
    ensures CutBetween(lastUse, critical, l, r) ==
            if l > r then r + 1
            else
              var mid := (l + r) / 2;
              if critical > lastUse[mid] then CutBetween(lastUse, critical, mid + 1, r)
              else CutBetween(lastUse, critical, l, mid - 1)
  {
  }

  lemma {:induction false} InvHasWorkers(s: State)
    requires Inv(s)
    ensures HasWorkers(s)
  {
    forall i | 0 <= i < |s.ready|
      ensures 0 <= s.ready[i] < |s.workers|
    {
      ReadyIsEmpty(s, s.ready[i]);
    }
  }

  /** No worker stands in `ready` twice. */
  lemma ReadyDistinct(s: State, i: int, j: int)
    requires Inv(s) && 0 <= i < j < |s.ready|
    ensures s.ready[i] != s.ready[j]
  {
    var w := s.ready[i];
    ReadyIsEmpty(s, w);
    hide Inv;
    TimesSplit(s.ready, j, w);
    assert s.ready[..j][i] == w && s.ready[j..][0] == s.ready[j];
    TimesMember(s.ready[..j], w);
    TimesMember(s.ready[j..], w);
  }

  /** What is left of `ready` without its first `n`. */
  lemma LeftOver(s: State, n: nat, j: int)
    requires Inv(s) && n <= |s.ready| && 0 <= j < |s.ready|
    ensures s.ready[j] !in s.ready[n..] <==> j < n
  {
    hide Inv;
    if j >= n {
      assert s.ready[n..][j - n] == s.ready[j];
    } else if s.ready[j] in s.ready[n..] {
      var k :| 0 <= k < |s.ready[n..]| && s.ready[n..][k] == s.ready[j];
      ReadyDistinct(s, j, k + n);
    }
  }

  /** In every state the cleaner stops exactly the obsolete ready workers if and only if no fresh
      one was put into `ready` before an obsolete one. */
  lemma CleanIsExactIff(s: State, critical: int)
    requires Inv(s) && Enabled(s, Clean(critical))
    ensures CleansExactly(s, critical) <==> ObsoleteFirst(LastUses(s), critical)
  {
    hide CleansExactly, AreObsolete, ObsoleteFirst, Inv, Cut;
    CutIsExactIff(LastUses(s), critical);
    CleanTakesCut(s, critical);
  }

  lemma CleanTakesCut(s: State, critical: int)
    requires Inv(s) && Enabled(s, Clean(critical))
    ensures CleansExactly(s, critical) <==> AreObsolete(LastUses(s), critical, Cut(LastUses(s), critical))
  {
    hide Cut, Inv;
    var t, n := LastUses(s), Cut(LastUses(s), critical);
    forall j | 0 <= j < |s.ready|
      ensures s.ready[j] !in s.ready[n..] <==> j < n
    {
      LeftOver(s, n, j);
    }
    if CleansExactly(s, critical) {
      forall j | 0 <= j < |t|
        ensures t[j] < critical <==> j < n
      {
        assert s.ready[j] in s.ready;
      }
    } else {
      var w :| w in s.ready && !(w !in s.ready[n..] <==> s.workers[w].lastUse < critical);
      var j :| 0 <= j < |s.ready| && s.ready[j] == w;
      assert !(t[j] < critical <==> j < n);
    }
  }

  /** The ready workers that `clean` takes away are those last used before `critical`. */
  ghost predicate CleansExactly(s: State, critical: int)
    requires Enabled(s, Clean(critical))
  {
    forall w :: w in s.ready ==> (w !in Next(s, Clean(critical)).ready <==> s.workers[w].lastUse < critical)
  }

  // ---------------------------------------------------------------- times out of order

  /** A worker becomes ready although one that noted a later time already is. */
  ghost predicate Overtaken(s: State, a: Action)
    requires Enabled(s, a)
  {
    && a.Release? && !s.mustStop
    && exists i :: 0 <= i < |s.ready| && 0 <= s.ready[i] < |s.workers| &&
         s.workers[s.ready[i]].lastUse > s.workers[a.w].lastUse
  }

  ghost predicate InOrder(s: State) {
    HasWorkers(s) && Sorted(LastUses(s))
  }

  /** As long as no release is overtaken, the times stay in order. */
  lemma OrderKept(s: State, a: Action)
    requires Inv(s) && InOrder(s) && Enabled(s, a) && !Overtaken(s, a)
    ensures InOrder(Next(s, a))
  {
    NextKeeps(s, a);
    InvHasWorkers(Next(s, a));
    forall i | 0 <= i < |s.ready|
      ensures s.workers[s.ready[i]].pc == Idle
    {
      ReadyIsEmpty(s, s.ready[i]);
    }
    hide Inv;
    var t := LastUses(s);
    var t' := LastUsesAfter(s, a);
    if a.Release? && !s.mustStop {
      var x := s.workers[a.w].lastUse;
      assert forall i :: 0 <= i < |t| ==> t[i] <= x;
      assert Sorted(t + [x]);
    }
  }

  /** What an action does to the times of the ready workers: one more in the end, or a piece of what was there. */
  lemma LastUsesAfter(s: State, a: Action) returns (t: seq<int>)
    requires HasWorkers(s) && Enabled(s, a) && HasWorkers(Next(s, a))
    requires forall i :: 0 <= i < |s.ready| ==> s.workers[s.ready[i]].pc == Idle
    ensures t == LastUses(Next(s, a))
    ensures if a.Release? && !s.mustStop then t == LastUses(s) + [s.workers[a.w].lastUse]
            else exists i, j :: 0 <= i <= j <= |s.ready| && t == LastUses(s)[i..j]
  {
    hide Cut;
    var was := LastUses(s);
    t := LastUses(Next(s, a));
    if a.Clean? {
      assert t == was[Cut(was, a.critical)..|was|];
    } else if !(a.Release? && !s.mustStop) {
      assert t == was[0..|t|];
    }
  }

  ghost predicate NeverOvertaken(maxWorkers: nat, run: seq<Action>)
    requires Exec(maxWorkers, run).Some?
    decreases |run|
  {
    run == [] ||
    var prefix := run[..|run| - 1];
    NeverOvertaken(maxWorkers, prefix) && !Overtaken(Exec(maxWorkers, prefix).value, run[|run| - 1])
  }

  /** After every run in which no release was overtaken, the cleaner stops exactly the obsolete workers. */
  lemma {:induction false} CleanAfterRun(maxWorkers: nat, run: seq<Action>, critical: int)
    requires Exec(maxWorkers, run).Some? && NeverOvertaken(maxWorkers, run)
    requires Enabled(Exec(maxWorkers, run).value, Clean(critical))
    ensures CleansExactly(Exec(maxWorkers, run).value, critical)
  {
    RunInOrder(maxWorkers, run);
    RunsKeepInv(maxWorkers, run);
    hide Inv;
    CleanIsExactIff(Exec(maxWorkers, run).value, critical);
  }

  lemma {:induction false} RunInOrder(maxWorkers: nat, run: seq<Action>)
    requires Exec(maxWorkers, run).Some? && NeverOvertaken(maxWorkers, run)
    ensures InOrder(Exec(maxWorkers, run).value)
    decreases |run|
  {
    if run != [] {
      var prefix := run[..|run| - 1];
      RunInOrder(maxWorkers, prefix);
      RunsKeepInv(maxWorkers, prefix);
      hide Inv, InOrder;
      OrderKept(Exec(maxWorkers, prefix).value, run[|run| - 1]);
    }
  }

  /** A fresh worker in front of obsolete ones is stopped with them; in front of one it hides it. */
  lemma UnsortedCuts()
    ensures Cut([5, 0, 0], 3) == 3 && Cut([5, 0], 3) == 0
  {
    var a, b := [5, 0, 0], [5, 0];
    assert CutBetween(a, 3, 3, 2) == 3 && CutBetween(a, 3, 2, 2) == 3 && CutBetween(a, 3, 0, 2) == 3;
    assert CutBetween(b, 3, 0, -1) == 0;
  }

  /** Two workers note their times one after the other and take the lock the other way round; then
      the cleaner leaves the worker that is obsolete. */
  lemma OvertakenRun() returns (run: seq<Action>)
    ensures Exec(2, run).Some? && Enabled(Exec(2, run).value, Clean(1))
    ensures var s := Exec(2, run).value;
            && s.ready == [1, 0] && |s.workers| == 2 && s.workers[0].lastUse < 1 && 0 in Next(s, Clean(1)).ready
            && !CleansExactly(s, 1)
  {
    run := BothServing();
    hide Exec;
    run := ExecMore(2, run, Finish(0));
    run := ExecMore(2, run, Tick);
    run := ExecMore(2, run, Finish(1));
    run := ExecMore(2, run, Release(1));
    run := ExecMore(2, run, Release(0));
    var s := Exec(2, run).value;
    assert LastUses(s) == [1, 0];
    assert CutBetween([1, 0], 1, 0, -1) == 0;
    assert Cut([1, 0], 1) == 0;
    assert s.ready[1] == 0;
  }

  lemma BothServing() returns (run: seq<Action>)
    ensures Exec(2, run).Some?
    ensures var s := Exec(2, run).value;
            s.workers == [Worker(Serving(0), None, 0), Worker(Serving(1), None, 0)] && s.ready == [] && !s.mustStop && s.now == 0
  {
    run := [];
    run := ExecMore(2, run, Serve);
    hide Exec;
    run := ExecMore(2, run, Serve);
    run := ExecMore(2, run, Put(0));
    run := ExecMore(2, run, Put(0));
    run := ExecMore(2, run, Receive(0));
    run := ExecMore(2, run, Receive(1));
  }

  lemma ExecMore(maxWorkers: nat, run: seq<Action>, a: Action) returns (run': seq<Action>)
    requires Exec(maxWorkers, run).Some? && Enabled(Exec(maxWorkers, run).value, a)
    ensures run' == run + [a] && Exec(maxWorkers, run') == Some(Next(Exec(maxWorkers, run).value, a))
  {
    run' := run + [a];
    assert run'[..|run|] == run;
  }
}
