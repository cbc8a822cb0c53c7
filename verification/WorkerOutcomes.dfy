/** What the sections of the worker pool (fasthttp/workerpool.go) do: who serves a connection and when
    one is refused, what becomes of a worker behind its handler, and that all workers leave after
    Stop. */
module WorkerOutcomes {
  import opened Basics
  import opened WorkerPool

  /** For every state: a connection is refused exactly when no worker is ready and the pool is at its
      limit, and then nothing else changes. */
  lemma RefusedIff(s: State)
    requires s.calls !in s.refused
    ensures var s' := Next(s, Serve);
            && (s.calls in s'.refused <==> s.ready == [] && s.workersCount >= s.maxWorkers)
            && (s.calls in s'.refused ==> s' == s.(calls := s.calls + 1, refused := s.refused + {s.calls}))
            && (s.calls !in s'.refused ==> s'.refused == s.refused)
  {
    assert Enabled(s, Serve);
  }

  /** A connection that is not refused is sent to the worker that became ready last, who is ready no
      more; without a ready worker, to a new one that is counted. */
  lemma ServedBy(s: State)
    requires s.ready != [] || s.workersCount < s.maxWorkers
    ensures var s', n := Next(s, Serve), |s.ready|;
            && |s'.sends| == |s.sends| + 1 && s'.sends[..|s.sends|] == s.sends
            && s'.sends[|s.sends|].msg == Job(s.calls)
            && (if s.ready != [] then
                  && s.ready == s'.ready + [s'.sends[|s.sends|].to]
                  && s'.workers == s.workers && s'.workersCount == s.workersCount
                else
                  && s'.sends[|s.sends|].to == |s.workers| && s'.workersCount == s.workersCount + 1
                  && |s'.workers| == |s.workers| + 1 && s'.workers[..|s.workers|] == s.workers
                  && s'.workers[|s.workers|].pc == Idle && s'.workers[|s.workers|].box == None)
  {
    var n := |s.ready| - 1;
    assert s.ready != [] ==> s.ready == s.ready[..n] + [s.ready[n]];
  }

  /** The worker that is released is the next one to serve. */
  lemma LastReleasedServes(s: State, w: Wid)
    requires Enabled(s, Release(w)) && !s.mustStop
    ensures var s1 := Next(s, Release(w)); var s2 := Next(s1, Serve);
            s2.sends == s.sends + [Send(w, Job(s.calls))] && s2.ready == s.ready && s2.refused == s.refused
  {
    var s1 := Next(s, Release(w));
    assert s1.ready[..|s.ready|] == s.ready;
  }

  /** A worker that comes back from its handler becomes ready, behind all others, unless the pool was
      stopped; then it leaves. */
  lemma ReleaseOutcome(s: State, w: Wid)
    requires Enabled(s, Release(w))
    ensures var s' := Next(s, Release(w));
            && s'.ready == s.ready + (if s.mustStop then [] else [w])
            && s'.workers == s.workers[w := s.workers[w].(pc := if s.mustStop then Exiting else Idle)]
            && s' == s.(ready := s'.ready, workers := s'.workers)
  {
    assert s.ready + [] == s.ready;
  }

  /** A worker serves the connection in its channel and leaves on nil; the channel is empty then. */
  lemma ReceiveOutcome(s: State, w: Wid)
    requires Enabled(s, Receive(w))
    ensures var s', m := Next(s, Receive(w)), s.workers[w].box.value;
            && s'.workers == s.workers[w := s.workers[w].(box := None, pc := if m.Job? then Serving(m.c) else Exiting)]
            && s'.received == s.received + (if m.Job? then [m.c] else [])
            && s'.ready == s.ready && s'.workersCount == s.workersCount
  {
    assert s.received + [] == s.received;
  }

  /** Stop puts nil into the channel of every ready worker and of no other. */
  lemma StopOutcome(s: State)
    ensures var s' := Next(s, Stop);
            && s'.mustStop && s'.ready == [] && |s'.workers| == |s.workers|
            && (forall w :: 0 <= w < |s.workers| ==>
                 s'.workers[w] == s.workers[w].(box := if w in s.ready then Some(Quit) else s.workers[w].box))
            && s'.workersCount == s.workersCount && s'.sends == s.sends
  {
  }

  /** Those the cleaner takes out of `ready` are sent nil, in order, and nobody else is. */
  lemma CleanOutcome(s: State, critical: int)
    requires Enabled(s, Clean(critical))
    ensures exists stopped :: Stopped(s, stopped, Next(s, Clean(critical)))
  {
    hide Cut;
    var n := Cut(LastUses(s), critical);
    assert s.ready == s.ready[..n] + s.ready[n..];
    assert Stopped(s, s.ready[..n], Next(s, Clean(critical)));
  }

  ghost predicate Stopped(s: State, stopped: seq<Wid>, s': State) {
    && s.ready == stopped + s'.ready
    && |s'.sends| == |s.sends| + |stopped| && s'.sends[..|s.sends|] == s.sends
    && forall i :: 0 <= i < |stopped| ==> s'.sends[|s.sends| + i] == Send(stopped[i], Quit)
  }

  // ---------------------------------------------------------------- leaving

  /** How many steps a worker may still take once the pool is stopped. */
  function StepsLeft(pc: Pc): nat {
    match pc
    case Idle => 4
    case Serving(_) => 3
    case Releasing => 2
    case Exiting => 1
    case Gone => 0
  }

  ghost predicate Acts(a: Action, w: Wid) {
    (a.Receive? || a.Finish? || a.Release? || a.Exit?) && a.w == w
  }

  /** In a stopped pool every action of a worker brings it nearer to its end, and no other action
      moves it. */
  lemma NearerToTheEnd(s: State, a: Action, w: Wid)
    requires Enabled(s, a) && s.mustStop && 0 <= w < |s.workers|
    ensures w < |Next(s, a).workers|
    ensures if Acts(a, w) then StepsLeft(Next(s, a).workers[w].pc) < StepsLeft(s.workers[w].pc)
            else Next(s, a).workers[w].pc == s.workers[w].pc
  {
    hide Cut, LastUses;
  }

  lemma {:induction false} SomeSend(sends: seq<Send>, w: Wid)
    requires SendsTo(sends, w) > 0
    ensures exists i: nat :: i < |sends| && sends[i].to == w
  {
    var n := |sends| - 1;
    if sends[n].to != w {
      SomeSend(sends[..n], w);
      var i: nat :| i < n && sends[..n][i].to == w;
      assert sends[i].to == w;
    }
  }

  /** A worker that has not left can go on, or is ready, or a message for it can be put into its
      channel; in a stopped pool none is ready, so all of them leave. */
  lemma NoDeadlock(s: State, w: Wid)
    requires Inv(s) && 0 <= w < |s.workers| && !s.workers[w].pc.Gone?
    ensures || (exists a :: Acts(a, w) && Enabled(s, a))
            || (exists i: nat :: i < |s.sends| && s.sends[i].to == w && Enabled(s, Put(i)))
            || (w in s.ready && !s.mustStop)
  {
    match s.workers[w].pc {
      case Idle =>
        assert Claims(s, w) == if Waits(s, w) then 1 else 0;
        hide Live, Times, SendsTo, SendsOf, BoxesWith;
        TimesMember(s.ready, w);
        if s.workers[w].box.Some? {
          assert Acts(Receive(w), w) && Enabled(s, Receive(w));
        } else if w !in s.ready {
          SomeSend(s.sends, w);
          var i: nat :| i < |s.sends| && s.sends[i].to == w;
          SendHasRoom(s, i);
        }
      case Serving(_) => assert Acts(Finish(w), w) && Enabled(s, Finish(w));
      case Releasing => assert Acts(Release(w), w) && Enabled(s, Release(w));
      case Exiting => assert Acts(Exit(w), w) && Enabled(s, Exit(w));
    }
  }
}
