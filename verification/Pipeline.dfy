/** One connection of the pipelining client (fasthttp/client.go, `pipelineConnClient`): callers
    submit work items, one writer sends the requests, one reader reads the responses. An action is
    one channel operation or one request or response on the wire. */
module Pipeline {
  import opened Basics

  type Work = int

  /** The caller that submitted a work item; `timed` for DoDeadline, which has a timer. */
  datatype Caller =
    | Submitting(timed: bool)
    | Retrying            // Do, after looking for an old item to evict
    | Waiting(timed: bool)
    | Refused             // never queued, item released
    | Returned            // took the signal, item released
    | Abandoned           // timed out, item left to the worker

  datatype Writer = WIdle | WHolds(w: Work) | WWrote(w: Work) | WStopped

  datatype Reader = RIdle | RHolds(w: Work) | RStopped

  datatype State = State(
    maxPending: nat,      // capacity of both channels
    callers: seq<Caller>, // one per work item
    signals: seq<nat>,    // sends on the item's done channel
    chW: seq<Work>,
    chR: seq<Work>,
    writer: Writer,
    reader: Reader,
    written: seq<Work>,   // items whose request is on the wire, in order
    answered: seq<Work>)  // items a response was read into, in order

  datatype Action =
    | Submit(timed: bool)
    | Enqueue(w: Work) | Evict(w: Work) | Retry(w: Work) | GiveUp(w: Work) | Take(w: Work) | Expire(w: Work)
    | WriterTakes | WriterDrops | WriteOk | WriteFails | Forward | ForwardStops | WriterStops
    | ReaderTakes | ReadOk | ReadFails | ReaderStops
    | Drain

  const DEFAULT_MAX_PENDING_REQUESTS := 1024

  function Init(maxPending: int): State {
    State(if maxPending <= 0 then DEFAULT_MAX_PENDING_REQUESTS else maxPending, [], [], [], [], WIdle, RIdle, [], [])
  }

  /** `w.done <- struct{}{}`. */
  function Signal(s: State, w: Work): State {
    if 0 <= w < |s.signals| then s.(signals := s.signals[w := s.signals[w] + 1]) else s
  }

  function SetCaller(s: State, w: Work, c: Caller): State
    requires 0 <= w < |s.callers|
  {
    s.(callers := s.callers[w := c])
  }

  ghost predicate CallerIn(s: State, w: Work) {
    0 <= w < |s.callers| && w < |s.signals|
  }

  /** Items of DoDeadline; those of Do wait for as long as it takes. */
  ghost predicate HasDeadline(s: State, w: Work) {
    0 <= w < |s.callers| && (s.callers[w] == Waiting(true) || s.callers[w].Abandoned?)
  }

  ghost predicate Enabled(s: State, a: Action) {
    match a
    case Submit(_) => true
    case Enqueue(w) => CallerIn(s, w) && s.callers[w].Submitting? && |s.chW| < s.maxPending
    case Evict(w) => CallerIn(s, w) && s.callers[w] == Submitting(false)
    case Retry(w) => CallerIn(s, w) && s.callers[w].Retrying?
    case GiveUp(w) => CallerIn(s, w) && s.callers[w] == Submitting(true)
    case Take(w) => CallerIn(s, w) && s.callers[w].Waiting? && s.signals[w] > 0
    case Expire(w) => CallerIn(s, w) && s.callers[w] == Waiting(true)
    case WriterTakes => s.writer.WIdle? && s.chW != []
    case WriterDrops => s.writer.WHolds? && HasDeadline(s, s.writer.w)
    case WriteOk => s.writer.WHolds?
    case WriteFails => s.writer.WHolds?
    case Forward => s.writer.WWrote? && |s.chR| < s.maxPending
    case ForwardStops => s.writer.WWrote?
    case WriterStops => s.writer.WIdle?
    case ReaderTakes => s.reader.RIdle? && s.chR != []
    case ReadOk => s.reader.RHolds?
    case ReadFails => s.reader.RHolds?
    case ReaderStops => s.reader.RIdle? && s.writer.WStopped?
    case Drain => s.reader.RStopped? && s.writer.WStopped? && s.chR != []
  }

  ghost function Next(s: State, a: Action): State
    requires Enabled(s, a)
  {
    match a
    case Submit(timed) => s.(callers := s.callers + [Submitting(timed)], signals := s.signals + [0])
    case Enqueue(w) => SetCaller(s.(chW := s.chW + [w]), w, Waiting(s.callers[w].timed))
    case Evict(w) =>
      // the queue was full; the oldest item is answered with ErrPipelineOverflow, if one is left
      if s.chW == [] then SetCaller(s, w, Retrying)
      else SetCaller(Signal(s.(chW := s.chW[1..]), s.chW[0]), w, Retrying)
    case Retry(w) =>
      if |s.chW| < s.maxPending then SetCaller(s.(chW := s.chW + [w]), w, Waiting(false)) else SetCaller(s, w, Refused)
    case GiveUp(w) => SetCaller(s, w, Refused)
    case Take(w) => SetCaller(s, w, Returned)
    case Expire(w) => SetCaller(s, w, Abandoned)
    case WriterTakes => s.(chW := s.chW[1..], writer := WHolds(s.chW[0]))
    case WriterDrops => Signal(s, s.writer.w).(writer := WIdle)  // its deadline has passed
    case WriteOk => s.(written := s.written + [s.writer.w], writer := WWrote(s.writer.w))
    case WriteFails => Signal(s, s.writer.w).(writer := WStopped)
    case Forward => s.(chR := s.chR + [s.writer.w], writer := WIdle)
    case ForwardStops => Signal(s, s.writer.w).(writer := WStopped)
    case WriterStops => s.(writer := WStopped)
    case ReaderTakes => s.(chR := s.chR[1..], reader := RHolds(s.chR[0]))
    case ReadOk => Signal(s, s.reader.w).(answered := s.answered + [s.reader.w], reader := RIdle)
    case ReadFails => Signal(s, s.reader.w).(reader := RStopped)
    case ReaderStops => s.(reader := RStopped)
    case Drain => Signal(s.(chR := s.chR[1..]), s.chR[0])
  }

  ghost function Exec(maxPending: int, run: seq<Action>): Option<State>
    decreases |run|
  {
    if run == [] then Some(Init(maxPending))
    else
      var s := Exec(maxPending, run[..|run| - 1]);
      var a := run[|run| - 1];
      if s.Some? && Enabled(s.value, a) then Some(Next(s.value, a)) else None
  }

  // ---------------------------------------------------------------- the invariant

  function WriterHas(x: Writer): seq<Work> {
    if x.WHolds? || x.WWrote? then [x.w] else []
  }

  function ReaderHas(x: Reader): seq<Work> {
    if x.RHolds? then [x.w] else []
  }

  /** Where an item is: with its caller, in a channel, with the writer or the reader, or signalled. */
  function Places(s: State, w: Work): nat {
    (if 0 <= w < |s.callers| && (s.callers[w].Submitting? || s.callers[w].Retrying? || s.callers[w].Refused?) then 1 else 0) +
    Times(s.chW, w) + Times(WriterHas(s.writer), w) + Times(s.chR, w) + Times(ReaderHas(s.reader), w) +
    (if 0 <= w < |s.signals| then s.signals[w] else 0)
  }

  /** Requests on the wire that no response was read for: with the reader, queued for it, or about
      to be queued. */
  function Outstanding(s: State): seq<Work> {
    ReaderHas(s.reader) + s.chR + if s.writer.WWrote? then [s.writer.w] else []
  }

  ghost predicate InOrder(s: State) {
    && s.answered <= s.written
    && (!s.reader.RStopped? ==> s.answered + Outstanding(s) <= s.written)
    && (!s.reader.RStopped? && !s.writer.WStopped? ==> s.answered + Outstanding(s) == s.written)
  }

  ghost predicate Inv(s: State) {
    && |s.callers| == |s.signals|
    && (forall w: Work :: Places(s, w) == if 0 <= w < |s.callers| then 1 else 0)
    && InOrder(s)
  }

  lemma TimesHead(q: seq<Work>, w: Work)
    requires q != []
    ensures Times(q, w) == (if q[0] == w then 1 else 0) + Times(q[1..], w)
  {
    TimesSplit(q, 1, w);
    assert q[..1] == [q[0]];
    TimesSnoc([], q[0], w);
    assert [] + [q[0]] == [q[0]];
  }

  lemma TimesNone(w: Work)
    ensures Times<Work>([], w) == 0
  {
  }

  lemma TimesUnit(x: Work, w: Work)
    ensures Times([x], w) == if x == w then 1 else 0
  {
    TimesSnoc([], x, w);
    assert [] + [x] == [x];
  }

  /** Items an action moves are items that exist. */
  lemma ItemExists(s: State, w: Work)
    requires Inv(s) && (w in s.chW || w in s.chR || w in WriterHas(s.writer) || w in ReaderHas(s.reader))
    ensures 0 <= w < |s.callers| && s.signals[w] == 0
  {
    TimesMember(s.chW, w);
    TimesMember(s.chR, w);
    TimesMember(WriterHas(s.writer), w);
    TimesMember(ReaderHas(s.reader), w);
    hide Times;
    assert Places(s, w) == if 0 <= w < |s.callers| then 1 else 0;
  }

  predicate ByCaller(a: Action) {
    a.Submit? || a.Enqueue? || a.Evict? || a.Retry? || a.GiveUp? || a.Take? || a.Expire?
  }

  predicate ByWriter(a: Action) {
    a.WriterTakes? || a.WriterDrops? || a.WriteOk? || a.WriteFails? || a.Forward? || a.ForwardStops? || a.WriterStops?
  }

  lemma EvictPlacesKept(s: State, v: Work, w: Work)
    requires Inv(s) && Enabled(s, Evict(v))
    ensures Places(Next(s, Evict(v)), w) == if 0 <= w < |s.callers| then 1 else 0
  {
    assert Places(s, w) == if 0 <= w < |s.callers| then 1 else 0;
    if s.chW != [] {
      ItemExists(s, s.chW[0]);
      TimesHead(s.chW, w);
    }
    hide Times, InOrder, Inv;
  }

  lemma JoinPlacesKept(s: State, v: Work, c: Caller, w: Work)
    requires Inv(s) && CallerIn(s, v) && (s.callers[v].Submitting? || s.callers[v].Retrying?) && c.Waiting?
    ensures Places(SetCaller(s.(chW := s.chW + [v]), v, c), w) == if 0 <= w < |s.callers| then 1 else 0
  {
    assert Places(s, w) == if 0 <= w < |s.callers| then 1 else 0;
    TimesSnoc(s.chW, v, w);
    hide Times, Inv;
  }

  /** The caller changes without giving the item away or getting it back. */
  lemma StayPlacesKept(s: State, v: Work, c: Caller, w: Work)
    requires Inv(s) && CallerIn(s, v)
    requires if s.callers[v].Waiting? then c.Returned? || c.Abandoned?
             else (s.callers[v].Submitting? || s.callers[v].Retrying?) && c.Refused?
    ensures Places(SetCaller(s, v, c), w) == if 0 <= w < |s.callers| then 1 else 0
  {
    assert Places(s, w) == if 0 <= w < |s.callers| then 1 else 0;
    hide Times, Inv;
  }

  lemma SubmitPlacesKept(s: State, timed: bool, w: Work)
    requires Inv(s)
    ensures Places(Next(s, Submit(timed)), w) == if 0 <= w < |s.callers| + 1 then 1 else 0
  {
    assert Places(s, w) == if 0 <= w < |s.callers| then 1 else 0;
    hide Times, InOrder;
  }

  lemma CallerPlacesKept(s: State, a: Action, w: Work)
    requires Inv(s) && Enabled(s, a) && ByCaller(a)
    ensures Places(Next(s, a), w) == if 0 <= w < |Next(s, a).callers| then 1 else 0
  {
    hide Inv, Places;
    match a {
      case Submit(timed) => SubmitPlacesKept(s, timed, w);
      case Enqueue(v) => JoinPlacesKept(s, v, Waiting(s.callers[v].timed), w);
      case Evict(v) => EvictPlacesKept(s, v, w);
      case Retry(v) =>
        if |s.chW| < s.maxPending {
          JoinPlacesKept(s, v, Waiting(false), w);
        } else {
          StayPlacesKept(s, v, Refused, w);
        }
      case GiveUp(v) => StayPlacesKept(s, v, Refused, w);
      case Take(v) => StayPlacesKept(s, v, Returned, w);
      case Expire(v) => StayPlacesKept(s, v, Abandoned, w);
    }
  }

  lemma WriterPlacesKept(s: State, a: Action, w: Work)
    requires Inv(s) && Enabled(s, a) && ByWriter(a)
    ensures Places(Next(s, a), w) == if 0 <= w < |Next(s, a).callers| then 1 else 0
  {
    assert Places(s, w) == if 0 <= w < |s.callers| then 1 else 0;
    TimesNone(w);
    hide Times, InOrder;
    match a {
      case WriterTakes => TimesHead(s.chW, w); TimesUnit(s.chW[0], w);
      case WriterDrops => ItemExists(s, s.writer.w); TimesUnit(s.writer.w, w);
      case WriteOk =>
      case WriteFails => ItemExists(s, s.writer.w); TimesUnit(s.writer.w, w);
      case Forward => TimesSnoc(s.chR, s.writer.w, w); TimesUnit(s.writer.w, w);
      case ForwardStops => ItemExists(s, s.writer.w); TimesUnit(s.writer.w, w);
      case WriterStops =>
    }
  }

  lemma ReaderPlacesKept(s: State, a: Action, w: Work)
    requires Inv(s) && Enabled(s, a) && !ByCaller(a) && !ByWriter(a)
    ensures Places(Next(s, a), w) == if 0 <= w < |Next(s, a).callers| then 1 else 0
  {
    assert Places(s, w) == if 0 <= w < |s.callers| then 1 else 0;
    TimesNone(w);
    hide Times, InOrder;
    match a {
      case ReaderTakes => TimesHead(s.chR, w); TimesUnit(s.chR[0], w);
      case ReadOk => ItemExists(s, s.reader.w); TimesUnit(s.reader.w, w);
      case ReadFails => ItemExists(s, s.reader.w); TimesUnit(s.reader.w, w);
      case ReaderStops =>
      case Drain => ItemExists(s, s.chR[0]); TimesHead(s.chR, w);
    }
  }

  lemma OrderKept(s: State, a: Action)
    requires Inv(s) && Enabled(s, a)
    ensures InOrder(Next(s, a))
  {
    hide Next;
    if ByCaller(a) {
      CallerOrderKept(s, a);
    } else if ByWriter(a) {
      WriterOrderKept(s, a);
    } else {
      ReaderOrderKept(s, a);
    }
  }

  lemma CallerOrderKept(s: State, a: Action)
    requires InOrder(s) && Enabled(s, a) && ByCaller(a)
    ensures InOrder(Next(s, a))
  {
    hide InOrder;
    SameOrder(s, Next(s, a));
  }

  lemma SameOrder(s: State, s': State)
    requires InOrder(s) && s'.written == s.written && s'.answered == s.answered
    requires s'.reader == s.reader && s'.writer == s.writer && s'.chR == s.chR
    ensures InOrder(s')
  {
  }

  lemma WriterOrderKept(s: State, a: Action)
    requires InOrder(s) && Enabled(s, a) && ByWriter(a)
    ensures InOrder(Next(s, a))
  {
    var s' := Next(s, a);
    if a.WriteOk? {
      assert Outstanding(s') == Outstanding(s) + [s.writer.w];
      assert s'.answered + Outstanding(s') == s.answered + Outstanding(s) + [s.writer.w];
    } else if a.ForwardStops? {
      assert Outstanding(s) == Outstanding(s') + [s.writer.w];
      assert s.answered + Outstanding(s) == s.answered + Outstanding(s') + [s.writer.w];
    } else {
      assert Outstanding(s') == Outstanding(s);
    }
  }

  lemma ReaderOrderKept(s: State, a: Action)
    requires InOrder(s) && Enabled(s, a) && !ByCaller(a) && !ByWriter(a)
    ensures InOrder(Next(s, a))
  {
    var s' := Next(s, a);
    if a.ReaderTakes? {
      assert Outstanding(s') == Outstanding(s);
    } else if a.ReadOk? {
      assert s'.answered + Outstanding(s') == s.answered + Outstanding(s);
    }
  }

  /** Every action keeps the invariant. */
  lemma NextKeeps(s: State, a: Action)
    requires Inv(s) && Enabled(s, a)
    ensures Inv(Next(s, a))
  {
    OrderKept(s, a);
    hide Places, InOrder;
    forall w: Work
      ensures Places(Next(s, a), w) == if 0 <= w < |Next(s, a).callers| then 1 else 0
    {
      if ByCaller(a) {
        CallerPlacesKept(s, a, w);
      } else if ByWriter(a) {
        WriterPlacesKept(s, a, w);
      } else {
        ReaderPlacesKept(s, a, w);
      }
    }
  }

  lemma {:induction false} RunsKeepInv(maxPending: int, run: seq<Action>)
    requires Exec(maxPending, run).Some?
    ensures Inv(Exec(maxPending, run).value)
    decreases |run|
  {
    if run != [] {
      hide Inv;
      var prefix := run[..|run| - 1];
      RunsKeepInv(maxPending, prefix);
      NextKeeps(Exec(maxPending, prefix).value, run[|run| - 1]);
    }
  }

  /** Safety over every run of one worker: the k-th response read goes to the item whose request was
      the k-th written, no item is signalled twice (so the one-place done channel never blocks), and
      an item still queued or held by the worker was not signalled. */
  lemma PipelineSafety(maxPending: int, run: seq<Action>)
    requires Exec(maxPending, run).Some?
    ensures var s := Exec(maxPending, run).value;
            && |s.answered| <= |s.written|
            && (forall k :: 0 <= k < |s.answered| ==> s.answered[k] == s.written[k])
            && (forall w :: 0 <= w < |s.signals| ==> s.signals[w] <= 1)
            && (forall w :: w in s.chW || w in s.chR || w in WriterHas(s.writer) || w in ReaderHas(s.reader) ==>
                 0 <= w < |s.signals| && s.signals[w] == 0)
  {
    RunsKeepInv(maxPending, run);
    hide Exec, Times;
    var s := Exec(maxPending, run).value;
    forall w | 0 <= w < |s.signals|
      ensures s.signals[w] <= 1
    {
      assert Places(s, w) == 1;
    }
    forall w | w in s.chW || w in s.chR || w in WriterHas(s.writer) || w in ReaderHas(s.reader)
      ensures 0 <= w < |s.signals| && s.signals[w] == 0
    {
      ItemExists(s, w);
    }
  }

  /** A caller that got the signal may recycle its item: nobody else refers to it any more. */
  lemma ReturnedIsFree(s: State, w: Work)
    requires Inv(s) && 0 <= w < |s.callers| && s.signals[w] > 0
    ensures w !in s.chW && w !in s.chR && w !in WriterHas(s.writer) && w !in ReaderHas(s.reader)
  {
    TimesMember(s.chW, w);
    TimesMember(s.chR, w);
    TimesMember(WriterHas(s.writer), w);
    TimesMember(ReaderHas(s.reader), w);
    hide Times;
    assert Places(s, w) == 1;
  }
}
