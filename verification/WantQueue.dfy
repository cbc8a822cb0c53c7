/** The queue of waiters of a host client (fasthttp/client.go, `wantConnQueue`): two stages,
    head[headPos..] and tail, that together behave as one FIFO queue. */
module WantQueue {
  import opened Basics

  /** The waiters in `q` from the first one that is still waiting on. */
  function DropDone<T>(q: seq<T>, done: set<T>): seq<T> {
    if q == [] || q[0] !in done then q else DropDone(q[1..], done)
  }

  lemma {:induction false} DropDoneFacts<T>(q: seq<T>, done: set<T>)
    ensures var r := DropDone(q, done);
            && |r| <= |q| && r == q[|q| - |r|..]
            && (r != [] ==> r[0] !in done)
            && forall i :: 0 <= i < |q| - |r| ==> q[i] in done
  {
    if q != [] && q[0] in done {
      DropDoneFacts(q[1..], done);
      var r := DropDone(q, done);
      assert q[1..][|q[1..]| - |r|..] == q[|q| - |r|..];
      forall i | 0 <= i < |q| - |r|
        ensures q[i] in done
      {
        assert i > 0 ==> q[i] == q[1..][i - 1];
      }
    }
  }

  function Entries<T>(s: seq<T>): seq<Option<T>> {
    seq(|s|, i requires 0 <= i < |s| => Some(s[i]))
  }

  function Values<T>(h: seq<Option<T>>): seq<T>
    requires forall i :: 0 <= i < |h| ==> h[i].Some?
  {
    seq(|h|, i requires 0 <= i < |h| && h[i].Some? => h[i].value)
  }

  class WantConnQueue<T(==)> {
    var head: seq<Option<T>>  // taken entries are set to nil
    var headPos: nat
    var tail: seq<T>

    ghost predicate Valid()
      reads this
    {
      headPos <= |head| && forall i :: headPos <= i < |head| ==> head[i].Some?
    }

    /** The queue as one sequence. */
    ghost function Contents(): seq<T>
      requires Valid()
      reads this
    {
      Values(head[headPos..]) + tail
    }

    constructor ()
      ensures Valid() && Contents() == []
    {
      head, headPos, tail := [], 0, [];
    }

    method Len() returns (n: nat)
      requires Valid()
      ensures n == |Contents()|
    {
      n := |head| - headPos + |tail|;
    }

    method PushBack(w: T)
      requires Valid()
      modifies this
      ensures Valid() && Contents() == old(Contents()) + [w]
    {
      tail := tail + [w];
    }

    method PopFront() returns (w: Option<T>)
      requires Valid()
      modifies this
      ensures Valid()
      ensures w == if old(Contents()) == [] then None else Some(old(Contents())[0])
      ensures Contents() == if old(Contents()) == [] then [] else old(Contents())[1..]
    {
      if headPos >= |head| {
        if |tail| == 0 {
          return None;
        }
        head, headPos, tail := Entries(tail), 0, [];
        assert Contents() == old(Contents());
      }
      w := head[headPos];
      head := head[headPos := None];
      headPos := headPos + 1;
    }

    method PeekFront() returns (w: Option<T>)
      requires Valid()
      ensures w == if Contents() == [] then None else Some(Contents()[0])
    {
      if headPos < |head| {
        return head[headPos];
      }
      if |tail| > 0 {
        return Some(tail[0]);
      }
      return None;
    }

    /** Pops waiters that are done from the front. */
    method ClearFront(done: set<T>) returns (cleaned: bool)
      requires Valid()
      modifies this
      ensures Valid() && Contents() == DropDone(old(Contents()), done)
      ensures cleaned <==> Contents() != old(Contents())
    {
      cleaned := false;
      DropDoneFacts(Contents(), done);
      while true
        invariant Valid() && DropDone(Contents(), done) == DropDone(old(Contents()), done)
        invariant cleaned <==> Contents() != old(Contents())
        invariant |Contents()| <= |old(Contents())|
        decreases |Contents()|
      {
        var w := PeekFront();
        if w.None? || w.value !in done {
          return;
        }
        var _ := PopFront();
        cleaned := true;
      }
    }

    /** The loop of `releaseConn` and `decConnsCount`: the first waiter that is still waiting, taken
        off the queue together with everything before it. */
    method PopWaiting(done: set<T>) returns (w: Option<T>)
      requires Valid()
      modifies this
      ensures Valid()
      ensures var live := DropDone(old(Contents()), done);
              if live == [] then w == None && Contents() == []
              else w == Some(live[0]) && Contents() == live[1..]
    {
      var n := Len();
      while n > 0
        invariant Valid() && n == |Contents()|
        invariant DropDone(Contents(), done) == DropDone(old(Contents()), done)
      {
        w := PopFront();
        if w.value !in done {
          return;
        }
        n := Len();
      }
      w := None;
    }
  }
}
