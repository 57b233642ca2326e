/** The bookkeeping of main's event loop (lines 225-249, 252-253).

    The kernel side is abstracted as inputs: each epoll_wait returns a batch
    of ready descriptors, an interruption or a failure, and each ready
    descriptor comes with what its handler reports: for the listening socket,
    the client descriptor that handle_new_connection registered, if any; for
    a client, the return code of handle_client_data.  The state is the set of
    descriptors registered with epoll and the descriptors closed by client
    teardown (lines 244-245) and by cleanup (lines 252-253).  The closes that
    handle_new_connection makes on its own error paths (lines 102, 111) are
    not recorded. */
module EventLoop {
  import opened Framing

  /** One ready descriptor and what its handler reports. */
  datatype Event = Event(fd: nat, accepted: Option<nat>, rc: int)

  /** What one epoll_wait returns. */
  datatype Wait =
    | Ready(events: seq<Event>)  // nfds >= 0, the timeout giving an empty batch
    | Interrupted                // -1 with EINTR
    | WaitFailed                 // -1 with any other errno

  /** The epoll interest set and the descriptors closed by teardown and
      cleanup, in order. */
  datatype Registry = Registry(registered: set<nat>, closed: seq<nat>)

  /** Lines 237-247: the listening socket only triggers an accept attempt;
      a client whose handler returns -1 is removed from epoll and closed. */
  function Dispatch(listenFd: nat, r: Registry, e: Event): (r': Registry)
    ensures r'.closed == r.closed + Failed(listenFd, [e])
    ensures e.fd == listenFd ==> r.registered <= r'.registered
    ensures e.fd != listenFd ==> r'.registered <= r.registered
  {
    assert [e][1..] == [];
    if e.fd == listenFd then
      match e.accepted
      case Some(c) => r.(registered := r.registered + {c})
      case None => r
    else if e.rc == -1 then Registry(r.registered - {e.fd}, r.closed + [e.fd])
    else r
  }

  /** Lines 236-248: the events of one batch, in order. */
  function DispatchAll(listenFd: nat, r: Registry, events: seq<Event>): (r': Registry)
    ensures |r.closed| <= |r'.closed| <= |r.closed| + |events|
    ensures r'.closed[..|r.closed|] == r.closed
    decreases |events|
  {
    if events == [] then r
    else DispatchAll(listenFd, Dispatch(listenFd, r, events[0]), events[1..])
  }

  /** Lines 225-249: an interrupted wait is retried, a failed one ends the
      loop, and a batch is dispatched.  The loop also ends when the waits run
      out, which stands for the signal handler clearing `running`. */
  function Run(listenFd: nat, r: Registry, waits: seq<Wait>): (r': Registry)
    ensures |r.closed| <= |r'.closed|
    ensures r'.closed[..|r.closed|] == r.closed
    decreases |waits|
  {
    if waits == [] then r
    else match waits[0]
      case WaitFailed => r
      case Interrupted => Run(listenFd, r, waits[1..])
      case Ready(events) => Run(listenFd, DispatchAll(listenFd, r, events), waits[1..])
  }

  // ---------------------------------------------------------------------
  // Reference definitions

  /** The client descriptors whose handler failed, in event order. */
  function Failed(listenFd: nat, events: seq<Event>): (f: seq<nat>)
    ensures forall k :: 0 <= k < |f| ==> f[k] != listenFd
    decreases |events|
  {
    if events == [] then []
    else (if events[0].fd != listenFd && events[0].rc == -1 then [events[0].fd] else [])
         + Failed(listenFd, events[1..])
  }

  /** The events of the batches returned before the first failed wait. */
  function Delivered(waits: seq<Wait>): seq<Event>
    decreases |waits|
  {
    if waits == [] then []
    else match waits[0]
      case WaitFailed => []
      case Interrupted => Delivered(waits[1..])
      case Ready(events) => events + Delivered(waits[1..])
  }

  /** The index of the first failed wait, or |waits|. */
  function FirstFailure(waits: seq<Wait>): (k: nat)
    ensures k <= |waits|
    ensures forall i :: 0 <= i < k ==> !waits[i].WaitFailed?
    ensures k < |waits| ==> waits[k].WaitFailed?
    decreases |waits|
  {
    if waits == [] || waits[0].WaitFailed? then 0 else 1 + FirstFailure(waits[1..])
  }

  // ---------------------------------------------------------------------
  // Properties

  lemma {:induction false} DispatchAllAppend(listenFd: nat, r: Registry, a: seq<Event>, b: seq<Event>)
    ensures DispatchAll(listenFd, r, a + b) == DispatchAll(listenFd, DispatchAll(listenFd, r, a), b)
    decreases |a|
  {
    if a == [] {
      assert a + b == b;
    } else {
      assert (a + b)[0] == a[0] && (a + b)[1..] == a[1..] + b;
      DispatchAllAppend(listenFd, Dispatch(listenFd, r, a[0]), a[1..], b);
    }
  }

  /** Teardown: the client teardown of a batch closes exactly the clients
      whose handler returned -1, in order, and never the listening socket. */
  lemma {:induction false} ClosedAreFailed(listenFd: nat, r: Registry, events: seq<Event>)
    ensures DispatchAll(listenFd, r, events).closed == r.closed + Failed(listenFd, events)
    decreases |events|
  {
    if events != [] {
      ClosedAreFailed(listenFd, Dispatch(listenFd, r, events[0]), events[1..]);
    }
  }

  /** A client whose handler returned -1 is no longer registered, unless a
      later accept in the same batch hands out its descriptor again. */
  lemma {:induction false} FailedDeregistered(listenFd: nat, r: Registry, events: seq<Event>, i: nat)
    requires i < |events| && events[i].fd != listenFd && events[i].rc == -1
    requires forall j :: i < j < |events| && events[j].fd == listenFd ==> events[j].accepted != Some(events[i].fd)
    ensures events[i].fd !in DispatchAll(listenFd, r, events).registered
  {
    var fd := events[i].fd;
    var pre := events[..i];
    var post := events[i + 1..];
    assert events == pre + ([events[i]] + post);
    DispatchAllAppend(listenFd, r, pre, [events[i]] + post);
    var r1 := DispatchAll(listenFd, r, pre);
    assert DispatchAll(listenFd, r1, [events[i]] + post)
        == DispatchAll(listenFd, Dispatch(listenFd, r1, events[i]), post);
    NotReadded(listenFd, Dispatch(listenFd, r1, events[i]), post, fd);
  }

  /** A descriptor that is not registered stays so through events that
      neither accept it nor are its own. */
  lemma {:induction false} NotReadded(listenFd: nat, r: Registry, events: seq<Event>, fd: nat)
    requires fd != listenFd && fd !in r.registered
    requires forall j :: 0 <= j < |events| && events[j].fd == listenFd ==> events[j].accepted != Some(fd)
    ensures fd !in DispatchAll(listenFd, r, events).registered
    decreases |events|
  {
    if events != [] {
      NotReadded(listenFd, Dispatch(listenFd, r, events[0]), events[1..], fd);
    }
  }

  /** The listening socket stays registered and open for the whole run. */
  lemma {:induction false} ListenerKept(listenFd: nat, r: Registry, waits: seq<Wait>)
    requires listenFd in r.registered && listenFd !in r.closed
    ensures var r' := Run(listenFd, r, waits);
            listenFd in r'.registered && listenFd !in r'.closed
    decreases |waits|
  {
    if waits != [] && !waits[0].WaitFailed? {
      var r1 := if waits[0].Ready? then DispatchAll(listenFd, r, waits[0].events) else r;
      if waits[0].Ready? {
        ListenerKeptBatch(listenFd, r, waits[0].events);
      }
      ListenerKept(listenFd, r1, waits[1..]);
    }
  }

  lemma {:induction false} ListenerKeptBatch(listenFd: nat, r: Registry, events: seq<Event>)
    requires listenFd in r.registered && listenFd !in r.closed
    ensures var r' := DispatchAll(listenFd, r, events);
            listenFd in r'.registered && listenFd !in r'.closed
    decreases |events|
  {
    if events != [] {
      ListenerKeptBatch(listenFd, Dispatch(listenFd, r, events[0]), events[1..]);
    }
  }

  /** The run is the dispatch, in order, of every event returned before the
      first failed wait: interrupted waits do nothing, and nothing after a
      failed wait is looked at. */
  lemma {:induction false} RunDispatches(listenFd: nat, r: Registry, waits: seq<Wait>)
    ensures Run(listenFd, r, waits) == DispatchAll(listenFd, r, Delivered(waits))
    ensures Run(listenFd, r, waits) == Run(listenFd, r, waits[..FirstFailure(waits)])
    decreases |waits|
  {
    if waits == [] {
    } else if waits[0].WaitFailed? {
      assert waits[..0] == [];
    } else {
      var rest := waits[1..];
      assert waits[..FirstFailure(waits)][1..] == rest[..FirstFailure(rest)];
      if waits[0].Ready? {
        var events := waits[0].events;
        DispatchAllAppend(listenFd, r, events, Delivered(rest));
        RunDispatches(listenFd, DispatchAll(listenFd, r, events), rest);
      } else {
        RunDispatches(listenFd, r, rest);
      }
    }
  }

  // ---------------------------------------------------------------------
  // The loop, updating the registry in place

  class Server {
    const listenFd: nat
    const epollFd: nat
    var registered: set<nat>
    var closed: seq<nat>

    function State(): Registry
      reads this
    {
      Registry(registered, closed)
    }

    /** Lines 198-220: the listening socket is the one registered descriptor. */
    constructor (listenFd: nat, epollFd: nat)
      requires listenFd != epollFd
      ensures this.listenFd == listenFd && this.epollFd == epollFd
      ensures registered == {listenFd} && closed == []
    {
      this.listenFd := listenFd;
      this.epollFd := epollFd;
      registered := {listenFd};
      closed := [];
    }

    /** Lines 237-247, one ready descriptor. */
    method HandleEvent(e: Event)
      modifies this
      ensures State() == Dispatch(listenFd, old(State()), e)
    {
      if e.fd == listenFd {
        if e.accepted.Some? {
          registered := registered + {e.accepted.value};
        }
      } else if e.rc == -1 {
        registered := registered - {e.fd};
        closed := closed + [e.fd];
      }
    }

    /** Lines 225-249: the main loop over the waits it is given. */
    method Serve(waits: seq<Wait>)
      modifies this
      ensures State() == Run(listenFd, old(State()), waits)
    {
      var n := 0;
      while n < |waits|
        invariant n <= |waits|
        invariant Run(listenFd, State(), waits[n..]) == Run(listenFd, old(State()), waits)
        decreases |waits| - n
      {
        assert waits[n..][0] == waits[n] && waits[n..][1..] == waits[n + 1..];
        var wait := waits[n];
        n := n + 1;
        if wait.Interrupted? {
          continue;
        }
        if wait.WaitFailed? {
          break;
        }
        var events := wait.events;
        ghost var before := State();
        var i := 0;
        while i < |events|
          invariant i <= |events|
          invariant DispatchAll(listenFd, State(), events[i..]) == DispatchAll(listenFd, before, events)
          decreases |events| - i
        {
          assert events[i..][0] == events[i] && events[i..][1..] == events[i + 1..];
          HandleEvent(events[i]);
          i := i + 1;
        }
      }
    }

    /** Lines 251-253: only the listening socket and the epoll instance are
        closed; clients still registered are left open. */
    method Shutdown()
      modifies this
      ensures registered == old(registered)
      ensures closed == old(closed) + [listenFd, epollFd]
    {
      closed := closed + [listenFd, epollFd];
    }
  }
}
