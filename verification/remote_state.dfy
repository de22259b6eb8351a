/** The connection state of a `pw_remote` (src/pipewire/remote.c): the
    state machine driven by the core's `done` and `error` events, and the
    events a remote emits to its listeners. */
module RemoteState {
  import opened Spa

  /** `enum pw_remote_state`; `Invalid` stands for any value outside the
      enumeration, which a caller can still pass in C. */
  datatype State = Error | Unconnected | Connecting | Connected | Invalid(raw: int)

  predicate IsValid(s: State)
  {
    !s.Invalid?
  }

  /** Events a remote emits to its listeners. */
  datatype RemoteEvent =
    | StateChanged(prev: State, next: State, error: Option<string>)
    | SyncReply(syncSeq: u32)

  /** The part of `struct pw_remote` the state machine touches: the state,
      the error message (absent is NULL), and the events emitted so far. */
  datatype Remote = Remote(state: State, error: Option<string>, events: seq<RemoteEvent>)

  /** `pw_remote_state_as_string`: the name of a state; anything outside the
      enumeration is "invalid-state". */
  function StateAsString(s: State): (r: string)
    ensures IsValid(s) ==> r != "invalid-state"
    ensures !IsValid(s) ==> r == "invalid-state"
  {
    match s
    case Error => "error"
    case Unconnected => "unconnected"
    case Connecting => "connecting"
    case Connected => "connected"
    case Invalid(_) => "invalid-state"
  }

  /** Reference inverse of `StateAsString` on the valid states. */
  function StateFromString(name: string): (r: Option<State>)
    ensures r.Some? ==> IsValid(r.value)
  {
    if name == "error" then Some(Error)
    else if name == "unconnected" then Some(Unconnected)
    else if name == "connecting" then Some(Connecting)
    else if name == "connected" then Some(Connected)
    else None
  }

  /** Every valid state's name reads back as that state, and the name of an
      invalid one reads back as nothing; so distinct valid states have
      distinct names. */
  lemma StateNamesRoundTrip(s: State)
    ensures IsValid(s) ==> StateFromString(StateAsString(s)) == Some(s)
    ensures !IsValid(s) ==> StateFromString(StateAsString(s)).None?
  {
  }

  /** Distinct valid states are told apart by their names. */
  lemma StateNamesDistinct(a: State, b: State)
    requires IsValid(a) && IsValid(b) && a != b
    ensures StateAsString(a) != StateAsString(b)
  {
    StateNamesRoundTrip(a);
    StateNamesRoundTrip(b);
  }

  /** `pw_remote_update_state`.  `msg` is the formatted error message,
      absent when no format was given or formatting failed.  A change of
      state replaces the error message and emits one `state_changed` event
      carrying the old and new states; updating to the current state does
      nothing at all.  The result is always 0. */
  function UpdateState(r: Remote, state: State, msg: Option<string>): (res: (Remote, int))
    ensures res.1 == 0
    ensures r.state == state ==> res.0 == r
    ensures r.state != state ==>
      && res.0.state == state && res.0.error == msg
      && res.0.events == r.events + [StateChanged(r.state, state, msg)]
  {
    if r.state != state then
      (Remote(state, msg, r.events + [StateChanged(r.state, state, msg)]), 0)
    else
      (r, 0)
  }

  /** Updating twice to the same state is updating once: the second call
      changes nothing, whatever message it brings. */
  lemma UpdateStateIdempotent(r: Remote, state: State, m1: Option<string>, m2: Option<string>)
    ensures UpdateState(UpdateState(r, state, m1).0, state, m2).0 == UpdateState(r, state, m1).0
  {
  }

  /** The events emitted so far tell the current state: every recorded
      change is a real change, each starts where the previous one ended,
      and the last ends in the current state. */
  predicate HistoryConsistent(r: Remote, initial: State)
  {
    Replay(initial, r.events) == Some(r.state)
    && forall i :: 0 <= i < |r.events| && r.events[i].StateChanged? ==> r.events[i].prev != r.events[i].next
  }

  /** The state reached from `s` by following the recorded changes; a
      change that does not start in the current state breaks the chain. */
  function Replay(s: State, events: seq<RemoteEvent>): Option<State>
    decreases |events|
  {
    if |events| == 0 then Some(s)
    else
      match events[0]
      case SyncReply(_) => Replay(s, events[1..])
      case StateChanged(prev, next, _) => if prev == s then Replay(next, events[1..]) else None
  }

  lemma {:induction false} ReplayAppend(s: State, events: seq<RemoteEvent>, e: RemoteEvent)
    requires Replay(s, events).Some?
    ensures Replay(s, events + [e]) ==
      match e
      case SyncReply(_) => Replay(s, events)
      case StateChanged(prev, next, _) => if prev == Replay(s, events).value then Some(next) else None
    decreases |events|
  {
    if |events| == 0 {
      assert events + [e] == [e];
    } else {
      assert (events + [e])[1..] == events[1..] + [e];
      match events[0]
      case SyncReply(_) => ReplayAppend(s, events[1..], e);
      case StateChanged(prev, next, _) => ReplayAppend(next, events[1..], e);
    }
  }

  /** `UpdateState` keeps the history consistent with the state. */
  lemma UpdateStateKeepsHistory(r: Remote, initial: State, state: State, msg: Option<string>)
    requires HistoryConsistent(r, initial)
    ensures HistoryConsistent(UpdateState(r, state, msg).0, initial)
  {
    if r.state != state {
      ReplayAppend(initial, r.events, StateChanged(r.state, state, msg));
    }
  }

  /** `core_event_done`: the reply to the initial sync (sequence number 0)
      marks the remote connected; every reply is then passed on to the
      listeners. */
  function CoreEventDone(r: Remote, syncSeq: u32): (res: Remote)
    ensures syncSeq == 0 ==> res.state == Connected
    ensures syncSeq != 0 ==> res.state == r.state && res.error == r.error
    ensures |res.events| >= 1 && res.events[|res.events| - 1] == SyncReply(syncSeq)
    ensures res.events[..|res.events| - 1] ==
      r.events + (if syncSeq == 0 && r.state != Connected then [StateChanged(r.state, Connected, None)] else [])
  {
    var r1 := if syncSeq == 0 then UpdateState(r, Connected, None).0 else r;
    r1.(events := r1.events + [SyncReply(syncSeq)])
  }

  /** `core_event_error`: the remote enters the error state with the
      server's message. */
  function CoreEventError(r: Remote, id: u32, res: int, msg: Option<string>): (r': Remote)
    ensures r'.state == Error
    ensures r.state != Error ==> r'.error == msg && r'.events == r.events + [StateChanged(r.state, Error, msg)]
    ensures r.state == Error ==> r' == r
  {
    UpdateState(r, Error, msg).0
  }

  /** Both core events keep the history consistent with the state. */
  lemma CoreEventsKeepHistory(r: Remote, initial: State, syncSeq: u32, id: u32, res: int, msg: Option<string>)
    requires HistoryConsistent(r, initial)
    ensures HistoryConsistent(CoreEventDone(r, syncSeq), initial)
    ensures HistoryConsistent(CoreEventError(r, id, res, msg), initial)
  {
    UpdateStateKeepsHistory(r, initial, Error, msg);
    var r1 := if syncSeq == 0 then UpdateState(r, Connected, None).0 else r;
    UpdateStateKeepsHistory(r, initial, Connected, None);
    ReplayAppend(initial, r1.events, SyncReply(syncSeq));
  }
}
