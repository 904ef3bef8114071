/** The event source of src/rcrpc/rcrpc.c: its callbacks over four connection states and the
    set of polled descriptors, as a state machine and as the object the callbacks update. */
module RpcSource {
  import opened Wrappers

  datatype Phase = Unconnected | Connected | Idle | Disconnected

  /** The G_IO_IN, G_IO_HUP and G_IO_ERR bits a poll reported for one descriptor. */
  datatype Revents = Revents(readable: bool, hup: bool, err: bool) {
    predicate Closed() {
      hup || err
    }
  }

  const QUIET := Revents(false, false, false)

  /** The source with its history: descriptors added and removed, connections accepted,
      accepted connections that were given up before they were ever polled, closed connections
      reported, accepts made while the listening socket was not readable, and the packets that
      were received, dispatched and freed. */
  datatype State = State(
    phase: Phase,
    registered: nat,
    fd: int,
    armed: bool,
    listen: Revents,
    client: Revents,
    stopped: bool,
    accepts: nat,
    adds: nat,
    removes: nat,
    lost: nat,
    closes: nat,
    blind: nat,
    live: set<nat>,
    received: seq<nat>,
    dispatched: seq<nat>,
    freed: seq<nat>)

  /** g_source_new zeroes the structure. */
  const INITIAL: State :=
    State(Unconnected, 0, 0, false, QUIET, QUIET, false, 0, 0, 0, 0, 0, 0, {}, [], [], [])

  /** What the outside answers: the client socket in `Prepare`, the readiness in `Poll`, and in
      `Dispatch` the results of accept, receive and of the handler. */
  datatype Step =
    | Prepare(socket: int)
    | Poll(listen: Revents, client: Revents)
    | Check
    | Dispatch(accept: int, recv: int, result: int)

  /** The client socket is added to the poll set, or the connection given up. */
  function Watched(s: State, socket: int): State {
    if socket < 0 then s.(phase := Unconnected, lost := s.lost + 1)
    else s.(armed := true, fd := socket, registered := s.registered + 1, adds := s.adds + 1, phase := Idle)
  }

  function Unwatched(s: State): State {
    var t := s.(armed := false, fd := -1, phase := Unconnected);
    if s.registered > 0 then t.(registered := s.registered - 1, removes := s.removes + 1) else t
  }

  function Prepared(s: State, socket: int): State {
    match s.phase
    case Unconnected => s
    case Connected => Watched(s, socket)
    case Idle => s
    case Disconnected => Unwatched(s)
  }

  /** A poll reports on the listening socket always, on the client only while it is registered;
      otherwise the old report stays. */
  function Polled(s: State, listen: Revents, client: Revents): State {
    s.(listen := listen, client := if s.registered > 0 then client else s.client)
  }

  /** Whether `check` asks for a dispatch. */
  predicate Ready(s: State) {
    !s.listen.Closed() && (s.listen.readable || s.client.Closed() || s.client.readable)
  }

  function Checked(s: State): State {
    if !s.listen.Closed() && !s.listen.readable && s.client.Closed() then
      s.(phase := Disconnected, closes := s.closes + 1, lost := s.lost + if s.phase.Connected? then 1 else 0)
    else s
  }

  function Accepted(s: State, accept: int): State {
    var t := s.(blind := s.blind + if s.listen.readable then 0 else 1);
    if accept < 0 then t else t.(accepts := s.accepts + 1, phase := Connected)
  }

  lemma AcceptKeepsGoing(s: State, accept: int)
    ensures Accepted(s, accept).stopped == s.stopped
  {}

  function Received(s: State, recv: int, result: int): State {
    if recv < 0 && recv != -ECONNRESET then s.(stopped := true)
    else if recv == 0 || recv == -ECONNRESET then s.(phase := Disconnected, closes := s.closes + 1)
    else
      var p := |s.received|;
      s.(received := s.received + [p], dispatched := s.dispatched + [p], freed := s.freed + [p],
         stopped := result < 0 && result != -ENOSYS)
  }

  function Dispatched(s: State, accept: int, recv: int, result: int): State {
    match s.phase
    case Unconnected => Accepted(s, accept)
    case Connected => s
    case Idle => Received(s, recv, result)
    case Disconnected => s
  }

  function Apply(s: State, a: Step): State {
    match a
    case Prepare(socket) => Prepared(s, socket)
    case Poll(listen, client) => Polled(s, listen, client)
    case Check => Checked(s)
    case Dispatch(accept, recv, result) => Dispatched(s, accept, recv, result)
  }

  /** Any interleaving of the callbacks; a source that asked to be removed takes no more. */
  function Run(s: State, steps: seq<Step>): State
    decreases steps
  {
    if steps == [] || s.stopped then s else Run(Apply(s, steps[0]), steps[1..])
  }

  predicate Inv(s: State) {
    && (s.phase.Idle? ==> s.registered == 1)
    && (s.phase.Unconnected? || s.phase.Connected? ==> s.registered == 0)
    && s.registered <= 1
    && (s.registered == 1 <==> s.armed)
    && (s.registered == 1 ==> s.fd >= 0)
    && (s.registered == 0 && s.adds > 0 ==> s.fd == -1)
    && s.adds == s.removes + s.registered
    && s.accepts == s.adds + s.lost + (if s.phase.Connected? then 1 else 0)
    && s.live == {}
    && s.dispatched == s.received == s.freed
    && (forall i :: 0 <= i < |s.received| ==> s.received[i] == i)
  }

  lemma StepKeepsInv(s: State, a: Step)
    requires Inv(s)
    ensures Inv(Apply(s, a))
  {}

  lemma StepIsOrderly(s: State, a: Step)
    requires Inv(s)
    ensures Apply(s, a).adds > s.adds ==> s.registered == 0 && Apply(s, a).registered == 1
    ensures Apply(s, a).accepts > s.accepts ==> s.registered == 0
    ensures Apply(s, a).received != s.received ==> s.phase.Idle? && s.registered == 1
  {}

  /** What moves the connection on. An accept, a socket for it, a close and its clean-up lead from
      each phase to the next, and nothing else changes the phase. */
  lemma PhaseMoves(s: State, a: Step)
    requires Inv(s)
    ensures Apply(s, a).phase == match a
            case Dispatch(accept, _, _) =>
              if s.phase.Unconnected? && accept >= 0 then Connected
              else if s.phase.Idle? && a.recv in {0, -ECONNRESET} then Disconnected
              else s.phase
            case Prepare(socket) =>
              if s.phase.Connected? && socket >= 0 then Idle
              else if s.phase.Connected? || s.phase.Disconnected? then Unconnected
              else s.phase
            case Check => if s.listen == QUIET && s.client.Closed() then Disconnected else s.phase
            case Poll(_, _) => s.phase
  {}

  /** The descriptor that is polled is the client's own socket, for as long as it is polled. */
  lemma PollsTheClient(s: State, a: Step)
    requires Inv(s)
    ensures var t := Apply(s, a);
            if s.phase.Connected? && a.Prepare? && a.socket >= 0 then t.registered == 1 && t.armed && t.fd == a.socket
            else if s.phase.Disconnected? && a.Prepare? then t.registered == 0 && !t.armed && t.fd == -1
            else t.registered == s.registered && t.armed == s.armed && t.fd == s.fd
  {}

  /** A request: dispatched while idle, with something received. */
  predicate Serves(s: State, a: Step) {
    s.phase.Idle? && a.Dispatch? && a.recv > 0
  }

  /** Exactly what a step receives: one new packet for a request, which goes to the handler once
      and is freed once, and otherwise nothing. The source stops exactly on a failing receive
      other than a reset, and on a failing handler other than a missing one. */
  lemma ReceivesExactlyWhen(s: State, a: Step)
    requires Inv(s) && !s.stopped
    ensures var more := if s.phase.Idle? && a.Dispatch? && a.recv > 0 then [|s.received|] else [];
            && Apply(s, a).received == s.received + more
            && Apply(s, a).dispatched == s.dispatched + more
            && Apply(s, a).freed == s.freed + more
    ensures Apply(s, a).stopped <==>
              && s.phase.Idle? && a.Dispatch?
              && if a.recv > 0 then a.result < 0 && a.result != -ENOSYS else a.recv < 0 && a.recv != -ECONNRESET
  {}

  /** The requests along a run, up to where the source stops. */
  function Requests(s: State, steps: seq<Step>): nat
    decreases steps
  {
    if steps == [] || s.stopped then 0
    else (if Serves(s, steps[0]) then 1 else 0) + Requests(Apply(s, steps[0]), steps[1..])
  }

  /** Over any run, every request is received, and nothing else is. */
  lemma {:induction false} RunServesEveryRequest(s: State, steps: seq<Step>)
    requires Inv(s)
    ensures s.received <= Run(s, steps).received
    ensures |Run(s, steps).received| == |s.received| + Requests(s, steps)
    decreases steps
  {
    hide Apply, Inv;
    if steps != [] && !s.stopped {
      StepKeepsInv(s, steps[0]);
      ReceivesExactlyWhen(s, steps[0]);
      RunServesEveryRequest(Apply(s, steps[0]), steps[1..]);
    }
  }

  /** Main result: whatever the order of the callbacks, the client descriptor is polled exactly
      while it should be and never added twice, every accepted connection is accounted for, and
      every packet received was dispatched once and freed once, in order. */
  lemma {:induction false} RunKeepsInv(s: State, steps: seq<Step>)
    requires Inv(s)
    ensures Inv(Run(s, steps))
    decreases steps
  {
    if steps != [] && !s.stopped {
      StepKeepsInv(s, steps[0]);
      RunKeepsInv(Apply(s, steps[0]), steps[1..]);
    }
  }

  /** From the start: between two additions of a descriptor lies its removal, and an accept
      never happens while a client is still polled. */
  lemma EveryRunIsOrderly(steps: seq<Step>, a: Step)
    ensures var s := Run(INITIAL, steps); var t := Apply(s, a);
            && (t.adds > s.adds ==> s.registered == 0 && t.registered == 1)
            && (t.accepts > s.accepts ==> s.registered == 0)
            && (t.received != s.received ==> s.phase.Idle? && s.registered == 1)
  {
    hide Run, Apply, Inv;
    InvAtStart();
    RunKeepsInv(INITIAL, steps);
    StepIsOrderly(Run(INITIAL, steps), a);
  }

  lemma InvAtStart()
    ensures Inv(INITIAL)
  {}

  /** Exactly when a step gives an accepted connection up, in any interleaving: prepare finds no
      socket for it, or check runs before prepare and sees a closed client - which can only be
      the report left over from the last one. */
  lemma LosesAClientExactlyWhen(s: State, a: Step)
    requires Inv(s)
    ensures Apply(s, a).lost > s.lost <==>
              && s.phase.Connected?
              && match a
                 case Prepare(socket) => socket < 0
                 case Check => s.client.Closed() && s.listen == QUIET
                 case _ => false
    ensures Apply(s, a).lost > s.lost ==> Apply(s, a).lost == s.lost + 1 && Apply(s, a).adds == s.adds
  {}

  // ---------------------------------------------------------------- GLib's order

  /** One turn of the main loop: prepare, poll, check, and dispatch only if check asked. */
  datatype Turn = Turn(socket: int, listen: Revents, client: Revents, accept: int, recv: int, result: int)

  /** The source as `check` sees it. */
  function BeforeCheck(s: State, t: Turn): State {
    Polled(Prepared(s, t.socket), t.listen, t.client)
  }

  function Turned(s: State, t: Turn): State {
    var u := BeforeCheck(s, t);
    if Ready(u) then Dispatched(Checked(u), t.accept, t.recv, t.result) else Checked(u)
  }

  function Turns(s: State, ts: seq<Turn>): State
    decreases ts
  {
    if ts == [] || s.stopped then s else Turns(Turned(s, ts[0]), ts[1..])
  }

  /** In GLib's order check never finds a connection that is accepted but not polled, so only a
      failing socket call gives one up. The code reports that call, and a failing accept, at
      GLib's error level, which GLib keeps always fatal: no ordinary program goes on from there,
      so for it no turn at all gives a connection up. */
  lemma OnlyTheSocketLosesClients(s: State, t: Turn)
    requires Inv(s)
    ensures BeforeCheck(s, t).phase in {Unconnected, Idle}
    ensures Turned(s, t).lost == s.lost + if s.phase.Connected? && t.socket < 0 then 1 else 0
    ensures Inv(Turned(s, t))
  {
    assert BeforeCheck(s, t).phase in {Unconnected, Idle};
    TurnKeepsInv(s, t);
  }

  lemma TurnKeepsInv(s: State, t: Turn)
    requires Inv(s)
    ensures Inv(Turned(s, t))
  {
    hide Inv, Prepared, Polled, Checked, Dispatched;
    StepKeepsInv(s, Prepare(t.socket));
    StepKeepsInv(Prepared(s, t.socket), Poll(t.listen, t.client));
    StepKeepsInv(BeforeCheck(s, t), Check);
    StepKeepsInv(Checked(BeforeCheck(s, t)), Dispatch(t.accept, t.recv, t.result));
  }

  lemma {:induction false} TurnsLoseNothing(s: State, ts: seq<Turn>)
    requires Inv(s) && forall t :: t in ts ==> t.socket >= 0
    ensures Inv(Turns(s, ts)) && Turns(s, ts).lost == s.lost
    decreases ts
  {
    if ts != [] && !s.stopped {
      OnlyTheSocketLosesClients(s, ts[0]);
      TurnsLoseNothing(Turned(s, ts[0]), ts[1..]);
    }
  }

  /** A client is polled in this turn. */
  predicate Watching(s: State, t: Turn) {
    s.phase.Idle? || (s.phase.Connected? && t.socket >= 0)
  }

  /** Exactly when a turn of the main loop serves a request: a client is polled, there is news of
      it or of the listening socket, and something is received. */
  lemma ServesExactlyWhen(s: State, t: Turn)
    requires Inv(s)
    ensures var news := t.listen.readable || (t.client.readable && !t.client.Closed());
            Turned(s, t).received == s.received +
              if Watching(s, t) && !t.listen.Closed() && news && t.recv > 0 then [|s.received|] else []
  {}

  /** Exactly when a turn accepts a client: none is polled, the listening socket is not closed,
      accept succeeds, and the listening socket is readable - or the last client's readiness
      still says so. */
  lemma AcceptsExactlyWhen(s: State, t: Turn)
    requires Inv(s)
    ensures var stale := s.client.readable && !s.client.Closed();
            Turned(s, t).accepts == s.accepts +
              if !Watching(s, t) && !t.listen.Closed() && (t.listen.readable || stale) && t.accept >= 0 then 1 else 0
    ensures Turned(s, t).accepts > s.accepts ==> Turned(s, t).phase == Connected
  {}

  /** Exactly when a turn calls accept although the listening socket is not readable: no client
      is being polled or about to be, the poll brought nothing for the listening socket, and the
      readiness left over from the previous client says readable and not closed. Such an accept
      may fail, and that ends the program. */
  lemma AcceptsBlindlyExactlyWhen(s: State, t: Turn)
    requires Inv(s)
    ensures Turned(s, t).blind > s.blind <==>
              && (s.phase in {Unconnected, Disconnected} || (s.phase.Connected? && t.socket < 0))
              && t.listen == QUIET
              && s.client.readable && !s.client.Closed()
  {}

  /** Exactly when a turn receives from a client that reported nothing readable: a client is being
      polled or about to be, and it is the listening socket that is readable. */
  lemma ReceivesBlindlyExactlyWhen(s: State, t: Turn)
    requires Inv(s)
    ensures var u := BeforeCheck(s, t);
            Ready(u) && Checked(u).phase.Idle? && !t.client.readable <==>
              && (s.phase.Idle? || (s.phase.Connected? && t.socket >= 0))
              && t.listen.readable && !t.listen.Closed() && !t.client.readable
  {}

  /** Every orderly close - the client readable, nothing to receive - is followed by such an
      accept in the next turn that brings no new connection. */
  lemma OrderlyCloseMakesItAcceptBlindly(s: State, close: Turn, next: Turn)
    requires Inv(s) && s.phase.Idle?
    requires close.listen == QUIET && close.client == Revents(true, false, false) && close.recv == 0
    requires next.listen == QUIET
    ensures Turned(s, close).phase == Disconnected
    ensures Turned(Turned(s, close), next).blind == s.blind + 1
  {}

  /** A hang-up is reported again in every turn until the listening socket has news. */
  lemma {:induction false} HangupIsReportedAgain(s: State, ts: seq<Turn>)
    requires Inv(s) && s.phase.Disconnected? && s.client.Closed() && !s.stopped
    requires forall t :: t in ts ==> t.listen == QUIET
    ensures Turns(s, ts).closes == s.closes + |ts| && Turns(s, ts).phase.Disconnected?
    decreases ts
  {
    if ts != [] {
      var u := Turned(s, ts[0]);
      assert u.phase.Disconnected? && u.closes == s.closes + 1 && u.client.Closed();
      OnlyTheSocketLosesClients(s, ts[0]);
      HangupIsReportedAgain(u, ts[1..]);
    }
  }

  // ---------------------------------------------------------------- the object

  class Source {
    var phase: Phase
    var registered: nat
    var fd: int
    var armed: bool
    var listen: Revents
    var client: Revents
    var stopped: bool
    var live: set<nat>
    ghost var accepts: nat
    ghost var adds: nat
    ghost var removes: nat
    ghost var lost: nat
    ghost var closes: nat
    ghost var blind: nat
    var received: seq<nat>
    var dispatched: seq<nat>
    var freed: seq<nat>

    ghost function View(): State
      reads this
    {
      State(phase, registered, fd, armed, listen, client, stopped, accepts, adds, removes, lost, closes, blind,
            live, received, dispatched, freed)
    }

    constructor ()
      ensures View() == INITIAL
    {
      phase, registered, fd, armed, listen, client := Unconnected, 0, 0, false, QUIET, QUIET;
      stopped, live := false, {};
      accepts, adds, removes, lost, closes, blind := 0, 0, 0, 0, 0, 0;
      received, dispatched, freed := [], [], [];
    }

    method AddPoll()
      modifies this`registered, this`adds
      ensures registered == old(registered) + 1 && adds == old(adds) + 1
    {
      registered, adds := registered + 1, adds + 1;
    }

    /** Removing a descriptor that is not there does nothing. */
    method RemovePoll()
      modifies this`registered, this`removes
      ensures if old(registered) > 0 then registered == old(registered) - 1 && removes == old(removes) + 1
              else registered == 0 && removes == old(removes)
    {
      if registered > 0 {
        registered, removes := registered - 1, removes + 1;
      }
    }

    method Watch(socket: int)
      modifies this
      ensures View() == Watched(old(View()), socket)
    {
      var err := socket;
      if err < 0 {
        phase, lost := Unconnected, lost + 1;
      } else {
        armed := true;
        fd := err;
        AddPoll();
        phase := Idle;
      }
    }

    method Unwatch()
      modifies this
      ensures View() == Unwatched(old(View()))
    {
      RemovePoll();
      armed := false;
      fd := -1;
      phase := Unconnected;
    }

    method Prepare(socket: int) returns (ready: bool, timeout: int)
      modifies this
      ensures View() == Prepared(old(View()), socket)
      ensures !ready && timeout == -1
    {
      hide Watched, Unwatched;
      match phase {
        case Unconnected =>
        case Connected => Watch(socket);
        case Idle =>
        case Disconnected => Unwatch();
      }
      ready, timeout := false, -1;
    }

    method Poll(polledListen: Revents, polledClient: Revents)
      modifies this`listen, this`client
      ensures View() == Polled(old(View()), polledListen, polledClient)
    {
      listen := polledListen;
      if registered > 0 {
        client := polledClient;
      }
    }

    method Check() returns (ready: bool)
      modifies this
      ensures View() == Checked(old(View())) && ready == Ready(old(View()))
    {
      if listen.hup || listen.err {
        return false;
      }
      if listen.readable {
        return true;
      }
      if client.hup || client.err {
        lost := lost + if phase.Connected? then 1 else 0;
        phase, closes := Disconnected, closes + 1;
        return true;
      }
      if client.readable {
        return true;
      }
      return false;
    }

    /** A packet that is not live cannot be freed. */
    method FreePacket(p: nat)
      requires p in live
      modifies this`live, this`freed
      ensures live == old(live) - {p} && freed == old(freed) + [p]
    {
      live, freed := live - {p}, freed + [p];
    }

    method Accept(accept: int)
      modifies this
      ensures View() == Accepted(old(View()), accept)
    {
      blind := blind + if listen.readable then 0 else 1;
      var err := accept;
      if err < 0 {
        return;
      }
      accepts := accepts + 1;
      phase := Connected;
    }

    /** The packet is freed on the success, -ENOSYS and error paths alike. */
    method HandlePacket(result: int) returns (keep: bool)
      requires live == {} && !stopped
      modifies this`live, this`received, this`dispatched, this`freed, this`stopped
      ensures received == old(received) + [|old(received)|]
      ensures dispatched == old(dispatched) + [|old(received)|] && freed == old(freed) + [|old(received)|]
      ensures live == {} && stopped == (result < 0 && result != -ENOSYS) && keep == !stopped
    {
      keep := true;
      var packet := NewPacket();
      dispatched := dispatched + [packet];
      var err := result;
      if err == -ENOSYS {
      } else if err < 0 {
        FreePacket(packet);
        keep, stopped := false, true;
        return;
      }
      FreePacket(packet);
    }

    method Receive(recv: int, result: int) returns (keep: bool)
      requires live == {} && !stopped
      modifies this
      ensures View() == Received(old(View()), recv, result)
      ensures keep <==> !stopped
    {
      keep := true;
      var err := recv;
      if err < 0 && err != -ECONNRESET {
        keep, stopped := false, true;
        return;
      }
      if err == 0 || err == -ECONNRESET {
        phase, closes := Disconnected, closes + 1;
        return;
      }
      keep := HandlePacket(result);
    }

    method Dispatch(accept: int, recv: int, result: int) returns (keep: bool)
      requires live == {} && !stopped
      modifies this
      ensures View() == Dispatched(old(View()), accept, recv, result)
      ensures keep <==> !stopped
    {
      hide Accepted, Received;
      keep := true;
      match phase {
        case Unconnected =>
          Accept(accept);
          assert !View().stopped by { AcceptKeepsGoing(old(View()), accept); }
        case Connected =>
        case Idle => keep := Receive(recv, result);
        case Disconnected =>
      }
    }

    /** The packet a successful receive allocates. */
    method NewPacket() returns (p: nat)
      requires live == {}
      modifies this`live, this`received
      ensures p == |old(received)| && received == old(received) + [p] && live == {p}
    {
      p := |received|;
      received, live := received + [p], {p};
    }
  }
}
