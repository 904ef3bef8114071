/** The UDP channels of src/rcrpc/net.c: which are open over a whole run, and the timed read on
    the synchronous one. */
module Net {
  import opened Wrappers

  /** `struct net_data` (when present), the open channels, and the history of references that
      were created and destroyed. Reference 0 stands for no channel. */
  datatype State = State(
    present: bool,
    async: int,
    sync: int,
    timeout: nat,
    live: set<int>,
    created: seq<int>,
    destroyed: seq<int>)

  const INITIAL: State := State(false, 0, 0, 0, {}, [], [])

  /** `error` is the negative result of a failing net_udp_create_channel. */
  datatype Step =
    | Init(error: Option<int>)
    | Config(timeout: nat, error: Option<int>)
    | Cleanup

  /** New references are positive and never reused. */
  function NextRef(s: State): int {
    |s.created| + 1
  }

  function Destroyed(s: State, ref: int): State {
    if ref == 0 then s else s.(live := s.live - {ref}, destroyed := s.destroyed + [ref])
  }

  function Created(s: State): State {
    s.(live := s.live + {NextRef(s)}, created := s.created + [NextRef(s)])
  }

  function CleanedUp(s: State): State {
    if s.present then
      Destroyed(Destroyed(s, s.async), s.sync).(present := false, async := 0, sync := 0, timeout := 0)
    else s
  }

  function Initialised(s: State, error: Option<int>): State {
    var t := CleanedUp(s).(present := true);
    if error.Some? then t else Created(t).(sync := NextRef(t))
  }

  function Configured(s: State, timeout: nat, error: Option<int>): State {
    if !s.present then s
    else
      var t := Destroyed(s, s.async).(async := 0, timeout := timeout % 0x10000);
      if error.Some? then t else Created(t).(async := NextRef(t))
  }

  function Apply(s: State, a: Step): State {
    match a
    case Init(error) => Initialised(s, error)
    case Config(timeout, error) => Configured(s, timeout, error)
    case Cleanup => CleanedUp(s)
  }

  function Run(s: State, steps: seq<Step>): State
    decreases steps
  {
    if steps == [] then s else Run(Apply(s, steps[0]), steps[1..])
  }

  /** Every channel created is open or was destroyed once. */
  ghost predicate Tidy(s: State) {
    && (forall i :: 0 <= i < |s.created| ==> s.created[i] == i + 1)
    && (forall r :: r in s.created <==> r in s.live || r in s.destroyed)
    && (forall r :: r in s.destroyed ==> r !in s.live)
    && (forall i, j :: 0 <= i < j < |s.destroyed| ==> s.destroyed[i] != s.destroyed[j])
  }

  /** The open channels are exactly the non-zero ones on record. */
  ghost predicate Inv(s: State) {
    && Tidy(s)
    && s.live == {s.async, s.sync} - {0}
    && (!s.present ==> s.async == s.sync == s.timeout == 0)
    && (s.async != 0 ==> s.async != s.sync)
    && s.timeout < 0x10000
  }

  lemma DestroyKeepsTidy(s: State, ref: int)
    requires Tidy(s) && (ref != 0 ==> ref in s.live)
    ensures Tidy(Destroyed(s, ref))
  {}

  lemma CreateKeepsTidy(s: State)
    requires Tidy(s)
    ensures Tidy(Created(s)) && NextRef(s) > 0 && NextRef(s) !in s.live
  {
    var t := Created(s);
    assert forall r :: r in s.created ==> r < NextRef(s);
    assert NextRef(s) !in s.created;
    assert t.created == s.created + [NextRef(s)];
  }

  lemma CleanupKeepsInv(s: State)
    requires Inv(s)
    ensures Inv(CleanedUp(s)) && CleanedUp(s).live == {} && !CleanedUp(s).present
  {
    hide Tidy;
    if s.present {
      DestroyKeepsTidy(s, s.async);
      DestroyKeepsTidy(Destroyed(s, s.async), s.sync);
      Record(Destroyed(Destroyed(s, s.async), s.sync), CleanedUp(s));
    }
  }

  /** The record is not part of the history. */
  lemma Record(s: State, t: State)
    requires Tidy(s) && t == s.(present := t.present, async := t.async, sync := t.sync, timeout := t.timeout)
    ensures Tidy(t)
  {}

  lemma StepKeepsInv(s: State, a: Step)
    requires Inv(s)
    ensures Inv(Apply(s, a))
  {
    hide Tidy;
    match a
    case Init(error) =>
      CleanupKeepsInv(s);
      var t := CleanedUp(s).(present := true);
      Record(CleanedUp(s), t);
      CreateKeepsTidy(t);
      Record(Created(t), Created(t).(sync := NextRef(t)));
    case Config(timeout, error) =>
      if s.present {
        DestroyKeepsTidy(s, s.async);
        var t := Destroyed(s, s.async).(async := 0, timeout := timeout % 0x10000);
        Record(Destroyed(s, s.async), t);
        CreateKeepsTidy(t);
        Record(Created(t), Created(t).(async := NextRef(t)));
      }
    case Cleanup =>
      CleanupKeepsInv(s);
  }

  /** What an init sets up: nothing asynchronous, and the synchronous channel it opened, if it
      could. */
  lemma InitOpensTheSyncChannel(s: State, error: Option<int>)
    requires Inv(s)
    ensures var t := Initialised(s, error);
            && t.present && t.async == 0 && t.timeout == 0
            && (error.Some? ==> t.sync == 0 && t.live == {})
            && (error.None? ==> t.sync == |s.created| + 1 && t.live == {t.sync})
  {
    hide Tidy;
    CleanupKeepsInv(s);
  }

  /** What a configuration changes: the asynchronous channel is the new one, or none if it could
      not be opened; the timeout keeps its low 16 bits; the synchronous channel stays. */
  lemma ConfigReplacesTheAsyncChannel(s: State, timeout: nat, error: Option<int>)
    requires Inv(s)
    ensures var t := Configured(s, timeout, error);
            if !s.present then t == s
            else
              && t.present && t.sync == s.sync
              && t.async == (if error.Some? then 0 else |s.created| + 1)
              && t.live == {t.async, t.sync} - {0}
              && (s.async != 0 ==> s.async !in t.live)
              && t.timeout == timeout % 0x10000 && (timeout < 0x10000 ==> t.timeout == timeout)
  {
    hide Tidy;
    StepKeepsInv(s, Config(timeout, error));
    if s.async != 0 {
      assert s.async in s.live;
      LiveIsOld(s, s.async);
    }
  }

  lemma LiveIsOld(s: State, r: int)
    requires Tidy(s) && r in s.live
    ensures r <= |s.created|
  {
    assert r in s.created;
  }

  /** The synchronous channel an init opened is there through any number of configurations. */
  lemma {:induction false} SyncChannelStays(s: State, steps: seq<Step>)
    requires Inv(s) && s.present && forall a :: a in steps ==> a.Config?
    ensures Run(s, steps).present && Run(s, steps).sync == s.sync
    ensures s.sync != 0 ==> s.sync in Run(s, steps).live
    decreases steps
  {
    hide Tidy;
    if steps != [] {
      var a := steps[0];
      ConfigReplacesTheAsyncChannel(s, a.timeout, a.error);
      StepKeepsInv(s, a);
      SyncChannelStays(Apply(s, a), steps[1..]);
    }
  }

  /** From the start, through any history: init, then configurations only. */
  lemma InitIsKept(before: seq<Step>, steps: seq<Step>)
    requires forall a :: a in steps ==> a.Config?
    ensures var s := Run(INITIAL, before); var t := Run(Initialised(s, None), steps);
            t.sync == |s.created| + 1 && t.sync in t.live
  {
    hide Initialised, Inv;
    assert Inv(INITIAL) by { InvAtStart(); }
    RunKeepsInv(INITIAL, before);
    var s := Run(INITIAL, before);
    StepKeepsInv(s, Init(None));
    InitOpensTheSyncChannel(s, None);
    SyncChannelStays(Initialised(s, None), steps);
  }

  lemma InvAtStart()
    ensures Inv(INITIAL)
  {}

  /** Main result: over any run, failing or not, channels are neither leaked nor destroyed
      twice. */
  lemma {:induction false} RunKeepsInv(s: State, steps: seq<Step>)
    requires Inv(s)
    ensures Inv(Run(s, steps))
    decreases steps
  {
    if steps != [] {
      StepKeepsInv(s, steps[0]);
      RunKeepsInv(Apply(s, steps[0]), steps[1..]);
    }
  }

  /** Whatever came before, after a cleanup every channel ever created has been destroyed, each
      once. */
  lemma CleanupLeavesNothing(steps: seq<Step>)
    ensures var t := CleanedUp(Run(INITIAL, steps));
            && t.live == {}
            && (forall r :: r in t.created <==> r in t.destroyed)
            && (forall i, j :: 0 <= i < j < |t.destroyed| ==> t.destroyed[i] != t.destroyed[j])
  {
    RunKeepsInv(INITIAL, steps);
    CleanupKeepsInv(Run(INITIAL, steps));
  }

  /** `net_udp`: destroying a channel that is not open would be an error of the program. */
  class Server {
    var present: bool
    var asyncP2p: int
    var syncBroadcast: int
    var syncTimeoutMsec: nat
    var live: set<int>
    var created: seq<int>
    var destroyed: seq<int>

    ghost function View(): State
      reads this
    {
      State(present, asyncP2p, syncBroadcast, syncTimeoutMsec, live, created, destroyed)
    }

    constructor ()
      ensures View() == INITIAL
    {
      present, asyncP2p, syncBroadcast, syncTimeoutMsec := false, 0, 0, 0;
      live, created, destroyed := {}, [], [];
    }

    method CreateChannel(error: Option<int>) returns (ret: int)
      requires error.Some? ==> error.value < 0
      modifies this`live, this`created
      ensures if error.Some? then ret == error.value && View() == old(View())
              else ret == NextRef(old(View())) && View() == Created(old(View()))
    {
      if error.Some? {
        return error.value;
      }
      ret := |created| + 1;
      live, created := live + {ret}, created + [ret];
    }

    method DestroyChannel(ref: int)
      requires ref != 0 ==> ref in live
      modifies this`live, this`destroyed
      ensures View() == Destroyed(old(View()), ref)
    {
      if ref != 0 {
        live, destroyed := live - {ref}, destroyed + [ref];
      }
    }

    method NetCleanup()
      requires Inv(View())
      modifies this
      ensures View() == CleanedUp(old(View())) && Inv(View())
    {
      CleanupKeepsInv(View());
      if present {
        DestroyChannel(asyncP2p);
        DestroyChannel(syncBroadcast);
        present, asyncP2p, syncBroadcast, syncTimeoutMsec := false, 0, 0, 0;
      }
    }

    method NetInit(error: Option<int>)
      requires Inv(View()) && (error.Some? ==> error.value < 0)
      modifies this
      ensures View() == Initialised(old(View()), error) && Inv(View())
    {
      StepKeepsInv(View(), Init(error));
      if present {
        NetCleanup();
      }
      present, asyncP2p, syncBroadcast, syncTimeoutMsec := true, 0, 0, 0;
      var ret := CreateChannel(error);
      if ret >= 0 {
        syncBroadcast := ret;
      }
    }

    method NetConfig(timeout: nat, error: Option<int>) returns (ret: int)
      requires Inv(View()) && (error.Some? ==> error.value < 0)
      modifies this
      ensures View() == Configured(old(View()), timeout, error) && Inv(View())
      ensures ret == if !old(present) then -EINVAL else if error.Some? then error.value else 0
    {
      StepKeepsInv(View(), Config(timeout, error));
      if !present {
        return -EINVAL;
      }
      if asyncP2p != 0 {
        DestroyChannel(asyncP2p);
      }
      asyncP2p := 0;
      ret := CreateChannel(error);
      if ret >= 0 {
        asyncP2p := ret;
      }
      syncTimeoutMsec := timeout % 0x10000;
      ret := if ret > 0 then 0 else ret;
    }

    /** The timed read: `recv(k)` is what the k-th receive on the synchronous channel would
        return. It is the first non-zero one of timeout / 5 + 1 attempts, 5 ms apart, and
        -ETIMEDOUT when there is none - after more than the timeout, by at most 5 ms. */
    method ReadSync(recv: nat -> int) returns (ret: int, attempts: nat, slept: nat)
      ensures !present ==> ret == -EINVAL && attempts == slept == 0
      ensures present ==>
                var limit := syncTimeoutMsec / 5 + 1;
                && 0 < attempts <= limit
                && (forall k :: 0 <= k < attempts - 1 ==> recv(k) == 0)
                && if recv(attempts - 1) != 0
                   then ret == recv(attempts - 1) && slept == 5 * (attempts - 1)
                   else
                     && ret == -ETIMEDOUT && attempts == limit && slept == 5 * attempts
                     && syncTimeoutMsec < slept <= syncTimeoutMsec + 5
    {
      ret, attempts, slept := 0, 0, 0;
      if !present {
        return -EINVAL, 0, 0;
      }
      var timeout: int := syncTimeoutMsec;
      while ret == 0
        invariant slept == 5 * attempts && timeout == syncTimeoutMsec - slept
        invariant forall k :: 0 <= k < attempts ==> recv(k) == 0
        invariant if ret == 0 then timeout >= 0
                  else ret == -ETIMEDOUT && -5 <= timeout < 0 && attempts > 0
        decreases timeout + 5
      {
        ret := recv(attempts);
        attempts := attempts + 1;
        if ret != 0 {
          break;
        }
        slept := slept + 5;
        timeout := timeout - 5;
        if timeout < 0 {
          ret := -ETIMEDOUT;
        }
      }
    }
  }
}
