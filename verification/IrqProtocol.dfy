/** The interrupt protocol as a state machine over sets of sources: the server's pending
    set and its notification counter, the event manager's handset queue, and one polling
    client, stepping in any order. */
module IrqProtocol {
  import opened Wrappers

  datatype Source = Hook | Smartcard | Voip | Io | Modem | Handset

  datatype Key = Key(keycode: bv32, pressed: bool)

  /** The order in which the client's sweep visits the sources. */
  const ORDER: seq<Source> := [Hook, Smartcard, Voip, Io, Modem, Handset]

  function Position(x: Source): (i: nat)
    ensures i < |ORDER| && ORDER[i] == x
    ensures forall j :: 0 <= j < |ORDER| && ORDER[j] == x ==> j == i
  {
    match x
    case Hook => 0
    case Smartcard => 1
    case Voip => 2
    case Io => 3
    case Modem => 4
    case Handset => 5
  }

  /** Between two notifications the client is idle; `Woken` has consumed a notification and
      not yet read the mask; `Sweeping` walks ORDER over the mask it read. */
  datatype Client = Idle | Woken | Sweeping(mask: set<Source>, next: nat)

  /** `pushed` and `log` are history: every handset key the device produced, and what each
      handset query returned (`None` when the queue was empty). */
  datatype State = State(
    pending: set<Source>,
    queue: seq<Key>,
    notes: nat,
    client: Client,
    pushed: seq<Key>,
    log: seq<Option<Key>>)

  const INITIAL: State := State({}, [], 0, Idle, [], [])

  /** `Probe` is an `irq_get_info` call outside any sweep, from whatever caller. */
  datatype Step =
    | Raise(source: Source, key: Key)
    | Enable
    | Wake
    | ReadMask
    | Advance
    | Finish
    | Probe(probed: Source)

  function Visible(s: State): set<Source> {
    s.pending - {Io}
  }

  /** The event callback: nothing is sent when the source is already the only one pending. */
  function Announced(s: State, x: Source): State {
    if s.pending == {x} then s else s.(pending := s.pending + {x}, notes := s.notes + 1)
  }

  /** Event arrival: a handset event is queued, then the callback runs. */
  function Raised(s: State, x: Source, k: Key): State {
    Announced(if x == Handset then s.(queue := s.queue + [k], pushed := s.pushed + [k]) else s, x)
  }

  /** `irq_get_info` for one source. */
  function Queried(s: State, x: Source): State {
    if x == Io then
      s
    else if x == Handset && s.queue != [] then
      s.(queue := s.queue[1..], notes := s.notes + 1, log := s.log + [Some(s.queue[0])])
    else
      var t := if x == Handset then s.(log := s.log + [None]) else s;
      if x in s.pending then t.(pending := t.pending - {x}) else t.(notes := t.notes + 1)
  }

  predicate Enabled(s: State, a: Step) {
    match a
    case Raise(_, _) => true
    case Enable => true
    case Wake => s.client.Idle? && s.notes > 0
    case ReadMask => s.client.Woken?
    case Advance => s.client.Sweeping? && s.client.next < |ORDER|
    case Finish => s.client.Sweeping? && s.client.next == |ORDER|
    case Probe(_) => true
  }

  function Apply(s: State, a: Step): State
    requires Enabled(s, a)
  {
    match a
    case Raise(x, k) => Raised(s, x, k)
    case Enable => s.(notes := s.notes + 1)
    case Wake => s.(notes := s.notes - 1, client := Woken)
    case ReadMask => s.(client := Sweeping(Visible(s), 0))
    case Advance =>
      var x := ORDER[s.client.next];
      var t := if x in s.client.mask then Queried(s, x) else s;
      t.(client := s.client.(next := s.client.next + 1))
    case Finish => s.(client := Idle)
    case Probe(x) => Queried(s, x)
  }

  /** `steps` is a run from `s`: each step is enabled where it is taken. */
  predicate Runs(s: State, steps: seq<Step>)
    decreases steps
  {
    steps == [] || (Enabled(s, steps[0]) && Runs(Apply(s, steps[0]), steps[1..]))
  }

  function Final(s: State, steps: seq<Step>): State
    requires Runs(s, steps)
    decreases steps
  {
    if steps == [] then s else Final(Apply(s, steps[0]), steps[1..])
  }

  lemma {:induction false} RunsAppend(s: State, a: seq<Step>, b: seq<Step>)
    requires Runs(s, a)
    ensures Runs(s, a + b) <==> Runs(Final(s, a), b)
    ensures Runs(s, a + b) ==> Final(s, a + b) == Final(Final(s, a), b)
    decreases a
  {
    if a == [] {
      assert a + b == b;
    } else {
      RunsAppend(Apply(s, a[0]), a[1..], b);
      assert (a + b)[1..] == a[1..] + b;
    }
  }

  lemma RunsNil(s: State)
    ensures Runs(s, []) && Final(s, []) == s
  {}

  lemma RunsCons(s: State, a: Step, rest: seq<Step>)
    requires Enabled(s, a) && Runs(Apply(s, a), rest)
    ensures Runs(s, [a] + rest) && Final(s, [a] + rest) == Final(Apply(s, a), rest)
  {
    assert ([a] + rest)[1..] == rest;
  }

  // ---------------------------------------------------------------- no interrupt is lost

  /** The client will still come to `x` without any further notification. */
  predicate Ahead(c: Client, x: Source) {
    match c
    case Idle => false
    case Woken => true
    case Sweeping(mask, next) => x in mask && next <= Position(x)
  }

  /** Every pending bit the client can see is ahead of it or covered by a notification. */
  ghost predicate Covered(s: State) {
    forall x :: x in Visible(s) ==> s.notes > 0 || Ahead(s.client, x)
  }

  function Keys(log: seq<Option<Key>>): seq<Key> {
    if log == [] then []
    else
      var rest := Keys(log[..|log| - 1]);
      match log[|log| - 1]
      case None => rest
      case Some(k) => rest + [k]
  }

  ghost predicate Inv(s: State) {
    && Covered(s)
    && (s.queue != [] ==> Handset in s.pending)
    && Keys(s.log) + s.queue == s.pushed
    && (s.client.Sweeping? ==> s.client.next <= |ORDER| && Io !in s.client.mask)
  }

  lemma LogGrows(log: seq<Option<Key>>, o: Option<Key>)
    ensures Keys(log + [o]) == match o case None => Keys(log) case Some(k) => Keys(log) + [k]
  {
    assert (log + [o])[..|log|] == log;
  }

  /** An event adds its own source and no other, notifies unless its source was the only one
      pending, and queues a handset's key. */
  lemma RaiseEffect(s: State, x: Source, k: Key)
    ensures var t := Raised(s, x, k);
            && (forall y :: y in t.pending <==> y in s.pending || y == x)
            && t.notes == s.notes + (if s.pending == {x} then 0 else 1)
            && t.queue == s.queue + (if x == Handset then [k] else [])
            && t.pushed == s.pushed + (if x == Handset then [k] else [])
            && t.client == s.client && t.log == s.log
  {}

  /** Enabling only notifies: the wake-up it makes possible undoes it. */
  lemma EnableWakes(s: State)
    requires s.client.Idle?
    ensures Enabled(Apply(s, Enable), Wake) && Apply(Apply(s, Enable), Wake) == s.(client := Woken)
  {}

  /** The keys of the handset events along a run. */
  function RaisedKeys(steps: seq<Step>): seq<Key> {
    if steps == [] then [] else KeyOf(steps[0]) + RaisedKeys(steps[1..])
  }

  function KeyOf(a: Step): seq<Key> {
    if a.Raise? && a.source == Handset then [a.key] else []
  }

  lemma StepPushes(s: State, a: Step)
    requires Enabled(s, a)
    ensures Apply(s, a).pushed == s.pushed + KeyOf(a)
  {}

  lemma {:induction false} PushedAreRaised(s: State, steps: seq<Step>)
    requires Runs(s, steps)
    ensures Final(s, steps).pushed == s.pushed + RaisedKeys(steps)
    decreases steps
  {
    hide Apply, KeyOf;
    if steps != [] {
      StepPushes(s, steps[0]);
      PushedAreRaised(Apply(s, steps[0]), steps[1..]);
    }
  }

  /** A query removes its own source and no other, and keeps it exactly for IO and for a
      handset that still had a key; it notifies exactly when it leaves the set as it was. */
  lemma QueryEffect(s: State, x: Source)
    ensures forall y :: y in Queried(s, x).pending <==>
                        y in s.pending && (y == x ==> x == Io || (x == Handset && s.queue != []))
    ensures Apply(s, Probe(x)) == Queried(s, x)
    ensures Queried(s, x).notes ==
            s.notes + if x != Io && Queried(s, x).pending == s.pending then 1 else 0
  {
    if x != Io && !(x == Handset && s.queue != []) && x in s.pending {
      assert x !in Queried(s, x).pending;
    }
  }

  /** What a query takes off the queue it puts on the log. */
  lemma QueryKeepsHistory(s: State, x: Source)
    ensures Keys(Queried(s, x).log) + Queried(s, x).queue == Keys(s.log) + s.queue
  {
    if x == Handset && s.queue != [] {
      LogGrows(s.log, Some(s.queue[0]));
      assert Keys(s.log) + s.queue == (Keys(s.log) + [s.queue[0]]) + s.queue[1..];
    } else {
      LogGrows(s.log, None);
    }
  }

  lemma QueryKeepsInv(s: State, x: Source)
    requires Inv(s)
    ensures Inv(Queried(s, x))
  {
    var t := Queried(s, x);
    QueryKeepsHistory(s, x);
    forall y | y in Visible(t) ensures t.notes > 0 || Ahead(t.client, y) {
      assert y in Visible(s);
    }
  }

  lemma RaiseKeepsInv(s: State, x: Source, k: Key)
    requires Inv(s)
    ensures Inv(Raised(s, x, k))
  {
    var t := Raised(s, x, k);
    assert Keys(s.log) + (s.queue + [k]) == (Keys(s.log) + s.queue) + [k];
    if t.notes == s.notes {
      assert Visible(t) == Visible(s);
    }
  }

  lemma AdvanceKeepsInv(s: State)
    requires Inv(s) && Enabled(s, Advance)
    ensures Inv(Apply(s, Advance))
  {
    var x := ORDER[s.client.next];
    var t := Apply(s, Advance);
    QueryKeepsInv(s, x);
    QueryEffect(s, x);
    forall y | y in Visible(t) ensures t.notes > 0 || Ahead(t.client, y) {
      assert y in Visible(s);
    }
  }

  lemma StepKeepsInv(s: State, a: Step)
    requires Inv(s) && Enabled(s, a)
    ensures Inv(Apply(s, a))
  {
    match a
    case Raise(x, k) => RaiseKeepsInv(s, x, k);
    case Advance => AdvanceKeepsInv(s);
    case Probe(x) => QueryKeepsInv(s, x);
    case Finish => assert Visible(Apply(s, a)) == Visible(s);
    case _ =>
  }

  /** Main result: the invariant holds in every state of every run. */
  lemma {:induction false} RunKeepsInv(s: State, steps: seq<Step>)
    requires Inv(s) && Runs(s, steps)
    ensures Inv(Final(s, steps))
    decreases steps
  {
    if steps != [] {
      StepKeepsInv(s, steps[0]);
      RunKeepsInv(Apply(s, steps[0]), steps[1..]);
    }
  }

  predicate Quiescent(s: State) {
    s.client.Idle? && s.notes == 0
  }

  /** At rest nothing is pending but IO, and the queue is empty. */
  lemma AtRest(t: State)
    requires Inv(t) && Quiescent(t)
    ensures Visible(t) == {} && t.queue == [] && Keys(t.log) == t.pushed
  {
    forall x ensures x !in Visible(t) {
      assert !Ahead(t.client, x);
    }
    assert Handset in t.pending <==> Handset in Visible(t);
    assert t.queue == [];
    assert Keys(t.log) + [] == Keys(t.log);
  }

  /** When the client is idle and no notification is outstanding, nothing is pending but IO
      and every key the device ever produced has been handed out, once and in order. */
  lemma QuiescentMeansDelivered(steps: seq<Step>)
    requires Runs(INITIAL, steps) && Quiescent(Final(INITIAL, steps))
    ensures Visible(Final(INITIAL, steps)) == {}
    ensures Keys(Final(INITIAL, steps).log) == RaisedKeys(steps) == Final(INITIAL, steps).pushed
  {
    hide Runs, Final, Visible;
    PushedAreRaised(INITIAL, steps);
    assert [] + RaisedKeys(steps) == RaisedKeys(steps);
    InvAtStart();
    RunKeepsInv(INITIAL, steps);
    AtRest(Final(INITIAL, steps));
  }

  lemma InvAtStart()
    ensures Inv(INITIAL)
  {}

  predicate QueriesNow(s: State, a: Step, x: Source) {
    || a == Probe(x)
    || (a == Advance && Enabled(s, a) && ORDER[s.client.next] == x && x in s.client.mask)
  }

  /** Somewhere along the run, `x` is queried. */
  predicate EverQueried(s: State, steps: seq<Step>, x: Source)
    requires Runs(s, steps)
    decreases steps
  {
    steps != [] &&
    (QueriesNow(s, steps[0], x) || EverQueried(Apply(s, steps[0]), steps[1..], x))
  }

  lemma {:induction false} UnqueriedStaysPending(s: State, steps: seq<Step>, x: Source)
    requires Runs(s, steps) && x in s.pending && !EverQueried(s, steps, x)
    ensures x in Final(s, steps).pending
    decreases steps
  {
    if steps != [] {
      UnqueriedStaysPending(Apply(s, steps[0]), steps[1..], x);
    }
  }

  /** No lost interrupt, end to end: an event raised anywhere in a run that comes to rest is
      followed by a query of its source. */
  lemma EveryEventIsQueried(before: seq<Step>, x: Source, k: Key, after: seq<Step>)
    requires x != Io
    requires Runs(INITIAL, before) && Runs(Final(INITIAL, before), [Raise(x, k)] + after)
    requires Quiescent(Final(Final(INITIAL, before), [Raise(x, k)] + after))
    ensures var s := Apply(Final(INITIAL, before), Raise(x, k));
            Runs(s, after) && EverQueried(s, after, x)
  {
    var s := Final(INITIAL, before);
    RunKeepsInv(INITIAL, before);
    RunKeepsInv(s, [Raise(x, k)] + after);
    var t := Apply(s, Raise(x, k));
    assert ([Raise(x, k)] + after)[1..] == after;
    var u := Final(t, after);
    assert x in t.pending && (x in u.pending <==> x in Visible(u));
    if !EverQueried(t, after, x) {
      UnqueriedStaysPending(t, after, x);
    }
  }

  /** How often the client ends a sweep along the run. */
  function Finishes(steps: seq<Step>): nat {
    if steps == [] then 0 else (if steps[0].Finish? then 1 else 0) + Finishes(steps[1..])
  }

  /** A source that is pending for longer than it takes the client to end this sweep and the
      next has been queried: in this sweep if the client is still to come to it or between
      sweeps, and in the next at the latest. */
  lemma {:induction false} QueriedWithinTwoSweeps(s: State, steps: seq<Step>, x: Source)
    requires x in Visible(s) && Runs(s, steps)
    requires Finishes(steps) >= if s.client.Sweeping? && !Ahead(s.client, x) then 2 else 1
    ensures EverQueried(s, steps, x)
    decreases steps
  {
    if !QueriesNow(s, steps[0], x) {
      StillWaiting(s, steps[0], x);
      QueriedWithinTwoSweeps(Apply(s, steps[0]), steps[1..], x);
    }
  }

  /** A step that does not query `x` leaves it pending, and the client no further from it; the
      client passes the end of a sweep only if it was not ahead of `x` in it. */
  lemma StillWaiting(s: State, a: Step, x: Source)
    requires x in Visible(s) && Enabled(s, a) && !QueriesNow(s, a, x)
    ensures var t := Apply(s, a);
            && x in Visible(t)
            && (Ahead(s.client, x) ==> Ahead(t.client, x) && a != Finish)
            && (a == Finish ==> t.client.Idle?)
            && (!s.client.Sweeping? && t.client.Sweeping? ==> Ahead(t.client, x))
            && (a != Finish && s.client.Sweeping? ==> t.client.Sweeping?)
  {
    if a == Advance {
      QueryEffect(s, ORDER[s.client.next]);
    }
  }

  /** No lost interrupt, under every interleaving: whenever an event is raised, its source is
      queried before the client has ended two more sweeps, and until then the client is never
      left without a step to take. */
  lemma EveryEventIsQueriedSoon(before: seq<Step>, x: Source, k: Key, after: seq<Step>)
    requires x != Io && Runs(INITIAL, before)
    requires var s := Apply(Final(INITIAL, before), Raise(x, k));
             Runs(s, after)
    ensures var s := Apply(Final(INITIAL, before), Raise(x, k));
            && (Finishes(after) >= 2 ==> EverQueried(s, after, x))
            && (!EverQueried(s, after, x) ==>
                  var t := Final(s, after);
                  t.client.Idle? ==> Enabled(t, Wake))
  {
    var s0 := Final(INITIAL, before);
    var s := Apply(s0, Raise(x, k));
    RunKeepsInv(INITIAL, before);
    StepKeepsInv(s0, Raise(x, k));
    RunKeepsInv(s, after);
    if !EverQueried(s, after, x) {
      UnqueriedStaysPending(s, after, x);
      assert x in Visible(Final(s, after));
    }
    if Finishes(after) >= 2 {
      QueriedWithinTwoSweeps(s, after, x);
    }
  }

  /** The IO bit is never cleared, and from then on every event is announced. */
  lemma {:induction false} IoIsForever(s: State, steps: seq<Step>)
    requires Runs(s, steps) && Io in s.pending
    ensures Io in Final(s, steps).pending
    ensures forall x, k :: x != Io ==> Raised(Final(s, steps), x, k).notes == Final(s, steps).notes + 1
    decreases steps
  {
    if steps != [] {
      IoIsForever(Apply(s, steps[0]), steps[1..]);
    }
  }

  // ---------------------------------------------------------------- draining

  function Advances(n: nat): seq<Step> {
    if n == 0 then [] else [Advance] + Advances(n - 1)
  }

  /** One whole sweep with nothing happening in between. */
  function Sweep(): seq<Step> {
    [Wake, ReadMask] + Advances(|ORDER|) + [Finish]
  }

  function Sweeps(n: nat): seq<Step> {
    if n == 0 then [] else Sweep() + Sweeps(n - 1)
  }

  /** How many undisturbed sweeps empty the visible mask. */
  function SweepsNeeded(s: State): nat {
    if Handset in s.pending then |s.queue| + 1
    else if Visible(s) != {} then 1
    else 0
  }

  /** The sources a sweep standing at position `i` still clears; a handset with keys left
      stays. */
  function Cleared(mask: set<Source>, i: nat, keys: bool): set<Source> {
    set x | x in mask && i <= Position(x) && !(x == Handset && keys)
  }

  /** What the rest of a sweep at position `i` does when nothing else happens. */
  function Rest(s: State, i: nat): State
    requires s.client.Sweeping? && i <= |ORDER|
  {
    var t := s.(pending := s.pending - Cleared(s.client.mask, i, s.queue != []),
                client := s.client.(next := |ORDER|));
    if !(Handset in s.client.mask && i < |ORDER|) then t
    else if s.queue == [] then t.(log := s.log + [None])
    else t.(queue := s.queue[1..], notes := s.notes + 1, log := s.log + [Some(s.queue[0])])
  }

  lemma RestEnds(s: State, i: nat)
    requires s.client.Sweeping? && i <= |ORDER|
    ensures Rest(s, i).client == s.client.(next := |ORDER|)
  {}

  lemma RestUnfolds(s: State)
    requires s.client.Sweeping? && s.client.next < |ORDER|
    requires Io !in s.client.mask
    requires ORDER[s.client.next] in s.client.mask ==> ORDER[s.client.next] in s.pending
    ensures Rest(Apply(s, Advance), s.client.next + 1) == Rest(s, s.client.next)
  {
    var i, mask := s.client.next, s.client.mask;
    var x, t := ORDER[i], Apply(s, Advance);
    assert Position(x) == i;
    var now, later := Cleared(mask, i, s.queue != []), Cleared(mask, i + 1, t.queue != []);
    if x == Handset {
      assert later == {};
      assert now == if x in mask && s.queue == [] then {x} else {};
    } else {
      assert now == later + if x in mask then {x} else {};
    }
    assert s.pending - now == t.pending - later;
  }

  lemma {:induction false} AdvanceToTheEnd(s: State, n: nat)
    requires n <= |ORDER| && s.client.Sweeping? && s.client.next == |ORDER| - n
    requires Io !in s.client.mask
    requires forall x :: x in s.client.mask && s.client.next <= Position(x) ==> x in s.pending
    ensures Runs(s, Advances(n)) && Final(s, Advances(n)) == Rest(s, |ORDER| - n)
    decreases n
  {
    if n == 0 {
      assert Cleared(s.client.mask, |ORDER|, s.queue != []) == {};
    } else {
      var x := ORDER[s.client.next];
      var t := Apply(s, Advance);
      assert Position(x) == s.client.next;
      QueryEffect(s, x);
      forall y | y in s.client.mask && t.client.next <= Position(y) ensures y in t.pending {
        assert y != x && y in s.pending;
      }
      AdvanceToTheEnd(t, n - 1);
      RestUnfolds(s);
      RunsCons(s, Advance, Advances(n - 1));
    }
  }

  /** One undisturbed sweep clears every visible source but a handset with keys left, and
      hands out the oldest key. */
  function Swept(s: State): State
    requires s.notes > 0
  {
    if Handset !in s.pending then
      s.(pending := s.pending * {Io}, notes := s.notes - 1)
    else if s.queue == [] then
      s.(pending := s.pending * {Io}, notes := s.notes - 1, log := s.log + [None])
    else
      s.(pending := s.pending * {Io, Handset}, queue := s.queue[1..], log := s.log + [Some(s.queue[0])])
  }

  lemma RestOfWholeSweep(s: State)
    requires Inv(s) && s.client.Woken?
    ensures Rest(s.(client := Sweeping(Visible(s), 0)), 0).(client := Idle)
            == Swept(s.(client := Idle, notes := s.notes + 1))
  {
    var cleared := Cleared(Visible(s), 0, s.queue != []);
    assert s.pending - cleared == Swept(s.(client := Idle, notes := s.notes + 1)).pending;
  }

  lemma SweepOnce(s: State)
    requires Inv(s) && s.client.Idle? && s.notes > 0
    ensures Runs(s, Sweep()) && Final(s, Sweep()) == Swept(s)
  {
    hide Runs, Final, Rest, Swept, Inv;
    var woken := Apply(s, Wake);
    var read := Apply(woken, ReadMask);
    assert Inv(woken) by { StepKeepsInv(s, Wake); }
    AdvanceToTheEnd(read, |ORDER|);
    var end := Rest(read, 0);
    RestEnds(read, 0);
    var tail := Advances(|ORDER|) + [Finish];
    RunsNil(Apply(end, Finish));
    RunsCons(end, Finish, []);
    assert [Finish] + [] == [Finish];
    RunsAppend(read, Advances(|ORDER|), [Finish]);
    RunsCons(woken, ReadMask, tail);
    RunsCons(s, Wake, [ReadMask] + tail);
    assert Sweep() == [Wake] + ([ReadMask] + tail);
    RestOfWholeSweep(woken);
    assert woken.(client := Idle, notes := woken.notes + 1) == s;
  }

  function Somes(q: seq<Key>): seq<Option<Key>> {
    if q == [] then [] else [Some(q[0])] + Somes(q[1..])
  }

  /** What `n` undisturbed sweeps leave behind. */
  ghost predicate Drained(s: State, n: nat, t: State) {
    var popped := Min(n, |s.queue|);
    && t.client.Idle?
    && (Visible(t) == {} <==> n == SweepsNeeded(s))
    && t.queue == s.queue[popped..]
    && t.log == s.log + Somes(s.queue[..popped])
                + (if Handset in s.pending && n > |s.queue| then [None] else [])
    && t.notes == s.notes + popped - n
  }

  lemma SweptNeedsOneLess(s: State)
    requires Inv(s) && s.client.Idle? && SweepsNeeded(s) > 0
    ensures s.notes > 0 && SweepsNeeded(Swept(s)) == SweepsNeeded(s) - 1
  {
    if Handset in s.pending {
      assert Handset in Visible(s);
    } else {
      var x :| x in Visible(s);
      assert Visible(Swept(s)) == {};
    }
  }

  lemma SweptIsIdle(s: State)
    requires s.notes > 0
    ensures Swept(s).client == s.client
  {}

  lemma DrainedNil(s: State)
    requires s.client.Idle?
    ensures Drained(s, 0, s)
  {
    assert Handset in s.pending <==> Handset in Visible(s);
    assert s.queue[..0] == [] && s.queue[0..] == s.queue;
    assert s.log + [] + [] == s.log;
  }

  lemma DrainedCons(s: State, n: nat, t: State)
    requires Inv(s) && s.client.Idle? && 0 < n <= SweepsNeeded(s) && s.notes > 0
    requires SweepsNeeded(Swept(s)) == SweepsNeeded(s) - 1
    requires Drained(Swept(s), n - 1, t)
    ensures Drained(s, n, t)
  {
    var popped := Min(n, |s.queue|);
    if s.queue != [] {
      assert s.queue[..popped][0] == s.queue[0];
      assert s.queue[..popped][1..] == s.queue[1..][..popped - 1];
      assert Handset in Swept(s).pending;
    }
  }

  /** Draining has an exact bound: undisturbed, every sweep finds its notification, and the
      visible mask is empty after SweepsNeeded sweeps and no earlier. The queue comes out in
      order, one key a sweep, followed by a single query that finds it empty. */
  lemma {:induction false} DrainsExactly(s: State, n: nat)
    requires Inv(s) && s.client.Idle? && n <= SweepsNeeded(s)
    ensures Runs(s, Sweeps(n)) && Drained(s, n, Final(s, Sweeps(n)))
    decreases n
  {
    hide Runs, Final, Drained, Inv, Swept, SweepsNeeded;
    if n == 0 {
      RunsNil(s);
      DrainedNil(s);
    } else {
      SweptNeedsOneLess(s);
      SweepOnce(s);
      RunKeepsInv(s, Sweep());
      SweptIsIdle(s);
      RunsAppend(s, Sweep(), Sweeps(n - 1));
      DrainsExactly(Swept(s), n - 1);
      DrainedCons(s, n, Final(s, Sweeps(n)));
    }
  }

  /** Without new events the system comes to rest: it takes one sweep for every outstanding
      notification and one for every queued key, and then everything has been delivered. */
  lemma {:induction false} ComesToRest(s: State)
    requires Inv(s) && s.client.Idle?
    ensures var sweeps := Sweeps(|s.queue| + s.notes);
            && Runs(s, sweeps) && Quiescent(Final(s, sweeps))
            && Visible(Final(s, sweeps)) == {} && Keys(Final(s, sweeps).log) == s.pushed
    decreases |s.queue| + s.notes
  {
    hide Runs, Final, Swept;
    if s.notes == 0 {
      AtRest(s);
      RunsNil(s);
    } else {
      SweepOnce(s);
      RunKeepsInv(s, Sweep());
      SweptCosts(s);
      RunsAppend(s, Sweep(), Sweeps(|s.queue| + s.notes - 1));
      ComesToRest(Swept(s));
    }
  }

  lemma SweptCosts(s: State)
    requires Inv(s) && s.client.Idle? && s.notes > 0
    ensures |Swept(s).queue| + Swept(s).notes == |s.queue| + s.notes - 1
    ensures Swept(s).client.Idle? && Swept(s).pushed == s.pushed
  {}

  // ---------------------------------------------------------------- the words on the wire

  /** How `irq_get_info` packs a key: keycode in the low half, pressed flag at bit 16. */
  function Pack(k: Key): bv32 {
    (k.keycode & 0xffff) | (if k.pressed then 1 << 16 else 0)
  }

  function Unpack(w: bv32): Key {
    Key(w & 0xffff, w & 0x10000 != 0)
  }

  /** The word holds the low half of the keycode, the pressed flag, and nothing else. */
  lemma PackRoundTrip(k: Key)
    ensures Unpack(Pack(k)) == Key(k.keycode & 0xffff, k.pressed) && Pack(k) < 0x2_0000
  {}

  /** An empty queue reads as an all-zero word: the event was zeroed and nothing filled it. */
  function WireWord(o: Option<Key>): bv32 {
    match o case None => 0 case Some(k) => Pack(k)
  }

  function WireWords(log: seq<Option<Key>>): seq<bv32> {
    if log == [] then [] else WireWords(log[..|log| - 1]) + [WireWord(log[|log| - 1])]
  }

  function Packed(keys: seq<Key>): seq<bv32> {
    if keys == [] then [] else Packed(keys[..|keys| - 1]) + [Pack(keys[|keys| - 1])]
  }

  /** What a client can do about the all-zero words: drop them. */
  function NonZero(ws: seq<bv32>): (r: seq<bv32>)
    ensures |r| <= |ws|
    ensures r == ws <==> 0 !in ws
  {
    if ws == [] then []
    else
      var w := ws[|ws| - 1];
      var r := NonZero(ws[..|ws| - 1]);
      assert ws == ws[..|ws| - 1] + [w];
      if w == 0 then r else r + [w]
  }

  lemma WordsSnoc(front: seq<bv32>, w: bv32)
    ensures NonZero(front + [w]) == NonZero(front) + if w == 0 then [] else [w]
  {
    assert (front + [w])[..|front|] == front;
  }

  lemma PackedSnoc(keys: seq<Key>, k: Key)
    ensures Packed(keys + [k]) == Packed(keys) + [Pack(k)]
  {
    assert (keys + [k])[..|keys|] == keys;
  }

  /** Without its zero words, what the client read is the keys that do not pack to zero. */
  lemma {:induction false} NonZeroWordsAreKeys(log: seq<Option<Key>>)
    ensures NonZero(WireWords(log)) == NonZero(Packed(Keys(log)))
  {
    hide Pack, NonZero;
    if log != [] {
      var front, o := log[..|log| - 1], log[|log| - 1];
      NonZeroWordsAreKeys(front);
      WordsSnoc(WireWords(front), WireWord(o));
      if o.Some? {
        PackedSnoc(Keys(front), o.value);
        WordsSnoc(Packed(Keys(front)), Pack(o.value));
      }
    }
  }

  lemma {:induction false} PackedHasZero(keys: seq<Key>)
    ensures 0 in Packed(keys) <==> exists k :: k in keys && Pack(k) == 0
  {
    if keys != [] {
      var front, k := keys[..|keys| - 1], keys[|keys| - 1];
      assert keys == front + [k];
      PackedHasZero(front);
    }
  }

  /** At rest, the non-zero words the client read are exactly the packed keys the device
      produced - if and only if no produced key itself packs to zero. */
  lemma WireStreamIsFaithful(steps: seq<Step>)
    requires Runs(INITIAL, steps) && Quiescent(Final(INITIAL, steps))
    ensures var t := Final(INITIAL, steps);
            NonZero(WireWords(t.log)) == Packed(t.pushed)
            <==> forall k :: k in t.pushed ==> Pack(k) != 0
  {
    var t := Final(INITIAL, steps);
    QuiescentMeansDelivered(steps);
    NonZeroWordsAreKeys(t.log);
    PackedHasZero(t.pushed);
  }

  /** The all-zero words are a real ambiguity: one key press alone makes the client read two
      words, and the second is the word of a released key 0. */
  lemma OnePressReadsAsTwoWords(k: Key)
    ensures var s := Raised(INITIAL, Handset, k);
            Runs(s, Sweeps(2)) && Quiescent(Final(s, Sweeps(2))) &&
            WireWords(Final(s, Sweeps(2)).log) == [Pack(k), Pack(Key(0, false))]
  {
    var s := Raised(INITIAL, Handset, k);
    StepKeepsInv(INITIAL, Raise(Handset, k));
    DrainsExactly(s, 2);
    assert s.queue[..1] == [k] && Somes([k]) == [Some(k)] + Somes([]) by {
      assert [k][1..] == [];
    }
    TwoWords(k);
    assert Pack(Key(0, false)) == 0;
  }

  lemma TwoWords(k: Key)
    ensures WireWords([Some(k), None]) == [Pack(k), 0]
  {
    assert [Some(k), None][..1] == [Some(k)];
    assert [Some(k)][..0] == [];
    assert WireWords([Some(k)]) == WireWords([]) + [Pack(k)];
    assert WireWords([Some(k), None]) == WireWords([Some(k)]) + [WireWord(None)];
  }
}
