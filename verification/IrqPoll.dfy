/** The client command `irq-poll` (bin/commands.c), run against the server while the device
    keeps raising events between its remote calls. */
module IrqPoll {
  import opened Wrappers
  import opened Word
  import opened IrqProtocol
  import opened Irq

  /** An event the device raises while the client is between two calls. */
  datatype Arrival = Arrival(source: Source, key: Key)

  /** What the event manager and the state tables answer to one query; see Irq.GetInfo. */
  datatype Reply = Reply(other: int, decoded: Option<bv32>)

  /** The numbers the client asks for, in its order. */
  const SOURCES: seq<bv32> := [1, 2, 3, 4, 5, 6]

  lemma SourceTable(i: nat)
    requires i < |ORDER|
    ensures SOURCES[i] == SourceNumber(ORDER[i]) && SOURCES[i] - 1 == MaskBit(ORDER[i])
  {}

  function Raises(events: seq<Arrival>): seq<Step> {
    if events == [] then []
    else Raises(events[..|events| - 1]) + [Raise(events[|events| - 1].source, events[|events| - 1].key)]
  }

  /** The protocol steps of a poll up to and including its `i`-th position, when
      `arrivals[0]` comes before the mask is read and `arrivals[i]` before position `i - 1`. */
  function PollPrefix(arrivals: seq<seq<Arrival>>, i: nat): seq<Step>
    requires i < |arrivals|
  {
    if i == 0 then Raises(arrivals[0]) + [ReadMask]
    else PollPrefix(arrivals, i - 1) + (Raises(arrivals[i]) + [Advance])
  }

  function PollSteps(arrivals: seq<seq<Arrival>>): seq<Step>
    requires |arrivals| == |ORDER| + 1
  {
    PollPrefix(arrivals, |ORDER|) + [Finish]
  }

  /** The members of `xs` among the first `i` sources, in sweep order. */
  function InOrder(xs: set<Source>, i: nat): seq<Source>
    requires i <= |ORDER|
  {
    if i == 0 then []
    else InOrder(xs, i - 1) + if ORDER[i - 1] in xs then [ORDER[i - 1]] else []
  }

  /** InOrder lists exactly the members of `xs` among the first `i` sources, each once, in sweep
      order. */
  lemma {:induction false} InOrderIs(xs: set<Source>, i: nat)
    requires i <= |ORDER|
    ensures forall x :: x in InOrder(xs, i) <==> x in xs && Position(x) < i
    ensures forall p, q :: 0 <= p < q < |InOrder(xs, i)| ==>
              Position(InOrder(xs, i)[p]) < Position(InOrder(xs, i)[q])
    decreases i
  {
    if i > 0 {
      var x := ORDER[i - 1];
      assert Position(x) == i - 1;
      InOrderIs(xs, i - 1);
      forall y ensures y in InOrder(xs, i) <==> y in xs && Position(y) < i {
        assert Position(y) == i - 1 ==> y == x;
      }
    }
  }

  /** The steps of a burst of events are the events, in order. */
  lemma {:induction false} RaisesAre(events: seq<Arrival>)
    ensures |Raises(events)| == |events|
    ensures forall i :: 0 <= i < |events| ==> Raises(events)[i] == Raise(events[i].source, events[i].key)
  {
    if events != [] {
      RaisesAre(events[..|events| - 1]);
    }
  }

  /** The steps of a run that are the device's, or those that are not. */
  function Only(steps: seq<Step>, raises: bool): seq<Step> {
    if steps == [] then []
    else (if steps[0].Raise? == raises then [steps[0]] else []) + Only(steps[1..], raises)
  }

  lemma {:induction false} OnlyAppend(a: seq<Step>, b: seq<Step>, raises: bool)
    ensures Only(a + b, raises) == Only(a, raises) + Only(b, raises)
    decreases a
  {
    if a == [] {
      assert a + b == b;
    } else {
      assert (a + b)[0] == a[0] && (a + b)[1..] == a[1..] + b;
      OnlyAppend(a[1..], b, raises);
    }
  }

  lemma OnlyOne(a: Step, raises: bool)
    ensures Only([a], raises) == if a.Raise? == raises then [a] else []
  {
    assert [a][1..] == [];
  }

  lemma {:induction false} OnlyRaises(events: seq<Arrival>)
    ensures Only(Raises(events), true) == Raises(events) && Only(Raises(events), false) == []
  {
    if events != [] {
      var front, e := events[..|events| - 1], events[|events| - 1];
      OnlyRaises(front);
      OnlyAppend(Raises(front), [Raise(e.source, e.key)], true);
      OnlyAppend(Raises(front), [Raise(e.source, e.key)], false);
      OnlyOne(Raise(e.source, e.key), true);
      OnlyOne(Raise(e.source, e.key), false);
    }
  }

  function Flat(arrivals: seq<seq<Arrival>>): seq<Arrival> {
    if arrivals == [] then [] else Flat(arrivals[..|arrivals| - 1]) + arrivals[|arrivals| - 1]
  }

  lemma {:induction false} RaisesAppend(a: seq<Arrival>, b: seq<Arrival>)
    ensures Raises(a + b) == Raises(a) + Raises(b)
  {
    if b == [] {
      assert a + b == a;
    } else {
      RaisesAppend(a, b[..|b| - 1]);
      assert (a + b)[..|a + b| - 1] == a + b[..|b| - 1];
    }
  }

  lemma AdvancesSnoc(n: nat)
    ensures Advances(n) + [Advance] == Advances(n + 1)
  {
    if n > 0 {
      AdvancesSnoc(n - 1);
    }
  }

  lemma {:induction false} PollPrefixIs(arrivals: seq<seq<Arrival>>, i: nat)
    requires i < |arrivals|
    ensures Only(PollPrefix(arrivals, i), true) == Raises(Flat(arrivals[..i + 1]))
    ensures Only(PollPrefix(arrivals, i), false) == [ReadMask] + Advances(i)
    decreases i
  {
    hide Raises, Only;
    assert arrivals[..i + 1][..i] == arrivals[..i] && arrivals[..i + 1][i] == arrivals[i];
    var own := if i == 0 then ReadMask else Advance;
    var more := Raises(arrivals[i]) + [own];
    OnlyRaises(arrivals[i]);
    forall raises ensures Only(more, raises) == if raises then Raises(arrivals[i]) else [own] {
      OnlyAppend(Raises(arrivals[i]), [own], raises);
      OnlyOne(own, raises);
    }
    RaisesAppend(Flat(arrivals[..i]), arrivals[i]);
    if i == 0 {
      assert Flat(arrivals[..0]) + arrivals[0] == arrivals[0];
    } else {
      PollPrefixIs(arrivals, i - 1);
      OnlyAppend(PollPrefix(arrivals, i - 1), more, true);
      OnlyAppend(PollPrefix(arrivals, i - 1), more, false);
      AdvancesSnoc(i - 1);
      assert [ReadMask] + Advances(i - 1) + [Advance] == [ReadMask] + (Advances(i - 1) + [Advance]);
    }
  }

  /** The run of a poll is all the events that arrived, in order, interleaved with one mask read,
      one advance for each source and the end of the sweep. */
  lemma PollStepsAre(arrivals: seq<seq<Arrival>>)
    requires |arrivals| == |ORDER| + 1
    ensures Only(PollSteps(arrivals), true) == Raises(Flat(arrivals))
    ensures [Wake] + Only(PollSteps(arrivals), false) == Sweep()
  {
    hide Raises, Only, Flat, PollPrefix, Advances;
    var prefix := PollPrefix(arrivals, |ORDER|);
    PollPrefixIs(arrivals, |ORDER|);
    assert arrivals[..|ORDER| + 1] == arrivals;
    OnlyAppend(prefix, [Finish], true);
    OnlyAppend(prefix, [Finish], false);
    OnlyOne(Finish, true);
    OnlyOne(Finish, false);
    SweepIs();
  }

  lemma SweepIs()
    ensures Sweep() == [Wake] + ([ReadMask] + Advances(|ORDER|) + [Finish])
  {
    hide Advances;
  }

  lemma {:induction false} RaisesKeepTheClient(s: State, events: seq<Arrival>)
    ensures Runs(s, Raises(events))
    ensures Final(s, Raises(events)).client == s.client && Final(s, Raises(events)).log == s.log
  {
    if events == [] {
      RunsNil(s);
    } else {
      var front, last := events[..|events| - 1], events[|events| - 1];
      RaisesKeepTheClient(s, front);
      var t := Final(s, Raises(front));
      RunsNil(Apply(t, Raise(last.source, last.key)));
      RunsCons(t, Raise(last.source, last.key), []);
      assert [Raise(last.source, last.key)] + [] == [Raise(last.source, last.key)];
      RunsAppend(s, Raises(front), [Raise(last.source, last.key)]);
    }
  }

  /** One more step at the end of a run. */
  lemma RunsSnoc(s: State, steps: seq<Step>, a: Step)
    requires Runs(s, steps) && Enabled(Final(s, steps), a)
    ensures Runs(s, steps + [a]) && Final(s, steps + [a]) == Apply(Final(s, steps), a)
  {
    var t := Final(s, steps);
    RunsNil(Apply(t, a));
    RunsCons(t, a, []);
    assert [a] + [] == [a];
    RunsAppend(s, steps, [a]);
  }

  method DeliverAll(server: IrqServer, events: seq<Arrival>, ghost c: Client)
    requires server.Valid()
    modifies server
    ensures server.Valid() && server.attached == old(server.attached) && server.log == old(server.log)
    ensures Runs(old(server.View(c)), Raises(events))
    ensures server.View(c) == Final(old(server.View(c)), Raises(events))
  {
    hide Known, PendingIn, Runs, Final;
    ghost var s := server.View(c);
    assert events[..0] == [];
    RunsNil(s);
    for i := 0 to |events|
      invariant server.Valid() && server.attached == old(server.attached) && server.log == old(server.log)
      invariant Runs(s, Raises(events[..i]))
      invariant server.View(c) == Final(s, Raises(events[..i]))
    {
      var e := events[i];
      server.Deliver(e.source, e.key);
      RunsSnoc(s, Raises(events[..i]), Raise(e.source, e.key));
      assert events[..i + 1][..i] == events[..i];
    }
    assert events[..|events|] == events;
  }

  /** The mask tests of the sweep see exactly the sources in `xs`. */
  ghost predicate MaskIs(mask: bv32, xs: set<Source>) {
    forall x :: And(mask, Bit(MaskBit(x))) != 0 <==> x in xs
  }

  lemma MaskOf(mask: bv32, xs: set<Source>)
    requires Bits(mask) == MaskBits(xs)
    ensures MaskIs(mask, xs)
  {
    hide Bits, And, Bit;
    forall x ensures And(mask, Bit(MaskBit(x))) != 0 <==> x in xs {
      TestBits(mask, MaskBit(x));
    }
  }

  lemma QueriedLeavesTheClient(s: State, x: Source, c: Client)
    ensures Queried(s.(client := c), x) == Queried(s, x).(client := c)
  {}

  /** What a query adds to the log, as the client reads it. */
  lemma QueriedLog(s: State, x: Source)
    ensures Queried(s, x).log == s.log + if x != Handset then [] else if s.queue == [] then [None] else [Some(s.queue[0])]
  {}

  lemma OneWord(log: seq<Option<Key>>, o: Option<Key>)
    ensures WireWords((log + [o])[|log|..]) == [WireWord(o)]
    ensures WireWords(log[|log|..]) == []
  {
    assert (log + [o])[|log|..] == [o];
    assert [o][..0] == [];
    assert WireWords([o]) == WireWords([]) + [WireWord(o)];
  }

  lemma {:induction false} WireWordsAppend(a: seq<Option<Key>>, b: seq<Option<Key>>)
    ensures WireWords(a + b) == WireWords(a) + WireWords(b)
  {
    if b == [] {
      assert a + b == a;
    } else {
      WireWordsAppend(a, b[..|b| - 1]);
      assert (a + b)[..|a + b| - 1] == a + b[..|b| - 1];
    }
  }

  /** The query of one source; `words` are the words it prints for the handset. */
  method QuerySource(server: IrqServer, x: Source, reply: Reply) returns (words: seq<bv32>)
    requires server.Valid() && server.attached && x != Io
    modifies server
    ensures server.Valid() && server.attached
    ensures server.View(Idle) == Queried(old(server.View(Idle)), x)
    ensures Extends(server.log, old(server.log), words)
  {
    hide Known, PendingIn, WireWord, Queried;
    NamesOfNumbers();
    ghost var before := server.View(Idle);
    var source := SourceNumber(x);
    var err, info := server.GetInfo(source, 0, reply.other, reply.decoded);
    QueriedLog(before, x);
    OneWord(before.log, if before.queue == [] then None else Some(before.queue[0]));
    words := if source == IRQ_SOURCE_HANDSET then [info] else [];
  }

  /** `words` are those of what was logged since `before`. */
  ghost predicate Extends(log: seq<Option<Key>>, before: seq<Option<Key>>, words: seq<bv32>) {
    before <= log && words == WireWords(log[|before|..])
  }

  lemma ExtendsNothing(log: seq<Option<Key>>)
    ensures Extends(log, log, [])
  {}

  lemma ExtendsMore(before: seq<Option<Key>>, middle: seq<Option<Key>>, after: seq<Option<Key>>,
                    first: seq<bv32>, second: seq<bv32>)
    requires Extends(middle, before, first) && Extends(after, middle, second)
    ensures Extends(after, before, first + second)
  {
    assert after[|before|..] == middle[|before|..] + after[|middle|..];
    WireWordsAppend(middle[|before|..], after[|middle|..]);
  }

  /** One position of the sweep, seen from the server. */
  lemma AdvanceIsAQuery(s: State, xs: set<Source>, i: nat)
    requires i < |ORDER|
    ensures Apply(s.(client := Sweeping(xs, i)), Advance)
         == (if ORDER[i] in xs then Queried(s, ORDER[i]) else s).(client := Sweeping(xs, i + 1))
  {
    QueriedLeavesTheClient(s, ORDER[i], Sweeping(xs, i));
  }

  /** One position of the sweep: the loop body of exec_irq_poll. */
  method PollSource(server: IrqServer, mask: bv32, i: nat, reply: Reply, ghost xs: set<Source>)
    returns (queried: seq<Source>, words: seq<bv32>)
    requires server.Valid() && server.attached && i < |ORDER| && MaskIs(mask, xs) && Io !in xs
    modifies server
    ensures server.Valid() && server.attached
    ensures server.View(Sweeping(xs, i + 1)) == Apply(old(server.View(Sweeping(xs, i))), Advance)
    ensures queried == if ORDER[i] in xs then [ORDER[i]] else []
    ensures Extends(server.log, old(server.log), words)
  {
    hide Known, PendingIn, Bit, And, Queried, Apply, WireWords;
    queried, words := [], [];
    var source, x := SOURCES[i], ORDER[i];
    SourceTable(i);
    OneWord(server.log, None);
    AdvanceIsAQuery(server.View(Idle), xs, i);
    if And(mask, Bit(source - 1)) != 0 {
      queried := [x];
      words := QuerySource(server, x, reply);
    }
  }

  /** Events, and then one position of the sweep. */
  method DeliverAndPoll(server: IrqServer, events: seq<Arrival>, mask: bv32, i: nat, reply: Reply, ghost xs: set<Source>)
    returns (queried: seq<Source>, words: seq<bv32>)
    requires server.Valid() && server.attached && i < |ORDER| && MaskIs(mask, xs) && Io !in xs
    modifies server
    ensures server.Valid() && server.attached
    ensures var s := old(server.View(Sweeping(xs, i))); var steps := Raises(events) + [Advance];
            Runs(s, steps) && server.View(Sweeping(xs, i + 1)) == Final(s, steps)
    ensures queried == if ORDER[i] in xs then [ORDER[i]] else []
    ensures Extends(server.log, old(server.log), words)
  {
    hide Known, PendingIn, Runs, Final, Raises, MaskIs, Extends, Apply;
    ghost var s := server.View(Sweeping(xs, i));
    RaisesKeepTheClient(s, events);
    DeliverAll(server, events, Sweeping(xs, i));
    queried, words := PollSource(server, mask, i, reply, xs);
    RunsSnoc(s, Raises(events), Advance);
  }

  /** A poll is a sweep of the protocol under any interleaving with arriving events: it
      queries exactly the sources visible when it read the mask, each once, and prints for the
      handset the word of what its query took from the queue. */
  method ExecIrqPoll(server: IrqServer, arrivals: seq<seq<Arrival>>, replies: seq<Reply>)
    returns (ret: int, queried: seq<Source>, words: seq<bv32>)
    requires server.Valid() && |arrivals| == |ORDER| + 1 && |replies| == |ORDER|
    modifies server
    ensures server.Valid() && server.attached == old(server.attached)
    ensures !server.attached ==> ret == -EINVAL && queried == []
    ensures server.attached ==>
              var s := old(server.View(Woken));
              && ret == 0
              && Runs(s, Raises(arrivals[0]))
              && queried == InOrder(Visible(Final(s, Raises(arrivals[0]))), |ORDER|)
              && Runs(s, PollSteps(arrivals))
              && server.View(Idle) == Final(s, PollSteps(arrivals))
              && Extends(server.log, old(server.log), words)
  {
    hide Known, PendingIn, Runs, Final, Raises, Bits, MaskBits, MaskIs, Extends;
    ghost var s := server.View(Woken);
    queried, words := [], [];
    DeliverAll(server, arrivals[0], Woken);
    var mask;
    ret, mask := server.GetMask(0);
    if ret < 0 {
      return;
    }
    ghost var xs := Visible(server.View(Idle));
    ghost var steps := PollPrefix(arrivals, 0);
    RaisesKeepTheClient(s, arrivals[0]);
    RunsSnoc(s, Raises(arrivals[0]), ReadMask);
    ZeroBits();
    assert Bits(mask) == MaskBits(xs);
    MaskOf(mask, xs);
    ExtendsNothing(server.log);
    for i := 0 to |ORDER|
      invariant server.Valid() && server.attached
      invariant steps == PollPrefix(arrivals, i) && Runs(s, steps)
      invariant server.View(Sweeping(xs, i)) == Final(s, steps)
      invariant queried == InOrder(xs, i)
      invariant Extends(server.log, old(server.log), words)
    {
      ghost var middle, more := server.log, Raises(arrivals[i + 1]) + [Advance];
      var q, w := DeliverAndPoll(server, arrivals[i + 1], mask, i, replies[i], xs);
      RunsAppend(s, steps, more);
      steps := steps + more;
      ExtendsMore(old(server.log), middle, server.log, words, w);
      queried, words := queried + q, words + w;
    }
    RunsSnoc(s, steps, Finish);
    ret := 0;
  }
}
