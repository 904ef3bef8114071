/** The server side of src/rcrpc/irq.c over its 32-bit status word, proved to take the steps of
    IrqProtocol. */
module Irq {
  import opened Wrappers
  import opened Word
  import opened IrqProtocol

  /** The EVENT_SOURCE_* numbers, which come from a header outside the repository. */
  datatype Numbering = Numbering(hook: Pin, smartcard: Pin, voip: Pin, io: Pin, modem: Pin, handset: Pin) {

    function Of(x: Source): Pin {
      match x
      case Hook => hook
      case Smartcard => smartcard
      case Voip => voip
      case Io => io
      case Modem => modem
      case Handset => handset
    }

    ghost predicate Valid() {
      forall x, y :: Of(x) == Of(y) ==> x == y
    }
  }

  lemma NamesOf(num: Numbering)
    ensures num.Of(Hook) == num.hook && num.Of(Smartcard) == num.smartcard && num.Of(Voip) == num.voip
    ensures num.Of(Io) == num.io && num.Of(Modem) == num.modem && num.Of(Handset) == num.handset
  {}

  /** The sources whose bit is set in a status word. */
  ghost function PendingIn(num: Numbering, w: bv32): set<Source> {
    set x: Source | num.Of(x) in Bits(w)
  }

  /** Only the six known bits are used. */
  ghost predicate Known(num: Numbering, w: bv32) {
    forall j :: j in Bits(w) ==> exists x :: num.Of(x) == j
  }

  lemma EmptyWord(num: Numbering)
    ensures Known(num, 0) && PendingIn(num, 0) == {}
  {
    ZeroBits();
  }

  lemma OneSource(num: Numbering, x: Source)
    requires num.Valid()
    ensures Known(num, Bit(num.Of(x))) && PendingIn(num, Bit(num.Of(x))) == {x}
  {
    BitBits(num.Of(x));
  }

  lemma OrWords(num: Numbering, v: bv32, w: bv32)
    requires Known(num, v) && Known(num, w)
    ensures Known(num, Or(v, w)) && PendingIn(num, Or(v, w)) == PendingIn(num, v) + PendingIn(num, w)
  {
    hide Bits, Or;
    OrBits(v, w);
  }

  lemma AndNotWords(num: Numbering, v: bv32, w: bv32)
    requires Known(num, v)
    ensures Known(num, AndNot(v, w)) && PendingIn(num, AndNot(v, w)) == PendingIn(num, v) - PendingIn(num, w)
  {
    hide Bits, AndNot;
    AndNotBits(v, w);
  }

  /** Comparing status words is comparing pending sets, as long as only known bits are used. */
  lemma SameWord(num: Numbering, v: bv32, w: bv32)
    requires num.Valid() && Known(num, v) && Known(num, w)
    ensures v == w <==> PendingIn(num, v) == PendingIn(num, w)
  {
    if PendingIn(num, v) == PendingIn(num, w) {
      forall j: Pin ensures j in Bits(v) <==> j in Bits(w) {
        if j in Bits(v) || j in Bits(w) {
          var x :| num.Of(x) == j;
          assert x in PendingIn(num, v) <==> x in PendingIn(num, w);
        }
      }
      BitsDetermine(v, w);
    }
  }

  /** The event callback's word arithmetic: its own word equals the status exactly when the
      source is the only one pending, and or-ing it in adds the source. */
  lemma EventWord(num: Numbering, status: bv32, x: Source)
    requires num.Valid() && Known(num, status)
    ensures var w := Or(0, Bit(num.Of(x)));
            && (w == status <==> PendingIn(num, status) == {x})
            && Known(num, Or(status, w))
            && PendingIn(num, Or(status, w)) == PendingIn(num, status) + {x}
  {
    hide Bits, Bit, Or, Known, PendingIn;
    EmptyWord(num);
    OneSource(num, x);
    OrWords(num, 0, Bit(num.Of(x)));
    OrWords(num, status, Or(0, Bit(num.Of(x))));
    SameWord(num, Or(0, Bit(num.Of(x))), status);
  }

  /** A query's word arithmetic: clearing the source's bit changes the word exactly when the
      source was pending. */
  lemma QueryWord(num: Numbering, status: bv32, x: Source)
    requires num.Valid() && Known(num, status)
    ensures var w := AndNot(status, Bit(num.Of(x)));
            && (w == status <==> x !in PendingIn(num, status))
            && Known(num, w)
            && PendingIn(num, w) == PendingIn(num, status) - {x}
  {
    hide Bits, Bit, AndNot, Known, PendingIn;
    OneSource(num, x);
    AndNotWords(num, status, Bit(num.Of(x)));
    SameWord(num, AndNot(status, Bit(num.Of(x))), status);
  }

  /** What the event callback leaves behind, field by field. */
  lemma IsAnnounced(s: State, t: State, x: Source)
    requires t.client == s.client && t.pushed == s.pushed && t.queue == s.queue && t.log == s.log
    requires if s.pending == {x} then t.pending == s.pending && t.notes == s.notes
             else t.pending == s.pending + {x} && t.notes == s.notes + 1
    ensures t == Announced(s, x)
  {}

  /** What a query leaves behind, field by field. */
  lemma IsQueried(s: State, t: State, x: Source)
    requires x != Io && t.client == s.client && t.pushed == s.pushed
    requires x == Handset && s.queue != [] ==>
               && t.pending == s.pending && t.queue == s.queue[1..]
               && t.notes == s.notes + 1 && t.log == s.log + [Some(s.queue[0])]
    requires !(x == Handset && s.queue != []) ==>
               && t.pending == s.pending - {x} && t.queue == s.queue
               && t.notes == s.notes + (if x in s.pending then 0 else 1)
               && t.log == s.log + (if x == Handset then [None] else [])
    ensures t == Queried(s, x)
  {
    assert x !in s.pending ==> s.pending - {x} == s.pending;
  }

  // The IRQ_* mask bits of irq_get_mask.
  const IRQ_HOOK: Pin := 0
  const IRQ_SMARTCARD: Pin := 1
  const IRQ_VOIP: Pin := 2
  const IRQ_IO: Pin := 3
  const IRQ_MODEM: Pin := 4
  const IRQ_HANDSET: Pin := 5

  function MaskBit(x: Source): Pin {
    match x
    case Hook => IRQ_HOOK
    case Smartcard => IRQ_SMARTCARD
    case Voip => IRQ_VOIP
    case Io => IRQ_IO
    case Modem => IRQ_MODEM
    case Handset => IRQ_HANDSET
  }

  // The IRQ_SOURCE_* numbers of irq_get_info: one more than the mask bit.
  const IRQ_SOURCE_UNKNOWN: bv32 := 0
  const IRQ_SOURCE_HOOK: bv32 := 1
  const IRQ_SOURCE_CARD: bv32 := 2
  const IRQ_SOURCE_VOIP: bv32 := 3
  const IRQ_SOURCE_IO: bv32 := 4
  const IRQ_SOURCE_MODEM: bv32 := 5
  const IRQ_SOURCE_HANDSET: bv32 := 6

  function SourceNumber(x: Source): bv32 {
    match x
    case Hook => IRQ_SOURCE_HOOK
    case Smartcard => IRQ_SOURCE_CARD
    case Voip => IRQ_SOURCE_VOIP
    case Io => IRQ_SOURCE_IO
    case Modem => IRQ_SOURCE_MODEM
    case Handset => IRQ_SOURCE_HANDSET
  }

  lemma NamesOfNumbers()
    ensures SourceNumber(Hook) == IRQ_SOURCE_HOOK && SourceNumber(Smartcard) == IRQ_SOURCE_CARD
    ensures SourceNumber(Voip) == IRQ_SOURCE_VOIP && SourceNumber(Io) == IRQ_SOURCE_IO
    ensures SourceNumber(Modem) == IRQ_SOURCE_MODEM && SourceNumber(Handset) == IRQ_SOURCE_HANDSET
  {}

  /** The mask bits of a set of sources. */
  ghost function MaskBits(xs: set<Source>): iset<Pin> {
    iset x | x in xs :: MaskBit(x)
  }

  /** What one test of irq_get_mask contributes. */
  ghost function Hit(w: bv32, event: Pin, bit: Pin): iset<Pin> {
    if event in Bits(w) then iset{bit} else iset{}
  }

  ghost function Visibles(num: Numbering, w: bv32): set<Source> {
    PendingIn(num, w) - {Io}
  }

  lemma MaskBitsUnion(a: set<Source>, b: set<Source>)
    ensures MaskBits(a + b) == MaskBits(a) + MaskBits(b)
  {}

  lemma HitIsMaskBit(num: Numbering, w: bv32, x: Source)
    ensures Hit(w, num.Of(x), MaskBit(x)) == MaskBits(PendingIn(num, w) * {x})
  {
    hide Bits, Numbering.Of;
  }

  /** The five tests of irq_get_mask together. */
  lemma FiveBits(num: Numbering, w: bv32)
    ensures Hit(w, num.modem, IRQ_MODEM) + Hit(w, num.voip, IRQ_VOIP) + Hit(w, num.smartcard, IRQ_SMARTCARD)
            + Hit(w, num.hook, IRQ_HOOK) + Hit(w, num.handset, IRQ_HANDSET)
            == MaskBits(Visibles(num, w))
  {
    NamesOf(num);
    NamesOfMaskBits();
    hide Bits, Hit, MaskBits, MaskBit, PendingIn, Numbering.Of;
    var all := PendingIn(num, w);
    HitIsMaskBit(num, w, Modem);
    HitIsMaskBit(num, w, Voip);
    HitIsMaskBit(num, w, Smartcard);
    HitIsMaskBit(num, w, Hook);
    HitIsMaskBit(num, w, Handset);
    var two := all * {Modem} + all * {Voip};
    var three := two + all * {Smartcard};
    var four := three + all * {Hook};
    MaskBitsUnion(all * {Modem}, all * {Voip});
    MaskBitsUnion(two, all * {Smartcard});
    MaskBitsUnion(three, all * {Hook});
    MaskBitsUnion(four, all * {Handset});
    forall x ensures x in all - {Io} <==> x in four + all * {Handset} {
      assert x.Hook? || x.Smartcard? || x.Voip? || x.Io? || x.Modem? || x.Handset?;
    }
    assert all - {Io} == four + all * {Handset};
  }

  lemma NamesOfMaskBits()
    ensures MaskBit(Modem) == IRQ_MODEM && MaskBit(Voip) == IRQ_VOIP && MaskBit(Smartcard) == IRQ_SMARTCARD
    ensures MaskBit(Hook) == IRQ_HOOK && MaskBit(Handset) == IRQ_HANDSET
  {}

  lemma AddHits(base: iset<Pin>, a: iset<Pin>, b: iset<Pin>, c: iset<Pin>, d: iset<Pin>, e: iset<Pin>)
    ensures base + a + b + c + d + e == base + (a + b + c + d + e)
  {}

  lemma NoHits(num: Numbering)
    ensures MaskBits(Visibles(num, 0)) == iset{}
  {
    EmptyWord(num);
  }

  /** One test of irq_get_mask. */
  method Translate(word: bv32, event: Pin, mask: bv32, bit: Pin) returns (out: bv32)
    ensures Bits(out) == Bits(mask) + Hit(word, event, bit)
  {
    hide Bits, Bit, And, Or;
    TestBits(word, event);
    OrBit(mask, bit);
    out := mask;
    if And(word, Bit(event)) != 0 {
      out := Or(out, Bit(bit));
    }
  }

  lemma OrNothing(w: bv32)
    ensures w | 0 == w
  {}

  /** The handset branch of irq_get_info: the word decodes to the low half of the keycode and
      the pressed flag. */
  method PackInfo(k: Key) returns (info: bv32)
    ensures info == Pack(k) && info < 0x2_0000
    ensures Unpack(info) == Key(k.keycode & 0xffff, k.pressed)
  {
    hide Unpack;
    PackRoundTrip(k);
    OrNothing(k.keycode & 0xffff);
    info := k.keycode & 0xffff;
    if k.pressed {
      info := info | (1 << 16);
    }
  }

  lemma NoKeyIsZero()
    ensures Pack(Key(0, false)) == 0
  {}

  /** `struct irq_data` with the two things it talks to: the event manager's handset queue
      and the channel that carries `irq_event` to the client. */
  class IrqServer {
    const num: Numbering
    var attached: bool
    var status: bv32
    var queue: seq<Key>
    var notes: nat
    ghost var pushed: seq<Key>
    ghost var log: seq<Option<Key>>

    ghost predicate Valid()
      reads this
    {
      num.Valid() && Known(num, status)
    }

    /** The state of the protocol, with the client in phase `c`. */
    ghost function View(c: Client): State
      reads this
    {
      State(PendingIn(num, status), queue, notes, c, pushed, log)
    }

    constructor (num: Numbering)
      requires num.Valid()
      ensures Valid() && attached && this.num == num
      ensures View(Idle) == INITIAL
    {
      this.num := num;
      attached, status, queue, notes, pushed, log := true, 0, [], 0, [], [];
      new;
      EmptyWord(num);
    }

    /** The switch of irq_event_cb; `None` is its default branch. */
    method EventBit(source: bv32) returns (word: Option<bv32>)
      ensures forall x :: source == num.Of(x) ==> word == Some(Or(0, Bit(num.Of(x))))
      ensures word.Some? ==> exists x :: source == num.Of(x)
    {
      hide Bit, Or;
      NamesOf(num);
      var irqStatus: bv32 := 0;
      if source == num.modem {
        irqStatus := Or(irqStatus, Bit(num.modem));
      } else if source == num.io {
        irqStatus := Or(irqStatus, Bit(num.io));
      } else if source == num.voip {
        irqStatus := Or(irqStatus, Bit(num.voip));
      } else if source == num.smartcard {
        irqStatus := Or(irqStatus, Bit(num.smartcard));
      } else if source == num.hook {
        irqStatus := Or(irqStatus, Bit(num.hook));
      } else if source == num.handset {
        irqStatus := Or(irqStatus, Bit(num.handset));
      } else {
        return None;
      }
      return Some(irqStatus);
    }

    method EventCb(event: Option<bv32>) returns (ret: int)
      requires Valid()
      modifies this`status, this`notes
      ensures Valid()
      ensures event.None? ==> ret == -EINVAL && View(Idle) == old(View(Idle))
      ensures event.Some? && (forall x :: num.Of(x) != event.value) ==>
                ret == -ENXIO && View(Idle) == old(View(Idle))
      ensures forall x :: event == Some(num.Of(x)) ==> ret == 0 && View(Idle) == Announced(old(View(Idle)), x)
    {
      hide Bits, Bit, Or, Known, PendingIn, Numbering.Of, Announced;
      if event.None? {
        return -EINVAL;
      }
      var irqStatus := EventBit(event.value);
      if irqStatus.None? {
        return -ENXIO;
      }
      ghost var before := View(Idle);
      ghost var x :| event.value == num.Of(x);
      EventWord(num, status, x);
      if irqStatus.value != status {
        notes := notes + 1;
        status := Or(status, irqStatus.value);
      }
      IsAnnounced(before, View(Idle), x);
      return 0;
    }

    /** The device side: a handset key is queued in the same step in which the callback runs. */
    method Deliver(x: Source, k: Key)
      requires Valid()
      modifies this
      ensures Valid() && attached == old(attached)
      ensures View(Idle) == Raised(old(View(Idle)), x, k)
    {
      if x == Handset {
        queue, pushed := queue + [k], pushed + [k];
      }
      var ret := EventCb(Some(num.Of(x)));
    }

    /** `event_manager_get_source_state`, as irq.c relies on it: the handset pops its queue or
        reports -ENODATA and leaves the zeroed event alone; for any other source the result
        `other` is the environment's. */
    method GetSourceState(source: bv32, other: int) returns (err: int, key: Key)
      modifies this`queue
      ensures source == num.handset && old(queue) != [] ==>
                err == 0 && key == old(queue)[0] && queue == old(queue)[1..]
      ensures source == num.handset && old(queue) == [] ==>
                err == -ENODATA && key == Key(0, false) && queue == []
      ensures source != num.handset ==> err == other && key == Key(0, false) && queue == old(queue)
    {
      key := Key(0, false);
      if source != num.handset {
        err := other;
      } else if queue == [] {
        err := -ENODATA;
      } else {
        err, key, queue := 0, queue[0], queue[1..];
      }
    }

    /** The switch of irq_data_update_from_source on the event's source. */
    method ClearSwitch(source: bv32, word: bv32, err: int) returns (word': bv32, err': int)
      requires num.Valid()
      ensures forall x :: source == num.Of(x) ==>
                && word' == (if x in {Io, Handset} then word else AndNot(word, Bit(num.Of(x))))
                && err' == (if x == Io then -ENOSYS else err)
      ensures (forall x :: source != num.Of(x)) ==> word' == word && err' == -ENOSYS
    {
      hide Bit, AndNot;
      NamesOf(num);
      word', err' := word, err;
      if source == num.modem {
        word' := AndNot(word, Bit(num.modem));
      } else if source == num.voip {
        word' := AndNot(word, Bit(num.voip));
      } else if source == num.smartcard {
        word' := AndNot(word, Bit(num.smartcard));
      } else if source == num.hook {
        word' := AndNot(word, Bit(num.hook));
      } else if source != num.handset {
        err' := -ENOSYS;
      }
    }

    /** The first half of irq_data_update_from_source: ask for the state and work out the
        status word with the source's bit cleared, or kept for a handset that had a key. */
    method SourceWord(source: bv32, other: int) returns (word: bv32, err: int, key: Key)
      requires num.Valid()
      modifies this`queue, this`log
      ensures forall x :: source == num.Of(x) ==>
                && word == (if x == Io || (x == Handset && old(queue) != []) then status
                            else AndNot(status, Bit(num.Of(x))))
                && (x != Io ==> err == if x == Handset then 0 else other)
      ensures (forall x :: source != num.Of(x)) ==> word == status
      ensures if source == num.handset && old(queue) != []
              then key == old(queue)[0] && queue == old(queue)[1..] && log == old(log) + [Some(key)]
              else key == Key(0, false) && queue == old(queue)
                   && log == old(log) + if source == num.handset then [None] else []
    {
      hide Bit, AndNot;
      NamesOf(num);
      word := status;
      ghost var got: Option<Key> := if queue == [] then None else Some(queue[0]);
      err, key := GetSourceState(source, other);
      if err == -ENODATA && source == num.handset {
        err := 0;
        word := AndNot(word, Bit(num.handset));
      }
      word, err := ClearSwitch(source, word, err);
      if source == num.handset {
        log := log + [got];
      }
    }

    /** When the word did not change, the result of the notification replaces the error, even
        the -ENOSYS of a source the switch does not know. */
    method UpdateFromSource(source: bv32, other: int) returns (err: int, key: Key)
      requires Valid()
      modifies this
      ensures Valid() && attached == old(attached)
      ensures !attached ==> err == -EINVAL && View(Idle) == old(View(Idle))
      ensures attached && source != num.io ==> forall x :: source == num.Of(x) ==>
                && View(Idle) == Queried(old(View(Idle)), x)
                && err == (if x != Handset && x in old(View(Idle)).pending then other else 0)
                && key == (if x == Handset && old(queue) != [] then old(queue)[0] else Key(0, false))
      ensures attached && (source == num.io || forall x :: source != num.Of(x)) ==>
                err == 0 && View(Idle) == old(View(Idle).(notes := notes + 1))
    {
      hide Bits, Bit, AndNot, Known, PendingIn, Queried;
      key := Key(0, false);
      if !attached {
        return -EINVAL, key;
      }
      NamesOf(num);
      hide Numbering.Of;
      ghost var before := View(Idle);
      var irqStatus;
      irqStatus, err, key := SourceWord(source, other);
      forall x | x != Io && source == num.Of(x)
        ensures irqStatus == status <==> (x == Handset && before.queue != []) || x !in before.pending
        ensures Known(num, irqStatus)
        ensures PendingIn(num, irqStatus)
                == if x == Handset && before.queue != [] then before.pending else before.pending - {x}
      {
        QueryWord(num, status, x);
      }
      if irqStatus == status {
        notes := notes + 1;
        err := 0;
      } else {
        status := irqStatus;
      }
      forall x | x != Io && source == num.Of(x) ensures View(Idle) == Queried(before, x) {
        IsQueried(before, View(Idle), x);
      }
    }

    method IrqEnable() returns (ret: int)
      requires Valid()
      modifies this`notes
      ensures Valid() && ret == 0
      ensures View(Idle) == Apply(old(View(Idle)), Enable)
    {
      notes := notes + 1;
      ret := 0;
    }

    method Cleanup()
      modifies this`attached
      ensures !attached
    {
      attached := false;
    }

    /** The mask gains one bit for every visible pending source and nothing else. */
    method GetMask(mask: bv32) returns (ret: int, out: bv32)
      requires Valid()
      ensures ret == if attached then 0 else -EINVAL
      ensures Bits(out) == Bits(mask) + if attached then MaskBits(Visible(View(Idle))) else iset{}
    {
      hide Bits, Hit, MaskBits, Known, PendingIn;
      var word: bv32 := 0;
      ret := -EINVAL;
      if attached {
        word := status;
        ret := 0;
      }
      out := Translate(word, num.modem, mask, IRQ_MODEM);
      out := Translate(word, num.voip, out, IRQ_VOIP);
      out := Translate(word, num.smartcard, out, IRQ_SMARTCARD);
      out := Translate(word, num.hook, out, IRQ_HOOK);
      out := Translate(word, num.handset, out, IRQ_HANDSET);
      AddHits(Bits(mask), Hit(word, num.modem, IRQ_MODEM), Hit(word, num.voip, IRQ_VOIP),
              Hit(word, num.smartcard, IRQ_SMARTCARD), Hit(word, num.hook, IRQ_HOOK),
              Hit(word, num.handset, IRQ_HANDSET));
      FiveBits(num, word);
      NoHits(num);
    }

    /** `other` is what the event manager answers for a source that is not the handset and
        `decoded` what its state table makes of the event, `None` for an unknown state. */
    method GetInfo(source: bv32, info: bv32, other: int, decoded: Option<bv32>) returns (ret: int, out: bv32)
      requires Valid()
      modifies this
      ensures Valid() && attached == old(attached)
      ensures source in {IRQ_SOURCE_UNKNOWN, IRQ_SOURCE_IO} ==>
                ret == 0 && out == info && View(Idle) == old(View(Idle))
      ensures source != IRQ_SOURCE_UNKNOWN && (forall x :: source != SourceNumber(x)) ==>
                ret == -EINVAL && out == info && View(Idle) == old(View(Idle))
      ensures forall x :: source == SourceNumber(x) && x != Io ==>
                if !attached then ret == -EINVAL && out == info && View(Idle) == old(View(Idle))
                else
                  && View(Idle) == Queried(old(View(Idle)), x)
                  && (x == Handset ==> ret == 0 && log != [] && out == WireWord(log[|log| - 1]))
                  && (x != Handset ==>
                        if x in old(View(Idle)).pending && other < 0 then ret == other && out == info
                        else if decoded.Some? then ret == 0 && out == decoded.value
                        else ret == -ENXIO && out == info)
    {
      hide Bits, Bit, Known, PendingIn, Pack;
      NamesOf(num);
      NamesOfNumbers();
      ret, out := 0, info;
      if source == IRQ_SOURCE_UNKNOWN || source == IRQ_SOURCE_IO {
        return;
      }
      var event;
      if source == IRQ_SOURCE_HOOK {
        event := num.hook;
      } else if source == IRQ_SOURCE_CARD {
        event := num.smartcard;
      } else if source == IRQ_SOURCE_VOIP {
        event := num.voip;
      } else if source == IRQ_SOURCE_MODEM {
        event := num.modem;
      } else if source == IRQ_SOURCE_HANDSET {
        event := num.handset;
      } else {
        return -EINVAL, info;
      }
      var err, key := UpdateFromSource(event, other);
      if err < 0 {
        return err, info;
      }
      if source == IRQ_SOURCE_HANDSET {
        out := PackInfo(key);
        NoKeyIsZero();
      } else if decoded.Some? {
        out := decoded.value;
      } else {
        ret := -ENXIO;
      }
    }
  }
}
