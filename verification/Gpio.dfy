/** Setting and reading one GPIO pin through a whole-port mask: the client's read-modify-write
    (src/rcrpc-client/gpio.c) over the server's per-pin loops (src/rcrpc/io.c). */
module Gpio {
  import opened Word
  import opened Wrappers

  /** The pins a mask read finds high when the reads of `fails` fail. */
  ghost function ReadPins(high: iset<Pin>, n: bv32, fails: set<bv32>): iset<Pin> {
    iset p: Pin | p < n && p !in fails && p in high
  }

  /** The high pins after driving those of `pins` high and the others low, when the writes of
      `fails` fail. */
  ghost function WrittenPins(high: iset<Pin>, n: bv32, pins: iset<Pin>, fails: set<bv32>): iset<Pin> {
    iset p: Pin | if p < n && p !in fails then p in pins else p in high
  }

  /** The client's edit of the mask. */
  ghost function Edit(pins: iset<Pin>, g: Pin, value: int): iset<Pin> {
    if value != 0 then pins + iset{g} else pins - iset{g}
  }

  ghost function SetPin(high: iset<Pin>, n: bv32, g: Pin, value: int, readFails: set<bv32>, writeFails: set<bv32>)
    : iset<Pin>
  {
    WrittenPins(high, n, Edit(ReadPins(high, n, readFails), g, value), writeFails)
  }

  /** With no failures, setting a pin sets that pin and leaves every other level as it was. */
  lemma SetChangesOnePin(high: iset<Pin>, n: bv32, g: Pin, value: int)
    requires g < n
    ensures SetPin(high, n, g, value, {}, {}) == if value != 0 then high + iset{g} else high - iset{g}
  {
    forall p: Pin
      ensures p in SetPin(high, n, g, value, {}, {}) <==> if p == g then value != 0 else p in high
    {
    }
  }

  /** With failures, every other pin that can be written ends at the level that was read, low
      if its read failed; a pin that cannot be written keeps its level. */
  lemma FailuresFrame(high: iset<Pin>, n: bv32, g: Pin, value: int,
                      readFails: set<bv32>, writeFails: set<bv32>, p: Pin)
    requires p < n
    ensures p in SetPin(high, n, g, value, readFails, writeFails) <==>
            if p in writeFails then p in high
            else if p == g then value != 0
            else p !in readFails && p in high
  {}

  /** Settings of different pins commute; of the same pin the last one counts. */
  lemma SettingsCommute(high: iset<Pin>, n: bv32, g: Pin, v: int, h: Pin, w: int)
    requires g < n && h < n
    ensures var gh := SetPin(SetPin(high, n, g, v, {}, {}), n, h, w, {}, {});
            var hg := SetPin(SetPin(high, n, h, w, {}, {}), n, g, v, {}, {});
            gh == if g != h then hg else SetPin(high, n, h, w, {}, {})
  {
    hide SetPin;
    SetChangesOnePin(high, n, g, v);
    SetChangesOnePin(high, n, h, w);
    SetChangesOnePin(SetPin(high, n, g, v, {}, {}), n, h, w);
    SetChangesOnePin(SetPin(high, n, h, w, {}, {}), n, g, v);
  }

  /** Two clients that both read before either writes: the second write undoes the first
      client's pin, so the outcome is that of the two settings in turn exactly when the first
      client's pin already had the level it asked for. */
  lemma RacingClients(high: iset<Pin>, n: bv32, g: Pin, v: int, h: Pin, w: int)
    requires g < n && h < n && g != h
    ensures var read := ReadPins(high, n, {});
            var raced := WrittenPins(WrittenPins(high, n, Edit(read, g, v), {}), n, Edit(read, h, w), {});
            var inTurn := SetPin(SetPin(high, n, g, v, {}, {}), n, h, w, {}, {});
            raced == inTurn <==> (g in high <==> v != 0)
  {
    var read, first := ReadPins(high, n, {}), SetPin(high, n, g, v, {}, {});
    SetChangesOnePin(high, n, g, v);
    SetChangesOnePin(first, n, h, w);
    var raced, inTurn := WrittenPins(first, n, Edit(read, h, w), {}), SetPin(first, n, h, w, {}, {});
    assert g in inTurn <==> v != 0;
    forall p: Pin ensures p in raced <==> if p == h then w != 0 else p in high {
      assert p != g && !(p < n) ==> (p in first <==> p in high);
    }
  }

  /** What the backend reports as its number of pins, or the negative error instead. */
  datatype Count = Pins(n: bv32) | Failed(err: int)

  class Backend {
    const count: Count
    var level: set<bv32>  // the pins that are high

    ghost predicate Valid() {
      match count
      case Pins(n) => n <= 32
      case Failed(err) => err < 0
    }

    ghost function High(): iset<Pin>
      reads this
    {
      iset p: Pin | p in level
    }

    constructor (count: Count, level: set<bv32>)
      requires match count case Pins(n) => n <= 32 case Failed(err) => err < 0
      ensures Valid() && this.count == count && this.level == level
    {
      this.count, this.level := count, level;
    }

    /** `gpio_backend_get_value` */
    method GetValue(i: Pin, fails: set<bv32>) returns (ret: int)
      requires Valid() && count.Pins? && i < count.n
      ensures i in fails ==> ret < 0
      ensures i !in fails ==> ret >= 0 && (ret != 0 <==> i in High())
    {
      ret := if i in fails then -1 else if i in level then 1 else 0;
    }

    /** `gpio_backend_direction_output` */
    method DirectionOutput(i: Pin, value: int, fails: set<bv32>) returns (ret: int)
      requires Valid() && count.Pins? && i < count.n
      modifies this
      ensures i in fails ==> ret < 0 && High() == old(High())
      ensures i !in fails ==> ret == 0 && High() == Edit(old(High()), i, value)
    {
      if i in fails {
        ret := -1;
      } else {
        level, ret := if value != 0 then level + {i} else level - {i}, 0;
      }
    }
  }

  lemma UpTo(i: Pin, p: Pin)
    ensures p < i + 1 <==> p < i || p == i
    ensures !(p < 0)
  {}

  lemma NextRead(high: iset<Pin>, i: Pin, fails: set<bv32>)
    ensures ReadPins(high, 0, fails) == iset{}
    ensures ReadPins(high, i + 1, fails)
            == ReadPins(high, i, fails) + if i !in fails && i in high then iset{i} else iset{}
  {
    forall p: Pin
      ensures p !in ReadPins(high, 0, fails)
      ensures p in ReadPins(high, i + 1, fails)
              <==> p in ReadPins(high, i, fails) || (p == i && i !in fails && i in high)
    {
      UpTo(i, p);
    }
  }

  lemma NextWritten(high: iset<Pin>, i: Pin, pins: iset<Pin>, fails: set<bv32>)
    ensures WrittenPins(high, 0, pins, fails) == high
    ensures var now := WrittenPins(high, i, pins, fails);
            WrittenPins(high, i + 1, pins, fails)
            == if i in fails then now else if i in pins then now + iset{i} else now - iset{i}
  {
    var now := WrittenPins(high, i, pins, fails);
    forall p: Pin
      ensures p in WrittenPins(high, 0, pins, fails) <==> p in high
      ensures p in WrittenPins(high, i + 1, pins, fails) <==> if p == i && i !in fails then i in pins else p in now
    {
      UpTo(i, p);
    }
  }

  /** A failing count is answered with a positive number and leaves the mask alone. */
  method GetMask(backend: Backend, mask: bv32, fails: set<bv32>) returns (ret: int, out: bv32)
    requires backend.Valid()
    ensures match backend.count
            case Failed(err) => ret == -err && out == mask
            case Pins(n) => ret == 0 && Bits(out) == ReadPins(backend.High(), n, fails)
  {
    hide Bits, Bit, Or, ReadPins, Backend.High;
    out := mask;
    if backend.count.Failed? {
      return -backend.count.err, out;
    }
    var num := backend.count.n;
    var value: bv32 := 0;
    ZeroBits();
    NextRead(backend.High(), 0, fails);
    var i: bv32 := 0;
    while i < num
      invariant i <= num && Bits(value) == ReadPins(backend.High(), i, fails)
      decreases num - i
    {
      ret := backend.GetValue(i, fails);
      NextRead(backend.High(), i, fails);
      OrBit(value, i);
      if ret > 0 {
        value := Or(value, Bit(i));
      }
      i := i + 1;
    }
    return 0, value;
  }

  lemma BitValue(mask: bv32, i: Pin)
    ensures (mask >> i) & 1 == if i in Bits(mask) then 1 else 0
  {}

  /** `(mask >> i) & 1` */
  method PinValue(mask: bv32, i: Pin) returns (value: int)
    ensures value == if i in Bits(mask) then 1 else 0
  {
    BitValue(mask, i);
    value := if (mask >> i) & 1 == 1 then 1 else 0;
  }

  method SetMask(backend: Backend, mask: bv32, fails: set<bv32>) returns (ret: int)
    requires backend.Valid()
    modifies backend
    ensures match backend.count
            case Failed(err) => ret == -err && backend.High() == old(backend.High())
            case Pins(n) => ret == 0 && backend.High() == WrittenPins(old(backend.High()), n, Bits(mask), fails)
  {
    hide Bits, WrittenPins, Backend.High;
    if backend.count.Failed? {
      return -backend.count.err;
    }
    var num := backend.count.n;
    ghost var before := backend.High();
    NextWritten(before, 0, Bits(mask), fails);
    var i: bv32 := 0;
    while i < num
      invariant i <= num
      invariant backend.High() == WrittenPins(before, i, Bits(mask), fails)
      decreases num - i
    {
      var value := PinValue(mask, i);
      NextWritten(before, i, Bits(mask), fails);
      ret := backend.DirectionOutput(i, value, fails);
      i := i + 1;
    }
    ret := 0;
  }

  /** `down` and `down'` are errors of the two remote calls themselves; a call that fails does
      not reach the server. */
  method RemoteGpioSet(backend: Backend, gpio: Pin, value: int, down: Option<int>, down': Option<int>,
                       readFails: set<bv32>, writeFails: set<bv32>) returns (ret: int)
    requires backend.Valid()
    requires (down.Some? ==> down.value < 0) && (down'.Some? ==> down'.value < 0)
    modifies backend
    ensures down.Some? ==> ret == down.value && backend.High() == old(backend.High())
    ensures down.None? && down'.Some? ==> ret == down'.value && backend.High() == old(backend.High())
    ensures down.None? && down'.None? ==>
              match backend.count
              case Failed(err) => ret == -err && backend.High() == old(backend.High())
              case Pins(n) =>
                ret == 0 && backend.High() == SetPin(old(backend.High()), n, gpio, value, readFails, writeFails)
  {
    hide Bits, Bit, Or, AndNot, ReadPins, WrittenPins, Backend.High;
    if down.Some? {
      return down.value;
    }
    var mask;
    ret, mask := GetMask(backend, 0, readFails);
    if ret < 0 {
      return;
    }
    OrBit(mask, gpio);
    AndNotBits(mask, Bit(gpio));
    BitBits(gpio);
    if value != 0 {
      mask := Or(mask, Bit(gpio));
    } else {
      mask := AndNot(mask, Bit(gpio));
    }
    if down'.Some? {
      return down'.value;
    }
    ret := SetMask(backend, mask, writeFails);
  }

  /** A failing count reads as a low pin. */
  method RemoteGpioGet(backend: Backend, gpio: Pin, down: Option<int>, readFails: set<bv32>) returns (ret: int)
    requires backend.Valid() && (down.Some? ==> down.value < 0)
    ensures if down.Some? then ret == down.value
            else match backend.count
              case Failed(_) => ret == 0
              case Pins(n) => ret == if gpio in ReadPins(backend.High(), n, readFails) then 1 else 0
  {
    hide Bits, ReadPins;
    if down.Some? {
      return down.value;
    }
    var mask;
    ret, mask := GetMask(backend, 0, readFails);
    if ret < 0 {
      return;
    }
    ZeroBits();
    ret := PinValue(mask, gpio);
  }

  /** Setting a pin and reading it back. */
  method SetThenGet(backend: Backend, gpio: Pin, value: int) returns (ret: int)
    requires backend.Valid() && backend.count.Pins? && gpio < backend.count.n
    modifies backend
    ensures ret == if value != 0 then 1 else 0
  {
    var done := RemoteGpioSet(backend, gpio, value, None, None, {}, {});
    SetChangesOnePin(old(backend.High()), backend.count.n, gpio, value);
    ret := RemoteGpioGet(backend, gpio, None, {});
  }
}
