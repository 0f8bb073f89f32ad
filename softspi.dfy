/** Software SPI over three digital pins (firmware/shared/softspi.c). A
    transfer clocks `bits` bits out on MOSI and in from MISO. Here every
    pinWrite and pinRead the routines issue is an event of a trace, and the
    levels pinRead returns on MISO are supplied as a sequence of samples,
    one per bit in the order they are read. */
module SoftSpi {
  import opened Results
  import opened Pins

  // ---------------------------------------------------------------------
  // Options and the words the routines assemble
  // ---------------------------------------------------------------------

  const PHASE_TRAILING: bv8 := 0x01
  const POLARITY_HIGH: bv8 := 0x02
  const LSB_FIRST: bv8 := 0x04

  /** Data is latched on the trailing clock edge (CPHA = 1). */
  predicate Trailing(options: bv8)
  {
    options & PHASE_TRAILING != 0
  }

  /** The level SCK is driven to for a clock pulse: high unless the polarity
      option makes the clock active low. */
  predicate Active(options: bv8)
  {
    options & POLARITY_HIGH == 0
  }

  predicate LsbFirst(options: bv8)
  {
    options & LSB_FIRST != 0
  }

  /** Bit k of a 16-bit word. */
  predicate Bit16(v: bv16, k: bv8)
    requires k < 16
  {
    (v >> k) & 1 == 1
  }

  /** `(result << 1) | sample`: the MSB-first routine's step. */
  function ShiftIn(r: bv16, sample: bool): bv16
  {
    (r << 1) | (if sample then 1 else 0)
  }

  /** `(result >> 1) | (sample ? 0x8000 : 0)`: the LSB-first routine's step. */
  function ShiftDown(r: bv16, sample: bool): bv16
  {
    (r >> 1) | (if sample then 0x8000 else 0)
  }

  /** `v >> 1` */
  function Half(v: bv16): bv16
  {
    v >> 1
  }

  /** `v >> s` for a shift of at most the word width; a shift by 16 leaves
      nothing. */
  function Shr(v: bv16, s: bv8): bv16
    requires s <= 16
  {
    v >> s
  }

  /** `1 << q` in 16 bits; `1 << 16` leaves nothing. */
  function OneAt(q: bv8): bv16
    requires q <= 16
  {
    1 << q
  }

  /** `v & m` taken as a truth value, as pinWrite receives it. */
  predicate AnySet16(v: bv16, m: bv16)
  {
    v & m != 0
  }

  /** v halved i times: the mask or the data word after i iterations. */
  function Halved(v: bv16, i: nat): bv16
  {
    if i == 0 then v else Half(Halved(v, i - 1))
  }

  lemma ShiftInBit(r: bv16, sample: bool, k: bv8)
    requires k < 16
    ensures Bit16(ShiftIn(r, sample), k) == if k == 0 then sample else Bit16(r, k - 1)
  {
  }

  lemma ShiftDownBit(r: bv16, sample: bool, k: bv8)
    requires k < 16
    ensures Bit16(ShiftDown(r, sample), k) == if k == 15 then sample else Bit16(r, k + 1)
  {
  }

  lemma ShrBit(v: bv16, s: bv8, k: bv8)
    requires s <= 16 && k < 16
    ensures Bit16(Shr(v, s), k) == (k + s < 16 && Bit16(v, k + s))
  {
  }

  lemma AnySetOne(v: bv16, q: bv8)
    requires q < 16
    ensures AnySet16(v, OneAt(q)) == Bit16(v, q)
    ensures !AnySet16(v, 0)
  {
  }

  lemma HalfShr(v: bv16, s: bv8)
    requires s < 16
    ensures Half(Shr(v, s)) == Shr(v, s + 1)
  {
  }

  /** Shifting a single-bit mask moves its bit down, until it falls off. */
  lemma ShrOne(p: bv8, s: bv8)
    requires p < 16 && s <= 16
    ensures Shr(OneAt(p), s) == if s <= p then OneAt(p - s) else 0
  {
  }

  /** `1 << 16` leaves nothing in 16 bits, and nothing shifted is nothing. */
  lemma ShrNothing(p: bv8, s: bv8)
    requires p == 16 && s <= 16
    ensures Shr(OneAt(p), s) == 0
  {
    assert OneAt(p) == 0;
  }

  // Counts of at most 16 iterations and bit positions meet below: a
  // count is an `int`, a position a byte.

  /** The byte holding a count of at most 16, built by counting up. */
  function Byte(i: nat): (b: bv8)
    requires i <= 16
    ensures b as int == i
  {
    if i == 0 then 0 else Byte(i - 1) + 1
  }

  lemma ByteOrder(j: bv8, b: bv8)
    ensures (j as int < b as int) == (j < b)
    ensures (j as int <= b as int) == (j <= b)
  {
  }

  lemma ByteDown(c: bv8)
    requires c != 0
    ensures (c - 1) as int == c as int - 1
  {
  }

  lemma ByteSum(k: bv8, s: bv8)
    requires k < 16 && s <= 16
    ensures (k + s) as int == k as int + s as int
    ensures (k + s < 16) == (k as int + s as int < 16)
  {
  }

  lemma ByteEq(x: bv8, y: bv8)
    requires x as int == y as int
    ensures x == y
  {
  }

  /** The shift that brings n bits down from the top of a word, as a byte. */
  lemma ShiftOfCount(b: bv8)
    requires b <= 16
    ensures b as int <= 16 && Byte(16 - b as int) == 16 - b
  {
    ByteOrder(b, 16);
    ByteSub(b);
    ByteEq(Byte(16 - b as int), 16 - b);
  }

  lemma ByteSub(b: bv8)
    requires b <= 16
    ensures (16 - b) as int == 16 - b as int
  {
  }

  /** A count up to a bound of at most 16 narrows to a byte in order. */
  lemma Narrow(i: nat, b: bv8)
    requires i <= b as int && b <= 16
    ensures Byte(i) <= b
    ensures i < b as int ==> Byte(i) < b
  {
    ByteOrder(Byte(i), b);
  }

  lemma AnySetLow(v: bv16)
    ensures AnySet16(v, 1) == Bit16(v, 0)
  {
  }

  /** Halving i times is a shift by i. */
  lemma {:induction false} HalvedShr(v: bv16, i: nat)
    requires i <= 16
    ensures Halved(v, i) == Shr(v, Byte(i))
  {
    if i > 0 {
      HalvedShr(v, i - 1);
      Narrow(i - 1, 16);
      HalfShr(v, Byte(i - 1));
    }
  }

  // ---------------------------------------------------------------------
  // What the routines read
  // ---------------------------------------------------------------------

  /** The MSB-first result: each sample shifted in at the bottom. */
  function MsbValue(samples: seq<bool>): bv16
  {
    if samples == [] then 0 else ShiftIn(MsbValue(samples[..|samples| - 1]), samples[|samples| - 1])
  }

  lemma MsbValueStep(samples: seq<bool>, i: nat)
    requires i < |samples|
    ensures MsbValue(samples[..i + 1]) == ShiftIn(MsbValue(samples[..i]), samples[i])
  {
    assert samples[..i + 1][..i] == samples[..i];
  }

  /** The MSB-first result holds the samples in its low |samples| bits, the
      first sample most significant, and nothing above. */
  lemma {:induction false} MsbValueBits(samples: seq<bool>, k: bv8)
    requires |samples| <= 16 && k < 16
    ensures Bit16(MsbValue(samples), k) == (k as int < |samples| && samples[|samples| - 1 - k as int])
  {
    if samples == [] {
      assert (0 as bv16 >> k) & 1 == 0;
    } else {
      var n := |samples|;
      var front := samples[..n - 1];
      ShiftInBit(MsbValue(front), samples[n - 1], k);
      if k != 0 {
        MsbValueBits(front, k - 1);
      }
    }
  }

  /** The LSB-first accumulator: each sample enters at bit 15 and the word
      moves down. */
  function LsbAccum(samples: seq<bool>): bv16
  {
    if samples == [] then 0 else ShiftDown(LsbAccum(samples[..|samples| - 1]), samples[|samples| - 1])
  }

  lemma LsbAccumStep(samples: seq<bool>, i: nat)
    requires i < |samples|
    ensures LsbAccum(samples[..i + 1]) == ShiftDown(LsbAccum(samples[..i]), samples[i])
  {
    assert samples[..i + 1][..i] == samples[..i];
  }

  /** After n samples the accumulator holds them in its top n bits, the
      first sample lowest, and nothing below. */
  lemma {:induction false} LsbAccumBits(samples: seq<bool>, k: bv8)
    requires |samples| <= 16 && k < 16
    ensures Bit16(LsbAccum(samples), k) ==
              (16 - |samples| <= k as int && samples[k as int - (16 - |samples|)])
  {
    if samples == [] {
      assert (0 as bv16 >> k) & 1 == 0;
    } else {
      var n := |samples|;
      var front := samples[..n - 1];
      ShiftDownBit(LsbAccum(front), samples[n - 1], k);
      if k != 15 {
        LsbAccumBits(front, k + 1);
      }
    }
  }

  /** The LSB-first result as its documentation promises it: the
      accumulator moved down by 16 - n bits. */
  function LsbValue(samples: seq<bool>): bv16
    requires |samples| <= 16
  {
    Shr(LsbAccum(samples), Byte(16 - |samples|))
  }

  /** The corrected LSB-first result holds the samples in its low bits, the
      first sample least significant, and nothing above. */
  lemma LsbValueBits(samples: seq<bool>, k: bv8)
    requires |samples| <= 16 && k < 16
    ensures Bit16(LsbValue(samples), k) == (k as int < |samples| && samples[k as int])
  {
    var n := |samples|;
    var s := Byte(16 - n);
    ByteSum(k, s);
    ShrBit(LsbAccum(samples), s, k);
    if k + s < 16 {
      LsbAccumBits(samples, k + s);
    }
  }

  // ---------------------------------------------------------------------
  // What the routines drive
  // ---------------------------------------------------------------------

  /** MOSI levels of the MSB-first loop over n iterations, for the mask it
      starts from: iteration i sends `data & mask` with the mask halved i
      times. */
  function MsbOuts(data: bv16, start: bv16, n: nat): (outs: seq<bool>)
    ensures |outs| == n
  {
    if n == 0 then [] else MsbOuts(data, start, n - 1) + [AnySet16(data, Halved(start, n - 1))]
  }

  lemma {:induction false} MsbOutsAt(data: bv16, start: bv16, n: nat, i: nat)
    requires i < n
    ensures MsbOuts(data, start, n)[i] == AnySet16(data, Halved(start, i))
  {
    if i < n - 1 {
      MsbOutsAt(data, start, n - 1, i);
    }
  }

  /** The mask the MSB-first routine starts from as written: `1 << bits`. */
  function StartMaskAsWritten(bits: bv8): bv16
    requires bits <= 16
  {
    OneAt(bits)
  }

  /** The mask that sends the top bit of the transfer first:
      `1 << (bits - 1)`. */
  function StartMask(bits: bv8): bv16
    requires bits <= 16
  {
    if bits == 0 then 0 else OneAt(bits - 1)
  }

  /** As written, iteration i of a transfer of fewer than 16 bits sends data
      bit bits - i (from bit `bits` down to bit 1, so bit 0 is never sent),
      and a 16-bit transfer sends only zeros. */
  lemma MsbOutsAsWritten(data: bv16, bits: bv8, i: nat)
    requires bits <= 16 && i < bits as int
    ensures MsbOuts(data, StartMaskAsWritten(bits), bits as int)[i] ==
              (bits < 16 && Bit16(data, bits - Byte(i)))
  {
    var mask, j := StartMaskAsWritten(bits), Byte(i);
    MsbOutsAt(data, mask, bits as int, i);
    HalvedShr(mask, i);
    Narrow(i, bits);
    if bits < 16 {
      ShrOne(bits, j);
      AnySetOne(data, bits - j);
    } else {
      ShrNothing(bits, j);
      AnySetOne(data, 0);
    }
  }

  /** With the corrected mask, iteration i sends data bit bits - 1 - i: the
      low `bits` bits of the word, most significant first. */
  lemma MsbOutsSendsWord(data: bv16, bits: bv8, i: nat)
    requires bits <= 16 && i < bits as int
    ensures MsbOuts(data, StartMask(bits), bits as int)[i] == Bit16(data, bits - 1 - Byte(i))
  {
    var top := bits - 1;
    ByteDown(bits);
    MsbOutsAt(data, StartMask(bits), bits as int, i);
    HalvedShr(StartMask(bits), i);
    Narrow(i, top);
    var j := Byte(i);
    ShrOne(top, j);
    AnySetOne(data, top - j);
  }

  /** MOSI levels of the LSB-first loop: iteration i sends bit 0 of the data
      word halved i times. */
  function LsbOuts(data: bv16, n: nat): (outs: seq<bool>)
    ensures |outs| == n
  {
    if n == 0 then [] else LsbOuts(data, n - 1) + [AnySet16(Halved(data, n - 1), 1)]
  }

  /** Iteration i of the LSB-first loop sends data bit i. */
  lemma {:induction false} LsbOutsSendsWord(data: bv16, n: nat, i: nat)
    requires n <= 16 && i < n
    ensures LsbOuts(data, n)[i] == Bit16(data, Byte(i))
  {
    if i < n - 1 {
      LsbOutsSendsWord(data, n - 1, i);
    } else {
      HalvedShr(data, i);
      Narrow(i, 16);
      ShrBit(data, Byte(i), 0);
      AnySetLow(Shr(data, Byte(i)));
    }
  }

  // ---------------------------------------------------------------------
  // Pin activity
  // ---------------------------------------------------------------------

  /** One pinWrite or pinRead call. */
  datatype PinEvent = Write(pin: bv8, level: bool) | Read(pin: bv8)

  /** The calls of one loop iteration that sends `out`: with the trailing
      phase SCK goes active, MISO is read, MOSI is set and SCK goes back;
      with the leading phase MOSI is set, SCK pulses, then MISO is read. */
  function Cycle(trailing: bool, sck: bv8, mosi: bv8, miso: bv8, active: bool, out: bool): (c: seq<PinEvent>)
    ensures |c| == 4
  {
    if trailing then [Write(sck, active), Read(miso), Write(mosi, out), Write(sck, !active)]
    else [Write(mosi, out), Write(sck, active), Write(sck, !active), Read(miso)]
  }

  /** The calls of a whole transfer, one cycle per bit sent. */
  function Clocked(trailing: bool, sck: bv8, mosi: bv8, miso: bv8, active: bool, outs: seq<bool>): seq<PinEvent>
  {
    if outs == [] then []
    else Clocked(trailing, sck, mosi, miso, active, outs[..|outs| - 1]) +
         Cycle(trailing, sck, mosi, miso, active, outs[|outs| - 1])
  }

  lemma ClockedAppend(trailing: bool, sck: bv8, mosi: bv8, miso: bv8, active: bool, outs: seq<bool>, out: bool)
    ensures Clocked(trailing, sck, mosi, miso, active, outs + [out]) ==
            Clocked(trailing, sck, mosi, miso, active, outs) + Cycle(trailing, sck, mosi, miso, active, out)
  {
    assert (outs + [out])[..|outs|] == outs;
  }

  lemma AppendFour(s: seq<PinEvent>, a: PinEvent, b: PinEvent, c: PinEvent, d: PinEvent)
    ensures s + [a] + [b] + [c] + [d] == s + [a, b, c, d]
  {
  }

  lemma SliceOfFront<T>(a: seq<T>, b: seq<T>, k: nat, c: seq<T>)
    requires k + 4 <= |a| && a[k..k + 4] == c
    ensures k + 4 <= |a + b| && (a + b)[k..k + 4] == c
  {
  }

  lemma SliceOfBack<T>(a: seq<T>, b: seq<T>)
    requires |b| == 4
    ensures (a + b)[|a|..|a| + 4] == b
  {
  }

  /** A transfer of n bits makes exactly 4n calls. */
  lemma {:induction false} ClockedLength(trailing: bool, sck: bv8, mosi: bv8, miso: bv8, active: bool, outs: seq<bool>)
    ensures |Clocked(trailing, sck, mosi, miso, active, outs)| == 4 * |outs|
  {
    if outs != [] {
      ClockedLength(trailing, sck, mosi, miso, active, outs[..|outs| - 1]);
    }
  }

  /** Call group i of a transfer is the cycle that sends bit i: a clock
      pulse, one MISO read and one MOSI write. */
  lemma {:induction false} ClockedShape(trailing: bool, sck: bv8, mosi: bv8, miso: bv8, active: bool, outs: seq<bool>, i: nat)
    requires i < |outs|
    ensures var t := Clocked(trailing, sck, mosi, miso, active, outs);
            4 * i + 4 <= |t| && t[4 * i..4 * i + 4] == Cycle(trailing, sck, mosi, miso, active, outs[i])
  {
    var n := |outs|;
    var front := outs[..n - 1];
    var last := outs[n - 1];
    assert front + [last] == outs;
    ClockedAppend(trailing, sck, mosi, miso, active, front, last);
    var a := Clocked(trailing, sck, mosi, miso, active, front);
    var b := Cycle(trailing, sck, mosi, miso, active, last);
    ClockedLength(trailing, sck, mosi, miso, active, front);
    if i < n - 1 {
      ClockedShape(trailing, sck, mosi, miso, active, front, i);
      assert front[i] == outs[i];
      SliceOfFront(a, b, 4 * i, Cycle(trailing, sck, mosi, miso, active, outs[i]));
    } else {
      SliceOfBack(a, b);
    }
  }

  /** The level of the last pinWrite to a pin in a trace, if any. */
  function LastLevel(trace: seq<PinEvent>, pin: bv8): Option<bool>
  {
    if trace == [] then None
    else if trace[|trace| - 1] == Write(pin, true) then Some(true)
    else if trace[|trace| - 1] == Write(pin, false) then Some(false)
    else LastLevel(trace[..|trace| - 1], pin)
  }

  /** Every transfer of at least one bit leaves SCK at the idle level. */
  lemma SckEndsIdle(trailing: bool, sck: bv8, mosi: bv8, miso: bv8, active: bool, outs: seq<bool>)
    requires outs != []
    ensures LastLevel(Clocked(trailing, sck, mosi, miso, active, outs), sck) == Some(!active)
  {
    var t := Clocked(trailing, sck, mosi, miso, active, outs);
    var n := |outs|;
    var front := Clocked(trailing, sck, mosi, miso, active, outs[..n - 1]);
    var c := Cycle(trailing, sck, mosi, miso, active, outs[n - 1]);
    assert t == front + c;
    if !trailing {
      assert t[..|t| - 1] == front + c[..3];
    }
  }

  // ---------------------------------------------------------------------
  // The interface
  // ---------------------------------------------------------------------

  /** The transfer routine installed in the generic SPI interface. */
  datatype Routine = NotInstalled | SoftwareTransfer

  /** SSPI_INTERFACE: options, the three pin numbers and the transfer
      routine of the embedded SPI_INTERFACE. */
  class Interface {
    var transfer: Routine
    var options: bv8
    var miso: bv8
    var mosi: bv8
    var sck: bv8

    constructor (options: bv8, miso: bv8, mosi: bv8, sck: bv8)
      ensures this.options == options && this.miso == miso && this.mosi == mosi && this.sck == sck
      ensures transfer == NotInstalled
    {
      this.options, this.miso, this.mosi, this.sck := options, miso, mosi, sck;
      transfer := NotInstalled;
    }

    /** The calls a transfer that sends `outs` makes with this interface's
        pins and options. */
    function Trace(outs: seq<bool>): seq<PinEvent>
      reads this
    {
      Clocked(Trailing(options), sck, mosi, miso, Active(options), outs)
    }

    /** sspiTransferMSB as written: the mask starts at `1 << bits`. */
    method TransferMsbAsWritten(data: bv16, bits: bv8, samples: seq<bool>) returns (result: bv16, trace: seq<PinEvent>)
      requires bits <= 16 && |samples| == bits as int
      ensures result == MsbValue(samples)
      ensures trace == Trace(MsbOuts(data, StartMaskAsWritten(bits), bits as int))
    {
      var mask := StartMaskAsWritten(bits);
      if Trailing(options) {
        result, trace := MsbTrailing(data, bits as int, samples, mask);
      } else {
        result, trace := MsbLeading(data, bits as int, samples, mask);
      }
    }

    /** sspiTransferMSB with the mask starting at the top bit of the
        transfer. */
    method TransferMSB(data: bv16, bits: bv8, samples: seq<bool>) returns (result: bv16, trace: seq<PinEvent>)
      requires bits <= 16 && |samples| == bits as int
      ensures result == MsbValue(samples)
      ensures trace == Trace(MsbOuts(data, StartMask(bits), bits as int))
    {
      var mask := StartMask(bits);
      if Trailing(options) {
        result, trace := MsbTrailing(data, bits as int, samples, mask);
      } else {
        result, trace := MsbLeading(data, bits as int, samples, mask);
      }
    }

    /** The trailing-phase loop of sspiTransferMSB, from the mask it starts
        with: SCK active, read MISO, write MOSI, SCK idle. */
    method MsbTrailing(data: bv16, n: nat, samples: seq<bool>, start: bv16) returns (result: bv16, trace: seq<PinEvent>)
      requires Trailing(options)
      requires n <= 16 && |samples| == n
      ensures result == MsbValue(samples)
      ensures trace == Trace(MsbOuts(data, start, n))
    {
      result := 0;
      trace := [];
      var mask := start;
      var active := Active(options);
      var count: nat := n;
      var i: nat := 0;  // MISO samples read so far
      while count != 0
        invariant i + count == n
        invariant mask == Halved(start, i)
        invariant result == MsbValue(samples[..i])
        invariant trace == Trace(MsbOuts(data, start, i))
        decreases count
      {
        ClockedAppend(true, sck, mosi, miso, active, MsbOuts(data, start, i), AnySet16(data, mask));
        MsbValueStep(samples, i);
        AppendFour(trace, Write(sck, active), Read(miso), Write(mosi, AnySet16(data, mask)), Write(sck, !active));
        trace := trace + [Write(sck, active)];
        result := ShiftIn(result, samples[i]);
        trace := trace + [Read(miso)];
        trace := trace + [Write(mosi, AnySet16(data, mask))];
        trace := trace + [Write(sck, !active)];
        count := count - 1;
        mask := Half(mask);
        i := i + 1;
      }
      assert samples[..i] == samples;
    }

    /** The leading-phase loop of sspiTransferMSB: write MOSI, SCK active,
        SCK idle, read MISO. */
    method MsbLeading(data: bv16, n: nat, samples: seq<bool>, start: bv16) returns (result: bv16, trace: seq<PinEvent>)
      requires !Trailing(options)
      requires n <= 16 && |samples| == n
      ensures result == MsbValue(samples)
      ensures trace == Trace(MsbOuts(data, start, n))
    {
      result := 0;
      trace := [];
      var mask := start;
      var active := Active(options);
      var count: nat := n;
      var i: nat := 0;  // MISO samples read so far
      while count != 0
        invariant i + count == n
        invariant mask == Halved(start, i)
        invariant result == MsbValue(samples[..i])
        invariant trace == Trace(MsbOuts(data, start, i))
        decreases count
      {
        ClockedAppend(false, sck, mosi, miso, active, MsbOuts(data, start, i), AnySet16(data, mask));
        MsbValueStep(samples, i);
        AppendFour(trace, Write(mosi, AnySet16(data, mask)), Write(sck, active), Write(sck, !active), Read(miso));
        trace := trace + [Write(mosi, AnySet16(data, mask))];
        trace := trace + [Write(sck, active)];
        trace := trace + [Write(sck, !active)];
        result := ShiftIn(result, samples[i]);
        trace := trace + [Read(miso)];
        count := count - 1;
        mask := Half(mask);
        i := i + 1;
      }
      assert samples[..i] == samples;
    }

    /** The trailing-phase loop of sspiTransferLSB: the accumulated word and
        the count left, which is 0. */
    method LsbTrailing(data: bv16, n: nat, samples: seq<bool>) returns (accum: bv16, count: nat, trace: seq<PinEvent>)
      requires Trailing(options)
      requires n <= 16 && |samples| == n
      ensures accum == LsbAccum(samples) && count == 0
      ensures trace == Trace(LsbOuts(data, n))
    {
      accum := 0;
      trace := [];
      var word := data;
      var active := Active(options);
      count := n;
      var i: nat := 0;  // MISO samples read so far
      while count != 0
        invariant i + count == n
        invariant word == Halved(data, i)
        invariant accum == LsbAccum(samples[..i])
        invariant trace == Trace(LsbOuts(data, i))
        decreases count
      {
        ClockedAppend(true, sck, mosi, miso, active, LsbOuts(data, i), AnySet16(word, 1));
        LsbAccumStep(samples, i);
        AppendFour(trace, Write(sck, active), Read(miso), Write(mosi, AnySet16(word, 1)), Write(sck, !active));
        trace := trace + [Write(sck, active)];
        accum := ShiftDown(accum, samples[i]);
        trace := trace + [Read(miso)];
        trace := trace + [Write(mosi, AnySet16(word, 1))];
        trace := trace + [Write(sck, !active)];
        count := count - 1;
        word := Half(word);
        i := i + 1;
      }
      assert samples[..i] == samples;
    }

    /** The leading-phase loop of sspiTransferLSB. */
    method LsbLeading(data: bv16, n: nat, samples: seq<bool>) returns (accum: bv16, count: nat, trace: seq<PinEvent>)
      requires !Trailing(options)
      requires n <= 16 && |samples| == n
      ensures accum == LsbAccum(samples) && count == 0
      ensures trace == Trace(LsbOuts(data, n))
    {
      accum := 0;
      trace := [];
      var word := data;
      var active := Active(options);
      count := n;
      var i: nat := 0;  // MISO samples read so far
      while count != 0
        invariant i + count == n
        invariant word == Halved(data, i)
        invariant accum == LsbAccum(samples[..i])
        invariant trace == Trace(LsbOuts(data, i))
        decreases count
      {
        ClockedAppend(false, sck, mosi, miso, active, LsbOuts(data, i), AnySet16(word, 1));
        LsbAccumStep(samples, i);
        AppendFour(trace, Write(mosi, AnySet16(word, 1)), Write(sck, active), Write(sck, !active), Read(miso));
        trace := trace + [Write(mosi, AnySet16(word, 1))];
        trace := trace + [Write(sck, active)];
        trace := trace + [Write(sck, !active)];
        accum := ShiftDown(accum, samples[i]);
        trace := trace + [Read(miso)];
        count := count - 1;
        word := Half(word);
        i := i + 1;
      }
      assert samples[..i] == samples;
    }

    /** sspiTransferLSB as written: the final shift uses the loop counter,
        which is 0 by then, so the word is shifted by its full width and the
        result is always 0. (A shift of a 16-bit int by 16 is undefined in C;
        it is taken here as the shift the code evidently performs.) */
    method TransferLsbAsWritten(data: bv16, bits: bv8, samples: seq<bool>) returns (result: bv16, trace: seq<PinEvent>)
      requires bits <= 16 && |samples| == bits as int
      ensures result == 0
      ensures trace == Trace(LsbOuts(data, bits as int))
    {
      var count;
      if Trailing(options) {
        result, count, trace := LsbTrailing(data, bits as int, samples);
      } else {
        result, count, trace := LsbLeading(data, bits as int, samples);
      }
      result := Shr(result, Byte(16 - count));
    }

    /** sspiTransferLSB with the final shift by 16 minus the number of bits
        transferred. */
    method TransferLSB(data: bv16, bits: bv8, samples: seq<bool>) returns (result: bv16, trace: seq<PinEvent>)
      requires bits <= 16 && |samples| == bits as int
      ensures result == LsbValue(samples)
      ensures trace == Trace(LsbOuts(data, bits as int))
    {
      var count;
      if Trailing(options) {
        result, count, trace := LsbTrailing(data, bits as int, samples);
      } else {
        result, count, trace := LsbLeading(data, bits as int, samples);
      }
      ShiftOfCount(bits);
      result := Shr(result, 16 - bits);
    }

    /** sspiTransfer: the LSB-first routine when the option asks for it,
        the MSB-first one otherwise, both as the firmware has them. */
    method Transfer(output: bv16, bits: bv8, samples: seq<bool>) returns (result: bv16, trace: seq<PinEvent>)
      requires bits <= 16 && |samples| == bits as int
      ensures LsbFirst(options) ==> result == 0 && trace == Trace(LsbOuts(output, bits as int))
      ensures !LsbFirst(options) ==> result == MsbValue(samples) && trace == Trace(MsbOuts(output, StartMaskAsWritten(bits), bits as int))
    {
      if options & LSB_FIRST != 0 {
        result, trace := TransferLsbAsWritten(output, bits, samples);
      } else {
        result, trace := TransferMsbAsWritten(output, bits, samples);
      }
    }

    /** sspiTransfer dispatching to the corrected routines: every data bit
        is sent and the received word is kept. */
    method TransferIntended(output: bv16, bits: bv8, samples: seq<bool>) returns (result: bv16, trace: seq<PinEvent>)
      requires bits <= 16 && |samples| == bits as int
      ensures LsbFirst(options) ==> result == LsbValue(samples) && trace == Trace(LsbOuts(output, bits as int))
      ensures !LsbFirst(options) ==> result == MsbValue(samples) && trace == Trace(MsbOuts(output, StartMask(bits), bits as int))
    {
      if options & LSB_FIRST != 0 {
        result, trace := TransferLSB(output, bits, samples);
      } else {
        result, trace := TransferMSB(output, bits, samples);
      }
    }

    /** sspiInit as written: the three pins are looked up as the firmware
        does (Avr.Lookup) and configured whatever happens; on success SCK is
        driven to `!(options & SPI_POLARITY_HIGH)`, which is the level the
        transfers use for an active clock, and the software routine is
        installed. */
    method InitAsWritten(avr: Avr) returns (ok: bool)
      modifies this, avr
      ensures ok == Usable(avr.Lookup(old(sck)), avr.Lookup(old(mosi)), avr.Lookup(old(miso)))
      ensures var configured := ConfigureSpiPins(old(avr.Regs()), avr.Lookup(sck), avr.Lookup(mosi), avr.Lookup(miso));
              && (ok ==> avr.Regs() == Drive(configured, avr.Lookup(sck), Active(options)))
              && (!ok ==> avr.Regs() == configured)
      ensures transfer == if ok then SoftwareTransfer else old(transfer)
      ensures options == old(options) && miso == old(miso) && mosi == old(mosi) && sck == old(sck)
    {
      ghost var start, sckDef, mosiDef, misoDef := avr.Regs(), avr.Lookup(sck), avr.Lookup(mosi), avr.Lookup(miso);
      var result := avr.PinConfig(sck, Output);
      var next := avr.PinConfig(mosi, Output);
      result := result && next;
      next := avr.PinConfig(miso, Input);
      result := result && next;
      assert avr.Regs() == ConfigureSpiPins(start, sckDef, mosiDef, misoDef);
      if !result {
        return false;
      }
      avr.PinWrite(sck, options & POLARITY_HIGH == 0);
      transfer := SoftwareTransfer;
      return true;
    }

    /** sspiInit with both defects corrected: the pins are looked up by their
        DIP-14 numbers and SCK is brought to its base level, the level every
        transfer leaves it at. */
    method Init(avr: Avr) returns (ok: bool)
      modifies this, avr
      ensures ok == Usable(PinDefinition(old(sck)), PinDefinition(old(mosi)), PinDefinition(old(miso)))
      ensures var configured := ConfigureSpiPins(old(avr.Regs()), PinDefinition(sck), PinDefinition(mosi), PinDefinition(miso));
              && (ok ==> avr.Regs() == Drive(configured, PinDefinition(sck), !Active(options)))
              && (!ok ==> avr.Regs() == configured)
      ensures transfer == if ok then SoftwareTransfer else old(transfer)
      ensures options == old(options) && miso == old(miso) && mosi == old(mosi) && sck == old(sck)
    {
      ghost var start, sckDef, mosiDef, misoDef := avr.Regs(), PinDefinition(sck), PinDefinition(mosi), PinDefinition(miso);
      var result := avr.PinConfigIntended(sck, Output);
      var next := avr.PinConfigIntended(mosi, Output);
      result := result && next;
      next := avr.PinConfigIntended(miso, Input);
      result := result && next;
      assert avr.Regs() == ConfigureSpiPins(start, sckDef, mosiDef, misoDef);
      if !result {
        return false;
      }
      avr.PinWriteIntended(sck, options & POLARITY_HIGH != 0);
      transfer := SoftwareTransfer;
      return true;
    }
  }

  /** The registers after the three pinConfig calls of sspiInit, given the
      definitions the SCK, MOSI and MISO pins were looked up to. */
  function ConfigureSpiPins(r: Registers, sckDef: bv8, mosiDef: bv8, misoDef: bv8): Registers
  {
    Configure(Configure(Configure(r, sckDef, Output), mosiDef, Output), misoDef, Input)
  }

  /** Whether all three looked-up pins are usable. */
  predicate Usable(sckDef: bv8, mosiDef: bv8, misoDef: bv8)
  {
    sckDef != 0 && mosiDef != 0 && misoDef != 0
  }

  // ---------------------------------------------------------------------
  // The defects, on concrete inputs
  // ---------------------------------------------------------------------

  /** Sending 0x0001 in an 8-bit MSB-first transfer: as written no MOSI
      level is ever high, because data bit 0 is never sent; with the
      corrected mask the last level is high. */
  lemma MsbMaskOffByOne()
    ensures forall i: nat :: i < 8 ==> !MsbOuts(0x0001, StartMaskAsWritten(8), 8)[i]
    ensures MsbOuts(0x0001, StartMask(8), 8)[7]
  {
    forall i: nat | i < 8
      ensures !MsbOuts(0x0001, StartMaskAsWritten(8), 8)[i]
    {
      MsbOutsAsWritten(0x0001, 8, i);
    }
    MsbOutsSendsWord(0x0001, 8, 7);
  }

  /** Whenever any MISO sample of an LSB-first transfer is high the
      documented result is non-zero, while the routine as written returns
      0. */
  lemma LsbShiftLosesData(samples: seq<bool>, j: nat)
    requires |samples| <= 16 && j < |samples| && samples[j]
    ensures LsbValue(samples) != 0
  {
    Narrow(j, 16);
    LsbValueBits(samples, Byte(j));
    assert (0 as bv16 >> Byte(j)) & 1 == 0;
  }

  /** As written, sspiInit leaves SCK at the active level, so for a
      polarity-low interface the clock idles high until the first transfer
      ends; the corrected Init leaves it where SckEndsIdle says transfers
      leave it. */
  lemma InitClockLevel(r: Registers, def: bv8, options: bv8)
    requires def != 0 && GetPin(def) < 8
    ensures Level(Drive(r, def, Active(options)), def) == Active(options)
    ensures Level(Drive(r, def, !Active(options)), def) == !Active(options)
  {
    DriveThenLevel(r, def, Active(options), def);
    DriveThenLevel(r, def, !Active(options), def);
  }
}
