/** STM32F4 GPIO: port addressing, per-pin configuration fields, multi-bit
    fields written through the bit set/reset register, and pins with a
    polarity. A port's registers are a map from byte offset to word. */
module GpioF4 {
  import opened Bits

  /** base of port A on the AHB1 bus (stm32.h, not part of this model, holds it) */
  const GPIOBASE: nat := 0x4002_0000

  /** register offsets within a port */
  const MODER: nat := 0x00
  const OTYPER: nat := 0x04
  const OSPEEDR: nat := 0x08
  const PUPDR: nat := 0x0C
  const IDR: nat := 0x10
  const ODR: nat := 0x14
  const BSRR: nat := 0x18
  const AFRL: nat := 0x20
  const AFRH: nat := 0x24

  /** address of the port in slot `ais0` (port A is slot 0) */
  function GpioBase(ais0: nat): (r: nat)
    ensures r >= GPIOBASE && (r - GPIOBASE) % 0x400 == 0
    ensures (r - GPIOBASE) / 0x400 == ais0
  {
    GPIOBASE + 0x400 * ais0
  }

  /** ports lie 1 KiB apart, so the register blocks of two ports do not overlap */
  lemma PortBlocksDisjoint(a: nat, b: nat, offA: nat, offB: nat)
    requires a != b && offA < 0x400 && offB < 0x400
    ensures GpioBase(a) + offA != GpioBase(b) + offB
  {
  }

  // ---- pin options -------------------------------------------------------

  datatype Dir = Input | Output | Function | Analog
  datatype Slew = Slow | Medium | Fast | Fastest
  /** floating, pull down, pull up, open drain (with pull up) */
  datatype Puller = F | D | U | O

  /** the enumerator's value, which is the 2-bit mode code */
  function DirCode(d: Dir): nat
  {
    match d
    case Input => 0
    case Output => 1
    case Function => 2
    case Analog => 3
  }

  /** the enumerator's value, which is the 2-bit speed code */
  function SlewCode(s: Slew): nat
  {
    match s
    case Slow => 0
    case Medium => 1
    case Fast => 2
    case Fastest => 3
  }

  /** position of the puller in its enumeration */
  function PullerOrdinal(p: Puller): nat
  {
    match p
    case F => 0
    case D => 1
    case U => 2
    case O => 3
  }

  /** `altcode` is an `unsigned` */
  datatype PinOptions = PinOptions(dir: Dir, slew: Slew, udfo: Puller, altcode: nat)

  /** the constructor's defaults: slow, floating, alternate function 0 */
  function Options(dir: Dir, slew: Slew := Slow, udfo: Puller := F, altcode: nat := 0): (o: PinOptions)
    ensures o.dir == dir && o.slew == slew && o.udfo == udfo && o.altcode == altcode
  {
    PinOptions(dir, slew, udfo, altcode)
  }

  function InputOptions(udfo: Puller := F): (o: PinOptions)
    ensures o.dir == Input && o.slew == Slow && o.udfo == udfo && o.altcode == 0
  {
    Options(Input, Slow, udfo)
  }

  function OutputOptions(slew: Slew := Slow, udfo: Puller := F): (o: PinOptions)
    ensures o.dir == Output && o.slew == slew && o.udfo == udfo && o.altcode == 0
  {
    Options(Output, slew, udfo)
  }

  function FunctionOptions(altcode: nat, slew: Slew := Slow, udfo: Puller := F): (o: PinOptions)
    ensures o.dir == Function && o.slew == slew && o.udfo == udfo && o.altcode == altcode
  {
    Options(Function, slew, udfo, altcode)
  }

  /** the 2-bit pull code: pullers from U on pull up (1), the others are
      shifted up one place, so floating is 0 and pull down 2 */
  function PullCode(p: Puller): (r: nat)
    ensures r == match p case F => 0 case D => 2 case U => 1 case O => 1
  {
    if PullerOrdinal(p) >= PullerOrdinal(U) then 1 else PullerOrdinal(p) * 2
  }

  /** every code fits the 2-bit field it is written to */
  lemma CodesFit(c: PinOptions)
    ensures DirCode(c.dir) < 4 && SlewCode(c.slew) < 4 && PullCode(c.udfo) < 4
    ensures Fits(WordOf(DirCode(c.dir)), 2) && Fits(WordOf(SlewCode(c.slew)), 2) && Fits(WordOf(PullCode(c.udfo)), 2)
  {
    WordOfFits(DirCode(c.dir), 2);
    WordOfFits(SlewCode(c.slew), 2);
    WordOfFits(PullCode(c.udfo), 2);
  }

  /** alternate-function register of a pin: AFRL for pins 0-7, AFRH for 8-15 */
  function AfrOffset(bitnum: nat): (r: nat)
    requires bitnum < 16
    ensures r == if bitnum < 8 then AFRL else AFRH
  {
    if bitnum > 7 then AFRH else AFRL
  }

  /** bit position of a pin's alternate-function nibble: `(bitnum & 7) * 4` */
  function AfrShift(bitnum: nat): nat
    requires bitnum < 16
  {
    (bitnum % 8) * 4
  }

  /** two pins sharing an alternate-function register use disjoint nibbles of it */
  lemma AfrNibblesDisjoint(bitnum: nat, other: nat)
    requires bitnum < 16 && other < 16 && other != bitnum
    requires AfrOffset(bitnum) == AfrOffset(other)
    ensures AfrShift(bitnum) + 4 <= AfrShift(other) || AfrShift(other) + 4 <= AfrShift(bitnum)
    ensures AfrShift(bitnum) + 4 <= 32
  {
  }

  // ---- per-pin configuration --------------------------------------------

  /** the five settings of one pin, as the configuration registers hold them */
  datatype PinSettings = PinSettings(mode: Word, openDrain: bool, speed: Word, pull: Word, alternate: Word)

  /** the register offsets a port must have */
  const Offsets: set<nat> := {MODER, OTYPER, OSPEEDR, PUPDR, IDR, ODR, AFRL, AFRH}

  /** what the registers say about pin `bitnum` */
  function Settings(reg: map<nat, Word>, bitnum: nat): PinSettings
    requires Offsets <= reg.Keys && bitnum < 16
  {
    PinSettings(FieldOf(reg[MODER], 2 * bitnum, 2), reg[OTYPER][bitnum],
                FieldOf(reg[OSPEEDR], 2 * bitnum, 2), FieldOf(reg[PUPDR], 2 * bitnum, 2),
                FieldOf(reg[AfrOffset(bitnum)], AfrShift(bitnum), 4))
  }

  /** the settings a pin configured with `c` should end up with; the
      alternate function is a nibble, so only its low 4 bits are kept */
  function Encoding(c: PinOptions): PinSettings
  {
    PinSettings(WordOf(DirCode(c.dir)), c.udfo == O, WordOf(SlewCode(c.slew)), WordOf(PullCode(c.udfo)),
                And(WordOf(c.altcode), LowMask(4)))
  }

  /** the five register writes of configuring pin `bitnum`, given the values:
      2-bit mode, open-drain bit, 2-bit speed, 2-bit pull, alternate-function
      nibble, each merged into its own register */
  function Written(reg: map<nat, Word>, bitnum: nat, mode: Word, openDrain: bool, speed: Word, pull: Word, alternate: Word): (r: map<nat, Word>)
    requires Offsets <= reg.Keys && bitnum < 16
    ensures r.Keys == reg.Keys && r[IDR] == reg[IDR] && r[ODR] == reg[ODR]
  {
    var afr := AfrOffset(bitnum);
    reg[MODER := Merge(reg[MODER], mode, 2 * bitnum, 2)]
       [OTYPER := WriteBit(reg[OTYPER], bitnum, openDrain)]
       [OSPEEDR := Merge(reg[OSPEEDR], speed, 2 * bitnum, 2)]
       [PUPDR := Merge(reg[PUPDR], pull, 2 * bitnum, 2)]
       [afr := Merge(reg[afr], alternate, AfrShift(bitnum), 4)]
  }

  /** the registers after configuring pin `bitnum` with `c` */
  function Configured(reg: map<nat, Word>, bitnum: nat, c: PinOptions): map<nat, Word>
    requires Offsets <= reg.Keys && bitnum < 16
  {
    Written(reg, bitnum, WordOf(DirCode(c.dir)), c.udfo == O, WordOf(SlewCode(c.slew)), WordOf(PullCode(c.udfo)), WordOf(c.altcode))
  }

  /** each write lands in its field: the fields read back as the values cut
      to their widths */
  lemma WrittenSetsPin(reg: map<nat, Word>, bitnum: nat, mode: Word, openDrain: bool, speed: Word, pull: Word, alternate: Word)
    requires Offsets <= reg.Keys && bitnum < 16
    ensures Settings(Written(reg, bitnum, mode, openDrain, speed, pull, alternate), bitnum)
         == PinSettings(And(mode, LowMask(2)), openDrain, And(speed, LowMask(2)), And(pull, LowMask(2)), And(alternate, LowMask(4)))
  {
    var r := Written(reg, bitnum, mode, openDrain, speed, pull, alternate);
    var afr := AfrOffset(bitnum);
    assert r[MODER] == Merge(reg[MODER], mode, 2 * bitnum, 2);
    MergeReadBack(reg[MODER], mode, 2 * bitnum, 2);
    assert r[OTYPER] == WriteBit(reg[OTYPER], bitnum, openDrain);
    WriteBitEffect(reg[OTYPER], bitnum, openDrain);
    assert r[OSPEEDR] == Merge(reg[OSPEEDR], speed, 2 * bitnum, 2);
    MergeReadBack(reg[OSPEEDR], speed, 2 * bitnum, 2);
    assert r[PUPDR] == Merge(reg[PUPDR], pull, 2 * bitnum, 2);
    MergeReadBack(reg[PUPDR], pull, 2 * bitnum, 2);
    assert r[afr] == Merge(reg[afr], alternate, AfrShift(bitnum), 4);
    MergeReadBack(reg[afr], alternate, AfrShift(bitnum), 4);
  }

  /** the writes for one pin leave every setting of every other pin as it was */
  lemma WrittenKeepsOtherPins(reg: map<nat, Word>, bitnum: nat, mode: Word, openDrain: bool, speed: Word, pull: Word, alternate: Word, other: nat)
    requires Offsets <= reg.Keys && bitnum < 16 && other < 16 && other != bitnum
    ensures Settings(Written(reg, bitnum, mode, openDrain, speed, pull, alternate), other) == Settings(reg, other)
  {
    var r := Written(reg, bitnum, mode, openDrain, speed, pull, alternate);
    assert r[MODER] == Merge(reg[MODER], mode, 2 * bitnum, 2);
    MergeLeavesField(reg[MODER], mode, 2 * bitnum, 2, 2 * other, 2);
    assert r[OTYPER] == WriteBit(reg[OTYPER], bitnum, openDrain);
    WriteBitEffect(reg[OTYPER], bitnum, openDrain);
    assert r[OSPEEDR] == Merge(reg[OSPEEDR], speed, 2 * bitnum, 2);
    MergeLeavesField(reg[OSPEEDR], speed, 2 * bitnum, 2, 2 * other, 2);
    assert r[PUPDR] == Merge(reg[PUPDR], pull, 2 * bitnum, 2);
    MergeLeavesField(reg[PUPDR], pull, 2 * bitnum, 2, 2 * other, 2);
    if AfrOffset(bitnum) == AfrOffset(other) {
      AfrNibblesDisjoint(bitnum, other);
      var afr := AfrOffset(bitnum);
      assert r[afr] == Merge(reg[afr], alternate, AfrShift(bitnum), 4);
      MergeLeavesField(reg[afr], alternate, AfrShift(bitnum), 4, AfrShift(other), 4);
    }
  }

  /** configuring a pin gives it exactly the encoded settings: mode, speed
      and pull codes as they are, open drain exactly for puller O, and the
      low nibble of the alternate function */
  lemma ConfigureSetsPin(reg: map<nat, Word>, bitnum: nat, c: PinOptions)
    requires Offsets <= reg.Keys && bitnum < 16
    ensures Settings(Configured(reg, bitnum, c), bitnum) == Encoding(c)
  {
    WrittenSetsPin(reg, bitnum, WordOf(DirCode(c.dir)), c.udfo == O, WordOf(SlewCode(c.slew)), WordOf(PullCode(c.udfo)), WordOf(c.altcode));
    CodesFit(c);
    CutFitting(WordOf(DirCode(c.dir)), 2);
    CutFitting(WordOf(SlewCode(c.slew)), 2);
    CutFitting(WordOf(PullCode(c.udfo)), 2);
  }

  /** configuring one pin leaves the settings of every other pin of the port as they were */
  lemma ConfigureKeepsOtherPins(reg: map<nat, Word>, bitnum: nat, c: PinOptions, other: nat)
    requires Offsets <= reg.Keys && bitnum < 16 && other < 16 && other != bitnum
    ensures Settings(Configured(reg, bitnum, c), other) == Settings(reg, other)
  {
    WrittenKeepsOtherPins(reg, bitnum, WordOf(DirCode(c.dir)), c.udfo == O, WordOf(SlewCode(c.slew)), WordOf(PullCode(c.udfo)), WordOf(c.altcode), other);
  }

  // ---- fields ------------------------------------------------------------

  /** a contiguous group of bits lsb..msb of one port */
  datatype Field = Field(lsb: nat, msb: nat) {
    ghost predicate Valid() { lsb <= msb < 16 }

    function Width(): nat
      requires Valid()
    {
      msb - lsb + 1
    }

    /** fieldMask of the bits, repeated in the reset half */
    function Mask(): Word
      requires Valid()
    {
      Or(FieldMask(msb, lsb), Shl(FieldMask(msb, lsb), 16))
    }
  }

  /** the mask holds the field's bits in the low half and again 16 places up */
  lemma MaskBits(f: Field)
    requires f.Valid()
    ensures forall i :: 0 <= i < 32 ==> f.Mask()[i] == (f.lsb <= i <= f.msb || f.lsb + 16 <= i <= f.msb + 16)
  {
    FieldMaskBits(f.msb, f.lsb);
  }

  /** the bit set/reset word for writing `value` into the field:
      `mask & (((~value << 16) | value) << lsb)` */
  function BsrrWord(f: Field, value: Word): (r: Word)
    requires f.Valid()
    ensures forall i :: 0 <= i < 32 && !f.Mask()[i] ==> !r[i]
  {
    And(f.Mask(), Shl(Or(Shl(Not(value), 16), value), f.lsb))
  }

  /** for a value that fits the field, bit lsb+i of the word is set exactly
      when value bit i is 1, bit 16+lsb+i exactly when value bit i is 0, and
      no bit outside the field's two halves is set */
  lemma BsrrWordBits(f: Field, value: Word)
    requires f.Valid() && Fits(value, f.Width())
    ensures forall i :: 0 <= i < f.Width() ==> BsrrWord(f, value)[f.lsb + i] == value[i]
    ensures forall i :: 0 <= i < f.Width() ==> BsrrWord(f, value)[f.lsb + 16 + i] == !value[i]
    ensures forall i :: 0 <= i < 32 && !f.Mask()[i] ==> !BsrrWord(f, value)[i]
  {
    MaskBits(f);
  }

  /** for a value that fits, no pin is both set and reset */
  lemma BsrrNeverSetsAndResets(f: Field, value: Word)
    requires f.Valid() && Fits(value, f.Width())
    ensures forall i :: 0 <= i < 16 ==> !(BsrrWord(f, value)[i] && BsrrWord(f, value)[i + 16])
  {
    MaskBits(f);
  }

  /** what the hardware does with a bit set/reset word: the 16 output bits
      with the pins of the upper half reset, then those of the lower half
      set (set wins) */
  function ApplyBsrr(odr: Word, bsrr: Word): Word
  {
    And(Or(And(odr, Not(Shr(bsrr, 16))), And(bsrr, LowMask(16))), LowMask(16))
  }

  /** the field's value in a data register read as 16 bits: `(data & mask) >> lsb` */
  function FieldValue(data: Word, f: Field): Word
    requires f.Valid()
  {
    Shr(And(And(data, LowMask(16)), f.Mask()), f.lsb)
  }

  /** the field's value has no bit above the field's width */
  lemma FieldValueFits(data: Word, f: Field)
    requires f.Valid()
    ensures Fits(FieldValue(data, f), f.Width())
  {
    MaskBits(f);
  }

  /** writing a value and reading the field back gives the value cut to the
      field's width, and every output bit outside the field keeps its level */
  lemma FieldRoundTrip(odr: Word, f: Field, value: Word)
    requires f.Valid()
    ensures FieldValue(ApplyBsrr(odr, BsrrWord(f, value)), f) == And(value, LowMask(f.Width()))
    ensures forall i :: 0 <= i < 16 && !(f.lsb <= i <= f.msb) ==> ApplyBsrr(odr, BsrrWord(f, value))[i] == odr[i]
  {
    MaskBits(f);
  }

  // ---- the bits Field::configure visits -----------------------------------

  /** every number in the list is a pin of the port */
  predicate AllPins(bits: seq<nat>)
  {
    forall i :: 0 <= i < |bits| ==> bits[i] < 16
  }

  /** the bit numbers lo, lo+1, ..., hi-1 */
  function Range(lo: nat, hi: nat): (s: seq<nat>)
    ensures forall i :: 0 <= i < |s| ==> lo <= s[i] < hi
    ensures hi <= 16 ==> AllPins(s)
    decreases hi - lo
  {
    if lo >= hi then [] else [lo] + Range(lo + 1, hi)
  }

  /** the range holds hi - lo numbers, counting up from lo */
  lemma {:induction false} RangeIndex(lo: nat, hi: nat)
    requires lo <= hi
    ensures |Range(lo, hi)| == hi - lo
    ensures forall i :: 0 <= i < hi - lo ==> Range(lo, hi)[i] == lo + i
    decreases hi - lo
  {
    if lo < hi {
      RangeIndex(lo + 1, hi);
    }
  }

  /** the range grows at its top end */
  lemma {:induction false} RangeSnoc(lo: nat, hi: nat)
    requires lo <= hi
    ensures Range(lo, hi + 1) == Range(lo, hi) + [hi]
    decreases hi - lo
  {
    if lo < hi {
      RangeSnoc(lo + 1, hi);
    }
  }

  /** the bits of the field, lsb through msb: what the configure loop is meant to visit */
  function FieldBits(f: Field): (s: seq<nat>)
    requires f.Valid()
    ensures |s| == f.Width()
    ensures forall i :: 0 <= i < |s| ==> s[i] == f.lsb + i
  {
    RangeIndex(f.lsb, f.msb + 1);
    Range(f.lsb, f.msb + 1)
  }

  /** the bits the configure loop visits, as written: from `abit` upward
      while the mask bit is set. The shift `1u << 32` the loop would
      evaluate next is undefined in C++; the walk stops there. */
  function MaskWalk(mask: Word, abit: nat): (s: seq<nat>)
    requires abit <= 32
    ensures abit + |s| <= 32
    ensures forall i :: 0 <= i < |s| ==> s[i] == abit + i && mask[s[i]]
    ensures abit + |s| == 32 || !mask[abit + |s|]
    decreases 32 - abit
  {
    if abit == 32 || !mask[abit] then [] else [abit] + MaskWalk(mask, abit + 1)
  }

  /** a walk over a mask that is all ones visits every bit up to 31 */
  lemma {:induction false} WalkAllOnes(mask: Word, abit: nat)
    requires abit <= 32 && forall i :: 0 <= i < 32 ==> mask[i]
    ensures MaskWalk(mask, abit) == Range(abit, 32)
    decreases 32 - abit
  {
    if abit < 32 {
      WalkAllOnes(mask, abit + 1);
    }
  }

  /** for a field narrower than the port, the walk visits exactly the field's bits */
  lemma WalkVisitsField(f: Field)
    requires f.Valid() && f.Width() < 16
    ensures MaskWalk(f.Mask(), f.lsb) == FieldBits(f)
  {
    MaskBits(f);
    WalkFrom(f, f.lsb);
  }

  lemma {:induction false} WalkFrom(f: Field, abit: nat)
    requires f.Valid() && f.Width() < 16 && f.lsb <= abit <= f.msb + 1
    requires forall i :: 0 <= i < 32 ==> f.Mask()[i] == (f.lsb <= i <= f.msb || f.lsb + 16 <= i <= f.msb + 16)
    ensures MaskWalk(f.Mask(), abit) == Range(abit, f.msb + 1)
    decreases f.msb + 1 - abit
  {
    if abit <= f.msb {
      WalkFrom(f, abit + 1);
    }
  }

  /** as written, the loop over the full 16-bit field (lsb 0, msb 15) does not
      stop at bit 15: the mask's reset half continues the run of ones, so it
      also visits bits 16 through 31, which are not pins */
  lemma FullFieldWalkOverruns()
    ensures Field(0, 15).Valid()
    ensures MaskWalk(Field(0, 15).Mask(), 0) == Range(0, 32)
    ensures |MaskWalk(Field(0, 15).Mask(), 0)| == 32 && |FieldBits(Field(0, 15))| == 16
  {
    MaskBits(Field(0, 15));
    WalkAllOnes(Field(0, 15).Mask(), 0);
    RangeIndex(0, 32);
  }

  /** the registers after configuring each pin of `bits` in turn */
  function ConfiguredAll(reg: map<nat, Word>, bits: seq<nat>, c: PinOptions): (r: map<nat, Word>)
    requires Offsets <= reg.Keys && AllPins(bits)
    ensures r.Keys == reg.Keys
    ensures r[IDR] == reg[IDR] && r[ODR] == reg[ODR]
    decreases |bits|
  {
    if |bits| == 0 then reg
    else Configured(ConfiguredAll(reg, bits[..|bits| - 1], c), bits[|bits| - 1], c)
  }

  /** configuring a list and then one pin more is configuring the longer list */
  lemma ConfiguredAllSnoc(reg: map<nat, Word>, bits: seq<nat>, x: nat, c: PinOptions)
    requires Offsets <= reg.Keys && AllPins(bits) && x < 16
    ensures AllPins(bits + [x])
    ensures ConfiguredAll(reg, bits + [x], c) == Configured(ConfiguredAll(reg, bits, c), x, c)
  {
    assert (bits + [x])[..|bits|] == bits;
  }

  /** configuring every pin of a list of distinct pins gives each of them the
      encoded settings and leaves every pin not in the list as it was */
  lemma {:induction false} ConfiguredAllSettings(reg: map<nat, Word>, bits: seq<nat>, c: PinOptions, k: nat)
    requires Offsets <= reg.Keys && AllPins(bits)
    requires forall i, j :: 0 <= i < j < |bits| ==> bits[i] != bits[j]
    requires k < 16
    ensures k in bits ==> Settings(ConfiguredAll(reg, bits, c), k) == Encoding(c)
    ensures k !in bits ==> Settings(ConfiguredAll(reg, bits, c), k) == Settings(reg, k)
    decreases |bits|
  {
    if |bits| > 0 {
      var last := bits[|bits| - 1];
      var front := bits[..|bits| - 1];
      assert bits == front + [last];
      ConfiguredAllSettings(reg, front, c, k);
      var before := ConfiguredAll(reg, front, c);
      if k == last {
        ConfigureSetsPin(before, last, c);
      } else {
        ConfigureKeepsOtherPins(before, last, c, k);
      }
    }
  }

  /** configuring a field gives every pin lsb..msb the encoded settings and
      leaves every other pin of the port as it was */
  lemma FieldConfigureEffect(reg: map<nat, Word>, f: Field, c: PinOptions, k: nat)
    requires Offsets <= reg.Keys && f.Valid() && k < 16
    ensures Settings(ConfiguredAll(reg, FieldBits(f), c), k)
         == if f.lsb <= k <= f.msb then Encoding(c) else Settings(reg, k)
  {
    var bits := FieldBits(f);
    ConfiguredAllSettings(reg, bits, c, k);
    if f.lsb <= k <= f.msb {
      assert bits[k - f.lsb] == k;
    }
  }

  // ---- pins --------------------------------------------------------------

  /** a bit of a register, addressed by the register's offset within the port */
  datatype ControlBit = ControlBit(offset: nat, bit: nat)

  datatype Pin = Pin(bitnum: nat, reader: ControlBit, writer: ControlBit)

  /** a pin reads its bit of the input data register and writes its bit of the output data register */
  function MakePin(bitnum: nat): (p: Pin)
    ensures p.bitnum == bitnum
    ensures p.reader == ControlBit(IDR, bitnum) && p.writer == ControlBit(ODR, bitnum)
  {
    Pin(bitnum, ControlBit(IDR, bitnum), ControlBit(ODR, bitnum))
  }

  /** a pin as MakePin builds it, on a pin number the port has */
  ghost predicate PinOf(p: Pin)
  {
    p.bitnum < 16 && p.reader == ControlBit(IDR, p.bitnum) && p.writer == ControlBit(ODR, p.bitnum)
  }

  /** a pin with the level deemed active */
  datatype LogicalPin = LogicalPin(pin: Pin, active: bool) {
    function Polarized(operand: bool): bool
    {
      active == operand
    }
  }

  /** polarity is its own inverse, and with high active it changes nothing */
  lemma PolarizedInvolution(p: LogicalPin, x: bool)
    ensures p.Polarized(p.Polarized(x)) == x
    ensures p.active ==> p.Polarized(x) == x
    ensures !p.active ==> p.Polarized(x) == !x
  {
  }

  /** the puller an InputPin(pin, active) asks for: the opposite of the active level */
  function InputPuller(active: bool): (u: Puller)
    ensures active ==> u == D
    ensures !active ==> u == U
  {
    if active then D else U
  }

  // ---- a port and its registers ------------------------------------------

  class Port {
    const slot: nat
    const base: nat
    var reg: map<nat, Word>

    ghost predicate Valid()
      reads this
    {
      Offsets <= reg.Keys && base == GpioBase(slot)
    }

    /** the port named by its upper-case letter, over the given register contents */
    constructor (letter: char, hardware: map<nat, Word>)
      requires 'A' <= letter && Offsets <= hardware.Keys
      ensures Valid()
      ensures slot == letter as nat - 'A' as nat && base == GPIOBASE + 0x400 * slot
      ensures reg == hardware
    {
      slot := letter as nat - 'A' as nat;
      base := GpioBase(letter as nat - 'A' as nat);
      reg := hardware;
    }

    /** configures pin `bitnum`: mode, output type, speed, pull and alternate function */
    method Configure(bitnum: nat, c: PinOptions)
      requires Valid() && bitnum < 16
      modifies this
      ensures Valid()
      ensures reg == Configured(old(reg), bitnum, c)
      ensures Settings(reg, bitnum) == Encoding(c)
    {
      ConfigureSetsPin(reg, bitnum, c);
      reg := reg[MODER := Merge(reg[MODER], WordOf(DirCode(c.dir)), 2 * bitnum, 2)];
      reg := reg[OTYPER := WriteBit(reg[OTYPER], bitnum, c.udfo == O)];
      reg := reg[OSPEEDR := Merge(reg[OSPEEDR], WordOf(SlewCode(c.slew)), 2 * bitnum, 2)];
      reg := reg[PUPDR := Merge(reg[PUPDR], WordOf(PullCode(c.udfo)), 2 * bitnum, 2)];
      reg := reg[AfrOffset(bitnum) := Merge(reg[AfrOffset(bitnum)], WordOf(c.altcode), AfrShift(bitnum), 4)];
    }

    /** forAdc: configures pin `bitnum` as an analog input, slow and floating */
    method ForAdc(bitnum: nat)
      requires Valid() && bitnum < 16
      modifies this
      ensures Valid()
      ensures reg == Configured(old(reg), bitnum, Options(Analog, Slow, F))
      ensures Settings(reg, bitnum) == PinSettings(WordOf(3), false, WordOf(0), WordOf(0), WordOf(0))
    {
      Configure(bitnum, Options(Analog, Slow, F));
      assert And(WordOf(0), LowMask(4)) == WordOf(0);
    }

    /** Field::configure: configures each pin of the field, lsb through msb
        (what that does to each pin is FieldConfigureEffect) */
    method ConfigureField(f: Field, c: PinOptions)
      requires Valid() && f.Valid()
      modifies this
      ensures Valid()
      ensures reg == ConfiguredAll(old(reg), FieldBits(f), c)
    {
      var abit := f.lsb;
      ghost var done: seq<nat> := [];
      while abit <= f.msb
        invariant f.lsb <= abit <= f.msb + 1
        invariant Valid()
        invariant done == Range(f.lsb, abit) && AllPins(done)
        invariant reg == ConfiguredAll(old(reg), done, c)
        decreases f.msb + 1 - abit
      {
        RangeSnoc(f.lsb, abit);
        ConfiguredAllSnoc(old(reg), done, abit, c);
        Configure(abit, c);
        done := done + [abit];
        abit := abit + 1;
      }
    }

    /** `field = value`: one write of the set/reset register, whose effect
        the output data register shows */
    method FieldAssign(f: Field, value: Word)
      requires Valid() && f.Valid()
      modifies this
      ensures Valid()
      ensures reg == old(reg)[ODR := ApplyBsrr(old(reg[ODR]), BsrrWord(f, value))]
      ensures FieldRead(f) == And(value, LowMask(f.Width()))
    {
      FieldRoundTrip(reg[ODR], f, value);
      reg := reg[ODR := ApplyBsrr(reg[ODR], BsrrWord(f, value))];
    }

    /** the requested output of the field: the output data register's bits of it */
    function FieldRead(f: Field): (r: Word)
      reads this
      requires Valid() && f.Valid()
      ensures Fits(r, f.Width())
      ensures forall i :: 0 <= i < f.Width() ==> r[i] == reg[ODR][f.lsb + i]
    {
      FieldValueFits(reg[ODR], f);
      MaskBits(f);
      FieldValue(reg[ODR], f)
    }

    /** what the pins of the field actually read: the input data register's bits of it */
    function FieldActual(f: Field): (r: Word)
      reads this
      requires Valid() && f.Valid()
      ensures Fits(r, f.Width())
      ensures forall i :: 0 <= i < f.Width() ==> r[i] == reg[IDR][f.lsb + i]
    {
      FieldValueFits(reg[IDR], f);
      MaskBits(f);
      FieldValue(reg[IDR], f)
    }

    /** `field ^= value`: the requested output becomes its old value with the
        1-bits of `value` flipped, within the field's width */
    method FieldToggle(f: Field, value: Word)
      requires Valid() && f.Valid()
      modifies this
      ensures Valid()
      ensures reg == old(reg)[ODR := ApplyBsrr(old(reg[ODR]), BsrrWord(f, Xor(value, old(FieldRead(f)))))]
      ensures forall i :: 0 <= i < f.Width() ==> FieldRead(f)[i] == (old(FieldRead(f))[i] != value[i])
      ensures Fits(FieldRead(f), f.Width())
    {
      FieldAssign(f, Xor(value, FieldRead(f)));
    }

    /** raw level of a pin */
    function PinRead(p: Pin): (r: bool)
      reads this
      requires Valid() && PinOf(p)
      ensures r == FieldActual(Field(p.bitnum, p.bitnum))[0]
    {
      var one := Field(p.bitnum, p.bitnum);
      assert one.Width() == 1;
      reg[IDR][p.bitnum]
    }

    /** `pin = truth`: sets the pin's output bit, leaves the port's other
        bits alone, and returns `truth` */
    method PinWrite(p: Pin, truth: bool) returns (r: bool)
      requires Valid() && PinOf(p)
      modifies this
      ensures Valid()
      ensures reg == old(reg)[ODR := old(reg[ODR])[p.bitnum := truth]]
      ensures r == truth
    {
      WriteBitEffect(reg[ODR], p.bitnum, truth);
      reg := reg[ODR := WriteBit(reg[ODR], p.bitnum, truth)];
      r := truth;
    }

    /** Pin::DI: configures the pin as a digital input with the given puller,
        pull-down unless told otherwise */
    method DigitalInput(p: Pin, udf: Puller := D)
      requires Valid() && PinOf(p)
      modifies this
      ensures Valid()
      ensures reg == Configured(old(reg), p.bitnum, InputOptions(udf))
      ensures Settings(reg, p.bitnum) == PinSettings(WordOf(0), udf == O, WordOf(0), WordOf(PullCode(udf)), WordOf(0))
    {
      Configure(p.bitnum, Options(Input, Slow, udf));
      assert And(WordOf(0), LowMask(4)) == WordOf(0);
    }

    /** Pin::DO: configures the pin as a digital output, slow and pulled down
        unless told otherwise */
    method DigitalOutput(p: Pin, slew: Slew := Slow, udfo: Puller := D)
      requires Valid() && PinOf(p)
      modifies this
      ensures Valid()
      ensures reg == Configured(old(reg), p.bitnum, OutputOptions(slew, udfo))
      ensures Settings(reg, p.bitnum) == PinSettings(WordOf(1), udfo == O, WordOf(SlewCode(slew)), WordOf(PullCode(udfo)), WordOf(0))
    {
      Configure(p.bitnum, Options(Output, slew, udfo));
      assert And(WordOf(0), LowMask(4)) == WordOf(0);
    }

    /** Pin::FN and FunctionPin: configures the pin for alternate function `nibble` */
    method AlternateFunction(p: Pin, nibble: nat, slew: Slew := Slow, udf: Puller := F)
      requires Valid() && PinOf(p)
      modifies this
      ensures Valid()
      ensures reg == Configured(old(reg), p.bitnum, FunctionOptions(nibble, slew, udf))
      ensures Settings(reg, p.bitnum).mode == WordOf(2)
      ensures Settings(reg, p.bitnum).alternate == And(WordOf(nibble), LowMask(4))
    {
      Configure(p.bitnum, Options(Function, slew, udf, nibble));
    }

    /** InputPin(pin, udf, active): a digital input with the given puller,
        pulled down and active high unless told otherwise */
    method MakeInputPin(p: Pin, udf: Puller := D, active: bool := true) returns (lp: LogicalPin)
      requires Valid() && PinOf(p)
      modifies this
      ensures Valid()
      ensures lp == LogicalPin(p, active)
      ensures reg == Configured(old(reg), p.bitnum, InputOptions(udf))
      ensures Settings(reg, p.bitnum) == PinSettings(WordOf(0), udf == O, WordOf(0), WordOf(PullCode(udf)), WordOf(0))
    {
      DigitalInput(p, udf);
      lp := LogicalPin(p, active);
    }

    /** InputPin(pin, active): an input pulled toward the inactive level,
        down (code 2) when high is active, up (code 1) when low is */
    method MakeInputPinPulled(p: Pin, active: bool) returns (lp: LogicalPin)
      requires Valid() && PinOf(p)
      modifies this
      ensures Valid()
      ensures lp == LogicalPin(p, active)
      ensures reg == Configured(old(reg), p.bitnum, InputOptions(InputPuller(active)))
      ensures Settings(reg, p.bitnum).mode == WordOf(0)
      ensures Settings(reg, p.bitnum).pull == WordOf(if active then 2 else 1)
    {
      lp := MakeInputPin(p, InputPuller(active), active);
    }

    /** OutputPin(pin, active, slew, openDrain): a digital output, open drain
        (pulled up) or push-pull floating */
    method MakeOutputPin(p: Pin, active: bool, slew: Slew, openDrain: bool) returns (lp: LogicalPin)
      requires Valid() && PinOf(p)
      modifies this
      ensures Valid()
      ensures lp == LogicalPin(p, active)
      ensures reg == Configured(old(reg), p.bitnum, OutputOptions(slew, if openDrain then O else F))
      ensures Settings(reg, p.bitnum).openDrain == openDrain
      ensures Settings(reg, p.bitnum).pull == WordOf(if openDrain then 1 else 0)
    {
      DigitalOutput(p, slew, if openDrain then O else F);
      lp := LogicalPin(p, active);
    }

    /** a logical pin's value: the raw level seen through its polarity */
    function LogicalValue(lp: LogicalPin): (r: bool)
      reads this
      requires Valid() && PinOf(lp.pin)
      ensures lp.active ==> r == reg[IDR][lp.pin.bitnum]
      ensures !lp.active ==> r == !reg[IDR][lp.pin.bitnum]
    {
      lp.Polarized(PinRead(lp.pin))
    }

    /** OutputPin `= truth`: drives the polarized level, returns `truth` unchanged */
    method OutputAssign(lp: LogicalPin, truth: bool) returns (r: bool)
      requires Valid() && PinOf(lp.pin)
      modifies this
      ensures Valid()
      ensures reg == old(reg)[ODR := old(reg[ODR])[lp.pin.bitnum := lp.Polarized(truth)]]
      ensures r == truth
    {
      var ignored := PinWrite(lp.pin, lp.Polarized(truth));
      r := truth;
    }

    /** OutputPin::changed: writes only when the pin's read level differs from
        the polarized request, and says whether it wrote; a pin that already
        reads the requested level is left alone */
    method OutputChanged(lp: LogicalPin, truth: bool) returns (wrote: bool)
      requires Valid() && PinOf(lp.pin)
      modifies this
      ensures Valid()
      ensures wrote <==> old(PinRead(lp.pin)) != lp.Polarized(truth)
      ensures wrote ==> reg == old(reg)[ODR := old(reg[ODR])[lp.pin.bitnum := lp.Polarized(truth)]]
      ensures !wrote ==> reg == old(reg)
    {
      var level := lp.Polarized(truth);
      if PinRead(lp.pin) != level {
        var ignored := PinWrite(lp.pin, level);
        return true;
      }
      return false;
    }

    /** OutputPin::toggle: drives the inverse of the raw level the pin reads,
        regardless of polarity */
    method OutputToggle(lp: LogicalPin)
      requires Valid() && PinOf(lp.pin)
      modifies this
      ensures Valid()
      ensures reg == old(reg)[ODR := old(reg[ODR])[lp.pin.bitnum := !old(PinRead(lp.pin))]]
    {
      var ignored := PinWrite(lp.pin, !PinRead(lp.pin));
    }
  }

  /** OutputPin::changed twice in a row on a port whose input data follows its
      output data: the first call writes only if the pin read another level,
      the input then samples the driven output, and the second call finds the
      requested level already there and writes nothing */
  method ChangedTwiceWritesOnce(port: Port, lp: LogicalPin, truth: bool) returns (first: bool, second: bool)
    requires port.Valid() && PinOf(lp.pin)
    requires port.reg[IDR] == port.reg[ODR]
    modifies port
    ensures port.Valid()
    ensures first <==> old(port.reg[IDR][lp.pin.bitnum]) != lp.Polarized(truth)
    ensures !second
    ensures port.reg[ODR][lp.pin.bitnum] == lp.Polarized(truth)
    ensures port.reg[IDR] == port.reg[ODR]
  {
    first := port.OutputChanged(lp, truth);
    // the input data register samples the pins the output drives
    port.reg := port.reg[IDR := port.reg[ODR]];
    second := port.OutputChanged(lp, truth);
  }
}
