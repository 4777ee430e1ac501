/** The STM32 USART wrapper of stm32/uart.cpp: which bus, peripheral slot and
    interrupt a unit number selects on the F103 and the F407, the control bits
    that setParams, beReceiving and beTransmitting write, the write-only-if-
    changed baud divisor, and the frame-length arithmetic. The peripheral
    clock (`getClockRate`) and the divisor rounding (`rate`) are parameters. */
module Uart {
  import opened Unsigned

  /** the DEVICE the file is compiled for */
  datatype Device = F103 | F407

  /** the APB bus a unit is on */
  function Bus(device: Device, unit: U32): nat
  {
    match device
    case F103 => if unit > 1 then 1 else 2
    case F407 => if unit == 1 || unit == 6 then 2 else 1
  }

  /** the unit's slot (clock-enable bit) on its bus */
  function Slot(device: Device, unit: U32): U32
  {
    match device
    case F103 => if unit > 1 then Wrap32(unit + 15) else 14
    case F407 => if unit == 1 then 4 else if unit == 6 then 5 else Wrap32(unit + 15)
  }

  /** the unit's interrupt number */
  function Irq(unit: U32): U32
  {
    Wrap32((if unit <= 3 then 36 else if unit <= 5 then 48 else 65) + unit)
  }

  /** USART1 is slot 14 of APB2 on the F103 and slot 4 on the F407, USART6
      slot 5 of APB2; USART2..UART5 are slots 17..20 of APB1 on both */
  lemma UnitPlacement()
    ensures Bus(F103, 1) == 2 && Slot(F103, 1) == 14
    ensures Bus(F407, 1) == 2 && Slot(F407, 1) == 4
    ensures Bus(F407, 6) == 2 && Slot(F407, 6) == 5
    ensures forall unit: U32 :: 2 <= unit <= 5 ==>
      Bus(F103, unit) == Bus(F407, unit) == 1 && Slot(F103, unit) == Slot(F407, unit) == unit + 15
  {
  }

  /** no two units of a device share a peripheral slot */
  lemma UnitsDistinct(device: Device, u: U32, v: U32)
    requires 1 <= u <= 6 && 1 <= v <= 6 && u != v
    requires device == F103 ==> u <= 5 && v <= 5
    ensures (Bus(device, u), Slot(device, u)) != (Bus(device, v), Slot(device, v))
  {
  }

  /** the interrupts are 37, 38, 39, 52, 53 and 71, one per unit */
  lemma IrqTable()
    ensures Irq(1) == 37 && Irq(2) == 38 && Irq(3) == 39
    ensures Irq(4) == 52 && Irq(5) == 53 && Irq(6) == 71
  {
  }

  /** a C `char` */
  type Char8 = bv8

  /** bit 0 of the parity character: 1 for 'E' and 'O', 0 for 'N' */
  predicate ParityEnabled(c: Char8)
  {
    c & 1 != 0
  }

  /** bit 1 of the parity character: 1 for 'O', 0 for 'E' */
  predicate ParityOdd(c: Char8)
  {
    c & 2 != 0
  }

  /** 'N' means no parity, 'E' even parity and 'O' odd parity */
  lemma ParityLetters()
    ensures !ParityEnabled('N' as bv8)
    ensures ParityEnabled('E' as bv8) && !ParityOdd('E' as bv8)
    ensures ParityEnabled('O' as bv8) && ParityOdd('O' as bv8)
  {
  }

  /** the line bits one character takes: a start bit, 8 or 9 data bits and one
      or two stop bits (a half stop bit counts as none) */
  function FrameBits(doubleStop: bool, nineBits: bool): (r: nat)
    ensures 9 <= r <= 12
    ensures r == 9 <==> !doubleStop && !nineBits
    ensures r == 12 <==> doubleStop && nineBits
  {
    1 + (if doubleStop then 2 else 0) + (if nineBits then 9 else 8)
  }

  /** one USART: its placement and the control bits and divisor the wrapper writes */
  class Uart {
    const unit: U32
    const alt: U32
    const bus: nat
    const slot: U32
    const irq: U32

    var enable: bool
    var parityOdd: bool
    var parityEnable: bool
    var nineBits: bool
    var halfStop: bool
    var doubleStop: bool
    var dataAvailableIE: bool
    var enableReceiver: bool
    var enableTransmitter: bool
    var transmitCompleteIE: bool
    var transmitAvailableIE: bool
    /** the baud-rate divisor register */
    var brr: U32

    constructor(device: Device, unit: U32, alt: U32)
      ensures this.unit == unit && this.alt == alt
      ensures bus == Bus(device, unit) && slot == Slot(device, unit) && irq == Irq(unit)
    {
      this.unit := unit;
      this.alt := alt;
      bus := Bus(device, unit);
      slot := Slot(device, unit);
      irq := Irq(unit);
    }

    /** set the divisor for `desired` baud from a clock of `osc` Hz; the
        register is written, and the USART disabled, only when the divisor
        changes, so a repeat with the same rate and clock changes nothing */
    method SetBaudrate(desired: U32, osc: U32, rate: (U32, U32) -> U32)
      modifies this`enable, this`brr
      ensures brr == rate(osc, desired)
      ensures enable == (old(enable) && old(brr) == rate(osc, desired))
    {
      var newbaud := rate(osc, desired);
      if newbaud != brr {
        enable := false;
        brr := newbaud;
      }
    }

    /** disable the USART and set baud rate, word length, parity and stop bits */
    method SetParams(baud: U32, numbits: U32, parityNEO: Char8, longStop: bool, shortStop: bool, osc: U32, rate: (U32, U32) -> U32)
      modifies this`enable, this`parityOdd, this`parityEnable, this`nineBits, this`halfStop, this`doubleStop, this`brr
      ensures !enable
      ensures parityEnable == ParityEnabled(parityNEO) && parityOdd == ParityOdd(parityNEO)
      ensures nineBits <==> numbits == 9 || (numbits == 8 && ParityEnabled(parityNEO))
      ensures halfStop == shortStop && doubleStop == longStop
      ensures brr == rate(osc, baud)
    {
      enable := false;
      parityOdd := parityNEO & 2 != 0;
      parityEnable := parityNEO & 1 != 0;
      nineBits := numbits == 9 || (numbits == 8 && parityEnable);
      halfStop := shortStop;
      doubleStop := longStop;
      SetBaudrate(baud, osc, rate);
    }

    /** the line bits per character, counted up step by step */
    method BitsPerByte() returns (bits: U32)
      ensures bits == FrameBits(doubleStop, nineBits)
    {
      bits := 1;
      if doubleStop {
        bits := bits + 2;
      }
      if halfStop {
        bits := bits - 0;
      }
      if nineBits {
        return bits + 9;
      }
      return bits + 8;
    }

    /** the timer ticks `charcount` characters take: characters times bits per
        character times the divisor, in `unsigned` arithmetic */
    function TicksForChars(charcount: U32): (r: U32)
      reads this
      ensures r == (charcount * FrameBits(doubleStop, nineBits) * brr) % TwoTo32
    {
      var frame := FrameBits(doubleStop, nineBits);
      WrapMul(charcount * frame, brr);
      Wrap32(Wrap32(charcount * frame) * brr)
    }

    /** turn reception and its interrupt on or off; the USART stays enabled
        while the transmitter is */
    method BeReceiving(yes: bool)
      modifies this`dataAvailableIE, this`enableReceiver, this`enable
      ensures dataAvailableIE == yes && enableReceiver == yes
      ensures enable == (yes || enableTransmitter)
    {
      dataAvailableIE := yes;
      enableReceiver := yes;
      enable := yes || enableTransmitter;
    }

    /** turn the transmit-available interrupt on or off, with the
        transmit-complete interrupt off; the USART stays enabled while the
        receiver is */
    method BeTransmitting(yes: bool)
      modifies this`transmitCompleteIE, this`enable, this`transmitAvailableIE
      ensures !transmitCompleteIE && transmitAvailableIE == yes
      ensures enable == (yes || enableReceiver)
    {
      transmitCompleteIE := false;
      enable := yes || enableReceiver;
      transmitAvailableIE := yes;
    }
  }

  /** while the product does not overflow, characters take between 9 and 12
      bit times each */
  lemma TicksForCharsBounds(u: Uart, charcount: U32)
    requires charcount * 12 * u.brr < TwoTo32
    ensures 9 * (charcount * u.brr) <= u.TicksForChars(charcount) <= 12 * (charcount * u.brr)
  {
    var frame := FrameBits(u.doubleStop, u.nineBits);
    var bitTime := charcount * u.brr;
    assert charcount * frame * u.brr == frame * bitTime;
    MulBetween(frame, bitTime);
    assert 12 * bitTime == charcount * 12 * u.brr;
  }

  lemma MulBetween(frame: nat, x: nat)
    requires 9 <= frame <= 12
    ensures 9 * x <= frame * x <= 12 * x
  {
  }
}
