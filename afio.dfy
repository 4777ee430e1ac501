/** The STM32F1 alternate-function unit's external-interrupt selection of
    stm32/afio.cpp: each of the four EXTICR registers, from offset 8 on, holds
    four 4-bit fields, and the field of pin `bitnum` gets the code of the pin's
    port (port A, peripheral slot 2, is code 0). */
module Afio {
  import opened Unsigned
  import opened Bits

  /** `8 + (bitnum & ~3)`: the register holding the pin's field; clearing the
      two low bits of an unsigned is taking away its remainder by 4 */
  function EventRegister(bitnum: U32): (r: U32)
    ensures bitnum < 16 ==> r == 8 + 4 * (bitnum / 4)
  {
    Wrap32(8 + (bitnum - bitnum % 4))
  }

  /** `(bitnum & 3) << 2`: the position of the pin's field in its register */
  function EventShift(bitnum: U32): (r: nat)
    ensures r in {0, 4, 8, 12}
  {
    (bitnum % 4) * 4
  }

  /** `u32(slot - 2)`: the code of the port in peripheral slot `slot` */
  function EventCode(slot: U32): (r: U32)
    ensures 2 <= slot ==> r == slot - 2
  {
    Wrap32(slot - 2)
  }

  /** pins 0-3 use the register at 8, 4-7 at 12, 8-11 at 16 and 12-15 at 20,
      each pin a nibble at four times its remainder by 4 */
  lemma EventPlacement(bitnum: U32)
    requires bitnum < 16
    ensures EventRegister(bitnum) == 8 + 4 * (bitnum / 4)
    ensures EventRegister(bitnum) in {8, 12, 16, 20}
    ensures EventShift(bitnum) == 4 * (bitnum % 4)
  {
  }

  /** different pins 0..15 own different fields */
  lemma EventFieldsDistinct(a: U32, b: U32)
    requires a < 16 && b < 16 && a != b
    ensures EventRegister(a) != EventRegister(b) || EventShift(a) != EventShift(b)
  {
    EventPlacement(a);
    EventPlacement(b);
  }

  /** port A selects code 0 */
  lemma PortACode()
    ensures EventCode(2) == 0
  {
  }

  /** a pin of port `slot`, number `bitnum` */
  datatype Pin = Pin(slot: U32, bitnum: U32)

  /** the AFIO registers by offset */
  class AfioManager {
    var reg: map<nat, Word>

    constructor(reg: map<nat, Word>)
      ensures this.reg == reg
    {
      this.reg := reg;
    }

    /** route pin's external interrupt line to the pin's port */
    method SelectEvent(pin: Pin)
      requires EventRegister(pin.bitnum) in reg
      modifies this
      ensures reg == old(reg)[EventRegister(pin.bitnum) :=
        Merge(old(reg[EventRegister(pin.bitnum)]), WordOf(EventCode(pin.slot)), EventShift(pin.bitnum), 4)]
      ensures FieldOf(reg[EventRegister(pin.bitnum)], EventShift(pin.bitnum), 4)
        == And(WordOf(EventCode(pin.slot)), LowMask(4))
    {
      var gangof4 := EventRegister(pin.bitnum);
      var value := EventCode(pin.slot);
      MergeReadBack(reg[gangof4], WordOf(value), EventShift(pin.bitnum), 4);
      reg := reg[gangof4 := Merge(reg[gangof4], WordOf(value), EventShift(pin.bitnum), 4)];
    }
  }

  /** selecting pin `p` leaves the field of every other pin 0..15 as it was */
  lemma SelectionKeepsOthers(w: Word, p: Pin, other: U32)
    requires p.bitnum < 16 && other < 16 && other != p.bitnum
    requires EventRegister(other) == EventRegister(p.bitnum)
    ensures FieldOf(Merge(w, WordOf(EventCode(p.slot)), EventShift(p.bitnum), 4), EventShift(other), 4)
      == FieldOf(w, EventShift(other), 4)
  {
    EventFieldsDistinct(p.bitnum, other);
    MergeLeavesField(w, WordOf(EventCode(p.slot)), EventShift(p.bitnum), 4, EventShift(other), 4);
  }

  /** for ports A to P (slots 2 to 17) the field reads back as the port's code */
  lemma SelectionReadBack(w: Word, p: Pin)
    requires 2 <= p.slot < 18
    ensures FieldOf(Merge(w, WordOf(EventCode(p.slot)), EventShift(p.bitnum), 4), EventShift(p.bitnum), 4)
      == WordOf(p.slot - 2)
  {
    var code := EventCode(p.slot);
    assert code == p.slot - 2;
    var v := WordOf(code);
    MergeReadBack(w, v, EventShift(p.bitnum), 4);
    Pow2Of4();
    WordOfFits(code, 4);
    CutFitting(v, 4);
  }

  lemma Pow2Of4()
    ensures Pow2(4) == 16
  {
  }
}
