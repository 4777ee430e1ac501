/** The LPC13xx peripheral addressing of lpc/lpcperipheral.h: every APB0 unit
    owns a 16 KiB block of address space, a special function register is an
    offset into its unit's block, and the system-control (SYSCON, unit 18)
    power-down, clock-control and reset registers are driven one bit at a
    time. Addresses are `unsigned`, so they wrap modulo 2^32. */
module Lpc {
  import opened Unsigned
  import opened Bits

  const ApbBase: nat := 0x4000_0000
  const BlockSize: nat := 0x4000
  /** SYSCON's unit number and its registers' offsets */
  const SysConUnit: nat := 18
  const IoConUnit: nat := 17
  const PowerDownOffset: nat := 0x238
  const ClockControlOffset: nat := 0x80
  const ResetOffset: nat := 0x04

  /** the base address of APB0 unit `unit`: `0x40000000 + (unit << 14)` */
  function Apb0Device(unit: U32): (r: U32)
    ensures unit < 0x3_0000 ==> r == ApbBase + unit * BlockSize
  {
    Wrap32(ApbBase + Wrap32(unit * BlockSize))
  }

  /** the address of the register at `offset` in unit `unit`'s block */
  function MakeSfr(unit: U32, offset: U32): (r: U32)
    ensures unit < 0x3_0000 && offset < BlockSize ==>
      Apb0Device(unit) <= r < Apb0Device(unit) + BlockSize
  {
    Wrap32(Apb0Device(unit) + offset)
  }

  /** the address of a SYSCON register */
  function SysConBase(offset: U32): (r: U32)
    ensures offset < TwoTo32 - 0x4004_8000 ==> r == 0x4004_8000 + offset
  {
    MakeSfr(SysConUnit, offset)
  }

  /** the address of an IOCON register */
  function IoConReg(offset: U32): (r: U32)
    ensures offset < TwoTo32 - 0x4004_4000 ==> r == 0x4004_4000 + offset
  {
    MakeSfr(IoConUnit, offset)
  }

  /** registers of different units never share an address */
  lemma BlocksDisjoint(u: U32, v: U32, off: U32, off': U32)
    requires u < 0x3_0000 && v < 0x3_0000 && u != v
    requires off < BlockSize && off' < BlockSize
    ensures MakeSfr(u, off) != MakeSfr(v, off')
  {
    if u < v {
      assert Apb0Device(u) + BlockSize <= Apb0Device(v);
    } else {
      assert Apb0Device(v) + BlockSize <= Apb0Device(u);
    }
  }

  /** beyond unit 0x2FFFF the shifted unit number wraps round: unit 0x30000
      lands on address 0, below APB0 */
  lemma DeviceWraps()
    ensures Apb0Device(0x3_0000) == 0
  {
  }

  /** SYSCON and IOCON registers lie in SYSCON's and IOCON's blocks, which differ */
  lemma SysConIoConApart(off: U32, off': U32)
    requires off < BlockSize && off' < BlockSize
    ensures SysConBase(off) != IoConReg(off')
  {
    BlocksDisjoint(SysConUnit, IoConUnit, off, off');
  }

  /** the SYSCON registers the power, clock and reset helpers drive */
  class SysCon {
    /** register words by address */
    var mem: map<U32, Word>

    predicate Valid()
      reads this
    {
      SysConBase(PowerDownOffset) in mem && SysConBase(ClockControlOffset) in mem
        && SysConBase(ResetOffset) in mem
    }

    constructor(mem: map<U32, Word>)
      requires SysConBase(PowerDownOffset) in mem && SysConBase(ClockControlOffset) in mem
      requires SysConBase(ResetOffset) in mem
      ensures Valid() && this.mem == mem
    {
      this.mem := mem;
    }

    /** power unit `which` up: clear its power-down bit */
    method PowerUp(which: int)
      requires Valid() && 0 <= which < 32
      modifies this
      ensures Valid()
      ensures mem == old(mem)[SysConBase(PowerDownOffset) := old(mem[SysConBase(PowerDownOffset)])[which := false]]
    {
      var address := SysConBase(PowerDownOffset);
      ClearBitEffect(mem[address], which);
      mem := mem[address := ClearBit(mem[address], which)];
    }

    /** power unit `which` down: set its power-down bit */
    method PowerDown(which: int)
      requires Valid() && 0 <= which < 32
      modifies this
      ensures Valid()
      ensures mem == old(mem)[SysConBase(PowerDownOffset) := old(mem[SysConBase(PowerDownOffset)])[which := true]]
    {
      var address := SysConBase(PowerDownOffset);
      SetBitEffect(mem[address], which);
      mem := mem[address := SetBit(mem[address], which)];
    }

    /** powering a unit that was up down and then up again restores the register */
    method PowerCycle(which: int)
      requires Valid() && 0 <= which < 32
      requires !mem[SysConBase(PowerDownOffset)][which]
      modifies this
      ensures Valid() && mem == old(mem)
    {
      PowerDown(which);
      PowerUp(which);
      assert mem[SysConBase(PowerDownOffset)] == old(mem[SysConBase(PowerDownOffset)]);
    }

    /** turn on the clock of the unit whose clock-control bit is `bit` */
    method EnableClock(bit: U32)
      requires Valid() && bit < 32
      modifies this
      ensures Valid()
      ensures mem == old(mem)[SysConBase(ClockControlOffset) := old(mem[SysConBase(ClockControlOffset)])[bit := true]]
    {
      var address := SysConBase(ClockControlOffset);
      SetBitEffect(mem[address], bit);
      mem := mem[address := SetBit(mem[address], bit)];
    }

    /** turn off the clock of the unit whose clock-control bit is `bit` */
    method DisableClock(bit: U32)
      requires Valid() && bit < 32
      modifies this
      ensures Valid()
      ensures mem == old(mem)[SysConBase(ClockControlOffset) := old(mem[SysConBase(ClockControlOffset)])[bit := false]]
    {
      var address := SysConBase(ClockControlOffset);
      ClearBitEffect(mem[address], bit);
      mem := mem[address := ClearBit(mem[address], bit)];
    }

    /** `ClockEnable<ckbit>`: the one-bit register view at the clock-control
        address, written with `on` */
    method ClockEnable(ckbit: U32, on: bool)
      requires Valid() && ckbit < 32
      modifies this
      ensures Valid()
      ensures mem == old(mem)[SysConBase(ClockControlOffset) := old(mem[SysConBase(ClockControlOffset)])[ckbit := on]]
    {
      var address := SysConBase(ClockControlOffset);
      WriteBitEffect(mem[address], ckbit, on);
      mem := mem[address := WriteBit(mem[address], ckbit, on)];
    }

    /** raise the reset-control bit `bit` */
    method Reset(bit: U32)
      requires Valid() && bit < 32
      modifies this
      ensures Valid()
      ensures mem == old(mem)[SysConBase(ResetOffset) := old(mem[SysConBase(ResetOffset)])[bit := true]]
    {
      var address := SysConBase(ResetOffset);
      SetBitEffect(mem[address], bit);
      mem := mem[address := SetBit(mem[address], bit)];
    }
  }

  /** the power-down, clock-control and reset registers are three different words */
  lemma SysConRegistersDistinct()
    ensures SysConBase(PowerDownOffset) == 0x4004_8238
    ensures SysConBase(ClockControlOffset) == 0x4004_8080
    ensures SysConBase(ResetOffset) == 0x4004_8004
  {
  }
}
