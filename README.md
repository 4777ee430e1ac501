# Verified model of the ezcpp embedded peripheral core

This project models, in Dafny, the core of a small C++ library for ARM
Cortex-M microcontrollers (STM32F103, STM32F407, LPC13xx):

- **the `Fifo` byte ring buffer** (`fifo.h`). It passes bytes one way between
  an interrupt routine and ordinary code. It is a class over an array with
  reader and writer cursors, a count and guard flags. Ghost sequences record
  the queued bytes, every byte accepted and every byte handed out.
- **the integer and bit arithmetic of the peripheral wrappers**:
  - the STM32 USART (`stm32/uart.cpp`);
  - the SysTick timer and its 64-bit tick count (`systick.cpp`), with the
    SysTick registers as section B3.3 of the ARMv7-M Architecture Reference
    Manual describes them;
  - STM32F4 GPIO ports, pins and multi-pin fields (`stm32/gpiof4.cpp`,
    `stm32/gpiof4.h`);
  - LPC13xx peripheral addressing and SYSCON power, clock and reset bits
    (`lpc/lpcperipheral.h`);
  - STM32F1 external-interrupt routing (`stm32/afio.cpp`).

Files and modules:

| file | module | what it holds |
|---|---|---|
| `unsigned.dfy` | `Unsigned` | `u32` values and wrap-around modulo 2^32, with lemmas that wrapping intermediate results does not change a wrapped sum, difference or product |
| `bits.dfy` | `Bits` | a 32-bit register word as 32 booleans; the C operators `& \| ^ ~ << >>` bit by bit; the meaning of `fieldMask`, `mergeBits`, `setBit`, `clearBit` and `raiseBit` as their names and call sites give it; the number a bit sequence stands for |
| `fifo.dfy` | `FifoQueue` | `Fifo`, `FifoBuffer<size>` |
| `uart.dfy` | `Uart` | unit placement, parity decoding, the `Uart` control bits and baud divisor |
| `systick.dfy` | `SysTick` | the tick count, the `SysTicker` registers, the `SystemTimer` conversions and snapshots |
| `gpiof4.dfy` | `GpioF4` | `PinOptions`, `Port::configure`, `Port::Field`, `Pin`, `LogicalPin`, `InputPin`, `OutputPin` |
| `lpc.dfy` | `Lpc` | APB0/SYSCON/IOCON addresses, the SYSCON register bits |
| `afio.dfy` | `Afio` | `AfioManager::selectEvent` |

Modelling choices:

- **Registers and numbers.**
  - Hardware registers are a map from offset or address to a 32-bit word. The
    USART and SysTick registers, which the source reaches as named bit-fields,
    are class fields of type `bool` or `U32`.
  - `unsigned` arithmetic is written out as `Wrap32` at every step where the C++
    wraps.
  - Clock frequencies (`getClockRate`, `clockRate`) and the divider rounding
    (`rate`) are parameters: a number and a total function `(U32, U32) -> U32`.
- **The fifo.**
  - Pointers into the fifo memory are indices.
  - The fifo's `.cpp` file is not part of this model, so the method bodies
    follow the header's comments and the inline `incrementPointer`.
  - The Busy outcome of `attempt_insert`/`attempt_remove` is a guard flag per
    role. Preemption is modelled by `InsertPreempted`: a nested call arriving
    while the guard is held.

Where the source and its comments disagree, the model follows the code:

- `stm32/uart.cpp:97` says F103 USART1 is on bus 1, but line 103 puts unit 1
  on bus 2, slot 14, and units above 1 on bus 1.
- `stm32/gpiof4.cpp` names the pullers `Float`/`Up`/`OpenDrain`, while
  `stm32/gpiof4.h:21` declares `F, D, U, O`. They are matched by position
  (F=0, D=1, U=2, O=3), which gives the pull codes F→0, D→2, U→1, O→1.

## Model

| member | source | states |
|---|---|---|
| `FifoQueue.Fifo.constructor` | fifo.h:26 | the fifo is bound to memory of exactly `quantity` bytes, starts empty with both guards free, and leaves the memory's bytes as they were |
| `FifoQueue.Fifo.IncrementPointer` | fifo.h:17-21 | a cursor inside the memory stays inside it, and wraps to the start exactly when the increment reaches the end |
| `FifoQueue.Fifo.IncrementIsModular` | fifo.h:17-21 | the circular increment is `(pointer + 1) mod quantity` |
| `FifoQueue.Fifo.Clear` | fifo.h:28-29 | afterwards nothing is present, `available() == 0`, `free() == quantity`, and the invariant holds |
| `FifoQueue.Fifo.Wipe` | fifo.h:31-32 | as `Clear`, and every byte of the memory holds the fill pattern |
| `FifoQueue.Fifo.Available` | fifo.h:34-37 | the number of bytes present, never more than `quantity` |
| `FifoQueue.Fifo.Free` | fifo.h:39-42 | `free() + available() == quantity` |
| `FifoQueue.Fifo.Insert` | fifo.h:44-45 | returns false exactly when full, and then stores nothing and keeps count and cursors; otherwise appends the byte to the contents, advances the writer and adds one to the count |
| `FifoQueue.Fifo.AttemptInsert` | fifo.h:47-48 | -2 when an insert is in progress, else -1 when full, else 0 with the byte appended; the Busy and full outcomes change nothing, and the guard is as before on every exit |
| `FifoQueue.Fifo.Remove` | fifo.h:50-51 | -1 and no change when empty; otherwise the oldest byte (0..255), which leaves the contents and joins the delivered bytes, with the reader advanced and the count one less |
| `FifoQueue.Fifo.AttemptRemove` | fifo.h:53-54 | -2 when a remove is in progress, else -1 when empty, else the oldest byte, removed; negative outcomes change nothing and the guard is as before |
| `FifoQueue.Fifo.Stuff` | fifo.h:56-57 | pushes the first `min(length, free)` bytes of the block in order and returns how many did not fit; with `length == 0` nothing changes |
| `FifoQueue.Fifo.BoundsError` | fifo.h:59-60 | 0 exactly when the chosen cursor is inside the memory, else -1 or 1 |
| `FifoQueue.Locate` | fifo.h:59-60 | -1 below the memory, 1 at or past its end, 0 inside |
| `FifoQueue.BoundsNeverViolated` | fifo.h:17-21 | in a valid fifo with memory, `boundsError` is 0 for both cursors |
| `FifoQueue.DeliveredIsPrefix` | fifo.h:4-6 | the bytes removed so far are a prefix of the bytes inserted so far, and the rest are exactly those present: no byte is lost, duplicated, reordered or made up |
| `FifoQueue.WindowPush` | fifo.h:44-45 | storing a byte in the slot after the present bytes appends it to them |
| `FifoQueue.InvPush` | fifo.h:44-45 | storing at the writer and advancing it keeps the invariant, with the byte appended to contents and accepted bytes |
| `FifoQueue.InvDrop` | fifo.h:50-51 | the byte at the reader is the oldest present; advancing the reader keeps the invariant |
| `FifoQueue.FifoBuffer.constructor` | fifo.h:68 | a fresh fifo over fresh memory of `size` bytes, so `quantity == size`, empty |
| `FifoQueue.FifoBuffer.Assign` | fifo.h:69-71 | assignment inserts, returning whether there was room; the byte joins the contents and the accepted bytes exactly when it fits, the delivered bytes and both guards stay |
| `FifoQueue.FifoBuffer.AsInt` | fifo.h:73-75 | conversion to int removes, giving the oldest byte, which joins the delivered bytes, or -1 with nothing changed; the accepted bytes and both guards stay |
| `FifoQueue.InsertPreempted` | fifo.h:47-48 | an `attempt_insert` arriving while another holds the guard is told Busy (-2) and changes nothing; the interrupted insert completes |
| `Uart.UnitPlacement` | stm32/uart.cpp:101-106 | F103: unit 1 on bus 2 slot 14; F407: unit 1 on bus 2 slot 4, unit 6 on bus 2 slot 5; units 2..5 on bus 1 slot unit+15 on both |
| `Uart.UnitsDistinct` | stm32/uart.cpp:101-106 | different units of one device get different (bus, slot) pairs |
| `Uart.IrqTable` | stm32/uart.cpp:109 | units 1..6 get interrupts 37, 38, 39, 52, 53, 71 |
| `Uart.ParityLetters` | stm32/uart.cpp:44-45 | 'N' disables parity, 'E' enables even parity, 'O' enables odd parity |
| `Uart.FrameBits` | stm32/uart.cpp:53-66 | a character takes 9 to 12 line bits: 9 only for one stop bit and 8 data bits, 12 only for two stop bits and 9 data bits |
| `Uart.Uart.constructor` | stm32/uart.cpp:101-112 | the unit's bus, slot and interrupt as the device's selection gives them |
| `Uart.Uart.SetBaudrate` | stm32/uart.cpp:16-27 | BRR ends up holding `rate(osc, desired)`; `enable` is cleared only when BRR held something else, so a repeat with the same rate and clock changes nothing |
| `Uart.Uart.SetParams` | stm32/uart.cpp:41-50 | USART disabled; parity enable from bit 0 and odd parity from bit 1 of the parity character; 9-bit words iff 9 bits are asked for, or 8 with parity; stop bits as given; BRR for the baud rate |
| `Uart.Uart.BitsPerByte` | stm32/uart.cpp:53-66 | the counted-up bits are `FrameBits` of the stop and word-length bits; the half-stop bit has no effect |
| `Uart.Uart.TicksForChars` | stm32/uart.cpp:69-71 | characters × bits per character × BRR, modulo 2^32 |
| `Uart.TicksForCharsBounds` | stm32/uart.cpp:69-71 | without overflow, the ticks lie between 9 and 12 bit times (BRR) per character |
| `Uart.Uart.BeReceiving` | stm32/uart.cpp:73-77 | the receive interrupt and receiver follow `yes`; the USART is enabled iff `yes` or the transmitter is on |
| `Uart.Uart.BeTransmitting` | stm32/uart.cpp:79-83 | transmit-complete interrupt off, transmit-available interrupt follows `yes`; the USART is enabled iff `yes` or the receiver is on |
| `SysTick.TickCounts` | systick.cpp:20-25 | one tick adds exactly 1 to `macroTime * 2^32 + milliTime`, modulo 2^64 |
| `SysTick.TicksCount` | systick.cpp:20-25 | n ticks add n to the 64-bit count, modulo 2^64 |
| `SysTick.SystemTimer.HandleTick` | systick.cpp:20-25 | `milliTime` increments modulo 2^32, `macroTime` increments only when `milliTime` wraps to 0, and the 64-bit count goes up by one |
| `SysTick.SystemTimer.constructor` | systick.cpp:15-16 | both words start at 0 |
| `SysTick.LongTimeConcat` | systick.cpp:156 | `milliTime \| (u64(macroTime) << 32)` places the high word's bits directly above the low word's |
| `SysTick.LongTimeValue` | systick.cpp:156 | that 64-bit value is `macroTime * 2^32 + milliTime` |
| `SysTick.SystemTimer.SnapLongTime` | systick.cpp:154-159 | returns `macroTime * 2^32 + milliTime`, below 2^64, and leaves counting enabled |
| `SysTick.SysTicker.constructor` | systick.cpp:35 | records whether the part implements the `fullspeed` bit |
| `SysTick.SysTicker.Start` | systick.cpp:50-61 | `reload = r - 1` (wrapping); counting and interrupt on; `fullspeed` reads back 1 where the part has the bit, making the divider `r`, and 0 where it lacks it, making the divider `8r` modulo 2^32; returns the rollover flag |
| `SysTick.ReloadRoundTrip` | systick.cpp:55-64 | storing `r - 1` and adding one back gives `r` for every `u32`, including 0 |
| `SysTick.SysTicker.Divider` | systick.cpp:63-68 | `reload + 1`, times 8 when fullspeed is clear, modulo 2^32 |
| `SysTick.SysTicker.TicksPerSecond` | systick.cpp:63-70 | `rate` of the clock and the processor clocks per tick: `reload + 1`, or eight times that when `fullspeed` is clear, modulo 2^32 |
| `SysTick.TicksPerSecondAfterStart` | systick.cpp:50-70 | a ticker started with `r` at full speed ticks `rate(clock, r)` times a second, whatever `r` is |
| `SysTick.SysTicker.TicksForMicros` | systick.cpp:72-74 | `us * ticksPerSecond` modulo 2^32, divided by 1000000, so below 4295 |
| `SysTick.SysTicker.TicksForMillis` | systick.cpp:76-78 | `ms * ticksPerSecond` modulo 2^32, divided by 1000, so below 4294968 |
| `SysTick.SystemTimer.StartPeriodicTimer` | systick.cpp:91-100 | counting and interrupt on; on a part with the `fullspeed` bit the divider is `rate(clock, persecond)`; on a part without it, `persecond` is first multiplied by 8 and the divider is eight times `rate(clock, 8 * persecond)`, all modulo 2^32 |
| `SysTick.SystemTimer.TicksForMillis` | systick.cpp:117-122 | 0 for any `ms <= 0`, else the ticker's conversion |
| `SysTick.SystemTimer.TicksForMicros` | systick.cpp:124-129 | 0 for any argument `<= 0`, else the ticker's conversion |
| `SysTick.SystemTimer.SnapTime` | systick.cpp:136-138 | the counts since the last reload, `reload - value`, taken modulo 2^32 when `value` exceeds `reload` |
| `SysTick.SnapTickWraps` | systick.cpp:140-152 | the step-by-step `u32` arithmetic equals `(snapms + 1) * (reload + 1) - (value - 6)` modulo 2^32 |
| `SysTick.SystemTimer.SnapTickTime` | systick.cpp:140-152 | returns `((milliTime + 1) * (reload + 1) - value + 6) mod 2^32` and leaves counting enabled |
| `GpioF4.GpioBase` | stm32/gpiof4.h:52-54 | port `n` is at `GPIOBASE + 0x400 * n`: `n` 1 KiB steps above the first port |
| `GpioF4.PortBlocksDisjoint` | stm32/gpiof4.h:52-57 | the register blocks of two different ports do not overlap |
| `GpioF4.Port.constructor` | stm32/gpiof4.h:56-57 | the port named `letter` is slot `letter - 'A'` at `gpiobase(slot)` |
| `GpioF4.Options` | stm32/gpiof4.h:25-27 | slew, puller and alternate function default to slow, floating and 0 |
| `GpioF4.InputOptions` | stm32/gpiof4.h:29-31 | input, slow, the given puller, alternate function 0 |
| `GpioF4.OutputOptions` | stm32/gpiof4.h:33-35 | output, the given slew and puller, alternate function 0 |
| `GpioF4.FunctionOptions` | stm32/gpiof4.h:37-39 | function, the given alternate function, slew and puller |
| `GpioF4.PullCode` | stm32/gpiof4.cpp:58-59 | pull code F→0, D→2, U→1, O→1 |
| `GpioF4.CodesFit` | stm32/gpiof4.cpp:50-59 | the mode, speed and pull codes all fit their 2-bit fields |
| `GpioF4.AfrOffset` | stm32/gpiof4.cpp:61 | pins 0-7 use offset 0x20, pins 8-15 offset 0x24 |
| `GpioF4.AfrNibblesDisjoint` | stm32/gpiof4.cpp:60-61 | two pins sharing an alternate-function register use disjoint nibbles inside the word |
| `GpioF4.Written` | stm32/gpiof4.cpp:47-62 | the configuration writes keep the set of registers and leave the data registers alone |
| `GpioF4.WrittenSetsPin` | stm32/gpiof4.cpp:47-62 | each of the five writes reads back from its field as the value cut to the field's width |
| `GpioF4.WrittenKeepsOtherPins` | stm32/gpiof4.cpp:47-62 | the writes for one pin leave every setting of every other pin unchanged |
| `GpioF4.ConfigureSetsPin` | stm32/gpiof4.cpp:47-62 | after configure, the pin's mode, speed and pull fields hold their codes, its open-drain bit is set iff the puller is O, and its alternate-function nibble holds the code's low 4 bits |
| `GpioF4.ConfigureKeepsOtherPins` | stm32/gpiof4.cpp:47-62 | configuring one pin changes no setting of any other pin |
| `GpioF4.Port.Configure` | stm32/gpiof4.cpp:47-62 | the registers become `Configured(old, bitnum, c)` and the pin's settings are the encoding of `c` |
| `GpioF4.Port.ForAdc` | stm32/gpiof4.cpp:64-71 | analog mode (3), push-pull, slow, floating, alternate function 0 |
| `GpioF4.Port.DigitalInput` | stm32/gpiof4.cpp:73-76 | input mode, slow, the given puller's pull code (pull-down by default, stm32/gpiof4.h:139), open drain iff O |
| `GpioF4.Port.DigitalOutput` | stm32/gpiof4.cpp:84-87 | output mode (1), the given slew and pull codes (slow and pull-down by default, stm32/gpiof4.h:142), open drain iff O |
| `GpioF4.Port.AlternateFunction` | stm32/gpiof4.cpp:79-82 | function mode (2) and the nibble's low 4 bits in the pin's alternate-function field (also `FunctionPin`, stm32/gpiof4.h:172-175) |
| `GpioF4.MaskBits` | stm32/gpiof4.cpp:25-29 | a field's mask holds bits lsb..msb and the same bits 16 places up |
| `GpioF4.BsrrWord` | stm32/gpiof4.cpp:31-34 | the set/reset word sets no bit outside the field's set half and reset half |
| `GpioF4.BsrrWordBits` | stm32/gpiof4.cpp:31-34 | for a value that fits the field, the set/reset word sets bit lsb+i iff value bit i is 1, sets bit 16+lsb+i iff it is 0, and sets nothing outside the field |
| `GpioF4.BsrrNeverSetsAndResets` | stm32/gpiof4.cpp:31-34 | no pin is both set and reset by one word |
| `GpioF4.FieldRoundTrip` | stm32/gpiof4.cpp:31-34 | after the set/reset write, reading the field back gives the value cut to the field's width, and every output bit outside the field keeps its level |
| `GpioF4.FieldValueFits` | stm32/gpiof4.h:87-89 | `(odr & mask) >> lsb` has no bit above the field's width |
| `GpioF4.Port.FieldAssign` | stm32/gpiof4.cpp:31-34 | one set/reset write, after which the field reads back as the value cut to the field's width |
| `GpioF4.Port.FieldRead` | stm32/gpiof4.h:87-89 | bit i of the result is output bit lsb+i, nothing above the field's width |
| `GpioF4.Port.FieldActual` | stm32/gpiof4.cpp:40-44 | bit i of the result is input bit lsb+i, nothing above the field's width |
| `GpioF4.Port.FieldToggle` | stm32/gpiof4.cpp:36-38 | the requested output afterwards is the old one with exactly the 1-bits of `value` flipped |
| `GpioF4.MaskWalk` | stm32/gpiof4.h:77 | the loop as written visits the run of consecutive set mask bits that starts at `abit`, stopping at the first clear bit or at bit 32 |
| `GpioF4.FieldBits` | stm32/gpiof4.h:75-80 | the field's pins lsb, lsb+1, ..., msb in order |
| `GpioF4.WalkVisitsField` | stm32/gpiof4.h:75-80 | for a field narrower than 16 bits, the loop as written visits exactly the field's pins |
| `GpioF4.FullFieldWalkOverruns` | stm32/gpiof4.h:75-80 | for the 16-bit field 0..15 the loop as written visits bits 0..31: 32 "pins" where the field has 16 |
| `GpioF4.ConfiguredAll` | stm32/gpiof4.h:75-80 | configuring a list of pins keeps the set of registers and the data registers |
| `GpioF4.ConfiguredAllSettings` | stm32/gpiof4.h:75-80 | configuring a list of distinct pins gives each of them the encoded settings and leaves every other pin as it was |
| `GpioF4.FieldConfigureEffect` | stm32/gpiof4.h:75-80 | configuring a field gives exactly the pins lsb..msb the encoded settings |
| `GpioF4.Port.ConfigureField` | stm32/gpiof4.h:75-80 | the loop leaves the registers as configuring the pins lsb..msb in turn does |
| `GpioF4.MakePin` | stm32/gpiof4.h:130-133 | a pin reads bit `bitnum` of register 0x10 and writes bit `bitnum` of register 0x14 |
| `GpioF4.Port.PinRead` | stm32/gpiof4.h:152-154 | a pin's raw level is the one-bit field at the pin read from the input data register |
| `GpioF4.Port.PinWrite` | stm32/gpiof4.h:159-162 | sets the pin's output bit to `truth`, no other bit, and returns `truth` |
| `GpioF4.PolarizedInvolution` | stm32/gpiof4.h:186-188 | polarity is its own inverse; active-high passes levels through, active-low inverts them |
| `GpioF4.Port.LogicalValue` | stm32/gpiof4.h:199-201 | a logical pin's value is its raw input level, inverted when low is active |
| `GpioF4.Port.MakeInputPin` | stm32/gpiof4.h:210-212 | configures a digital input with the given puller and keeps the polarity; pull-down and active high by default |
| `GpioF4.InputPuller` | stm32/gpiof4.h:213-216 | the puller is down when high is active and up otherwise |
| `GpioF4.Port.MakeInputPinPulled` | stm32/gpiof4.h:213-216 | the registers become those of configuring the pin as an input pulled toward the inactive level: pull code 2 for active high, 1 for active low |
| `GpioF4.Port.MakeOutputPin` | stm32/gpiof4.h:227-230 | a digital output, open drain with pull up or push-pull floating |
| `GpioF4.Port.OutputAssign` | stm32/gpiof4.h:233-236 | writes the polarized level to the pin and returns `truth` unchanged |
| `GpioF4.Port.OutputChanged` | stm32/gpiof4.h:238-246 | writes iff the pin's read level differs from the polarized request, and returns whether it wrote; otherwise nothing changes |
| `GpioF4.ChangedTwiceWritesOnce` | stm32/gpiof4.h:238-246 | on a port whose input follows its output, `changed` writes only if the pin read another level, and an immediate second `changed` with the same request writes nothing and returns false |
| `GpioF4.Port.OutputToggle` | stm32/gpiof4.cpp:91-93 | drives the inverse of the pin's raw read level, whatever the polarity |
| `Lpc.Apb0Device` | lpc/lpcperipheral.h:8-11 | unit `n` below 0x30000 is at `0x40000000 + n * 0x4000` |
| `Lpc.DeviceWraps` | lpc/lpcperipheral.h:9-11 | unit 0x30000 wraps round to address 0 |
| `Lpc.MakeSfr` | lpc/lpcperipheral.h:13-16 | an offset below 0x4000 stays inside its unit's 16 KiB block |
| `Lpc.BlocksDisjoint` | lpc/lpcperipheral.h:8-16 | registers of two different units never share an address |
| `Lpc.SysConBase` | lpc/lpcperipheral.h:18-21 | SYSCON registers are at `0x40048000 + offset` |
| `Lpc.IoConReg` | lpc/lpcperipheral.h:37-40 | IOCON registers are at `0x40044000 + offset` |
| `Lpc.SysConIoConApart` | lpc/lpcperipheral.h:18-40 | no SYSCON register shares an address with an IOCON register |
| `Lpc.SysConRegistersDistinct` | lpc/lpcperipheral.h:29-57 | the power-down, clock-control and reset registers are 0x40048238, 0x40048080 and 0x40048004 |
| `Lpc.SysCon.PowerUp` | lpc/lpcperipheral.h:29-31 | clears bit `which` of the power-down register and changes nothing else |
| `Lpc.SysCon.PowerDown` | lpc/lpcperipheral.h:33-35 | sets bit `which` of the power-down register and changes nothing else |
| `Lpc.SysCon.PowerCycle` | lpc/lpcperipheral.h:29-35 | powering a running unit down and up again restores the registers |
| `Lpc.SysCon.EnableClock` | lpc/lpcperipheral.h:42-45 | sets bit `bit` of the clock-control register and changes nothing else |
| `Lpc.SysCon.DisableClock` | lpc/lpcperipheral.h:47-50 | clears bit `bit` of the clock-control register and changes nothing else |
| `Lpc.SysCon.ClockEnable` | lpc/lpcperipheral.h:52 | the one-bit view writes the same register as `enableClock`/`disableClock` |
| `Lpc.SysCon.Reset` | lpc/lpcperipheral.h:54-57 | raises bit `bit` of the reset-control register and changes nothing else |
| `Afio.EventRegister` | stm32/afio.cpp:21 | for pins 0..15 the register offset is `8 + 4 * (pin / 4)` |
| `Afio.EventShift` | stm32/afio.cpp:23 | the field position is one of 0, 4, 8, 12 |
| `Afio.EventCode` | stm32/afio.cpp:22 | the code is the port's slot minus 2 |
| `Afio.PortACode` | stm32/afio.cpp:22 | port A (slot 2) gives code 0 |
| `Afio.EventPlacement` | stm32/afio.cpp:21-23 | pins 0-3 → register 8, 4-7 → 12, 8-11 → 16, 12-15 → 20, each at 4 × (pin mod 4) |
| `Afio.EventFieldsDistinct` | stm32/afio.cpp:21-23 | different pins 0..15 own different (register, field) pairs |
| `Afio.AfioManager.SelectEvent` | stm32/afio.cpp:19-24 | merges the port code into the pin's 4-bit field of its register, which then reads back as the code's low 4 bits |
| `Afio.SelectionKeepsOthers` | stm32/afio.cpp:23 | the merge leaves the field of every other pin in that register unchanged |
| `Afio.SelectionReadBack` | stm32/afio.cpp:22-23 | for slots 2..17 the field reads back as exactly `slot - 2` |
| `Bits.FieldMaskBits` | stm32/gpiof4.cpp:27 | `fieldMask(msb, lsb)` sets exactly bits lsb..msb |
| `Bits.MergeReadBack` | stm32/afio.cpp:23 | a merged field reads back as the value cut to the field's width |
| `Bits.MergeKeepsOthers` | stm32/afio.cpp:23 | a merge changes no bit outside its field |
| `Bits.MergeLeavesField` | stm32/gpiof4.cpp:50-61 | merging into one field leaves any field that does not overlap it unchanged |
| `Bits.SetBitEffect` | lpc/lpcperipheral.h:33-35 | `setBit` makes the bit 1 and changes no other |
| `Bits.ClearBitEffect` | lpc/lpcperipheral.h:29-31 | `clearBit` makes the bit 0 and changes no other |
| `Bits.SetClearRoundTrip` | lpc/lpcperipheral.h:29-35 | clearing undoes setting a clear bit, and setting undoes clearing a set one |
| `Bits.ValueAppend` | systick.cpp:156 | bits placed above others add their value times 2^(width below) |
| `Bits.WordValue` | systick.cpp:156 | a word made from a number reads back as that number modulo 2^32 |

## Left out

- I/O timing and concurrency:
  - Real interrupt preemption and interleaving of the fifo's producer and consumer.
  - Word-level atomicity, `volatile` re-reads.
  - The Busy guard is a plain flag, and nested execution is one scenario (`InsertPreempted`).
- FIFO bodies: fifo.cpp is not part of this model. Clear, wipe, insert, remove,
  stuff and boundsError follow the header's comments.
  - `FifoQueue.Fifo.Wipe` takes the fill byte as a parameter, since the value
    the source writes is not shown.
  - `FifoQueue.Fifo.BoundsError` reports on indices, which cannot lie below the
    memory, so its -1 outcome is stated by `Locate` only.
- Floating point: `ticksForHertz`, `secondsForTicks`, `secondsForLongTime`,
  `ticksForSeconds`, the `bitsPerSecond() > 460e3` slew choice, and all of
  fpu.cpp.
- Unseen helpers:
  - `rate`, `clockRate` and `getClockRate` are parameters, and so is `bitsPerSecond`'s divisor.
  - `field`, `bit`, `fieldMask`, `mergeBits`, `setBit`, `clearBit`, `raiseBit`
    and `registerAddress` are modelled by their names and call sites. `raiseBit`
    is taken to set the bit, as `setBit` does.
- Peripheral start-up:
  - `Uart::takePins`, `init` and `reconfigure`.
  - `APBdevice::init`, `irq.enable`, and `beEnabled` (the clock enable at the
    start of `Port::configure`).
- `Uart.Uart.SetParams`: the `UartBand` fields are taken to store C truthiness
  (any non-zero value is 1). Their declarations and the bit-band alias widths
  are not part of this model.
- Interrupts and callbacks: the tick handler's `ForRefs(SystemTicker)` callback
  table, and the clear-on-read behaviour of `rolledOver`.
  - `SysTick.SysTicker.Start` returns the flag but does not clear it.
  - `reload` is a full `u32`, not the 24 bits the hardware implements.
- `SysTick.SystemTimer.StartPeriodicTimer`: whether the part implements the
  `fullspeed` bit (systick.cpp:35) is a constant of each ticker, `hasFullspeed`.
  A part that implements the bit reads back what was written. One that lacks it
  always reads 0, and so takes the times-8 branch (systick.cpp:95-97). Nothing
  in between is modelled.
- `Uart.Uart.SetBaudrate`: `brr` is a full `u32`, but BRR is a 16-bit register
  (stm32/uart.cpp:18). A divisor of 2^16 or more would be truncated on write.
  The next call would then read back a different value and write again. So the
  promise that a repeat changes nothing holds in the source only for divisors
  below 2^16.
- Negative-offset register reads: `OutputPin::actual` (stm32/gpiof4.h:248-250)
  and `Field::actual`'s `(&odr)[-2]` (stm32/gpiof4.cpp:41).
  - `GpioF4.Port.FieldActual` reads the input data register, as the comment there
    intends. The pointer arithmetic itself is not modelled.
  - `OutputPin::actual` is not modelled.
- Static initialisation: the `InitStep`/`DefinePort` macros and the port objects
  `PA`..`PJ`.
- `utility.h`: declarations only, nothing to verify.
- The F1 GPIO header `stm32/gpio.h`, whose polarity has the opposite sense, is
  not part of this model.
- `GpioF4.Port.Configure` states the pin's own new settings. The fact that other
  pins keep theirs is the separate lemma `GpioF4.ConfigureKeepsOtherPins` over
  `Configured`, which the method's registers equal.
- `GpioF4.Port.ConfigureField` states the registers after the loop. What that
  means for each pin is `GpioF4.FieldConfigureEffect`.
- `Uart.Uart.TicksForChars` and the SysTick conversions wrap modulo 2^32 as the
  C++ does. Their bounds without overflow are stated only for `TicksForChars`.

## Findings

| source | as written | input that shows it | evidently intended | confidence | as-written member | corrected member |
|---|---|---|---|---|---|---|
| stm32/gpiof4.h:75-80 with stm32/gpiof4.cpp:27 | `Field::configure` loops while `mask & (1u << abit)`, and the mask is the field's bits OR the same bits shifted up 16 | a full-port field `Field(port, 0, 15)`: the mask is all ones, so the loop configures "pins" 16..31 and then evaluates `1u << 32` | configure exactly the pins lsb..msb | not executed | `GpioF4.FullFieldWalkOverruns` | `GpioF4.Port.ConfigureField` |

The as-written loop is `GpioF4.MaskWalk`. `GpioF4.WalkVisitsField` shows that
it is right for every field narrower than 16 bits. The corrected
`GpioF4.Port.ConfigureField` loops from lsb to msb, and
`GpioF4.FieldConfigureEffect` proves that it configures exactly the field's
pins.
