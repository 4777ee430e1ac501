/** The SysTick down-counter (section B3.3, "The system timer, SysTick", of the
    ARMv7-M Architecture Reference Manual) as systick.cpp drives it: the
    register block, the 64-bit tick count that the SysTick exception handler
    keeps in two 32-bit words, and the conversions between time and ticks.
    `u32` arithmetic wraps modulo 2^32; the clock frequency (`clockRate`) and
    the divider (`rate`) are parameters. */
module SysTick {
  import opened Unsigned
  import opened Bits

  /** a C `int` */
  type I32 = x: int | -0x8000_0000 <= x < 0x8000_0000

  /** the 64-bit count the two words stand for */
  function Combined(milli: U32, macro: U32): nat
  {
    macro * TwoTo32 + milli
  }

  /** what one SysTick exception does to (milliTime, macroTime) */
  function Tick(milli: U32, macro: U32): (r: (U32, U32))
  {
    var m := Wrap32(milli + 1);
    (m, if m == 0 then Wrap32(macro + 1) else macro)
  }

  /** each tick adds exactly one to the 64-bit count, modulo 2^64 */
  lemma TickCounts(milli: U32, macro: U32)
    ensures Combined(Tick(milli, macro).0, Tick(milli, macro).1) == (Combined(milli, macro) + 1) % TwoTo64
  {
    if milli + 1 == TwoTo32 {
      assert Tick(milli, macro).0 == 0;
      if macro + 1 == TwoTo32 {
        assert Combined(milli, macro) + 1 == TwoTo64;
      }
    }
  }

  /** the words after `n` ticks */
  function Ticks(milli: U32, macro: U32, n: nat): (U32, U32)
    decreases n
  {
    if n == 0 then (milli, macro)
    else
      var s := Ticks(milli, macro, n - 1);
      Tick(s.0, s.1)
  }

  /** `n` ticks add `n` to the 64-bit count, modulo 2^64 */
  lemma {:induction false} TicksCount(milli: U32, macro: U32, n: nat)
    ensures Combined(Ticks(milli, macro, n).0, Ticks(milli, macro, n).1) == (Combined(milli, macro) + n) % TwoTo64
    decreases n
  {
    if n > 0 {
      var s := Ticks(milli, macro, n - 1);
      var t := Tick(s.0, s.1);
      assert Ticks(milli, macro, n) == t;
      var c := Combined(milli, macro) + n - 1;
      TicksCount(milli, macro, n - 1);
      assert Combined(s.0, s.1) == c % TwoTo64;
      TickCounts(s.0, s.1);
      assert Combined(t.0, t.1) == (c % TwoTo64 + 1) % TwoTo64;
      ModIncrement(c);
    }
  }

  lemma ModIncrement(c: int)
    ensures (c % TwoTo64 + 1) % TwoTo64 == (c + 1) % TwoTo64
  {
  }

  /** `u64(x)`: a word zero-extended to 64 bits, lowest bit first */
  function Widen(w: Word): (r: seq<bool>)
    ensures |r| == 64
  {
    w + Zero()
  }

  /** `<<` on a 64-bit value */
  function Shl64(v: seq<bool>, s: nat): (r: seq<bool>)
    requires |v| == 64
    ensures |r| == 64 && forall i :: 0 <= i < 64 ==> r[i] == (s <= i && v[i - s])
  {
    seq(64, i requires 0 <= i < 64 => s <= i && v[i - s])
  }

  /** `|` on 64-bit values */
  function Or64(a: seq<bool>, b: seq<bool>): (r: seq<bool>)
    requires |a| == 64 && |b| == 64
    ensures |r| == 64 && forall i :: 0 <= i < 64 ==> r[i] == (a[i] || b[i])
  {
    seq(64, i requires 0 <= i < 64 => a[i] || b[i])
  }

  /** the bits of `milliTime | (u64(macroTime) << 32)` */
  function LongTimeBits(milli: U32, macro: U32): seq<bool>
  {
    Or64(Widen(WordOf(milli)), Shl64(Widen(WordOf(macro)), 32))
  }

  /** the or of the two words is the 64-bit count: macroTime * 2^32 + milliTime */
  lemma LongTimeValue(milli: U32, macro: U32)
    ensures Value(LongTimeBits(milli, macro)) == Combined(milli, macro)
  {
    var lo, hi := WordOf(milli), WordOf(macro);
    LongTimeConcat(lo, hi);
    WordValue(milli);
    WordValue(macro);
    assert Value(lo) == milli && Value(hi) == macro;
    ValueAppend(lo, hi);
    Pow2Of32();
    assert Pow2(|lo|) == TwoTo32;
  }

  /** or-ing the widened low word with the widened high word shifted up by 32
      places the high word's bits right above the low word's */
  lemma LongTimeConcat(lo: Word, hi: Word)
    ensures Or64(Widen(lo), Shl64(Widen(hi), 32)) == lo + hi
  {
    var r := Or64(Widen(lo), Shl64(Widen(hi), 32));
    forall i | 0 <= i < 64
      ensures r[i] == (lo + hi)[i]
    {
      if i < 32 {
        assert Widen(lo)[i] == lo[i];
        assert Shl64(Widen(hi), 32)[i] == false;
      } else {
        assert Widen(lo)[i] == false;
        assert Widen(hi)[i - 32] == hi[i - 32];
      }
    }
  }

  /** the SysTick register block */
  class SysTicker {
    var enableCounting: bool
    var enableInterrupt: bool
    /** true: the processor clock; false: that clock divided by 8 */
    var fullspeed: bool
    /** whether the part implements the `fullspeed` bit; where it does not, the
        bit reads back as 0 whatever is written to it */
    const hasFullspeed: bool
    var rolledOver: bool
    /** the value the counter restarts from; a cycle is reload + 1 counts */
    var reload: U32
    /** the current count, counting down */
    var value: U32

    constructor(hasFullspeed: bool)
      ensures this.hasFullspeed == hasFullspeed
    {
      this.hasFullspeed := hasFullspeed;
    }

    /** start counting with a period of `reloader` counts, with the interrupt on */
    method Start(reloader: U32) returns (hack: bool)
      modifies this`enableInterrupt, this`enableCounting, this`fullspeed, this`reload
      ensures reload == Wrap32(reloader - 1)
      ensures fullspeed == hasFullspeed && enableCounting && enableInterrupt
      ensures hasFullspeed ==> Divider() == reloader
      ensures !hasFullspeed ==> Divider() == Wrap32(reloader * 8)
      ensures hack == rolledOver
    {
      enableInterrupt := false;
      enableCounting := false;
      // writing 1 to the bit; it reads back as 0 where the part lacks it
      fullspeed := hasFullspeed;
      reload := Wrap32(reloader - 1);
      hack := rolledOver;
      enableCounting := true;
      enableInterrupt := true;
      ReloadRoundTrip(reloader);
      WrapMul(reload + 1, 8);
    }

    /** the number of processor clocks per tick, as a `u32` */
    function Divider(): (r: U32)
      reads this
      ensures fullspeed ==> r == (reload + 1) % TwoTo32
      ensures !fullspeed ==> r == ((reload + 1) * 8) % TwoTo32
    {
      var effective := Wrap32(reload + 1);
      if !fullspeed then
        WrapMul(reload + 1, 8);
        Wrap32(effective * 8)
      else effective
    }

    /** ticks per second for a processor clock of `clock` Hz */
    function TicksPerSecond(clock: U32, rate: (U32, U32) -> U32): (r: U32)
      reads this
      ensures fullspeed ==> r == rate(clock, (reload + 1) % TwoTo32)
      ensures !fullspeed ==> r == rate(clock, ((reload + 1) * 8) % TwoTo32)
    {
      rate(clock, Divider())
    }

    /** the ticks in `us` microseconds: `us * ticksPerSecond() / 1000000` in `u32` */
    function TicksForMicros(us: U32, clock: U32, rate: (U32, U32) -> U32): (r: U32)
      reads this
      ensures r == (us * TicksPerSecond(clock, rate)) % TwoTo32 / 1000000
      ensures r < 4295
    {
      WrapMul(us, TicksPerSecond(clock, rate));
      Wrap32(us * TicksPerSecond(clock, rate)) / 1000000
    }

    /** the ticks in `ms` milliseconds: `ms * ticksPerSecond() / 1000` in `u32` */
    function TicksForMillis(ms: U32, clock: U32, rate: (U32, U32) -> U32): (r: U32)
      reads this
      ensures r == (ms * TicksPerSecond(clock, rate)) % TwoTo32 / 1000
      ensures r < 4294968
    {
      WrapMul(ms, TicksPerSecond(clock, rate));
      Wrap32(ms * TicksPerSecond(clock, rate)) / 1000
    }
  }

  /** storing `r - 1` and adding the one back gives `r` for every `u32`, zero included */
  lemma ReloadRoundTrip(r: U32)
    ensures Wrap32(Wrap32(r - 1) + 1) == r
  {
    WrapAdd(r - 1, 1);
  }

  /** a ticker started with `reloader` at full speed ticks `rate(clock, reloader)`
      times a second */
  lemma TicksPerSecondAfterStart(t: SysTicker, reloader: U32, clock: U32, rate: (U32, U32) -> U32)
    requires t.fullspeed && t.reload == Wrap32(reloader - 1)
    ensures t.TicksPerSecond(clock, rate) == rate(clock, reloader)
  {
    ReloadRoundTrip(reloader);
  }

  /** wrapping each step of the snapshot arithmetic to 32 bits gives the exact
      value modulo 2^32 */
  lemma SnapTickWraps(snapms: int, reload: int, value: int)
    ensures Wrap32(Wrap32(Wrap32(snapms + 1) * Wrap32(reload + 1)) - Wrap32(value - 6))
         == ((snapms + 1) * (reload + 1) - value + 6) % TwoTo32
  {
    var product := (snapms + 1) * (reload + 1);
    WrapMul(snapms + 1, reload + 1);
    var tick: int := Wrap32(value - 6);
    WrapAdd(product, -tick);
    WrapSub(product, value - 6);
  }

  /** the tick count and the timer the tick handler and the snapshots read */
  class SystemTimer {
    const ticker: SysTicker
    var milliTime: U32
    var macroTime: U32

    constructor(ticker: SysTicker)
      ensures this.ticker == ticker
      ensures milliTime == 0 && macroTime == 0
    {
      this.ticker := ticker;
      milliTime := 0;
      macroTime := 0;
    }

    /** the SysTick exception: count one tick, carrying into macroTime on wrap */
    method HandleTick()
      modifies this
      ensures (milliTime, macroTime) == Tick(old(milliTime), old(macroTime))
      ensures Combined(milliTime, macroTime) == (old(Combined(milliTime, macroTime)) + 1) % TwoTo64
    {
      milliTime := Wrap32(milliTime + 1);
      if milliTime == 0 {
        macroTime := Wrap32(macroTime + 1);
      }
      TickCounts(old(milliTime), old(macroTime));
    }

    /** start ticking `persecond` times a second */
    method StartPeriodicTimer(persecond: U32, clock: U32, rate: (U32, U32) -> U32)
      modifies ticker
      ensures ticker.fullspeed == ticker.hasFullspeed && ticker.enableCounting && ticker.enableInterrupt
      ensures ticker.hasFullspeed ==> ticker.Divider() == rate(clock, persecond)
      ensures !ticker.hasFullspeed ==> ticker.Divider() == Wrap32(rate(clock, Wrap32(persecond * 8)) * 8)
      ensures ticker.value == old(ticker.value) && ticker.rolledOver == old(ticker.rolledOver)
    {
      ticker.fullspeed := ticker.hasFullspeed;
      var persec := persecond;
      if !ticker.fullspeed {
        // a divided clock: ask for eight times the rate
        persec := Wrap32(persecond * 8);
      }
      var hack := ticker.Start(rate(clock, persec));
    }

    /** milliseconds to ticks, where no time or a negative time is no ticks */
    function TicksForMillis(ms: I32, clock: U32, rate: (U32, U32) -> U32): (r: U32)
      reads this, ticker
      ensures ms <= 0 ==> r == 0
      ensures ms > 0 ==> r == (ms * ticker.TicksPerSecond(clock, rate)) % TwoTo32 / 1000
    {
      if ms <= 0 then 0 else ticker.TicksForMillis(ms, clock, rate)
    }

    /** microseconds to ticks, where no time or a negative time is no ticks */
    function TicksForMicros(us: I32, clock: U32, rate: (U32, U32) -> U32): (r: U32)
      reads this, ticker
      ensures us <= 0 ==> r == 0
      ensures us > 0 ==> r == (us * ticker.TicksPerSecond(clock, rate)) % TwoTo32 / 1000000
    {
      if us <= 0 then 0 else ticker.TicksForMicros(us, clock, rate)
    }

    /** counts since the last reload of the down-counter */
    function SnapTime(): (r: U32)
      reads this, ticker
      ensures ticker.value <= ticker.reload ==> r == ticker.reload - ticker.value
      ensures ticker.value > ticker.reload ==> r == TwoTo32 + ticker.reload - ticker.value
    {
      Wrap32(ticker.reload - ticker.value)
    }

    /** a timestamp in processor clocks: the next millisecond tick's clock count
        less what remains of the current one, corrected by the 6 clocks spent
        with counting stopped */
    method SnapTickTime() returns (r: U32)
      modifies ticker`enableCounting
      ensures ticker.enableCounting
      ensures r == ((milliTime + 1) * (ticker.reload + 1) - ticker.value + 6) % TwoTo32
    {
      ticker.enableCounting := false;
      var snapms: int := milliTime;
      var snaptick: int := ticker.value;
      ticker.enableCounting := true;
      snaptick := Wrap32(snaptick - 6);
      r := Wrap32(Wrap32(Wrap32(snapms + 1) * Wrap32(ticker.reload + 1)) - snaptick);
      SnapTickWraps(snapms, ticker.reload, ticker.value);
    }

    /** the 64-bit tick count, read with counting stopped */
    method SnapLongTime() returns (r: nat)
      modifies ticker`enableCounting
      ensures ticker.enableCounting
      ensures r == Combined(milliTime, macroTime) && r < TwoTo64
    {
      ticker.enableCounting := false;
      r := Value(LongTimeBits(milliTime, macroTime));
      ticker.enableCounting := true;
      LongTimeValue(milliTime, macroTime);
    }
  }
}
