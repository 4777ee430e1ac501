/** A 32-bit register word as its 32 bits, bit 0 first, with the C bit
    operators on it and the meaning the bit helpers the peripheral wrappers
    call (fieldMask, mergeBits, setBit, clearBit, raiseBit) take from their
    names and call sites. Each operator is defined bit by bit; what the
    helpers do to a word is stated by the lemmas beside them. */
module Bits {

  function Pow2(n: nat): (r: nat)
    ensures r >= 1
  {
    if n == 0 then 1 else 2 * Pow2(n - 1)
  }

  /** a register word: bit i is `w[i]` */
  type Word = w: seq<bool> | |w| == 32 witness Zero()

  /** the all-zero word */
  function Zero(): (r: seq<bool>)
    ensures |r| == 32 && forall i :: 0 <= i < 32 ==> !r[i]
  {
    seq(32, i => false)
  }

  /** the word holding `n` modulo 2^32, as an `unsigned` assignment stores it */
  function WordOf(n: nat): (r: Word)
    ensures forall i :: 0 <= i < 32 ==> r[i] == ((n / Pow2(i)) % 2 == 1)
  {
    seq(32, i requires 0 <= i < 32 => (n / Pow2(i)) % 2 == 1)
  }

  /** the unsigned number a sequence of bits, lowest first, stands for */
  function Value(bits: seq<bool>): nat
  {
    if |bits| == 0 then 0
    else Value(bits[..|bits| - 1]) + (if bits[|bits| - 1] then Pow2(|bits| - 1) else 0)
  }

  /** `a & b` */
  function And(a: Word, b: Word): (r: Word)
    ensures forall i :: 0 <= i < 32 ==> r[i] == (a[i] && b[i])
  {
    seq(32, i requires 0 <= i < 32 => a[i] && b[i])
  }

  /** `a | b` */
  function Or(a: Word, b: Word): (r: Word)
    ensures forall i :: 0 <= i < 32 ==> r[i] == (a[i] || b[i])
  {
    seq(32, i requires 0 <= i < 32 => a[i] || b[i])
  }

  /** `a ^ b` */
  function Xor(a: Word, b: Word): (r: Word)
    ensures forall i :: 0 <= i < 32 ==> r[i] == (a[i] != b[i])
  {
    seq(32, i requires 0 <= i < 32 => a[i] != b[i])
  }

  /** `~a` */
  function Not(a: Word): (r: Word)
    ensures forall i :: 0 <= i < 32 ==> r[i] == !a[i]
  {
    seq(32, i requires 0 <= i < 32 => !a[i])
  }

  /** `a << s`: bits shifted out at the top are lost, zeros come in at the bottom */
  function Shl(a: Word, s: nat): (r: Word)
    ensures forall i :: 0 <= i < 32 ==> r[i] == (s <= i && a[i - s])
  {
    seq(32, i requires 0 <= i < 32 => s <= i && a[i - s])
  }

  /** `a >> s` on an unsigned word: zeros come in at the top */
  function Shr(a: Word, s: nat): (r: Word)
    ensures forall i :: 0 <= i < 32 ==> r[i] == (i + s < 32 && a[i + s])
  {
    seq(32, i requires 0 <= i < 32 => i + s < 32 && a[i + s])
  }

  /** the `width` low bits set: `(1 << width) - 1` */
  function LowMask(width: nat): (r: Word)
    ensures forall i :: 0 <= i < 32 ==> r[i] == (i < width)
  {
    seq(32, i requires 0 <= i < 32 => i < width)
  }

  /** fieldMask: bits lsb through msb set */
  function FieldMask(msb: nat, lsb: nat): Word
    requires lsb <= msb < 32
  {
    Shl(LowMask(msb - lsb + 1), lsb)
  }

  /** the `width`-bit field of `w` at bit `pos`, moved down to bit 0 */
  function FieldOf(w: Word, pos: nat, width: nat): Word
    requires pos + width <= 32
  {
    And(Shr(w, pos), LowMask(width))
  }

  /** mergeBits: `value`, cut to `width` bits, written into the field of `w` at `pos` */
  function Merge(w: Word, value: Word, pos: nat, width: nat): Word
    requires pos + width <= 32
  {
    Or(And(w, Not(Shl(LowMask(width), pos))), Shl(And(value, LowMask(width)), pos))
  }

  /** no bit at or above `width` is set */
  predicate Fits(value: Word, width: nat)
  {
    forall i :: width <= i < 32 ==> !value[i]
  }

  /** fieldMask sets exactly the bits lsb..msb */
  lemma FieldMaskBits(msb: nat, lsb: nat)
    requires lsb <= msb < 32
    ensures forall i :: 0 <= i < 32 ==> FieldMask(msb, lsb)[i] == (lsb <= i <= msb)
  {
  }

  /** the merged field reads back as the value cut to the field's width */
  lemma MergeReadBack(w: Word, value: Word, pos: nat, width: nat)
    requires pos + width <= 32
    ensures FieldOf(Merge(w, value, pos, width), pos, width) == And(value, LowMask(width))
  {
  }

  /** no bit outside the field changes */
  lemma MergeKeepsOthers(w: Word, value: Word, pos: nat, width: nat)
    requires pos + width <= 32
    ensures forall i :: 0 <= i < 32 && !(pos <= i < pos + width) ==> Merge(w, value, pos, width)[i] == w[i]
  {
  }

  /** merging into one field leaves a field that does not overlap it as it was */
  lemma MergeLeavesField(w: Word, value: Word, pos: nat, width: nat, pos2: nat, width2: nat)
    requires pos + width <= 32 && pos2 + width2 <= 32
    requires pos + width <= pos2 || pos2 + width2 <= pos
    ensures FieldOf(Merge(w, value, pos, width), pos2, width2) == FieldOf(w, pos2, width2)
  {
  }

  /** `1 << b` */
  function Single(b: nat): Word
    requires b < 32
  {
    Shl(LowMask(1), b)
  }

  /** setBit (and raiseBit): `w | (1 << b)` */
  function SetBit(w: Word, b: nat): Word
    requires b < 32
  {
    Or(w, Single(b))
  }

  /** clearBit: `w & ~(1 << b)` */
  function ClearBit(w: Word, b: nat): Word
    requires b < 32
  {
    And(w, Not(Single(b)))
  }

  /** a one-bit field write: `SetBit` or `ClearBit` as `on` says */
  function WriteBit(w: Word, b: nat, on: bool): Word
    requires b < 32
  {
    if on then SetBit(w, b) else ClearBit(w, b)
  }

  /** setting bit `b` makes it 1 and changes no other bit */
  lemma SetBitEffect(w: Word, b: nat)
    requires b < 32
    ensures SetBit(w, b) == w[b := true]
  {
  }

  /** clearing bit `b` makes it 0 and changes no other bit */
  lemma ClearBitEffect(w: Word, b: nat)
    requires b < 32
    ensures ClearBit(w, b) == w[b := false]
  {
  }

  /** a one-bit write leaves the bit equal to `on` and changes no other bit */
  lemma WriteBitEffect(w: Word, b: nat, on: bool)
    requires b < 32
    ensures WriteBit(w, b, on) == w[b := on]
  {
    if on {
      SetBitEffect(w, b);
    } else {
      ClearBitEffect(w, b);
    }
  }

  /** clearing a bit undoes setting it when it was clear, and setting undoes clearing when it was set */
  lemma SetClearRoundTrip(w: Word, b: nat)
    requires b < 32
    ensures !w[b] ==> ClearBit(SetBit(w, b), b) == w
    ensures w[b] ==> SetBit(ClearBit(w, b), b) == w
  {
    SetBitEffect(w, b);
    ClearBitEffect(SetBit(w, b), b);
    ClearBitEffect(w, b);
    SetBitEffect(ClearBit(w, b), b);
  }

  /** 2^n grows with n */
  lemma {:induction false} Pow2Grows(m: nat, n: nat)
    requires m <= n
    ensures Pow2(m) <= Pow2(n)
    decreases n
  {
    if m < n {
      Pow2Grows(m, n - 1);
    }
  }

  /** a number below 2^width has no bit set at or above `width` */
  lemma WordOfFits(n: nat, width: nat)
    requires n < Pow2(width)
    ensures Fits(WordOf(n), width)
  {
    forall i | width <= i < 32
      ensures !WordOf(n)[i]
    {
      Pow2Grows(width, i);
      DivModUnique(n, Pow2(i), 0, n);
    }
  }

  /** cutting a value that fits to its width changes nothing */
  lemma CutFitting(value: Word, width: nat)
    requires Fits(value, width)
    ensures And(value, LowMask(width)) == value
  {
  }

  /** the low `k` bits of the word for `n` count up to `n` modulo 2^k */
  lemma {:induction false} ValueOfWord(n: nat, k: nat)
    requires k <= 32
    ensures Value(WordOf(n)[..k]) == n % Pow2(k)
  {
    if k > 0 {
      ValueOfWord(n, k - 1);
      assert WordOf(n)[..k][..k - 1] == WordOf(n)[..k - 1];
      ModStep(n, Pow2(k - 1));
    }
  }

  /** a word reads back the number it was made from, modulo 2^32 */
  lemma WordValue(n: nat)
    ensures Value(WordOf(n)) == n % 0x1_0000_0000
  {
    ValueOfWord(n, 32);
    assert WordOf(n)[..32] == WordOf(n);
    Pow2Of32();
  }

  lemma Pow2Of32()
    ensures Pow2(32) == 0x1_0000_0000
  {
    assert Pow2(4) == 16;
    Pow2Add(4, 4);
    Pow2Add(8, 8);
    Pow2Add(16, 16);
  }

  /** 2^(a+b) is 2^a times 2^b */
  lemma {:induction false} Pow2Add(a: nat, b: nat)
    ensures Pow2(a + b) == Pow2(a) * Pow2(b)
    decreases b
  {
    if b > 0 {
      Pow2Add(a, b - 1);
    }
  }

  /** placing bits `b` above bits `a` adds their value scaled by 2^|a| */
  lemma {:induction false} ValueAppend(a: seq<bool>, b: seq<bool>)
    ensures Value(a + b) == Value(a) + Pow2(|a|) * Value(b)
    decreases |b|
  {
    if |b| == 0 {
      assert a + b == a;
    } else {
      var b' := b[..|b| - 1];
      assert (a + b)[..|a + b| - 1] == a + b';
      ValueAppend(a, b');
      Pow2Add(|a|, |b| - 1);
      var p := Pow2(|a|);
      var top := if b[|b| - 1] then Pow2(|b| - 1) else 0;
      assert Value(b) == Value(b') + top;
      assert (a + b)[|a + b| - 1] == b[|b| - 1];
      assert Value(a + b) == Value(a + b') + p * top;
      Distribute(p, Value(b'), top);
    }
  }

  lemma Distribute(p: nat, x: nat, y: nat)
    ensures p * x + p * y == p * (x + y)
  {
  }

  /** n mod 2m is n mod m plus m when bit (n / m) mod 2 is set */
  lemma ModStep(n: nat, m: nat)
    requires m >= 1
    ensures n % (2 * m) == n % m + (if (n / m) % 2 == 1 then m else 0)
  {
    var q := n / m;
    var r := n % m;
    assert n == q * m + r;
    var h := q / 2;
    var b := q % 2;
    assert q == 2 * h + b;
    assert n == h * (2 * m) + (b * m + r) by {
      assert q * m == (2 * h + b) * m == h * (2 * m) + b * m;
    }
    assert 0 <= b * m + r < 2 * m;
    DivModUnique(n, 2 * m, h, b * m + r);
  }

  /** the quotient and remainder of a division are the only such pair */
  lemma DivModUnique(n: nat, d: nat, q: nat, r: nat)
    requires d >= 1 && r < d && n == q * d + r
    ensures n % d == r && n / d == q
  {
    var q' := n / d;
    if q' < q {
      MulMono(q' + 1, q, d);
      assert false;
    } else if q < q' {
      MulMono(q + 1, q', d);
      assert false;
    }
  }

  lemma MulMono(a: nat, b: nat, d: nat)
    requires a <= b
    ensures a * d <= b * d
  {
  }
}
