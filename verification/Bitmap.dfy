/** The exercise module's bitmap: every value's binary expansion, or-ed into one word. */
module Bitmap {
  import opened Quotients

  const SHOWN := 10
  const WORD_BITS := 64

  // Is bit b set in the binary expansion of a positive value?
  predicate HasBit(value: int, b: nat) {
    value > 0 && value / Pow2(b) % 2 == 1
  }

  predicate AnyHasBit(values: seq<int>, b: nat) {
    exists i | 0 <= i < |values| :: HasBit(values[i], b)
  }

  lemma {:induction false} PowLimit(value: nat, b: nat)
    requires value < Pow2(b)
    ensures forall c | c >= b :: value / Pow2(c) == 0
  {
    forall c | c >= b
      ensures value / Pow2(c) == 0
    {
      PowGrows(b, c);
      QuotientIs(value, 0, Pow2(c));
    }
  }

  /** Halving the value until nothing is left sets bit by bit its binary expansion, none of it
      past bit 30. */
  method SetBits(value: int, bitmap: array<bool>)
    requires value < Pow2(31) && bitmap.Length == WORD_BITS
    modifies bitmap
    ensures forall b | 0 <= b < WORD_BITS :: bitmap[b] == (old(bitmap[b]) || HasBit(value, b))
    ensures forall b | 31 <= b < WORD_BITS :: bitmap[b] == old(bitmap[b])
  {
    var number, bit := value, 0;
    if value > 0 {
      assert value / Pow2(0) == value;
      PowLimit(value, 31);
    }
    while number > 0
      invariant 0 <= bit <= 31
      invariant value > 0 ==> number == value / Pow2(bit)
      invariant value <= 0 ==> number == value && bit == 0
      invariant forall b | 0 <= b < WORD_BITS :: bitmap[b] == (old(bitmap[b]) || (b < bit && HasBit(value, b)))
      decreases number
    {
      HalfQuotient(value, Pow2(bit));
      if number % 2 == 1 {
        bitmap[bit] := true;
      }
      bit := bit + 1;
      number := number / 2;
    }
    if value > 0 {
      forall b | bit <= b < WORD_BITS
        ensures !HasBit(value, b)
      {
        QuotientBelow(value, 1, Pow2(bit));
        PowLimit(value, bit);
      }
    }
  }

  method FillBitmap(values: seq<int>) returns (bitmap: array<bool>)
    requires forall i | 0 <= i < |values| :: values[i] < Pow2(31)
    ensures fresh(bitmap) && bitmap.Length == WORD_BITS
    ensures forall b | 0 <= b < WORD_BITS :: bitmap[b] == AnyHasBit(values, b)
  {
    bitmap := new bool[WORD_BITS](_ => false);
    var i := 0;
    while i < |values|
      invariant 0 <= i <= |values|
      invariant forall b | 0 <= b < WORD_BITS :: bitmap[b] == AnyHasBit(values[..i], b)
    {
      SetBits(values[i], bitmap);
      forall b | 0 <= b < WORD_BITS
        ensures AnyHasBit(values[..i + 1], b) == (AnyHasBit(values[..i], b) || HasBit(values[i], b))
      {
        AnyNext(values, i, b);
      }
      i := i + 1;
    }
    assert values[..i] == values;
  }

  lemma BitMeans(values: seq<int>, b: nat)
    ensures AnyHasBit(values, b) <==> exists i | 0 <= i < |values| :: values[i] > 0 && values[i] / Pow2(b) % 2 == 1
  {
    if AnyHasBit(values, b) {
      var i :| 0 <= i < |values| && HasBit(values[i], b);
      assert values[i] > 0 && values[i] / Pow2(b) % 2 == 1;
    }
    if i :| 0 <= i < |values| && values[i] > 0 && values[i] / Pow2(b) % 2 == 1 {
      assert HasBit(values[i], b);
    }
  }

  /** The bits below ten that some value has, in ascending order. */
  method RunBitmap(values: seq<int>) returns (shown: seq<nat>)
    requires forall i | 0 <= i < |values| :: values[i] < Pow2(31)
    ensures
      forall b: nat ::
        b in shown <==> b < 10 && exists i | 0 <= i < |values| :: values[i] > 0 && values[i] / Pow2(b) % 2 == 1
    ensures forall i, j | 0 <= i < j < |shown| :: shown[i] < shown[j]
  {
    hide AnyHasBit, Pow2;
    var bitmap := FillBitmap(values);
    shown := [];
    var bit := 0;
    while bit < SHOWN
      invariant 0 <= bit <= SHOWN
      invariant forall b: nat :: b in shown <==> b < bit && bitmap[b]
      invariant forall i, j | 0 <= i < j < |shown| :: shown[i] < shown[j]
    {
      if bitmap[bit] {
        assert forall k | 0 <= k < |shown| :: shown[k] in shown;
        shown := shown + [bit];
      }
      bit := bit + 1;
    }
    forall b: nat
      ensures AnyHasBit(values, b) <==> exists i | 0 <= i < |values| :: values[i] > 0 && values[i] / Pow2(b) % 2 == 1
    {
      BitMeans(values, b);
    }
  }

  lemma AnyNext(values: seq<int>, i: nat, b: nat)
    requires i < |values|
    ensures AnyHasBit(values[..i + 1], b) <==> AnyHasBit(values[..i], b) || HasBit(values[i], b)
  {
    assert values[..i + 1][i] == values[i];
    assert forall k | 0 <= k < i :: values[..i + 1][k] == values[..i][k];
  }

  // The powers of two of a value's bits below b, summed.
  function SumOfBits(value: int, b: nat): nat {
    if b == 0 then 0 else SumOfBits(value, b - 1) + if HasBit(value, b - 1) then Pow2(b - 1) else 0
  }

  /** The powers of two of a value's bits below b sum to the value modulo 2^b. */
  lemma {:induction false} BitsSumToRemainder(value: nat, b: nat)
    ensures SumOfBits(value, b) == value % Pow2(b)
  {
    if b > 0 {
      BitsSumToRemainder(value, b - 1);
      RemainderDoubled(value, Pow2(b - 1));
      if value == 0 {
        QuotientIs(value, 0, Pow2(b - 1));
      }
    }
  }

  lemma {:induction false} NoMoreBits(value: int, low: nat, b: nat)
    requires low <= b && forall c | low <= c < b :: !HasBit(value, c)
    ensures SumOfBits(value, b) == SumOfBits(value, low)
  {
    if low < b {
      NoMoreBits(value, low, b - 1);
    }
  }

  /** So the bits shown for one value below 1024 add up to it, and for no other value. */
  lemma ShownBitsSum(value: nat)
    ensures SumOfBits(value, SHOWN) == value <==> value < 1024
  {
    PowTen();
    BitsSumToRemainder(value, SHOWN);
    var rest := value % Pow2(SHOWN);
    assert rest == value % 1024;
  }

  lemma {:induction false} NoHighBits(value: int)
    requires value < 1024
    ensures forall b: nat | SHOWN <= b < WORD_BITS :: !HasBit(value, b)
  {
    PowTen();
    if value > 0 {
      PowLimit(value, SHOWN);
    }
  }

  // An int has no bit from the tenth up exactly when it is below 1024.
  lemma {:induction false} LowBitsOnly(value: int)
    requires value < Pow2(31)
    ensures (forall b: nat | SHOWN <= b < WORD_BITS :: !HasBit(value, b)) <==> value < 1024
  {
    hide HasBit, SumOfBits, Pow2;
    if value < 1024 {
      NoHighBits(value);
    }
    if value >= 0 && forall b: nat | SHOWN <= b < WORD_BITS :: !HasBit(value, b) {
      NoMoreBits(value, SHOWN, 31);
      BitsSumToRemainder(value, 31);
      ShownBitsSum(value);
      QuotientIs(value, 0, Pow2(31));
      Remainder(value, Pow2(31));
    }
  }

  /** Only bits below ten are set, which are all that is shown, if and only if every value is below 1024. */
  lemma {:induction false} AllBitsShown(values: seq<int>)
    requires forall i | 0 <= i < |values| :: values[i] < Pow2(31)
    ensures (forall b: nat | SHOWN <= b < WORD_BITS :: !AnyHasBit(values, b)) <==>
            forall i | 0 <= i < |values| :: values[i] < 1024
  {
    forall i | 0 <= i < |values|
      ensures (forall b: nat | SHOWN <= b < WORD_BITS :: !HasBit(values[i], b)) <==> values[i] < 1024
    {
      LowBitsOnly(values[i]);
    }
    if forall b: nat | SHOWN <= b < WORD_BITS :: !AnyHasBit(values, b) {
      forall i, b: nat | 0 <= i < |values| && SHOWN <= b < WORD_BITS
        ensures !HasBit(values[i], b)
      {
        assert !AnyHasBit(values, b);
      }
    }
  }
}
