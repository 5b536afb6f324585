// Leading zeros by bisection, binary logarithms, and the next power of two by
// smearing bits.  Words are natural numbers below 2^32 or 2^64.

module BitMath {
  import opened Bytes

  const UNSIGNED := 0x1_0000_0000
  const UINT64 := 0x1_0000_0000_0000_0000

  function Pow2(n: nat): (p: nat)
    ensures p >= 1
  {
    if n == 0 then 1 else 2 * Pow2(n - 1)
  }

  // v >> n
  function Shr(v: nat, n: nat): nat {
    if n == 0 then v else Shr(v / 2, n - 1)
  }

  // a | b
  function BitOr(a: nat, b: nat): nat
    decreases a + b
  {
    if a == 0 then b
    else if b == 0 then a
    else 2 * BitOr(a / 2, b / 2) + if a % 2 == 1 || b % 2 == 1 then 1 else 0
  }

  // The number of bits up to the highest one set.
  function BitLength(v: nat): nat {
    if v == 0 then 0 else 1 + BitLength(v / 2)
  }

  lemma {:induction false} PowMonotone(a: nat, b: nat)
    requires a <= b
    ensures Pow2(a) <= Pow2(b) && (a < b ==> Pow2(a) < Pow2(b))
    decreases b
  {
    if a < b { PowMonotone(a, b - 1); }
  }

  lemma {:induction false} BitLengthBounds(v: nat)
    ensures v < Pow2(BitLength(v)) && (BitLength(v) == 0 <==> v == 0)
    ensures v > 0 ==> BitLength(v) > 0 && Pow2(BitLength(v) - 1) <= v
    decreases v
  {
    if v > 0 { BitLengthBounds(v / 2); }
  }

  lemma BitLengthAtMost(v: nat, n: nat)
    ensures v < Pow2(n) <==> BitLength(v) <= n
  {
    BitLengthBounds(v);
    if BitLength(v) <= n {
      PowMonotone(BitLength(v), n);
    } else {
      PowMonotone(n, BitLength(v) - 1);
    }
  }

  lemma PowStep(n: nat)
    ensures Pow2(n + 1) == 2 * Pow2(n)
  {
  }

  lemma Widths()
    ensures Pow2(32) == UNSIGNED && Pow2(64) == UINT64
  {
    assert Pow2(8) == 256;
    assert Pow2(16) == 65536;
    assert Pow2(24) == 0x100_0000;
    assert Pow2(32) == UNSIGNED;
    assert Pow2(40) == 0x100_0000_0000;
    assert Pow2(48) == 0x1_0000_0000_0000;
    assert Pow2(56) == 0x100_0000_0000_0000;
  }

  lemma {:induction false} ShrLength(v: nat, n: nat)
    ensures BitLength(Shr(v, n)) == if BitLength(v) >= n then BitLength(v) - n else 0
    decreases n
  {
    if n > 0 { ShrLength(v / 2, n - 1); }
  }

  lemma {:induction false} ShrShr(v: nat, a: nat, b: nat)
    ensures Shr(Shr(v, a), b) == Shr(v, a + b)
    decreases a
  {
    if a > 0 { ShrShr(v / 2, a - 1, b); }
  }

  // ------------------------------------------------------------- leading zeros

  // The lowest k bits are zero.
  predicate LowZeros(c: nat, k: nat) {
    k == 0 || (c % 2 == 0 && LowZeros(c / 2, k - 1))
  }

  lemma {:induction false} OrIntoZeros(c: nat, k: nat)
    requires LowZeros(c, k + 1)
    ensures BitOr(c, Pow2(k)) == c + Pow2(k) && LowZeros(c + Pow2(k), k) && LowZeros(c, k)
    decreases k
  {
    if k > 0 {
      OrIntoZeros(c / 2, k - 1);
      assert (c + Pow2(k)) / 2 == c / 2 + Pow2(k - 1);
    }
  }

  lemma SmallPowers()
    ensures Pow2(5) == 32 && Pow2(6) == 64
  {
  }

  lemma {:induction false} ZeroLow(k: nat)
    ensures LowZeros(0, k)
    decreases k
  {
    if k > 0 { ZeroLow(k - 1); }
  }

  // The bisection loop, for a word of 2^bits bits.
  method Bisect(v: nat, bits: nat) returns (count: nat)
    requires v != 0 && bits > 0 && BitLength(v) <= Pow2(bits)
    ensures count == Pow2(bits) - BitLength(v)
  {
    hide BitLength, Shr, BitOr, LowZeros;
    ZeroLow(bits);
    var value := v;
    count := 0;
    var shift := Pow2(bits - 1);
    ghost var k: int, taken: nat := bits - 1, 0;
    while shift != 0
      invariant -1 <= k < bits && shift == if k < 0 then 0 else Pow2(k)
      invariant value != 0 && BitLength(value) <= Pow2(k + 1) && BitLength(v) == taken + BitLength(value)
      invariant count + taken + Pow2(k + 1) == Pow2(bits) && LowZeros(count, k + 1)
      decreases k
    {
      ShrLength(value, shift);
      OrIntoZeros(count, k);
      var tmp := Shr(value, shift);
      LengthZero(tmp);
      if tmp != 0 {
        value := tmp;
        taken := taken + shift;
      } else {
        count := BitOr(count, shift);
      }
      shift := shift / 2;
      k := k - 1;
    }
    LengthZero(value);
  }

  method CountLeadingZeros32(value: nat) returns (count: nat)
    requires value < UNSIGNED
    ensures count == 32 - BitLength(value)
  {
    LengthZero(value);
    if value == 0 { return 32; }
    Widths();
    SmallPowers();
    BitLengthAtMost(value, 32);
    hide Pow2, BitLength;
    count := Bisect(value, 5);
  }

  // Both paths: where long has 64 bits, and where it has not.
  method CountLeadingZeros64(value: nat, longIs64: bool) returns (count: nat)
    requires value < UINT64
    ensures count == 64 - BitLength(value)
  {
    hide BitLength, Shr;
    LengthZero(value);
    Widths();
    BitLengthAtMost(value, 64);
    if longIs64 {
      if value == 0 { return 64; }
      SmallPowers();
      hide Pow2;
      count := Bisect(value, 6);
    } else {
      hide Pow2;
      var hi := Shr(value, 32);
      ShrLength(value, 32);
      BitLengthAtMost(hi, 32);
      LengthZero(hi);
      if hi != 0 {
        count := CountLeadingZeros32(hi);
      } else {
        BitLengthAtMost(value, 32);
        var lo := value % UNSIGNED;
        count := CountLeadingZeros32(lo);
        count := count + 32;
      }
    }
  }

  // --------------------------------------------------------------- logarithms

  // Log2_64: the floor of the binary logarithm; for 0, -1 as an unsigned.
  method Log2(value: nat, longIs64: bool) returns (r: nat)
    requires value < UINT64
    ensures value > 0 ==> Pow2(r) <= value < Pow2(r + 1)
    ensures value == 0 ==> r == UNSIGNED - 1
  {
    hide BitLength, Pow2;
    LengthZero(value);
    var zeros := CountLeadingZeros64(value, longIs64);
    r := (63 - zeros) % UNSIGNED;
    BitLengthBounds(value);
    Widths();
    BitLengthAtMost(value, 64);
  }

  // Log2_64_Ceil: the least k with value <= 2^k; for 0, 64.
  method Log2Ceil(value: nat, longIs64: bool) returns (r: nat)
    requires value < UINT64
    ensures value > 0 ==> value <= Pow2(r) && forall k: nat :: value <= Pow2(k) ==> r <= k
    ensures value == 0 ==> r == 64
  {
    hide BitLength, Pow2;
    var less := (value - 1) % UINT64;
    var zeros := CountLeadingZeros64(less, longIs64);
    Widths();
    BitLengthAtMost(less, 64);
    r := 64 - zeros;
    BitLengthBounds(less);
    forall k: nat | value > 0 && value <= Pow2(k) ensures r <= k {
      BitLengthAtMost(less, k);
    }
    if value == 0 {
      BitLengthAtMost(less, 63);
      PowStep(63);
    }
  }

  // --------------------------------------------------------- next power of two

  lemma {:induction false} OrLength(a: nat, b: nat)
    requires BitLength(b) <= BitLength(a)
    ensures BitLength(BitOr(a, b)) == BitLength(a)
    decreases a
  {
    if a != 0 && b != 0 { OrLength(a / 2, b / 2); }
  }

  lemma {:induction false} OrShr(a: nat, b: nat, n: nat)
    ensures Shr(BitOr(a, b), n) == BitOr(Shr(a, n), Shr(b, n))
    decreases n
  {
    if n > 0 {
      assert BitOr(a, b) / 2 == BitOr(a / 2, b / 2);
      OrShr(a / 2, b / 2, n - 1);
    }
  }

  // Filling the lowest s bits under m ones gives m + s ones.
  lemma {:induction false} OrOnes(x: nat, s: nat, m: nat)
    requires Shr(x, s) == Pow2(m) - 1
    ensures BitOr(x, Pow2(s) - 1) == Pow2(m + s) - 1
    decreases s
  {
    if s > 0 {
      OrOnes(x / 2, s - 1, m);
      assert (Pow2(s) - 1) / 2 == Pow2(s - 1) - 1;
      if x == 0 { ShrZero(s); PowMonotone(0, m); }
    }
  }

  lemma {:induction false} ShrZero(n: nat)
    ensures Shr(0, n) == 0
    decreases n
  {
    if n > 0 { ShrZero(n - 1); }
  }

  lemma {:induction false} ShrOnes(n: nat, k: nat)
    requires k <= n
    ensures Shr(Pow2(n) - 1, k) == Pow2(n - k) - 1
    decreases k
  {
    if k > 0 {
      assert (Pow2(n) - 1) / 2 == Pow2(n - 1) - 1;
      ShrOnes(n - 1, k - 1);
    }
  }

  // a has l bits, the top m of them ones.
  ghost predicate TopOnes(a: nat, l: nat, m: nat) {
    BitLength(a) == l && m <= l && Shr(a, l - m) == Pow2(m) - 1
  }

  // One smearing step doubles the run of ones at the top.
  lemma {:induction false} Smear(a: nat, l: nat, s: nat)
    requires TopOnes(a, l, Min(s, l))
    ensures TopOnes(BitOr(a, Shr(a, s)), l, Min(2 * s, l))
  {
    hide Shr, BitOr, BitLength, Pow2;
    ShrLength(a, s);
    OrLength(a, Shr(a, s));
    var m, t := Min(s, l), Min(2 * s, l) - Min(s, l);
    var n := l - m - t;
    OrShr(a, Shr(a, s), n);
    if s <= l {
      ShrShr(a, s, n);
      ShrShr(a, l - s, s - t);
      ShrOnes(s, s - t);
      ShrShr(a, n, t);
      OrOnes(Shr(a, n), t, s);
    } else {
      LengthZero(Shr(a, s));
      OrZero(a);
    }
  }

  lemma OrZero(a: nat)
    ensures BitOr(a, 0) == a
  {
  }

  lemma LengthZero(v: nat)
    ensures BitLength(v) == 0 <==> v == 0
  {
  }

  // NextPowerOf2: the power of two above a, and 0 where that is 2^64.
  method NextPowerOf2(a: nat) returns (r: nat)
    requires a < UINT64
    ensures r == if a < Pow2(63) then Pow2(BitLength(a)) else 0
  {
    hide BitLength, Shr, BitOr, Pow2, TopOnes;
    ghost var l := BitLength(a);
    Widths();
    BitLengthAtMost(a, 64);
    TopBit(a);
    var v := a;
    Smear(v, l, 1);
    v := BitOr(v, Shr(v, 1));
    Smear(v, l, 2);
    v := BitOr(v, Shr(v, 2));
    Smear(v, l, 4);
    v := BitOr(v, Shr(v, 4));
    Smear(v, l, 8);
    v := BitOr(v, Shr(v, 8));
    Smear(v, l, 16);
    v := BitOr(v, Shr(v, 16));
    Smear(v, l, 32);
    v := BitOr(v, Shr(v, 32));
    AllOnes(v, l);
    r := (v + 1) % UINT64;
    BitLengthAtMost(a, 63);
    PowMonotone(l, 64);
  }

  lemma {:induction false} AllOnes(v: nat, l: nat)
    requires TopOnes(v, l, l)
    ensures v == Pow2(l) - 1
  {
  }

  lemma {:induction false} TopBit(a: nat)
    ensures TopOnes(a, BitLength(a), Min(1, BitLength(a)))
    decreases a
  {
    if a > 1 { TopBit(a / 2); }
  }

  // What that power is: above a, and no power of two above a is smaller.
  lemma {:induction false} NextPowerIsLeast(a: nat)
    ensures a < Pow2(BitLength(a))
    ensures forall k: nat :: a < Pow2(k) ==> Pow2(BitLength(a)) <= Pow2(k)
  {
    hide BitLength, Pow2;
    BitLengthBounds(a);
    forall k: nat | a < Pow2(k) ensures Pow2(BitLength(a)) <= Pow2(k) {
      BitLengthAtMost(a, k);
      PowMonotone(BitLength(a), k);
    }
  }
}
