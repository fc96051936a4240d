/** `f64` as sign and magnitude (IEEE 754-2019, section 3.4): enough for the
    comparisons and the bit tricks of the index, with no floating arithmetic. */
module Floats {
  import opened Prelude

  const TWO_52: int := 0x10_0000_0000_0000
  const TWO_53: int := 0x20_0000_0000_0000
  const TWO_63: int := 0x8000_0000_0000_0000
  const TWO_64: int := 0x1_0000_0000_0000_0000
  const INFINITY_MAGNITUDE: int := 0x7FF0_0000_0000_0000

  datatype SignMagnitude = SignMagnitude(negative: bool, magnitude: int)

  type F64 = f: SignMagnitude | 0 <= f.magnitude < TWO_63 witness SignMagnitude(false, 0)

  predicate IsNaN(f: F64) {
    f.magnitude > INFINITY_MAGNITUDE
  }

  /** A NaN is what the format makes it: the largest exponent with a fraction that is not zero. */
  lemma NaNExactly(f: F64)
    ensures IsNaN(f) <==> f.magnitude / TWO_52 == 0x7FF && f.magnitude % TWO_52 != 0
  {}

  /** Orders every float that is not a NaN; both zeros are 0. */
  function Signed(f: F64): int {
    if f.negative then -f.magnitude else f.magnitude
  }

  /** `f64::partial_cmp`. */
  function PartialCompare(a: F64, b: F64): Option<Order> {
    if IsNaN(a) || IsNaN(b) then None else Some(CompareInt(Signed(a), Signed(b)))
  }

  /** `f64::to_bits`. */
  function ToBits(f: F64): uint64 {
    var bits: int := if f.negative then TWO_63 + f.magnitude else f.magnitude;
    bits
  }

  // ----- `i64 as f64`: round to nearest, ties to even -----

  function Pow2(n: nat): (p: nat)
    ensures p > 0
  {
    if n == 0 then 1 else 2 * Pow2(n - 1)
  }

  function BitLength(u: nat): nat {
    if u == 0 then 0 else 1 + BitLength(u / 2)
  }

  /** `u / quantum` to the nearest integer, an exact half going to the even one. */
  function RoundQuotient(u: nat, quantum: nat): nat
    requires quantum > 0
  {
    var q, r := u / quantum, u % quantum;
    if 2 * r > quantum || (2 * r == quantum && q % 2 == 1) then q + 1 else q
  }

  /** The 53-bit significand of `u`, which may round up to 2^53. */
  function Significand(u: nat): nat
    requires u > 0
  {
    var length := BitLength(u);
    if length <= 53 then u * Pow2(53 - length) else RoundQuotient(u, Pow2(length - 53))
  }

  /** Biased exponent and fraction of `u`, as one magnitude. */
  function RoundMagnitude(u: nat): nat {
    if u == 0 then 0 else (BitLength(u) + 1021) * TWO_52 + Significand(u)
  }

  function FromInt(i: int64): F64 {
    RoundMagnitudeBound(Abs(i));
    SignMagnitude(i < 0, RoundMagnitude(Abs(i)))
  }

  lemma {:induction false} BitLengthBounds(u: nat)
    requires u > 0
    ensures BitLength(u) > 0
    ensures Pow2(BitLength(u) - 1) <= u < Pow2(BitLength(u))
  {
    if u > 1 {
      BitLengthBounds(u / 2);
    }
  }

  lemma {:induction false} BitLengthMonotone(u: nat, w: nat)
    requires u <= w
    ensures BitLength(u) <= BitLength(w)
  {
    if u > 0 {
      BitLengthMonotone(u / 2, w / 2);
    }
  }

  lemma DoubleProduct(p: int, q: int)
    ensures 2 * (p * q) == (2 * p) * q
  {}

  lemma {:induction false} Pow2Sum(a: nat, b: nat)
    ensures Pow2(a + b) == Pow2(a) * Pow2(b)
  {
    if a > 0 {
      Pow2Sum(a - 1, b);
      DoubleProduct(Pow2(a - 1), Pow2(b));
    }
  }

  lemma Pow2Values()
    ensures Pow2(52) == TWO_52 && Pow2(53) == TWO_53 && Pow2(54) == 2 * TWO_53 && Pow2(64) == TWO_64
  {
    assert Pow2(13) == 0x2000;
    Pow2Sum(13, 13);
    Pow2Sum(26, 26);
    assert Pow2(12) == 0x1000;
    Pow2Sum(52, 12);
  }

  lemma MulMonotone(a: int, b: int, c: int)
    requires a <= b && c >= 0
    ensures a * c <= b * c
  {}

  lemma MulStrict(a: int, b: int, c: int)
    requires a < b && c > 0
    ensures a * c + c <= b * c
  {
    MulMonotone(a + 1, b, c);
    assert (a + 1) * c == a * c + c;
  }

  lemma Division(u: nat, d: nat)
    requires d > 0
    ensures u == (u / d) * d + u % d && 0 <= u % d < d
  {}

  lemma RoundQuotientRange(u: nat, d: nat, low: nat, high: nat)
    requires d > 0 && low * d <= u < high * d
    ensures low <= RoundQuotient(u, d) <= high
  {
    var q := u / d;
    Division(u, d);
    if q < low {
      MulStrict(q, low, d);
    } else if q >= high {
      MulMonotone(high, q, d);
    }
  }

  lemma RoundQuotientMonotone(u: nat, w: nat, d: nat)
    requires d > 0 && u <= w
    ensures RoundQuotient(u, d) <= RoundQuotient(w, d)
  {
    Division(u, d);
    Division(w, d);
    if u / d > w / d {
      MulStrict(w / d, u / d, d);
    }
  }

  lemma RoundQuotientNearest(u: nat, d: nat)
    requires d > 0
    ensures var s := RoundQuotient(u, d);
            && 2 * (s * d) <= 2 * u + d
            && 2 * u <= 2 * (s * d) + d
            && (2 * (s * d) == 2 * u + d || 2 * u == 2 * (s * d) + d ==> s % 2 == 0)
  {
    Division(u, d);
    var q := u / d;
    assert (q + 1) * d == q * d + d;
  }

  lemma SignificandRange(u: nat)
    requires u > 0
    ensures TWO_52 <= Significand(u) <= TWO_53
    ensures BitLength(u) <= 53 ==> Significand(u) < TWO_53
  {
    BitLengthBounds(u);
    Pow2Values();
    var length := BitLength(u);
    if length <= 53 {
      var scale := Pow2(53 - length);
      Pow2Sum(length, 53 - length);
      Pow2Sum(length - 1, 53 - length);
      MulMonotone(Pow2(length - 1), u, scale);
      MulStrict(u, Pow2(length), scale);
    } else {
      Pow2Sum(53, length - 53);
      Pow2Sum(52, length - 53);
      RoundQuotientRange(u, Pow2(length - 53), TWO_52, TWO_53);
    }
  }

  lemma RoundMagnitudeBound(u: nat)
    requires u <= TWO_63
    ensures RoundMagnitude(u) < INFINITY_MAGNITUDE
  {
    if u > 0 {
      BitLengthBounds(u);
      SignificandRange(u);
      Pow2Values();
      if BitLength(u) > 64 {
        Pow2Grows(64, BitLength(u) - 1);
      }
    }
  }

  lemma NearestSignificand(u: nat, quantum: nat)
    requires BitLength(u) > 53 && quantum == Pow2(BitLength(u) - 53)
    ensures var s := Significand(u);
            && 2 * (s * quantum) <= 2 * u + quantum
            && 2 * u <= 2 * (s * quantum) + quantum
            && (2 * (s * quantum) == 2 * u + quantum || 2 * u == 2 * (s * quantum) + quantum ==> s % 2 == 0)
  {
    RoundQuotientNearest(u, quantum);
  }

  /** The exponent and the fraction held by a magnitude. */
  lemma MagnitudeFields(length: nat, s: nat)
    requires TWO_52 <= s <= TWO_53
    ensures var m := (length + 1021) * TWO_52 + s;
            if s == TWO_53 then m / TWO_52 == length + 1023 && m % TWO_52 == 0
            else m / TWO_52 == length + 1022 && TWO_52 + m % TWO_52 == s
  {}

  /** The rounding is the one IEEE 754-2019 section 4.3.1 prescribes: exact when 53 bits
      suffice, and otherwise within half a quantum, an exact half going to the even side. */
  lemma RoundsToNearestEven(u: nat)
    requires u > 0
    ensures var length, s, m := BitLength(u), Significand(u), RoundMagnitude(u);
            if length <= 53 then
              m / TWO_52 == length + 1022 && TWO_52 + m % TWO_52 == s == u * Pow2(53 - length)
            else
              var quantum := Pow2(length - 53);
              && 2 * (s * quantum) <= 2 * u + quantum
              && 2 * u <= 2 * (s * quantum) + quantum
              && (2 * (s * quantum) == 2 * u + quantum || 2 * u == 2 * (s * quantum) + quantum ==> s % 2 == 0)
              && (if s == TWO_53 then m / TWO_52 == length + 1023 && m % TWO_52 == 0
                  else m / TWO_52 == length + 1022 && TWO_52 + m % TWO_52 == s)
  {
    SignificandRange(u);
    MagnitudeFields(BitLength(u), Significand(u));
    if BitLength(u) > 53 {
      NearestSignificand(u, Pow2(BitLength(u) - 53));
    }
  }

  lemma SignificandMonotone(u: nat, w: nat)
    requires 0 < u <= w && BitLength(u) == BitLength(w)
    ensures Significand(u) <= Significand(w)
    ensures u < w && BitLength(w) <= 53 ==> Significand(u) < Significand(w)
  {
    var length := BitLength(u);
    if length <= 53 {
      if u < w {
        MulStrict(u, w, Pow2(53 - length));
      }
    } else {
      RoundQuotientMonotone(u, w, Pow2(length - 53));
    }
  }

  /** Rounding preserves order, and loses nothing up to 2^53. */
  lemma RoundMonotone(u: nat, w: nat)
    requires u <= w
    ensures RoundMagnitude(u) <= RoundMagnitude(w)
    ensures u < w <= TWO_53 ==> RoundMagnitude(u) < RoundMagnitude(w)
  {
    if u < w {
      BitLengthMonotone(u, w);
      SignificandRange(w);
      if w <= TWO_53 {
        BitLengthUpTo53(w);
      }
      if u > 0 {
        SignificandRange(u);
        if w <= TWO_53 {
          BitLengthUpTo53(u);
        }
        if BitLength(u) == BitLength(w) {
          SignificandMonotone(u, w);
        }
      }
    }
  }

  lemma Pow2Grows(a: nat, b: nat)
    requires a <= b
    ensures Pow2(a) <= Pow2(b)
  {
    Pow2Sum(b - a, a);
    MulMonotone(1, Pow2(b - a), Pow2(a));
  }

  lemma BitLengthUpTo53(u: nat)
    requires 0 < u <= TWO_53
    ensures u < TWO_53 ==> BitLength(u) <= 53
    ensures u == TWO_53 ==> BitLength(u) == 54
  {
    BitLengthBounds(u);
    Pow2Values();
    if BitLength(u) > 54 {
      Pow2Grows(54, BitLength(u) - 1);
    } else if BitLength(u) < 54 {
      Pow2Grows(BitLength(u), 53);
    }
  }

  /** `as f64` is monotone on all of i64 and strictly so within 2^53 of zero. */
  lemma FromIntMonotone(i: int64, j: int64)
    requires i <= j
    ensures Signed(FromInt(i)) <= Signed(FromInt(j))
    ensures i < j && -TWO_53 <= i && j <= TWO_53 ==> Signed(FromInt(i)) < Signed(FromInt(j))
    ensures !IsNaN(FromInt(i))
  {
    RoundMagnitudeBound(Abs(i));
    if j < 0 {
      RoundMonotone(Abs(j), Abs(i));
    } else if i >= 0 {
      RoundMonotone(i, j);
    } else {
      RoundMonotone(0, Abs(i));
      RoundMonotone(0, j);
    }
  }

  /** Two integers can share a float only if the upper one shares it with its predecessor. */
  lemma SharedRounding(i: int64, j: int64)
    requires i < j
    ensures FromInt(i) == FromInt(j) ==> FromInt(j - 1) == FromInt(j)
    ensures FromInt(i) == FromInt(j) ==> FromInt(i + 1) == FromInt(i)
  {
    if FromInt(i) == FromInt(j) {
      FromIntMonotone(i, j - 1);
      FromIntMonotone(j - 1, j);
      FromIntMonotone(i, i + 1);
      FromIntMonotone(i + 1, j);
      SignedFromIntInjective(j - 1, j);
      SignedFromIntInjective(i, i + 1);
    }
  }

  /** An integer never rounds to the negative zero, so its float is known by its signed magnitude. */
  lemma SignedFromIntInjective(i: int64, j: int64)
    ensures Signed(FromInt(i)) == Signed(FromInt(j)) ==> FromInt(i) == FromInt(j)
  {
    RoundMonotone(0, 1);
    if i < 0 { RoundMonotone(1, Abs(i)); }
    if j < 0 { RoundMonotone(1, Abs(j)); }
  }

  lemma FromIntSign(i: int64)
    ensures FromInt(i).negative <==> i < 0
    ensures FromInt(i).magnitude == 0 <==> i == 0
  {
    RoundMonotone(0, 1);
    if i != 0 { RoundMonotone(1, Abs(i)); }
  }

  lemma FiftyFourBits(u: nat)
    requires u == TWO_53
    ensures BitLength(u) == BitLength(u + 1) == 54 && Significand(u) == Significand(u + 1) == TWO_52
  {
    Pow2Values();
    BitLengthUpTo53(u);
    assert (u + 1) / 2 == u / 2;
    assert Pow2(1) == 2;
  }

  /** 2^53 is the first integer to share its float with the next one. */
  lemma TwoIntegersShareAFloat(i: int64)
    requires i == TWO_53
    ensures FromInt(i) == FromInt(i + 1) == SignMagnitude(false, 0x4340_0000_0000_0000)
  {
    FiftyFourBits(i);
  }
}
