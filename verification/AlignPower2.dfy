/** Power-of-two rounding, the only record of capacity that the event loop's
    vectors keep (src/modules/base/loop/tinyara_loop.c). */
module AlignPower2 {

  const UINT_MAX := 0xFFFF_FFFF
  const USHRT_MAX := 0xFFFF

  function Pow2(k: nat): (p: nat)
    ensures p >= 1
  {
    if k == 0 then 1 else 2 * Pow2(k - 1)
  }

  ghost predicate IsPow2(n: nat) {
    exists k: nat :: n == Pow2(k)
  }

  /** Number of significant bits of `x`. */
  function BitLength(x: nat): nat {
    if x == 0 then 0 else 1 + BitLength(x / 2)
  }

  /** `__builtin_clz` on a 32-bit word; zero has no defined result. */
  function Clz32(x: nat): int
    requires 0 < x <= UINT_MAX
  {
    32 - BitLength(x)
  }

  /** `align_power2_uint`. */
  function AlignUint(u: nat): nat
    requires u <= UINT_MAX
  {
    if u <= 1 then u
    else
      var leftZeros := Clz32(u - 1);
      if leftZeros <= 1 then UINT_MAX
      else BitLengthBound(u - 1); Pow2(32 - leftZeros)
  }

  /** `align_power2_short_uint`. */
  function AlignShort(u: nat): nat
    requires u <= USHRT_MAX
  {
    var aligned := AlignUint(u);
    if aligned <= USHRT_MAX then aligned else USHRT_MAX
  }

  /** The least exponent whose power of two reaches `n`, by its definition. */
  ghost predicate IsCeilLog2(n: nat, k: nat) {
    Pow2(k) >= n && forall j: nat :: Pow2(j) >= n ==> j >= k
  }

  lemma {:induction false} Pow2Monotone(j: nat, k: nat)
    requires j <= k
    ensures Pow2(j) <= Pow2(k)
    ensures j < k ==> 2 * Pow2(j) <= Pow2(k)
  {
    if j < k {
      Pow2Monotone(j, k - 1);
    }
  }

  lemma {:induction false} BitLengthBound(x: nat)
    requires x > 0
    ensures BitLength(x) > 0
    ensures Pow2(BitLength(x) - 1) <= x < Pow2(BitLength(x))
  {
    if x > 1 {
      BitLengthBound(x / 2);
    }
  }

  /** `BitLength(u - 1)` is the ceiling of the base-two logarithm of `u`. */
  lemma BitLengthIsCeilLog2(u: nat)
    requires u >= 1
    ensures IsCeilLog2(u, BitLength(u - 1))
  {
    var k := BitLength(u - 1);
    if u > 1 {
      BitLengthBound(u - 1);
    }
    forall j: nat | Pow2(j) >= u
      ensures j >= k
    {
      if j < k {
        Pow2Monotone(j, k - 1);
      }
    }
  }

  lemma Pow2Values()
    ensures Pow2(1) == 2 && Pow2(15) == 0x8000 && Pow2(16) == 0x1_0000
    ensures Pow2(30) == 0x4000_0000 && Pow2(31) == 0x8000_0000 && Pow2(32) == 0x1_0000_0000
  {
    assert Pow2(5) == 32;
    assert Pow2(10) == 1024;
    assert Pow2(15) == 0x8000;
    assert Pow2(20) == 0x10_0000;
    assert Pow2(25) == 0x200_0000;
  }

  /** Comparing exponents is comparing powers, for the ceilings of logarithms. */
  lemma CeilBelow(u: nat, k: nat)
    requires u >= 1
    ensures BitLength(u - 1) <= k <==> u <= Pow2(k)
  {
    BitLengthIsCeilLog2(u);
    if BitLength(u - 1) <= k {
      Pow2Monotone(BitLength(u - 1), k);
    }
  }

  /** Main arithmetic result: on `1 <= u <= 2^30` the least power of two at or above `u`,
      and saturation exactly above that, even where 2^31 would still fit. */
  lemma AlignUintIsLeastPower(u: nat)
    requires 1 <= u <= UINT_MAX
    ensures u <= AlignUint(u) <= UINT_MAX
    ensures u <= 0x4000_0000 ==>
      && AlignUint(u) == Pow2(BitLength(u - 1))
      && forall p: nat :: IsPow2(p) && p >= u ==> p >= AlignUint(u)
    ensures AlignUint(u) == UINT_MAX <==> u > 0x4000_0000
  {
    Pow2Values();
    CeilBelow(u, 30);
    BitLengthIsCeilLog2(u);
    var k := BitLength(u - 1);
    if u <= 0x4000_0000 {
      Pow2Monotone(k, 30);
      forall p: nat | IsPow2(p) && p >= u
        ensures p >= Pow2(k)
      {
        var j: nat :| p == Pow2(j);
        Pow2Monotone(k, j);
      }
    }
  }

  lemma AlignUintMonotone(u: nat, v: nat)
    requires u <= v <= UINT_MAX
    ensures AlignUint(u) <= AlignUint(v)
  {
    if u >= 1 {
      AlignUintIsLeastPower(u);
      AlignUintIsLeastPower(v);
      if v <= 0x4000_0000 {
        assert IsPow2(AlignUint(v));
      }
    }
  }

  /** The 16-bit form: the 32-bit one up to 2^15 and `USHRT_MAX` above. */
  lemma AlignShortValue(u: nat)
    requires 1 <= u <= USHRT_MAX
    ensures u <= AlignShort(u) <= USHRT_MAX
    ensures u <= 0x8000 ==> AlignShort(u) == AlignUint(u) == Pow2(BitLength(u - 1))
    ensures u > 0x8000 ==> AlignShort(u) == USHRT_MAX && AlignUint(u) == 0x1_0000
  {
    Pow2Values();
    AlignUintIsLeastPower(u);
    CeilBelow(u, 15);
    CeilBelow(u, 16);
    if u <= 0x8000 {
      Pow2Monotone(BitLength(u - 1), 15);
    }
  }

  lemma AlignShortMonotone(u: nat, v: nat)
    requires u <= v <= USHRT_MAX
    ensures u <= AlignShort(u) <= AlignShort(v) <= USHRT_MAX && v <= AlignShort(v)
  {
    AlignUintMonotone(u, v);
    if v >= 1 {
      AlignShortValue(v);
    }
    if u >= 1 {
      AlignShortValue(u);
    }
  }

  /** One more element changes the aligned length exactly at the powers of two. */
  lemma AlignStep(len: nat)
    requires 1 <= len <= 0x8000
    ensures AlignUint(len + 1) != AlignUint(len) <==> IsPow2(len)
  {
    AlignUintIsLeastPower(len);
    AlignUintIsLeastPower(len + 1);
    if IsPow2(len) {
      assert AlignUint(len) == len;
    } else {
      var p := AlignUint(len);
      assert IsPow2(p) && p != len;
      assert IsPow2(AlignUint(len + 1));
    }
  }

  /** Growing by one reallocates exactly at 0 and at the powers of two up to 2^15. */
  lemma GrowBoundary(len: nat)
    requires len < USHRT_MAX
    ensures AlignShort(len + 1) != AlignShort(len) <==> len == 0 || (IsPow2(len) && len <= 0x8000)
  {
    if 1 <= len {
      AlignShortValue(len);
      AlignShortValue(len + 1);
      if len <= 0x8000 {
        AlignStep(len);
      }
    }
  }

  /** `_vector_shrink` takes its old capacity from the 32-bit form and its new one from
      the 16-bit form. The two differ exactly where a matched pair would differ, plus at
      every length above 2^15: there each delete asks for a reallocation to the size the
      buffer already has. */
  lemma ShrinkBoundary(len: nat)
    requires 1 <= len < USHRT_MAX
    ensures AlignUint(len + 1) != AlignShort(len) <==>
            AlignShort(len + 1) != AlignShort(len) || len > 0x8000
    ensures AlignShort(len) <= AlignShort(len + 1)
  {
    AlignShortValue(len);
    AlignShortValue(len + 1);
    AlignShortMonotone(len, len + 1);
  }
}
