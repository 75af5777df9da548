/**
  `human_readable_size` (storage.rs:508-521): divide by 1024 until the value is
  below 1024 or the largest unit is reached.

  The source divides an `f64`. For the unit it settles on, that is the same as
  the integer quotients kept here: `bytes as f64` is exact below 2^53, dividing
  by 1024 is exact, and the largest threshold compared against is 1024^5 = 2^50,
  so `size >= 1024.0` after `k` divisions holds exactly when
  `bytes >= 1024^(k+1)`.
*/
module SizeFormat {
  import opened Text
  import opened Models

  const Units: seq<string> := ["B", "KB", "MB", "GB", "TB", "PB"]

  function Pow1024(k: nat): (r: nat)
    ensures r >= 1
  {
    if k == 0 then 1 else 1024 * Pow1024(k - 1)
  }

  lemma {:induction false} PowMonotone(i: nat, j: nat)
    requires i <= j
    ensures Pow1024(i) <= Pow1024(j)
    decreases j
  {
    if i < j {
      PowMonotone(i, j - 1);
    }
  }

  /** The unit a byte count is shown in: the largest `k <= 5` with `1024^k <= bytes`, or 0. */
  predicate IsUnitOf(bytes: nat, k: nat) {
    && k < |Units|
    && (k == 0 || Pow1024(k) <= bytes)
    && (k == |Units| - 1 || bytes < Pow1024(k + 1))
  }

  /** The unit index, found by climbing from `k`. */
  function UnitFrom(bytes: nat, k: nat): (r: nat)
    requires k < |Units| && (k == 0 || Pow1024(k) <= bytes)
    ensures IsUnitOf(bytes, r) && k <= r
    decreases |Units| - k
  {
    if k < |Units| - 1 && bytes >= Pow1024(k + 1) then UnitFrom(bytes, k + 1) else k
  }

  function UnitIndex(bytes: nat): (r: nat)
    ensures IsUnitOf(bytes, r)
  {
    UnitFrom(bytes, 0)
  }

  /** Only one index fits a byte count. */
  lemma UnitUnique(bytes: nat, j: nat, k: nat)
    requires IsUnitOf(bytes, j) && IsUnitOf(bytes, k)
    ensures j == k
  {
    if j < k {
      PowMonotone(j + 1, k);
    } else if k < j {
      PowMonotone(k + 1, j);
    }
  }

  /** What the source renders, with the number part left out for the scaled units. */
  function Rendered(bytes: nat): HumanSize {
    var k := UnitIndex(bytes);
    if k == 0 then Plain(Decimal(bytes) + " " + Units[0]) else Scaled(Units[k])
  }

  /** Below 1 KiB the exact count in bytes, from 1 KiB on a scaled unit. */
  lemma RenderedCases(bytes: nat)
    ensures bytes < 1024 ==> Rendered(bytes) == Plain(Decimal(bytes) + " B")
    ensures 1024 <= bytes < 1024 * 1024 ==> Rendered(bytes) == Scaled("KB")
    ensures bytes >= Pow1024(5) ==> Rendered(bytes) == Scaled("PB")
  {
    var k := UnitIndex(bytes);
    if bytes < 1024 {
      UnitUnique(bytes, k, 0);
    } else if bytes < 1024 * 1024 {
      UnitUnique(bytes, k, 1);
    } else if bytes >= Pow1024(5) {
      UnitUnique(bytes, k, 5);
    }
  }

  lemma DivStep(bytes: nat, p: nat)
    requires p >= 1
    ensures (bytes / p) / 1024 == bytes / (1024 * p)
    ensures bytes / p >= 1024 <==> bytes >= 1024 * p
  {
    var q, r := bytes / p, bytes % p;
    var q2, r2 := q / 1024, q % 1024;
    MulAdd(q2, 1024, r2, p);
    assert q * p == q2 * (1024 * p) + r2 * p;
    MulLe(r2, 1023, p);
    DivUnique(bytes, 1024 * p, q2, r2 * p + r);
    if q >= 1024 {
      MulLe(1024, q, p);
    } else {
      MulLe(q, 1023, p);
    }
  }

  lemma MulAdd(a: nat, b: nat, c: nat, p: nat)
    ensures (a * b + c) * p == a * (b * p) + c * p
  {
  }

  lemma MulLe(a: nat, b: nat, p: nat)
    requires a <= b
    ensures a * p <= b * p
  {
  }

  lemma DivUnique(a: nat, b: nat, q: nat, r: nat)
    requires b >= 1 && a == q * b + r && r < b
    ensures a / b == q
  {
    var q', r' := a / b, a % b;
    if q' < q {
      MulLe(q' + 1, q, b);
    } else if q' > q {
      MulLe(q + 1, q', b);
    }
  }

  /** `human_readable_size`: the loop of the source over integer quotients. */
  method HumanReadableSize(bytes: nat) returns (r: HumanSize)
    ensures r == Rendered(bytes)
  {
    var size := bytes;
    var unit := 0;
    while size >= 1024 && unit < |Units| - 1
      invariant unit < |Units| && (unit == 0 || Pow1024(unit) <= bytes)
      invariant size == bytes / Pow1024(unit)
      invariant UnitFrom(bytes, unit) == UnitIndex(bytes)
      decreases |Units| - unit
    {
      DivStep(bytes, Pow1024(unit));
      size := size / 1024;
      unit := unit + 1;
    }
    DivStep(bytes, Pow1024(unit));
    if unit == 0 {
      r := Plain(Decimal(bytes) + " " + Units[0]);
    } else {
      r := Scaled(Units[unit]);
    }
  }
}
