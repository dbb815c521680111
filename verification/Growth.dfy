/** The growth policy of src/helper.h: overflow checks, fixed_growth and CAPACITY_GROW,
    and the cost of the copying it causes. */
module Growth {
  import opened Arithmetic

  const SIZE_MAX: int := 0xFFFF_FFFF_FFFF_FFFF

  type size_t = x: int | 0 <= x <= SIZE_MAX

  // What a checked size computation comes to: the process may end in die(), or in a division by zero
  datatype Checked = Fits(value: size_t) | Dies | Traps

  function StAdd(x: size_t, y: size_t): Checked {
    if SIZE_MAX - x < y then Dies else Fits(x + y)
  }

  function StMult(x: size_t, y: size_t): Checked {
    if x == 0 then Traps
    else if SIZE_MAX / x < y then Dies
    else Fits(Product(x, y))
  }

  function Product(x: size_t, y: size_t): size_t
    requires x > 0 && SIZE_MAX / x >= y
  {
    assert x * y <= x * (SIZE_MAX / x) <= SIZE_MAX;
    x * y
  }

  // The division test of st_mult is exact: it dies just when the product does not fit
  lemma StMultExact(x: size_t, y: size_t)
    ensures StMult(x, y).Traps? <==> x == 0
    ensures x > 0 ==> (StMult(x, y).Dies? <==> x * y > SIZE_MAX)
    ensures StMult(x, y).Fits? ==> StMult(x, y).value == x * y
  {
    if x > 0 && SIZE_MAX / x < y {
      var q := SIZE_MAX / x;
      assert SIZE_MAX == x * q + SIZE_MAX % x;
      assert x * (q + 1) <= x * y;
      assert x * (q + 1) == x * q + x;
    }
  }

  // The subtraction test is exact: st_add dies just when the sum does not fit
  lemma StAddExact(x: size_t, y: size_t)
    ensures if x + y > 0xFFFF_FFFF_FFFF_FFFF then StAdd(x, y) == Dies else StAdd(x, y) == Fits(x + y)
  {
  }

  function FixedGrowth(len: size_t): Checked {
    var sum := StAdd(len, 16);
    if !sum.Fits? then sum
    else
      var tripled := StMult(sum.value, 3);
      if !tripled.Fits? then tripled else Fits(tripled.value / 2)
  }

  lemma FixedGrowthExact(len: size_t)
    ensures FixedGrowth(len).Fits? <==> 3 * (len + 16) <= SIZE_MAX
    ensures FixedGrowth(len).Fits? ==> FixedGrowth(len).value == 3 * (len + 16) / 2 > len
    ensures !FixedGrowth(len).Traps?
  {
    if len + 16 <= SIZE_MAX {
      StMultExact(len + 16, 3);
    }
  }

  // CAPACITY_GROW on elements of the given width: the new capacity
  function CapacityGrow(width: size_t, size: size_t, cap: size_t): Checked {
    if size <= cap then Fits(cap)
    else
      var grown := FixedGrowth(cap);
      if !grown.Fits? then grown
      else
        var cap' := if grown.value < size then size else grown.value;
        var bytes := StMult(width, cap');
        if bytes.Fits? then Fits(cap') else bytes
  }

  lemma CapacityGrowCovers(width: size_t, size: size_t, cap: size_t)
    requires width > 0
    ensures var r := CapacityGrow(width, size, cap);
      && !r.Traps?
      && (r.Fits? ==> r.value >= size && r.value >= cap && (r.value == cap <==> size <= cap))
      && (r.Fits? && size > cap ==> width * r.value <= SIZE_MAX)
  {
    FixedGrowthExact(cap);
    if size > cap && FixedGrowth(cap).Fits? {
      var cap' := if FixedGrowth(cap).value < size then size else FixedGrowth(cap).value;
      StMultExact(width, cap');
    }
  }

  // The capacity that is granted, and exactly when it is
  lemma CapacityGrowExact(width: size_t, size: size_t, cap: size_t)
    requires width > 0
    ensures var grown := 3 * (cap + 16) / 2;
      var wanted := if size <= cap then cap else if grown < size then size else grown;
      CapacityGrow(width, size, cap) ==
        if size <= cap || (3 * (cap + 16) <= 0xFFFF_FFFF_FFFF_FFFF && width * wanted <= 0xFFFF_FFFF_FFFF_FFFF)
        then Fits(wanted) else Dies
  {
    FixedGrowthExact(cap);
    if size > cap && FixedGrowth(cap).Fits? {
      StMultExact(width, if FixedGrowth(cap).value < size then size else FixedGrowth(cap).value);
    }
  }

  /* ---------- amortised copying ---------- */

  // A growing vector: its size, its capacity, and the elements that reallocation has moved so far
  datatype Vector = Vector(size: size_t, cap: size_t, moved: nat)

  datatype Run = Alive(v: Vector) | Ended

  function PushOne(width: size_t, v: Vector): Run {
    if v.size == SIZE_MAX then Ended
    else
      var grown := CapacityGrow(width, v.size + 1, v.cap);
      if !grown.Fits? then Ended
      else Alive(Vector(v.size + 1, grown.value, v.moved + if grown.value == v.cap then 0 else v.size))
  }

  function Pushes(width: size_t, n: nat): Run {
    if n == 0 then Alive(Vector(0, 0, 0))
    else
      var r := Pushes(width, n - 1);
      if r.Ended? then r else PushOne(width, r.v)
  }

  lemma {:induction false} AmortisedCopying(width: size_t, n: nat)
    requires width > 0
    ensures var r := Pushes(width, n);
      r.Alive? ==>
        && r.v.size == n <= r.v.cap
        && r.v.moved <= 2 * r.v.cap
        && 2 * r.v.cap <= 3 * n + 45
        && r.v.moved <= 3 * n + 45
  {
    if n > 0 {
      AmortisedCopying(width, n - 1);
      var r := Pushes(width, n - 1);
      if r.Alive? && r.v.size < SIZE_MAX {
        CapacityGrowCovers(width, n, r.v.cap);
        FixedGrowthExact(r.v.cap);
      }
    }
  }

  lemma PushSurvives(width: size_t, v: Vector)
    requires width > 0 && 2 * v.cap <= 3 * v.size + 45
    requires v.size <= v.cap && 3 * (v.size + 1) + 45 <= SIZE_MAX && width * (3 * (v.size + 1) + 45) <= SIZE_MAX
    ensures PushOne(width, v).Alive?
  {
    FixedGrowthExact(v.cap);
    if v.size == v.cap {
      var cap := FixedGrowth(v.cap).value;
      StMultExact(width, cap);
      Scaled(cap, 3 * (v.size + 1) + 45, width);
    }
  }

  // The run ends early only when the bytes of the last capacity leave size_t
  lemma {:induction false} PushesSurvive(width: size_t, n: nat)
    requires width > 0 && width * (3 * n + 45) <= SIZE_MAX
    ensures Pushes(width, n).Alive?
  {
    hide PushOne;
    if n > 0 {
      Scaled(1, width, 3 * n + 45);
      Scaled(3 * (n - 1) + 45, 3 * n + 45, width);
      PushesSurvive(width, n - 1);
      AmortisedCopying(width, n - 1);
      PushSurvives(width, Pushes(width, n - 1).v);
    }
  }

  // The same policy without the limits of size_t
  function Grown(size: nat, cap: nat): nat {
    if size <= cap then cap
    else if 3 * (cap + 16) / 2 < size then size
    else 3 * (cap + 16) / 2
  }

  lemma CapacityGrowIsGrown(width: size_t, size: size_t, cap: size_t)
    requires width > 0
    ensures CapacityGrow(width, size, cap).Fits? ==> CapacityGrow(width, size, cap).value == Grown(size, cap)
  {
    FixedGrowthExact(cap);
  }
}
