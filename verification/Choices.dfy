/** The values a choice may take: the multiples of a step within strict or non-strict bounds, in fixed-point arithmetic. */
module Choices {
  import opened Basics
  import opened Schemas

  /** The smallest and the largest number, held as a 64-bit integer scaled by 10^6. */
  const LOWEST := -0x8000_0000_0000_0000
  const HIGHEST := 0x7FFF_FFFF_FFFF_FFFF

  /** A bound that may have no value, and whether it is strict. */
  datatype Bound = Bound(value: Option<int>, strict: bool)

  datatype Failure = NoDiscretizer | NoPositiveStep

  /** Either the alternatives are listed, each with its value if it has one, or they are the multiples of a step. */
  datatype Choice =
    Choice(valueType: ValueType, alternatives: seq<Option<int>>, lower: Bound, upper: Bound, multipleOf: Option<int>)

  /** The least and the greatest number that satisfy the stated bounds; a missing bound is that of the numbers. */
  function Least(c: Choice): int {
    (if c.lower.value.Some? then c.lower.value.value else LOWEST) + (if c.lower.strict then 1 else 0)
  }

  function Greatest(c: Choice): int {
    (if c.upper.value.Some? then c.upper.value.value else HIGHEST) - (if c.upper.strict then 1 else 0)
  }

  /** The value satisfies the stated bounds. */
  predicate WithinStated(c: Choice, value: int) {
    && (c.lower.value.Some? ==> if c.lower.strict then c.lower.value.value < value else c.lower.value.value <= value)
    && (c.upper.value.Some? ==> if c.upper.strict then value < c.upper.value.value else value <= c.upper.value.value)
    && (c.lower.value.None? ==> if c.lower.strict then LOWEST < value else LOWEST <= value)
    && (c.upper.value.None? ==> if c.upper.strict then value < HIGHEST else value <= HIGHEST)
  }

  predicate Integral(x: int) { x % SCALE == 0 }

  ghost predicate Encloses(c: Choice, a: int, b: int, value: int) {
    Integral(a) && Integral(b) && WithinStated(c, a) && WithinStated(c, b) && a <= value <= b
  }

  /**
   The values the bounds admit: for a decimal those that satisfy them, for any other attribute those between two
   integers that satisfy them.
   */
  ghost predicate Admitted(c: Choice, value: int) {
    if c.valueType == DECIMAL then WithinStated(c, value) else exists a, b :: Encloses(c, a, b, value)
  }

  function FloorTo(x: int): (f: int)
    ensures f <= x < f + SCALE && f % SCALE == 0
  {
    (x / SCALE) * SCALE
  }

  function CeilTo(x: int): (c: int)
    ensures x <= c < x + SCALE && c % SCALE == 0
  {
    -((-x) / SCALE) * SCALE
  }

  lemma MultiplesBetween(x: int, y: int)
    requires x % SCALE == 0 && y % SCALE == 0
    ensures x < y ==> x + SCALE <= y
  {
    assert x == (x / SCALE) * SCALE && y == (y / SCALE) * SCALE;
  }

  /** An integer lies between two numbers exactly if it lies between them rounded towards each other. */
  lemma RoundedBounds(min: int, max: int, value: int)
    requires Integral(value)
    ensures CeilTo(min) <= value <= FloorTo(max) <==> min <= value <= max
  {
    MultiplesBetween(value, CeilTo(min));
    MultiplesBetween(FloorTo(max), value);
  }

  /** What the bounds admit lies between the least and the greatest number, rounded unless the attribute is a decimal. */
  lemma AdmittedExactly(c: Choice, value: int)
    ensures Admitted(c, value) <==>
      if c.valueType == DECIMAL then Least(c) <= value <= Greatest(c)
      else CeilTo(Least(c)) <= value <= FloorTo(Greatest(c))
  {
    if c.valueType != DECIMAL {
      var min, max := CeilTo(Least(c)), FloorTo(Greatest(c));
      if min <= value <= max {
        RoundedBounds(Least(c), Greatest(c), min);
        RoundedBounds(Least(c), Greatest(c), max);
        assert Encloses(c, min, max, value);
      }
      if Admitted(c, value) {
        var a, b :| Encloses(c, a, b, value);
        RoundedBounds(Least(c), Greatest(c), a);
        RoundedBounds(Least(c), Greatest(c), b);
      }
    }
  }

  method GetBounds(c: Choice) returns (min: int, max: int)
    ensures forall value: int :: min <= value <= max <==> Admitted(c, value)
    ensures c.valueType != DECIMAL ==> Integral(min) && Integral(max)
  {
    min := if c.lower.value.Some? then c.lower.value.value else LOWEST;
    if c.lower.strict {
      min := min + 1;
    }
    max := if c.upper.value.Some? then c.upper.value.value else HIGHEST;
    if c.upper.strict {
      max := max - 1;
    }
    if c.valueType != DECIMAL {
      min, max := CeilTo(min), FloorTo(max);
    }
    forall value: int ensures min <= value <= max <==> Admitted(c, value) {
      AdmittedExactly(c, value);
    }
  }

  ghost predicate IsMultiple(value: int, step: int) {
    exists m: int :: value == m * step
  }

  ghost predicate Ascending(s: seq<int>) {
    forall i, j | 0 <= i < j < |s| :: s[i] < s[j]
  }

  lemma {:induction false} ProductIsLarge(k: nat, step: int)
    requires step > 0
    ensures k * step >= 0 && (k > 0 ==> k * step >= step)
  {
    if k > 0 {
      ProductIsLarge(k - 1, step);
      assert k * step == (k - 1) * step + step;
    }
  }

  lemma ProductOfSmaller(a: int, b: int, step: int)
    requires step > 0 && a < b
    ensures a * step + step <= b * step
  {
    ProductIsLarge(b - a, step);
    assert b * step == a * step + (b - a) * step;
  }

  lemma ProductsInOrder(a: int, b: int, step: int)
    requires step > 0
    ensures a < b <==> a * step < b * step
    ensures a < b ==> a * step + step <= b * step
  {
    if a < b {
      ProductOfSmaller(a, b, step);
    } else if b < a {
      ProductOfSmaller(b, a, step);
    }
  }

  /** The values are those of the alternatives at the given positions, which are those of all alternatives with a value. */
  ghost predicate Lists(alternatives: seq<Option<int>>, positions: seq<int>, values: seq<int>) {
    && Ascending(positions) && |positions| == |values|
    && (forall k :: k in positions <==> 0 <= k < |alternatives| && alternatives[k].Some?)
    && forall i | 0 <= i < |values| :: 0 <= positions[i] < |alternatives| && alternatives[positions[i]] == Some(values[i])
  }

  /** What a choice by multiples may enumerate: the multiples of the step that the bounds admit, in ascending order. */
  ghost predicate Enumerates(c: Choice, step: int, values: seq<int>) {
    && Ascending(values)
    && (forall value: int :: value in values <==> IsMultiple(value, step) && Admitted(c, value))
    && (forall value <- values :: WithinStated(c, value))
  }

  lemma AdmittedIsWithin(c: Choice, value: int)
    requires Admitted(c, value)
    ensures WithinStated(c, value)
  {
    if c.valueType != DECIMAL {
      var a, b :| Encloses(c, a, b, value);
    }
  }

  method GetEnumeration(c: Choice) returns (r: Result<seq<int>, Failure>)
    ensures c.alternatives != [] ==> r.Ok? && exists positions :: Lists(c.alternatives, positions, r.value)
    ensures c.alternatives == [] ==>
      match c.multipleOf
      case None => if c.valueType == BOOLEAN || c.valueType == INTEGER then r.Ok? && Enumerates(c, SCALE, r.value)
                   else r == Err(NoDiscretizer)
      case Some(step) => if step == 0 then r == Err(NoPositiveStep)
                         else r.Ok? && Enumerates(c, if step < 0 then -step else step, r.value)
  {
    if c.alternatives != [] {
      var values, _ := ListAlternatives(c.alternatives);
      return Ok(values);
    }
    var lb, ub := GetBounds(c);
    var discretizer := c.multipleOf;
    if discretizer.None? {
      if c.valueType != BOOLEAN && c.valueType != INTEGER {
        return Err(NoDiscretizer);
      }
      discretizer := Some(SCALE);
    }
    var step := if discretizer.value < 0 then -discretizer.value else discretizer.value;
    if step == 0 {
      return Err(NoPositiveStep);
    }
    var values := Multiples(step, lb, ub);
    forall value <- values ensures WithinStated(c, value) {
      assert InRange(value, step, lb, ub);
      AdmittedIsWithin(c, value);
    }
    return Ok(values);
  }

  method ListAlternatives(alternatives: seq<Option<int>>) returns (values: seq<int>, ghost positions: seq<int>)
    ensures Lists(alternatives, positions, values)
  {
    values, positions := [], [];
    for k := 0 to |alternatives|
      invariant Lists(alternatives[..k], positions, values)
    {
      if alternatives[k].Some? {
        AppendedAscending(positions, k);
        values, positions := values + [alternatives[k].value], positions + [k];
      }
    }
    assert alternatives[..|alternatives|] == alternatives;
  }

  // ---------- when nothing within the stated bounds is lost ----------

  /** Every multiple of the step that satisfies the stated bounds is admitted, and so enumerated. */
  ghost predicate NothingLost(c: Choice, step: int) {
    forall value: int | IsMultiple(value, step) && WithinStated(c, value) :: Admitted(c, value)
  }

  /** The first multiple of the step not below a number, and the last not above it. */
  function FirstFrom(x: int, step: int): (m: int)
    requires step > 0
    ensures x <= m < x + step && IsMultiple(m, step)
  {
    var k := (x + step - 1) / step;
    assert k * step <= x + step - 1 < k * step + step;
    k * step
  }

  function LastUpTo(x: int, step: int): (m: int)
    requires step > 0
    ensures x - step < m <= x && IsMultiple(m, step)
  {
    var k := x / step;
    assert k * step <= x < k * step + step;
    k * step
  }

  lemma NoneBetween(value: int, m: int, step: int)
    requires step > 0 && IsMultiple(value, step) && IsMultiple(m, step)
    ensures value < m ==> value + step <= m
    ensures m < value ==> m + step <= value
  {
    var k, l :| value == k * step && m == l * step;
    ProductsInOrder(k, l, step);
    ProductsInOrder(l, k, step);
  }

  /**
   Nothing is lost exactly if the attribute is a decimal, or no multiple satisfies the stated bounds, or the first and
   the last multiple that do lie between the bounds rounded to integers.
   */
  lemma NothingIsLostExactly(c: Choice, step: int)
    requires step > 0
    ensures
      var first, last := FirstFrom(Least(c), step), LastUpTo(Greatest(c), step);
      NothingLost(c, step) <==>
        c.valueType == DECIMAL || first > Greatest(c)
        || (CeilTo(Least(c)) <= first && last <= FloorTo(Greatest(c)))
  {
    var first, last := FirstFrom(Least(c), step), LastUpTo(Greatest(c), step);
    AdmittedExactly(c, first);
    AdmittedExactly(c, last);
    NoneBetween(first, last, step);
    forall value: int | IsMultiple(value, step) && WithinStated(c, value) ensures first <= value <= last {
      NoneBetween(value, first, step);
      NoneBetween(value, last, step);
    }
    forall value: int | IsMultiple(value, step) && WithinStated(c, value)
      ensures Admitted(c, value) <==> c.valueType == DECIMAL || CeilTo(Least(c)) <= value <= FloorTo(Greatest(c))
    {
      AdmittedExactly(c, value);
    }
  }

  /** Nothing is lost if the step is a whole number, or if both bounds are integers that may be taken. */
  lemma WholeNumbersLoseNothing(c: Choice, step: int)
    requires step > 0
    requires Integral(step) || (Integral(Least(c)) && Integral(Greatest(c)))
    ensures NothingLost(c, step)
  {
    forall value: int | IsMultiple(value, step) && WithinStated(c, value) ensures Admitted(c, value) {
      AdmittedExactly(c, value);
      if Integral(step) {
        var m :| value == m * step;
        WholeMultiples(m, step / SCALE);
        RoundedBounds(Least(c), Greatest(c), value);
      } else {
        MultiplesBetween(Least(c), CeilTo(Least(c)));
        MultiplesBetween(FloorTo(Greatest(c)), Greatest(c));
      }
    }
  }

  lemma WholeMultiples(m: int, n: int)
    ensures Integral(m * (n * SCALE))
  {
    assert m * (n * SCALE) == (m * n) * SCALE;
  }

  /** An integer from 0.5 to 2 in steps of 0.5: the value 0.5 satisfies the bounds and is not enumerated. */
  lemma HalfIsLost()
    ensures
      var c := Choice(INTEGER, [], Bound(Some(500_000), false), Bound(Some(2_000_000), false), Some(500_000));
      IsMultiple(500_000, 500_000) && WithinStated(c, 500_000) && !Admitted(c, 500_000)
  {
    var c := Choice(INTEGER, [], Bound(Some(500_000), false), Bound(Some(2_000_000), false), Some(500_000));
    assert 500_000 == 1 * 500_000;
    AdmittedExactly(c, 500_000);
  }

  method Multiples(step: int, lb: int, ub: int) returns (values: seq<int>)
    requires step > 0
    ensures Ascending(values) && forall value :: value in values <==> InRange(value, step, lb, ub)
  {
    values := [];
    // the largest multiple not above the lower bound comes first
    var multiple := lb / step;
    assert multiple * step <= lb;
    assert lb < multiple * step + step;
    while true
      invariant Ascending(values) && forall value <- values :: value < multiple * step
      invariant forall value :: value in values <==> InRange(value, step, lb, ub) && value < multiple * step
      decreases ub - multiple * step
    {
      var value := multiple * step;
      if value > ub {
        break;
      }
      NextMultiple(multiple, step);
      if value >= lb {
        AppendedAscending(values, value);
        values := values + [value];
      }
      multiple := multiple + 1;
    }
  }

  ghost predicate InRange(value: int, step: int, lb: int, ub: int) {
    IsMultiple(value, step) && lb <= value <= ub
  }

  lemma AppendedAscending(s: seq<int>, x: int)
    requires Ascending(s) && forall y <- s :: y < x
    ensures Ascending(s + [x])
  {
    forall i | 0 <= i < |s| ensures s[i] < x {
      assert s[i] in s;
    }
  }

  /** The multiples below the next one are those below this one, and this one. */
  lemma NextMultiple(multiple: int, step: int)
    requires step > 0
    ensures IsMultiple(multiple * step, step) && (multiple + 1) * step == multiple * step + step
    ensures forall value: int | IsMultiple(value, step) ::
              value < (multiple + 1) * step <==> value < multiple * step || value == multiple * step
  {
    assert (multiple + 1) * step == multiple * step + step;
    forall value: int | IsMultiple(value, step)
      ensures value < (multiple + 1) * step <==> value < multiple * step || value == multiple * step
    {
      var m: int :| value == m * step;
      ProductsInOrder(m, multiple, step);
      ProductsInOrder(multiple, m, step);
    }
  }
}
