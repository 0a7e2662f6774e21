/** `percent_to_int` and `int_to_percent` of `src/mixer.c`. */
module MixerPercent {
  import opened CTypes
  import opened FrameBytes

  const EINVAL := 22

  /** C division: towards zero. */
  function CDiv(a: int, b: int): int
    requires b != 0
  {
    if (a >= 0) == (b > 0) then Abs(a) / Abs(b) else -(Abs(a) / Abs(b))
  }

  function Abs(a: int): nat {
    if a < 0 then -a else a
  }

  /** `percent_to_int` for an integer control. */
  function PercentToInt(min: int, max: int, percent: int): int {
    if percent > 100 || percent < 0 then -EINVAL
    else
      var range := ToInt(max - min);
      ToInt(min + CDiv(ToInt(range * percent), 100))
  }

  /** `int_to_percent`; the minimum is a `long`, so the product does not wrap. */
  function IntToPercent(min: int, max: int, value: int): int {
    var range := ToInt(max - min);
    if range == 0 then 0 else ToInt(CDiv((value - min) * 100, range))
  }

  /** A control whose range can be multiplied by 100 in `int`. */
  predicate Proper(min: int, max: int) {
    -INT_MAX <= min <= max <= INT_MAX && (max - min) * 100 <= INT_MAX
  }

  lemma SmallInt(x: int)
    requires -INT_MAX <= x <= INT_MAX
    ensures ToInt(x) == x
  {
  }

  lemma CDivNatural(a: nat, b: nat)
    requires 0 < b
    ensures CDiv(a, b) == a / b
  {
  }

  lemma PercentToIntExact(min: int, max: int, p: int)
    requires Proper(min, max) && 0 <= p <= 100
    ensures PercentToInt(min, max, p) == min + (max - min) * p / 100
    ensures min <= PercentToInt(min, max, p) <= max
    ensures 0 <= (max - min) * p <= (max - min) * 100
  {
    var range := max - min;
    var product := range * p;
    Commute(p, range);
    MulMono(p, 100, range);
    SmallInt(range);
    SmallInt(product);
    CDivNatural(product, 100);
    DivBounds(product, 100);
    hide ToInt, CDiv;
    SmallInt(min + product / 100);
  }

  lemma Commute(a: int, b: int)
    ensures a * b == b * a
  {
  }

  /** The product is a `long`: any range that fits `int` will do. */
  lemma IntToPercentExact(min: int, max: int, v: int)
    requires -INT_MAX - 1 <= min <= v <= max <= INT_MAX && 0 < max - min <= INT_MAX
    ensures IntToPercent(min, max, v) == (v - min) * 100 / (max - min)
    ensures 0 <= IntToPercent(min, max, v) <= 100
  {
    hide ToInt, CDiv;
    var range, x := max - min, (v - min) * 100;
    SmallInt(range);
    CDivNatural(x, range);
    QuotientAtMost(x, range, 100);
    SmallInt(x / range);
  }

  lemma QuotientAtMost(x: nat, d: nat, q: nat)
    requires 0 < d && x <= d * q
    ensures x / d <= q
  {
    DivBounds(x, d);
    if x / d > q {
      MulMono(q + 1, x / d, d);
    }
  }

  /** What is no percentage is answered with an error, and no range is no percent. */
  lemma PercentRefused(min: int, max: int, p: int, v: int)
    ensures p < 0 || p > 100 ==> PercentToInt(min, max, p) == -22
    ensures min == max ==> IntToPercent(min, max, v) == 0
  {
  }

  /** More percent is no less, and the ends are the ends. */
  lemma PercentMonotone(min: int, max: int, p: int, q: int)
    requires Proper(min, max) && 0 <= p <= q <= 100
    ensures PercentToInt(min, max, p) <= PercentToInt(min, max, q)
    ensures PercentToInt(min, max, 0) == min && PercentToInt(min, max, 100) == max
  {
    hide PercentToInt;
    PercentToIntExact(min, max, p);
    PercentToIntExact(min, max, q);
    PercentToIntExact(min, max, 0);
    PercentToIntExact(min, max, 100);
    Commute(p, max - min);
    Commute(q, max - min);
    MulMono(p, q, max - min);
  }

  /**
   A percentage survives the way to a value and back exactly when the value it stands for is whole;
   otherwise it comes back smaller, by one when the range has at least a hundred steps.
   */
  lemma PercentRoundTrip(min: int, max: int, p: int)
    requires Proper(min, max) && min < max && 0 <= p <= 100
    ensures var p' := IntToPercent(min, max, PercentToInt(min, max, p));
      && p' <= p
      && (p' == p <==> (max - min) * p % 100 == 0)
      && (max - min >= 100 ==> p - 1 <= p')
  {
    hide PercentToInt, IntToPercent;
    var r := max - min;
    var v := PercentToInt(min, max, p);
    Commute(r, p);
    PercentToIntExact(min, max, p);
    IntToPercentExact(min, max, v);
    var m := r * p % 100;
    assert (v - min) * 100 == r * p - m;
    QuotientShort(p, r, m);
  }

  lemma QuotientShort(p: nat, r: nat, m: nat)
    requires 0 < r && m <= p * r
    ensures (p * r - m) / r <= p
    ensures (p * r - m) / r == p <==> m == 0
    ensures m <= r ==> p - 1 <= (p * r - m) / r
  {
    var q := (p * r - m) / r;
    DivBounds(p * r - m, r);
    if q > p {
      MulMono(p + 1, q, r);
    }
    if q < p - 1 {
      MulMono(q + 2, p, r);
      MulAdd(q, 2, r);
    }
    if q == p - 1 {
      MulAdd(q, 1, r);
    }
  }

  /** A value loses less than one step of a hundredth of the range, plus one. */
  lemma ValueRoundTrip(min: int, max: int, v: int)
    requires Proper(min, max) && min < max && min <= v <= max
    ensures var v' := PercentToInt(min, max, IntToPercent(min, max, v));
      v' <= v && (v - v') * 100 < (max - min) + 100
  {
    hide PercentToInt, IntToPercent;
    var r := max - min;
    IntToPercentExact(min, max, v);
    var p := IntToPercent(min, max, v);
    PercentToIntExact(min, max, p);
    DivBounds((v - min) * 100, r);
    DivBounds(r * p, 100);
    Commute(p, r);
  }
}
