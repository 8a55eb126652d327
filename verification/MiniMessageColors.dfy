/** The colours of minimessage.go: gradients, over the reals. */
module MiniMessageColors {
  // ----- colours

  type Channel = x: int | 0 <= x < 256

  datatype Color = Color(r: Channel, g: Channel, b: Channel)

  const WHITE := Color(255, 255, 255)
  const AQUA := Color(0x55, 255, 255)

  // ----- gradients, over the reals

  function Mix(a: Channel, b: Channel, t: real): (c: int) {
    Blend(a as real, b as real, t).Floor
  }

  function Blend(a: real, b: real, t: real): real {
    a * (1.0 - t) + b * t
  }

  lemma MixBetween(a: Channel, b: Channel, t: real)
    requires 0.0 <= t <= 1.0
    ensures (if a <= b then a else b) <= Mix(a, b, t) <= (if a <= b then b else a)
    ensures t == 0.0 ==> Mix(a, b, t) == a
  {
    hide Blend;
    var v := Blend(a as real, b as real, t);
    if a <= b {
      Convex(a as real, b as real, t);
      FloorBetween(v, a, b);
    } else {
      BlendSwaps(a as real, b as real, t);
      Convex(b as real, a as real, 1.0 - t);
      FloorBetween(v, b, a);
    }
    if t == 0.0 {
      BlendAtZero(a as real, b as real, t);
      FloorBetween(v, a, a);
    }
  }

  lemma Convex(a: real, b: real, t: real)
    requires a <= b && 0.0 <= t <= 1.0
    ensures a <= Blend(a, b, t) <= b
  {
    NonNegative(t, b - a);
    NonNegative(1.0 - t, b - a);
    assert t * (b - a) == t * b - t * a;
    assert (1.0 - t) * (b - a) == (1.0 - t) * b - (1.0 - t) * a;
    assert (1.0 - t) * b == b - t * b && (1.0 - t) * a == a - t * a;
  }

  lemma BlendSwaps(a: real, b: real, t: real)
    ensures Blend(a, b, t) == Blend(b, a, 1.0 - t)
  {
    assert 1.0 - (1.0 - t) == t;
  }

  lemma BlendAtZero(a: real, b: real, t: real)
    requires t == 0.0
    ensures Blend(a, b, t) == a
  {}

  lemma FloorBetween(v: real, a: int, b: int)
    requires a as real <= v <= b as real
    ensures a <= v.Floor <= b
  {}

  function Interpolate(a: Color, b: Color, t: real): Color
    requires 0.0 <= t <= 1.0
  {
    MixBetween(a.r, b.r, t); MixBetween(a.g, b.g, t); MixBetween(a.b, b.b, t);
    Color(Mix(a.r, b.r, t), Mix(a.g, b.g, t), Mix(a.b, b.b, t))
  }

  function GradientPos(stops: nat, index: int, total: int): real
    requires total > 1
  {
    Times(Share(index, total), stops as real - 1.0)
  }

  function Times(x: real, y: real): real {
    x * y
  }

  function Share(index: int, total: int): real
    requires total > 1
  {
    index as real / (total - 1) as real
  }

  lemma Ratio(x: real, d: real)
    requires 0.0 <= x && 0.0 < d
    ensures 0.0 <= x / d && (x <= d ==> x / d <= 1.0)
    ensures (x == 0.0 ==> x / d == 0.0) && (x == d ==> x / d == 1.0) && (x >= d ==> x / d >= 1.0)
  {
    var q := x / d;
    assert q * d == x;
    if q < 0.0 {
      ScaleBound(-q, d);
    }
    if x <= d && q > 1.0 {
      ScaleBound(q - 1.0, d);
    }
    if x >= d && q < 1.0 {
      ScaleBound(1.0 - q, d);
    }
  }

  lemma ScaleBound(q: real, m: real)
    requires 0.0 <= q && 0.0 <= m
    ensures 0.0 <= q * m
    ensures q <= 1.0 ==> q * m <= m
    ensures q > 0.0 && m > 0.0 ==> q * m > 0.0
  {
    NonNegative(q, m);
    if q <= 1.0 {
      NonNegative(1.0 - q, m);
      assert (1.0 - q) * m == m - q * m;
    }
    if q * m == 0.0 && q > 0.0 {
      assert m == 0.0;
    }
  }

  lemma TimesBounds(q: real, m: real)
    requires 0.0 <= q && 0.0 <= m
    ensures 0.0 <= Times(q, m) && (q <= 1.0 ==> Times(q, m) <= m)
    ensures (q == 0.0 ==> Times(q, m) == 0.0) && (q == 1.0 ==> Times(q, m) == m) && (q >= 1.0 ==> Times(q, m) >= m)
  {
    ScaleBound(q, m);
    if q >= 1.0 {
      NonNegative(q - 1.0, m);
      assert (q - 1.0) * m == q * m - m;
    }
  }

  lemma NonNegative(x: real, y: real)
    requires 0.0 <= x && 0.0 <= y
    ensures 0.0 <= x * y
  {}

  lemma GradientPosBounds(stops: nat, index: int, total: int)
    requires total > 1 && stops >= 2 && 0 <= index
    ensures 0.0 <= GradientPos(stops, index, total)
    ensures index < total ==> GradientPos(stops, index, total) <= stops as real - 1.0
    ensures index == 0 ==> GradientPos(stops, index, total) == 0.0
    ensures index == total - 1 ==> GradientPos(stops, index, total) == stops as real - 1.0
    ensures index >= total - 1 ==> GradientPos(stops, index, total) >= stops as real - 1.0
  {
    var q, m := Share(index, total), stops as real - 1.0;
    Ratio(index as real, (total - 1) as real);
    assert 0.0 <= q && (index < total ==> q <= 1.0);
    assert index == 0 ==> q == 0.0;
    assert index == total - 1 ==> q == 1.0;
    assert index >= total - 1 ==> q >= 1.0;
    hide Share, Times;
    TimesBounds(q, m);
  }

  /** gradientColor. */
  function GradientColor(colors: seq<Color>, index: int, total: int): Color
    requires 0 <= index
  {
    if |colors| == 0 then WHITE
    else if |colors| == 1 || total <= 1 then colors[0]
    else
      var pos := GradientPos(|colors|, index, total);
      GradientPosBounds(|colors|, index, total);
      var left := pos.Floor;
      if left + 1 >= |colors| then colors[|colors| - 1]
      else Interpolate(colors[left], colors[left + 1], pos - left as real)
  }

  /** The first index gets the first stop and the last index the last. */
  lemma GradientEnds(colors: seq<Color>, total: int)
    requires |colors| >= 2 && total > 1
    ensures GradientColor(colors, 0, total) == colors[0]
    ensures GradientColor(colors, total - 1, total) == colors[|colors| - 1]
  {
    FirstStop(colors, total);
    LastStop(colors, total - 1, total);
  }

  lemma FirstStop(colors: seq<Color>, total: int)
    requires |colors| >= 2 && total > 1
    ensures GradientColor(colors, 0, total) == colors[0]
  {
    GradientPosBounds(|colors|, 0, total);
    hide GradientPos, Interpolate;
    var pos := GradientPos(|colors|, 0, total);
    FloorBetween(pos, 0, 0);
    InterpolateAtZero(colors[0], colors[1], pos - pos.Floor as real);
  }

  lemma InterpolateAtZero(a: Color, b: Color, t: real)
    requires t == 0.0
    ensures Interpolate(a, b, t) == a
  {
    hide Mix;
    MixBetween(a.r, b.r, t);
    MixBetween(a.g, b.g, t);
    MixBetween(a.b, b.b, t);
  }

  /** From the last index on the colour stays the last stop. */
  lemma LastStop(colors: seq<Color>, index: int, total: int)
    requires |colors| >= 2 && total > 1 && index >= total - 1
    ensures GradientColor(colors, index, total) == colors[|colors| - 1]
  {
    GradientPosBounds(|colors|, index, total);
    var pos := GradientPos(|colors|, index, total);
    hide GradientPos;
    FloorAtLeast(pos, |colors| - 1);
  }

  lemma FloorAtLeast(v: real, a: int)
    requires v >= a as real
    ensures v.Floor >= a
  {}

  // ----- the same over the integers

  /** A whole quotient of two integers and what is left of it. */
  predicate Divided(n: int, d: int, k: int, r: int) {
    n == k * d + r && 0 <= r < d
  }

  /** Before the last index a gradient's channels are the integer blends of the two stops it is
      between, cut to whole numbers: with r parts of d on the way from stop k to the next. */
  lemma GradientIsBlend(colors: seq<Color>, index: nat, total: int, k: nat, r: nat)
    requires |colors| >= 2 && index < total - 1 && Divided(index * (|colors| - 1), total - 1, k, r)
    ensures k + 1 < |colors|
    ensures var c, a, b, d := GradientColor(colors, index, total), colors[k], colors[k + 1], total - 1;
      && c.r == (a.r * (d - r) + b.r * r) / d
      && c.g == (a.g * (d - r) + b.g * r) / d
      && c.b == (a.b * (d - r) + b.b * r) / d
  {
    var n, d := |colors| - 1, total - 1;
    PosDivided(|colors|, index, total, k, r);
    StopBefore(index, n, d, k, r);
    GradientPosBounds(|colors|, index, total);
    hide GradientPos, Divided, Mix;
    var pos := GradientPos(|colors|, index, total);
    var t := pos - k as real;
    ShareBelow(r, d);
    assert pos.Floor == k;
    MixDivides(colors[k].r, colors[k + 1].r, t, r, d);
    MixDivides(colors[k].g, colors[k + 1].g, t, r, d);
    MixDivides(colors[k].b, colors[k + 1].b, t, r, d);
  }

  lemma StopBefore(index: nat, n: nat, d: int, k: nat, r: nat)
    requires n >= 1 && index < d && Divided(index * n, d, k, r)
    ensures k < n
  {
    OrderKept(index as real, d as real, n as real);
    assert index as real * n as real == (index * n) as real && d as real * n as real == (d * n) as real;
    assert (k * d) as real == k as real * d as real && (n * d) as real == n as real * d as real;
    assert k * d < d * n;
    OrderKept(k as real, n as real, d as real);
  }

  lemma OrderKept(a: real, b: real, d: real)
    requires d > 0.0
    ensures a < b <==> a * d < b * d
  {
    if a < b {
      ScaleBound(b - a, d);
      assert (b - a) * d == b * d - a * d;
    } else {
      NonNegative(a - b, d);
      assert (a - b) * d == a * d - b * d;
    }
  }

  lemma PosDivided(stops: nat, index: nat, total: int, k: nat, r: nat)
    requires stops >= 2 && total > 1 && Divided(index * (stops - 1), total - 1, k, r)
    ensures GradientPos(stops, index, total) == k as real + r as real / (total - 1) as real
  {
    Exact(index, stops - 1, k, total - 1, r);
    Quotient(index as real, (total - 1) as real, stops as real - 1.0, k as real, r as real);
  }

  /** A division's numbers, as reals. */
  lemma Exact(index: int, n: int, k: int, d: int, r: int)
    requires Divided(index * n, d, k, r)
    ensures index as real * n as real == k as real * d as real + r as real
  {
    assert (index * n) as real == index as real * n as real;
    assert (k * d) as real == k as real * d as real;
  }

  lemma Quotient(x: real, d: real, n: real, k: real, r: real)
    requires d > 0.0 && x * n == k * d + r
    ensures (x / d) * n == k + r / d
  {
    var q, f := x / d, r / d;
    assert q * d == x && f * d == r;
    assert (q * n) * d == x * n;
    assert (k + f) * d == k * d + r;
    assert (q * n - (k + f)) * d == 0.0;
  }

  lemma ShareBelow(r: nat, d: int)
    requires r < d
    ensures 0.0 <= r as real / d as real < 1.0
  {
    Ratio(r as real, d as real);
    DivTimes(r as real, d as real);
    OrderKept(r as real / d as real, 1.0, d as real);
  }

  lemma DivTimes(x: real, d: real)
    requires d != 0.0
    ensures (x / d) * d == x && 1.0 * d == d
  {}

  /** Blending and cutting off is dividing the weighted sum. */
  lemma MixDivides(a: Channel, b: Channel, t: real, r: nat, d: int)
    requires r < d && t == r as real / d as real
    ensures Mix(a, b, t) == (a * (d - r) + b * r) / d
  {
    var v := Blend(a as real, b as real, t);
    var sum := a * (d - r) + b * r;
    assert v * d as real == sum as real by {
      assert t * d as real == r as real;
      BlendTimes(a as real, b as real, t, d as real, r as real);
      assert sum as real == a as real * (d - r) as real + b as real * r as real;
    }
    FloorDivides(v, sum, d);
  }

  lemma BlendTimes(a: real, b: real, t: real, d: real, r: real)
    requires t * d == r
    ensures Blend(a, b, t) * d == a * (d - r) + b * r
  {
    assert (a * (1.0 - t)) * d == a * (d - t * d);
    assert (b * t) * d == b * (t * d);
  }

  lemma FloorDivides(v: real, sum: int, d: int)
    requires d > 0 && v * d as real == sum as real
    ensures v.Floor == sum / d
  {
    var q := sum / d;
    QuotientBounds(sum, d);
    OrderKept(v, q as real, d as real);
    OrderKept(v, (q + 1) as real, d as real);
    FloorIs(v, q);
  }

  lemma QuotientBounds(n: int, d: int)
    requires d > 0
    ensures (n / d) as real * d as real <= n as real < (n / d + 1) as real * d as real
  {
    var q := n / d;
    assert n == q * d + n % d && (q + 1) * d == q * d + d;
    RealProduct(q, d);
    RealProduct(q + 1, d);
  }

  lemma RealProduct(a: int, b: int)
    ensures (a * b) as real == a as real * b as real
  {}

  lemma FloorIs(v: real, q: int)
    requires q as real <= v < (q + 1) as real
    ensures v.Floor == q
  {}
}
