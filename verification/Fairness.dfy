/** The two arithmetic schedulers of src/app.rs: weighted round-robin by prefix sums of the
    weights, and least-connections by a truncated quotient. */
module Fairness {
  import opened Common

  const TWO32: nat := 0x1_0000_0000
  const TWO64: nat := 0x1_0000_0000_0000_0000
  const SCALE: nat := 1_000_000

  /** Effective weights are at least 1. */
  ghost predicate Weights(ws: seq<nat>) {
    ws != [] && forall i | 0 <= i < |ws| :: ws[i] >= 1
  }

  function Total(ws: seq<nat>): nat {
    if ws == [] then 0 else ws[0] + Total(ws[1..])
  }

  // ----- Weighted round-robin -----

  /** The pool member that owns slot `target`. */
  ghost function Slot(ws: seq<nat>, target: nat): (p: nat)
    requires target < Total(ws)
    ensures p < |ws|
  {
    if ws[0] > target then 0 else 1 + Slot(ws[1..], target - ws[0])
  }

  /** `pick_weighted_rr` on the counter value it fetched, which is cut to 32 bits like the sum of
      the weights.  There is no pick exactly when that sum is cut to 0; otherwise the loop finds a
      member, and the fallback to the first one is not reached. */
  method PickWeightedRr(ws: seq<nat>, counter: nat) returns (p: Option<nat>)
    ensures p.None? <==> Total(ws) % 0x1_0000_0000 == 0
    ensures p.Some? ==> p.value == Slot(ws, counter % 0x1_0000_0000 % (Total(ws) % 0x1_0000_0000))
  {
    var total := Total(ws) % TWO32;
    if total == 0 {
      return None;
    }
    var target: nat := counter % TWO32 % total;
    ghost var start := target;
    for i := 0 to |ws|
      invariant target < Total(ws[i..])
      invariant Slot(ws, start) == i + Slot(ws[i..], target)
    {
      var w := ws[i];
      if w > target {
        return Some(i);
      }
      target := target - w;
    }
    assert false;
  }

  ghost function Prefix(ws: seq<nat>, p: nat): nat
    requires p <= |ws|
  {
    if p == 0 then 0 else ws[0] + Prefix(ws[1..], p - 1)
  }

  /** A member owns the interval of slots between its prefix sums. */
  lemma {:induction false} SlotOwner(ws: seq<nat>, target: nat, p: nat)
    requires target < Total(ws) && p < |ws|
    ensures Slot(ws, target) == p <==> Prefix(ws, p) <= target < Prefix(ws, p) + ws[p]
  {
    if p == 0 {
    } else if ws[0] <= target {
      SlotOwner(ws[1..], target - ws[0], p - 1);
    }
  }

  lemma {:induction false} PrefixWithinTotal(ws: seq<nat>, p: nat)
    requires p < |ws|
    ensures Prefix(ws, p) + ws[p] <= Total(ws)
  {
    if p > 0 {
      PrefixWithinTotal(ws[1..], p - 1);
    }
  }

  /** How many of the `n` counter values from `c` on pick member `p`. */
  ghost function Picks(ws: seq<nat>, p: nat, c: nat, n: nat): nat
    requires Weights(ws)
  {
    if n == 0 then 0
    else Picks(ws, p, c, n - 1) + if Slot(ws, (c + n - 1) % TWO32 % Total(ws)) == p then 1 else 0
  }

  lemma Distribute(x: int, y: int, z: int)
    ensures (x + y) * z == x * z + y * z
  {
  }

  lemma {:induction false} MulGrows(d: nat, t: nat)
    requires d >= 1
    ensures d * t >= t
  {
    if d > 1 {
      MulGrows(d - 1, t);
      Distribute(d - 1, 1, t);
    }
  }

  lemma Negate(d: int, t: int)
    ensures (-d) * t == -(d * t)
  {
  }

  lemma SmallMultiple(d: int, t: int)
    requires t > 0 && -t < d * t < t
    ensures d == 0
  {
    Negate(d, t);
    if d >= 1 {
      MulGrows(d, t);
      assert false;
    } else if d <= -1 {
      MulGrows(-d, t);
      assert false;
    }
  }

  lemma DivModUnique(x: nat, t: nat, q: nat, r: nat)
    requires x == q * t + r && r < t
    ensures x / t == q && x % t == r
  {
    var q', r' := x / t, x % t;
    assert x == q' * t + r';
    Distribute(q' - q, q, t);
    SmallMultiple(q' - q, t);
  }

  function Clamp(x: int, w: nat): nat {
    if x < 0 then 0 else if x > w then w else x
  }

  /** How many k < x have their residue modulo t in [a, a + w). */
  ghost function Below(a: nat, w: nat, t: nat, x: nat): nat
    requires t > 0
  {
    x / t * w + Clamp(x % t - a, w)
  }

  lemma BelowAt(a: nat, w: nat, t: nat, x: nat, q: nat, r: nat)
    requires t > 0 && x == q * t + r && r < t
    ensures Below(a, w, t, x) == q * w + Clamp(r - a, w)
  {
    DivModUnique(x, t, q, r);
  }

  lemma BelowStep(a: nat, w: nat, t: nat, x: nat)
    requires a + w <= t && t > 0
    ensures Below(a, w, t, x + 1) == Below(a, w, t, x) + if a <= x % t < a + w then 1 else 0
  {
    var q, r := x / t, x % t;
    assert x == q * t + r;
    if r + 1 < t {
      BelowAt(a, w, t, x + 1, q, r + 1);
    } else {
      Distribute(q, 1, t);
      BelowAt(a, w, t, x + 1, q + 1, 0);
      Distribute(q, 1, w);
    }
  }

  /** The partial periods at the two ends of a window. */
  lemma ClampWindow(a: nat, w: nat, t: nat, r1: nat, r2: nat)
    requires a + w <= t && r1 < t && r2 < t
    ensures r1 + r2 < t ==> 0 <= Clamp(r1 + r2 - a, w) - Clamp(r1 - a, w) <= Min(w, r2)
    ensures r1 + r2 >= t ==> 0 <= w + Clamp(r1 + r2 - t - a, w) - Clamp(r1 - a, w) <= Min(w, r2)
  {
  }

  /** Division of a sum. */
  lemma DivModSum(c: nat, n: nat, t: nat)
    requires t > 0
    ensures var carry := if c % t + n % t < t then 0 else 1;
            && (c + n) / t == c / t + n / t + carry
            && (c + n) % t == c % t + n % t - carry * t
  {
    assert c == c / t * t + c % t;
    assert n == n / t * t + n % t;
    AddQuotients(c, n, t, c / t, c % t, n / t, n % t);
  }

  lemma AddQuotients(c: nat, n: nat, t: nat, q1: nat, r1: nat, q2: nat, r2: nat)
    requires c == q1 * t + r1 && n == q2 * t + r2 && r1 < t && r2 < t
    ensures var carry := if r1 + r2 < t then 0 else 1;
            (c + n) / t == q1 + q2 + carry && (c + n) % t == r1 + r2 - carry * t
  {
    Distribute(q1, q2, t);
    if r1 + r2 < t {
      DivModUnique(c + n, t, q1 + q2, r1 + r2);
    } else {
      Distribute(q1 + q2, 1, t);
      DivModUnique(c + n, t, q1 + q2 + 1, r1 + r2 - t);
    }
  }

  /** Over a window of `n` slots every residue interval of width w is met between
      n/t * w and n/t * w + min(w, n mod t) times. */
  lemma BelowWindow(a: nat, w: nat, t: nat, c: nat, n: nat)
    requires a + w <= t && t > 0
    ensures var d := Below(a, w, t, c + n) - Below(a, w, t, c);
            n / t * w <= d <= n / t * w + Min(w, n % t)
  {
    var carry := if c % t + n % t < t then 0 else 1;
    DivModSum(c, n, t);
    Distribute(c / t, n / t, w);
    Distribute(c / t + n / t, carry, w);
    ClampWindow(a, w, t, c % t, n % t);
  }

  lemma {:induction false} PicksAreBelow(ws: seq<nat>, p: nat, c: nat, n: nat, base: nat)
    requires Weights(ws) && p < |ws| && base <= c
    requires forall k | c <= k < c + n :: k % TWO32 % Total(ws) == (k - base) % Total(ws)
    ensures var a, w, t := Prefix(ws, p), ws[p], Total(ws);
            Picks(ws, p, c, n) == Below(a, w, t, c - base + n) - Below(a, w, t, c - base)
  {
    if n > 0 {
      PicksAreBelow(ws, p, c, n - 1, base);
      PrefixWithinTotal(ws, p);
      BelowStep(Prefix(ws, p), ws[p], Total(ws), c - base + n - 1);
      SlotOwner(ws, (c + n - 1 - base) % Total(ws), p);
    }
  }

  /** The window does not cross a multiple of 2^32. */
  ghost predicate Unwrapped(c: nat, n: nat) {
    n == 0 || c / TWO32 == (c + n - 1) / TWO32
  }

  lemma Offset(c: nat, n: nat, k: nat)
    requires Unwrapped(c, n) && c <= k < c + n
    ensures k % TWO32 == k - c / TWO32 * TWO32
  {
    assert k / TWO32 == c / TWO32;
  }

  /** Weighted round-robin share: any n consecutive counter values that do not cross a multiple
      of 2^32 pick a member of weight w between floor(n/T) w and floor(n/T) w + min(w, n mod T)
      times. */
  lemma RoundRobinShare(ws: seq<nat>, p: nat, c: nat, n: nat)
    requires Weights(ws) && Total(ws) < TWO32 && p < |ws| && Unwrapped(c, n)
    ensures var w, t := ws[p], Total(ws);
            n / t * w <= Picks(ws, p, c, n) <= n / t * w + Min(w, n % t)
  {
    var base := c / TWO32 * TWO32;
    forall k | c <= k < c + n ensures k % TWO32 % Total(ws) == (k - base) % Total(ws) {
      Offset(c, n, k);
    }
    PicksAreBelow(ws, p, c, n, base);
    PrefixWithinTotal(ws, p);
    BelowWindow(Prefix(ws, p), ws[p], Total(ws), c - base, n);
  }

  /** So every period picks each member exactly its weight. */
  lemma RoundRobinPeriod(ws: seq<nat>, p: nat, c: nat)
    requires Weights(ws) && Total(ws) < TWO32 && p < |ws| && Unwrapped(c, Total(ws))
    ensures Picks(ws, p, c, Total(ws)) == ws[p]
  {
    var t := Total(ws);
    RoundRobinShare(ws, p, c, t);
    DivModUnique(t, t, 1, 0);
  }

  // ----- Across the 32-bit wrap -----

  /** Every period of the counter, wrapping or not, picks each member exactly its weight. */
  ghost predicate FairAcrossWrap(ws: seq<nat>)
    requires Weights(ws)
  {
    forall c: nat, p: nat | p < |ws| :: Picks(ws, p, c, Total(ws)) == ws[p]
  }

  lemma ModOfMultiple(k: nat, t: nat)
    requires t > 0 && TWO32 % t == 0
    ensures k % TWO32 % t == k % t
  {
    var d := TWO32 / t;
    var q, r := k / TWO32, k % TWO32;
    var q', r' := r / t, r % t;
    assert TWO32 == d * t;
    assert k == q * TWO32 + r && r == q' * t + r';
    assert q * (d * t) == (q * d) * t;
    assert k == (q * d + q') * t + r' by { assert (q * d + q') * t == (q * d) * t + q' * t; }
    DivModUnique(k, t, q * d + q', r');
  }

  lemma {:induction false} PicksSplit(ws: seq<nat>, p: nat, c: nat, m: nat, n: nat)
    requires Weights(ws)
    ensures Picks(ws, p, c, m + n) == Picks(ws, p, c, m) + Picks(ws, p, c + m, n)
  {
    if n > 0 {
      PicksSplit(ws, p, c, m, n - 1);
    }
  }

  lemma {:induction false} SingleMember(ws: seq<nat>, c: nat, n: nat)
    requires Weights(ws) && |ws| == 1
    ensures Picks(ws, 0, c, n) == n
  {
    if n > 0 {
      SingleMember(ws, c, n - 1);
    }
  }

  /** When the total does not divide 2^32, the period that straddles the wrap replays the first
      slots and gives the first of several members too many picks. */
  lemma StraddlingPeriod(ws: seq<nat>)
    requires Weights(ws) && Total(ws) < TWO32 && |ws| > 1 && TWO32 % Total(ws) != 0
    ensures Picks(ws, 0, TWO32 - TWO32 % Total(ws), Total(ws)) > ws[0]
  {
    var t, w := Total(ws), ws[0];
    var r := TWO32 % t;
    var c := TWO32 - r;
    assert t > w by { assert Total(ws[1..]) >= ws[1]; }
    PicksSplit(ws, 0, c, r, t - r);
    BeforeWrap(ws);
    AfterWrap(ws, t - r);
  }

  lemma BeforeWrap(ws: seq<nat>)
    requires Weights(ws) && Total(ws) < TWO32
    ensures var r := TWO32 % Total(ws); Picks(ws, 0, TWO32 - r, r) == Min(r, ws[0])
  {
    var t := Total(ws);
    var r := TWO32 % t;
    PicksAreBelow(ws, 0, TWO32 - r, r, 0);
    LastPartialPeriod(ws[0], t, TWO32);
  }

  lemma LastPartialPeriod(w: nat, t: nat, x: nat)
    requires w <= t && t > 0
    ensures x % t <= x && Below(0, w, t, x) - Below(0, w, t, x - x % t) == Min(x % t, w)
  {
    assert x == x / t * t + x % t;
    DivModUnique(x - x % t, t, x / t, 0);
  }

  lemma AfterWrap(ws: seq<nat>, n: nat)
    requires Weights(ws) && Total(ws) < TWO32 && n < Total(ws)
    ensures Picks(ws, 0, TWO32, n) == Min(n, ws[0])
  {
    var t := Total(ws);
    forall k | TWO32 <= k < TWO32 + n ensures k % TWO32 % t == (k - TWO32) % t {
      DivModUnique(k, TWO32, 1, k - TWO32);
    }
    PicksAreBelow(ws, 0, TWO32, n, TWO32);
    DivModUnique(n, t, 0, n);
    DivModUnique(0, t, 0, 0);
  }

  /** The round-robin is fair across the wrap exactly when the pool has one member or its total
      weight divides 2^32. */
  lemma FairAcrossWrapIff(ws: seq<nat>)
    requires Weights(ws) && Total(ws) < TWO32
    ensures FairAcrossWrap(ws) <==> |ws| == 1 || TWO32 % Total(ws) == 0
  {
    var t := Total(ws);
    if |ws| == 1 {
      forall c: nat, p: nat | p < |ws| ensures Picks(ws, p, c, t) == ws[p] {
        SingleMember(ws, c, t);
        assert ws[1..] == [];
      }
    } else if TWO32 % t == 0 {
      forall c: nat, p: nat | p < |ws| ensures Picks(ws, p, c, t) == ws[p] {
        FairWhenDividing(ws, p, c);
      }
    } else {
      StraddlingPeriod(ws);
    }
  }

  lemma FairWhenDividing(ws: seq<nat>, p: nat, c: nat)
    requires Weights(ws) && p < |ws| && TWO32 % Total(ws) == 0
    ensures Picks(ws, p, c, Total(ws)) == ws[p]
  {
    var t := Total(ws);
    forall k | c <= k < c + t ensures k % TWO32 % t == (k - 0) % t {
      ModOfMultiple(k, t);
    }
    PicksAreBelow(ws, p, c, t, 0);
    PrefixWithinTotal(ws, p);
    BelowWindow(Prefix(ws, p), ws[p], t, c, t);
    DivModUnique(t, t, 1, 0);
  }

  // ----- Least connections -----

  datatype Load = Load(inFlight: nat, weight: nat)

  function Score(l: Load): nat
    requires l.weight >= 1
  {
    l.inFlight * SCALE / l.weight
  }

  /** `pick_least_conn`: the first member with the smallest score. */
  method PickLeastConn(pool: seq<Load>) returns (c: nat)
    requires pool != [] && forall i | 0 <= i < |pool| :: pool[i].weight >= 1
    ensures c < |pool|
    ensures forall i | 0 <= i < |pool| :: Score(pool[c]) <= Score(pool[i])
    ensures forall i | 0 <= i < c :: Score(pool[c]) < Score(pool[i])
  {
    c := 0;
    for i := 1 to |pool|
      invariant c < |pool|
      invariant forall j | 0 <= j < i :: Score(pool[c]) <= Score(pool[j])
      invariant forall j | 0 <= j < c :: Score(pool[c]) < Score(pool[j])
      invariant c < i
    {
      if Score(pool[i]) < Score(pool[c]) {
        c := i;
      }
    }
  }

  /** The score fits in 64 bits. */
  lemma ScoreFits(l: Load)
    requires l.weight >= 1 && l.inFlight < TWO32
    ensures l.inFlight * 1_000_000 < 0x1_0000_0000_0000_0000 && Score(l) < 0x1_0000_0000_0000_0000
  {
    var x, w := l.inFlight * SCALE, l.weight;
    assert x == x / w * w + x % w;
    MulGrows(w, x / w);
  }

  /** Truncation costs little: a member c that scores no worse than o carries a relative load at
      most a millionth above that of o. */
  lemma LeastConnError(c: Load, o: Load)
    requires c.weight >= 1 && o.weight >= 1 && Score(c) <= Score(o)
    ensures 1_000_000 * (c.inFlight * o.weight - o.inFlight * c.weight) < c.weight * o.weight
  {
    var x, y, v, w := c.inFlight * SCALE, o.inFlight * SCALE, c.weight, o.weight;
    var s, t := x / v, y / w;
    assert x < (s + 1) * v by { assert x == s * v + x % v; }
    assert t * w <= y by { assert y == t * w + y % w; }
    assert x * w < (s + 1) * v * w;
    assert s * w <= t * w;
    assert v * (s * w) <= v * y by { assert s * w <= y; }
    assert (s + 1) * v * w == v * (s * w) + v * w;
    assert x * w == SCALE * (c.inFlight * o.weight);
    assert v * y == SCALE * (o.inFlight * c.weight);
  }

  /** ... so the choice is exact against every member if the least common multiple of the two
      weights is at most a million (`g` is a common factor), and against every member at all if the
      chosen one's weight divides a million. */
  lemma LeastConnExact(c: Load, o: Load, g: nat)
    requires c.weight >= 1 && o.weight >= 1 && Score(c) <= Score(o)
    requires g >= 1 && c.weight % g == 0 && o.weight % g == 0
    requires c.weight / g * o.weight <= 1_000_000 || 1_000_000 % c.weight == 0
    ensures c.inFlight * o.weight <= o.inFlight * c.weight
  {
    if SCALE % c.weight == 0 {
      ExactForDivisor(c, o, SCALE / c.weight);
    } else {
      ExactForFactor(c, o, g, c.weight / g, o.weight / g);
    }
  }

  lemma ExactForFactor(c: Load, o: Load, g: nat, a: nat, b: nat)
    requires c.weight >= 1 && o.weight >= 1 && Score(c) <= Score(o)
    requires c.weight == g * a && o.weight == g * b && a * o.weight <= SCALE
    ensures c.inFlight * o.weight <= o.inFlight * c.weight
  {
    LeastConnError(c, o);
    var d := c.inFlight * b - o.inFlight * a;
    assert g >= 1 && c.inFlight * o.weight - o.inFlight * c.weight == g * d;
    assert c.weight * o.weight == g * (a * o.weight);
    if d >= 1 {
      AtLeastScale(g, d);
      ScaleUp(a * o.weight, SCALE, g);
      assert false;
    }
    NotPositive(g, d);
  }

  lemma AtLeastScale(g: nat, d: int)
    requires d >= 1
    ensures SCALE * (g * d) >= SCALE * g
  {
    MulGrows(d, g);
  }

  lemma NotPositive(g: nat, d: int)
    requires d <= 0
    ensures g * d <= 0
  {
  }

  lemma ExactForDivisor(c: Load, o: Load, k: nat)
    requires c.weight >= 1 && o.weight >= 1 && Score(c) <= Score(o) && SCALE == k * c.weight
    ensures c.inFlight * o.weight <= o.inFlight * c.weight
  {
    var y := o.inFlight * SCALE;
    var x := c.inFlight * k;
    assert c.inFlight * SCALE == x * c.weight by { assert c.inFlight * (k * c.weight) == x * c.weight; }
    DivModUnique(c.inFlight * SCALE, c.weight, x, 0);
    var t := y / o.weight;
    assert x * o.weight <= y by {
      assert y == t * o.weight + y % o.weight;
      ScaleUp(x, t, o.weight);
    }
    assert x * o.weight == k * (c.inFlight * o.weight);
    assert y == k * (o.inFlight * c.weight) by { assert o.inFlight * (k * c.weight) == k * (o.inFlight * c.weight); }
    CancelFactor(k, c.inFlight * o.weight, o.inFlight * c.weight);
  }

  lemma ScaleUp(x: nat, t: nat, w: nat)
    requires x <= t
    ensures x * w <= t * w
  {
  }

  lemma MulStrict(k: nat, a: nat, b: nat)
    requires k > 0 && a > b
    ensures k * a > k * b
  {
    MulGrows(a - b, k);
    assert k * a == k * b + (a - b) * k;
  }

  lemma CancelFactor(k: nat, a: nat, b: nat)
    requires k > 0 && k * a <= k * b
    ensures a <= b
  {
    if a > b {
      MulStrict(k, a, b);
    }
  }

  /** Against an idle member: a busy one is no worse in score exactly when its scaled load is below
      its weight, so an idle peer is passed over only by such a peer in front of it. */
  lemma TiesWithIdleIff(c: Load, o: Load)
    requires c.weight >= 1 && o.weight >= 1 && o.inFlight == 0
    ensures Score(c) <= Score(o) <==> c.inFlight * 1_000_000 < c.weight
  {
    var x := c.inFlight * SCALE;
    DivModUnique(0, o.weight, 0, 0);
    assert x == x / c.weight * c.weight + x % c.weight;
    if x < c.weight {
      DivModUnique(x, c.weight, 0, x);
    } else if x / c.weight == 0 {
      assert false;
    }
  }
}
