/**
  The circle registry of src/main.ts: a JavaScript array of `[x, y, r]` triples
  written at a wrapping cursor, grown in place, and filtered by clicks.

  The array may be sparse (a write past its end leaves holes), so it is modelled
  as a sequence of optional slots; `None` is a hole.
*/
module Circles {
  import opened Options

  /** MAX_CIRCLES: the cursor wraps modulo this many slots. */
  const MAX_CIRCLES: nat := 5

  /** A circle `[x, y, r]`: an integer centre (the spawn position is floored) and a
      radius counted in growth ticks. */
  datatype Circle = Circle(x: int, y: int, r: nat)

  /** The `offsetX`/`offsetY` of a queued click, which may be fractional. */
  datatype Click = Click(x: real, y: real)

  type Slot = Option<Circle>

  /** The number of present circles, skipping holes. */
  function Live(s: seq<Slot>): (n: nat)
    ensures n <= |s|
  {
    if s == [] then 0 else (if s[0].Some? then 1 else 0) + Live(s[1..])
  }

  lemma {:induction false} LiveAppend(a: seq<Slot>, b: seq<Slot>)
    ensures Live(a + b) == Live(a) + Live(b)
  {
    if a == [] {
      assert a + b == b;
    } else {
      assert (a + b)[1..] == a[1..] + b;
      LiveAppend(a[1..], b);
    }
  }

  /** A sequence with no holes has as many live circles as entries. */
  ghost predicate Dense(s: seq<Slot>)
  {
    forall i :: 0 <= i < |s| ==> s[i].Some?
  }

  lemma {:induction false} DenseLive(s: seq<Slot>)
    requires Dense(s)
    ensures Live(s) == |s|
  {
    if s != [] {
      DenseLive(s[1..]);
    }
  }

  // ---------------------------------------------------------------- spawning

  /** The array after `circles[i] = [c.x, c.y, c.r]`: slot i holds c, every other
      existing slot is unchanged, and a write past the end stretches the array to
      i + 1 entries, the ones in between being holes. */
  function Written(s: seq<Slot>, i: nat, c: Circle): (w: seq<Slot>)
    ensures |w| == if i < |s| then |s| else i + 1
    ensures w[i] == Some(c)
    ensures forall j :: 0 <= j < |s| && j != i ==> w[j] == s[j]
    ensures forall j :: |s| <= j < i ==> w[j] == None
  {
    if i < |s| then s[i := Some(c)] else s + seq(i - |s|, _ => None) + [Some(c)]
  }

  /** The array after spawning the circles `ps` in order, starting with the
      cursor at `cursor`: the k-th of them is written at slot (cursor + k) mod
      MAX_CIRCLES. */
  function SpawnAll(s: seq<Slot>, cursor: nat, ps: seq<Circle>): seq<Slot>
    decreases |ps|
  {
    if ps == [] then s
    else Written(SpawnAll(s, cursor, ps[..|ps| - 1]), (cursor + |ps| - 1) % MAX_CIRCLES, ps[|ps| - 1])
  }

  /** Spawning keeps the array within MAX_CIRCLES entries. */
  lemma {:induction false} SpawnAllBounded(s: seq<Slot>, cursor: nat, ps: seq<Circle>)
    requires |s| <= MAX_CIRCLES
    ensures |s| <= |SpawnAll(s, cursor, ps)| <= MAX_CIRCLES
    decreases |ps|
  {
    if ps != [] {
      SpawnAllBounded(s, cursor, ps[..|ps| - 1]);
    }
  }

  /** Ring-buffer reuse: each of the last MAX_CIRCLES spawns sits in its own slot
      (cursor + j) mod MAX_CIRCLES, so the spawn MAX_CIRCLES places later
      overwrote every earlier one, whatever its size. */
  lemma {:induction false} SpawnAllLatest(s: seq<Slot>, cursor: nat, ps: seq<Circle>, j: nat)
    requires j < |ps| && |ps| <= j + MAX_CIRCLES
    ensures (cursor + j) % MAX_CIRCLES < |SpawnAll(s, cursor, ps)|
    ensures SpawnAll(s, cursor, ps)[(cursor + j) % MAX_CIRCLES] == Some(ps[j])
    decreases |ps|
  {
    var n := |ps| - 1;
    if j < n {
      var front := ps[..n];
      assert front[j] == ps[j];
      SpawnAllLatest(s, cursor, front, j);
      DistinctSlots(cursor, j, n);
    }
  }

  /** Fewer than MAX_CIRCLES cursor advances never return to the same slot. */
  lemma DistinctSlots(cursor: nat, j: nat, n: nat)
    requires j < n < j + MAX_CIRCLES
    ensures (cursor + j) % MAX_CIRCLES != (cursor + n) % MAX_CIRCLES
  {
  }

  // ------------------------------------------------------------------ growth

  /** One growth step for one slot: a present circle's radius goes up by one. */
  function GrowSlot(slot: Slot): Slot
  {
    match slot
    case None => None
    case Some(c) => Some(c.(r := c.r + 1))
  }

  /** The array after one growth tick: `forEach` visits the present entries only. */
  function Grown(s: seq<Slot>): (g: seq<Slot>)
    ensures |g| == |s|
    ensures forall i :: 0 <= i < |s| ==> (g[i].None? <==> s[i].None?)
    ensures forall i :: 0 <= i < |s| && s[i].Some? ==>
      g[i].value.x == s[i].value.x && g[i].value.y == s[i].value.y && g[i].value.r == s[i].value.r + 1
  {
    seq(|s|, i requires 0 <= i < |s| => GrowSlot(s[i]))
  }

  /** `n` growth ticks in a row. */
  function GrownTimes(s: seq<Slot>, n: nat): seq<Slot>
  {
    if n == 0 then s else Grown(GrownTimes(s, n - 1))
  }

  /** After n growth ticks every circle is where it was and n larger; holes stay
      holes. */
  lemma {:induction false} GrownTimesAt(s: seq<Slot>, n: nat, i: nat)
    requires i < |s|
    ensures |GrownTimes(s, n)| == |s|
    ensures GrownTimes(s, n)[i].None? <==> s[i].None?
    ensures s[i].Some? ==> GrownTimes(s, n)[i] == Some(s[i].value.(r := s[i].value.r + n))
  {
    if n > 0 {
      GrownTimesAt(s, n - 1, i);
    }
  }

  // ------------------------------------------------------------- hit testing

  /** The squared distance between a circle's centre and a click. */
  function SquaredDistance(c: Circle, k: Click): (d2: real)
    ensures d2 >= 0.0
  {
    var dx, dy := c.x as real - k.x, c.y as real - k.y;
    dx * dx + dy * dy
  }

  /** n * n for a whole radius, built up as a sum of odd numbers so that the
      proofs that only pass it around stay in linear arithmetic. */
  function Squared(n: nat): (sq: real)
    ensures sq >= 0.0
  {
    if n == 0 then 0.0 else Squared(n - 1) + 2.0 * n as real - 1.0
  }

  lemma {:induction false} SquaredIsProduct(n: nat)
    ensures Squared(n) == n as real * n as real
  {
    if n > 0 {
      SquaredIsProduct(n - 1);
    }
  }

  /** The filter predicate of handleInput: a circle survives a click iff its
      radius is below the distance, compared on squares since the radius is not
      negative. */
  predicate Survives(c: Circle, k: Click)
  {
    Squared(c.r) < SquaredDistance(c, k)
  }

  /** With `d` the Euclidean distance (the square root of the squared distance),
      a circle survives iff r < d: a click exactly on the rim leaves the circle
      alone and any click inside the rim pops it. */
  lemma SurvivesIffRadiusBelowDistance(c: Circle, k: Click, d: real)
    requires d >= 0.0 && d * d == SquaredDistance(c, k)
    ensures Survives(c, k) <==> (c.r as real) < d
  {
    var r := c.r as real;
    SquaredIsProduct(c.r);
    assert Survives(c, k) <==> r * r < d * d;
    if r < d {
      SquareStrict(r, d);
    } else {
      SquareWeak(d, r);
    }
  }

  /** Squaring is strictly increasing on non-negative reals. */
  lemma SquareStrict(a: real, b: real)
    requires 0.0 <= a < b
    ensures a * a < b * b
  {
    var low, mid, high := a * a, a * b, b * b;
    assert low <= mid by { assert a * (b - a) >= 0.0; }
    assert mid < high by { assert (b - a) * b > 0.0; }
  }

  /** Squaring is increasing on non-negative reals. */
  lemma SquareWeak(a: real, b: real)
    requires 0.0 <= a <= b
    ensures a * a <= b * b
  {
    var low, mid, high := a * a, a * b, b * b;
    assert low <= mid by { assert a * (b - a) >= 0.0; }
    assert mid <= high by { assert (b - a) * b >= 0.0; }
  }

  /** The array `circles.filter(...)` returns for one click: holes are dropped,
      surviving circles are kept in order. */
  function Survivors(s: seq<Slot>, k: Click): (t: seq<Slot>)
    ensures |t| <= |s|
  {
    if s == [] then [] else Kept(s[0], k) + Survivors(s[1..], k)
  }

  /** What the filter keeps of one slot. */
  function Kept(slot: Slot, k: Click): seq<Slot>
  {
    if slot.Some? && Survives(slot.value, k) then [slot] else []
  }

  /** The filtered array has no holes, and holds exactly the circles of the
      original that survive the click. */
  lemma {:induction false} SurvivorsMembers(s: seq<Slot>, k: Click)
    ensures Dense(Survivors(s, k))
    ensures forall c :: Some(c) in Survivors(s, k) <==> Some(c) in s && Survives(c, k)
  {
    if s != [] {
      SurvivorsMembers(s[1..], k);
      assert forall c :: Some(c) in s <==> s[0] == Some(c) || Some(c) in s[1..];
    }
  }

  /** 1 when the slot holds a circle the click pops. */
  function Popped(slot: Slot, k: Click): nat
  {
    if slot.Some? && !Survives(slot.value, k) then 1 else 0
  }

  /** The number of circles one click pops: one `playAudio()` call each. */
  function PopCount(s: seq<Slot>, k: Click): nat
  {
    if s == [] then 0
    else Popped(s[0], k) + PopCount(s[1..], k)
  }

  /** Every present circle either survives or is popped, exactly once. */
  lemma {:induction false} SurvivorsCount(s: seq<Slot>, k: Click)
    ensures |Survivors(s, k)| + PopCount(s, k) == Live(s)
  {
    if s != [] {
      SurvivorsCount(s[1..], k);
    }
  }

  /** Filtering distributes over concatenation, so survivors keep their relative
      order; popping is counted piece by piece the same way. */
  lemma {:induction false} SurvivorsAppend(a: seq<Slot>, b: seq<Slot>, k: Click)
    ensures Survivors(a + b, k) == Survivors(a, k) + Survivors(b, k)
    ensures PopCount(a + b, k) == PopCount(a, k) + PopCount(b, k)
  {
    if a == [] {
      assert a + b == b;
    } else {
      assert (a + b)[1..] == a[1..] + b;
      SurvivorsAppend(a[1..], b, k);
    }
  }

  /** Filtering one more slot appends what the filter keeps of it. */
  lemma FilterStep(s: seq<Slot>, i: nat, k: Click)
    requires i < |s|
    ensures Survivors(s[..i + 1], k) == Survivors(s[..i], k) + Kept(s[i], k)
    ensures PopCount(s[..i + 1], k) == PopCount(s[..i], k) + Popped(s[i], k)
  {
    assert s[..i + 1] == s[..i] + [s[i]];
    SurvivorsAppend(s[..i], [s[i]], k);
  }

  /** A second identical click pops nothing and changes nothing. */
  lemma {:induction false} SurvivorsIdempotent(s: seq<Slot>, k: Click)
    ensures Survivors(Survivors(s, k), k) == Survivors(s, k)
    ensures PopCount(Survivors(s, k), k) == 0
  {
    if s != [] {
      SurvivorsIdempotent(s[1..], k);
      SurvivorsAppend(Kept(s[0], k), Survivors(s[1..], k), k);
    }
  }

  // ------------------------------------------------------ a frame's clicks

  /** The array after the clicks of one frame, each filtering what the previous
      one left. */
  function ResolveAll(s: seq<Slot>, ks: seq<Click>): seq<Slot>
    decreases ks
  {
    if ks == [] then s else ResolveAll(Survivors(s, ks[0]), ks[1..])
  }

  /** The pops of one frame's clicks, summed in click order. */
  function TotalPops(s: seq<Slot>, ks: seq<Click>): nat
    decreases ks
  {
    if ks == [] then 0 else PopCount(s, ks[0]) + TotalPops(Survivors(s, ks[0]), ks[1..])
  }

  /** Over a frame's clicks: the array never grows, no circle is popped twice (the
      pops are exactly the live circles that disappeared), and once any click was
      processed no hole remains, so the pops equal the initial live count minus
      the final length. */
  lemma {:induction false} ResolveAllAccounting(s: seq<Slot>, ks: seq<Click>)
    ensures |ResolveAll(s, ks)| <= |s|
    ensures TotalPops(s, ks) + Live(ResolveAll(s, ks)) == Live(s)
    ensures ks != [] ==> Dense(ResolveAll(s, ks)) && TotalPops(s, ks) + |ResolveAll(s, ks)| == Live(s)
    decreases ks
  {
    if ks != [] {
      var t := Survivors(s, ks[0]);
      SurvivorsCount(s, ks[0]);
      SurvivorsMembers(s, ks[0]);
      DenseLive(t);
      ResolveAllAccounting(t, ks[1..]);
      if ks[1..] != [] {
        DenseLive(ResolveAll(t, ks[1..]));
      } else {
        assert ResolveAll(t, ks[1..]) == t;
      }
    }
  }
}
