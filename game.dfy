/**
  The game state and per-frame work of src/main.ts: the module-level state
  (circles, cursor, maxDt, the input buffer), the spawn and growth timers, the
  audio pool, and the three steps of a frame: handleInput, update (render only
  draws and is not modelled).
*/
module Simulation {
  import opened Options
  import opened Timing
  import opened Circles
  import opened Sound

  /** The spawn timer fires every 1000 ms, the growth timer every 5000/60 ms. */
  const SPAWN_INTERVAL: real := 1000.0
  const GROWTH_INTERVAL: real := 5000.0 / 60.0

  /** The canvas is never resized, so it keeps the HTML default of 300 x 150. */
  const WIDTH: int := 300
  const HEIGHT: int := 150

  /** A spawn position drawn by `Math.floor(Math.random() * n)` per axis. */
  datatype Position = Position(x: int, y: int)

  predicate OnCanvas(p: Position)
  {
    0 <= p.x < WIDTH && 0 <= p.y < HEIGHT
  }

  /** The circles the spawn timer creates this frame, the k-th at random(k). */
  function Spawns(random: nat -> Position, n: nat): (ps: seq<Circle>)
    ensures |ps| == n
    ensures forall k :: 0 <= k < n ==> ps[k] == Circle(random(k).x, random(k).y, 0)
  {
    seq(n, k requires 0 <= k => Circle(random(k).x, random(k).y, 0))
  }

  /** `Math.max(dt, maxDt)`. */
  function Larger(a: real, b: real): real
  {
    if a >= b then a else b
  }

  /** The value of `maxDt` after the frame deltas `dts`, starting from 0: the
      largest of them, or 0 when there are none or all are below 0. */
  function Peak(dts: seq<real>): (m: real)
    ensures m >= 0.0
    ensures forall i :: 0 <= i < |dts| ==> dts[i] <= m
    ensures m == 0.0 || exists i :: 0 <= i < |dts| && dts[i] == m
  {
    if dts == [] then 0.0 else Larger(dts[|dts| - 1], Peak(dts[..|dts| - 1]))
  }

  /** maxDt never decreases as more frames are seen. */
  lemma PeakMonotone(dts: seq<real>, more: seq<real>)
    ensures Peak(dts) <= Peak(dts + more)
  {
    var m := Peak(dts);
    if m != 0.0 {
      var i :| 0 <= i < |dts| && dts[i] == m;
      assert (dts + more)[i] == m;
    }
  }

  /** Advancing the cursor once more after k advances is k + 1 advances. */
  lemma CursorAdvances(start: nat, k: nat)
    ensures ((start + k) % MAX_CIRCLES + 1) % MAX_CIRCLES == (start + k + 1) % MAX_CIRCLES
  {
  }

  /** One more spawn of the frame writes the k-th circle at the advanced cursor. */
  lemma SpawnsStep(s: seq<Slot>, cursor: nat, random: nat -> Position, k: nat)
    ensures SpawnAll(s, cursor, Spawns(random, k + 1))
            == Written(SpawnAll(s, cursor, Spawns(random, k)), (cursor + k) % MAX_CIRCLES,
                       Circle(random(k).x, random(k).y, 0))
  {
    assert Spawns(random, k + 1)[..k] == Spawns(random, k);
  }

  /** After a frame spawns n circles and grows the array g times, each of the
      last five spawns (the j-th of them taken from random(j)) sits in slot
      (cursor + j) mod 5 with radius g: a later spawn overwrote anything older
      in that slot, and every growth tick since reached it. */
  lemma {:induction false} SpawnedThenGrown(s: seq<Slot>, cursor: nat, random: nat -> Position, n: nat, g: nat, j: nat)
    requires j < n <= j + MAX_CIRCLES
    ensures (cursor + j) % MAX_CIRCLES < |GrownTimes(SpawnAll(s, cursor, Spawns(random, n)), g)|
    ensures GrownTimes(SpawnAll(s, cursor, Spawns(random, n)), g)[(cursor + j) % MAX_CIRCLES]
            == Some(Circle(random(j).x, random(j).y, g))
  {
    var spawned := SpawnAll(s, cursor, Spawns(random, n));
    SpawnAllLatest(s, cursor, Spawns(random, n), j);
    GrownTimesAt(spawned, g, (cursor + j) % MAX_CIRCLES);
  }

  /** `circles.filter(...)` for one click: a new array of the surviving circles in
      order, holes skipped; the callback calls `playAudio()` for each circle it
      drops. */
  method Filter(circles: seq<Slot>, k: Click, audio: SoundPool) returns (kept: seq<Slot>, pops: nat)
    modifies audio
    ensures kept == Survivors(circles, k)
    ensures pops == PopCount(circles, k)
    ensures audio.idle == PlayedTimes(old(audio.idle), pops)
  {
    kept := [];
    pops := 0;
    var i := 0;
    while i < |circles|
      invariant 0 <= i <= |circles|
      invariant kept == Survivors(circles[..i], k)
      invariant pops == PopCount(circles[..i], k)
      invariant audio.idle == PlayedTimes(old(audio.idle), pops)
    {
      FilterStep(circles, i, k);
      match circles[i] {
        case None =>
        case Some(c) =>
          if Survives(c, k) {
            kept := kept + [circles[i]];
          } else {
            var _ := audio.PlayOne();
            pops := pops + 1;
          }
      }
      i := i + 1;
    }
    assert circles[..i] == circles;
  }

  /** The module-level state of the game, owned by one object. */
  class Game {
    var circles: seq<Slot>
    var circleIterator: nat
    var maxDt: real
    var inputBuffer: seq<Click>
    const spawnTimer: Timer
    const growthTimer: Timer
    const audio: SoundPool
    /** Every frame delta seen so far. */
    ghost var deltas: seq<real>

    ghost predicate Valid()
      reads this, spawnTimer, growthTimer
    {
      && |circles| <= MAX_CIRCLES
      && circleIterator < MAX_CIRCLES
      && spawnTimer != growthTimer
      && spawnTimer.Valid() && spawnTimer.interval == SPAWN_INTERVAL
      && growthTimer.Valid() && growthTimer.interval == GROWTH_INTERVAL
      && maxDt == Peak(deltas)
    }

    constructor ()
      ensures Valid() && fresh(spawnTimer) && fresh(growthTimer) && fresh(audio)
      ensures circles == [] && circleIterator == 0 && inputBuffer == []
      ensures maxDt == 0.0 && deltas == []
      ensures spawnTimer.elapsed == 0.0 && growthTimer.elapsed == 0.0
      ensures audio.idle == seq(POOL_SIZE, _ => true)
    {
      circles := [];
      circleIterator := 0;
      maxDt := 0.0;
      inputBuffer := [];
      deltas := [];
      spawnTimer := new Timer(SPAWN_INTERVAL);
      growthTimer := new Timer(GROWTH_INTERVAL);
      audio := new SoundPool(POOL_SIZE);
    }

    /** The click listener: the event is queued until the next frame. */
    method Enqueue(k: Click)
      modifies this
      ensures inputBuffer == old(inputBuffer) + [k]
      ensures circles == old(circles) && circleIterator == old(circleIterator)
      ensures maxDt == old(maxDt) && deltas == old(deltas)
    {
      inputBuffer := inputBuffer + [k];
    }

    /** The spawn callback: a radius-0 circle is written at the cursor, which
        then advances modulo MAX_CIRCLES. */
    method Spawn(p: Position)
      requires Valid() && OnCanvas(p)
      modifies this
      ensures Valid()
      ensures circles == Written(old(circles), old(circleIterator), Circle(p.x, p.y, 0))
      ensures circleIterator == (old(circleIterator) + 1) % MAX_CIRCLES
      ensures inputBuffer == old(inputBuffer) && maxDt == old(maxDt) && deltas == old(deltas)
    {
      circles := Written(circles, circleIterator, Circle(p.x, p.y, 0));
      circleIterator := (circleIterator + 1) % MAX_CIRCLES;
    }

    /** The growth callback: `forEach` over the present circles, each radius up
        by one in place. */
    method Grow()
      requires Valid()
      modifies this
      ensures Valid()
      ensures circles == Grown(old(circles))
      ensures circleIterator == old(circleIterator)
      ensures inputBuffer == old(inputBuffer) && maxDt == old(maxDt) && deltas == old(deltas)
    {
      var i := 0;
      while i < |circles|
        invariant 0 <= i <= |circles| == |old(circles)|
        invariant forall j :: 0 <= j < i ==> circles[j] == GrowSlot(old(circles)[j])
        invariant forall j :: i <= j < |circles| ==> circles[j] == old(circles)[j]
        invariant circleIterator == old(circleIterator)
        invariant inputBuffer == old(inputBuffer) && maxDt == old(maxDt) && deltas == old(deltas)
      {
        match circles[i] {
          case Some(c) =>
            circles := circles[i := Some(c.(r := c.r + 1))];
          case None =>
        }
        i := i + 1;
      }
    }

    /** One click of handleInput: `circles` is replaced by the `filter` result;
        every present circle that does not survive calls `playAudio()` once. */
    method ResolveClick(k: Click) returns (pops: nat)
      requires Valid()
      modifies this, audio
      ensures Valid()
      ensures circles == Survivors(old(circles), k)
      ensures pops == PopCount(old(circles), k)
      ensures audio.idle == PlayedTimes(old(audio.idle), pops)
      ensures circleIterator == old(circleIterator) && inputBuffer == old(inputBuffer)
      ensures maxDt == old(maxDt) && deltas == old(deltas)
    {
      var kept;
      kept, pops := Filter(circles, k, audio);
      circles := kept;
    }

    /** handleInput: the queued clicks are processed in order, each against the
        array the previous one left; then the queue is emptied. */
    method HandleInput() returns (pops: nat)
      requires Valid()
      modifies this, audio
      ensures Valid()
      ensures circles == ResolveAll(old(circles), old(inputBuffer))
      ensures pops == TotalPops(old(circles), old(inputBuffer))
      ensures audio.idle == PlayedTimes(old(audio.idle), pops)
      ensures inputBuffer == []
      ensures circleIterator == old(circleIterator) && maxDt == old(maxDt) && deltas == old(deltas)
    {
      pops := 0;
      var i := 0;
      while i < |inputBuffer|
        invariant Valid()
        invariant 0 <= i <= |inputBuffer|
        invariant inputBuffer == old(inputBuffer)
        invariant ResolveAll(circles, inputBuffer[i..]) == ResolveAll(old(circles), old(inputBuffer))
        invariant pops + TotalPops(circles, inputBuffer[i..]) == TotalPops(old(circles), old(inputBuffer))
        invariant audio.idle == PlayedTimes(old(audio.idle), pops)
        invariant circleIterator == old(circleIterator) && maxDt == old(maxDt) && deltas == old(deltas)
      {
        assert inputBuffer[i..][1..] == inputBuffer[i + 1..];
        var popped := ResolveClick(inputBuffer[i]);
        PlayedTimesAdd(old(audio.idle), pops, popped);
        pops := pops + popped;
        i := i + 1;
      }
      inputBuffer := [];
    }

    /** update: `maxDt` takes the larger of itself and dt; the spawn timer runs
        its callbacks, then the growth timer runs its own. Each timer returns how
        often it fired; the callbacks are run that many times (they do not touch
        the accumulator, so running them after the timer loop is the same). The
        k-th spawn of the frame takes its position from random(k). */
    method Update(dt: real, random: nat -> Position) returns (spawned: nat, grown: nat)
      requires Valid() && dt >= 0.0
      requires forall k :: OnCanvas(random(k))
      modifies this, spawnTimer, growthTimer
      ensures Valid()
      ensures deltas == old(deltas) + [dt] && maxDt == Larger(dt, old(maxDt))
      ensures spawnTimer.elapsed == old(spawnTimer.elapsed) + dt
      ensures spawnTimer.ticks == old(spawnTimer.ticks) + spawned
      ensures growthTimer.elapsed == old(growthTimer.elapsed) + dt
      ensures growthTimer.ticks == old(growthTimer.ticks) + grown
      ensures circles == GrownTimes(SpawnAll(old(circles), old(circleIterator), Spawns(random, spawned)), grown)
      ensures circleIterator == (old(circleIterator) + spawned) % MAX_CIRCLES
      ensures inputBuffer == old(inputBuffer)
      ensures dt == 0.0 ==> spawned == 0 && grown == 0
    {
      maxDt := Larger(dt, maxDt);
      deltas := deltas + [dt];
      assert (deltas[..|deltas| - 1]) == old(deltas);

      spawned := spawnTimer.Advance(dt);
      SpawnTicks(spawned, random);
      grown := growthTimer.Advance(dt);
      GrowTicks(grown);
    }

    /** The spawn callback run once per firing of the spawn timer. */
    method SpawnTicks(n: nat, random: nat -> Position)
      requires Valid()
      requires forall k :: OnCanvas(random(k))
      modifies this
      ensures Valid()
      ensures circles == SpawnAll(old(circles), old(circleIterator), Spawns(random, n))
      ensures circleIterator == (old(circleIterator) + n) % MAX_CIRCLES
      ensures inputBuffer == old(inputBuffer) && maxDt == old(maxDt) && deltas == old(deltas)
    {
      var k := 0;
      while k < n
        invariant Valid()
        invariant 0 <= k <= n
        invariant circles == SpawnAll(old(circles), old(circleIterator), Spawns(random, k))
        invariant circleIterator == (old(circleIterator) + k) % MAX_CIRCLES
        invariant inputBuffer == old(inputBuffer) && maxDt == old(maxDt) && deltas == old(deltas)
      {
        SpawnNext(old(circles), old(circleIterator), k, random);
        k := k + 1;
      }
    }

    /** The k-th spawn of the frame, after k spawns from cursor `start`. */
    method SpawnNext(ghost s: seq<Slot>, ghost start: nat, k: nat, random: nat -> Position)
      requires Valid() && OnCanvas(random(k))
      requires circles == SpawnAll(s, start, Spawns(random, k))
      requires circleIterator == (start + k) % MAX_CIRCLES
      modifies this
      ensures Valid()
      ensures circles == SpawnAll(s, start, Spawns(random, k + 1))
      ensures circleIterator == (start + k + 1) % MAX_CIRCLES
      ensures inputBuffer == old(inputBuffer) && maxDt == old(maxDt) && deltas == old(deltas)
    {
      SpawnsStep(s, start, random, k);
      CursorAdvances(start, k);
      Spawn(random(k));
    }

    /** The growth callback run once per firing of the growth timer. */
    method GrowTicks(n: nat)
      requires Valid()
      modifies this
      ensures Valid()
      ensures circles == GrownTimes(old(circles), n)
      ensures circleIterator == old(circleIterator)
      ensures inputBuffer == old(inputBuffer) && maxDt == old(maxDt) && deltas == old(deltas)
    {
      var k := 0;
      while k < n
        invariant Valid()
        invariant 0 <= k <= n
        invariant circles == GrownTimes(old(circles), k)
        invariant circleIterator == old(circleIterator)
        invariant inputBuffer == old(inputBuffer) && maxDt == old(maxDt) && deltas == old(deltas)
      {
        Grow();
        k := k + 1;
      }
    }

    /** One call of `loop(then, now)` with dt = now - then: handleInput, then
        update. On resumption after the page was hidden the loop is started as
        `loop(now, now)`, so dt = 0 and no timer fires. */
    method Frame(dt: real, random: nat -> Position) returns (pops: nat, spawned: nat, grown: nat)
      requires Valid() && dt >= 0.0
      requires forall k :: OnCanvas(random(k))
      modifies this, spawnTimer, growthTimer, audio
      ensures Valid()
      ensures inputBuffer == []
      ensures pops == TotalPops(old(circles), old(inputBuffer))
      ensures audio.idle == PlayedTimes(old(audio.idle), pops)
      ensures circles == GrownTimes(SpawnAll(ResolveAll(old(circles), old(inputBuffer)),
                                             old(circleIterator), Spawns(random, spawned)), grown)
      ensures circleIterator == (old(circleIterator) + spawned) % MAX_CIRCLES
      ensures deltas == old(deltas) + [dt] && maxDt == Larger(dt, old(maxDt))
      ensures spawnTimer.elapsed == old(spawnTimer.elapsed) + dt
      ensures spawnTimer.ticks == old(spawnTimer.ticks) + spawned
      ensures growthTimer.elapsed == old(growthTimer.elapsed) + dt
      ensures growthTimer.ticks == old(growthTimer.ticks) + grown
      ensures dt == 0.0 ==> spawned == 0 && grown == 0
    {
      pops := HandleInput();
      spawned, grown := Update(dt, random);
    }
  }
}
