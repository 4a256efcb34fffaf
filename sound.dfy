/**
  The audio pool of src/main.ts (`createAudioBuffer`): a fixed number of
  playback channels; each call scans for the first idle one and starts it, and
  does nothing when every channel is busy.

  A channel's `Audio` element is abstracted to one flag: idle means `ended` or
  never started (`currentTime === 0`).
*/
module Sound {
  import opened Options

  /** The pool size the game uses. */
  const POOL_SIZE: nat := 3

  /** The channel the scan starts: the lowest-index idle one, or none when all
      are busy. */
  function FirstIdle(idle: seq<bool>): (r: Option<nat>)
    ensures r.None? <==> forall j :: 0 <= j < |idle| ==> !idle[j]
    ensures r.Some? ==> r.value < |idle| && idle[r.value] && forall j :: 0 <= j < r.value ==> !idle[j]
  {
    if idle == [] then None
    else if idle[0] then Some(0)
    else match FirstIdle(idle[1..])
      case None => None
      case Some(k) => Some(k + 1)
  }

  /** The flags after one call: the chosen channel, if any, is now playing. */
  function Played(idle: seq<bool>): seq<bool>
  {
    match FirstIdle(idle)
    case None => idle
    case Some(k) => idle[k := false]
  }

  /** The flags after `n` calls with no channel finishing in between. */
  function PlayedTimes(idle: seq<bool>, n: nat): seq<bool>
  {
    if n == 0 then idle else Played(PlayedTimes(idle, n - 1))
  }

  /** The number of idle channels. */
  function IdleCount(idle: seq<bool>): nat
  {
    if idle == [] then 0 else (if idle[0] then 1 else 0) + IdleCount(idle[1..])
  }

  lemma {:induction false} IdleCountDrop(idle: seq<bool>, k: nat)
    requires k < |idle| && idle[k]
    ensures IdleCount(idle[k := false]) + 1 == IdleCount(idle)
  {
    if k > 0 {
      assert idle[k := false][1..] == idle[1..][k - 1 := false];
      IdleCountDrop(idle[1..], k - 1);
    }
  }

  lemma {:induction false} NoIdleCount(idle: seq<bool>)
    ensures IdleCount(idle) == 0 <==> forall j :: 0 <= j < |idle| ==> !idle[j]
  {
    if idle != [] {
      NoIdleCount(idle[1..]);
      assert forall j :: 1 <= j < |idle| ==> idle[j] == idle[1..][j - 1];
    }
  }

  /** `n` sounds requested at once start min(n, idle) channels; the excess
      requests are dropped, not queued. The pool keeps its size. */
  lemma {:induction false} PlayedTimesIdle(idle: seq<bool>, n: nat)
    ensures |PlayedTimes(idle, n)| == |idle|
    ensures IdleCount(PlayedTimes(idle, n)) == if n <= IdleCount(idle) then IdleCount(idle) - n else 0
  {
    if n > 0 {
      PlayedTimesIdle(idle, n - 1);
      var before := PlayedTimes(idle, n - 1);
      match FirstIdle(before)
      case None =>
        NoIdleCount(before);
      case Some(k) =>
        IdleCountDrop(before, k);
    }
  }

  /** Requests made in two batches leave the pool as one batch of the same size. */
  lemma {:induction false} PlayedTimesAdd(idle: seq<bool>, a: nat, b: nat)
    ensures PlayedTimes(PlayedTimes(idle, a), b) == PlayedTimes(idle, a + b)
  {
    if b > 0 {
      PlayedTimesAdd(idle, a, b - 1);
    }
  }

  /** The pool of channels. `idle` is the environment's view of the `Audio`
      elements; it changes when a channel is started here and when playback ends. */
  class SoundPool {
    var idle: seq<bool>

    /** `new Array(size)` of fresh `Audio` elements, none of them started. */
    constructor (size: nat)
      ensures idle == seq(size, _ => true)
    {
      idle := seq(size, _ => true);
    }

    /** `playAudio()`: the first idle channel in index order is started and the
        scan stops; when every channel is busy nothing happens. */
    method PlayOne() returns (started: Option<nat>)
      modifies this
      ensures started == FirstIdle(old(idle))
      ensures idle == Played(old(idle))
    {
      started := None;
      var i := 0;
      while i < |idle|
        invariant 0 <= i <= |idle|
        invariant idle == old(idle) && started == None
        invariant forall j :: 0 <= j < i ==> !idle[j]
      {
        if idle[i] {
          started := Some(i);
          idle := idle[i := false];
          break;
        }
        i := i + 1;
      }
    }

    /** Playback on channel k ran to its end (an event of the environment). */
    method Ended(k: nat)
      requires k < |idle|
      modifies this
      ensures idle == old(idle)[k := true]
    {
      idle := idle[k := true];
    }
  }
}
