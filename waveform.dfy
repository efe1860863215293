/**
 The live waveform: while a recording is in progress a timer samples the
 latest loudness reading and turns it into a bar height; the display keeps
 the most recent bars in a sliding window.
 */
module Waveform {
  import opened Wrappers

  /** The most bars the display holds. */
  const MaxBars: nat := 15

  /** Loudness in decibels mapped into [0, 1]: -60 and below give 0, 0 and above give 1. */
  function Normalize(loudness: real): (n: real)
    ensures 0.0 <= n <= 1.0
    ensures loudness <= -60.0 ==> n == 0.0
    ensures loudness >= 0.0 ==> n == 1.0
    ensures -60.0 <= loudness <= 0.0 ==> n * 60.0 == loudness + 60.0
  {
    var scaled := (loudness + 60.0) / 60.0;
    var capped := if scaled < 1.0 then scaled else 1.0;
    if capped > 0.0 then capped else 0.0
  }

  /** The jitter factor drawn from a uniform `random` in [0, 1). */
  function Variation(random: real): (v: real)
    requires 0.0 <= random < 1.0
    ensures 0.2 <= v < 0.7
  {
    0.2 + random * 0.5
  }

  /** The height of one bar for a loudness reading and a jitter factor. */
  function Height(loudness: real, v: real): (h: real)
    requires 0.2 <= v < 0.7
    ensures 0.0 <= h <= 60.0 * v < 42.0
    ensures loudness <= -60.0 ==> h == 0.0
    ensures loudness >= 0.0 ==> h == 60.0 * v && 12.0 <= h
  {
    var n := Normalize(loudness);
    ScaleBelow(n * 60.0, 60.0, v);
    n * 60.0 * v
  }

  /** Scaling by a non-negative factor keeps the order. */
  lemma ScaleBelow(a: real, b: real, v: real)
    requires 0.0 <= a <= b && 0.0 <= v
    ensures 0.0 <= a * v <= b * v
  {
  }

  /** The last `max` of the heights `hs`, or all of them when there are fewer. */
  function Window(hs: seq<real>, max: nat): (w: seq<real>)
    ensures |w| == if |hs| < max then |hs| else max
  {
    if |hs| <= max then hs else hs[|hs| - max..]
  }

  /** Every height lies in [0, 42), the range Height can produce. */
  ghost predicate InBarRange(hs: seq<real>) {
    forall i :: 0 <= i < |hs| ==> 0.0 <= hs[i] < 42.0
  }

  /** A window of heights in range is in range. */
  lemma WindowInBarRange(hs: seq<real>, max: nat)
    requires InBarRange(hs)
    ensures InBarRange(Window(hs, max))
  {
  }

  /** Appending a height in range keeps every height in range. */
  lemma AppendInBarRange(hs: seq<real>, h: real)
    requires InBarRange(hs) && 0.0 <= h < 42.0
    ensures InBarRange(hs + [h])
  {
  }

  /** One appending tick: push `h`, then drop the oldest bar when there are more than `max`. */
  function Slide(buffer: seq<real>, h: real, max: nat): (r: seq<real>)
    ensures |r| == if |buffer| < max then |buffer| + 1 else |buffer|
    ensures |buffer| <= max ==> |r| <= max
    ensures max > 0 ==> r[|r| - 1] == h
    ensures r == (buffer + [h])[|buffer| + 1 - |r|..]
  {
    var pushed := buffer + [h];
    if |pushed| > max then
      assert |buffer| + 1 - |pushed[1..]| == 1;
      pushed[1..]
    else
      assert pushed[0..] == pushed;
      pushed
  }

  /** Sliding a window over one more height gives the window over the longer history. */
  lemma SlideWindow(hs: seq<real>, h: real, max: nat)
    ensures Slide(Window(hs, max), h, max) == Window(hs + [h], max)
  {
  }

  /** The bars after appending the heights `hs` one tick at a time to an empty buffer. */
  function Replay(hs: seq<real>, max: nat): seq<real>
  {
    if hs == [] then [] else Slide(Replay(hs[..|hs| - 1], max), hs[|hs| - 1], max)
  }

  /** After k appending ticks the display holds the last min(max, k) heights, in order. */
  lemma {:induction false} ReplayIsWindow(hs: seq<real>, max: nat)
    ensures Replay(hs, max) == Window(hs, max)
  {
    if hs != [] {
      var init, h := hs[..|hs| - 1], hs[|hs| - 1];
      assert init + [h] == hs;
      ReplayIsWindow(init, max);
      SlideWindow(init, h, max);
    }
  }

  /** Two-bar window fed four heights: each new height evicts the oldest once the window is full. */
  lemma TwoBarEviction(h1: real, h2: real, h3: real, h4: real)
    ensures Replay([h1], 2) == [h1]
    ensures Replay([h1, h2], 2) == [h1, h2]
    ensures Replay([h1, h2, h3], 2) == [h2, h3]
    ensures Replay([h1, h2, h3, h4], 2) == [h3, h4]
  {
    ReplayIsWindow([h1], 2);
    ReplayIsWindow([h1, h2], 2);
    ReplayIsWindow([h1, h2, h3], 2);
    ReplayIsWindow([h1, h2, h3, h4], 2);
  }

  /** Twenty appending ticks leave the heights of ticks 6 to 20. */
  lemma TwentyTicks(hs: seq<real>)
    requires |hs| == 20
    ensures Replay(hs, MaxBars) == hs[5..]
  {
    ReplayIsWindow(hs, MaxBars);
  }

  /** The waveform display and the state of its sampling timer. */
  class WaveformDisplay {
    /** The recording flag the display was last given. */
    var recordingInProgress: bool
    /** The heights on screen. */
    var heights: seq<real>
    /** The sliding window the timer of the current session fills. */
    var buffer: seq<real>
    /** Every height appended in the current session, oldest first. */
    ghost var session: seq<real>

    ghost predicate Valid()
      reads this
    {
      && InBarRange(session)
      && buffer == Window(session, MaxBars)
      && (recordingInProgress ==> heights == buffer)
      && (!recordingInProgress ==> heights == [])
    }

    /** Mounting the display with a recording flag runs its effect once. */
    constructor (recordingInProgress: bool)
      ensures Valid()
      ensures this.recordingInProgress == recordingInProgress
      ensures heights == [] && buffer == [] && session == []
    {
      this.recordingInProgress := recordingInProgress;
      heights := [];
      buffer := [];
      session := [];
    }

    /**
     The recording flag changes to `on`. The effect runs only on a change:
     stopping empties the display and stops the timer; starting empties the
     display and starts a timer over a fresh, empty buffer.
     */
    method SetRecordingInProgress(on: bool)
      requires Valid()
      modifies this
      ensures Valid() && recordingInProgress == on
      ensures on == old(recordingInProgress) ==>
                heights == old(heights) && buffer == old(buffer) && session == old(session)
      ensures on != old(recordingInProgress) ==> heights == []
      ensures on && !old(recordingInProgress) ==> buffer == [] && session == []
    {
      if on != recordingInProgress {
        recordingInProgress := on;
        heights := [];
        if on {
          buffer := [];
          session := [];
        }
      }
    }

    /**
     One timer tick while recording: `latest` is the loudness cell and
     `random` the uniform draw in [0, 1) for the jitter. A missing reading
     changes nothing; otherwise the new height is appended, the oldest bar
     is dropped past MaxBars, and a copy of the buffer is displayed.
     */
    method Tick(latest: Option<real>, random: real)
      requires Valid() && recordingInProgress
      requires 0.0 <= random < 1.0
      modifies this`buffer, this`heights, this`session
      ensures Valid()
      ensures latest.None? ==>
                heights == old(heights) && buffer == old(buffer) && session == old(session)
      ensures latest.Some? ==>
                var h := Height(latest.value, Variation(random));
                && session == old(session) + [h]
                && buffer == Slide(old(buffer), h, MaxBars)
                && heights == buffer
      ensures heights == Window(session, MaxBars)
      ensures |heights| == if |session| < MaxBars then |session| else MaxBars
      ensures forall i :: 0 <= i < |heights| ==> 0.0 <= heights[i] < 42.0
    {
      if latest.Some? {
        var height := Height(latest.value, Variation(random));
        buffer := buffer + [height];
        if |buffer| > MaxBars {
          buffer := buffer[1..];
        }
        ghost var prior := session;
        session := session + [height];
        heights := buffer;
        assert buffer == Slide(old(buffer), height, MaxBars);
        SlideWindow(prior, height, MaxBars);
        assert buffer == Window(session, MaxBars);
        AppendInBarRange(prior, height);
      }
      WindowInBarRange(session, MaxBars);
      assert Valid();
    }
  }
}
