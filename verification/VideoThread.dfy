/** The video thread's bookkeeping around decoding: the failure counter that gets a decoder marked as
    unsupported, and the frame-rate window.

    The class `VideoThread` is the imperative code; its ghost `history` is everything it was sent.  Its
    invariant gives the value of every counter as a closed form of that history. */
module VideoThread {
  import opened Basics
  import opened Options

  const MAX_DECODE_FAIL_COUNTER := 3
  const USIZE_MAX: nat := 0xFFFF_FFFF_FFFF_FFFF
  const NANOS_PER_MS := 1_000_000

  type Format = nat

  /** Ok(true), Ok(false) and Err of the decoder. */
  datatype Outcome = Decoded | NotDecoded | DecodeError

  /** A frame carries its codec format, whether it has data, what decoding it yields, whether the decoder is
      still valid afterwards, and how long all that took in nanoseconds. */
  datatype Input =
    | Frame(format: Format, hasData: bool, outcome: Outcome, valid: bool, elapsed: nat)
    | Reset

  function Result(f: Input): Outcome
    requires f.Frame?
  {
    if f.hasData then f.outcome else NotDecoded
  }

  /** The format of the latest frame. */
  function CurrentFormat(h: seq<Input>): Option<Format> {
    if h == [] then None
    else if h[|h| - 1].Frame? then Some(h[|h| - 1].format)
    else CurrentFormat(h[..|h| - 1])
  }

  /** Whether `f`, coming after `h`, changes the format; the first frame does not. */
  predicate ChangesFormat(h: seq<Input>, f: Input)
    requires f.Frame?
  {
    var current := CurrentFormat(h);
    current.Some? && current.value != f.format
  }

  // ---------- The failure counter ----------

  /** Success or failure of each frame with data since the handler was created, reset or changed format. */
  function SinceReset(h: seq<Input>): seq<bool> {
    if h == [] then []
    else
      var before, last := h[..|h| - 1], h[|h| - 1];
      if last.Reset? then []
      else
        (if ChangesFormat(before, last) then [] else SinceReset(before))
        + if last.hasData then [last.outcome.Decoded?] else []
  }

  function Trailing(oks: seq<bool>): nat {
    if oks == [] || oks[|oks| - 1] then 0 else 1 + Trailing(oks[..|oks| - 1])
  }

  /** If every frame since the reset failed, two more than their number; otherwise the failures since the
      last success. */
  function FailCount(oks: seq<bool>): nat {
    if oks != [] && Trailing(oks) == |oks| then Min(MAX_DECODE_FAIL_COUNTER + |oks| - 1, USIZE_MAX)
    else Min(Trailing(oks), USIZE_MAX)
  }

  lemma {:induction false} TrailingBound(oks: seq<bool>)
    ensures Trailing(oks) <= |oks|
    ensures Trailing(oks) == |oks| <==> forall i | 0 <= i < |oks| :: !oks[i]
  {
    if oks != [] {
      TrailingBound(oks[..|oks| - 1]);
    }
  }

  lemma TrailingSnoc(oks: seq<bool>, ok: bool)
    ensures Trailing(oks + [ok]) == if ok then 0 else 1 + Trailing(oks)
  {
    assert (oks + [ok])[..|oks|] == oks;
  }

  /** All frames failed, or the last three did. */
  predicate GaveUp(oks: seq<bool>) {
    || (oks != [] && forall i | 0 <= i < |oks| :: !oks[i])
    || (|oks| >= 3 && !oks[|oks| - 1] && !oks[|oks| - 2] && !oks[|oks| - 3])
  }

  /** The decoder is given up on exactly when the first frame failed with no success since, or the last
      three frames failed. */
  lemma GivesUpIff(oks: seq<bool>)
    ensures FailCount(oks) >= MAX_DECODE_FAIL_COUNTER <==> GaveUp(oks)
  {
    TrailingBound(oks);
    if |oks| >= 3 {
      TrailingAtLeastThree(oks);
    }
  }

  lemma TrailingAtLeastThree(oks: seq<bool>)
    requires |oks| >= 3
    ensures Trailing(oks) >= 3 <==> !oks[|oks| - 1] && !oks[|oks| - 2] && !oks[|oks| - 3]
  {
    var a := oks[..|oks| - 1];
    var b := a[..|a| - 1];
    assert a[|a| - 1] == oks[|oks| - 2] && b[|b| - 1] == oks[|oks| - 3];
    assert !oks[|oks| - 1] ==> Trailing(oks) == 1 + Trailing(a);
    assert !a[|a| - 1] ==> Trailing(a) == 1 + Trailing(b);
  }

  /** One more outcome, as handle_frame counts it. */
  lemma FailCountSnoc(oks: seq<bool>, ok: bool)
    ensures FailCount(oks + [ok])
         == if ok then 0
            else if FailCount(oks) >= USIZE_MAX then FailCount(oks)
            else if oks == [] && FailCount(oks) < MAX_DECODE_FAIL_COUNTER then MAX_DECODE_FAIL_COUNTER
            else FailCount(oks) + 1
  {
    TrailingSnoc(oks, ok);
    TrailingBound(oks);
  }

  // ---------- Formats marked as unsupported ----------

  /** The check after `f`, coming after `h`, finds the decoder unusable. */
  predicate Unusable(h: seq<Input>, f: Input) {
    f.Frame? && (!f.valid || FailCount(SinceReset(h + [f])) >= MAX_DECODE_FAIL_COUNTER)
  }

  /** The formats found unusable so far. */
  function Flagged(h: seq<Input>): set<Format> {
    if h == [] then {}
    else
      var before, last := h[..|h| - 1], h[|h| - 1];
      Flagged(before) + if Unusable(before, last) then {last.format} else {}
  }

  lemma FlaggedSnoc(h: seq<Input>, f: Input)
    ensures Flagged(h + [f]) == Flagged(h) + if Unusable(h, f) then {f.format} else {}
  {
    assert (h + [f])[..|h|] == h;
  }

  /** Frame `i` left the decoder invalid, or was the last of a run of outcomes since the decoder was created that
      all failed or ended in three failures. */
  predicate BadFrame(h: seq<Input>, i: nat)
    requires i < |h|
  {
    h[i].Frame? && (!h[i].valid || GaveUp(SinceReset(h[..i + 1])))
  }

  lemma BadFrameIsUnusable(h: seq<Input>, i: nat)
    requires i < |h|
    ensures BadFrame(h, i) <==> Unusable(h[..i], h[i])
  {
    GivesUpIff(SinceReset(h[..i + 1]));
    assert h[..i + 1] == h[..i] + [h[i]];
  }

  /** The formats flagged are exactly those of bad frames. */
  lemma {:induction false} FlaggedIff(h: seq<Input>, format: Format)
    ensures format in Flagged(h) <==> exists i | 0 <= i < |h| :: BadFrame(h, i) && h[i].format == format
  {
    if h != [] {
      var before := h[..|h| - 1];
      FlaggedIff(before, format);
      BadFrameIsUnusable(h, |before|);
      forall i | 0 <= i < |before| ensures BadFrame(before, i) <==> BadFrame(h, i) {
        assert before[..i + 1] == h[..i + 1];
      }
      if i :| 0 <= i < |before| && BadFrame(before, i) && before[i].format == format {
        assert BadFrame(h, i) && h[i].format == format;
      }
    }
  }

  ghost predicate NoDuplicates(formats: seq<Format>) {
    forall i, j | 0 <= i < j < |formats| :: formats[i] != formats[j]
  }

  // ---------- The frame-rate window ----------

  /** One call of fps_calculate. */
  datatype Call = Call(formatChanged: bool, elapsed: nat)

  /** The times of the calls since the last one that reported a format change, that one included. */
  function SinceChange(calls: seq<Call>): seq<nat> {
    if calls == [] then []
    else
      var last := calls[|calls| - 1];
      (if last.formatChanged then [] else SinceChange(calls[..|calls| - 1])) + [last.elapsed]
  }

  /** The first three are never counted. */
  function Counted(times: seq<nat>): seq<nat> {
    if |times| <= 3 then [] else Counted(times[..|times| - 1]) + [times[|times| - 1]]
  }

  /** How many of `n` counted frames fall into the window in progress; a window is thirty frames. */
  function InWindow(n: nat): (m: nat)
    ensures m < 30 && m <= n
  {
    if n < 30 then n else InWindow(n - 30)
  }

  lemma {:induction false} InWindowSnoc(n: nat)
    ensures InWindow(n + 1) == if InWindow(n) == 29 then 0 else InWindow(n) + 1
  {
    if n >= 30 {
      InWindowSnoc(n - 30);
    }
  }

  /** The counted times of the window in progress. */
  function Window(counted: seq<nat>): (w: seq<nat>)
    ensures |w| == InWindow(|counted|)
  {
    if counted == [] then []
    else
      InWindowSnoc(|counted| - 1);
      Restart(Window(counted[..|counted| - 1]) + [counted[|counted| - 1]])
  }

  /** A full window gives way to an empty one. */
  function Restart(full: seq<nat>): seq<nat> {
    if |full| == 30 then [] else full
  }

  lemma {:induction false} CountedIsRest(times: seq<nat>) returns (skipped: seq<nat>)
    requires |times| >= 3
    ensures times == skipped + Counted(times) && |skipped| == 3
  {
    if |times| == 3 {
      skipped := times;
      assert times + [] == times;
    } else {
      var before, last := times[..|times| - 1], times[|times| - 1];
      skipped := CountedIsRest(before);
      assert before + [last] == times;
      Regroup(skipped, Counted(before), [last]);
    }
  }

  /** The window is what follows the complete windows of thirty frames. */
  lemma {:induction false} WindowIsRest(counted: seq<nat>) returns (complete: seq<nat>)
    ensures counted == complete + Window(counted) && |complete| % 30 == 0
  {
    if counted == [] {
      complete := [];
    } else {
      var before, last := counted[..|counted| - 1], counted[|counted| - 1];
      complete := WindowIsRest(before);
      assert before + [last] == counted;
      WindowSnoc(before, last);
      Regroup(complete, Window(before), [last]);
      if |Window(before)| == 29 {
        complete := counted;
        assert counted + [] == counted;
      }
    }
  }

  function Sum(times: seq<nat>): nat {
    if times == [] then 0 else Sum(times[..|times| - 1]) + times[|times| - 1]
  }

  lemma SumSnoc(times: seq<nat>, t: nat)
    ensures Sum(times + [t]) == Sum(times) + t
  {
    assert (times + [t])[..|times|] == times;
  }

  function Millis(times: seq<nat>): nat {
    Sum(times) / NANOS_PER_MS
  }

  /** `n` frames in `ms` milliseconds, in frames per second, rounded down. */
  function Rate(n: nat, ms: nat): nat
    requires ms > 0
  {
    n * 1000 / ms
  }

  /** That is, `rate` frames a second would have been no more than these, and one more would have been. */
  lemma RateMeaning(n: nat, ms: nat)
    requires ms > 0
    ensures Rate(n, ms) * ms <= n * 1000 < (Rate(n, ms) + 1) * ms
  {
  }

  lemma MillisMeaning(times: seq<nat>)
    ensures Millis(times) * 1_000_000 <= Sum(times) < (Millis(times) + 1) * 1_000_000
  {
  }

  /** What is published when `full` is the window including the frame just counted. */
  function Published(full: seq<nat>): Option<nat> {
    if (|full| == 10 || |full| == 20 || |full| == 30) && Millis(full) > 0
    then Some(Rate(|full|, Millis(full)))
    else None
  }

  lemma WindowSnoc(counted: seq<nat>, t: nat)
    ensures Window(counted + [t]) == Restart(Window(counted) + [t])
  {
    assert (counted + [t])[..|counted|] == counted;
  }

  lemma CountedSnoc(times: seq<nat>, t: nat)
    ensures Counted(times + [t]) == if |times| < 3 then [] else Counted(times) + [t]
  {
    assert (times + [t])[..|times|] == times;
  }

  /** The times the call `c` adds to. */
  function Times(calls: seq<Call>, c: Call): seq<nat> {
    if c.formatChanged then [] else SinceChange(calls)
  }

  lemma SinceChangeSnoc(calls: seq<Call>, c: Call)
    ensures SinceChange(calls + [c]) == Times(calls, c) + [c.elapsed]
  {
    assert (calls + [c])[..|calls|] == calls;
  }

  /** What the call `c` publishes after `calls`. */
  function PublishedBy(calls: seq<Call>, c: Call): Option<nat> {
    var times := Times(calls, c);
    if |times| < 3 then None else Published(Window(Counted(times)) + [c.elapsed])
  }

  /** The last published value, or None. */
  function Fps(calls: seq<Call>): Option<nat> {
    if calls == [] then None
    else
      var before, last := calls[..|calls| - 1], calls[|calls| - 1];
      if PublishedBy(before, last).Some? then PublishedBy(before, last) else Fps(before)
  }

  lemma FpsSnoc(calls: seq<Call>, c: Call)
    ensures Fps(calls + [c]) == if PublishedBy(calls, c).Some? then PublishedBy(calls, c) else Fps(calls)
  {
    assert (calls + [c])[..|calls|] == calls;
  }

  /** `rate` is that of the frames `last`, of which there are 10, 20 or 30; they are the last ones when `calls` had
      been made, and at least three frames since the format change come before them. */
  ghost predicate IsRate(calls: seq<Call>, earlier: seq<nat>, last: seq<nat>, rate: nat) {
    && SinceChange(calls) == earlier + last
    && |earlier| >= 3
    && (|last| == 10 || |last| == 20 || |last| == 30)
    && Millis(last) > 0
    && rate == Rate(|last|, Millis(last))
  }

  lemma PublishedIsRate(calls: seq<Call>, c: Call) returns (earlier: seq<nat>, last: seq<nat>)
    requires PublishedBy(calls, c).Some?
    ensures IsRate(calls + [c], earlier, last, PublishedBy(calls, c).value)
  {
    var times := Times(calls, c);
    var counted := Counted(times);
    SinceChangeSnoc(calls, c);
    var skipped := CountedIsRest(times);
    var complete := WindowIsRest(counted);
    earlier, last := skipped + complete, Window(counted) + [c.elapsed];
    Regroup(skipped, complete, Window(counted));
    Regroup(earlier, Window(counted), [c.elapsed]);
  }

  /** A value is published exactly after every tenth frame that is counted, if the window then spans a millisecond: the
      first three frames since the format change are not counted, and the window is what follows complete thirties. */
  lemma PublishedIff(calls: seq<Call>, c: Call) returns (complete: seq<nat>, window: seq<nat>)
    ensures var times := SinceChange(calls + [c]);
            && (|times| > 3 ==>
                  && times[3..] == complete + window && |complete| % 30 == 0 && 0 < |window| <= 30
                  && (PublishedBy(calls, c).Some? <==> |window| % 10 == 0 && Sum(window) >= 1_000_000))
            && (|times| <= 3 ==> PublishedBy(calls, c).None?)
  {
    var times := Times(calls, c);
    SinceChangeSnoc(calls, c);
    complete, window := [], [];
    if |times| >= 3 {
      var skipped := CountedIsRest(times);
      complete := WindowIsRest(Counted(times));
      window := Window(Counted(times)) + [c.elapsed];
      Regroup(complete, Window(Counted(times)), [c.elapsed]);
      assert (times + [c.elapsed])[3..] == Counted(times) + [c.elapsed] by {
        assert (skipped + Counted(times) + [c.elapsed])[3..] == Counted(times) + [c.elapsed];
      }
      Tens(|window|);
      MillisMeaning(window);
    }
  }

  /** Whatever rate is on display was computed that way after one of the calls. */
  lemma {:induction false} FpsMeaning(calls: seq<Call>) returns (k: nat, earlier: seq<nat>, last: seq<nat>)
    requires Fps(calls).Some?
    ensures k <= |calls| && IsRate(calls[..k], earlier, last, Fps(calls).value)
  {
    var before, c := calls[..|calls| - 1], calls[|calls| - 1];
    assert before + [c] == calls;
    if PublishedBy(before, c).Some? {
      earlier, last := PublishedIsRate(before, c);
      k := |calls|;
      assert calls[..k] == calls;
    } else {
      k, earlier, last := FpsMeaning(before);
      assert calls[..k] == before[..k];
    }
  }

  /** The variables of fps_calculate. */
  datatype Meter = Meter(skipBeginning: nat, count: nat, duration: nat, fps: Option<nat>)

  function CountFrame(m: Meter, elapsed: nat): Meter {
    var count, duration := m.count + 1, m.duration + elapsed;
    var ms := duration / NANOS_PER_MS;
    var fps := if count % 10 == 0 && ms > 0 then Some(Rate(count, ms)) else m.fps;
    if count >= 30 then Meter(m.skipBeginning, 0, 0, fps) else Meter(m.skipBeginning, count, duration, fps)
  }

  /** One call of fps_calculate. */
  function Tick(m: Meter, c: Call): Meter {
    var n := if c.formatChanged then Meter(0, 0, 0, m.fps) else m;
    if n.skipBeginning < 3 then n.(skipBeginning := n.skipBeginning + 1) else CountFrame(n, c.elapsed)
  }

  /** The variables have the values that the calls made so far give them. */
  ghost predicate Measures(m: Meter, calls: seq<Call>) {
    MeasuresTimes(m, SinceChange(calls)) && m.fps == Fps(calls)
  }

  ghost predicate MeasuresTimes(m: Meter, times: seq<nat>) {
    && m.skipBeginning == Min(|times|, 3)
    && m.count == |Window(Counted(times))|
    && m.duration == Sum(Window(Counted(times)))
  }

  lemma SkippedCall(m: Meter, times: seq<nat>, t: nat)
    requires MeasuresTimes(m, times) && |times| < 3
    ensures MeasuresTimes(m.(skipBeginning := m.skipBeginning + 1), times + [t])
  {
    CountedSnoc(times, t);
  }

  lemma CountedFrame(m: Meter, w: seq<nat>, t: nat)
    requires m.count == |w| < 30 && m.duration == Sum(w)
    ensures var n := CountFrame(m, t);
            && n.count == |Restart(w + [t])| && n.duration == Sum(Restart(w + [t]))
            && n.fps == if Published(w + [t]).Some? then Published(w + [t]) else m.fps
  {
    SumSnoc(w, t);
    Tens(m.count + 1);
  }

  lemma CountedCall(m: Meter, times: seq<nat>, t: nat)
    requires MeasuresTimes(m, times) && |times| >= 3
    ensures MeasuresTimes(CountFrame(m, t), times + [t])
    ensures var published := Published(Window(Counted(times)) + [t]);
            CountFrame(m, t).fps == if published.Some? then published else m.fps
  {
    CountedSnoc(times, t);
    WindowSnoc(Counted(times), t);
    CountedFrame(m, Window(Counted(times)), t);
  }

  lemma Tens(n: nat)
    requires 1 <= n <= 30
    ensures n % 10 == 0 <==> n == 10 || n == 20 || n == 30
  {
  }

  function Restarted(m: Meter, c: Call): Meter {
    if c.formatChanged then Meter(0, 0, 0, m.fps) else m
  }

  lemma TickTimes(m: Meter, calls: seq<Call>, c: Call)
    requires MeasuresTimes(m, SinceChange(calls))
    ensures MeasuresTimes(Tick(m, c), SinceChange(calls + [c]))
  {
    var n := Restarted(m, c);
    SinceChangeSnoc(calls, c);
    if n.skipBeginning < 3 {
      SkippedCall(n, Times(calls, c), c.elapsed);
    } else {
      CountedCall(n, Times(calls, c), c.elapsed);
    }
  }

  lemma TickFps(m: Meter, calls: seq<Call>, c: Call)
    requires Measures(m, calls)
    ensures Tick(m, c).fps == Fps(calls + [c])
  {
    var n := Restarted(m, c);
    FpsSnoc(calls, c);
    assert MeasuresTimes(n, Times(calls, c));
    if n.skipBeginning >= 3 {
      CountedCall(n, Times(calls, c), c.elapsed);
    }
  }

  /** In every run: fewer than thirty frames are counted between calls, `duration` is their total time, the
      three frames from a format change on are not among them, and `fps` is the last published rate. */
  lemma TickMeasures(m: Meter, calls: seq<Call>, c: Call)
    requires Measures(m, calls)
    ensures Measures(Tick(m, c), calls + [c]) && Tick(m, c).count < 30
  {
    TickTimes(m, calls, c);
    TickFps(m, calls, c);
  }

  // ---------- Both together ----------

  /** fps_calculate is called for the frames that decode. */
  function FpsCalls(h: seq<Input>): seq<Call> {
    if h == [] then []
    else
      var before, last := h[..|h| - 1], h[|h| - 1];
      FpsCalls(before)
      + if last.Frame? && Result(last).Decoded? then [Call(ChangesFormat(before, last), last.elapsed)] else []
  }

  /** The times of the decoded frames since the format last changed. */
  function SinceFormat(h: seq<Input>): seq<nat> {
    if h == [] then []
    else
      var before, last := h[..|h| - 1], h[|h| - 1];
      if last.Reset? then SinceFormat(before)
      else
        (if ChangesFormat(before, last) then [] else SinceFormat(before))
        + if Result(last).Decoded? then [last.elapsed] else []
  }

  /** Every frame that changes the format decodes. */
  ghost predicate ChangesDecode(h: seq<Input>) {
    forall i | 0 <= i < |h| && h[i].Frame? && ChangesFormat(h[..i], h[i]) :: Result(h[i]).Decoded?
  }

  /** If every frame that changes the format decodes, the frame-rate window restarts at every change. */
  lemma {:induction false} WindowFollowsFormat(h: seq<Input>)
    requires ChangesDecode(h)
    ensures SinceChange(FpsCalls(h)) == SinceFormat(h)
  {
    if h != [] {
      var before, last := h[..|h| - 1], h[|h| - 1];
      forall i | 0 <= i < |before| && before[i].Frame? && ChangesFormat(before[..i], before[i])
        ensures Result(before[i]).Decoded?
      {
        assert before[..i] == h[..i];
        assert h[i] == before[i];
      }
      WindowFollowsFormat(before);
      if last.Frame? && Result(last).Decoded? {
        SinceChangeSnoc(FpsCalls(before), Call(ChangesFormat(before, last), last.elapsed));
      } else {
        assert FpsCalls(h) == FpsCalls(before);
        assert SinceFormat(before) + [] == SinceFormat(before);
      }
    }
  }

  /** A frame that changes the format but fails to decode hides the change from the window for good: it then
      still holds the frames of the old format, unless there were none. */
  lemma FailedChangeIsMissed(h: seq<Input>, f: Input)
    requires f.Frame? && ChangesFormat(h, f)
    ensures SinceChange(FpsCalls(h + [f])) == SinceFormat(h + [f])
       <==> Result(f).Decoded? || SinceChange(FpsCalls(h)) == []
  {
    assert (h + [f])[..|h|] == h;
    if Result(f).Decoded? {
      SinceChangeSnoc(FpsCalls(h), Call(true, f.elapsed));
    } else {
      assert FpsCalls(h + [f]) == FpsCalls(h);
      assert SinceFormat(h + [f]) == [];
    }
  }

  /** What one frame does to the closed forms. */
  lemma HistoryStep(h: seq<Input>, f: Input)
    requires f.Frame?
    ensures CurrentFormat(h + [f]) == Some(f.format)
    ensures SinceReset(h + [f])
         == (if ChangesFormat(h, f) then [] else SinceReset(h)) + if f.hasData then [f.outcome.Decoded?] else []
  {
    assert (h + [f])[..|h|] == h;
  }

  lemma FpsCallsStep(h: seq<Input>, f: Input)
    requires f.Frame?
    ensures FpsCalls(h + [f])
         == if Result(f).Decoded? then FpsCalls(h) + [Call(ChangesFormat(h, f), f.elapsed)] else FpsCalls(h)
  {
    assert (h + [f])[..|h|] == h;
    assert FpsCalls(h) + [] == FpsCalls(h);
  }

  // ---------- The imperative code ----------

  class VideoHandler {
    var format: Format
    var failCounter: nat
    var firstFrame: bool
    ghost var oks: seq<bool>

    ghost predicate Valid()
      reads this
    {
      failCounter == FailCount(oks) && (firstFrame <==> oks == [])
    }

    /** The handler created with the first frame of `h` has seen all of it. */
    ghost predicate Follows(h: seq<Input>)
      reads this
    {
      Valid() && Some(format) == CurrentFormat(h) && oks == SinceReset(h)
    }

    constructor (format: Format)
      ensures Valid() && this.format == format && |oks| == 0 && fresh(this)
    {
      this.format, failCounter, firstFrame, oks := format, 0, true, [];
    }

    method ResetTo(newFormat: Format)
      modifies this
      ensures Valid() && format == newFormat && |oks| == 0
    {
      format := newFormat;
      failCounter := 0;
      firstFrame := true;
      oks := [];
    }

    method HandleFrame(f: Input) returns (result: Outcome)
      requires Valid() && f.Frame?
      modifies this
      ensures Valid() && format == f.format && result == if f.hasData then f.outcome else NotDecoded
      ensures oks == (if old(format) != f.format then [] else old(oks))
                     + if f.hasData then [f.outcome.Decoded?] else []
    {
      if f.format != format {
        ResetTo(f.format);
      }
      if !f.hasData {
        assert oks + [] == oks;
        return NotDecoded;
      }
      FailCountSnoc(oks, f.outcome.Decoded?);
      if f.outcome.Decoded? {
        failCounter := 0;
      } else {
        if failCounter < USIZE_MAX {
          if firstFrame && failCounter < MAX_DECODE_FAIL_COUNTER {
            failCounter := MAX_DECODE_FAIL_COUNTER;
          } else {
            failCounter := failCounter + 1;
          }
        }
      }
      firstFrame := false;
      oks := oks + [f.outcome.Decoded?];
      return f.outcome;
    }
  }

  /** The variables that fps_calculate updates. */
  class FpsMeter {
    var count: nat
    var duration: nat
    var skipBeginning: nat
    var fps: Option<nat>
    ghost var calls: seq<Call>

    function Fields(): Meter
      reads this
    {
      Meter(skipBeginning, count, duration, fps)
    }

    ghost predicate Valid()
      reads this
    {
      Measures(Fields(), calls)
    }

    constructor ()
      ensures Valid() && |calls| == 0
    {
      ghost var none: seq<Call> :| |none| == 0;
      count, duration, skipBeginning, fps, calls := 0, 0, 0, None, none;
    }

    method FpsCalculate(formatChanged: bool, elapsed: nat)
      modifies this`count, this`duration, this`skipBeginning, this`fps
      ensures Fields() == Tick(old(Fields()), Call(formatChanged, elapsed))
    {
      if formatChanged {
        count := 0;
        duration := 0;
        skipBeginning := 0;
      }
      if skipBeginning < 3 {
        skipBeginning := skipBeginning + 1;
        return;
      }
      duration := duration + elapsed;
      count := count + 1;
      var ms := duration / NANOS_PER_MS;
      if count % 10 == 0 && ms > 0 {
        fps := Some(count * 1000 / ms);
      }
      if count >= 30 {
        count := 0;
        duration := 0;
      }
    }

    method OnDecoded(formatChanged: bool, elapsed: nat)
      requires Valid()
      modifies this
      ensures Valid() && calls == old(calls) + [Call(formatChanged, elapsed)]
    {
      TickMeasures(Fields(), calls, Call(formatChanged, elapsed));
      FpsCalculate(formatChanged, elapsed);
      calls := calls + [Call(formatChanged, elapsed)];
    }
  }

  /** Each unusable format once. */
  ghost predicate Marks(formats: seq<Format>, h: seq<Input>) {
    NoDuplicates(formats) && forall g :: g in formats <==> g in Flagged(h)
  }

  class VideoThread {
    /** Created with the first frame. */
    var handler: VideoHandler?
    const meter: FpsMeter
    var markUnsupported: seq<Format>
    ghost var history: seq<Input>

    ghost predicate Valid()
      reads this, handler, meter
    {
      && MeterFollows(history)
      && HandlerFollows(history)
      && Marks(markUnsupported, history)
    }

    ghost predicate MeterFollows(h: seq<Input>)
      reads meter
    {
      meter.Valid() && meter.calls == FpsCalls(h)
    }

    ghost predicate HandlerFollows(h: seq<Input>)
      reads this`handler, handler
    {
      if handler == null then CurrentFormat(h).None? else handler.Follows(h)
    }

    constructor (meter: FpsMeter)
      requires meter.Valid() && |meter.calls| == 0
      ensures Valid() && |history| == 0 && this.meter == meter && handler == null
    {
      this.meter := meter;
      ghost var none := EmptyHistory();
      handler, markUnsupported, history := null, [], none;
    }

    /** The handler, created if there is none, decodes the frame. */
    method Decode(f: Input) returns (formatChanged: bool, result: Outcome)
      requires HandlerFollows(history) && f.Frame?
      modifies this`handler, handler
      ensures handler != null && HandlerFollows(history + [f])
      ensures handler == old(handler) || fresh(handler)
      ensures formatChanged == ChangesFormat(history, f) && result == Result(f)
      ensures formatChanged <==> old(handler) != null && old(handler.format) != f.format
      ensures result == if f.hasData then f.outcome else NotDecoded
    {
      HistoryStep(history, f);
      NoHandlerNoOutcomes(history);
      if handler == null {
        handler := new VideoHandler(f.format);
      }
      formatChanged := handler.format != f.format;
      result := handler.HandleFrame(f);
    }

    method MeasureRate(formatChanged: bool, result: Outcome, f: Input)
      requires f.Frame? && result == Result(f) && formatChanged == ChangesFormat(history, f)
      requires MeterFollows(history)
      modifies meter
      ensures MeterFollows(history + [f])
    {
      FpsCallsStep(history, f);
      if result.Decoded? {
        meter.OnDecoded(formatChanged, f.elapsed);
      }
    }

    /** One turn of the loop for a frame; `refresh` is whether a new key frame is asked for. */
    method OnFrame(f: Input) returns (refresh: bool)
      requires Valid() && f.Frame?
      modifies this, handler, meter
      ensures Valid() && history == old(history) + [f] && handler != null
      ensures refresh <==> f.hasData && f.outcome.DecodeError?
    {
      var formatChanged, result := Decode(f);
      MeasureRate(formatChanged, result, f);
      refresh := result.DecodeError?;
      CheckDecoder(f.valid, f);
      history := history + [f];
    }

    /** The check for invalid decoders. */
    method CheckDecoder(valid: bool, ghost f: Input)
      requires f.Frame? && f.valid == valid
      requires handler != null && HandlerFollows(history + [f])
      requires Marks(markUnsupported, history)
      modifies this`markUnsupported
      ensures Marks(markUnsupported, history + [f])
    {
      FlaggedSnoc(history, f);
      HistoryStep(history, f);
      if !valid || handler.failCounter >= MAX_DECODE_FAIL_COUNTER {
        if handler.format !in markUnsupported {
          markUnsupported := markUnsupported + [handler.format];
        }
      }
    }

    /** MediaData::Reset. */
    method OnReset()
      requires Valid()
      modifies this`history, handler
      ensures Valid() && history == old(history) + [Reset]
    {
      ResetStep(history);
      if handler != null {
        handler.ResetTo(handler.format);
      }
      history := history + [Reset];
    }
  }

  lemma EmptyHistory() returns (h: seq<Input>)
    ensures |h| == 0 && CurrentFormat(h).None? && |FpsCalls(h)| == 0 && Marks([], h)
  {
    h :| |h| == 0;
  }

  lemma ResetStep(h: seq<Input>)
    ensures CurrentFormat(h + [Reset]) == CurrentFormat(h)
    ensures SinceReset(h + [Reset]) == []
    ensures FpsCalls(h + [Reset]) == FpsCalls(h)
    ensures Flagged(h + [Reset]) == Flagged(h)
  {
    FlaggedSnoc(h, Reset);
    assert (h + [Reset])[..|h|] == h;
  }

  lemma {:induction false} NoHandlerNoOutcomes(h: seq<Input>)
    ensures CurrentFormat(h).None? ==> SinceReset(h) == []
  {
    if h != [] {
      NoHandlerNoOutcomes(h[..|h| - 1]);
    }
  }
}
