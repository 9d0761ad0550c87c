/** The audio jitter buffer: a bounded FIFO of samples plus a watermark histogram that
    decides, once every twelve seconds, how many samples to throw away.

    The class `AudioBuffer` is the imperative code.  It is proved to refine `Apply`, a step
    function on `State`, in which the counters of the histogram are replaced by the log of
    what they counted and the argmax-and-clear loop by a definition of "first most frequent
    bin".  The modules `AudioDrops` and `AudioFrames` prove more about runs of
    `Apply`. */
module AudioBuffer {
  import opened Basics

  type Sample = real

  type pos = x: int | 0 < x witness 1

  const AUDIO_BUFFER_MS := 3000
  const WINDOW_MS := 12000
  const BINS := 30
  const MIN_MODE := 6
  const N := 4

  // ---------- The watermark statistics ----------

  /** One call of try_shrink: the fill level it saw and the rate then in force. */
  datatype Record = Record(having: nat, rate: pos)

  function Bin(r: Record): (b: nat)
    ensures b < BINS
  {
    var i := r.having * 10 / r.rate;
    if i > BINS - 1 then BINS - 1 else i
  }

  /** How many records fell into bin `b`. */
  function Count(log: seq<Record>, b: nat): nat {
    if log == [] then 0
    else Count(log[..|log| - 1], b) + if Bin(log[|log| - 1]) == b then 1 else 0
  }

  /** What the thirty counters hold after `log`. */
  function Histogram(log: seq<Record>): (h: seq<nat>)
    ensures |h| == BINS && forall b | 0 <= b < BINS :: h[b] == Count(log, b)
  {
    seq(BINS, b requires 0 <= b < BINS => Count(log, b))
  }

  lemma HistogramPush(log: seq<Record>, r: Record)
    ensures Histogram(log + [r]) == Histogram(log)[Bin(r) := Histogram(log)[Bin(r)] + 1]
  {
    assert (log + [r])[..|log|] == log;
  }

  /** `m` is the first of the bins 1..n-1 with the largest counter; 0 if these are all zero. */
  ghost predicate IsMode(h: seq<nat>, n: nat, m: nat)
    requires n <= |h|
  {
    && (m == 0 ==> forall j | 1 <= j < n :: h[j] == 0)
    && (m != 0 ==>
          && m < n
          && 0 < h[m]
          && (forall j | 1 <= j < n :: h[j] <= h[m])
          && (forall j | 1 <= j < m :: h[j] < h[m]))
  }

  function Mode(h: seq<nat>, n: nat): (m: nat)
    requires n <= |h|
    ensures IsMode(h, n, m)
  {
    if n <= 1 then 0
    else
      var m := Mode(h, n - 1);
      if h[n - 1] > (if m == 0 then 0 else h[m]) then n - 1 else m
  }

  lemma ModeUnique(h: seq<nat>, n: nat, m1: nat, m2: nat)
    requires n <= |h|
    requires IsMode(h, n, m1) && IsMode(h, n, m2)
    ensures m1 == m2
  {
    if m1 != 0 && m2 != 0 {
      assert h[m1] <= h[m2];
    }
  }

  /** The lowest bin any record fell into. */
  function LowestBin(log: seq<Record>): (b: nat)
    requires log != []
    ensures b < BINS
  {
    var last := Bin(log[|log| - 1]);
    if |log| == 1 then last
    else
      var b := LowestBin(log[..|log| - 1]);
      if last < b then last else b
  }

  /** The lowest fill level in the log. */
  function LowestHaving(log: seq<Record>): (m: nat)
    requires log != []
    ensures exists i | 0 <= i < |log| :: log[i].having == m
    ensures forall i | 0 <= i < |log| :: m <= log[i].having
  {
    var last := log[|log| - 1].having;
    if |log| == 1 then last
    else
      var m := LowestHaving(log[..|log| - 1]);
      if last < m then last else m
  }

  /** The lowest bin is the number of leading empty bins. */
  lemma {:induction false} LowestBinIsLeadingEmpty(log: seq<Record>)
    requires log != []
    ensures Count(log, LowestBin(log)) > 0
    ensures forall j: nat | j < LowestBin(log) :: Count(log, j) == 0
  {
    var rest := log[..|log| - 1];
    if rest == [] {
      assert Count(log, LowestBin(log)) == Count(rest, LowestBin(log)) + 1;
      forall j: nat | j < LowestBin(log) ensures Count(log, j) == 0 {
        assert Count(log, j) == Count(rest, j);
      }
    } else {
      LowestBinIsLeadingEmpty(rest);
      forall j: nat | j < LowestBin(log) ensures Count(log, j) == 0 {
        assert Count(log, j) == Count(rest, j);
      }
    }
  }

  /** If nothing was recorded below `rate`, the lowest bin is at most ten times the lowest fill level over it. */
  lemma {:induction false} LowestBinBelowLowestHaving(log: seq<Record>, rate: pos)
    requires log != []
    requires forall i | 0 <= i < |log| :: rate <= log[i].rate
    ensures LowestBin(log) * rate <= 10 * LowestHaving(log)
  {
    var last := log[|log| - 1];
    BinTimesRate(last);
    assert Bin(last) * rate <= Bin(last) * last.rate by { MulMonoRight(Bin(last), rate, last.rate); }
    if |log| > 1 {
      LowestBinBelowLowestHaving(log[..|log| - 1], rate);
      if Bin(last) < LowestBin(log[..|log| - 1]) {
        MulMono(Bin(last), LowestBin(log[..|log| - 1]), rate);
      } else {
        MulMono(LowestBin(log[..|log| - 1]), Bin(last), rate);
      }
    }
  }

  lemma BinTimesRate(r: Record)
    ensures Bin(r) * r.rate <= 10 * r.having
  {
    var i := r.having * 10 / r.rate;
    assert i * r.rate <= r.having * 10;
    MulMono(Bin(r), i, r.rate);
  }

  /** Bin b holds the levels from b tenths of a second up to the next tenth; the last one, all from 2.9 seconds. */
  lemma BinMeaning(r: Record)
    ensures if r.having * 10 >= 29 * r.rate then Bin(r) == 29
            else Bin(r) < 29 && Bin(r) * r.rate <= r.having * 10 < (Bin(r) + 1) * r.rate
  {
    var q := r.having * 10 / r.rate;
    assert q * r.rate <= r.having * 10 < (q + 1) * r.rate;
    if q < 29 {
      MulMono(q + 1, 29, r.rate);
    } else {
      MulMono(29, q, r.rate);
    }
  }

  // ---------- The drop decision ----------

  /** (x + 1) & !1 */
  function RoundUpEven(x: nat): (y: nat)
    ensures y % 2 == 0 && x <= y <= x + 1
  {
    (x + 1) - (x + 1) % 2
  }

  /** The bin the drop is based on: the mode, but at most N times two thirds of the lowest bin;
      0 when the mode is below MIN_MODE. */
  function Level(log: seq<Record>): nat
    requires log != []
  {
    var mode := Mode(Histogram(log), BINS);
    var safe := LowestBin(log) * 2 / 3 * N;
    if mode < MIN_MODE then 0 else if mode > safe then safe else mode
  }

  /** `level` thirtieths of the capacity, over N, rounded up to an even number. */
  function Skip(capacity: nat, level: nat): nat {
    RoundUpEven(capacity * level / (30 * N))
  }

  /** The number of samples an analysis of `log` drops from a buffer holding `occupied`. */
  function ShrinkBy(log: seq<Record>, rate: pos, occupied: nat): nat
    requires log != []
  {
    ShrinkOfLevel(rate, Level(log), occupied)
  }

  function ShrinkOfLevel(rate: pos, level: nat, occupied: nat): nat {
    if occupied > 3 * Skip(3 * rate, level) then Skip(3 * rate, level) else 0
  }

  // ---------- The specification: steps on an abstract state ----------

  /** `ring` oldest sample first; `rate` = sample rate times channels; `log` = what the histogram
      has counted since it was last cleared; `tms` = the time of the last analysis, shared by all
      buffers of the process. */
  datatype State = State(ring: seq<Sample>, rate: pos, log: seq<Record>, tms: int)

  datatype Op =
    | Append(pcm: seq<Sample>, now: int)
    | Pop(n: nat)
    | Resize(sampleRate: pos, channels: pos)
    | OtherBufferAnalysed(now: int)

  ghost predicate Bounded(s: State) {
    |s.ring| <= 3 * s.rate
  }

  const INITIAL := State([], 96000, [], 0)

  function Last(xs: seq<Sample>, n: nat): (r: seq<Sample>)
    ensures |r| == (if |xs| <= n then |xs| else n) && r == xs[|xs| - |r|..]
  {
    if |xs| <= n then xs else xs[|xs| - n..]
  }

  /** append_pcm without the statistics: keep the newest 3 * rate samples. */
  function Kept(s: State, pcm: seq<Sample>): seq<Sample> {
    Last(s.ring + pcm, 3 * s.rate)
  }

  predicate Analyses(s: State, now: int) {
    s.tms != 0 && now >= s.tms + WINDOW_MS
  }

  function Logged(s: State, pcm: seq<Sample>): (log: seq<Record>)
    ensures log != []
  {
    s.log + [Record(|Kept(s, pcm)|, s.rate)]
  }

  /** The samples that the statistics, as opposed to overflow, drop in this step. */
  function WatermarkDrop(s: State, op: Op): (k: nat)
    ensures op.Append? ==> k <= |Kept(s, op.pcm)|
  {
    match op
    case Append(pcm, now) =>
      if Analyses(s, now) then ShrinkBy(Logged(s, pcm), s.rate, |Kept(s, pcm)|) else 0
    case _ => 0
  }

  function Apply(s: State, op: Op): State {
    match op
    case Append(pcm, now) =>
      var ring := Kept(s, pcm);
      if s.tms == 0 then State(ring, s.rate, Logged(s, pcm), now)
      else if !Analyses(s, now) then State(ring, s.rate, Logged(s, pcm), s.tms)
      else State(ring[WatermarkDrop(s, op)..], s.rate, [], now)
    case Pop(n) => s.(ring := s.ring[Min(n, |s.ring|)..])
    case Resize(sampleRate, channels) =>
      if 3 * (sampleRate * channels) == 3 * s.rate then s
      else s.(ring := [], rate := sampleRate * channels)
    case OtherBufferAnalysed(now) => s.(tms := now)
  }

  function Run(s: State, ops: seq<Op>): State
    decreases ops
  {
    if ops == [] then s else Run(Apply(s, ops[0]), ops[1..])
  }

  /** Runs compose, step by step. */
  lemma RunOfFour(s: State, a: Op, b: Op, c: Op, d: Op)
    ensures Run(s, [a, b, c, d]) == Apply(Apply(Apply(Apply(s, a), b), c), d)
  {
    var s1 := Apply(s, a);
    var s2 := Apply(s1, b);
    assert [a, b, c, d][1..] == [b, c, d] && [b, c, d][1..] == [c, d] && [c, d][1..] == [d] && [d][1..] == [];
    assert Run(s2, [c, d]) == Run(Apply(s2, c), [d]) == Apply(Apply(s2, c), d);
    assert Run(s, [a, b, c, d]) == Run(s1, [b, c, d]) == Run(s2, [c, d]);
  }

  // ---------- FIFO order and conservation ----------

  datatype Fate = Played | Dropped

  function Repeat(f: Fate, n: nat): (fates: seq<Fate>)
    ensures |fates| == n && forall i | 0 <= i < n :: fates[i] == f
  {
    seq(n, _ => f)
  }

  function Appended(op: Op): seq<Sample> {
    if op.Append? then op.pcm else []
  }

  /** What the step does to the samples at the head of old content ++ new samples. */
  function FatesOf(s: State, op: Op): seq<Fate> {
    match op
    case Append(pcm, _) => Repeat(Dropped, |s.ring| + |pcm| - |Kept(s, pcm)| + WatermarkDrop(s, op))
    case Pop(n) => Repeat(Played, Min(n, |s.ring|))
    case Resize(sampleRate, channels) => Repeat(Dropped, if sampleRate * channels == s.rate then 0 else |s.ring|)
    case OtherBufferAnalysed(_) => []
  }

  function Heard(s: State, op: Op): seq<Sample> {
    if op.Pop? then s.ring[..Min(op.n, |s.ring|)] else []
  }

  function AppendedIn(ops: seq<Op>): seq<Sample> {
    if ops == [] then [] else Appended(ops[0]) + AppendedIn(ops[1..])
  }

  function FatesIn(s: State, ops: seq<Op>): seq<Fate>
    decreases ops
  {
    if ops == [] then [] else FatesOf(s, ops[0]) + FatesIn(Apply(s, ops[0]), ops[1..])
  }

  function HeardIn(s: State, ops: seq<Op>): seq<Sample>
    decreases ops
  {
    if ops == [] then [] else Heard(s, ops[0]) + HeardIn(Apply(s, ops[0]), ops[1..])
  }

  /** The samples of `xs` whose fate is Played, in order. */
  function PlayedOf(xs: seq<Sample>, fates: seq<Fate>): seq<Sample>
    requires |xs| == |fates|
  {
    if xs == [] then []
    else (if fates[0] == Played then [xs[0]] else []) + PlayedOf(xs[1..], fates[1..])
  }

  function CountFate(fates: seq<Fate>, f: Fate): nat {
    if fates == [] then 0 else (if fates[0] == f then 1 else 0) + CountFate(fates[1..], f)
  }

  lemma {:induction false} PlayedOfConcat(xs: seq<Sample>, ys: seq<Sample>, f: seq<Fate>, g: seq<Fate>)
    requires |xs| == |f| && |ys| == |g|
    ensures PlayedOf(xs + ys, f + g) == PlayedOf(xs, f) + PlayedOf(ys, g)
  {
    if xs == [] {
      assert xs + ys == ys && f + g == g;
    } else {
      PlayedOfConcat(xs[1..], ys, f[1..], g);
      assert (xs + ys)[1..] == xs[1..] + ys;
      assert (f + g)[1..] == f[1..] + g;
      var head := if f[0] == Played then [xs[0]] else [];
      assert PlayedOf(xs + ys, f + g) == head + (PlayedOf(xs[1..], f[1..]) + PlayedOf(ys, g));
    }
  }

  lemma {:induction false} PlayedOfUniform(xs: seq<Sample>, fates: seq<Fate>, f: Fate)
    requires |xs| == |fates| && forall i | 0 <= i < |fates| :: fates[i] == f
    ensures PlayedOf(xs, fates) == if f == Played then xs else []
  {
    if xs != [] {
      PlayedOfUniform(xs[1..], fates[1..], f);
      assert xs == [xs[0]] + xs[1..];
    }
  }

  lemma {:induction false} PlayedOfCounts(xs: seq<Sample>, fates: seq<Fate>)
    requires |xs| == |fates|
    ensures |PlayedOf(xs, fates)| == CountFate(fates, Played)
    ensures CountFate(fates, Played) + CountFate(fates, Dropped) == |xs|
  {
    if xs != [] {
      PlayedOfCounts(xs[1..], fates[1..]);
    }
  }

  lemma DropTwice(xs: seq<Sample>, m: nat, n: nat)
    requires m + n <= |xs|
    ensures xs[m..][n..] == xs[m + n..]
  {
  }

  /** One step takes its samples off the front and leaves the rest untouched. */
  lemma StepIsFifo(s: State, op: Op)
    requires Bounded(s)
    ensures Bounded(Apply(s, op))
    ensures |FatesOf(s, op)| <= |s.ring + Appended(op)|
    ensures Apply(s, op).ring == (s.ring + Appended(op))[|FatesOf(s, op)|..]
    ensures Heard(s, op) == PlayedOf((s.ring + Appended(op))[..|FatesOf(s, op)|], FatesOf(s, op))
  {
    var all, fates := s.ring + Appended(op), FatesOf(s, op);
    match op
    case Append(pcm, now) =>
      DropTwice(all, |all| - |Kept(s, pcm)|, WatermarkDrop(s, op));
      PlayedOfUniform(all[..|fates|], fates, Dropped);
    case Pop(n) =>
      PlayedOfUniform(all[..|fates|], fates, Played);
    case Resize(_, _) =>
      PlayedOfUniform(all[..|fates|], fates, Dropped);
    case OtherBufferAnalysed(_) =>
  }

  /** Taking `f` off the front and then `g` is taking `f + g` off the front. */
  lemma SplitOff(xs: seq<Sample>, ys: seq<Sample>, f: seq<Fate>, g: seq<Fate>)
    requires |f| <= |xs| && |f| + |g| <= |xs| + |ys|
    ensures (xs[|f|..] + ys)[|g|..] == (xs + ys)[|f + g|..]
    ensures PlayedOf((xs + ys)[..|f + g|], f + g) == PlayedOf(xs[..|f|], f) + PlayedOf((xs[|f|..] + ys)[..|g|], g)
  {
    PlayedOfConcat(xs[..|f|], (xs[|f|..] + ys)[..|g|], f, g);
    SplitDrop(xs, ys, |f|, |g|);
    SplitTake(xs, ys, |f|, |g|);
  }

  lemma SplitDrop(xs: seq<Sample>, ys: seq<Sample>, m: nat, n: nat)
    requires m <= |xs| && m + n <= |xs| + |ys|
    ensures (xs[m..] + ys)[n..] == (xs + ys)[m + n..]
  {
    assert xs[m..] + ys == (xs + ys)[m..];
    DropTwice(xs + ys, m, n);
  }

  lemma SplitTake(xs: seq<Sample>, ys: seq<Sample>, m: nat, n: nat)
    requires m <= |xs| && m + n <= |xs| + |ys|
    ensures xs[..m] + (xs[m..] + ys)[..n] == (xs + ys)[..m + n]
  {
    assert xs[m..] + ys == (xs + ys)[m..];
  }

  /** After `ops` the buffer is a suffix of everything it was given, and what left it was heard, in
      order, except for the dropped samples. */
  ghost predicate Conserved(s: State, ops: seq<Op>) {
    var all := s.ring + AppendedIn(ops);
    var fates := FatesIn(s, ops);
    && |fates| <= |all|
    && Run(s, ops).ring == all[|fates|..]
    && HeardIn(s, ops) == PlayedOf(all[..|fates|], fates)
  }

  lemma ConservedStep(s: State, ops: seq<Op>)
    requires Bounded(s) && ops != []
    requires Conserved(Apply(s, ops[0]), ops[1..])
    ensures Conserved(s, ops)
  {
    var op, t := ops[0], Apply(s, ops[0]);
    StepIsFifo(s, op);
    var given, later := s.ring + Appended(op), AppendedIn(ops[1..]);
    SplitOff(given, later, FatesOf(s, op), FatesIn(t, ops[1..]));
    Regroup(s.ring, Appended(op), later);
  }

  /** The run without the resizes to the rate in force. */
  function WithoutIdleResizes(s: State, ops: seq<Op>): seq<Op>
    decreases ops
  {
    if ops == [] then []
    else
      var rest := WithoutIdleResizes(Apply(s, ops[0]), ops[1..]);
      if ops[0].Resize? && ops[0].sampleRate * ops[0].channels == s.rate then rest else [ops[0]] + rest
  }

  lemma RunCons(s: State, op: Op, ops: seq<Op>)
    ensures Run(s, [op] + ops) == Run(Apply(s, op), ops)
    ensures HeardIn(s, [op] + ops) == Heard(s, op) + HeardIn(Apply(s, op), ops)
    ensures FatesIn(s, [op] + ops) == FatesOf(s, op) + FatesIn(Apply(s, op), ops)
  {
    assert ([op] + ops)[1..] == ops;
  }

  lemma IdleResize(s: State, op: Op)
    requires op.Resize? && op.sampleRate * op.channels == s.rate
    ensures Apply(s, op) == s && Heard(s, op) == [] && FatesOf(s, op) == []
  {
  }

  /** A stream rebuilt for the same format loses nothing: leaving out every resize to the rate then in force
      changes neither where a run ends, nor what is heard, nor what becomes of any sample. */
  lemma {:induction false} IdleResizesChangeNothing(s: State, ops: seq<Op>)
    ensures var fewer := WithoutIdleResizes(s, ops);
            && Run(s, fewer) == Run(s, ops)
            && HeardIn(s, fewer) == HeardIn(s, ops)
            && FatesIn(s, fewer) == FatesIn(s, ops)
    decreases ops
  {
    if ops != [] {
      var op, rest := ops[0], ops[1..];
      assert ops == [op] + rest;
      IdleResizesChangeNothing(Apply(s, op), rest);
      RunCons(s, op, rest);
      RunCons(s, op, WithoutIdleResizes(Apply(s, op), rest));
      if op.Resize? && op.sampleRate * op.channels == s.rate {
        IdleResize(s, op);
        assert [] + HeardIn(s, rest) == HeardIn(s, rest) && [] + FatesIn(s, rest) == FatesIn(s, rest);
      }
    }
  }

  /** A resize to another rate discards what is buffered, all of it unheard, and nothing of the histogram. */
  lemma ResizeDiscardsAll(s: State, sampleRate: pos, channels: pos)
    requires sampleRate * channels != s.rate
    ensures var op := Resize(sampleRate, channels);
            && Apply(s, op) == State([], sampleRate * channels, s.log, s.tms)
            && |FatesOf(s, op)| == |s.ring|
            && Heard(s, op) == []
  {
  }

  /** Over every run: samples leave in order, each is either heard or dropped, and nothing is lost or
      duplicated. */
  lemma {:induction false} Conservation(s: State, ops: seq<Op>)
    requires Bounded(s)
    ensures Bounded(Run(s, ops))
    ensures Conserved(s, ops)
    ensures |s.ring| + |AppendedIn(ops)|
         == |HeardIn(s, ops)| + CountFate(FatesIn(s, ops), Dropped) + |Run(s, ops).ring|
    decreases ops
  {
    if ops == [] {
      assert s.ring + [] == s.ring;
    } else {
      StepIsFifo(s, ops[0]);
      Conservation(Apply(s, ops[0]), ops[1..]);
      ConservedStep(s, ops);
    }
    PlayedOfCounts((s.ring + AppendedIn(ops))[..|FatesIn(s, ops)|], FatesIn(s, ops));
  }

  // ---------- The imperative code ----------

  /** The process-wide `static mut tms` of try_shrink. */
  class ShrinkTimer {
    var tms: int

    constructor ()
      ensures tms == 0
    {
      tms := 0;
    }
  }

  /** push_slice_overwrite of the ring-buffer crate: make room by dropping the oldest elements, then
      push as much of the tail of `elems` as fits. */
  function PushSliceOverwrite(ring: seq<Sample>, capacity: nat, elems: seq<Sample>): seq<Sample>
    requires |ring| <= capacity
  {
    var vacant := capacity - |ring|;
    var room := if |elems| > vacant then ring[Min(|elems| - vacant, |ring|)..] else ring;
    var free := capacity - |room|;
    room + if |elems| > free then elems[|elems| - free..] else elems
  }

  /** `z` is the number of leading zeros among the first `n` counters. */
  ghost predicate LeadingZeros(h: seq<nat>, n: nat, z: nat)
    requires n <= |h|
  {
    && z <= n
    && (forall j | 0 <= j < z :: h[j] == 0)
    && (z < n ==> h[z] > 0)
  }

  /** The analysis loop: find the mode and the number of leading empty bins, and clear every counter
      on the way. */
  method Analyse(histogram: array<nat>) returns (max: nat, zero: nat)
    requires histogram.Length == BINS
    modifies histogram
    ensures max == Mode(old(histogram[..]), BINS)
    ensures LeadingZeros(old(histogram[..]), BINS, zero)
    ensures forall j | 0 <= j < BINS :: histogram[j] == 0
  {
    ghost var h := histogram[..];
    max, zero := 0, 0;
    for i := 0 to BINS
      invariant forall j | i <= j < BINS :: histogram[j] == h[j]
      invariant forall j | 0 <= j < i && j != max :: histogram[j] == 0
      invariant max == 0 || max < i
      invariant i > 0 ==> histogram[max] == if max == 0 then 0 else h[max]
      invariant IsMode(h, i, max)
      invariant LeadingZeros(h, i, zero)
    {
      if histogram[i] == 0 && zero == i {
        zero := zero + 1;
      }
      if histogram[i] > histogram[max] {
        histogram[max] := 0;
        max := i;
      } else {
        histogram[i] := 0;
      }
    }
    ModeUnique(h, BINS, max, Mode(h, BINS));
    histogram[max] := 0;
  }

  class AudioBuffer {
    var ring: seq<Sample>
    var capacity: nat
    var rate: pos
    const histogram: array<nat>
    const timer: ShrinkTimer
    ghost var log: seq<Record>

    ghost predicate Valid()
      reads this, histogram
    {
      && capacity == 3 * rate
      && |ring| <= capacity
      && histogram.Length == BINS
      && histogram[..] == Histogram(log)
    }

    ghost function View(): State
      reads this, timer
    {
      State(ring, rate, log, timer.tms)
    }

    constructor (timer: ShrinkTimer)
      ensures Valid() && fresh(histogram) && this.timer == timer
      ensures View() == INITIAL.(tms := timer.tms)
      ensures ring == [] && rate == 96000 && capacity == 288000
      ensures histogram.Length == 30 && forall b | 0 <= b < 30 :: histogram[b] == 0
    {
      ring := [];
      capacity := 48000 * 2 * AUDIO_BUFFER_MS / 1000;
      rate := 48000 * 2;
      histogram := new nat[BINS](_ => 0);
      this.timer := timer;
      log := [];
    }

    method Resize(sampleRate: pos, channels: pos)
      requires Valid()
      modifies this
      ensures Valid()
      ensures View() == Apply(old(View()), Op.Resize(sampleRate, channels))
      ensures rate == sampleRate * channels && capacity == 3 * rate
      ensures ring == if sampleRate * channels == old(rate) then old(ring) else []
      ensures histogram[..] == old(histogram[..]) && log == old(log)
    {
      var product := sampleRate * channels;
      var newCapacity := product * AUDIO_BUFFER_MS / 1000;
      if newCapacity != capacity {
        ring := [];
        capacity := newCapacity;
        rate := product;
      }
    }

    method AppendPcm2(buffer: seq<Sample>) returns (having: nat)
      requires Valid()
      modifies this`ring
      ensures Valid()
      ensures ring == Last(old(ring) + buffer, capacity)
      ensures having == |ring|
    {
      if |buffer| > capacity {
        ring := PushSliceOverwrite(ring, capacity, buffer);
        assert ring == Last(old(ring) + buffer, capacity);
        return capacity;
      }
      var total := |ring| + |buffer|;
      if total > capacity {
        ring := ring[total - capacity..];
      }
      ring := PushSliceOverwrite(ring, capacity, buffer);
      return |ring|;
    }

    method TryShrink(having: nat, now: int)
      requires Valid()
      modifies this`ring, this`log, histogram, timer
      ensures Valid()
      ensures View() ==
        var s := old(View());
        var log := s.log + [Record(having, s.rate)];
        if s.tms == 0 then State(s.ring, s.rate, log, now)
        else if now < s.tms + 12000 then State(s.ring, s.rate, log, s.tms)
        else State(s.ring[ShrinkBy(log, s.rate, |s.ring|)..], s.rate, [], now)
    {
      var i := having * 10 / rate;
      if i > 29 {
        i := 29;
      }
      histogram[i] := histogram[i] + 1;
      ghost var record := Record(having, rate);
      HistogramPush(log, record);
      log := log + [record];

      if timer.tms == 0 {
        timer.tms := now;
        return;
      } else if now < timer.tms + WINDOW_MS {
        return;
      }
      timer.tms := now;
      Shrink();
    }

    /** The part of try_shrink that runs once a window: analyse, clear, drop. */
    method Shrink()
      requires Valid() && log != []
      modifies this`ring, this`log, histogram
      ensures Valid() && log == []
      ensures ring == old(ring[ShrinkBy(log, rate, |ring|)..])
    {
      var max, zero := Analyse(histogram);
      LowestBinIsLeadingEmpty(log);
      ghost var level := Level(log);
      ghost var skipped := ShrinkBy(log, rate, |ring|);
      log := [];
      zero := zero * 2 / 3;
      if max < MIN_MODE {
        return;
      } else if max > zero * N {
        max := zero * N;
      }
      assert max == level;
      var skip := Skip(capacity, max);
      if |ring| > skip * 3 && skip > 0 {
        ring := ring[skip..];
      }
    }

    method AppendPcm(buffer: seq<Sample>, now: int)
      requires Valid()
      modifies this, histogram, timer
      ensures Valid()
      ensures View() == Apply(old(View()), Append(buffer, now))
    {
      var having := AppendPcm2(buffer);
      TryShrink(having, now);
    }

    /** The output callback: fill `length` samples, silence once the buffer runs dry. */
    method FillOutput(length: nat) returns (data: seq<Sample>)
      requires Valid()
      modifies this`ring
      ensures Valid()
      ensures View() == Apply(old(View()), Pop(length))
      ensures |data| == length
      ensures data == old(ring[..Min(length, |ring|)]) + seq(length - old(Min(length, |ring|)), _ => 0.0)
      ensures ring == old(ring[Min(length, |ring|)..]) && rate == old(rate)
      ensures var heard := Heard(old(View()), Pop(length));
              heard <= data && forall i | |heard| <= i < length :: data[i] == 0.0
    {
      var n := length;
      var having := |ring|;
      if having < n {
        n := having;
      }
      data := ring[..n] + seq(length - n, _ => 0.0);
      ring := ring[n..];
    }
  }
}
