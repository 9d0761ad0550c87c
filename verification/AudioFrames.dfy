/** Channel alignment of the audio buffer: when the sample at its head belongs to channel 0. */
module AudioFrames {
  import opened Basics
  import opened AudioBuffer
  import opened AudioDrops

  /** `k` frames of `c` samples. */
  function Samples(k: nat, c: pos): nat {
    if k == 0 then 0 else Samples(k - 1, c) + c
  }

  /** `n` samples are a whole number of frames. */
  ghost predicate Divides(c: pos, n: nat) {
    exists k: nat :: Samples(k, c) == n
  }

  lemma {:induction false} SamplesValue(k: nat, c: pos)
    ensures Samples(k, c) == k * c
  {
    if k > 0 {
      SamplesValue(k - 1, c);
      assert k * c == (k - 1) * c + c;
    }
  }

  lemma DividesIff(c: pos, n: nat)
    ensures Divides(c, n) <==> n % c == 0
  {
    SamplesValue(n / c, c);
    assert n == n / c * c + n % c;
    if k: nat :| Samples(k, c) == n {
      RestOfSamples(k, c);
    }
  }

  lemma RestOfSamples(k: nat, c: pos)
    ensures Samples(k, c) % c == 0
  {
    SamplesValue(k, c);
    var q, r := (k * c) / c, (k * c) % c;
    assert r == (k - q) * c;
    NoSmallMultiple(k - q, c);
  }

  lemma NoSmallMultiple(d: int, c: pos)
    ensures d >= 1 ==> d * c >= c
    ensures d <= -1 ==> d * c + c <= 0
  {
  }

  /** The step moves whole frames of `c` samples and keeps the format. */
  ghost predicate WholeFrames(op: Op, c: pos) {
    match op
    case Append(pcm, _) => Divides(c, |pcm|)
    case Pop(n) => Divides(c, n)
    case Resize(_, _) => false
    case OtherBufferAnalysed(_) => true
  }

  lemma {:induction false} SamplesSum(c: pos, i: nat, j: nat)
    ensures Samples(i + j, c) == Samples(i, c) + Samples(j, c)
  {
    if j > 0 {
      SamplesSum(c, i, j - 1);
    }
  }

  lemma DividesSum(c: pos, a: nat, b: nat)
    requires Divides(c, a)
    ensures Divides(c, a + b) <==> Divides(c, b)
  {
    var i: nat :| Samples(i, c) == a;
    if j: nat :| Samples(j, c) == b {
      SamplesSum(c, i, j);
    }
    if j: nat :| Samples(j, c) == a + b {
      if i <= j {
        SamplesSum(c, i, j - i);
      } else {
        SamplesSum(c, j, i - j);
      }
    }
  }

  lemma DividesMultiple(k: nat, c: pos)
    ensures k * c >= 0 && Divides(c, k * c)
  {
    SamplesValue(k, c);
  }

  lemma {:induction false} EvenSamples(c: pos, n: nat) returns (k: nat)
    requires c <= 2 && n % 2 == 0
    ensures Samples(k, c) == n
  {
    if n == 0 {
      k := 0;
    } else {
      k := EvenSamples(c, n - 2);
      k := if c == 1 then k + 2 else k + 1;
    }
  }

  lemma DividesEven(c: pos, n: nat)
    requires c <= 2 && n % 2 == 0
    ensures Divides(c, n)
  {
    var k := EvenSamples(c, n);
  }

  lemma {:induction false} SamplesGap(k: nat, r: nat, c: pos)
    requires 0 < r < c
    ensures Samples(k, c) != r
  {
    if k > 1 {
      SamplesGap(k - 1, r, c);
    }
  }

  lemma NotMultiple(k: nat, r: nat, c: pos)
    requires 0 < r < c
    ensures k * c >= 0 && !Divides(c, k * c + r)
  {
    DividesMultiple(k, c);
    DividesSum(c, k * c, r);
    if j: nat :| Samples(j, c) == r {
      SamplesGap(j, r, c);
    }
  }

  lemma DividesZero(c: pos)
    ensures Divides(c, 0)
  {
    assert Samples(0, c) == 0;
  }

  /** Whatever the level, the watermark drops whole frames. */
  ghost predicate WholeSkips(sampleRate: pos, c: pos) {
    forall level | IsLevel(level) :: Divides(c, Skip(3 * (sampleRate * c), level))
  }

  lemma WholeSkipsToStereo(sampleRate: pos, c: pos)
    requires c <= 2
    ensures WholeSkips(sampleRate, c)
  {
    forall level | IsLevel(level) ensures Divides(c, Skip(3 * (sampleRate * c), level)) {
      DividesEven(c, Skip(3 * (sampleRate * c), level));
    }
  }

  lemma WholeSkipsAtEightyHertz(sampleRate: pos, c: pos)
    requires sampleRate % 80 == 0
    ensures WholeSkips(sampleRate, c)
  {
    forall level | IsLevel(level) ensures Divides(c, Skip(3 * (sampleRate * c), level)) {
      FrameSkip(sampleRate / 80, c, level);
      DividesMultiple(2 * (sampleRate / 80 * level), c);
    }
  }

  lemma FrameSkip(q: pos, c: pos, level: nat)
    ensures Skip(3 * (80 * q * c), level) == 2 * (q * level) * c
  {
    var p := q * level * c;
    assert 3 * (80 * q * c) * level == 240 * p;
    assert 2 * (q * level) * c == 2 * p;
  }

  lemma SkipKeepsFrames(log: seq<Record>, sampleRate: pos, c: pos, occupied: nat)
    requires log != []
    requires WholeSkips(sampleRate, c)
    ensures Divides(c, ShrinkBy(log, sampleRate * c, occupied))
  {
    LevelIsLevel(log);
    DividesZero(c);
    if Level(log) == 0 {
      assert Skip(3 * (sampleRate * c), 0) == 0;
    }
  }

  /** Overflow drops whole frames. */
  lemma KeptWholeFrames(s: State, pcm: seq<Sample>, sampleRate: pos, c: pos)
    requires s.rate == sampleRate * c && Divides(c, |s.ring|) && Divides(c, |pcm|)
    ensures Divides(c, |Kept(s, pcm)|)
  {
    DividesSum(c, |s.ring|, |pcm|);
    DividesMultiple(3 * sampleRate, c);
    Scale(3, sampleRate, c);
  }

  lemma AppendTakesFrames(s: State, pcm: seq<Sample>, now: int, sampleRate: pos, c: pos)
    requires s.rate == sampleRate * c && Divides(c, |s.ring|) && Divides(c, |pcm|)
    requires WholeSkips(sampleRate, c)
    ensures Divides(c, |FatesOf(s, Append(pcm, now))|)
  {
    var kept, drop := |Kept(s, pcm)|, WatermarkDrop(s, Append(pcm, now));
    KeptWholeFrames(s, pcm, sampleRate, c);
    if Analyses(s, now) {
      SkipKeepsFrames(Logged(s, pcm), sampleRate, c, kept);
    }
    assert |FatesOf(s, Append(pcm, now))| == |s.ring| + |pcm| - kept + drop;
    DividesSum(c, |s.ring|, |pcm|);
    DividesSum(c, kept, |s.ring| + |pcm| - kept);
    DividesSum(c, |s.ring| + |pcm| - kept, drop);
  }

  lemma StepKeepsFrames(s: State, op: Op, sampleRate: pos, c: pos)
    requires Bounded(s) && s.rate == sampleRate * c && Divides(c, |s.ring|) && WholeFrames(op, c)
    requires WholeSkips(sampleRate, c)
    ensures Divides(c, |FatesOf(s, op)|)
    ensures Divides(c, |Apply(s, op).ring|) && Apply(s, op).rate == s.rate
  {
    match op {
      case Append(pcm, now) => AppendTakesFrames(s, pcm, now, sampleRate, c);
      case Pop(_) =>
      case OtherBufferAnalysed(_) =>
    }
    StepIsFifo(s, op);
    DividesSum(c, |s.ring|, |Appended(op)|);
    DividesSum(c, |FatesOf(s, op)|, |Apply(s, op).ring|);
  }

  /** If watermark skips are whole frames, every run moves whole frames out of the buffer, so the sample at
      its head belongs to channel 0 in every reachable state. */
  lemma {:induction false} HeadIsChannelZero(s: State, ops: seq<Op>, sampleRate: pos, c: pos)
    requires Bounded(s) && s.rate == sampleRate * c && Divides(c, |s.ring|)
    requires AllWhole(ops, c)
    requires WholeSkips(sampleRate, c)
    ensures AlignedAfter(s, ops, c)
    decreases ops
  {
    if ops == [] {
      DividesZero(c);
    } else {
      StepIsFifo(s, ops[0]);
      AllWholeRest(ops, c);
      StepKeepsFrames(s, ops[0], sampleRate, c);
      HeadIsChannelZero(Apply(s, ops[0]), ops[1..], sampleRate, c);
      AlignedCons(s, ops, c);
    }
  }

  /** A whole number of frames has left the buffer and a whole number is in it. */
  ghost predicate AlignedAfter(s: State, ops: seq<Op>, c: pos) {
    Divides(c, |FatesIn(s, ops)|) && Divides(c, |Run(s, ops).ring|)
  }

  lemma AllWholeRest(ops: seq<Op>, c: pos)
    requires AllWhole(ops, c) && ops != []
    ensures WholeFrames(ops[0], c) && AllWhole(ops[1..], c)
  {
  }

  lemma FatesInCons(s: State, ops: seq<Op>)
    requires ops != []
    ensures |FatesIn(s, ops)| == |FatesOf(s, ops[0])| + |FatesIn(Apply(s, ops[0]), ops[1..])|
    ensures Run(s, ops) == Run(Apply(s, ops[0]), ops[1..])
  {
  }

  lemma AlignedCons(s: State, ops: seq<Op>, c: pos)
    requires ops != [] && Divides(c, |FatesOf(s, ops[0])|)
    requires AlignedAfter(Apply(s, ops[0]), ops[1..], c)
    ensures AlignedAfter(s, ops, c)
  {
    var f, g := |FatesOf(s, ops[0])|, |FatesIn(Apply(s, ops[0]), ops[1..])|;
    DividesSum(c, f, g);
    FatesInCons(s, ops);
  }

  ghost predicate StaysAligned(sampleRate: pos, c: pos) {
    forall ops: seq<Op> | AllWhole(ops, c) :: Divides(c, |FatesIn(Formatted(sampleRate, c), ops)|)
  }

  ghost predicate AllWhole(ops: seq<Op>, c: pos) {
    forall i | 0 <= i < |ops| :: WholeFrames(ops[i], c)
  }

  /** Alignment in every run is the same thing as whole watermark skips at every level. */
  lemma StaysAlignedIff(sampleRate: pos, c: pos)
    requires sampleRate >= 20
    ensures StaysAligned(sampleRate, c) <==> WholeSkips(sampleRate, c)
  {
    if WholeSkips(sampleRate, c) {
      forall ops: seq<Op> | AllWhole(ops, c) ensures Divides(c, |FatesIn(Formatted(sampleRate, c), ops)|) {
        DividesZero(c);
        HeadIsChannelZero(Formatted(sampleRate, c), ops, sampleRate, c);
      }
    } else if StaysAligned(sampleRate, c) {
      if c <= 2 {
        WholeSkipsToStereo(sampleRate, c);
      }
      forall level | IsLevel(level) ensures Divides(c, Skip(3 * (sampleRate * c), level)) {
        if level == 4 {
          DipIsWhole(sampleRate, c);
        } else {
          LevelIsWhole(sampleRate, c, level);
        }
      }
    }
  }

  lemma {:induction false} FatesInSnoc(s: State, ops: seq<Op>, op: Op)
    ensures FatesIn(s, ops + [op]) == FatesIn(s, ops) + FatesOf(Run(s, ops), op)
    decreases ops
  {
    if ops == [] {
      assert [op][1..] == [];
      assert FatesIn(s, [op]) == FatesOf(s, op) + [];
    } else {
      var t, all := Apply(s, ops[0]), ops + [op];
      FatesInSnoc(t, ops[1..], op);
      assert all[1..] == ops[1..] + [op] && all[0] == ops[0];
      Regroup(FatesOf(s, ops[0]), FatesIn(t, ops[1..]), FatesOf(Run(s, ops), op));
    }
  }

  /** Then every single step takes whole frames. */
  lemma EveryStepAligned(sampleRate: pos, c: pos, ops: seq<Op>, op: Op)
    requires StaysAligned(sampleRate, c) && AllWhole(ops, c) && WholeFrames(op, c)
    ensures Divides(c, |FatesOf(Run(Formatted(sampleRate, c), ops), op)|)
  {
    var s := Formatted(sampleRate, c);
    FatesInSnoc(s, ops, op);
    assert AllWhole(ops + [op], c);
    DividesSum(c, |FatesIn(s, ops)|, |FatesOf(Run(s, ops), op)|);
  }

  lemma FramesReachBin(sampleRate: pos, c: pos, b: nat)
    requires sampleRate >= 20 && b < BINS
    ensures var h := LeastIn(sampleRate, b) * c;
            Bin(Record(h, sampleRate * c)) == b && h <= 3 * (sampleRate * c) && b * (sampleRate * c) <= 10 * h
  {
    var f := LeastIn(sampleRate, b);
    MulMono(b, 29, sampleRate);
    assert b * sampleRate <= 10 * f < (b + 1) * sampleRate && f <= 3 * sampleRate;
    TimesFrames(sampleRate, c, b, f);
    BinOf(f * c, sampleRate * c, b);
  }

  lemma TimesFrames(sampleRate: pos, c: pos, b: nat, f: nat)
    requires b * sampleRate <= 10 * f < (b + 1) * sampleRate && f <= 3 * sampleRate
    ensures b * (sampleRate * c) <= f * c * 10 < (b + 1) * (sampleRate * c) && f * c <= 3 * (sampleRate * c)
  {
    Scale(b, sampleRate, c);
    Scale(10, f, c);
    Scale(b + 1, sampleRate, c);
    Scale(3, sampleRate, c);
    MulMono(b * sampleRate, 10 * f, c);
    LessTimes(10 * f, (b + 1) * sampleRate, c);
    MulMono(f, 3 * sampleRate, c);
  }

  lemma LessTimes(a: nat, b: nat, c: pos)
    requires a < b
    ensures a * c < b * c
  {
    MulMono(a + 1, b, c);
  }

  /** Filling up to one bin and analysing skips at that level. */
  lemma LevelIsWhole(sampleRate: pos, c: pos, level: nat)
    requires StaysAligned(sampleRate, c) && sampleRate >= 20 && c >= 3 && MIN_MODE <= level < BINS
    ensures Divides(c, Skip(3 * (sampleRate * c), level))
  {
    var rate, h := sampleRate * c, LeastIn(sampleRate, level) * c;
    var pcm := Silence(h);
    DividesMultiple(LeastIn(sampleRate, level), c);
    MulMono(20, sampleRate, c);
    FramesReachBin(sampleRate, c, level);
    EnoughToSkip(rate, level, h);
    FilledRun(sampleRate, c, pcm);
    FillAligned(sampleRate, c, pcm);
    ShrinkOfUniformLog([Record(h, rate), Record(h, rate)], level, rate, h);
  }

  /** What the analysis of a buffer filled at once drops. */
  lemma FilledRun(sampleRate: pos, c: pos, pcm: seq<Sample>)
    requires |pcm| <= 3 * (sampleRate * c)
    ensures var r := Record(|pcm|, sampleRate * c);
            |FatesOf(Run(Formatted(sampleRate, c), [Append(pcm, 1)]), Append([], 12001))|
            == ShrinkBy([r, r], sampleRate * c, |pcm|)
  {
    var r := Record(|pcm|, sampleRate * c);
    var t := PlainAppend(Formatted(sampleRate, c), pcm, 1);
    assert Run(Formatted(sampleRate, c), [Append(pcm, 1)]) == t by {
      assert [Append(pcm, 1)][1..] == [];
    }
    AnalysingAppend(t, [], 12001);
    assert Logged(t, []) == [r, r];
  }

  lemma FillAligned(sampleRate: pos, c: pos, pcm: seq<Sample>)
    requires StaysAligned(sampleRate, c) && Divides(c, |pcm|)
    ensures Divides(c, |FatesOf(Run(Formatted(sampleRate, c), [Append(pcm, 1)]), Append([], 12001))|)
  {
    var ops := [Append(pcm, 1)];
    DividesZero(c);
    assert forall i | 0 <= i < |ops| :: WholeFrames(ops[i], c);
    EveryStepAligned(sampleRate, c, ops, Append([], 12001));
  }

  /** Dipping from bin 6 to bin 2 in between skips at level 4. */
  lemma DipIsWhole(sampleRate: pos, c: pos)
    requires StaysAligned(sampleRate, c) && sampleRate >= 20 && c >= 3
    ensures Divides(c, Skip(3 * (sampleRate * c), 4))
  {
    var rate, h6, h2 := sampleRate * c, LeastIn(sampleRate, 6) * c, LeastIn(sampleRate, 2) * c;
    MulMono(LeastIn(sampleRate, 2), LeastIn(sampleRate, 6), c);
    DividesMultiple(LeastIn(sampleRate, 6), c);
    DividesMultiple(LeastIn(sampleRate, 2), c);
    DividesSum(c, h2, h6 - h2);
    MulMono(20, sampleRate, c);
    FramesReachBin(sampleRate, c, 6);
    FramesReachBin(sampleRate, c, 2);
    EnoughToSkip(rate, 4, h6);
    DipDrops(sampleRate, c, Silence(h6), Silence(h6 - h2));
    DipAligned(sampleRate, c, Silence(h6), Silence(h6 - h2));
    TwoToOne(Record(h6, rate), Record(h2, rate), Record(h6, rate), 2, 6);
  }

  /** Fill to the level of `a`, take off and put back as much as `b`; what is then dropped. */
  lemma DipDrops(sampleRate: pos, c: pos, a: seq<Sample>, b: seq<Sample>)
    requires |b| <= |a| <= 3 * (sampleRate * c)
    ensures var high, low := Record(|a|, sampleRate * c), Record(|a| - |b|, sampleRate * c);
            |FatesOf(Run(Formatted(sampleRate, c), Dip(a, |b|)), Append(b, 12001))|
            == ShrinkBy([high] + [low] + [high], sampleRate * c, |a|)
  {
    var high, low := Record(|a|, sampleRate * c), Record(|a| - |b|, sampleRate * c);
    var t := DippedRun(sampleRate, c, a, |b|);
    AnalysingAppend(t, b, 12001);
    assert Logged(t, b) == [high] + [low] + [high];
  }

  function Dip(a: seq<Sample>, n: nat): seq<Op> {
    [Append(a, 1), Pop(n), Append([], 2)]
  }

  lemma DipAligned(sampleRate: pos, c: pos, a: seq<Sample>, b: seq<Sample>)
    requires StaysAligned(sampleRate, c) && Divides(c, |a|) && Divides(c, |b|)
    ensures Divides(c, |FatesOf(Run(Formatted(sampleRate, c), Dip(a, |b|)), Append(b, 12001))|)
  {
    var ops := Dip(a, |b|);
    DividesZero(c);
    assert ops[0] == Append(a, 1) && ops[1] == Pop(|b|) && ops[2] == Append([], 2);
    assert forall i | 0 <= i < |ops| :: WholeFrames(ops[i], c);
    EveryStepAligned(sampleRate, c, ops, Append(b, 12001));
  }

  lemma DippedRun(sampleRate: pos, c: pos, a: seq<Sample>, n: nat) returns (t: State)
    requires n <= |a| <= 3 * (sampleRate * c)
    ensures t == Run(Formatted(sampleRate, c), Dip(a, n))
    ensures |t.ring| == |a| - n && t.rate == sampleRate * c && t.tms == 1
    ensures t.log == [Record(|a|, sampleRate * c), Record(|a| - n, sampleRate * c)]
  {
    var s := Formatted(sampleRate, c);
    RunOfThree(s, Append(a, 1), Pop(n), Append([], 2));
    var t1 := PlainAppend(s, a, 1);
    t := PlainAppend(Apply(t1, Pop(n)), [], 2);
  }

  /** At 44.1 kHz no larger channel count stays aligned. */
  lemma DriftsBeyondStereo(c: pos)
    requires c >= 3
    ensures !WholeSkips(44100, c) && !StaysAligned(44100, c)
  {
    StaysAlignedIff(44100, c);
    assert 3 * (44100 * c) == 132300 * c;
    if c % 2 == 1 {
      OddSkip(c);
      NotMultiple(11025, 1, c);
      assert IsLevel(10);
    } else {
      var d := c / 2;
      var extra := if d % 2 == 0 then d else d + 1;
      EvenSkip(c, d, extra);
      NotMultiple(9922, extra, c);
      assert IsLevel(9);
    }
  }

  lemma OddSkip(c: pos)
    requires c % 2 == 1
    ensures Skip(132300 * c, 10) == 11025 * c + 1
  {
    var half := c / 2;
    assert c == 2 * half + 1;
    assert 3 * (44100 * c) * 10 / 120 == 11025 * c;
  }

  lemma EvenSkip(c: pos, d: nat, extra: nat)
    requires c == 2 * d && extra == if d % 2 == 0 then d else d + 1
    ensures Skip(132300 * c, 9) == 9922 * c + extra
  {
    assert 3 * (44100 * c) * 9 / 120 == 19845 * d;
    var half := d / 2;
    assert d == 2 * half || d == 2 * half + 1;
  }
}
