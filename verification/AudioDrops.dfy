/** How much the audio buffer drops, and when. */
module AudioDrops {
  import opened Basics
  import opened AudioBuffer

  /** If nothing was recorded below the current rate, an analysis drops at most two thirds of the lowest
      recorded level plus one sample, an even number, and less than a third of what is buffered. */
  lemma DropBound(log: seq<Record>, rate: pos, occupied: nat)
    requires log != []
    requires forall i | 0 <= i < |log| :: rate <= log[i].rate
    ensures var skip := ShrinkBy(log, rate, occupied);
            && 3 * skip <= 2 * LowestHaving(log) + 3
            && skip % 2 == 0
            && (skip > 0 ==> 3 * skip < occupied)
  {
    LowestBinBelowLowestHaving(log, rate);
    LevelIsSafe(log);
    ShrinkOfLevelBound(rate, Level(log), LowestBin(log), LowestHaving(log), occupied);
  }

  /** Measured in time, the bound holds whatever the rates: at most two thirds of every recorded level plus
      one sample. */
  lemma DropBoundInTime(log: seq<Record>, rate: pos, occupied: nat, i: nat)
    requires i < |log|
    ensures ShrinkBy(log, rate, occupied) > 0 ==>
              3 * (ShrinkBy(log, rate, occupied) - 1) * log[i].rate <= 2 * log[i].having * rate
  {
    var low, drop := LowestBin(log), ShrinkBy(log, rate, occupied);
    LowestBinBelowAll(log, i);
    BinTimesRate(log[i]);
    MulMono(low, Bin(log[i]), log[i].rate);
    LevelIsSafe(log);
    if drop > 0 {
      ShrinkOfLevelInTime(rate, Level(log), low, occupied);
      InTime(drop - 1, low, rate, log[i].rate, log[i].having);
    }
  }

  lemma InTime(x: nat, low: nat, rate: pos, r: pos, having: nat)
    requires 15 * x <= low * rate && low * r <= 10 * having
    ensures 3 * x * r <= 2 * having * rate
  {
    MulMono(15 * x, low * rate, r);
    MulMono(low * r, 10 * having, rate);
    Commute(low, rate, r);
    Scale(15, x, r);
    Scale(3, x, r);
    Scale(10, having, rate);
    Scale(2, having, rate);
  }

  lemma ShrinkOfLevelInTime(rate: pos, level: nat, low: nat, occupied: nat)
    requires 3 * level <= 8 * low
    ensures 15 * (ShrinkOfLevel(rate, level, occupied) - 1) <= low * rate
  {
    MulMono(3 * level, 8 * low, rate);
    assert 3 * rate * level == 3 * level * rate;
    assert 120 * (3 * rate * level / 120) <= 3 * rate * level;
  }

  lemma {:induction false} LowestBinBelowAll(log: seq<Record>, i: nat)
    requires i < |log|
    ensures LowestBin(log) <= Bin(log[i])
  {
    if i < |log| - 1 {
      LowestBinBelowAll(log[..|log| - 1], i);
    }
  }

  lemma LevelIsSafe(log: seq<Record>)
    requires log != []
    ensures 3 * Level(log) <= 8 * LowestBin(log)
  {
  }

  lemma ShrinkOfLevelBound(rate: pos, level: nat, low: nat, m: nat, occupied: nat)
    requires 3 * level <= 8 * low
    requires low * rate <= 10 * m
    ensures var skip := ShrinkOfLevel(rate, level, occupied);
            && 3 * skip <= 2 * m + 3
            && skip % 2 == 0
            && (skip > 0 ==> 3 * skip < occupied)
  {
    var y := 3 * rate * level;
    MulMono(3 * level, 8 * low, rate);
    assert y == 3 * level * rate;
    assert y <= 80 * m;
    assert 120 * (y / 120) <= y;
  }

  /** No resize raises the rate. */
  predicate RateNeverRises(s: State, ops: seq<Op>)
    decreases ops
  {
    ops == [] || (Apply(s, ops[0]).rate <= s.rate && RateNeverRises(Apply(s, ops[0]), ops[1..]))
  }

  lemma {:induction false} RateStaysWithoutResize(s: State, ops: seq<Op>)
    requires forall i | 0 <= i < |ops| :: !ops[i].Resize?
    ensures RateNeverRises(s, ops)
    decreases ops
  {
    if ops != [] {
      RateStaysWithoutResize(Apply(s, ops[0]), ops[1..]);
    }
  }

  /** Nothing was recorded below the current rate. */
  ghost predicate LogAbove(s: State) {
    forall i | 0 <= i < |s.log| :: s.rate <= s.log[i].rate
  }

  lemma LoggedAbove(s: State, pcm: seq<Sample>)
    requires LogAbove(s)
    ensures forall i | 0 <= i < |Logged(s, pcm)| :: s.rate <= Logged(s, pcm)[i].rate
  {
  }

  /** What a step does to the log and the rate. */
  lemma StepLogs(s: State, op: Op)
    ensures var t := Apply(s, op);
            || t.log == []
            || t.log == s.log
            || (op.Append? && t.log == Logged(s, op.pcm) && t.rate == s.rate)
  {
  }

  lemma StepLogAbove(s: State, op: Op)
    requires LogAbove(s) && Apply(s, op).rate <= s.rate
    ensures LogAbove(Apply(s, op))
  {
    StepLogs(s, op);
    if op.Append? {
      LoggedAbove(s, op.pcm);
    }
  }

  lemma {:induction false} LogAboveRate(s: State, ops: seq<Op>)
    requires RateNeverRises(s, ops) && LogAbove(s)
    ensures LogAbove(Run(s, ops))
    decreases ops
  {
    if ops != [] {
      StepLogAbove(s, ops[0]);
      LogAboveRate(Apply(s, ops[0]), ops[1..]);
    }
  }

  /** 3 * d <= 2 * m + 3, divided by three. */
  lemma ThirdOf(d: nat, m: nat)
    requires 3 * d <= 2 * m + 3
    ensures d <= 2 * m / 3 + 1
  {
  }

  /** The bound, with the division by three carried out. */
  ghost predicate WithinBound(drop: nat, log: seq<Record>, occupied: nat)
    requires log != []
  {
    && drop <= 2 * LowestHaving(log) / 3 + 1
    && drop % 2 == 0
    && (drop > 0 ==> 3 * drop < occupied)
  }

  lemma ShrinkWithinBound(log: seq<Record>, rate: pos, occupied: nat)
    requires log != [] && forall i | 0 <= i < |log| :: rate <= log[i].rate
    ensures WithinBound(ShrinkBy(log, rate, occupied), log, occupied)
  {
    DropBound(log, rate, occupied);
    ThirdOf(ShrinkBy(log, rate, occupied), LowestHaving(log));
  }

  lemma DropBoundAt(t: State, pcm: seq<Sample>, now: int)
    requires LogAbove(t)
    ensures WithinBound(WatermarkDrop(t, Append(pcm, now)), Logged(t, pcm), |Kept(t, pcm)|)
  {
    LoggedAbove(t, pcm);
    ShrinkWithinBound(Logged(t, pcm), t.rate, |Kept(t, pcm)|);
  }

  /** The drop bound over runs: start anywhere the histogram is empty, do anything but raise the rate; then
      whatever the next append drops obeys the bound. */
  lemma DropBoundInEveryRun(s: State, ops: seq<Op>, pcm: seq<Sample>, now: int)
    requires s.log == [] && RateNeverRises(s, ops)
    ensures var t := Run(s, ops);
            WithinBound(WatermarkDrop(t, Append(pcm, now)), Logged(t, pcm), |Kept(t, pcm)|)
  {
    LogAboveRate(s, ops);
    DropBoundAt(Run(s, ops), pcm, now);
  }

  // ---------- Building runs ----------

  function Silence(n: nat): (r: seq<Sample>)
    ensures |r| == n
  {
    seq(n, _ => 0.0)
  }

  lemma BinOf(having: nat, rate: pos, b: nat)
    requires b * rate <= having * 10 < (b + 1) * rate && b < BINS
    ensures Bin(Record(having, rate)) == b
  {
    var q := having * 10 / rate;
    if q < b { MulMono(q + 1, b, rate); }
    if q > b { MulMono(b + 1, q, rate); }
  }

  /** Every record in one bin. */
  lemma UniformLog(log: seq<Record>, b: nat)
    requires log != [] && 1 <= b < BINS
    requires forall i | 0 <= i < |log| :: Bin(log[i]) == b
    ensures Mode(Histogram(log), BINS) == b && LowestBin(log) == b
  {
    forall j: nat ensures Count(log, j) == if j == b then |log| else 0 {
      UniformCount(log, b, j);
    }
    ModeUnique(Histogram(log), BINS, Mode(Histogram(log), BINS), b);
    LowestBinIsLeadingEmpty(log);
  }

  lemma {:induction false} UniformCount(log: seq<Record>, b: nat, j: nat)
    requires forall i | 0 <= i < |log| :: Bin(log[i]) == b
    ensures Count(log, j) == if j == b then |log| else 0
  {
    if log != [] {
      UniformCount(log[..|log| - 1], b, j);
    }
  }

  lemma KeptWhenItFits(s: State, pcm: seq<Sample>)
    requires |s.ring| + |pcm| <= 3 * s.rate
    ensures Kept(s, pcm) == s.ring + pcm
    ensures s.ring == [] ==> Kept(s, pcm) == pcm
    ensures pcm == [] ==> Kept(s, pcm) == s.ring
  {
    assert s.ring == [] ==> s.ring + pcm == pcm;
    assert pcm == [] ==> s.ring + pcm == s.ring;
  }

  /** An append that neither overflows nor ends the window. */
  lemma PlainAppend(s: State, pcm: seq<Sample>, now: int) returns (t: State)
    requires |s.ring| + |pcm| <= 3 * s.rate && !Analyses(s, now)
    ensures t == Apply(s, Append(pcm, now))
    ensures t.ring == s.ring + pcm && t.rate == s.rate && t.tms == if s.tms == 0 then now else s.tms
    ensures t.log == s.log + [Record(|s.ring| + |pcm|, s.rate)]
  {
    KeptWhenItFits(s, pcm);
    t := Apply(s, Append(pcm, now));
  }

  /** An append that ends the window without overflow. */
  lemma AnalysingAppend(s: State, pcm: seq<Sample>, now: int)
    requires |s.ring| + |pcm| <= 3 * s.rate && Analyses(s, now)
    ensures Logged(s, pcm) == s.log + [Record(|s.ring| + |pcm|, s.rate)]
    ensures WatermarkDrop(s, Append(pcm, now)) == ShrinkBy(Logged(s, pcm), s.rate, |s.ring| + |pcm|)
    ensures |FatesOf(s, Append(pcm, now))| == ShrinkBy(Logged(s, pcm), s.rate, |s.ring| + |pcm|)
  {
    KeptWhenItFits(s, pcm);
  }

  lemma ShrinkOfUniformLog(log: seq<Record>, b: nat, rate: pos, occupied: nat)
    requires log != [] && MIN_MODE <= b < BINS
    requires forall i | 0 <= i < |log| :: Bin(log[i]) == b
    ensures ShrinkBy(log, rate, occupied) == ShrinkOfLevel(rate, b, occupied)
  {
    UniformLog(log, b);
    assert b * 2 / 3 * N >= b;
  }

  /** The lowest occupancy in bin `b`. */
  function LeastIn(rate: pos, b: nat): nat {
    (b * rate + 9) / 10
  }

  lemma LeastInIsIn(rate: pos, b: nat)
    requires rate >= 10 && b < BINS
    ensures Bin(Record(LeastIn(rate, b), rate)) == b
    ensures b * rate <= 10 * LeastIn(rate, b) && LeastIn(rate, b) <= 3 * rate
  {
    MulMono(b, 29, rate);
    BinOf(LeastIn(rate, b), rate, b);
  }

  lemma CountSnoc(log: seq<Record>, r: Record, j: nat)
    ensures Count(log + [r], j) == Count(log, j) + if Bin(r) == j then 1 else 0
  {
    assert (log + [r])[..|log|] == log;
  }

  lemma LowestBinSnoc(log: seq<Record>, r: Record)
    ensures LowestBin(log + [r]) == if log == [] then Bin(r) else Min(LowestBin(log), Bin(r))
  {
    assert (log + [r])[..|log|] == log;
  }

  lemma ModeIs(log: seq<Record>, m: nat)
    requires 1 <= m < BINS && Count(log, m) > 0
    requires forall j: nat | 1 <= j < BINS :: Count(log, j) <= Count(log, m)
    requires forall j: nat | 1 <= j < m :: Count(log, j) < Count(log, m)
    ensures Mode(Histogram(log), BINS) == m
  {
    ModeUnique(Histogram(log), BINS, Mode(Histogram(log), BINS), m);
  }

  /** One record in bin `x` and two in bin `y`, in any order. */
  lemma TwoToOne(a: Record, b: Record, c: Record, x: nat, y: nat)
    requires 1 <= x <= y
    requires (Bin(a) == x && Bin(b) == y && Bin(c) == y) || (Bin(a) == y && Bin(b) == x && Bin(c) == y)
    ensures Mode(Histogram([a] + [b] + [c]), BINS) == y && LowestBin([a] + [b] + [c]) == x
  {
    forall j: nat
      ensures Count([a] + [b] + [c], j) == (if j == x then 1 else 0) + (if j == y then 2 else 0)
    {
      CountSnoc([], a, j);
      CountSnoc([a], b, j);
      CountSnoc([a] + [b], c, j);
      assert [] + [a] == [a];
    }
    ModeIs([a] + [b] + [c], y);
    LowestBinSnoc([], a);
    LowestBinSnoc([a], b);
    LowestBinSnoc([a] + [b], c);
    assert [] + [a] == [a];
  }

  // ---------- Two rates in one window ----------

  /** The highest level that an analysis can come to when `low` is the lowest bin. */
  function Limit(low: nat): nat {
    Min(low * 2 / 3 * N, BINS - 1)
  }

  /** For every lowest bin, the largest skip at the rate `high` obeys the bound for the lowest level that was
      counted in that bin at the rate `low`. */
  ghost predicate SafePair(low: pos, high: pos) {
    forall x: nat | 2 <= x < BINS :: Skip(3 * high, Limit(x)) <= 2 * LeastIn(low, x) / 3 + 1
  }

  /** All rates in the run are `low` or `high`. */
  predicate RatesAmong(s: State, ops: seq<Op>, low: pos, high: pos)
    decreases ops
  {
    || ops == []
    || (var t := Apply(s, ops[0]); (t.rate == low || t.rate == high) && RatesAmong(t, ops[1..], low, high))
  }

  /** A buffer that was set up for a format. */
  function Formatted(sampleRate: pos, c: pos): (s: State)
    ensures s == State([], sampleRate * c, [], 0)
  {
    Apply(INITIAL, Resize(sampleRate, c))
  }

  /** In every run that starts at `low`, uses only these two rates and has arrived at `high`, the next append
      obeys the drop bound. */
  ghost predicate BoundHolds(low: pos, high: pos) {
    forall ops: seq<Op>, pcm: seq<Sample>, now: int |
      RatesAmong(Formatted(low, 1), ops, low, high) && Run(Formatted(low, 1), ops).rate == high ::
      ObeysBound(Run(Formatted(low, 1), ops), pcm, now)
  }

  ghost predicate ObeysBound(t: State, pcm: seq<Sample>, now: int) {
    WatermarkDrop(t, Append(pcm, now)) <= 2 * LowestHaving(Logged(t, pcm)) / 3 + 1
  }

  /** The drop bound over pairs of rates: it holds in every run if and only if 28 inequalities between the two
      rates hold, which they do if the rate does not rise, and do not if it rises by fifteen. */
  lemma BoundHoldsIff(low: pos, high: pos)
    requires low >= 10 && high >= 60
    ensures BoundHolds(low, high) <==> SafePair(low, high)
    ensures high <= low ==> SafePair(low, high)
    ensures low + 15 <= high ==> !SafePair(low, high)
  {
    if high <= low {
      NotRisingIsSafe(low, high);
    } else if low + 15 <= high {
      RisingIsUnsafe(low, high);
    }
    if SafePair(low, high) {
      SafePairHolds(low, high);
    } else {
      var x: nat :| 2 <= x < BINS && Skip(3 * high, Limit(x)) > 2 * LeastIn(low, x) / 3 + 1;
      UnsafePairFails(low, high, x);
    }
  }

  lemma SkipMono(capacity: nat, a: nat, b: nat)
    requires a <= b
    ensures Skip(capacity, a) <= Skip(capacity, b)
  {
    MulMonoRight(capacity, a, b);
  }

  lemma NotRisingIsSafe(low: pos, high: pos)
    requires high <= low
    ensures SafePair(low, high)
  {
    forall x: nat | 2 <= x < BINS ensures Skip(3 * high, Limit(x)) <= 2 * LeastIn(low, x) / 3 + 1 {
      NotRisingAt(low, high, x, Limit(x));
    }
  }

  lemma NotRisingAt(low: pos, high: pos, x: nat, level: nat)
    requires high <= low && 3 * level <= 8 * x
    ensures Skip(3 * high, level) <= 2 * LeastIn(low, x) / 3 + 1
  {
    MulMono(3 * level, 8 * x, high);
    MulMonoRight(x, high, low);
    assert 3 * high * level == 3 * level * high;
    assert 8 * x * high == 8 * (x * high);
    ThirdOf(Skip(3 * high, level), LeastIn(low, x));
  }

  lemma RisingIsUnsafe(low: pos, high: pos)
    requires low + 15 <= high
    ensures !SafePair(low, high)
  {
    assert Limit(3) == 8;
    assert 3 * high * 8 / 120 == high / 5;
    assert Skip(3 * high, Limit(3)) > 2 * LeastIn(low, 3) / 3 + 1;
  }

  /** Every record is at one of the two rates. */
  ghost predicate LogAmong(log: seq<Record>, low: pos, high: pos) {
    forall i | 0 <= i < |log| :: log[i].rate == low || log[i].rate == high
  }

  lemma {:induction false} RunLogAmong(s: State, ops: seq<Op>, low: pos, high: pos)
    requires RatesAmong(s, ops, low, high) && LogAmong(s.log, low, high) && (s.rate == low || s.rate == high)
    ensures LogAmong(Run(s, ops).log, low, high)
    decreases ops
  {
    if ops != [] {
      StepLogs(s, ops[0]);
      RunLogAmong(Apply(s, ops[0]), ops[1..], low, high);
    }
  }

  lemma LevelWithinLimit(log: seq<Record>)
    requires log != []
    ensures Level(log) == 0 || (LowestBin(log) >= 2 && Level(log) <= Limit(LowestBin(log)))
  {
  }

  lemma {:induction false} LowestHavingIsLeast(log: seq<Record>, low: pos, high: pos)
    requires log != [] && low <= high && LogAmong(log, low, high)
    ensures LeastIn(low, LowestBin(log)) <= LowestHaving(log)
  {
    var i :| 0 <= i < |log| && log[i].having == LowestHaving(log);
    LowestBinBelowAll(log, i);
    BinTimesRate(log[i]);
    MulMono(LowestBin(log), Bin(log[i]), low);
    MulMonoRight(Bin(log[i]), low, log[i].rate);
  }

  lemma SafePairHolds(low: pos, high: pos)
    requires SafePair(low, high)
    ensures BoundHolds(low, high)
  {
    forall ops: seq<Op>, pcm: seq<Sample>, now: int |
      RatesAmong(Formatted(low, 1), ops, low, high) && Run(Formatted(low, 1), ops).rate == high
      ensures ObeysBound(Run(Formatted(low, 1), ops), pcm, now)
    {
      var t := Run(Formatted(low, 1), ops);
      RunLogAmong(Formatted(low, 1), ops, low, high);
      if high <= low {
        assert LogAbove(t);
        DropBoundAt(t, pcm, now);
      } else {
        SafePairObeys(t, low, high, pcm, now);
      }
    }
  }

  lemma SafePairObeys(t: State, low: pos, high: pos, pcm: seq<Sample>, now: int)
    requires SafePair(low, high) && low <= high && LogAmong(t.log, low, high) && t.rate == high
    ensures ObeysBound(t, pcm, now)
  {
    var log := Logged(t, pcm);
    assert LogAmong(log, low, high);
    LevelWithinLimit(log);
    LowestHavingIsLeast(log, low, high);
    if Level(log) == 0 {
      assert 3 * high * 0 == 0;
    } else {
      SkipMono(3 * high, Level(log), Limit(LowestBin(log)));
    }
  }

  lemma UnsafePairFails(low: pos, high: pos, x: nat)
    requires low >= 10 && high >= 60 && 2 <= x < BINS
    requires Skip(3 * high, Limit(x)) > 2 * LeastIn(low, x) / 3 + 1
    ensures !BoundHolds(low, high)
  {
    if high <= low {
      NotRisingAt(low, high, x, Limit(x));
    } else {
      var a, b, ops := DropBoundFailsWhenRateRises(low, high, x);
      assert !ObeysBound(Run(Formatted(low, 1), ops), [], 12001);
    }
  }

  /** The bound is lost when a resize inside the window raises the rate too much: resize does not clear the
      histogram, so levels counted at the low rate vouch for a buffer of the high rate. */
  lemma DropBoundFailsWhenRateRises(low: pos, high: pos, x: nat)
    returns (a: seq<Sample>, b: seq<Sample>, ops: seq<Op>)
    requires 10 <= low < high && high >= 60 && 2 <= x < BINS
    requires Skip(3 * high, Limit(x)) > 2 * LeastIn(low, x) / 3 + 1
    ensures ops == [Append(a, 1), Resize(high, 1), Append(b, 2)]
    ensures RatesAmong(Formatted(low, 1), ops, low, high) && Run(Formatted(low, 1), ops).rate == high
    ensures !ObeysBound(Run(Formatted(low, 1), ops), [], 12001)
  {
    var y := Reaching(x);
    LeastInIsIn(low, x);
    LeastInIsIn(high, y);
    a, b := Silence(LeastIn(low, x)), Silence(LeastIn(high, y));
    ops := [Append(a, 1), Resize(high, 1), Append(b, 2)];
    var t := RaisedRun(low, high, a, b);
    AnalysingAppend(t, [], 12001);
    assert Logged(t, []) == [Record(|a|, low)] + [Record(|b|, high)] + [Record(|b|, high)];
    RaisedShrink(low, high, x, Record(|a|, low), Record(|b|, high));
  }

  /** The bin that has to be the most frequent for the level to be at its limit. */
  function Reaching(x: nat): (y: nat)
    ensures 2 <= x < BINS ==> x <= y < BINS && Capped(y, x) == Limit(x) && Limit(x) >= 4
    ensures 2 <= x < BINS ==> Limit(x) == y || (Limit(x) == 4 && y == 6)
  {
    if x == 2 then 6 else Limit(x)
  }

  lemma RaisedShrink(low: pos, high: pos, x: nat, r: Record, h: Record)
    requires high >= 60 && 2 <= x < BINS
    requires Bin(r) == x && Bin(h) == Reaching(x) && h.rate == high && Reaching(x) * high <= 10 * h.having
    ensures ShrinkBy([r] + [h] + [h], high, h.having) == Skip(3 * high, Limit(x))
    ensures LowestHaving([r] + [h] + [h]) <= r.having
  {
    var log := [r] + [h] + [h];
    TwoToOne(r, h, h, x, Reaching(x));
    LevelIsCapped(log);
    EnoughToSkip(high, Limit(x), h.having);
    assert log[0] == r;
  }

  lemma RaisedRun(low: pos, high: pos, a: seq<Sample>, b: seq<Sample>) returns (t: State)
    requires low != high && |a| <= 3 * low && |b| <= 3 * high
    ensures var ops := [Append(a, 1), Resize(high, 1), Append(b, 2)];
            t == Run(Formatted(low, 1), ops) && RatesAmong(Formatted(low, 1), ops, low, high)
    ensures t == State(b, high, [Record(|a|, low), Record(|b|, high)], 1)
  {
    var s := Formatted(low, 1);
    var c, d, e := Append(a, 1), Resize(high, 1), Append(b, 2);
    RunOfThree(s, c, d, e);
    var t1 := PlainAppend(s, a, 1);
    t := PlainAppend(Apply(t1, d), b, 2);
    assert [c, d, e][1..] == [d, e] && [d, e][1..] == [e] && [e][1..] == [];
    assert RatesAmong(Apply(t1, d), [e], low, high);
    assert RatesAmong(t1, [d, e], low, high);
  }

  lemma RunOfThree(s: State, a: Op, b: Op, d: Op)
    ensures Run(s, [a, b, d]) == Apply(Apply(Apply(s, a), b), d)
  {
    var s1 := Apply(s, a);
    assert [a, b, d][1..] == [b, d] && [b, d][1..] == [d] && [d][1..] == [];
    assert Run(s1, [b, d]) == Run(Apply(s1, b), [d]) == Apply(Apply(s1, b), d);
  }

  lemma EnoughToSkip(rate: nat, level: nat, h: nat)
    requires rate >= 60 && 4 <= level && (level * rate <= 10 * h || (level == 4 && 6 * rate <= 10 * h))
    ensures h > 3 * Skip(3 * rate, level) > 0
  {
    MulMono(4, level, rate);
    var p := level * rate;
    assert 3 * rate * level == 3 * p;
  }

  // ---------- The promise of 600 ms ----------

  /** The level in terms of the most frequent and the lowest bin. */
  function Capped(mode: nat, low: nat): nat {
    if mode < MIN_MODE then 0 else Min(mode, low * 2 / 3 * N)
  }

  lemma LevelIsCapped(log: seq<Record>)
    requires log != []
    ensures Level(log) == Capped(Mode(Histogram(log), BINS), LowestBin(log))
  {
  }

  /** The levels that an analysis can come to, other than 0. */
  predicate IsLevel(level: nat) {
    level == 4 || MIN_MODE <= level < BINS
  }

  lemma LevelIsLevel(log: seq<Record>)
    requires log != []
    ensures Level(log) == 0 || IsLevel(Level(log))
  {
    assert Mode(Histogram(log), BINS) < BINS;
  }

  /** With the most frequent level at least 600 ms, the lowest at least 200 ms, and more than three skips buffered. */
  predicate Drops(mode: nat, low: nat, rate: pos, occupied: nat) {
    mode >= MIN_MODE && low >= 2 && occupied > 3 * Skip(3 * rate, Capped(mode, low))
  }

  /** That is exactly when an analysis drops something; so at least 300 ms are buffered. */
  lemma DropsIff(log: seq<Record>, rate: pos, occupied: nat)
    requires log != [] && rate >= 10
    ensures ShrinkBy(log, rate, occupied) > 0 <==> Drops(Mode(Histogram(log), BINS), LowestBin(log), rate, occupied)
    ensures ShrinkBy(log, rate, occupied) > 0 ==> occupied > 3 * (rate / 10)
  {
    var level := Level(log);
    if level == 0 {
      assert 3 * rate * 0 == 0;
    } else {
      SkipAtLeast(rate, level);
    }
  }

  lemma SkipAtLeast(rate: pos, level: nat)
    requires level >= 4
    ensures Skip(3 * rate, level) >= rate / 10
  {
    MulMono(4, level, 3 * rate);
    var y := 3 * rate * level;
    assert y >= 12 * rate;
  }

  /** Analysing `log` drops nothing while less than 600 ms are buffered. */
  ghost predicate KeepsPromise(log: seq<Record>, rate: pos)
    requires log != []
  {
    forall occupied: nat | 10 * occupied < 6 * rate :: ShrinkBy(log, rate, occupied) == 0
  }

  /** Three skips at this level are less than 600 ms; at level 8 they are 600 ms, but for rounding. */
  predicate TooLow(level: nat, rate: pos) {
    level == 4 || level == 6 || level == 7 || (level == 8 && 2 <= rate % 10 <= 4)
  }

  /** "Will not drop if buffered data is less than 600ms", says the comment in try_shrink.  That is so exactly
      when nothing is dropped at all, or the most frequent level is at least 800 ms and the lowest at least
      300 ms, but for rounding. */
  lemma KeepsPromiseIff(log: seq<Record>, rate: pos)
    requires log != [] && rate >= 100
    ensures KeepsPromise(log, rate) <==> !TooLow(Level(log), rate)
    ensures var mode, low := Mode(Histogram(log), BINS), LowestBin(log);
            KeepsPromise(log, rate) <==>
              || mode < MIN_MODE
              || low < 2
              || (mode >= 8 && low >= 3 && !((mode == 8 || low <= 4) && 2 <= rate % 10 <= 4))
  {
    LevelIsLevel(log);
    LevelIsCapped(log);
    PromiseByLevel(log, rate);
    PromiseOfLevel(rate, Level(log));
    TooLowMeaning(Mode(Histogram(log), BINS), LowestBin(log), rate);
  }

  ghost predicate LevelKeepsPromise(rate: pos, level: nat) {
    forall occupied: nat | 10 * occupied < 6 * rate :: ShrinkOfLevel(rate, level, occupied) == 0
  }

  lemma PromiseByLevel(log: seq<Record>, rate: pos)
    requires log != []
    ensures KeepsPromise(log, rate) <==> LevelKeepsPromise(rate, Level(log))
  {
    if KeepsPromise(log, rate) {
      forall occupied: nat | 10 * occupied < 6 * rate ensures ShrinkOfLevel(rate, Level(log), occupied) == 0 {
        assert ShrinkBy(log, rate, occupied) == 0;
      }
    }
  }

  lemma PromiseOfLevel(rate: pos, level: nat)
    requires rate >= 100 && (level == 0 || IsLevel(level))
    ensures LevelKeepsPromise(rate, level) <==> !TooLow(level, rate)
  {
    if TooLow(level, rate) {
      var occupied := 3 * Skip(3 * rate, level) + 1;
      LowSkip(rate, level);
      assert ShrinkOfLevel(rate, level, occupied) > 0;
    } else if level == 0 {
      assert 3 * rate * 0 == 0;
    } else {
      HighSkip(rate, level);
    }
  }

  lemma TooLowMeaning(mode: nat, low: nat, rate: pos)
    ensures TooLow(Capped(mode, low), rate) <==>
              && mode >= MIN_MODE
              && low >= 2
              && (mode < 8 || low < 3 || ((mode == 8 || low <= 4) && 2 <= rate % 10 <= 4))
  {
    if mode >= MIN_MODE {
      CappedMeaning(mode, low);
    }
  }

  lemma CappedMeaning(mode: nat, low: nat)
    requires mode >= MIN_MODE
    ensures low < 2 ==> Capped(mode, low) == 0
    ensures low == 2 ==> Capped(mode, low) == 4
    ensures 3 <= low <= 4 ==> Capped(mode, low) == Min(mode, 8)
    ensures low >= 5 ==> Min(mode, 12) <= Capped(mode, low) <= mode
  {
  }

  lemma LowSkip(rate: pos, level: nat)
    requires rate >= 100 && TooLow(level, rate)
    ensures Skip(3 * rate, level) > 0 && 10 * (3 * Skip(3 * rate, level) + 1) < 6 * rate
  {
    if level == 8 {
      RoundedDown(rate / 10, rate % 10);
      assert 10 * (rate / 10) + rate % 10 == rate;
    } else {
      SkipMono(3 * rate, level, 7);
      SkipAtLeast(rate, level);
      SkipAtSeven(rate);
    }
  }

  lemma SkipAtSeven(rate: pos)
    ensures 40 * Skip(3 * rate, 7) <= 7 * rate + 40
  {
    var z := 3 * rate * 7 / 120;
    assert 40 * z <= 7 * rate;
  }

  lemma RoundedDown(k: nat, s: nat)
    requires 2 <= s <= 4
    ensures Skip(3 * (10 * k + s), 8) == 2 * k
  {
    assert 3 * (10 * k + s) * 8 == 240 * k + 24 * s;
  }

  lemma HighSkip(rate: pos, level: nat)
    requires rate >= 100 && IsLevel(level) && !TooLow(level, rate)
    ensures 10 * (3 * Skip(3 * rate, level) + 1) >= 6 * rate
  {
    if level == 8 {
      RoundedUp(rate / 10, rate % 10);
      assert 10 * (rate / 10) + rate % 10 == rate;
    } else {
      SkipMono(3 * rate, 9, level);
      SkipAtNine(rate);
    }
  }

  lemma SkipAtNine(rate: pos)
    ensures 40 * Skip(3 * rate, 9) >= 9 * rate - 39
  {
    var z := 3 * rate * 9 / 120;
    assert 40 * z >= 9 * rate - 39;
  }

  lemma RoundedUp(k: nat, s: nat)
    requires s < 10 && !(2 <= s <= 4)
    ensures 10 * (3 * Skip(3 * (10 * k + s), 8) + 1) >= 6 * (10 * k + s)
  {
    var z := 3 * (10 * k + s) * 8 / 120;
    assert 3 * (10 * k + s) * 8 == 240 * k + 24 * s;
    assert z == if s < 5 then 2 * k else 2 * k + 1;
  }

  // ---------- The promise over runs ----------

  /** After any pops, whatever is appended when the window has ended: nothing is dropped while less than 600 ms
      are buffered. */
  ghost predicate KeepsPromiseNext(t: State, now: int) {
    forall n: nat, pcm: seq<Sample> :: NothingBelow600Ms(Apply(t, Pop(n)), pcm, now)
  }

  ghost predicate NothingBelow600Ms(u: State, pcm: seq<Sample>, now: int) {
    10 * |Kept(u, pcm)| < 6 * u.rate ==> WatermarkDrop(u, Append(pcm, now)) == 0
  }

  /** The highest occupancy in bin `b`, for bins below the last. */
  function MostIn(rate: pos, b: nat): nat {
    ((b + 1) * rate - 1) / 10
  }

  lemma MostInIsIn(rate: pos, b: nat)
    requires rate >= 10 && b <= 5
    ensures Bin(Record(MostIn(rate, b), rate)) == b
    ensures 10 * MostIn(rate, b) < 6 * rate
  {
    MulMono(b + 1, 6, rate);
    assert (b + 1) * rate == b * rate + rate;
    BinOf(MostIn(rate, b), rate, b);
  }

  lemma MostInIsMost(rate: pos, having: nat)
    requires 10 * having < 6 * rate
    ensures Bin(Record(having, rate)) <= 5 && having <= MostIn(rate, Bin(Record(having, rate)))
  {
    var b := having * 10 / rate;
    if b > 5 {
      MulMono(6, b, rate);
    }
    assert having * 10 < (b + 1) * rate;
  }

  /** The histogram lets an analysis break the promise: one more record in a bin from 2 to 5 can be one at which
      something is dropped, and that is decided by the highest occupancy in that bin. */
  predicate CanBreak(log: seq<Record>, rate: pos) {
    && log != []
    && (|| DropsNext(log, rate, MostIn(rate, 2), 2)
        || DropsNext(log, rate, MostIn(rate, 3), 3)
        || DropsNext(log, rate, MostIn(rate, 4), 4)
        || DropsNext(log, rate, MostIn(rate, 5), 5))
  }

  /** A record below bin 6 keeps the most frequent bin at 6 or above exactly if it does not overtake it. */
  lemma ModePush(log: seq<Record>, r: Record)
    requires 1 <= Bin(r) < MIN_MODE
    ensures var mode, pushed := Mode(Histogram(log), BINS), Mode(Histogram(log + [r]), BINS);
            && (pushed >= MIN_MODE <==> mode >= MIN_MODE && Count(log, Bin(r)) + 1 < Count(log, mode))
            && (pushed >= MIN_MODE ==> pushed == mode)
  {
    var mode, pushed := Mode(Histogram(log), BINS), Mode(Histogram(log + [r]), BINS);
    forall j: nat ensures Count(log + [r], j) == Count(log, j) + if Bin(r) == j then 1 else 0 {
      CountSnoc(log, r, j);
    }
    if mode >= MIN_MODE && Count(log, Bin(r)) + 1 < Count(log, mode) {
      ModeIs(log + [r], mode);
    }
  }

  /** With one more record, in bin `b`, that is not overtaking the most frequent one. */
  predicate DropsNext(log: seq<Record>, rate: pos, occupied: nat, b: nat)
    requires log != []
  {
    var mode := Mode(Histogram(log), BINS);
    Count(log, b) + 1 < Count(log, mode) && LowestBin(log) >= 2 && Drops(mode, Min(LowestBin(log), b), rate, occupied)
  }

  /** What the next analysis drops at an occupancy in bin `b`, for 2 <= b <= 5. */
  lemma NextDrops(log: seq<Record>, rate: pos, occupied: nat)
    requires rate >= 10 && 10 * occupied < 6 * rate
    ensures var b := Bin(Record(occupied, rate));
            ShrinkBy(log + [Record(occupied, rate)], rate, occupied) > 0
            <==> log != [] && 2 <= b <= 5 && DropsNext(log, rate, occupied, b)
  {
    var r := Record(occupied, rate);
    MostInIsMost(rate, occupied);
    if Bin(r) < 2 || log == [] {
      NextDropsNot(log, r);
    } else {
      DropsIff(log + [r], rate, occupied);
      SameDecision(log, r, rate, occupied);
    }
  }

  lemma NextDropsNot(log: seq<Record>, r: Record)
    requires r.rate >= 10 && Bin(r) <= 5 && (Bin(r) < 2 || log == [])
    ensures ShrinkBy(log + [r], r.rate, r.having) == 0
  {
    DropsIff(log + [r], r.rate, r.having);
    LowestBinSnoc(log, r);
    if Bin(r) >= 2 {
      ModePush(log, r);
      EmptyMode();
    }
  }

  lemma SameDecision(log: seq<Record>, r: Record, rate: pos, occupied: nat)
    requires log != [] && 2 <= Bin(r) <= 5
    ensures Drops(Mode(Histogram(log + [r]), BINS), LowestBin(log + [r]), rate, occupied)
       <==> DropsNext(log, rate, occupied, Bin(r))
  {
    LowestBinSnoc(log, r);
    ModePush(log, r);
  }

  lemma EmptyMode()
    ensures Mode(Histogram([]), BINS) == 0
  {
    assert IsMode(Histogram([]), BINS, 0);
    ModeUnique(Histogram([]), BINS, Mode(Histogram([]), BINS), 0);
  }

  /** In every state of every run: the promise can be broken by pops and an append if and only if the window has
      ended and the histogram allows it. */
  lemma KeepsPromiseNextIff(s: State, ops: seq<Op>, now: int)
    requires Run(s, ops).rate >= 10
    ensures var t := Run(s, ops); KeepsPromiseNext(t, now) <==> !(Analyses(t, now) && CanBreak(t.log, t.rate))
  {
    var t := Run(s, ops);
    if Analyses(t, now) && CanBreak(t.log, t.rate) {
      var b: nat :| 2 <= b <= 5 && DropsNext(t.log, t.rate, MostIn(t.rate, b), b);
      BreaksThere(t, now, b);
    } else {
      forall n: nat, pcm: seq<Sample> ensures NothingBelow600Ms(Apply(t, Pop(n)), pcm, now) {
        if 10 * |Kept(Apply(t, Pop(n)), pcm)| < 6 * t.rate {
          NeverBreaks(t, now, n, pcm);
        }
      }
    }
  }

  lemma NeverBreaks(t: State, now: int, n: nat, pcm: seq<Sample>)
    requires t.rate >= 10 && !(Analyses(t, now) && CanBreak(t.log, t.rate))
    requires 10 * |Kept(Apply(t, Pop(n)), pcm)| < 6 * t.rate
    ensures WatermarkDrop(Apply(t, Pop(n)), Append(pcm, now)) == 0
  {
    var u := Apply(t, Pop(n));
    var occupied := |Kept(u, pcm)|;
    if Analyses(t, now) {
      NextDrops(t.log, t.rate, occupied);
      MostInIsMost(t.rate, occupied);
      var b := Bin(Record(occupied, t.rate));
      assert t.log != [] && 2 <= b <= 5 ==> b == 2 || b == 3 || b == 4 || b == 5;
    }
  }

  lemma BreaksThere(t: State, now: int, b: nat)
    requires t.rate >= 10 && Analyses(t, now) && CanBreak(t.log, t.rate)
    requires 2 <= b <= 5 && DropsNext(t.log, t.rate, MostIn(t.rate, b), b)
    ensures !KeepsPromiseNext(t, now)
  {
    var n, pcm := |t.ring|, Silence(MostIn(t.rate, b));
    var u := Apply(t, Pop(n));
    MostInIsIn(t.rate, b);
    AnalysingAppend(u, pcm, now);
    KeptWhenItFits(u, pcm);
    NextDrops(t.log, t.rate, |pcm|);
    assert !NothingBelow600Ms(u, pcm, now);
  }

  /** What three skips are, against the highest occupancy of a bin: at rates that are multiples of ten, level 4 is
      broken from bin 3 on, level 6 from bin 4 on, and level 7 in bin 5. */
  lemma BreaksMeaning(rate: pos, level: nat, b: nat)
    requires rate % 10 == 0 && rate >= 100 && IsLevel(level) && b <= 5
    ensures 3 * Skip(3 * rate, level) < MostIn(rate, b)
       <==> (level == 4 && b >= 3) || (level == 6 && b >= 4) || (level == 7 && b == 5)
  {
    var q := rate / 10;
    assert MostIn(rate, b) == (b + 1) * q - 1 by {
      assert (b + 1) * rate == 10 * ((b + 1) * q);
    }
    SkipAtTens(q, level);
    SixBins(b, q);
  }

  lemma SixBins(b: nat, q: nat)
    requires b <= 5
    ensures (b + 1) * q == if b == 0 then q else if b == 1 then 2 * q else if b == 2 then 3 * q
                           else if b == 3 then 4 * q else if b == 4 then 5 * q else 6 * q
  {
    assert b == 0 || b == 1 || b == 2 || b == 3 || b == 4 || b == 5;
  }

  lemma SkipAtTens(q: nat, level: nat)
    requires IsLevel(level)
    ensures level == 4 ==> q <= Skip(30 * q, level) <= q + 1
    ensures level == 6 ==> 3 * q - 1 <= 2 * Skip(30 * q, level) <= 3 * q + 2
    ensures level == 7 ==> 7 * q - 3 <= 4 * Skip(30 * q, level) <= 7 * q + 4
    ensures level >= 8 ==> 2 * q <= Skip(30 * q, level)
  {
    if level >= 8 {
      SkipMono(30 * q, 8, level);
      assert Skip(30 * q, 8) >= 2 * q;
    }
  }

  lemma QuietRun(first: seq<Sample>) returns (t: State)
    requires |first| == 57600
    ensures t == Run(INITIAL, [Append(first, 1), Append([], 2), Pop(38400), Append([], 3)])
    ensures |t.ring| == 19200 && t.rate == 96000 && t.tms == 1
    ensures t.log == [Record(57600, 96000), Record(57600, 96000), Record(19200, 96000)]
  {
    RunOfFour(INITIAL, Append(first, 1), Append([], 2), Pop(38400), Append([], 3));
    var t1 := PlainAppend(INITIAL, first, 1);
    var t2 := PlainAppend(t1, [], 2);
    t := PlainAppend(Apply(t2, Pop(38400)), [], 3);
  }

  lemma QuietLog(log: seq<Record>)
    requires |log| == 4
    requires Bin(log[0]) == 6 && Bin(log[1]) == 6 && Bin(log[2]) == 2 && Bin(log[3]) == 3
    ensures Level(log) == 4
  {
    forall j: nat ensures Count(log, j) == if j == 6 then 2 else if j == 2 || j == 3 then 1 else 0 {
      assert log[..3][..2] == log[..2] && log[..2][..1] == log[..1];
      assert Count(log[..1], j) == if j == 6 then 1 else 0;
      assert Count(log[..2], j) == Count(log[..1], j) + if j == 6 then 1 else 0;
      assert Count(log[..3], j) == Count(log[..2], j) + if j == 2 then 1 else 0;
    }
    ModeUnique(Histogram(log), BINS, Mode(Histogram(log), BINS), 6);
    LowestBinIsLeadingEmpty(log);
  }

  /** A run that breaks it: samples go while 350 ms are buffered. */
  lemma DropsBelow600Ms() returns (ops: seq<Op>, pcm: seq<Sample>, now: int)
    ensures var t := Run(INITIAL, ops);
            && WatermarkDrop(t, Append(pcm, now)) > 0
            && 10 * |Kept(t, pcm)| < 6 * t.rate
  {
    var first := Silence(57600);
    ops := [Append(first, 1), Append([], 2), Pop(38400), Append([], 3)];
    pcm, now := Silence(14400), 12001;
    var t := QuietRun(first);
    KeptWhenItFits(t, pcm);
    var log := Logged(t, pcm);
    assert log[3] == Record(33600, 96000);
    QuietLog(log);
    assert Skip(288000, 4) == 9600;
  }
}
