/** Recording tool calls and replaying them.

    Dispatch records every call except the three control tools; replay dispatches the steps it is given,
    again except control tools.  So dispatch and replay are mutually recursive over the shared
    recording state.  The lemmas show that a recording is exactly what was executed, that replaying it
    executes the same calls, and that recording the replay gives the recording back. */
module Workflow {
  import opened Basics

  /** A tool by name; a step without a name is `Other("")`. */
  datatype Tool = StartRecording | StopRecording | ReplayWorkflow | Other(name: string)

  /** The arguments of a call: with or without a `steps` array. */
  datatype Arguments = Plain(payload: int) | Steps(steps: seq<Step>, delayMultiplier: real)

  /** One element of a `steps` array, as replay reads it and stop_recording writes it. */
  datatype Step = Step(tool: Tool, arguments: Arguments, delayMs: nat)

  datatype Call = Call(tool: Tool, arguments: Arguments)

  /** One element of the recording in progress. */
  datatype WorkflowStep = WorkflowStep(call: Call, timestampMs: nat)

  predicate IsControl(tool: Tool) {
    !tool.Other?
  }

  // ---------- What gets executed ----------

  function CallOf(step: Step): Call {
    Call(step.tool, step.arguments)
  }

  function Attempt(step: Step): seq<Call> {
    if IsControl(step.tool) then [] else [CallOf(step)]
  }

  /** The non-control steps, in order. */
  function Replayable(steps: seq<Step>): seq<Call> {
    if steps == [] then [] else Attempt(steps[0]) + Replayable(steps[1..])
  }

  /** The tools that dispatching `c` executes. */
  function Executes(c: Call): seq<Call> {
    if !IsControl(c.tool) then [c]
    else if c.tool.ReplayWorkflow? && c.arguments.Steps? then Replayable(c.arguments.steps)
    else []
  }

  function ExecutesAll(calls: seq<Call>): seq<Call> {
    if calls == [] then [] else Executes(calls[0]) + ExecutesAll(calls[1..])
  }

  // ---------- What gets recorded ----------

  datatype Recorder = Recorder(recording: bool, calls: seq<Call>)

  function Record(r: Recorder, calls: seq<Call>): Recorder {
    if r.recording then r.(calls := r.calls + calls) else r
  }

  lemma RecordTwice(r: Recorder, a: seq<Call>, b: seq<Call>)
    ensures Record(Record(r, a), b) == Record(r, a + b)
  {
    Regroup(r.calls, a, b);
  }

  function Next(r: Recorder, c: Call): Recorder {
    match c.tool
    case StartRecording => Recorder(true, [])
    case StopRecording => Recorder(false, [])
    case _ => Record(r, Executes(c))
  }

  function Run(r: Recorder, calls: seq<Call>): Recorder
    decreases calls
  {
    if calls == [] then r else Run(Next(r, calls[0]), calls[1..])
  }

  /** The calls made since the last start_recording, if no stop_recording came after it. */
  function SinceStart(calls: seq<Call>): (since: seq<Call>)
    ensures forall i | 0 <= i < |since| :: !since[i].tool.StartRecording? && !since[i].tool.StopRecording?
  {
    if calls == [] then []
    else
      var last := calls[|calls| - 1];
      if last.tool.StartRecording? || last.tool.StopRecording? then [] else SinceStart(calls[..|calls| - 1]) + [last]
  }

  predicate Recording(calls: seq<Call>) {
    && calls != []
    && var last := calls[|calls| - 1];
       last.tool.StartRecording? || (!last.tool.StopRecording? && Recording(calls[..|calls| - 1]))
  }

  const IDLE := Recorder(false, [])

  lemma {:induction false} RunSnoc(r: Recorder, calls: seq<Call>, c: Call)
    ensures Run(r, calls + [c]) == Next(Run(r, calls), c)
    decreases calls
  {
    if calls == [] {
      assert [c][1..] == [];
    } else {
      RunSnoc(Next(r, calls[0]), calls[1..], c);
      assert (calls + [c])[1..] == calls[1..] + [c];
    }
  }

  lemma {:induction false} ExecutesSnoc(calls: seq<Call>, c: Call)
    ensures ExecutesAll(calls + [c]) == ExecutesAll(calls) + Executes(c)
  {
    if calls == [] {
      assert [c][1..] == [];
    } else {
      ExecutesSnoc(calls[1..], c);
      assert (calls + [c])[1..] == calls[1..] + [c];
      Regroup(Executes(calls[0]), ExecutesAll(calls[1..]), Executes(c));
    }
  }

  /** What has been executed since the recording was started, if one is on. */
  function Recorded(calls: seq<Call>): Recorder {
    Recorder(Recording(calls), if Recording(calls) then ExecutesAll(SinceStart(calls)) else [])
  }

  lemma RecordingSnoc(calls: seq<Call>, c: Call)
    requires Run(IDLE, calls) == Recorded(calls)
    ensures Run(IDLE, calls + [c]) == Recorded(calls + [c])
  {
    RunSnoc(IDLE, calls, c);
    assert (calls + [c])[..|calls|] == calls;
    if !c.tool.StartRecording? && !c.tool.StopRecording? {
      ExecutesSnoc(SinceStart(calls), c);
    }
  }

  /** In every run, the recording in progress is exactly what was executed since it was started. */
  lemma {:induction false} RecordingIsExecution(calls: seq<Call>)
    ensures Run(IDLE, calls) == Recorded(calls)
  {
    if calls != [] {
      var before, last := calls[..|calls| - 1], calls[|calls| - 1];
      RecordingIsExecution(before);
      assert before + [last] == calls;
      RecordingSnoc(before, last);
    }
  }

  lemma {:induction false} ExecutedAreNotControl(calls: seq<Call>)
    ensures forall i | 0 <= i < |ExecutesAll(calls)| :: !IsControl(ExecutesAll(calls)[i].tool)
  {
    if calls != [] {
      ExecutedAreNotControl(calls[1..]);
      if calls[0].arguments.Steps? {
        ReplayableAreNotControl(calls[0].arguments.steps);
      }
    }
  }

  lemma {:induction false} ReplayableAreNotControl(steps: seq<Step>)
    ensures forall i | 0 <= i < |Replayable(steps)| :: !IsControl(Replayable(steps)[i].tool)
  {
    if steps != [] {
      ReplayableAreNotControl(steps[1..]);
    }
  }

  /** `steps` lists `calls` with some delays. */
  ghost predicate Lists(steps: seq<Step>, calls: seq<Call>) {
    |steps| == |calls| && forall i | 0 <= i < |steps| :: CallOf(steps[i]) == calls[i]
  }

  lemma {:induction false} ReplayableOfRecording(steps: seq<Step>, calls: seq<Call>)
    requires Lists(steps, calls) && forall i | 0 <= i < |calls| :: !IsControl(calls[i].tool)
    ensures Replayable(steps) == calls
  {
    if steps != [] {
      assert CallOf(steps[0]) == calls[0];
      ReplayableOfRecording(steps[1..], calls[1..]);
      assert calls == [calls[0]] + calls[1..];
    }
  }

  /** Replaying a stopped recording executes what the recording recorded. */
  lemma ReplayExecutesRecording(calls: seq<Call>, steps: seq<Step>, multiplier: real)
    requires Lists(steps, Run(IDLE, calls).calls)
    ensures Executes(Call(ReplayWorkflow, Steps(steps, multiplier))) == Run(IDLE, calls).calls
  {
    RecordingIsExecution(calls);
    ExecutedAreNotControl(SinceStart(calls));
    ReplayableOfRecording(steps, Run(IDLE, calls).calls);
  }

  /** Recording that replay, after any other history, gives the same calls back. */
  lemma RecordReplayFixpoint(calls: seq<Call>, steps: seq<Step>, multiplier: real, r: Recorder)
    requires Lists(steps, Run(IDLE, calls).calls)
    ensures Run(r, [Call(StartRecording, Plain(0)), Call(ReplayWorkflow, Steps(steps, multiplier))])
         == Recorder(true, Run(IDLE, calls).calls)
  {
    ReplayExecutesRecording(calls, steps, multiplier);
    var start, replay := Call(StartRecording, Plain(0)), Call(ReplayWorkflow, Steps(steps, multiplier));
    assert [start, replay][1..] == [replay] && [replay][1..] == [];
    assert Next(Recorder(true, []), replay).calls == [] + Executes(replay);
    assert Run(Recorder(true, []), [replay]) == Next(Recorder(true, []), replay);
    assert Run(r, [start, replay]) == Run(Next(r, start), [replay]);
  }

  // ---------- Timing ----------

  /** The delays of the first `n` steps, added up. */
  function DelaySum(steps: seq<Step>, n: nat): nat
    requires n <= |steps|
  {
    if n == 0 then 0 else DelaySum(steps, n - 1) + steps[n - 1].delayMs
  }

  ghost predicate Sorted(steps: seq<WorkflowStep>) {
    forall i, j | 0 <= i < j < |steps| :: steps[i].timestampMs <= steps[j].timestampMs
  }

  /** The time from the previous step, or from the start. */
  function Gap(steps: seq<WorkflowStep>, i: nat): nat
    requires i < |steps|
  {
    var before := if i == 0 then 0 else steps[i - 1].timestampMs;
    if steps[i].timestampMs < before then 0 else steps[i].timestampMs - before
  }

  /** What stop_recording writes for `steps`. */
  ghost predicate DelaysOf(out: seq<Step>, steps: seq<WorkflowStep>) {
    && |out| == |steps|
    && forall i {:trigger out[i]} | 0 <= i < |steps| ::
         out[i].delayMs == Gap(steps, i) && CallOf(out[i]) == steps[i].call
  }

  /** The delays up to any step add up to its timestamp. */
  lemma {:induction false} DelaysTelescope(out: seq<Step>, steps: seq<WorkflowStep>, n: nat)
    requires Sorted(steps) && DelaysOf(out, steps) && n < |steps|
    ensures DelaySum(out, n + 1) == steps[n].timestampMs
  {
    assert out[n].delayMs == Gap(steps, n);
    if n > 0 {
      DelaysTelescope(out, steps, n - 1);
      assert steps[n - 1].timestampMs <= steps[n].timestampMs;
    }
  }

  // ---------- The imperative code ----------

  /** One entry of a replay report. */
  datatype Replayed = Replayed(step: nat, tool: Tool, success: bool)

  datatype Response = Failed | Done | Stopped(steps: seq<Step>) | Report(results: seq<Replayed>)

  /** The indices of the non-control steps, in order. */
  function ReplayableIndices(steps: seq<Step>, n: nat): seq<nat>
    requires n <= |steps|
  {
    if n == 0 then []
    else ReplayableIndices(steps, n - 1) + if IsControl(steps[n - 1].tool) then [] else [n - 1]
  }

  /** What a replay reports about the first `n` steps, `oks` telling which of the executed ones succeeded. */
  function ReportOf(steps: seq<Step>, n: nat, oks: seq<bool>): seq<Replayed>
    requires n <= |steps| && |oks| == |ReplayableIndices(steps, n)|
  {
    if n == 0 then []
    else if IsControl(steps[n - 1].tool) then ReportOf(steps, n - 1, oks)
    else
      ReportOf(steps, n - 1, oks[..|oks| - 1]) + [Replayed(n - 1, steps[n - 1].tool, oks[|oks| - 1])]
  }

  /** The report has one entry for each executed step, in order, with its index, tool and success. */
  lemma {:induction false} ReportMeaning(steps: seq<Step>, n: nat, oks: seq<bool>)
    requires n <= |steps| && |oks| == |ReplayableIndices(steps, n)|
    ensures var report, indices := ReportOf(steps, n, oks), ReplayableIndices(steps, n);
            && |report| == |indices|
            && forall k | 0 <= k < |report| ::
                 && report[k].step == indices[k] < n
                 && report[k].tool == steps[indices[k]].tool
                 && report[k].success == oks[k]
  {
    if n > 0 {
      ReportMeaning(steps, n - 1, if IsControl(steps[n - 1].tool) then oks else oks[..|oks| - 1]);
    }
  }

  /** Those of the next step. */
  function EntryOf(i: nat, step: Step, oks: seq<bool>): seq<Replayed>
    requires |oks| == if IsControl(step.tool) then 0 else 1
  {
    if IsControl(step.tool) then [] else [Replayed(i, step.tool, oks[0])]
  }

  lemma ReportSnoc(steps: seq<Step>, n: nat, oks: seq<bool>, more: seq<bool>)
    requires n < |steps| && |oks| == |ReplayableIndices(steps, n)|
    requires |more| == if IsControl(steps[n].tool) then 0 else 1
    ensures |oks + more| == |ReplayableIndices(steps, n + 1)|
    ensures ReportOf(steps, n + 1, oks + more) == ReportOf(steps, n, oks) + EntryOf(n, steps[n], more)
  {
    if IsControl(steps[n].tool) {
      assert oks + more == oks;
    } else {
      assert (oks + more)[..|oks + more| - 1] == oks;
    }
  }

  lemma {:induction false} ReplayableSnoc(steps: seq<Step>, n: nat)
    requires n < |steps|
    ensures Replayable(steps[..n + 1]) == Replayable(steps[..n]) + Attempt(steps[n])
  {
    if n == 0 {
      assert steps[..1][1..] == [];
    } else {
      ReplayableSnoc(steps[1..], n - 1);
      assert steps[..n + 1][1..] == steps[1..][..n];
      assert steps[..n][1..] == steps[1..][..n - 1];
      Regroup(Attempt(steps[0]), Replayable(steps[1..][..n - 1]), Attempt(steps[n]));
    }
  }

  lemma PositiveProduct(a: real, b: real)
    requires a > 0.0 && b > 0.0
    ensures (a * b).Floor >= 0
  {
  }

  /** Exactly the steps of ordinary tools are executed, in order, each once. */
  lemma {:induction false} IndicesMeaning(steps: seq<Step>, n: nat)
    requires n <= |steps|
    ensures var indices := ReplayableIndices(steps, n);
            && (forall i: nat :: i in indices <==> i < n && steps[i].tool.Other?)
            && (forall k | 0 <= k < |indices| :: indices[k] < n)
            && (forall j, k | 0 <= j < k < |indices| :: indices[j] < indices[k])
  {
    if n > 0 {
      IndicesMeaning(steps, n - 1);
    }
  }

  /** What is executed is the calls of these steps as they stand. */
  lemma {:induction false} ReplayableMeaning(steps: seq<Step>, n: nat)
    requires n <= |steps|
    ensures var indices := ReplayableIndices(steps, n);
            && |Replayable(steps[..n])| == |indices|
            && forall k | 0 <= k < |indices| ::
                 && indices[k] < n
                 && Replayable(steps[..n])[k] == Call(steps[indices[k]].tool, steps[indices[k]].arguments)
  {
    if n > 0 {
      ReplayableMeaning(steps, n - 1);
      ReplayableSnoc(steps, n - 1);
    }
  }

  class Server {
    var recording: bool
    var steps: seq<WorkflowStep>
    var startTime: nat
    var now: nat
    var executed: seq<Call>
    /** Which of them succeeded. */
    var outcomes: seq<bool>
    const tools: set<string>

    ghost predicate Valid()
      reads this
    {
      && (recording ==> startTime <= now)
      && Sorted(steps)
      && (forall i | 0 <= i < |steps| :: startTime + steps[i].timestampMs <= now)
      && (!recording ==> steps == [])
    }

    ghost function View(): Recorder
      reads this
    {
      Recorder(recording, Calls(steps))
    }

    constructor (tools: set<string>)
      ensures Valid() && View() == IDLE && executed == [] && outcomes == [] && this.tools == tools
    {
      recording, steps, startTime, now, executed, outcomes := false, [], 0, 0, [], [];
      this.tools := tools;
    }

    /** Any tool but the three control tools: it takes some time and succeeds or not. */
    method RunTool(call: Call) returns (ok: bool)
      requires Valid() && call.tool.Other?
      modifies this`now, this`executed, this`outcomes
      ensures Valid() && executed == old(executed) + [call] && now >= old(now)
      ensures outcomes == old(outcomes) + [ok]
      ensures call.tool.name !in tools ==> !ok
    {
      var elapsed: nat :| elapsed >= 0;
      ok :| ok ==> call.tool.name in tools;
      now := now + elapsed;
      executed, outcomes := executed + [call], outcomes + [ok];
    }

    method DoStartRecording() returns (response: Response)
      requires Valid()
      modifies this`recording, this`steps, this`startTime
      ensures Valid() && View() == Recorder(true, []) && response == Done
      ensures steps == [] && startTime == now
    {
      recording := true;
      steps := [];
      startTime := now;
      response := Done;
    }

    method DoStopRecording() returns (response: Response)
      requires Valid()
      modifies this`recording, this`steps
      ensures Valid() && View() == IDLE && !recording && steps == []
      ensures response.Stopped? && DelaysOf(response.steps, old(steps)) && Lists(response.steps, old(View()).calls)
    {
      recording := false;
      var out: seq<Step> := [];
      var prevTs := 0;
      for i := 0 to |steps|
        invariant DelaysOf(out, steps[..i])
        invariant prevTs == if i == 0 then 0 else steps[i - 1].timestampMs
      {
        var step := steps[i];
        var delayMs := if step.timestampMs < prevTs then 0 else step.timestampMs - prevTs;
        prevTs := step.timestampMs;
        out := out + [Step(step.call.tool, step.call.arguments, delayMs)];
      }
      assert steps[..|steps|] == steps;
      steps := [];
      response := Stopped(out);
    }

    method HandleToolsCall(call: Call) returns (response: Response)
      requires Valid()
      modifies this
      ensures Valid()
      ensures View() == Next(old(View()), call)
      ensures executed == old(executed) + Executes(call)
      ensures call.tool.StopRecording? ==>
                && response.Stopped?
                && Lists(response.steps, old(View()).calls)
                && DelaysOf(response.steps, old(steps))
      ensures call.tool.Other? ==> startTime == old(startTime) && recording == old(recording)
      ensures call.tool.Other? ==>
                steps == if recording then old(steps) + [WorkflowStep(call, now - startTime)] else old(steps)
      ensures now >= old(now)
      ensures call.tool.Other? ==> outcomes == old(outcomes) + [response.Done?]
      ensures call.tool.ReplayWorkflow? ==> (response.Failed? <==> !call.arguments.Steps?)
      ensures call.tool.ReplayWorkflow? && call.arguments.Steps? ==>
                response.Report? && Reports(call.arguments.steps, old(outcomes), outcomes, response.results)
      decreases if call.tool.ReplayWorkflow? then 2 else 0
    {
      match call.tool {
        case StartRecording => response := DoStartRecording();
        case StopRecording => response := DoStopRecording();
        case ReplayWorkflow => response := DoReplayWorkflow(call.arguments);
        case Other(_) =>
          var ok := RunTool(call);
          response := if ok then Done else Failed;
      }
      if !IsControl(call.tool) {
        if recording {
          var elapsed := now - startTime;
          CallsSnoc(steps, WorkflowStep(call, elapsed));
          steps := steps + [WorkflowStep(call, elapsed)];
        }
      }
      assert executed == old(executed) + Executes(call);
    }

    /** The pause before a replayed step; the first step is not delayed. */
    method Sleep(i: nat, delayMs: nat, multiplier: real)
      requires Valid()
      modifies this`now
      ensures Valid() && now >= old(now)
      ensures now == old(now)
                     + if i > 0 && delayMs > 0 && multiplier > 0.0 then (delayMs as real * multiplier).Floor else 0
    {
      if i > 0 && delayMs > 0 && multiplier > 0.0 {
        var actualDelay := (delayMs as real * multiplier).Floor;
        PositiveProduct(delayMs as real, multiplier);
        now := now + actualDelay;
      }
    }

    /** One step of a replay: skipped if it is a control tool, otherwise dispatched and reported. */
    method ReplayStep(i: nat, step: Step, multiplier: real) 
      returns (entry: seq<Replayed>, ghost oks: seq<bool>)
      requires Valid()
      modifies this
      ensures Valid()
      ensures executed == old(executed) + Attempt(step)
      ensures View() == Record(old(View()), Attempt(step))
      ensures |oks| == if IsControl(step.tool) then 0 else 1
      ensures outcomes == old(outcomes) + oks && entry == EntryOf(i, step, oks)
      ensures now >= old(now)
      ensures step.tool.Other? && i > 0 && step.delayMs > 0 && multiplier > 0.0 ==>
                now >= old(now) + (step.delayMs as real * multiplier).Floor
      decreases 1, 0
    {
      if IsControl(step.tool) {
        return [], [];
      }
      Sleep(i, step.delayMs, multiplier);
      var inner := HandleToolsCall(CallOf(step));
      entry, oks := [Replayed(i, step.tool, inner.Done?)], [inner.Done?];
    }

    /** Replay dispatches only non-control tools, so it never re-enters itself. */
    method DoReplayWorkflow(arguments: Arguments) returns (response: Response)
      requires Valid()
      modifies this
      ensures Valid()
      ensures View() == Next(old(View()), Call(ReplayWorkflow, arguments))
      ensures executed == old(executed) + Executes(Call(ReplayWorkflow, arguments))
      ensures now >= old(now)
      ensures response.Failed? <==> !arguments.Steps?
      ensures arguments.Steps? ==>
                response.Report? && Reports(arguments.steps, old(outcomes), outcomes, response.results)
      decreases 1, 1
    {
      if !arguments.Steps? {
        return Failed;
      }
      var todo, multiplier := arguments.steps, arguments.delayMultiplier;
      var results: seq<Replayed> := [];
      ghost var oks: seq<bool> := [];
      for i := 0 to |todo|
        invariant Valid()
        invariant executed == old(executed) + Replayable(todo[..i])
        invariant View() == Record(old(View()), Replayable(todo[..i]))
        invariant now >= old(now)
        invariant outcomes == old(outcomes) + oks
        invariant |oks| == |ReplayableIndices(todo, i)| && results == ReportOf(todo, i, oks)
      {
        ReplayableSnoc(todo, i);
        Regroup(old(executed), Replayable(todo[..i]), Attempt(todo[i]));
        RecordTwice(old(View()), Replayable(todo[..i]), Attempt(todo[i]));
        var entry, more := ReplayStep(i, todo[i], multiplier);
        ReportSnoc(todo, i, oks, more);
        Regroup(old(outcomes), oks, more);
        oks, results := oks + more, results + entry;
      }
      assert todo[..|todo|] == todo;
      response := Report(results);
    }
  }

  function Calls(steps: seq<WorkflowStep>): seq<Call> {
    seq(|steps|, i requires 0 <= i < |steps| => steps[i].call)
  }

  lemma CallsSnoc(steps: seq<WorkflowStep>, step: WorkflowStep)
    ensures Calls(steps + [step]) == Calls(steps) + [step.call]
  {
  }

  /** `results` tells, of each executed step, its index, its tool and whether it succeeded. */
  ghost predicate Reports(steps: seq<Step>, before: seq<bool>, after: seq<bool>, results: seq<Replayed>) {
    && |after| == |before| + |ReplayableIndices(steps, |steps|)|
    && after[..|before|] == before
    && results == ReportOf(steps, |steps|, after[|before|..])
  }
}
