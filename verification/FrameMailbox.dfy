/** The single-slot mailbox through which a decoded frame reaches the UI.

    The video thread swaps its frame buffer into the slot of the display, notifies the UI sessions that show it,
    and takes the slot back if there are none; a UI session reads the slot and frees it with next_rgba.  The
    three parts of the video thread's work run under separately taken locks, so the whole-run properties are
    proved for every interleaving of them with the UI's calls. */
module FrameMailbox {
  import opened Options

  type SessionId = nat

  type Display = nat

  /** A frame buffer: which allocation it is, and the frame it holds. */
  datatype Buffer = Buffer(id: nat, frame: int)

  datatype Slot = Slot(data: Buffer, valid: bool)

  /** What matters of a UI session: the displays it shows and whether it can be notified. */
  datatype Handler = Handler(displays: seq<Display>, hasStream: bool)

  /** The UI sessions that are notified of a frame of `display`. */
  ghost function Notified(handlers: map<SessionId, Handler>, display: Display): set<SessionId> {
    NotifiedAmong(handlers, handlers.Keys, display)
  }

  ghost function NotifiedAmong(
    handlers: map<SessionId, Handler>, keys: set<SessionId>, display: Display): set<SessionId>
  {
    set s | s in keys
         && s in handlers
         && |handlers[s].displays| <= 1
         && (|handlers| > 1 ==> display in handlers[s].displays)
         && handlers[s].hasStream
  }

  ghost predicate Told(handlers: map<SessionId, Handler>, display: Display, s: SessionId) {
    s in NotifiedAmong(handlers, {s}, display)
  }

  lemma NotifiedAdd(handlers: map<SessionId, Handler>, keys: set<SessionId>, display: Display, s: SessionId)
    requires s in handlers
    ensures NotifiedAmong(handlers, keys + {s}, display)
         == NotifiedAmong(handlers, keys, display) + if Told(handlers, display, s) then {s} else {}
  {
  }

  // ---------- One display, step by step ----------

  /** Where the video thread is in on_rgba_soft_render. */
  datatype Phase = Idle | Filled | Sent(any: bool)

  /** `raw` is the video thread's buffer; `events` counts the notifications since the slot was last filled. */
  datatype State = State(raw: Buffer, slot: Option<Slot>, phase: Phase, events: nat)

  datatype Step =
    | Decode(frame: int)                           // the decoder writes the next frame into `raw`
    | Fill(newId: nat)                             // first lock: swap unless the slot is taken
    | Notify(handlers: map<SessionId, Handler>, display: Display)  // second lock
    | Retract                                      // third lock: free the slot if nobody was notified
    | NextRgba                                     // the UI, at any time
    | Clear                                        // update_use_texture_render, at any time

  ghost predicate Enabled(s: State, step: Step) {
    match step
    case Decode(_) => s.phase.Idle?
    case Fill(newId) => s.phase.Idle? && (s.slot.None? ==> newId != s.raw.id)
    case Notify(_, _) => s.phase.Filled?
    case Retract => s.phase.Sent?
    case NextRgba => true
    case Clear => true
  }

  ghost function Apply(s: State, step: Step): State {
    match step
    case Decode(frame) => s.(raw := s.raw.(frame := frame))
    case Fill(newId) =>
      if s.slot.Some? && s.slot.value.valid then s
      else
        var back := if s.slot.Some? then s.slot.value.data else Buffer(newId, 0);
        State(back, Some(Slot(s.raw, true)), Filled, 0)
    case Notify(handlers, display) =>
      var told := Notified(handlers, display);
      s.(phase := Sent(told != {}), events := s.events + |told|)
    case Retract =>
      if !s.phase.Sent? then s
      else
        var slot := if s.slot.Some? && !s.phase.any then Some(s.slot.value.(valid := false)) else s.slot;
        State(s.raw, slot, Idle, s.events)
    case NextRgba => s.(slot := if s.slot.Some? then Some(s.slot.value.(valid := false)) else None)
    case Clear => s.(slot := None)
  }

  ghost predicate Runs(s: State, steps: seq<Step>)
    decreases steps
  {
    steps == [] || (Enabled(s, steps[0]) && Runs(Apply(s, steps[0]), steps[1..]))
  }

  ghost function Run(s: State, steps: seq<Step>): State
    requires Runs(s, steps)
    decreases steps
  {
    if steps == [] then s else Run(Apply(s, steps[0]), steps[1..])
  }

  /** What get_rgba returns. */
  ghost function GetRgba(s: State): Option<Buffer> {
    if s.slot.Some? && s.slot.value.valid then Some(s.slot.value.data) else None
  }

  ghost predicate Inv(s: State) {
    && (s.slot.Some? ==> s.raw.id != s.slot.value.data.id)
    && (GetRgba(s).Some? && s.phase == Idle ==> s.events > 0)
    && (s.phase == Sent(true) ==> s.events > 0)
  }

  lemma StepKeepsInv(s: State, step: Step)
    requires Inv(s) && Enabled(s, step)
    ensures Inv(Apply(s, step))
  {
    if step.Notify? {
      var told := Notified(step.handlers, step.display);
      assert told != {} ==> |told| > 0;
    }
  }

  /** In every run: once the video thread is done, a frame can be read only if some UI session was told
      about it; and the thread and the slot never hold the same buffer. */
  lemma {:induction false} ReadableMeansNotified(s: State, steps: seq<Step>)
    requires Inv(s) && Runs(s, steps)
    ensures Inv(Run(s, steps))
    decreases steps
  {
    if steps != [] {
      StepKeepsInv(s, steps[0]);
      ReadableMeansNotified(Apply(s, steps[0]), steps[1..]);
    }
  }

  ghost predicate Frees(step: Step) {
    step.NextRgba? || step.Clear?
  }

  /** From the moment a UI session has been told, whatever the video thread and the other UI sessions do, the
      frame stays readable and unchanged until somebody frees the slot. */
  lemma {:induction false} FrameStaysUntilFreed(s: State, steps: seq<Step>)
    requires Runs(s, steps)
    requires GetRgba(s).Some? && (s.phase == Sent(true) || s.phase == Idle)
    requires forall i | 0 <= i < |steps| :: !Frees(steps[i])
    ensures GetRgba(Run(s, steps)) == GetRgba(s)
    decreases steps
  {
    if steps != [] {
      assert !Frees(steps[0]);
      FrameStaysUntilFreed(Apply(s, steps[0]), steps[1..]);
    }
  }

  /** The buffers of the thread and of the slot. */
  ghost function Ids(s: State): set<nat> {
    {s.raw.id} + if s.slot.Some? then {s.slot.value.data.id} else {}
  }

  /** Until the slot is dropped by a clear, no buffer is lost, and one is added only by the very first frame. */
  lemma {:induction false} BuffersConserved(s: State, steps: seq<Step>)
    requires Inv(s) && Runs(s, steps) && s.slot.Some?
    requires forall i | 0 <= i < |steps| :: !steps[i].Clear?
    ensures Run(s, steps).slot.Some? && Ids(Run(s, steps)) == Ids(s) && |Ids(s)| == 2
    decreases steps
  {
    if steps == [] {
      assert Ids(s) == {s.raw.id, s.slot.value.data.id};
    } else {
      assert !steps[0].Clear?;
      StepKeepsInv(s, steps[0]);
      assert Ids(Apply(s, steps[0])) == Ids(s);
      BuffersConserved(Apply(s, steps[0]), steps[1..]);
    }
  }

  /** One undisturbed call of on_rgba_soft_render. */
  ghost function Render(s: State, newId: nat, handlers: map<SessionId, Handler>, display: Display): State {
    var t := Apply(s, Fill(newId));
    if t.phase.Idle? then t else Apply(Apply(t, Notify(handlers, display)), Retract)
  }

  /** A free slot takes the next frame exactly if there is somebody to notify; a taken slot keeps its frame. */
  lemma FreeSlotAcceptsFrame(s: State, newId: nat, handlers: map<SessionId, Handler>, display: Display)
    requires s.phase.Idle? && (s.slot.None? ==> newId != s.raw.id)
    ensures var t := Render(s, newId, handlers, display);
            && t.phase.Idle?
            && if GetRgba(s).Some? then t == s
               else
                 && GetRgba(t) == (if Notified(handlers, display) != {} then Some(s.raw) else None)
                 && Runs(s, [Fill(newId), Notify(handlers, display), Retract])
                 && Run(s, [Fill(newId), Notify(handlers, display), Retract]) == t
  {
    var fill, notify := Fill(newId), Notify(handlers, display);
    var t := Apply(s, fill);
    assert [fill, notify, Retract][1..] == [notify, Retract] && [notify, Retract][1..] == [Retract];
    if GetRgba(s).None? {
      var u := Apply(t, notify);
      assert Runs(u, [Retract]) && Runs(t, [notify, Retract]);
      assert Run(u, [Retract]) == Apply(u, Retract);
    }
  }

  lemma NotNone(handlers: map<SessionId, Handler>)
    ensures forall s | s in handlers :: |handlers| != 0
  {
    if s :| s in handlers {
      assert |handlers| == |handlers - {s}| + 1;
    }
  }

  // ---------- The imperative code ----------

  class FlutterHandler {
    var displayRgbas: map<Display, Slot>
    var sessionHandlers: map<SessionId, Handler>

    constructor ()
      ensures displayRgbas == map[] && sessionHandlers == map[]
    {
      displayRgbas, sessionHandlers := map[], map[];
    }

    ghost function SlotOf(display: Display): Option<Slot>
      reads this
    {
      if display in displayRgbas then Some(displayRgbas[display]) else None
    }

    /** The state of one display, seen by a video thread outside on_rgba_soft_render. */
    ghost function View(display: Display, raw: Buffer): State
      reads this
    {
      State(raw, SlotOf(display), Idle, 0)
    }

    method ReadRgba(display: Display) returns (data: Option<Buffer>)
      ensures forall raw :: data == GetRgba(View(display, raw))
      ensures data == if display in displayRgbas && displayRgbas[display].valid
                      then Some(displayRgbas[display].data) else None
    {
      if display in displayRgbas {
        if displayRgbas[display].valid {
          return Some(displayRgbas[display].data);
        }
      }
      return None;
    }

    method FreeRgba(display: Display)
      modifies this`displayRgbas
      ensures forall raw :: View(display, raw) == Apply(old(View(display, raw)), NextRgba)
      ensures displayRgbas.Keys == old(displayRgbas.Keys)
      ensures display in displayRgbas ==> displayRgbas[display] == Slot(old(displayRgbas)[display].data, false)
      ensures forall d | d != display :: SlotOf(d) == old(SlotOf(d))
    {
      if display in displayRgbas {
        displayRgbas := displayRgbas[display := displayRgbas[display].(valid := false)];
      }
    }

    /** The walk over the UI sessions, in any order. */
    method NotifySessions(display: Display) returns (events: set<SessionId>, isSent: bool)
      ensures events == Notified(sessionHandlers, display)
      ensures forall s :: s in events <==>
                && s in sessionHandlers
                && sessionHandlers[s].hasStream
                && |sessionHandlers[s].displays| <= 1
                && (|sessionHandlers| == 1 || display in sessionHandlers[s].displays)
      ensures isSent <==> events != {}
    {
      events, isSent := {}, false;
      var isMultiSessions := |sessionHandlers| > 1;
      var rest := sessionHandlers.Keys;
      while rest != {}
        invariant rest <= sessionHandlers.Keys
        invariant events == NotifiedAmong(sessionHandlers, sessionHandlers.Keys - rest, display)
        invariant isSent <==> events != {}
        decreases rest
      {
        var s :| s in rest;
        assert sessionHandlers.Keys - (rest - {s}) == sessionHandlers.Keys - rest + {s};
        NotifiedAdd(sessionHandlers, sessionHandlers.Keys - rest, display, s);
        rest := rest - {s};
        var h := sessionHandlers[s];
        if |h.displays| > 1 {
          continue;
        }
        if isMultiSessions {
          if display !in h.displays {
            continue;
          }
        }
        if h.hasStream {
          events := events + {s};
          isSent := true;
        }
      }
      assert sessionHandlers.Keys - {} == sessionHandlers.Keys;
      NotNone(sessionHandlers);
    }

    /** `back` is the buffer the video thread gets in exchange, `newId` the buffer created for a display that
        has no slot yet, `events` the UI sessions told. */
    method OnRgbaSoftRender(display: Display, raw: Buffer, newId: nat) returns (back: Buffer, events: set<SessionId>)
      modifies this`displayRgbas
      ensures View(display, back).(events := |events|)
           == Render(old(View(display, raw)), newId, sessionHandlers, display)
      ensures old(GetRgba(View(display, raw))).None? ==> events == Notified(sessionHandlers, display)
      ensures old(GetRgba(View(display, raw))).Some? ==> events == {}
      ensures if display in old(displayRgbas) && old(displayRgbas)[display].valid
              then back == raw && displayRgbas == old(displayRgbas)
              else
                && displayRgbas == old(displayRgbas)[display := Slot(raw, events != {})]
                && back == if display in old(displayRgbas) then old(displayRgbas)[display].data else Buffer(newId, 0)
      ensures forall d | d != display :: SlotOf(d) == old(SlotOf(d))
    {
      if display in displayRgbas {
        var slot := displayRgbas[display];
        if slot.valid {
          return raw, {};
        }
        back := slot.data;
      } else {
        back := Buffer(newId, 0);
      }
      displayRgbas := displayRgbas[display := Slot(raw, true)];

      var isSent;
      events, isSent := NotifySessions(display);
      if !isSent {
        displayRgbas := displayRgbas[display := displayRgbas[display].(valid := false)];
      }
    }
  }
}
