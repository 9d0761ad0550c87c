/** Which keys the peer holds down.

    Two local tables track held keys: TO_RELEASE (every key pressed and not yet released, with its
    event) and MODIFIERS_STATE (a flag per modifier, used to swallow auto-repeat).  The peer only
    sees the key codes sent to it.  The class `Keyboard` is the imperative code in Map mode; the lemmas
    show, over whole runs, how the two tables and the peer's held set stay in agreement, and that
    releasing all keys leaves all three empty. */
module HeldKeys {
  import opened Basics

  datatype Key =
    | ShiftLeft | ShiftRight | ControlLeft | ControlRight
    | Alt | AltGr | MetaLeft | MetaRight
    | Other(id: nat)

  const MODIFIERS: set<Key> :=
    {ShiftLeft, ShiftRight, ControlLeft, ControlRight, Alt, AltGr, MetaLeft, MetaRight}

  datatype EventType = KeyPress(key: Key) | KeyRelease(key: Key) | NotAKey

  /** A grabbed event; `code` is its position code. */
  datatype Event = Event(eventType: EventType, code: nat)

  /** What is sent to the peer in Map mode. */
  datatype KeyEvent = KeyEvent(down: bool, code: nat)

  /** The code table for the peer's platform; a code it lacks is not sent. */
  type Table = map<nat, nat>

  function MapKeyboardMode(event: Event, table: Table): seq<KeyEvent> {
    if event.eventType.NotAKey? || event.code !in table then []
    else [KeyEvent(event.eventType.KeyPress?, table[event.code])]
  }

  // ---------- The specification ----------

  /** The keys in TO_RELEASE and the modifiers whose flag is set. */
  datatype Tables = Tables(pending: set<Key>, modifiers: set<Key>)

  const EMPTY := Tables({}, {})

  predicate LongPress(t: Tables, e: Event) {
    e.eventType.KeyPress? && e.eventType.key in t.modifiers
  }

  function Next(t: Tables, e: Event): Tables {
    if LongPress(t, e) then t
    else match e.eventType
      case KeyPress(k) => Tables(t.pending + {k}, t.modifiers + {k} * MODIFIERS)
      case KeyRelease(k) => Tables(t.pending - {k}, t.modifiers - {k})
      case NotAKey => t
  }

  function Sent(t: Tables, e: Event, table: Table): seq<KeyEvent> {
    if LongPress(t, e) then [] else MapKeyboardMode(e, table)
  }

  function Run(t: Tables, events: seq<Event>): Tables
    decreases events
  {
    if events == [] then t else Run(Next(t, events[0]), events[1..])
  }

  function Wire(t: Tables, events: seq<Event>, table: Table): seq<KeyEvent>
    decreases events
  {
    if events == [] then []
    else Sent(t, events[0], table) + Wire(Next(t, events[0]), events[1..], table)
  }

  lemma {:induction false} RunConcat(t: Tables, a: seq<Event>, b: seq<Event>, table: Table)
    ensures Run(t, a + b) == Run(Run(t, a), b)
    ensures Wire(t, a + b, table) == Wire(t, a, table) + Wire(Run(t, a), b, table)
    decreases a
  {
    if a == [] {
      assert a + b == b;
    } else {
      RunConcat(Next(t, a[0]), a[1..], b, table);
      assert (a + b)[1..] == a[1..] + b;
    }
  }

  lemma RunOfOne(t: Tables, e: Event, table: Table)
    ensures Run(t, [e]) == Next(t, e) && Wire(t, [e], table) == Sent(t, e, table)
  {
    assert [e][1..] == [];
  }

  lemma RunOfThree(t: Tables, a: Event, b: Event, c: Event, table: Table)
    ensures var t1 := Next(t, a);
            var t2 := Next(t1, b);
            && Run(t, [a, b, c]) == Next(t2, c)
            && Wire(t, [a, b, c], table) == Sent(t, a, table) + Sent(t1, b, table) + Sent(t2, c, table)
  {
    var t1 := Next(t, a);
    RunOfOne(t, a, table);
    RunOfOne(t1, b, table);
    RunOfOne(Next(t1, b), c, table);
    RunConcat(t1, [b], [c], table);
    RunConcat(t, [a], [b] + [c], table);
    assert [a] + ([b] + [c]) == [a, b, c];
  }

  /** The codes the peer holds after `messages`, having held `down` before. */
  function Deliver(down: set<nat>, messages: seq<KeyEvent>): set<nat>
    decreases messages
  {
    if messages == [] then down
    else
      var m := messages[0];
      Deliver(if m.down then down + {m.code} else down - {m.code}, messages[1..])
  }

  lemma {:induction false} DeliverConcat(down: set<nat>, a: seq<KeyEvent>, b: seq<KeyEvent>)
    ensures Deliver(down, a + b) == Deliver(Deliver(down, a), b)
    decreases a
  {
    if a == [] {
      assert a + b == b;
    } else {
      var m := a[0];
      DeliverConcat(if m.down then down + {m.code} else down - {m.code}, a[1..], b);
      assert (a + b)[1..] == a[1..] + b;
    }
  }

  /** The two local tables agree. */
  ghost predicate InSync(t: Tables) {
    t.modifiers == t.pending * MODIFIERS
  }

  /** Where each key sits on the local keyboard. */
  type Layout = Key -> nat

  ghost predicate LaidOut(e: Event, layout: Layout) {
    !e.eventType.NotAKey? ==> e.code == layout(e.eventType.key)
  }

  /** No two keys reach the peer as the same code. */
  ghost predicate Injective(layout: Layout, table: Table) {
    forall j: Key, k: Key | layout(j) in table && layout(k) in table && table[layout(j)] == table[layout(k)] :: j == k
  }

  function Codes(keys: set<Key>, layout: Layout, table: Table): set<nat> {
    set k | k in keys && layout(k) in table :: table[layout(k)]
  }

  // ---------- Agreement over runs ----------

  lemma StepAgrees(t: Tables, e: Event, layout: Layout, table: Table)
    requires InSync(t) && LaidOut(e, layout) && Injective(layout, table)
    ensures InSync(Next(t, e))
    ensures Deliver(Codes(t.pending, layout, table), Sent(t, e, table))
         == Codes(Next(t, e).pending, layout, table)
  {
    var down, after := Codes(t.pending, layout, table), Codes(Next(t, e).pending, layout, table);
    var messages := Sent(t, e, table);
    if !LongPress(t, e) && !e.eventType.NotAKey? {
      var k := e.eventType.key;
      if e.code in table {
        assert messages[1..] == [];
        var c := table[layout(k)];
        assert after == if e.eventType.KeyPress? then down + {c} else down - {c};
      } else {
        assert after == down;
      }
    }
  }

  /** In every run the peer holds exactly the codes of the keys in TO_RELEASE, and a modifier's flag
      is set exactly when that modifier is in TO_RELEASE. */
  lemma {:induction false} PeerAgrees(t: Tables, events: seq<Event>, layout: Layout, table: Table)
    requires InSync(t) && Injective(layout, table)
    requires forall i | 0 <= i < |events| :: LaidOut(events[i], layout)
    ensures InSync(Run(t, events))
    ensures Deliver(Codes(t.pending, layout, table), Wire(t, events, table))
         == Codes(Run(t, events).pending, layout, table)
    decreases events
  {
    if events != [] {
      var next := Next(t, events[0]);
      StepAgrees(t, events[0], layout, table);
      PeerAgrees(next, events[1..], layout, table);
      DeliverConcat(Codes(t.pending, layout, table), Sent(t, events[0], table), Wire(next, events[1..], table));
    }
  }

  ghost predicate AgreesAlways(layout: Layout, table: Table) {
    forall events: seq<Event> | forall i | 0 <= i < |events| :: LaidOut(events[i], layout) ::
      Deliver({}, Wire(EMPTY, events, table)) == Codes(Run(EMPTY, events).pending, layout, table)
  }

  /** Agreement in every run is the same thing as an injective code table: with two keys on one
      code, releasing one of them releases the other at the peer. */
  lemma AgreementIffInjective(layout: Layout, table: Table)
    ensures AgreesAlways(layout, table) <==> Injective(layout, table)
  {
    if Injective(layout, table) {
      forall events: seq<Event> | forall i | 0 <= i < |events| :: LaidOut(events[i], layout)
        ensures Deliver({}, Wire(EMPTY, events, table)) == Codes(Run(EMPTY, events).pending, layout, table)
      {
        PeerAgrees(EMPTY, events, layout, table);
        assert Codes({}, layout, table) == {};
      }
    } else {
      var j, k :| layout(j) in table && layout(k) in table && table[layout(j)] == table[layout(k)] && j != k;
      SharedCode(j, k, layout, table);
    }
  }

  lemma SharedCode(j: Key, k: Key, layout: Layout, table: Table)
    requires j != k && layout(j) in table && layout(k) in table && table[layout(j)] == table[layout(k)]
    ensures !AgreesAlways(layout, table)
  {
    var c := table[layout(j)];
    var a, b, r := Event(KeyPress(j), layout(j)), Event(KeyPress(k), layout(k)), Event(KeyRelease(j), layout(j));
    var t2 := Next(Next(EMPTY, a), b);
    RunOfThree(EMPTY, a, b, r, table);
    DeliverThree(c);
    assert Sent(EMPTY, a, table) + Sent(Next(EMPTY, a), b, table) + Sent(t2, r, table)
        == [KeyEvent(true, c), KeyEvent(true, c), KeyEvent(false, c)];
    StillPending(j, k, layout(j), layout(k));
    assert c in Codes(Run(EMPTY, [a, b, r]).pending, layout, table);
  }

  lemma StillPending(j: Key, k: Key, codeJ: nat, codeK: nat)
    requires j != k
    ensures k in Next(Next(Next(EMPTY, Event(KeyPress(j), codeJ)), Event(KeyPress(k), codeK)),
                      Event(KeyRelease(j), codeJ)).pending
  {
  }

  lemma DeliverThree(c: nat)
    ensures Deliver({}, [KeyEvent(true, c), KeyEvent(true, c), KeyEvent(false, c)]) == {}
  {
    var down, up := KeyEvent(true, c), KeyEvent(false, c);
    assert [down, down, up][1..] == [down, up] && [down, up][1..] == [up] && [up][1..] == [];
    assert Deliver({} + {c} + {c}, [up]) == ({} + {c} + {c}) - {c};
    assert Deliver({} + {c}, [down, up]) == Deliver({} + {c} + {c}, [up]);
    assert Deliver({}, [down, down, up]) == Deliver({} + {c}, [down, up]);
  }

  /** Auto-repeat of a modifier never reaches the peer: at the end of any run, another press of a
      modifier is sent only if the peer does not hold it. */
  lemma ModifierSentOnlyWhenUp(events: seq<Event>, e: Event, layout: Layout, table: Table)
    requires Injective(layout, table) && LaidOut(e, layout)
    requires forall i | 0 <= i < |events| :: LaidOut(events[i], layout)
    requires e.eventType.KeyPress? && e.eventType.key in MODIFIERS && e.code in table
    ensures Sent(Run(EMPTY, events), e, table) != []
       <==> table[e.code] !in Deliver({}, Wire(EMPTY, events, table))
  {
    PeerAgrees(EMPTY, events, layout, table);
    assert Codes({}, layout, table) == {};
  }

  /** The keys with a flag are the eight named ones. */
  lemma ModifiersAre(k: Key)
    ensures k in MODIFIERS <==> !k.Other?
  {
  }

  /** No flag is ever set for any other key. */
  lemma {:induction false} FlagsAreModifiers(t: Tables, events: seq<Event>)
    requires t.modifiers <= MODIFIERS
    ensures Run(t, events).modifiers <= MODIFIERS
    decreases events
  {
    if events != [] {
      FlagsAreModifiers(Next(t, events[0]), events[1..]);
    }
  }

  /** Auto-repeat of an ordinary key is never swallowed: at the end of any run every press of it is sent. */
  lemma OrdinaryPressAlwaysSent(events: seq<Event>, e: Event, table: Table)
    requires e.eventType.KeyPress? && e.eventType.key.Other? && e.code in table
    ensures Sent(Run(EMPTY, events), e, table) == [KeyEvent(true, table[e.code])]
  {
    FlagsAreModifiers(EMPTY, events);
    ModifiersAre(e.eventType.key);
  }

  /** Nor is the release of any key. */
  lemma ReleaseAlwaysSent(events: seq<Event>, e: Event, table: Table)
    requires e.eventType.KeyRelease? && e.code in table
    ensures Sent(Run(EMPTY, events), e, table) == [KeyEvent(false, table[e.code])]
  {
  }

  /** What was pressed last and not released. */
  predicate Pressed(events: seq<Event>, k: Key) {
    && events != []
    && var last := events[|events| - 1].eventType;
       last == KeyPress(k) || (last != KeyRelease(k) && Pressed(events[..|events| - 1], k))
  }

  /** A press of a modifier is swallowed exactly when it has been pressed and not released since; this needs no code
      table. */
  lemma {:induction false} SwallowedIff(events: seq<Event>, k: Key, code: nat, table: Table)
    requires !k.Other? && code in table
    ensures k in Run(EMPTY, events).modifiers <==> Pressed(events, k)
    ensures Sent(Run(EMPTY, events), Event(KeyPress(k), code), table)
         == if Pressed(events, k) then [] else [KeyEvent(true, table[code])]
  {
    ModifiersAre(k);
    if events != [] {
      var before, last := events[..|events| - 1], events[|events| - 1];
      SwallowedIff(before, k, code, table);
      assert before + [last] == events;
      RunConcat(EMPTY, before, [last], table);
      RunOfOne(Run(EMPTY, before), last, table);
    }
  }

  // ---------- Releasing everything ----------

  /** What release_remote_keys feeds to process_event for one stored key: its release and, for Alt and
      AltGr, a further press and release. */
  function ReleaseEvents(key: Key, code: nat): seq<Event> {
    [Event(KeyRelease(key), code)]
    + if key == Alt || key == AltGr then [Event(KeyPress(key), code), Event(KeyRelease(key), code)] else []
  }

  function ReleaseAll(order: seq<Key>, stored: map<Key, Event>): seq<Event>
    requires forall k | k in order :: k in stored
  {
    if order == [] then [] else ReleaseEvents(order[0], stored[order[0]].code) + ReleaseAll(order[1..], stored)
  }

  /** `order` names every key of `keys` once. */
  ghost predicate Lists(order: seq<Key>, keys: set<Key>) {
    && (forall k :: k in order <==> k in keys)
    && (forall i, j | 0 <= i < j < |order| :: order[i] != order[j])
  }

  lemma ListsNext(order: seq<Key>, keys: set<Key>, rest: set<Key>, key: Key)
    requires Lists(order, keys - rest) && key in rest && rest <= keys
    ensures Lists(order + [key], keys - (rest - {key}))
  {
  }

  /** The key strokes the peer sees for one released key. */
  function Strokes(key: Key, code: nat, table: Table): seq<KeyEvent> {
    if code !in table then []
    else [KeyEvent(false, table[code])]
         + if key == Alt || key == AltGr then [KeyEvent(true, table[code]), KeyEvent(false, table[code])] else []
  }

  function AllStrokes(order: seq<Key>, stored: map<Key, Event>, table: Table): seq<KeyEvent>
    requires forall k | k in order :: k in stored
  {
    if order == [] then []
    else Strokes(order[0], stored[order[0]].code, table) + AllStrokes(order[1..], stored, table)
  }

  /** With TO_RELEASE already cleared, one key's events clear its flag and send its strokes; the extra
      tap is not mistaken for a long press. */
  lemma ReleaseOne(t: Tables, key: Key, code: nat, table: Table)
    requires t.pending == {}
    ensures Run(t, ReleaseEvents(key, code)) == Tables({}, t.modifiers - {key})
    ensures Wire(t, ReleaseEvents(key, code), table) == Strokes(key, code, table)
  {
    var up, down := Event(KeyRelease(key), code), Event(KeyPress(key), code);
    if key == Alt || key == AltGr {
      RunOfThree(t, up, down, up, table);
      assert ReleaseEvents(key, code) == [up, down, up];
    } else {
      RunOfOne(t, up, table);
      assert ReleaseEvents(key, code) == [up];
    }
  }

  /** The whole drain, in any order: the flags of the listed keys are cleared and their strokes sent. */
  lemma {:induction false} DrainRun(order: seq<Key>, stored: map<Key, Event>, modifiers: set<Key>, table: Table)
    requires forall k | k in order :: k in stored
    ensures Run(Tables({}, modifiers), ReleaseAll(order, stored)) == Tables({}, modifiers - (set k | k in order))
    ensures Wire(Tables({}, modifiers), ReleaseAll(order, stored), table) == AllStrokes(order, stored, table)
  {
    if order == [] {
      assert modifiers - (set k | k in order) == modifiers;
    } else {
      var k := order[0];
      var first := ReleaseEvents(k, stored[k].code);
      ReleaseOne(Tables({}, modifiers), k, stored[k].code, table);
      DrainRun(order[1..], stored, modifiers - {k}, table);
      RunConcat(Tables({}, modifiers), first, ReleaseAll(order[1..], stored), table);
      assert modifiers - (set j | j in order) == (modifiers - {k}) - (set j | j in order[1..]);
    }
  }

  lemma StrokesRelease(down: set<nat>, key: Key, code: nat, table: Table)
    ensures Deliver(down, Strokes(key, code, table)) == if code in table then down - {table[code]} else down
  {
    if code in table {
      var up, tap := KeyEvent(false, table[code]), KeyEvent(true, table[code]);
      assert [up][1..] == [] && [up, tap, up][1..] == [tap, up] && [tap, up][1..] == [up];
      if key == Alt || key == AltGr {
        assert Strokes(key, code, table) == [up, tap, up];
        var c := table[code];
        assert Deliver((down - {c}) + {c}, [up]) == ((down - {c}) + {c}) - {c} == down - {c};
        assert Deliver(down - {c}, [tap, up]) == Deliver((down - {c}) + {c}, [up]);
        assert Deliver(down, [up, tap, up]) == Deliver(down - {c}, [tap, up]);
      } else {
        assert Strokes(key, code, table) == [up];
      }
    }
  }

  lemma {:induction false} DrainDelivers(
    down: set<nat>, order: seq<Key>, stored: map<Key, Event>, layout: Layout, table: Table)
    requires forall k | k in order :: k in stored && stored[k].code == layout(k)
    ensures Deliver(down, AllStrokes(order, stored, table)) == down - Codes((set k | k in order), layout, table)
  {
    var keys := set k | k in order;
    if order == [] {
      assert Codes(keys, layout, table) == {};
    } else {
      var k, code := order[0], layout(order[0]);
      var rest := set j | j in order[1..];
      var mid := if code in table then down - {table[code]} else down;
      StrokesRelease(down, k, code, table);
      DrainDelivers(mid, order[1..], stored, layout, table);
      DeliverConcat(down, Strokes(k, code, table), AllStrokes(order[1..], stored, table));
      assert keys == {k} + rest;
      assert Codes(keys, layout, table)
          == (if code in table then {table[code]} else {}) + Codes(rest, layout, table);
    }
  }

  /** After any run, releasing the stored keys in any order of iteration leaves nothing in TO_RELEASE,
      no modifier flag set, and nothing held at the peer. */
  lemma ReleaseLeavesNothingHeld(
    events: seq<Event>, order: seq<Key>, stored: map<Key, Event>, layout: Layout, table: Table)
    requires Injective(layout, table)
    requires forall i | 0 <= i < |events| :: LaidOut(events[i], layout)
    requires stored.Keys == Run(EMPTY, events).pending
    requires forall k | k in stored :: stored[k].code == layout(k)
    requires Lists(order, stored.Keys)
    ensures var t := Run(EMPTY, events);
            var drained := Tables({}, t.modifiers);
            var release := ReleaseAll(order, stored);
            && Run(drained, release) == EMPTY
            && Deliver(Deliver({}, Wire(EMPTY, events, table)), Wire(drained, release, table)) == {}
  {
    var t := Run(EMPTY, events);
    PeerAgrees(EMPTY, events, layout, table);
    assert Codes({}, layout, table) == {};
    DrainRun(order, stored, t.modifiers, table);
    DrainDelivers(Codes(t.pending, layout, table), order, stored, layout, table);
    assert (set k | k in order) == t.pending;
  }

  // ---------- The imperative code ----------

  class Keyboard {
    var toRelease: map<Key, Event>
    var modifiersState: map<Key, bool>
    var sent: seq<KeyEvent>
    const table: Table

    ghost predicate Valid()
      reads this
    {
      && modifiersState.Keys == MODIFIERS
      && forall k | k in toRelease :: toRelease[k].eventType == KeyPress(k)
    }

    ghost function View(): Tables
      reads this
    {
      Tables(toRelease.Keys, set k | k in modifiersState && modifiersState[k])
    }

    constructor (table: Table)
      ensures Valid() && View() == EMPTY && sent == [] && this.table == table
    {
      toRelease := map[];
      modifiersState := map k | k in MODIFIERS :: false;
      sent := [];
      this.table := table;
    }

    method IsLongPress(event: Event) returns (r: bool)
      requires Valid()
      ensures r == LongPress(View(), event)
      ensures r <==> && event.eventType.KeyPress?
                     && event.eventType.key in modifiersState && modifiersState[event.eventType.key]
    {
      match event.eventType
      case KeyPress(k) =>
        if k in modifiersState {
          if modifiersState[k] {
            return true;
          }
        }
        return false;
      case _ => return false;
    }

    method UpdateModifiersState(event: Event)
      requires Valid()
      modifies this`modifiersState
      ensures Valid()
      ensures View().modifiers ==
        match event.eventType
        case KeyPress(k) => old(View()).modifiers + {k} * MODIFIERS
        case KeyRelease(k) => old(View()).modifiers - {k}
        case NotAKey => old(View()).modifiers
    {
      match event.eventType
      case KeyPress(k) =>
        if k in modifiersState {
          modifiersState := modifiersState[k := true];
        }
      case KeyRelease(k) =>
        if k in modifiersState {
          modifiersState := modifiersState[k := false];
        }
      case NotAKey =>
    }

    method EventToKeyEvents(event: Event) returns (keyEvents: seq<KeyEvent>)
      requires Valid() && !LongPress(View(), event)
      modifies this`modifiersState, this`toRelease
      ensures Valid() && View() == Next(old(View()), event)
      ensures toRelease ==
        match event.eventType
        case KeyPress(k) => old(toRelease)[k := event]
        case KeyRelease(k) => old(toRelease) - {k}
        case NotAKey => old(toRelease)
      ensures keyEvents == MapKeyboardMode(event, table)
      ensures keyEvents == if event.eventType.NotAKey? || event.code !in table then []
                           else [KeyEvent(event.eventType.KeyPress?, table[event.code])]
    {
      UpdateModifiersState(event);
      match event.eventType {
        case KeyPress(k) => toRelease := toRelease[k := event];
        case KeyRelease(k) => toRelease := toRelease - {k};
        case NotAKey =>
      }
      keyEvents := MapKeyboardMode(event, table);
    }

    method ProcessEvent(event: Event)
      requires Valid()
      modifies this
      ensures Valid() && View() == Next(old(View()), event)
      ensures sent == old(sent) + Sent(old(View()), event, table)
      ensures sent == old(sent)
           <==> || event.eventType.NotAKey?
                || event.code !in table
                || old(event.eventType.KeyPress? && event.eventType.key in modifiersState
                       && modifiersState[event.eventType.key])
      ensures sent != old(sent) ==> sent == old(sent) + [KeyEvent(event.eventType.KeyPress?, table[event.code])]
      ensures toRelease ==
        if old(event.eventType.KeyPress? && event.eventType.key in modifiersState
               && modifiersState[event.eventType.key]) then old(toRelease)
        else match event.eventType
          case KeyPress(k) => old(toRelease)[k := event]
          case KeyRelease(k) => old(toRelease) - {k}
          case NotAKey => old(toRelease)
    {
      var isLongPress := IsLongPress(event);
      if isLongPress {
        return;
      }
      var keyEvents := EventToKeyEvents(event);
      sent := sent + keyEvents;
    }

    /** The loop body of release_remote_keys. */
    method ReleaseKey(key: Key, code: nat)
      requires Valid() && key !in toRelease
      modifies this
      ensures Valid() && toRelease == old(toRelease)
      ensures View() == Run(old(View()), ReleaseEvents(key, code))
      ensures sent == old(sent) + Wire(old(View()), ReleaseEvents(key, code), table)
      ensures code in table ==>
                var up, down := KeyEvent(false, table[code]), KeyEvent(true, table[code]);
                sent == old(sent) + if key == Alt || key == AltGr then [up, down, up] else [up]
      ensures code !in table ==> sent == old(sent)
    {
      ghost var t := View();
      var up, down := Event(KeyRelease(key), code), Event(KeyPress(key), code);
      ProcessEvent(up);
      assert toRelease == old(toRelease);
      if key == Alt || key == AltGr {
        ProcessEvent(down);
        ProcessEvent(up);
        assert toRelease == old(toRelease);
        RunOfThree(t, up, down, up, table);
        assert ReleaseEvents(key, code) == [up, down, up];
      } else {
        RunOfOne(t, up, table);
        assert ReleaseEvents(key, code) == [up];
      }
    }

    /** The map is walked in an arbitrary order, reported in `order`. */
    method ReleaseRemoteKeys() returns (ghost order: seq<Key>)
      requires Valid()
      modifies this
      ensures Valid()
      ensures Lists(order, old(toRelease.Keys))
      ensures toRelease == map[]
      ensures View() == Run(Tables({}, old(View()).modifiers), ReleaseAll(order, old(toRelease)))
      ensures sent == old(sent) + AllStrokes(order, old(toRelease), table)
    {
      var stored, rest := toRelease, toRelease.Keys;
      ghost var t0 := Tables({}, View().modifiers);
      order := [];
      toRelease := map[];
      while rest != {}
        invariant Valid() && toRelease == map[]
        invariant rest <= stored.Keys
        invariant Lists(order, stored.Keys - rest)
        invariant View() == Run(t0, ReleaseAll(order, stored))
        invariant sent == old(sent) + Wire(t0, ReleaseAll(order, stored), table)
        decreases rest
      {
        var key :| key in rest;
        ghost var t := View();
        ReleaseKey(key, stored[key].code);
        DrainSnoc(t0, order, key, stored, table);
        Regroup(old(sent), Wire(t0, ReleaseAll(order, stored), table),
                Wire(t, ReleaseEvents(key, stored[key].code), table));
        ListsNext(order, stored.Keys, rest, key);
        order, rest := order + [key], rest - {key};
      }
      DrainRun(order, stored, t0.modifiers, table);
    }
  }

  lemma {:induction false} ReleaseAllSnoc(order: seq<Key>, key: Key, stored: map<Key, Event>)
    requires forall k | k in order + [key] :: k in stored
    ensures forall k | k in order :: k in stored
    ensures key in stored
    ensures ReleaseAll(order + [key], stored) == ReleaseAll(order, stored) + ReleaseEvents(key, stored[key].code)
  {
    assert key in order + [key];
    if order == [] {
      assert [key][1..] == [];
    } else {
      assert forall k | k in order[1..] + [key] :: k in order + [key];
      ReleaseAllSnoc(order[1..], key, stored);
      assert (order + [key])[1..] == order[1..] + [key];
    }
  }

  lemma DrainSnoc(t: Tables, order: seq<Key>, key: Key, stored: map<Key, Event>, table: Table)
    requires forall k | k in order :: k in stored
    requires key in stored
    ensures forall k | k in order + [key] :: k in stored
    ensures var before, more := ReleaseAll(order, stored), ReleaseEvents(key, stored[key].code);
            var after := ReleaseAll(order + [key], stored);
            && Run(t, after) == Run(Run(t, before), more)
            && Wire(t, after, table) == Wire(t, before, table) + Wire(Run(t, before), more, table)
  {
    ReleaseAllSnoc(order, key, stored);
    RunConcat(t, ReleaseAll(order, stored), ReleaseEvents(key, stored[key].code), table);
  }
}
