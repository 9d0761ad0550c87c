/** The registry of peer sessions, each shared by one or more UI sessions, and the set of displays a
    peer is asked to capture.

    Seen from outside, the registry is a map from UI session ids to the peer session they belong to
    (`owner`): a peer session exists as long as somebody owns it.  The class `Sessions` keeps the two-level
    table of the code and is proved to refine that map. */
module UiSessions {
  import opened Options

  type SessionId = nat

  type Display = int

  datatype ConnType = DefaultConn | FileTransfer | ViewCamera | Terminal | PortForward | Rdp

  datatype PeerKey = PeerKey(peerId: string, conn: ConnType)

  // ---------- Renderers ----------

  datatype DisplayInfo = DisplayInfo(texturePtr: nat, gpuPtr: nat, width: nat, height: nat)

  /** map_display_sessions: the displays a UI session shows. */
  type Renderer = map<Display, DisplayInfo>

  function SetSize(m: Renderer, d: Display, width: nat, height: nat): Renderer {
    if d in m then m[d := m[d].(width := width, height := height)] else m[d := DisplayInfo(0, 0, width, height)]
  }

  function RegisterTexture(m: Renderer, d: Display, ptr: nat): Renderer {
    if ptr == 0 then
      if d in m && m[d].gpuPtr != 0 then m[d := m[d].(texturePtr := 0)] else m - {d}
    else if d in m then m[d := m[d].(texturePtr := ptr)]
    else m[d := DisplayInfo(ptr, 0, 0, 0)]
  }

  function RegisterGpuOutput(m: Renderer, d: Display, ptr: nat): Renderer {
    if ptr == 0 then
      if d in m && m[d].texturePtr != 0 then m[d := m[d].(gpuPtr := 0)] else m - {d}
    else if d in m then m[d := m[d].(gpuPtr := ptr)]
    else m[d := DisplayInfo(0, ptr, 0, 0)]
  }

  /** A display goes away exactly when its second output is unregistered, whichever comes first, and
      nobody else's entry is touched. */
  lemma UnregisterInAnyOrder(m: Renderer, d: Display)
    ensures RegisterGpuOutput(RegisterTexture(m, d, 0), d, 0) == m - {d}
    ensures RegisterTexture(RegisterGpuOutput(m, d, 0), d, 0) == m - {d}
    ensures d in RegisterTexture(m, d, 0) <==> d in m && m[d].gpuPtr != 0
    ensures d in RegisterGpuOutput(m, d, 0) <==> d in m && m[d].texturePtr != 0
  {
    var t, g := RegisterTexture(m, d, 0), RegisterGpuOutput(m, d, 0);
    assert t - {d} == m - {d} && g - {d} == m - {d};
    assert d !in m ==> m - {d} == m;
  }

  /** Setting a size or registering an output changes just that of just that display, which is added with nothing
      else if it was not there; unregistering one of two outputs leaves the other. */
  lemma RendererUpdates(m: Renderer, d: Display, width: nat, height: nat, ptr: nat)
    requires ptr != 0
    ensures var was := if d in m then m[d] else DisplayInfo(0, 0, 0, 0);
            && SetSize(m, d, width, height) == m[d := DisplayInfo(was.texturePtr, was.gpuPtr, width, height)]
            && RegisterTexture(m, d, ptr) == m[d := DisplayInfo(ptr, was.gpuPtr, was.width, was.height)]
            && RegisterGpuOutput(m, d, ptr) == m[d := DisplayInfo(was.texturePtr, ptr, was.width, was.height)]
    ensures d in m && m[d].gpuPtr != 0 ==>
              RegisterTexture(m, d, 0) == m[d := DisplayInfo(0, m[d].gpuPtr, m[d].width, m[d].height)]
    ensures d in m && m[d].texturePtr != 0 ==>
              RegisterGpuOutput(m, d, 0) == m[d := DisplayInfo(m[d].texturePtr, 0, m[d].width, m[d].height)]
  {
  }

  // ---------- Sessions ----------

  datatype Handler = Handler(displays: seq<Display>, renderer: Renderer)

  const NEW_HANDLER := Handler([], map[])

  /** What a peer session does on behalf of the registry. */
  datatype Effect =
    | SwitchDisplay(display: Display)
    | CaptureDisplays(displays: set<Display>)
    | NextRgba(display: Display)
    | RefreshVideo(display: Display)

  datatype Session = Session(handlers: map<SessionId, Handler>, effects: seq<Effect>)

  /** The displays still needed when `id` leaves or moves to `current`: whatever any other UI session
      renders, and `current`. */
  ghost function Needed(current: Option<Display>, id: SessionId, handlers: map<SessionId, Handler>): set<Display> {
    Rendered(handlers, handlers.Keys, id) + if current.Some? then {current.value} else {}
  }

  /** The displays rendered by the UI sessions among `keys`, `id` excepted. */
  ghost function Rendered(handlers: map<SessionId, Handler>, keys: set<SessionId>, id: SessionId): set<Display> {
    set k, d | k in keys && k in handlers && k != id && d in handlers[k].renderer :: d
  }

  lemma RenderedAdd(handlers: map<SessionId, Handler>, keys: set<SessionId>, id: SessionId, k: SessionId)
    requires k in handlers
    ensures Rendered(handlers, keys + {k}, id)
         == Rendered(handlers, keys, id) + if k != id then handlers[k].renderer.Keys else {}
  {
    var mine: set<Display> := if k != id then handlers[k].renderer.Keys else {};
    forall d ensures d in Rendered(handlers, keys + {k}, id) <==> d in Rendered(handlers, keys, id) || d in mine {
      if d in Rendered(handlers, keys + {k}, id) {
        var j :| j in keys + {k} && j in handlers && j != id && d in handlers[j].renderer;
      }
      if d in Rendered(handlers, keys, id) {
        var j :| j in keys && j in handlers && j != id && d in handlers[j].renderer;
        assert j in keys + {k};
      }
      if d in mine {
        assert k in keys + {k};
      }
    }
  }

  ghost function Capture(displays: set<Display>): seq<Effect> {
    if displays == {} then [] else [CaptureDisplays(displays)]
  }

  method CheckRemoveUnusedDisplays(
    current: Option<Display>, id: SessionId, handlers: map<SessionId, Handler>) returns (effects: seq<Effect>)
    ensures effects == Capture(Needed(current, id, handlers))
  {
    var remains: set<Display> := if current.Some? then {current.value} else {};
    var rest := handlers.Keys;
    while rest != {}
      invariant rest <= handlers.Keys
      invariant remains == Rendered(handlers, handlers.Keys - rest, id) + if current.Some? then {current.value} else {}
      decreases rest
    {
      var k :| k in rest;
      RenderedAdd(handlers, handlers.Keys - rest, id, k);
      assert handlers.Keys - rest + {k} == handlers.Keys - (rest - {k});
      rest := rest - {k};
      if k != id {
        remains := remains + handlers[k].renderer.Keys;
      }
    }
    assert handlers.Keys - {} == handlers.Keys;
    effects := if remains != {} then [CaptureDisplays(remains)] else [];
  }

  function Elements(value: seq<Display>): set<Display> {
    set i | 0 <= i < |value| :: value[i]
  }

  function Refreshes(value: seq<Display>): seq<Effect> {
    seq(|value|, i requires 0 <= i < |value| => RefreshVideo(value[i]))
  }

  /** What switching a UI session to `value` makes the peer session do. */
  ghost function SwitchEffects(
    isDesktop: bool, textureRender: bool, multiUi: bool, id: SessionId, value: seq<Display>,
    handlers: map<SessionId, Handler>): seq<Effect>
  {
    (if |value| == 1 then
       [SwitchDisplay(value[0])]
       + (if textureRender then [] else [CaptureDisplays({value[0]})])
       + [NextRgba(value[0])]
       + if isDesktop then Capture(Needed(Some(value[0]), id, handlers)) else [CaptureDisplays(Elements(value))]
     else [CaptureDisplays(Elements(value))])
    + if multiUi then Refreshes(value) else []
  }

  /** A switch to one display tells the peer, frees its frame and captures it, with whatever others render if it is a
      desktop session's; any other switch captures the new displays; then all of them are refreshed. */
  lemma SwitchMessages(
    isDesktop: bool, textureRender: bool, multiUi: bool, id: SessionId, value: seq<Display>,
    handlers: map<SessionId, Handler>)
    ensures var effects := SwitchEffects(isDesktop, textureRender, multiUi, id, value, handlers);
            var all := seq(|value|, i requires 0 <= i < |value| => RefreshVideo(value[i]));
            var refreshes := if multiUi then all else [];
            var others := set k, d | k in handlers && k != id && d in handlers[k].renderer :: d;
            if |value| == 1 then
              var v := value[0];
              effects == [SwitchDisplay(v)] + (if textureRender then [] else [CaptureDisplays({v})]) + [NextRgba(v)]
                         + [CaptureDisplays(if isDesktop then others + {v} else {v})] + refreshes
            else effects == [CaptureDisplays(set d | d in value)] + refreshes
  {
    assert Elements(value) == set d | d in value;
    if |value| == 1 {
      var v := value[0];
      assert value == [v] && Elements(value) == {v};
      assert v in Needed(Some(v), id, handlers);
      assert Needed(Some(v), id, handlers)
          == (set k, d | k in handlers && k != id && d in handlers[k].renderer :: d) + {v};
    }
  }

  method RequestDisplays(
    isDesktop: bool, textureRender: bool, multiUi: bool, id: SessionId, value: seq<Display>,
    handlers: map<SessionId, Handler>) returns (effects: seq<Effect>)
    ensures effects == SwitchEffects(isDesktop, textureRender, multiUi, id, value, handlers)
  {
    if |value| == 1 {
      effects := [SwitchDisplay(value[0])];
      assert effects + [] == effects;
      if !textureRender {
        effects := effects + [CaptureDisplays({value[0]})];
      }
      effects := effects + [NextRgba(value[0])];
      if !isDesktop {
        effects := effects + [CaptureDisplays(Elements(value))];
      } else {
        var capture := CheckRemoveUnusedDisplays(Some(value[0]), id, handlers);
        effects := effects + capture;
      }
    } else {
      effects := [CaptureDisplays(Elements(value))];
    }
    assert effects + [] == effects;
    if multiUi {
      effects := effects + Refreshes(value);
    }
  }

  // ---------- The registry as an ownership map ----------

  type Owner = map<SessionId, PeerKey>

  datatype Op =
    | Add(id: SessionId, key: PeerKey)         // session_add
    | AddExisted(id: SessionId, key: PeerKey)  // session_add_existed
    | Close(id: SessionId)                     // session_close

  /** session_add checks that the id is new; nobody checks for session_add_existed. */
  ghost predicate Fresh(owner: Owner, op: Op) {
    op.AddExisted? ==> op.id !in owner || op.key !in owner.Values || owner[op.id] == op.key
  }

  ghost function Apply(owner: Owner, op: Op): Owner {
    match op
    case Add(id, key) => if id in owner then owner else owner[id := key]
    case AddExisted(id, key) => if key in owner.Values then owner[id := key] else owner
    case Close(id) => owner - {id}
  }

  /** The peer connection opened, or closed, by a step. */
  ghost predicate Opens(owner: Owner, op: Op, k: PeerKey) {
    op.Add? && op.key == k && op.id !in owner && k !in owner.Values
  }

  ghost predicate Closes(owner: Owner, op: Op, k: PeerKey) {
    op.Close? && op.id in owner && owner[op.id] == k && k !in (owner - {op.id}).Values
  }

  /** A connection is opened by adding the first UI session of its peer, and closed when the last one closes. */
  lemma OpensAndClosesMeaning(owner: Owner, id: SessionId, key: PeerKey, k: PeerKey)
    ensures Opens(owner, Add(id, key), k)
       <==> k == key && id !in owner && forall other | other in owner :: owner[other] != k
    ensures !Opens(owner, AddExisted(id, key), k) && !Opens(owner, Close(id), k)
    ensures Closes(owner, Close(id), k)
       <==> id in owner && owner[id] == k && forall other | other in owner && other != id :: owner[other] != k
    ensures !Closes(owner, Add(id, key), k) && !Closes(owner, AddExisted(id, key), k)
  {
    var after := owner - {id};
    if other :| other in owner && other != id && owner[other] == k {
      assert after[other] == k;
    }
  }

  ghost function Run(owner: Owner, ops: seq<Op>): Owner
    decreases ops
  {
    if ops == [] then owner else Run(Apply(owner, ops[0]), ops[1..])
  }

  ghost predicate AllFresh(owner: Owner, ops: seq<Op>)
    decreases ops
  {
    ops == [] || (Fresh(owner, ops[0]) && AllFresh(Apply(owner, ops[0]), ops[1..]))
  }

  ghost function CountOpens(owner: Owner, ops: seq<Op>, k: PeerKey): nat
    decreases ops
  {
    if ops == [] then 0
    else (if Opens(owner, ops[0], k) then 1 else 0) + CountOpens(Apply(owner, ops[0]), ops[1..], k)
  }

  ghost function CountCloses(owner: Owner, ops: seq<Op>, k: PeerKey): nat
    decreases ops
  {
    if ops == [] then 0
    else (if Closes(owner, ops[0], k) then 1 else 0) + CountCloses(Apply(owner, ops[0]), ops[1..], k)
  }

  ghost function Open(owner: Owner, k: PeerKey): nat {
    if k in owner.Values then 1 else 0
  }

  lemma StepBalance(owner: Owner, op: Op, k: PeerKey)
    requires Fresh(owner, op)
    ensures Open(owner, k) + (if Opens(owner, op, k) then 1 else 0)
         == Open(Apply(owner, op), k) + (if Closes(owner, op, k) then 1 else 0)
  {
    var after := Apply(owner, op);
    match op
    case Add(id, key) =>
      if id !in owner {
        ValuesAfterUpdate(owner, id, key, k);
      }
    case AddExisted(id, key) =>
      if key in owner.Values {
        if id in owner {
          assert owner[id := key] == owner;
        } else {
          ValuesAfterUpdate(owner, id, key, k);
        }
      }
    case Close(id) =>
      if k in after.Values {
        var s :| s in after && after[s] == k;
        assert owner[s] == k;
      }
      if k in owner.Values && !(id in owner && owner[id] == k) {
        var s :| s in owner && owner[s] == k;
        assert after[s] == k;
      }
  }

  lemma ValuesAfterUpdate(owner: Owner, id: SessionId, key: PeerKey, k: PeerKey)
    requires id !in owner
    ensures k in owner[id := key].Values <==> k == key || k in owner.Values
  {
    var after := owner[id := key];
    assert after[id] == key;
    if k in owner.Values {
      var s :| s in owner && owner[s] == k;
      assert after[s] == k;
    }
    if k in after.Values && k != key {
      var s :| s in after && after[s] == k;
      assert owner[s] == k;
    }
  }

  /** Over every run with fresh ids, each peer connection is closed exactly as often as it was opened,
      but for the one still registered: never twice, and never while a UI session is left. */
  lemma {:induction false} OpensBalanceCloses(owner: Owner, ops: seq<Op>, k: PeerKey)
    requires AllFresh(owner, ops)
    ensures Open(owner, k) + CountOpens(owner, ops, k) == Open(Run(owner, ops), k) + CountCloses(owner, ops, k)
    decreases ops
  {
    if ops != [] {
      StepBalance(owner, ops[0], k);
      OpensBalanceCloses(Apply(owner, ops[0]), ops[1..], k);
    }
  }

  // ---------- The two-level table ----------

  type Table = map<PeerKey, Session>

  /** Every peer session has a UI session, and no id belongs to two. */
  ghost predicate WellFormed(t: Table) {
    && (forall k | k in t :: t[k].handlers != map[])
    && (forall j, k, id | j in t && k in t && id in t[j].handlers && id in t[k].handlers :: j == k)
  }

  ghost predicate Refines(t: Table, owner: Owner) {
    && (forall k | k in t :: t[k].handlers != map[])
    && (forall id, k :: (k in t && id in t[k].handlers) <==> (id in owner && owner[id] == k))
  }

  lemma RefinesWellFormed(t: Table, owner: Owner)
    requires Refines(t, owner)
    ensures WellFormed(t)
    ensures forall k :: k in t <==> k in owner.Values
  {
    forall j, k, id | j in t && k in t && id in t[j].handlers && id in t[k].handlers ensures j == k {
      assert owner[id] == j && owner[id] == k;
    }
    forall k | k in t ensures k in owner.Values {
      var id :| id in t[k].handlers;
      assert owner[id] == k;
    }
    forall k | k in owner.Values ensures k in t {
      var id :| id in owner && owner[id] == k;
    }
  }

  ghost function AfterInsertPeer(t: Table, key: PeerKey, id: SessionId, h: Handler): Table {
    if key in t then t[key := t[key].(handlers := t[key].handlers[id := h])] else t
  }

  /** insert_peer_session_id keeps the table well formed exactly when the id is not in use by another
      peer session, or there is no peer session to join. */
  lemma InsertPeerIff(t: Table, key: PeerKey, id: SessionId, h: Handler)
    requires WellFormed(t)
    ensures WellFormed(AfterInsertPeer(t, key, id, h))
       <==> key !in t || forall k | k in t && id in t[k].handlers :: k == key
  {
    if key in t {
      var after := AfterInsertPeer(t, key, id, h);
      assert id in after[key].handlers;
      forall k | k in t && k != key ensures after[k] == t[k] {}
      if WellFormed(after) {
        forall k | k in t && id in t[k].handlers ensures k == key {
          assert id in after[k].handlers;
        }
      }
    }
  }

  // ---------- The imperative code ----------

  class Sessions {
    var table: Table
    var closed: seq<PeerKey>
    ghost var owner: Owner

    ghost predicate Valid()
      reads this
    {
      Refines(table, owner)
    }

    constructor ()
      ensures Valid() && owner == map[] && closed == []
    {
      table, closed, owner := map[], [], map[];
    }

    method GetSessionBySessionId(id: SessionId) returns (found: Option<PeerKey>)
      requires Valid()
      ensures found == if id in owner then Some(owner[id]) else None
    {
      assert id in owner ==> owner[id] in table && id in table[owner[id]].handlers;
      if k :| k in table && id in table[k].handlers {
        assert owner[id] == k;
        return Some(k);
      }
      return None;
    }

    method GetPeerIdBySessionId(id: SessionId, conn: ConnType) returns (found: Option<string>)
      requires Valid()
      ensures found == if id in owner && owner[id].conn == conn then Some(owner[id].peerId) else None
    {
      assert id in owner ==> owner[id] in table && id in table[owner[id]].handlers;
      if k :| k in table && k.conn == conn && id in table[k].handlers {
        assert owner[id] == k;
        return Some(k.peerId);
      }
      return None;
    }

    method SessionAdd(id: SessionId, key: PeerKey) returns (ok: bool)
      requires Valid()
      modifies this`table, this`owner
      ensures Valid()
      ensures owner == Apply(old(owner), Add(id, key))
      ensures ok <==> id !in old(owner)
      ensures owner == if ok then old(owner)[id := key] else old(owner)
      ensures !ok ==> table == old(table)
    {
      var found := GetSessionBySessionId(id);
      if found.Some? {
        return false;
      }
      InsertSession(id, key);
      return true;
    }

    /** entry(key).or_insert(session), then a default handler for `id`. */
    method InsertSession(id: SessionId, key: PeerKey)
      requires Valid() && id !in owner
      modifies this`table, this`owner
      ensures Valid()
      ensures owner == old(owner)[id := key]
      ensures key in table && table == old(table)[key := table[key]]
      ensures table[key] ==
        var session := if key in old(table) then old(table)[key] else Session(map[], []);
        session.(handlers := session.handlers[id := Handler([], map[])])
    {
      var session := if key in table then table[key] else Session(map[], []);
      RefinesInsert(table, owner, id, key, session.handlers[id := NEW_HANDLER], session.effects);
      table := table[key := session.(handlers := session.handlers[id := NEW_HANDLER])];
      owner := owner[id := key];
    }

    /** session_add_existed: join the peer session if there is one. */
    method InsertPeerSessionId(key: PeerKey, id: SessionId, displays: seq<Display>) returns (ok: bool)
      requires Valid()
      modifies this`table, this`owner
      ensures ok <==> key in old(table)
      ensures old(Fresh(owner, AddExisted(id, key))) ==> Valid()
      ensures owner == old(Apply(owner, AddExisted(id, key)))
      ensures owner == if ok then old(owner)[id := key] else old(owner)
      ensures table ==
        if !ok then old(table)
        else
          var session := old(table)[key];
          old(table)[key := Session(session.handlers[id := Handler(displays, map[])],
                                    session.effects + if |displays| == 1 then [NextRgba(displays[0])] else [])]
    {
      RefinesWellFormed(table, owner);
      if key !in table {
        return false;
      }
      var session := table[key];
      var effects := if |displays| == 1 then [NextRgba(displays[0])] else [];
      if id !in owner || owner[id] == key {
        RefinesInsert(
          table, owner, id, key, session.handlers[id := Handler(displays, map[])], session.effects + effects);
      }
      table := table[key := Session(session.handlers[id := Handler(displays, map[])], session.effects + effects)];
      owner := owner[id := key];
      return true;
    }

    /** Returns the peer session, now removed from the registry, exactly when `id` was its last UI
        session; otherwise the displays only `id` needed are dropped. */
    method RemoveSessionBySessionId(id: SessionId) returns (removed: Option<PeerKey>)
      requires Valid()
      modifies this`table, this`owner
      ensures Valid()
      ensures owner == old(owner) - {id}
      ensures forall k :: removed == Some(k) <==> old(Closes(owner, Close(id), k))
      ensures forall k :: removed == Some(k) <==>
                id in old(owner) && old(owner)[id] == k && forall other | other in old(owner) && other != id ::
                  old(owner)[other] != k
      ensures id in old(owner) && removed.None? ==>
                var k := old(owner)[id];
                var session := old(table)[k];
                var handlers := session.handlers - {id};
                table == old(table)[k := Session(handlers, session.effects + Capture(Needed(None, id, handlers)))]
      ensures removed.Some? ==> table == old(table) - {removed.value}
      ensures id !in old(owner) ==> table == old(table)
    {
      forall k {
        OpensAndClosesMeaning(owner, id, k, k);
      }
      RefinesWellFormed(table, owner);
      var found := GetSessionBySessionId(id);
      match found {
        case None =>
          assert owner - {id} == owner;
          removed := None;
        case Some(k) =>
          var handlers := table[k].handlers - {id};
          LastLeaves(table, owner, id, k);
          assert id in owner && owner[id] == k;
          if handlers == map[] {
            RefinesRemoveLast(table, owner, id, k);
            table := table - {k};
            removed := Some(k);
          } else {
            var effects := CheckRemoveUnusedDisplays(None, id, handlers);
            RefinesRemove(table, owner, id, k, table[k].effects + effects);
            table := table[k := Session(handlers, table[k].effects + effects)];
            removed := None;
          }
          owner := owner - {id};
      }
    }

    /** session_close closes the connection only with its last UI session. */
    method SessionClose(id: SessionId)
      requires Valid()
      modifies this
      ensures Valid()
      ensures owner == Apply(old(owner), Close(id)) && owner == old(owner) - {id}
      ensures closed == old(closed)
                || (id in old(owner) && closed == old(closed) + [old(owner)[id]])
      ensures forall k :: old(Closes(owner, Close(id), k)) <==> closed == old(closed) + [k]
      ensures closed != old(closed) <==>
                id in old(owner) && forall other | other in old(owner) && other != id ::
                  old(owner)[other] != old(owner)[id]
    {
      var removed := RemoveSessionBySessionId(id);
      ghost var before := closed;
      if removed.Some? {
        closed := closed + [removed.value];
      }
      forall k: PeerKey ensures closed == before + [k] <==> removed == Some(k) {
        assert (before + [k])[|before|] == k;
      }
    }

    /** A UI session shows `value` from now on. */
    method SessionSwitchDisplay(
      isDesktop: bool, textureRender: bool, multiUi: bool, id: SessionId, value: seq<Display>)
      requires Valid()
      modifies this`table
      ensures Valid()
      ensures id !in owner ==> table == old(table)
      ensures id in owner ==>
                var session := old(table)[owner[id]];
                var handlers := session.handlers[id := session.handlers[id].(displays := value)];
                table == old(table)[owner[id] := Session(handlers,
                  session.effects + SwitchEffects(isDesktop, textureRender, multiUi, id, value, handlers))]
    {
      var found := GetSessionBySessionId(id);
      if found.None? {
        return;
      }
      var k := found.value;
      var session := table[k];
      var handlers := session.handlers[id := session.handlers[id].(displays := value)];
      var effects := RequestDisplays(isDesktop, textureRender, multiUi, id, value, handlers);
      table := table[k := Session(handlers, session.effects + effects)];
    }

    /** session_set_size: also adds the display to those the UI session shows. */
    method SessionSetSize(id: SessionId, display: Display, width: nat, height: nat)
      requires Valid()
      modifies this`table
      ensures Valid()
      ensures table == old(WithSize(table, owner, id, display, width, height))
      ensures id !in owner ==> table == old(table)
      ensures id in owner ==>
                var session := old(table)[owner[id]];
                var h := session.handlers[id];
                var was := if display in h.renderer then h.renderer[display] else DisplayInfo(0, 0, 0, 0);
                table == old(table)[owner[id] := session.(handlers := session.handlers[id :=
                  Handler(if display in h.displays then h.displays else h.displays + [display],
                          h.renderer[display := DisplayInfo(was.texturePtr, was.gpuPtr, width, height)])])]
    {
      var found := GetSessionBySessionId(id);
      if found.Some? {
        var session := table[found.value];
        var h := session.handlers[id];
        if display !in h.displays {
          h := h.(displays := h.displays + [display]);
        }
        h := h.(renderer := SetSize(h.renderer, display, width, height));
        table := table[found.value := session.(handlers := session.handlers[id := h])];
      }
    }
  }

  /** The table after one UI session learned the size of a display. */
  ghost function WithSize(t: Table, owner: Owner, id: SessionId, d: Display, width: nat, height: nat): Table
    requires Refines(t, owner)
  {
    if id !in owner then t
    else
      var session := t[owner[id]];
      var h := session.handlers[id];
      var displays := if d in h.displays then h.displays else h.displays + [d];
      var handler := Handler(displays, SetSize(h.renderer, d, width, height));
      t[owner[id] := session.(handlers := session.handlers[id := handler])]
  }

  lemma LastLeaves(t: Table, owner: Owner, id: SessionId, k: PeerKey)
    requires Refines(t, owner) && id in owner && owner[id] == k
    ensures t[k].handlers - {id} == map[] <==> k !in (owner - {id}).Values
  {
    var after := owner - {id};
    if k in after.Values {
      var s :| s in after && after[s] == k;
      assert s in t[k].handlers - {id};
    }
    if t[k].handlers - {id} != map[] {
      var s :| s in t[k].handlers - {id};
      assert after[s] == k;
    }
  }

  lemma RefinesInsert(
    t: Table, owner: Owner, id: SessionId, key: PeerKey, handlers: map<SessionId, Handler>, effects: seq<Effect>)
    requires Refines(t, owner) && (id in owner ==> owner[id] == key)
    requires id in handlers
    requires handlers.Keys == (if key in t then t[key].handlers.Keys else {}) + {id}
    ensures Refines(t[key := Session(handlers, effects)], owner[id := key])
  {
    var after := t[key := Session(handlers, effects)];
    forall s, k
      ensures (k in after && s in after[k].handlers) <==> (s in owner[id := key] && owner[id := key][s] == k)
    {
      if k == key {
        assert s in handlers <==> s == id || (key in t && s in t[key].handlers);
      }
    }
  }

  lemma RefinesRemoveLast(t: Table, owner: Owner, id: SessionId, k: PeerKey)
    requires Refines(t, owner) && id in owner && owner[id] == k
    requires t[k].handlers - {id} == map[]
    ensures Refines(t - {k}, owner - {id})
  {
    assert forall s | s in t[k].handlers && s != id :: s in t[k].handlers - {id};
  }

  lemma RefinesRemove(t: Table, owner: Owner, id: SessionId, k: PeerKey, effects: seq<Effect>)
    requires Refines(t, owner) && id in owner && owner[id] == k
    requires t[k].handlers - {id} != map[]
    ensures Refines(t[k := Session(t[k].handlers - {id}, effects)], owner - {id})
  {
  }

  // ---------- What is captured ----------

  /** When a UI session leaves, or a desktop one moves to a single display, the last capture request
      covers every display another UI session renders and the newly selected one, and nothing else;
      there is none only if no display is needed. */
  lemma CaptureIsUnion(current: Option<Display>, id: SessionId, handlers: map<SessionId, Handler>, d: Display)
    ensures (exists i | 0 <= i < |Capture(Needed(current, id, handlers))| ::
               && Capture(Needed(current, id, handlers))[i].CaptureDisplays?
               && d in Capture(Needed(current, id, handlers))[i].displays)
       <==> current == Some(d) || exists k | k in handlers && k != id :: d in handlers[k].renderer
  {
    var needed := Needed(current, id, handlers);
    if d in needed {
      assert Capture(needed)[0].displays == needed;
    }
  }

  /** The capture request in force after some effects. */
  function LastCapture(effects: seq<Effect>): Option<set<Display>> {
    if effects == [] then None
    else
      var last := effects[|effects| - 1];
      if last.CaptureDisplays? then Some(last.displays) else LastCapture(effects[..|effects| - 1])
  }

  lemma {:induction false} LastCaptureConcat(a: seq<Effect>, b: seq<Effect>)
    ensures LastCapture(a + b) == if LastCapture(b).Some? then LastCapture(b) else LastCapture(a)
  {
    if b == [] {
      assert a + b == a;
    } else {
      assert (a + b)[..|a + b| - 1] == a + b[..|b| - 1];
      LastCaptureConcat(a, b[..|b| - 1]);
    }
  }

  lemma {:induction false} NoCapture(effects: seq<Effect>)
    requires forall i | 0 <= i < |effects| :: !effects[i].CaptureDisplays?
    ensures LastCapture(effects).None?
  {
    if effects != [] {
      NoCapture(effects[..|effects| - 1]);
    }
  }

  /** What is captured after a switch. */
  lemma CapturedBySwitch(
    isDesktop: bool, textureRender: bool, multiUi: bool, id: SessionId, value: seq<Display>,
    handlers: map<SessionId, Handler>)
    ensures LastCapture(SwitchEffects(isDesktop, textureRender, multiUi, id, value, handlers))
         == Some(if isDesktop && |value| == 1 then Needed(Some(value[0]), id, handlers) else Elements(value))
  {
    var refreshes := if multiUi then Refreshes(value) else [];
    NoCapture(refreshes);
    if |value| == 1 {
      var head := [SwitchDisplay(value[0])] + (if textureRender then [] else [CaptureDisplays({value[0]})])
                  + [NextRgba(value[0])];
      var needed := Needed(Some(value[0]), id, handlers);
      assert value[0] in needed;
      var capture := [CaptureDisplays(if isDesktop then needed else Elements(value))];
      LastCaptureConcat(head, capture);
      LastCaptureConcat(head + capture, refreshes);
    } else {
      LastCaptureConcat([CaptureDisplays(Elements(value))], refreshes);
    }
  }

  /** A switch leaves every display that another UI session renders captured if and only if it is a desktop
      session's switch to a single display, or the new displays include them. */
  lemma OthersStayCapturedIff(
    isDesktop: bool, textureRender: bool, multiUi: bool, id: SessionId, value: seq<Display>,
    handlers: map<SessionId, Handler>)
    ensures var captured := LastCapture(SwitchEffects(isDesktop, textureRender, multiUi, id, value, handlers));
            && captured.Some?
            && Elements(value) <= captured.value
            && ((forall other | other in handlers && other != id :: handlers[other].renderer.Keys <= captured.value)
                <==> (isDesktop && |value| == 1)
                     || forall other | other in handlers && other != id ::
                          handlers[other].renderer.Keys <= Elements(value))
  {
    CapturedBySwitch(isDesktop, textureRender, multiUi, id, value, handlers);
    if isDesktop && |value| == 1 {
      forall other | other in handlers && other != id
        ensures handlers[other].renderer.Keys <= Needed(Some(value[0]), id, handlers)
      {
        forall d | d in handlers[other].renderer ensures d in Needed(Some(value[0]), id, handlers) {}
      }
    }
  }

  /** One UI session renders display 5, another is switched to displays 0 and 1: display 5 is gone. */
  lemma SwitchTakesDisplay(isDesktop: bool, textureRender: bool, multiUi: bool, info: DisplayInfo)
    ensures var handlers := map[1 := Handler([5], map[5 := info]), 2 := Handler([0, 1], map[])];
            LastCapture(SwitchEffects(isDesktop, textureRender, multiUi, 2, [0, 1], handlers)) == Some({0, 1})
  {
    var handlers := map[1 := Handler([5], map[5 := info]), 2 := Handler([0, 1], map[])];
    CapturedBySwitch(isDesktop, textureRender, multiUi, 2, [0, 1], handlers);
    assert [0, 1][0] == 0 && [0, 1][1] == 1;
    assert Elements([0, 1]) == {0, 1};
  }
}
