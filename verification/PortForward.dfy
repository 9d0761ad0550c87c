/** The port-forward tunnel: log in to the peer while buffering what the local client already sends, then
    relay raw bytes both ways.

    The loops of the code wait on several sources at once; a run is therefore any sequence of events from
    those sources.  `Next` is one turn of either loop. */
module PortForward {
  import opened Basics
  import opened Bytes

  /** A message of the login protocol; `reply` is what is sent back. */
  datatype LoginMessage =
    | Hash(reply: nat)
    | LoginError(retry: bool)
    | PeerInfo
    | TestDelay(reply: nat)
    | OtherMessage
    | Malformed

  /** `sent` says whether the send that the event triggers succeeds; failures are logged and ignored. */
  datatype Event =
    | FromPeer(message: LoginMessage, raw: seq<byte>, sent: bool)
    | PeerTimeout
    | PeerEnd
    | FromUi(request: nat, sent: bool)
    | FromLocal(chunk: seq<byte>, sent: bool)
    | LocalEnd

  datatype Packet = Framed(message: nat) | Raw(bytes: seq<byte>)

  datatype Phase = Login(buffer: seq<byte>) | Forwarding | Ended | Failed

  datatype State = State(phase: Phase, toPeer: seq<Packet>, toLocal: seq<byte>)

  const START := State(Login([]), [], [])

  function Send(s: State, p: Packet, sent: bool): State {
    if sent then s.(toPeer := s.toPeer + [p]) else s
  }

  function LoginStep(s: State, e: Event): State
    requires s.phase.Login?
  {
    match e
    case FromPeer(Hash(reply), _, sent) => Send(s, Framed(reply), sent)
    case FromPeer(TestDelay(reply), _, sent) => Send(s, Framed(reply), sent)
    case FromPeer(LoginError(retry), _, _) => if retry then s else s.(phase := Failed)
    case FromPeer(PeerInfo, _, sent) =>
      var t := s.(phase := Forwarding);
      if s.phase.buffer == [] then t else Send(t, Raw(s.phase.buffer), sent)
    case FromPeer(OtherMessage, _, _) => s
    case FromPeer(Malformed, _, _) => s.(phase := Failed)
    case PeerTimeout => s.(phase := Failed)
    case PeerEnd => s.(phase := Failed)
    case FromUi(message, sent) => Send(s, Framed(message), sent)
    case FromLocal(chunk, _) => s.(phase := Login(s.phase.buffer + chunk))
    case LocalEnd => s.(phase := Failed)
  }

  function ForwardStep(s: State, e: Event): State
    requires s.phase.Forwarding?
  {
    match e
    case FromLocal(chunk, sent) => Send(s, Raw(chunk), sent)
    case FromPeer(_, raw, sent) => if sent then s.(toLocal := s.toLocal + raw) else s
    case LocalEnd => s.(phase := Ended)
    case PeerEnd => s.(phase := Ended)
    case PeerTimeout => s
    case FromUi(_, _) => s
  }

  function Next(s: State, e: Event): State {
    if s.phase.Login? then LoginStep(s, e) else if s.phase.Forwarding? then ForwardStep(s, e) else s
  }

  function Run(s: State, events: seq<Event>): State
    decreases events
  {
    if events == [] then s else Run(Next(s, events[0]), events[1..])
  }

  lemma {:induction false} RunSnoc(s: State, events: seq<Event>, e: Event)
    ensures Run(s, events + [e]) == Next(Run(s, events), e)
    decreases events
  {
    if events == [] {
      assert [e][1..] == [];
    } else {
      RunSnoc(Next(s, events[0]), events[1..], e);
      assert (events + [e])[1..] == events[1..] + [e];
    }
  }

  // ---------- Stream integrity ----------

  /** The raw bytes on the wire to the peer. */
  function RawBytes(packets: seq<Packet>): seq<byte> {
    if packets == [] then []
    else RawBytes(packets[..|packets| - 1]) + if packets[|packets| - 1].Raw? then packets[|packets| - 1].bytes else []
  }

  lemma RawBytesSnoc(packets: seq<Packet>, p: Packet)
    ensures RawBytes(packets + [p]) == RawBytes(packets) + if p.Raw? then p.bytes else []
  {
    assert (packets + [p])[..|packets|] == packets;
  }

  /** What the tunnel reads from the local client in one step. */
  function LocalRead(s: State, e: Event): seq<byte> {
    if e.FromLocal? && (s.phase.Login? || s.phase.Forwarding?) then e.chunk else []
  }

  function PeerRead(s: State, e: Event): seq<byte> {
    if e.FromPeer? && s.phase.Forwarding? then e.raw else []
  }

  function AllLocalRead(s: State, events: seq<Event>): seq<byte>
    decreases events
  {
    if events == [] then [] else LocalRead(s, events[0]) + AllLocalRead(Next(s, events[0]), events[1..])
  }

  function AllPeerRead(s: State, events: seq<Event>): seq<byte>
    decreases events
  {
    if events == [] then [] else PeerRead(s, events[0]) + AllPeerRead(Next(s, events[0]), events[1..])
  }

  /** The local bytes whose send to the peer fails in this step. */
  function LostToPeer(s: State, e: Event): nat {
    if s.phase.Forwarding? && e.FromLocal? && !e.sent then |e.chunk|
    else if s.phase.Login? && e.FromPeer? && e.message.PeerInfo? && !e.sent then |s.phase.buffer|
    else 0
  }

  function AllLostToPeer(s: State, events: seq<Event>): nat
    decreases events
  {
    if events == [] then 0 else LostToPeer(s, events[0]) + AllLostToPeer(Next(s, events[0]), events[1..])
  }

  /** What is read but still waiting for the login. */
  function Buffered(s: State): seq<byte> {
    if s.phase.Login? then s.phase.buffer else []
  }

  /** What the peer has or will get. */
  function Accepted(s: State): seq<byte> {
    RawBytes(s.toPeer) + Buffered(s)
  }

  ghost predicate AllFramed(packets: seq<Packet>) {
    forall i | 0 <= i < |packets| :: packets[i].Framed?
  }

  /** Before the login completes nothing raw is on the wire. */
  ghost predicate NothingRawYet(s: State) {
    s.phase.Login? || s.phase.Failed? ==> AllFramed(s.toPeer)
  }

  lemma StepKeepsNothingRaw(s: State, e: Event)
    requires NothingRawYet(s)
    ensures NothingRawYet(Next(s, e))
  {
  }

  lemma {:induction false} FramedHasNoRaw(packets: seq<Packet>)
    requires AllFramed(packets)
    ensures RawBytes(packets) == []
  {
    if packets != [] {
      FramedHasNoRaw(packets[..|packets| - 1]);
    }
  }

  lemma SendStreams(s: State, p: Packet, sent: bool)
    ensures RawBytes(Send(s, p, sent).toPeer) == RawBytes(s.toPeer) + if p.Raw? && sent then p.bytes else []
  {
    RawBytesSnoc(s.toPeer, p);
    assert RawBytes(s.toPeer) + [] == RawBytes(s.toPeer);
  }

  lemma AcceptedInLogin(s: State)
    requires s.phase.Login? && NothingRawYet(s)
    ensures Accepted(s) == s.phase.buffer && RawBytes(s.toPeer) == []
  {
    FramedHasNoRaw(s.toPeer);
  }

  lemma LoginCompletes(s: State, sent: bool)
    requires s.phase.Login? && NothingRawYet(s)
    ensures var t := LoginStep(s, FromPeer(PeerInfo, [], sent));
            Accepted(t) == if sent then s.phase.buffer else []
  {
    AcceptedInLogin(s);
    var t := LoginStep(s, FromPeer(PeerInfo, [], sent));
    SendStreams(s.(phase := Forwarding), Raw(s.phase.buffer), sent);
    assert Accepted(t) == RawBytes(t.toPeer);
    assert [] + s.phase.buffer == s.phase.buffer;
  }

  lemma LoginStreams(s: State, e: Event)
    requires s.phase.Login? && NothingRawYet(s)
    ensures !Next(s, e).phase.Failed? ==>
              Accepted(Next(s, e)) == if LostToPeer(s, e) > 0 then [] else Accepted(s) + LocalRead(s, e)
    ensures Accepted(s) == s.phase.buffer
    ensures LostToPeer(s, e) > 0 ==> LocalRead(s, e) == [] && LostToPeer(s, e) == |s.phase.buffer|
  {
    var t := Next(s, e);
    AcceptedInLogin(s);
    StepKeepsNothingRaw(s, e);
    assert Accepted(s) + [] == Accepted(s);
    if e.FromPeer? && e.message.PeerInfo? {
      LoginCompletes(s, e.sent);
    } else if t.phase.Login? {
      AcceptedInLogin(t);
    }
  }

  lemma ForwardStreams(s: State, e: Event)
    requires s.phase.Forwarding?
    ensures !Next(s, e).phase.Login? && !Next(s, e).phase.Failed?
    ensures Accepted(Next(s, e)) == if LostToPeer(s, e) > 0 then Accepted(s) else Accepted(s) + LocalRead(s, e)
    ensures LostToPeer(s, e) > 0 ==> LostToPeer(s, e) == |LocalRead(s, e)|
  {
    assert forall t: State | !t.phase.Login? :: Accepted(t) == RawBytes(t.toPeer) + [] == RawBytes(t.toPeer);
    if e.FromLocal? {
      SendStreams(s, Raw(e.chunk), e.sent);
    }
  }

  lemma StepStreams(s: State, e: Event)
    requires NothingRawYet(s)
    ensures NothingRawYet(Next(s, e))
    ensures !Next(s, e).phase.Failed? ==>
              |Accepted(Next(s, e))| + LostToPeer(s, e) == |Accepted(s)| + |LocalRead(s, e)|
    ensures !Next(s, e).phase.Failed? && LostToPeer(s, e) == 0 ==>
              Accepted(Next(s, e)) == Accepted(s) + LocalRead(s, e)
  {
    StepKeepsNothingRaw(s, e);
    if s.phase.Login? {
      LoginStreams(s, e);
    } else if s.phase.Forwarding? {
      ForwardStreams(s, e);
    } else {
      assert Accepted(s) + [] == Accepted(s);
    }
  }

  lemma {:induction false} FailedStays(s: State, events: seq<Event>)
    requires s.phase.Failed? || s.phase.Ended?
    ensures Run(s, events) == s && AllLocalRead(s, events) == [] && AllPeerRead(s, events) == []
    ensures AllLostToPeer(s, events) == 0
    decreases events
  {
    if events != [] {
      FailedStays(s, events[1..]);
    }
  }

  lemma {:induction false} LostBound(s: State, events: seq<Event>)
    requires NothingRawYet(s)
    ensures NothingRawYet(Run(s, events))
    ensures !Run(s, events).phase.Failed? ==>
              |Accepted(Run(s, events))| + AllLostToPeer(s, events) == |Accepted(s)| + |AllLocalRead(s, events)|
    ensures !Run(s, events).phase.Failed? && AllLostToPeer(s, events) == 0 ==>
              Accepted(Run(s, events)) == Accepted(s) + AllLocalRead(s, events)
    decreases events
  {
    if events == [] {
      assert Accepted(s) + [] == Accepted(s);
    } else {
      var t := Next(s, events[0]);
      StepStreams(s, events[0]);
      LostBound(t, events[1..]);
      if t.phase.Failed? {
        FailedStays(t, events[1..]);
      }
      Regroup(Accepted(s), LocalRead(s, events[0]), AllLocalRead(t, events[1..]));
    }
  }

  /** For every interleaving: once the tunnel forwards, the raw bytes on the wire to the peer are the local
      bytes read before and after the login, in order, if and only if no send of a non-empty chunk failed.
      Before that, and if the login fails, no local byte is sent. */
  lemma LocalStreamIntegrity(events: seq<Event>)
    ensures var t := Run(START, events);
            && (t.phase.Login? || t.phase.Failed? ==> AllFramed(t.toPeer))
            && (t.phase.Forwarding? || t.phase.Ended? ==>
                  (RawBytes(t.toPeer) == AllLocalRead(START, events) <==> AllLostToPeer(START, events) == 0))
  {
    LostBound(START, events);
    var t := Run(START, events);
    assert Accepted(START) == [];
    assert [] + AllLocalRead(START, events) == AllLocalRead(START, events);
    if !t.phase.Login? {
      assert Accepted(t) == RawBytes(t.toPeer);
    }
  }

  /** The peer's bytes whose send to the local client fails in this step. */
  function LostToLocal(s: State, e: Event): nat {
    if s.phase.Forwarding? && e.FromPeer? && !e.sent then |e.raw| else 0
  }

  function AllLostToLocal(s: State, events: seq<Event>): nat
    decreases events
  {
    if events == [] then 0 else LostToLocal(s, events[0]) + AllLostToLocal(Next(s, events[0]), events[1..])
  }

  lemma StepToLocal(s: State, e: Event)
    ensures |Next(s, e).toLocal| + LostToLocal(s, e) == |s.toLocal| + |PeerRead(s, e)|
    ensures LostToLocal(s, e) == 0 ==> Next(s, e).toLocal == s.toLocal + PeerRead(s, e)
  {
    assert s.toLocal + [] == s.toLocal;
  }

  /** The other direction: what the peer sends after the login reaches the local client, in order, if and only if
      no send of a non-empty chunk fails; nothing of the login does. */
  lemma {:induction false} PeerStreamIntegrity(s: State, events: seq<Event>)
    ensures |Run(s, events).toLocal| + AllLostToLocal(s, events) == |s.toLocal| + |AllPeerRead(s, events)|
    ensures Run(s, events).toLocal == s.toLocal + AllPeerRead(s, events) <==> AllLostToLocal(s, events) == 0
    decreases events
  {
    if events == [] {
      assert s.toLocal + [] == s.toLocal;
    } else {
      var t := Next(s, events[0]);
      StepToLocal(s, events[0]);
      PeerStreamIntegrity(t, events[1..]);
      Regroup(s.toLocal, PeerRead(s, events[0]), AllPeerRead(t, events[1..]));
    }
  }

  /** The wire switches from protocol messages to raw bytes once. */
  ghost predicate FramedThenRaw(packets: seq<Packet>) {
    forall i, j | 0 <= i < j < |packets| && packets[i].Raw? :: packets[j].Raw?
  }

  lemma {:induction false} WireSwitchesOnce(s: State, events: seq<Event>)
    requires FramedThenRaw(s.toPeer) && NothingRawYet(s)
    ensures FramedThenRaw(Run(s, events).toPeer)
    decreases events
  {
    if events != [] {
      StepStreams(s, events[0]);
      WireSwitchesOnce(Next(s, events[0]), events[1..]);
    }
  }

  // ---------- How the login ends, and what it says ----------

  /** The event decides the login. */
  predicate Decides(e: Event) {
    || e == LocalEnd
    || e == PeerEnd
    || e == PeerTimeout
    || (e.FromPeer? && (e.message == PeerInfo || e.message == Malformed || e.message == LoginError(false)))
  }

  predicate NoneDecides(events: seq<Event>) {
    forall i | 0 <= i < |events| :: !Decides(events[i])
  }

  /** The replies and requests that get through. */
  function Said(e: Event): seq<Packet> {
    match e
    case FromPeer(Hash(reply), _, true) => [Framed(reply)]
    case FromPeer(TestDelay(reply), _, true) => [Framed(reply)]
    case FromUi(request, true) => [Framed(request)]
    case _ => []
  }

  function AllSaid(events: seq<Event>): seq<Packet> {
    if events == [] then [] else AllSaid(events[..|events| - 1]) + Said(events[|events| - 1])
  }

  /** All that the local client sends. */
  function Chunks(events: seq<Event>): seq<byte> {
    if events == [] then []
    else Chunks(events[..|events| - 1]) + if events[|events| - 1].FromLocal? then events[|events| - 1].chunk else []
  }

  /** Until an event decides it, the login goes on, buffering the local client's bytes and saying nothing but the
      replies and requests, in order; a rejected password that may be tried again does not end it. */
  lemma {:induction false} Undecided(events: seq<Event>)
    requires NoneDecides(events)
    ensures Run(START, events) == State(Login(Chunks(events)), AllSaid(events), [])
  {
    if events != [] {
      var before, e := events[..|events| - 1], events[|events| - 1];
      assert NoneDecides(before) && !Decides(e);
      Undecided(before);
      RunSnoc(START, before, e);
      assert before + [e] == events;
      assert AllSaid(before) + [] == AllSaid(before) && Chunks(before) + [] == Chunks(before);
    }
  }

  /** The first event that decides it settles the phase: forwarding after PeerInfo, with the buffered bytes as one
      raw packet, and failure after anything else. */
  lemma Decided(events: seq<Event>, e: Event)
    requires NoneDecides(events) && Decides(e)
    ensures var t := Run(START, events + [e]);
            && t.toLocal == []
            && if e.FromPeer? && e.message == PeerInfo
               then
                 && t.phase == Forwarding
                 && t.toPeer == AllSaid(events) + if Chunks(events) != [] && e.sent then [Raw(Chunks(events))] else []
               else t.phase == Failed && t.toPeer == AllSaid(events)
  {
    Undecided(events);
    RunSnoc(START, events, e);
    assert AllSaid(events) + [] == AllSaid(events);
  }

  /** What happens before either side ends. */
  function Live(events: seq<Event>): seq<Event> {
    if events == [] || events[0] == LocalEnd || events[0] == PeerEnd then [] else [events[0]] + Live(events[1..])
  }

  predicate Ends(events: seq<Event>) {
    exists i | 0 <= i < |events| :: events[i] == LocalEnd || events[i] == PeerEnd
  }

  /** The packets to the peer, one for each chunk that is sent. */
  function RawPackets(events: seq<Event>): seq<Packet> {
    if events == [] then []
    else (if events[0].FromLocal? && events[0].sent then [Raw(events[0].chunk)] else []) + RawPackets(events[1..])
  }

  function Delivered(events: seq<Event>): seq<byte> {
    if events == [] then []
    else (if events[0].FromPeer? && events[0].sent then events[0].raw else []) + Delivered(events[1..])
  }

  /** Forwarding ends exactly when one of the sides does, and until then every chunk that is sent goes through as it
      is, whatever the messages of the login would have meant. */
  lemma {:induction false} Forwards(toPeer: seq<Packet>, toLocal: seq<byte>, events: seq<Event>)
    ensures Run(State(Forwarding, toPeer, toLocal), events)
         == State(if Ends(events) then Ended else Forwarding,
                  toPeer + RawPackets(Live(events)), toLocal + Delivered(Live(events)))
    decreases events
  {
    if events == [] {
      assert toPeer + [] == toPeer && toLocal + [] == toLocal;
    } else if events[0] == LocalEnd || events[0] == PeerEnd {
      FailedStays(State(Ended, toPeer, toLocal), events[1..]);
      assert toPeer + [] == toPeer && toLocal + [] == toLocal;
    } else {
      var t, rest := Next(State(Forwarding, toPeer, toLocal), events[0]), events[1..];
      Forwards(t.toPeer, t.toLocal, rest);
      EndsRest(events);
      LiveStep(toPeer, toLocal, events);
    }
  }

  lemma EndsRest(events: seq<Event>)
    requires events != [] && events[0] != LocalEnd && events[0] != PeerEnd
    ensures Ends(events) <==> Ends(events[1..])
  {
    if Ends(events) {
      var i :| 0 <= i < |events| && (events[i] == LocalEnd || events[i] == PeerEnd);
      assert events[1..][i - 1] == events[i];
    }
    if Ends(events[1..]) {
      var i :| 0 <= i < |events| - 1 && (events[1..][i] == LocalEnd || events[1..][i] == PeerEnd);
      assert events[i + 1] == events[1..][i];
    }
  }

  lemma LiveStep(toPeer: seq<Packet>, toLocal: seq<byte>, events: seq<Event>)
    requires events != [] && events[0] != LocalEnd && events[0] != PeerEnd
    ensures var t := Next(State(Forwarding, toPeer, toLocal), events[0]);
            && t.phase == Forwarding
            && t.toPeer + RawPackets(Live(events[1..])) == toPeer + RawPackets(Live(events))
            && t.toLocal + Delivered(Live(events[1..])) == toLocal + Delivered(Live(events))
  {
    var e, rest := events[0], Live(events[1..]);
    assert Live(events) == [e] + rest && Live(events)[1..] == rest;
    assert [] + RawPackets(rest) == RawPackets(rest) && [] + Delivered(rest) == Delivered(rest);
    if e.FromLocal? {
      Regroup(toPeer, [Raw(e.chunk)], RawPackets(rest));
    }
    if e.FromPeer? {
      Regroup(toLocal, e.raw, Delivered(rest));
    }
  }

  // ---------- The imperative code ----------

  class Tunnel {
    var toPeer: seq<Packet>
    var toLocal: seq<byte>

    constructor ()
      ensures toPeer == [] && toLocal == []
    {
      toPeer, toLocal := [], [];
    }

    method SendToPeer(p: Packet, sent: bool)
      modifies this`toPeer
      ensures toPeer == if sent then old(toPeer) + [p] else old(toPeer)
    {
      if sent {
        toPeer := toPeer + [p];
      }
    }

    /** Consumes the first `n` events; the result is the phase reached. */
    method ConnectAndLogin(events: seq<Event>) returns (phase: Phase, n: nat)
      requires toPeer == [] && toLocal == []
      modifies this
      ensures n <= |events|
      ensures State(phase, toPeer, toLocal) == Run(START, events[..n])
      ensures phase.Forwarding? || phase.Failed? || (phase.Login? && n == |events|)
      ensures phase.Login? ==>
                NoneDecides(events) && phase.buffer == Chunks(events) && toPeer == AllSaid(events)
      ensures !phase.Login? ==> n > 0 && NoneDecides(events[..n - 1]) && Decides(events[n - 1])
      ensures phase.Forwarding? <==> n > 0 && events[n - 1].FromPeer? && events[n - 1].message == PeerInfo
      ensures phase.Forwarding? ==>
                var buffer := Chunks(events[..n - 1]);
                toPeer == AllSaid(events[..n - 1]) + if buffer != [] && events[n - 1].sent then [Raw(buffer)] else []
      ensures phase.Failed? ==> toPeer == AllSaid(events[..n - 1])
      ensures toLocal == []
    {
      var buffer: seq<byte> := [];
      n := 0;
      while n < |events|
        invariant n <= |events|
        invariant State(Login(buffer), toPeer, toLocal) == Run(START, events[..n])
        invariant NoneDecides(events[..n])
      {
        var e := events[n];
        assert events[..n + 1] == events[..n] + [e];
        RunSnoc(START, events[..n], e);
        if Decides(e) {
          Decided(events[..n], e);
        }
        n := n + 1;
        match e {
          case FromPeer(message, _, sent) =>
            match message {
              case Hash(reply) => SendToPeer(Framed(reply), sent);
              case LoginError(retry) => if !retry { return Failed, n; }
              case PeerInfo =>
                if buffer != [] {
                  SendToPeer(Raw(buffer), sent);
                }
                return Forwarding, n;
              case TestDelay(reply) => SendToPeer(Framed(reply), sent);
              case OtherMessage =>
              case Malformed => return Failed, n;
            }
          case PeerTimeout => return Failed, n;
          case PeerEnd => return Failed, n;
          case FromUi(message, sent) => SendToPeer(Framed(message), sent);
          case FromLocal(chunk, _) => buffer := buffer + chunk;
          case LocalEnd => return Failed, n;
        }
      }
      phase := Login(buffer);
      assert events[..n] == events;
      Undecided(events);
    }

    method RunForward(events: seq<Event>) returns (phase: Phase)
      modifies this
      ensures State(phase, toPeer, toLocal) == Run(State(Forwarding, old(toPeer), old(toLocal)), events)
      ensures phase == if exists i | 0 <= i < |events| :: events[i] == LocalEnd || events[i] == PeerEnd
                       then Ended else Forwarding
      ensures toPeer == old(toPeer) + RawPackets(Live(events)) && toLocal == old(toLocal) + Delivered(Live(events))
    {
      ghost var s0 := State(Forwarding, toPeer, toLocal);
      Forwards(toPeer, toLocal, events);
      var n := 0;
      while n < |events|
        invariant n <= |events|
        invariant Run(s0, events) == Run(State(Forwarding, toPeer, toLocal), events[n..])
      {
        var e := events[n];
        assert events[n..][1..] == events[n + 1..];
        n := n + 1;
        match e {
          case FromLocal(chunk, sent) => SendToPeer(Raw(chunk), sent);
          case FromPeer(_, raw, sent) =>
            if sent {
              toLocal := toLocal + raw;
            }
          case LocalEnd =>
            FailedStays(State(Ended, toPeer, toLocal), events[n..]);
            return Ended;
          case PeerEnd =>
            FailedStays(State(Ended, toPeer, toLocal), events[n..]);
            return Ended;
          case PeerTimeout =>
          case FromUi(_, _) =>
        }
      }
      phase := Forwarding;
    }
  }
}
