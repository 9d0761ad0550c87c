/** Clipboard synchronisation: the conversion of clipboard items to and from messages, the owner marker, and
    the protocol between the two machines.

    The class `Clipboard` is the imperative code.  The two machines together are a state machine whose log
    records who wrote what and what was sent; a step may be taken by either side at any time, and messages may
    be delivered in any order, since each one is handled by a thread of its own. */
module ClipboardSync {
  import opened Basics
  import opened Bytes
  import opened Options

  datatype Side = Host | Client

  function Other(side: Side): Side {
    if side.Host? then Client else Host
  }

  /** What is read from or written to the system's clipboard; texts are their UTF-8 bytes. */
  datatype Item =
    | Text(utf8: seq<byte>)
    | Rtf(utf8: seq<byte>)
    | Html(utf8: seq<byte>)
    | ImageRgba(width: nat, height: nat, data: seq<byte>)
    | ImagePng(data: seq<byte>)
    | ImageSvg(utf8: seq<byte>)
    | Special(name: seq<byte>, data: seq<byte>)
    | FileUrl(urls: seq<seq<byte>>)

  datatype Format = TextFormat | RtfFormat | HtmlFormat | RgbaFormat | PngFormat | SvgFormat | SpecialFormat | Unknown

  datatype Clip = Clip(
    format: Format, compress: bool, content: seq<byte>, width: nat, height: nat, specialName: seq<byte>)

  function Ascii(s: string): seq<byte> {
    seq(|s|, i requires 0 <= i < |s| => s[i] as int % 256)
  }

  const OWNER_FORMAT: seq<byte> := Ascii("dyn.com.hoptodesk.owner")

  // ---------- Items to and from messages ----------

  /** The compression library, and the test for valid UTF-8. */
  datatype Codec = Codec(
    compress: seq<byte> -> seq<byte>, decompress: seq<byte> -> seq<byte>, validUtf8: seq<byte> -> bool)

  ghost predicate Lossless(codec: Codec) {
    forall data :: codec.decompress(codec.compress(data)) == data
  }

  predicate Shrinks(codec: Codec, data: seq<byte>) {
    |codec.compress(data)| < |data|
  }

  function Packed(codec: Codec, data: seq<byte>, otherwise: seq<byte>, clip: Clip): Clip {
    if Shrinks(codec, data) then clip.(compress := true, content := codec.compress(data))
    else clip.(compress := false, content := otherwise)
  }

  function Blank(format: Format): Clip {
    Clip(format, false, [], 0, 0, [])
  }

  function ToProto(codec: Codec, item: Item): Option<Clip> {
    match item
    case Text(utf8) => Some(Packed(codec, utf8, utf8, Blank(TextFormat)))
    case Rtf(utf8) => Some(Packed(codec, utf8, utf8, Blank(RtfFormat)))
    case Html(utf8) => Some(Packed(codec, utf8, utf8, Blank(HtmlFormat)))
    case ImageRgba(width, height, data) =>
      Some(Packed(codec, data, data, Blank(RgbaFormat).(width := width, height := height)))
    case ImagePng(data) => Some(Blank(PngFormat).(content := data))
    case ImageSvg(utf8) => Some(Packed(codec, utf8, utf8, Blank(SvgFormat)))
    case Special(name, data) => Some(Packed(codec, data, name, Blank(SpecialFormat).(specialName := name)))
    case FileUrl(_) => None
  }

  function FromProto(codec: Codec, clip: Clip): Option<Item> {
    var data := if clip.compress then codec.decompress(clip.content) else clip.content;
    match clip.format
    case TextFormat => if codec.validUtf8(data) then Some(Text(data)) else None
    case RtfFormat => if codec.validUtf8(data) then Some(Rtf(data)) else None
    case HtmlFormat => if codec.validUtf8(data) then Some(Html(data)) else None
    case RgbaFormat => Some(ImageRgba(clip.width, clip.height, data))
    case PngFormat => Some(ImagePng(data))
    case SvgFormat => Some(ImageSvg(if codec.validUtf8(data) then data else []))
    case SpecialFormat => Some(Special(clip.specialName, data))
    case Unknown => None
  }

  function CreateMulti(codec: Codec, items: seq<Item>): seq<Clip> {
    if items == [] then []
    else
      var clip := ToProto(codec, items[0]);
      (if clip.Some? then [clip.value] else []) + CreateMulti(codec, items[1..])
  }

  function FromMulti(codec: Codec, clips: seq<Clip>): seq<Item> {
    if clips == [] then []
    else
      var item := FromProto(codec, clips[0]);
      (if item.Some? then [item.value] else []) + FromMulti(codec, clips[1..])
  }

  predicate IsUtf8(codec: Codec, item: Item) {
    item.Text? || item.Rtf? || item.Html? || item.ImageSvg? ==> codec.validUtf8(item.utf8)
  }

  /** Items that the other machine gets as they are. */
  predicate Survives(codec: Codec, item: Item) {
    item.Special? ==> Shrinks(codec, item.data) || item.data == item.name
  }

  /** What the other machine gets: special data that does not compress is replaced by its own name. */
  function Arrives(codec: Codec, item: Item): Item {
    if Survives(codec, item) then item else Special(item.name, item.name)
  }

  ghost predicate Convertible(codec: Codec, items: seq<Item>) {
    forall i | 0 <= i < |items| :: !items[i].FileUrl? && IsUtf8(codec, items[i])
  }

  lemma ItemArrives(codec: Codec, item: Item)
    requires Lossless(codec) && IsUtf8(codec, item) && !item.FileUrl?
    ensures var clip := ToProto(codec, item);
            clip.Some? && FromProto(codec, clip.value) == Some(Arrives(codec, item))
  {
  }

  /** Every item arrives, in its place. */
  lemma {:induction false} TransferKeepsPlaces(codec: Codec, items: seq<Item>)
    requires Lossless(codec) && Convertible(codec, items)
    ensures FromMulti(codec, CreateMulti(codec, items))
         == seq(|items|, i requires 0 <= i < |items| => Arrives(codec, items[i]))
  {
    if items != [] {
      ItemArrives(codec, items[0]);
      var clips := CreateMulti(codec, items);
      assert clips[1..] == CreateMulti(codec, items[1..]);
      TransferKeepsPlaces(codec, items[1..]);
    }
  }

  /** A copy arrives unchanged exactly when all its special data compresses, or equals its own name. */
  lemma TransferIsExactIff(codec: Codec, items: seq<Item>)
    requires Lossless(codec) && Convertible(codec, items)
    ensures FromMulti(codec, CreateMulti(codec, items)) == items
       <==> forall i | 0 <= i < |items| :: Survives(codec, items[i])
  {
    TransferKeepsPlaces(codec, items);
    var arrived := FromMulti(codec, CreateMulti(codec, items));
    assert |arrived| == |items|;
    assert forall i | 0 <= i < |items| :: arrived[i] == Arrives(codec, items[i]);
    if arrived == items {
      forall i | 0 <= i < |items| ensures Survives(codec, items[i]) {
        assert arrived[i] == items[i];
      }
    }
  }

  // ---------- The owner marker ----------

  function OwnerData(side: Side): seq<byte> {
    if side.Host? then [1] else [2]
  }

  /** One of the two low bits of the first byte is set. */
  predicate IsOwner(data: seq<byte>) {
    data != [] && data[0] % 4 != 0
  }

  predicate IsMarker(item: Item) {
    item.Special? && item.name == OWNER_FORMAT && IsOwner(item.data)
  }

  predicate Owned(items: seq<Item>) {
    exists i | 0 <= i < |items| :: IsMarker(items[i])
  }

  predicate Keeps(item: Item) {
    && (item.Special? ==> item.name != OWNER_FORMAT)
    && (item.Text? ==> item.utf8 != [])
  }

  function Kept(items: seq<Item>): seq<Item> {
    if items == [] then [] else (if Keeps(items[0]) then [items[0]] else []) + Kept(items[1..])
  }

  /** Copied files are handled elsewhere. */
  predicate HasFiles(items: seq<Item>) {
    exists i | 0 <= i < |items| :: items[i].FileUrl?
  }

  /** What is read from a clipboard that holds `items`. */
  function Get(items: seq<Item>, force: bool): seq<Item> {
    if !force && Owned(items) then []
    else if HasFiles(Kept(items)) then []
    else Kept(items)
  }

  /** What do_update_clipboard_ writes. */
  function Marked(items: seq<Item>, side: Side): seq<Item> {
    items + [Special(OWNER_FORMAT, OwnerData(side))]
  }

  lemma MarkedIsOwned(items: seq<Item>, side: Side)
    ensures Owned(Marked(items, side))
  {
    assert IsMarker(Marked(items, side)[|items|]);
  }

  lemma TailHasFiles(items: seq<Item>)
    requires items != []
    ensures HasFiles(items) <==> items[0].FileUrl? || HasFiles(items[1..])
  {
    if i :| 0 < i < |items| && items[i].FileUrl? {
      assert items[1..][i - 1].FileUrl?;
    }
    if i :| 0 <= i < |items| - 1 && items[1..][i].FileUrl? {
      assert items[i + 1].FileUrl?;
    }
  }

  lemma {:induction false} KeptConvert(codec: Codec, items: seq<Item>)
    requires !HasFiles(items)
    ensures |CreateMulti(codec, items)| == |items|
  {
    if items != [] {
      TailHasFiles(items);
      KeptConvert(codec, items[1..]);
    }
  }

  /** The message about a clipboard that holds `items`; none if empty. */
  function Message(codec: Codec, items: seq<Item>): (clips: seq<Clip>)
    ensures |clips| == |Get(items, false)|
    ensures Owned(items) ==> clips == []
  {
    KeptConvert(codec, Get(items, false));
    CreateMulti(codec, Get(items, false))
  }

  /** The marker is special data under the owner's name whose first byte has one of its two low bits set. */
  lemma MarkerMeaning(item: Item)
    ensures IsMarker(item)
       <==> && item.Special?
            && item.name == Ascii("dyn.com.hoptodesk.owner")
            && item.data != []
            && (item.data[0] % 2 == 1 || item.data[0] / 2 % 2 == 1)
  {
  }

  // ---------- What is sent ----------

  lemma {:induction false} KeptAll(items: seq<Item>)
    requires forall i | 0 <= i < |items| ::
               && (items[i].Text? ==> items[i].utf8 != [])
               && (items[i].Special? ==> items[i].name != OWNER_FORMAT)
    ensures Kept(items) == items
  {
    if items != [] {
      KeptAll(items[1..]);
      assert items == [items[0]] + items[1..];
    }
  }

  lemma {:induction false} KeptConcat(a: seq<Item>, b: seq<Item>)
    ensures Kept(a + b) == Kept(a) + Kept(b)
  {
    if a == [] {
      assert a + b == b;
    } else {
      var head := if Keeps(a[0]) then [a[0]] else [];
      KeptConcat(a[1..], b);
      assert (a + b)[1..] == a[1..] + b && (a + b)[0] == a[0];
      Regroup(head, Kept(a[1..]), Kept(b));
    }
  }

  /** Everything is sent, in order, whatever its kind, if none of it is a file, an empty text, or special data under
      the owner's name; by force or not. */
  lemma EverythingIsSent(codec: Codec, items: seq<Item>)
    requires forall i | 0 <= i < |items| ::
               && !items[i].FileUrl?
               && (items[i].Text? ==> items[i].utf8 != [])
               && (items[i].Special? ==> items[i].name != OWNER_FORMAT)
    ensures Message(codec, items) == CreateMulti(codec, items)
    ensures CreateMulti(codec, Get(items, true)) == CreateMulti(codec, items)
    ensures |CreateMulti(codec, items)| == |items|
    ensures forall i | 0 <= i < |items| :: Some(CreateMulti(codec, items)[i]) == ToProto(codec, items[i])
  {
    KeptAll(items);
    assert !Owned(items) && !HasFiles(items);
    EachInItsPlace(codec, items);
  }

  lemma {:induction false} EachInItsPlace(codec: Codec, items: seq<Item>)
    requires forall i | 0 <= i < |items| :: !items[i].FileUrl?
    ensures |CreateMulti(codec, items)| == |items|
    ensures forall i | 0 <= i < |items| :: Some(CreateMulti(codec, items)[i]) == ToProto(codec, items[i])
  {
    if items != [] {
      EachInItsPlace(codec, items[1..]);
      assert forall i | 1 <= i < |items| :: items[i] == items[1..][i - 1];
    }
  }

  /** Such items change nothing about the rest, wherever they are; only a marker stops everything, unless forced. */
  lemma WithheldChangesNothing(codec: Codec, a: seq<Item>, item: Item, b: seq<Item>)
    requires item == Text([]) || (item.Special? && item.name == OWNER_FORMAT)
    ensures CreateMulti(codec, Get(a + [item] + b, true)) == CreateMulti(codec, Get(a + b, true))
    ensures Message(codec, a + [item] + b) == if IsMarker(item) then [] else Message(codec, a + b)
  {
    var all := a + [item] + b;
    KeptConcat(a + [item], b);
    KeptConcat(a, [item]);
    KeptConcat(a, b);
    assert Kept([item]) == [];
    assert Kept(all) == Kept(a + b);
    MarkersConcat(a + [item], b);
    MarkersConcat(a, [item]);
    MarkersConcat(a, b);
    assert [item][0] == item;
  }

  lemma MarkersConcat(a: seq<Item>, b: seq<Item>)
    ensures Owned(a + b) <==> Owned(a) || Owned(b)
  {
    if Owned(a) {
      var i :| 0 <= i < |a| && IsMarker(a[i]);
      assert IsMarker((a + b)[i]);
    }
    if Owned(b) {
      var i :| 0 <= i < |b| && IsMarker(b[i]);
      assert IsMarker((a + b)[|a| + i]);
    }
  }

  /** With a file on the clipboard nothing is sent. */
  lemma FilesStopEverything(codec: Codec, items: seq<Item>, i: nat)
    requires i < |items| && items[i].FileUrl?
    ensures Message(codec, items) == [] && Get(items, true) == []
  {
    assert HasFiles(items);
    KeptFiles(items);
  }

  /** What an item looks like on the wire. */
  lemma WireForm(codec: Codec, item: Item)
    requires !item.FileUrl?
    ensures var clip := ToProto(codec, item).value;
            && clip.format == (match item
                                 case Text(_) => TextFormat
                                 case Rtf(_) => RtfFormat
                                 case Html(_) => HtmlFormat
                                 case ImageRgba(_, _, _) => RgbaFormat
                                 case ImagePng(_) => PngFormat
                                 case ImageSvg(_) => SvgFormat
                                 case Special(_, _) => SpecialFormat)
            && (item.ImageRgba? ==> clip.width == item.width && clip.height == item.height)
            && clip.specialName == (if item.Special? then item.name else [])
            && var data := if item.Text? || item.Rtf? || item.Html? || item.ImageSvg? then item.utf8 else item.data;
               && (clip.compress <==> !item.ImagePng? && |codec.compress(data)| < |data|)
               && clip.content == if clip.compress then codec.compress(data)
                                  else if item.Special? then item.name else data
  {
  }

  // ---------- The cache of the last message ----------

  /** What the cache holds when a connection has asked for it: an empty one is filled by a forced read, which
      ignores the marker. */
  function Current(codec: Codec, last: seq<Clip>, items: seq<Item>, ok: bool): seq<Clip> {
    if last != [] || !ok then last else CreateMulti(codec, Get(items, true))
  }

  /** A peer that takes one format at a time gets the first text, if there is one. */
  function FirstText(clips: seq<Clip>): (first: Option<seq<Clip>>)
    ensures first.None? <==> forall i | 0 <= i < |clips| :: !clips[i].format.TextFormat?
    ensures first.Some? ==> exists i | 0 <= i < |clips| ::
                              && first.value == [clips[i]]
                              && clips[i].format.TextFormat?
                              && forall j | 0 <= j < i :: !clips[j].format.TextFormat?
  {
    if clips == [] then None
    else if clips[0].format.TextFormat? then Some([clips[0]])
    else
      var first := FirstText(clips[1..]);
      assert forall i | 1 <= i < |clips| :: clips[i] == clips[1..][i - 1];
      first
  }

  function Reply(last: seq<Clip>, multi: bool): Option<seq<Clip>> {
    if last == [] then None else if multi then Some(last) else FirstText(last)
  }

  // ---------- The protocol ----------

  datatype Event =
    | Copied(side: Side, items: seq<Item>)
    | Written(side: Side, items: seq<Item>)
    | Sent(side: Side, clips: seq<Clip>)
    | Connected(side: Side, cache: seq<Clip>, reply: Option<seq<Clip>>)

  predicate IsWrite(e: Event) {
    e.Copied? || e.Written?
  }

  /** A machine: its clipboard, the change notifications not handled yet, the messages addressed to it, and the
      cached last message. */
  datatype Machine = Machine(board: seq<Item>, pending: nat, inbox: seq<seq<Clip>>, last: seq<Clip>)

  datatype World = World(host: Machine, client: Machine, log: seq<Event>)

  function At(w: World, side: Side): Machine {
    if side.Host? then w.host else w.client
  }

  function With(w: World, side: Side, m: Machine): World {
    if side.Host? then w.(host := m) else w.(client := m)
  }

  /** `Copy` is the user or any other program; `Check` handles one notification, and `ok` says whether the
      clipboard could be read; `Deliver` handles the message at `index`, and `ok` says whether it got through
      and the clipboard could be written; `Connect` is the start of a connection.  One change may cause any
      number of notifications. */
  datatype Action =
    | Copy(side: Side, items: seq<Item>, notifications: nat)
    | Check(side: Side, ok: bool)
    | Deliver(side: Side, index: nat, ok: bool, notifications: nat)
    | Connect(side: Side, ok: bool, multi: bool)

  /** What an action makes of its own side's machine. */
  function Moved(codec: Codec, m: Machine, a: Action): Machine {
    match a
    case Copy(_, items, notifications) => m.(board := items, pending := m.pending + notifications)
    case Check(_, ok) =>
      if m.pending == 0 then m
      else if ok && Message(codec, m.board) != []
      then m.(pending := m.pending - 1, last := Message(codec, m.board))
      else m.(pending := m.pending - 1)
    case Deliver(side, index, ok, notifications) =>
      if index >= |m.inbox| then m
      else
        var items := FromMulti(codec, m.inbox[index]);
        var taken := m.(inbox := m.inbox[..index] + m.inbox[index + 1..]);
        if !ok || items == [] then taken
        else taken.(board := Marked(items, side), pending := m.pending + notifications)
    case Connect(_, ok, _) => m.(last := Current(codec, m.last, m.board, ok))
  }

  /** What it adds to the log. */
  function Entries(codec: Codec, m: Machine, a: Action): (es: seq<Event>)
    ensures |es| <= 1 && (es != [] ==> es[0].side == a.side)
  {
    match a
    case Copy(side, items, _) => [Copied(side, items)]
    case Check(side, ok) =>
      if m.pending > 0 && ok && Message(codec, m.board) != [] then [Sent(side, Message(codec, m.board))] else []
    case Deliver(side, index, ok, _) =>
      if index < |m.inbox| && ok && FromMulti(codec, m.inbox[index]) != []
      then [Written(side, FromMulti(codec, m.inbox[index]))]
      else []
    case Connect(side, ok, multi) =>
      var last := Current(codec, m.last, m.board, ok);
      [Connected(side, last, Reply(last, multi))]
  }

  /** The messages that logged events put on the wire. */
  function Outgoing(es: seq<Event>): seq<seq<Clip>> {
    if es == [] then []
    else if es[0].Sent? then [es[0].clips]
    else if es[0].Connected? && es[0].reply.Some? then [es[0].reply.value]
    else []
  }

  function Step(codec: Codec, w: World, a: Action): World {
    var m, peer := At(w, a.side), At(w, Other(a.side));
    var es := Entries(codec, m, a);
    var moved := With(w, a.side, Moved(codec, m, a));
    With(moved, Other(a.side), peer.(inbox := peer.inbox + Outgoing(es))).(log := w.log + es)
  }

  /** Apart from its inbox, a machine is changed by its own side's actions only. */
  lemma StepSide(codec: Codec, w: World, a: Action, side: Side)
    ensures Step(codec, w, a).log == w.log + Entries(codec, At(w, a.side), a)
    ensures var m := if a.side == side then Moved(codec, At(w, side), a) else At(w, side);
            var n := At(Step(codec, w, a), side);
            n.board == m.board && n.pending == m.pending && n.last == m.last
  {
  }

  /** A notification is used up whether or not the clipboard can be read; if it can, and there is a message about
      what it holds, that goes to the other side and into the cache. */
  lemma CheckMeaning(codec: Codec, w: World, side: Side, ok: bool)
    ensures var m, peer, next := At(w, side), At(w, Other(side)), Step(codec, w, Check(side, ok));
            if m.pending > 0 && ok && Message(codec, m.board) != [] then
              var clips := Message(codec, m.board);
              && At(next, side) == Machine(m.board, m.pending - 1, m.inbox, clips)
              && At(next, Other(side)) == Machine(peer.board, peer.pending, peer.inbox + [clips], peer.last)
              && next.log == w.log + [Sent(side, clips)]
            else
              && At(next, side) == Machine(m.board, if m.pending > 0 then m.pending - 1 else 0, m.inbox, m.last)
              && At(next, Other(side)) == peer && next.log == w.log
  {
  }

  /** A copy replaces what the clipboard holds and notifies; nothing is sent yet. */
  lemma CopyMeaning(codec: Codec, w: World, side: Side, items: seq<Item>, n: nat)
    ensures var m, next := At(w, side), Step(codec, w, Copy(side, items, n));
            && At(next, side) == Machine(items, m.pending + n, m.inbox, m.last)
            && At(next, Other(side)) == At(w, Other(side))
            && next.log == w.log + [Copied(side, items)]
  {
  }

  /** A delivered message is used up; if it gets through and holds anything, that replaces what the clipboard holds,
      with the marker, and notifies. */
  lemma DeliveryMeaning(codec: Codec, w: World, side: Side, index: nat, ok: bool, n: nat)
    requires index < |At(w, side).inbox|
    ensures var m, next := At(w, side), Step(codec, w, Deliver(side, index, ok, n));
            var items, inbox := FromMulti(codec, m.inbox[index]), m.inbox[..index] + m.inbox[index + 1..];
            && At(next, Other(side)) == At(w, Other(side))
            && if ok && items != [] then
                 && At(next, side) == Machine(Marked(items, side), m.pending + n, inbox, m.last)
                 && next.log == w.log + [Written(side, items)]
               else At(next, side) == Machine(m.board, m.pending, inbox, m.last) && next.log == w.log
  {
  }

  /** A connection changes nothing but an empty cache, and replies with what the cache then holds. */
  lemma ConnectMeaning(codec: Codec, w: World, side: Side, ok: bool, multi: bool)
    ensures var m, peer, next := At(w, side), At(w, Other(side)), Step(codec, w, Connect(side, ok, multi));
            var last := if m.last == [] && ok then CreateMulti(codec, Get(m.board, true)) else m.last;
            var reply := if last == [] then None else if multi then Some(last) else FirstText(last);
            && At(next, side) == Machine(m.board, m.pending, m.inbox, last)
            && At(next, Other(side))
               == Machine(peer.board, peer.pending, peer.inbox + if reply.Some? then [reply.value] else [], peer.last)
            && next.log == w.log + [Connected(side, last, reply)]
  {
  }

  function Run(codec: Codec, w: World, actions: seq<Action>): World {
    if actions == [] then w
    else Step(codec, Run(codec, w, actions[..|actions| - 1]), actions[|actions| - 1])
  }

  lemma RunSnoc(codec: Codec, w: World, actions: seq<Action>, a: Action)
    ensures Run(codec, w, actions + [a]) == Step(codec, Run(codec, w, actions), a)
  {
    assert (actions + [a])[..|actions|] == actions;
  }

  /** The clipboards as they are found, before any message. */
  function Start(host: Machine, client: Machine): World {
    World(host.(inbox := [], last := []), client.(inbox := [], last := []),
          [Copied(Host, host.board), Copied(Client, client.board)])
  }

  // ---------- Nothing is echoed ----------

  /** The last change of a side's clipboard. */
  function LastWrite(log: seq<Event>, side: Side): Option<Event> {
    if log == [] then None
    else
      var last := log[|log| - 1];
      if IsWrite(last) && last.side == side then Some(last) else LastWrite(log[..|log| - 1], side)
  }

  lemma LastWriteSnoc(log: seq<Event>, e: Event, side: Side)
    ensures LastWrite(log + [e], side) == if IsWrite(e) && e.side == side then Some(e) else LastWrite(log, side)
  {
    assert (log + [e])[..|log|] == log;
  }

  /** The message is about what was last copied on its side. */
  ghost predicate FromUser(codec: Codec, before: seq<Event>, e: Event)
    requires e.Sent?
  {
    && LastWrite(before, e.side).Some?
    && LastWrite(before, e.side).value.Copied?
    && !Owned(LastWrite(before, e.side).value.items)
    && e.clips == Message(codec, LastWrite(before, e.side).value.items)
  }

  /** What the clipboard holds after a write. */
  function BoardOf(e: Event): seq<Item>
    requires IsWrite(e)
  {
    if e.Copied? then e.items else Marked(e.items, e.side)
  }

  /** The log explains the clipboard. */
  ghost predicate Explains(log: seq<Event>, side: Side, board: seq<Item>) {
    var last := LastWrite(log, side);
    last.Some? && IsWrite(last.value) && last.value.side == side && board == BoardOf(last.value)
  }

  /** The log explains the cache. */
  ghost predicate CacheExplained(codec: Codec, log: seq<Event>, side: Side, cache: seq<Clip>) {
    var j := LastFill(log, side);
    if j < 0 then cache == [] else FilledAt(codec, log, j, side, cache)
  }

  /** Where in the log the cache got what it holds: the last message sent about a notification, or else the
      first connection that read something; -1 if it is empty. */
  function LastFill(log: seq<Event>, side: Side): (j: int)
    ensures -1 <= j < |log|
  {
    if log == [] then -1
    else
      var before, e := log[..|log| - 1], log[|log| - 1];
      if e.side == side && (e.Sent? || (e.Connected? && e.cache != [] && LastFill(before, side) < 0))
      then |log| - 1
      else LastFill(before, side)
  }

  lemma LastFillSnoc(log: seq<Event>, e: Event, side: Side)
    ensures LastFill(log + [e], side)
         == if e.side == side && (e.Sent? || (e.Connected? && e.cache != [] && LastFill(log, side) < 0))
            then |log| else LastFill(log, side)
  {
    assert (log + [e])[..|log|] == log;
  }

  /** `cache` is the message about the clipboard as it was at entry `j`, read by force in a connection, or
      unforced and then not owned. */
  ghost predicate FilledAt(codec: Codec, log: seq<Event>, j: nat, side: Side, cache: seq<Clip>)
    requires j < |log|
  {
    var origin := LastWrite(log[..j], side);
    && origin.Some? && IsWrite(origin.value) && origin.value.side == side
    && cache != []
    && cache == CreateMulti(codec, Get(BoardOf(origin.value), log[j].Connected?))
    && (!log[j].Connected? ==> !Owned(BoardOf(origin.value)))
  }

  ghost predicate SideExplained(codec: Codec, log: seq<Event>, side: Side, board: seq<Item>, cache: seq<Clip>) {
    Explains(log, side, board) && CacheExplained(codec, log, side, cache)
  }

  ghost predicate Explained(codec: Codec, w: World) {
    && SideExplained(codec, w.log, Host, w.host.board, w.host.last)
    && SideExplained(codec, w.log, Client, w.client.board, w.client.last)
  }

  /** An entry that does not fill the cache. */
  lemma CacheUntouched(codec: Codec, log: seq<Event>, e: Event, side: Side, cache: seq<Clip>)
    requires CacheExplained(codec, log, side, cache)
    requires LastFill(log + [e], side) == LastFill(log, side)
    ensures CacheExplained(codec, log + [e], side, cache)
  {
    var j := LastFill(log, side);
    if j >= 0 {
      assert (log + [e])[..j] == log[..j] && (log + [e])[j] == log[j];
    }
  }

  /** An entry that fills it. */
  lemma CacheFilled(codec: Codec, log: seq<Event>, e: Event, side: Side, board: seq<Item>, cache: seq<Clip>)
    requires Explains(log, side, board)
    requires LastFill(log + [e], side) == |log|
    requires cache != [] && cache == CreateMulti(codec, Get(board, e.Connected?))
    requires !e.Connected? ==> !Owned(board)
    ensures CacheExplained(codec, log + [e], side, cache)
  {
    assert (log + [e])[..|log|] == log && (log + [e])[|log|] == e;
  }

  /** An entry of the other side. */
  lemma OtherSide(codec: Codec, log: seq<Event>, e: Event, side: Side, board: seq<Item>, cache: seq<Clip>)
    requires e.side != side && SideExplained(codec, log, side, board, cache)
    ensures SideExplained(codec, log + [e], side, board, cache)
  {
    LastWriteSnoc(log, e, side);
    LastFillSnoc(log, e, side);
    CacheUntouched(codec, log, e, side, cache);
  }

  /** A write of this side. */
  lemma WriteSide(codec: Codec, log: seq<Event>, e: Event, board: seq<Item>, cache: seq<Clip>)
    requires IsWrite(e) && SideExplained(codec, log, e.side, board, cache)
    ensures SideExplained(codec, log + [e], e.side, BoardOf(e), cache)
  {
    LastWriteSnoc(log, e, e.side);
    LastFillSnoc(log, e, e.side);
    CacheUntouched(codec, log, e, e.side, cache);
  }

  lemma SendSide(codec: Codec, log: seq<Event>, side: Side, board: seq<Item>, cache: seq<Clip>)
    requires SideExplained(codec, log, side, board, cache) && Message(codec, board) != []
    ensures SideExplained(codec, log + [Sent(side, Message(codec, board))], side, board, Message(codec, board))
  {
    var e := Sent(side, Message(codec, board));
    LastWriteSnoc(log, e, side);
    LastFillSnoc(log, e, side);
    CacheFilled(codec, log, e, side, board, Message(codec, board));
  }

  lemma ConnectSide(
    codec: Codec, log: seq<Event>, side: Side, board: seq<Item>, cache: seq<Clip>, ok: bool, multi: bool)
    requires SideExplained(codec, log, side, board, cache)
    ensures var last := Current(codec, cache, board, ok);
            SideExplained(codec, log + [Connected(side, last, Reply(last, multi))], side, board, last)
  {
    var last := Current(codec, cache, board, ok);
    var e := Connected(side, last, Reply(last, multi));
    LastWriteSnoc(log, e, side);
    LastFillSnoc(log, e, side);
    if cache == [] && last != [] {
      CacheFilled(codec, log, e, side, board, last);
    } else {
      CacheUntouched(codec, log, e, side, cache);
    }
  }

  lemma OwnSide(codec: Codec, log: seq<Event>, m: Machine, a: Action)
    requires SideExplained(codec, log, a.side, m.board, m.last)
    ensures var n := Moved(codec, m, a);
            SideExplained(codec, log + Entries(codec, m, a), a.side, n.board, n.last)
  {
    var es := Entries(codec, m, a);
    assert log + [] == log;
    match a
    case Copy(side, items, _) => WriteSide(codec, log, Copied(side, items), m.board, m.last);
    case Check(side, _) =>
      if es != [] {
        SendSide(codec, log, side, m.board, m.last);
      }
    case Deliver(_, _, _, _) =>
      if es != [] {
        WriteSide(codec, log, es[0], m.board, m.last);
      }
    case Connect(side, ok, multi) => ConnectSide(codec, log, side, m.board, m.last, ok, multi);
  }

  /** In every step the log goes on explaining both clipboards and both caches. */
  lemma StepExplained(codec: Codec, w: World, a: Action)
    requires Explained(codec, w)
    ensures Explained(codec, Step(codec, w, a))
  {
    var m, other := At(w, a.side), Other(a.side);
    var es := Entries(codec, m, a);
    StepSide(codec, w, a, a.side);
    StepSide(codec, w, a, other);
    OwnSide(codec, w.log, m, a);
    if es == [] {
      assert w.log + es == w.log;
    } else {
      OtherSide(codec, w.log, es[0], other, At(w, other).board, At(w, other).last);
      assert es == [es[0]];
    }
  }

  /** A message about a notification is about what was last copied on its side. */
  lemma SentIsFromUser(codec: Codec, log: seq<Event>, m: Machine, a: Action)
    requires Explains(log, a.side, m.board)
    ensures var es := Entries(codec, m, a); es != [] && es[0].Sent? ==> FromUser(codec, log, es[0])
  {
    var last := LastWrite(log, a.side).value;
    if last.Written? {
      MarkedIsOwned(last.items, a.side);
    }
  }

  lemma {:induction false} RunExplained(codec: Codec, host: Machine, client: Machine, actions: seq<Action>)
    ensures Explained(codec, Run(codec, Start(host, client), actions))
  {
    if actions == [] {
      StartExplained(codec, host, client);
    } else {
      RunExplained(codec, host, client, actions[..|actions| - 1]);
      StepExplained(codec, Run(codec, Start(host, client), actions[..|actions| - 1]), actions[|actions| - 1]);
    }
  }

  lemma StartExplained(codec: Codec, host: Machine, client: Machine)
    ensures Explained(codec, Start(host, client))
  {
    var h, c := Copied(Host, host.board), Copied(Client, client.board);
    assert [h][..0] == [] && [h, c][..1] == [h];
  }

  /** No echo, in every run: whatever a side sends is what was last copied there, never what the other side's
      message had put on its clipboard. */
  lemma {:induction false} OnlyCopiesAreSent(codec: Codec, host: Machine, client: Machine, actions: seq<Action>, i: nat)
    requires var log := Run(codec, Start(host, client), actions).log; i < |log| && log[i].Sent?
    ensures var log := Run(codec, Start(host, client), actions).log; FromUser(codec, log[..i], log[i])
  {
    if actions != [] {
      var earlier, a := actions[..|actions| - 1], actions[|actions| - 1];
      var before := Run(codec, Start(host, client), earlier);
      var log := Step(codec, before, a).log;
      RunExplained(codec, host, client, earlier);
      StepSide(codec, before, a, a.side);
      SentIsFromUser(codec, before.log, At(before, a.side), a);
      if i < |before.log| {
        assert before.log[i] == log[i] && before.log[..i] == log[..i];
        OnlyCopiesAreSent(codec, host, client, earlier, i);
      } else {
        assert log[..i] == before.log;
      }
    }
  }

  // ---------- What the start of a connection returns ----------

  /** No program copies content that carries the marker. */
  ghost predicate Unmarked(log: seq<Event>) {
    forall i | 0 <= i < |log| && log[i].Copied? :: !Owned(log[i].items)
  }

  lemma {:induction false} LastWriteInLog(log: seq<Event>, side: Side)
    requires LastWrite(log, side).Some?
    ensures LastWrite(log, side).value in log
  {
    if !(IsWrite(log[|log| - 1]) && log[|log| - 1].side == side) {
      LastWriteInLog(log[..|log| - 1], side);
    }
  }

  /** The write that the reply of the connection at the end of `log` goes back to. */
  ghost function Origin(log: seq<Event>, side: Side): Option<Event> {
    var j := LastFill(log, side);
    if j < 0 then None else LastWrite(log[..j], side)
  }

  /** The connection at the end of `log` is answered with what the other side wrote. */
  ghost predicate Returns(codec: Codec, log: seq<Event>, side: Side, e: Event)
    requires e.Connected?
  {
    var origin := Origin(log, side);
    origin.Some? && origin.value.Written? && e.cache == CreateMulti(codec, Kept(origin.value.items))
  }

  /** The cache was last filled by the forced read of a clipboard with the marker. */
  ghost predicate FilledFromMarked(log: seq<Event>, side: Side) {
    var j := LastFill(log, side);
    && j >= 0 && log[j].Connected?
    && Origin(log, side).Some? && IsWrite(Origin(log, side).value)
    && Owned(BoardOf(Origin(log, side).value))
  }

  lemma ReturnsIff(codec: Codec, log: seq<Event>, side: Side, e: Event)
    requires e.Connected? && e.cache != [] && Unmarked(log)
    requires CacheExplained(codec, log, side, e.cache)
    ensures Returns(codec, log, side, e) <==> FilledFromMarked(log, side)
  {
    var j := LastFill(log, side);
    var origin := LastWrite(log[..j], side).value;
    LastWriteInLog(log[..j], side);
    if origin.Written? {
      MarkedIsOwned(origin.items, side);
      KeptOfMarked(origin.items, side);
    }
  }

  /** In every run in which nobody copies marked content: the reply at the start of a connection is all, or the
      first text, of what is cached; and that is what the other side wrote if and only if the cache was last
      filled by the forced read of a marked clipboard, in this connection or in an earlier one. */
  lemma {:induction false} ConnectionReturnsIff(
    codec: Codec, host: Machine, client: Machine, actions: seq<Action>, i: nat)
    requires var log := Run(codec, Start(host, client), actions).log;
             i < |log| && log[i].Connected? && log[i].reply.Some? && Unmarked(log)
    ensures var log := Run(codec, Start(host, client), actions).log;
            var e := log[i];
            && (e.reply == Some(e.cache) || e.reply == FirstText(e.cache))
            && (Returns(codec, log[..i + 1], e.side, e) <==> FilledFromMarked(log[..i + 1], e.side))
  {
    if actions != [] {
      var earlier, a := actions[..|actions| - 1], actions[|actions| - 1];
      var before := Run(codec, Start(host, client), earlier);
      var w := Step(codec, before, a);
      StepSide(codec, before, a, a.side);
      if i < |before.log| {
        assert before.log[i] == w.log[i] && before.log[..i + 1] == w.log[..i + 1];
        assert forall k | 0 <= k < |before.log| :: before.log[k] == w.log[k];
        ConnectionReturnsIff(codec, host, client, earlier, i);
      } else {
        assert w.log[..i + 1] == w.log;
        RunExplained(codec, host, client, actions);
        ReturnsIff(codec, w.log, a.side, w.log[i]);
      }
    }
  }

  /** Until the side sends something else, every connection is answered from the same cache. */
  lemma {:induction false} CacheStaysUntilSent(codec: Codec, w: World, actions: seq<Action>, side: Side)
    requires At(w, side).last != []
    requires SentBy(Run(codec, w, actions).log, side) == SentBy(w.log, side)
    ensures At(Run(codec, w, actions), side).last == At(w, side).last
  {
    if actions != [] {
      var before, a := actions[..|actions| - 1], actions[|actions| - 1];
      SentGrows(codec, w, before, side);
      StepSent(codec, Run(codec, w, before), a, side);
      CacheStaysUntilSent(codec, w, before, side);
    }
  }

  lemma StepSent(codec: Codec, w: World, a: Action, side: Side)
    ensures SentBy(w.log, side) <= SentBy(Step(codec, w, a).log, side)
    ensures SentBy(w.log, side) == SentBy(Step(codec, w, a).log, side) && At(w, side).last != [] ==>
              At(Step(codec, w, a), side).last == At(w, side).last
  {
    StepSide(codec, w, a, side);
    EntriesSent(codec, w.log, At(w, a.side), a, side);
  }

  lemma EntriesSent(codec: Codec, log: seq<Event>, m: Machine, a: Action, side: Side)
    ensures var es := Entries(codec, m, a);
            SentBy(log + es, side) == SentBy(log, side) + if es != [] && es[0].Sent? && a.side == side then 1 else 0
  {
    var es := Entries(codec, m, a);
    if es == [] {
      assert log + es == log;
    } else {
      assert es == [es[0]];
      SentBySnoc(log, es[0], side);
    }
  }

  lemma {:induction false} SentGrows(codec: Codec, w: World, actions: seq<Action>, side: Side)
    ensures SentBy(w.log, side) <= SentBy(Run(codec, w, actions).log, side)
  {
    if actions != [] {
      SentGrows(codec, w, actions[..|actions| - 1], side);
      StepSent(codec, Run(codec, w, actions[..|actions| - 1]), actions[|actions| - 1], side);
    }
  }

  // ---------- What is copied arrives ----------

  /** After a copy, a successful check and a successful delivery, the other machine's clipboard holds every item that
      was copied, in order, and the marker; special data that does not compress arrives as its name. */
  lemma CopyArrives(codec: Codec, w: World, side: Side, items: seq<Item>, notifications: nat, more: nat)
    requires Lossless(codec) && items != [] && At(w, side).pending + notifications > 0
    requires forall i | 0 <= i < |items| ::
               && !items[i].FileUrl?
               && (items[i].Text? ==> items[i].utf8 != [])
               && (items[i].Special? ==> items[i].name != OWNER_FORMAT)
               && IsUtf8(codec, items[i])
    ensures var copied := Step(codec, w, Copy(side, items, notifications));
            var sent := Step(codec, copied, Check(side, true));
            var end := Step(codec, sent, Deliver(Other(side), |At(w, Other(side)).inbox|, true, more));
            var board := At(end, Other(side)).board;
            && |board| == |items| + 1
            && IsMarker(board[|items|])
            && forall i | 0 <= i < |items| ::
                 board[i] == if items[i].Special? && |codec.compress(items[i].data)| >= |items[i].data|
                             then Special(items[i].name, items[i].name) else items[i]
  {
    EverythingIsSent(codec, items);
    ContentsArrive(codec, items, Other(side));
    CopyIsWritten(codec, w, side, items, notifications, more);
  }

  lemma ContentsArrive(codec: Codec, items: seq<Item>, side: Side)
    requires Lossless(codec) && Convertible(codec, items)
    ensures var board := Marked(FromMulti(codec, CreateMulti(codec, items)), side);
            && |board| == |items| + 1
            && IsMarker(board[|items|])
            && forall i | 0 <= i < |items| ::
                 board[i] == if items[i].Special? && |codec.compress(items[i].data)| >= |items[i].data|
                             then Special(items[i].name, items[i].name) else items[i]
    ensures items != [] ==> FromMulti(codec, CreateMulti(codec, items)) != []
  {
    TransferKeepsPlaces(codec, items);
    var board := Marked(FromMulti(codec, CreateMulti(codec, items)), side);
    forall i | 0 <= i < |items| ensures board[i] == Arrives(codec, items[i]) {}
  }

  lemma CopyIsWritten(codec: Codec, w: World, side: Side, items: seq<Item>, notifications: nat, more: nat)
    requires At(w, side).pending + notifications > 0
    requires Message(codec, items) != [] && FromMulti(codec, Message(codec, items)) != []
    ensures var copied := Step(codec, w, Copy(side, items, notifications));
            var sent := Step(codec, copied, Check(side, true));
            var end := Step(codec, sent, Deliver(Other(side), |At(w, Other(side)).inbox|, true, more));
            At(end, Other(side)).board == Marked(FromMulti(codec, Message(codec, items)), Other(side))
  {
    var copied := Step(codec, w, Copy(side, items, notifications));
    var sent := Step(codec, copied, Check(side, true));
    var k := |At(w, Other(side)).inbox|;
    assert At(copied, side).board == items && At(copied, Other(side)).inbox == At(w, Other(side)).inbox;
    assert At(sent, Other(side)).inbox == At(w, Other(side)).inbox + [Message(codec, items)];
    assert At(sent, Other(side)).inbox[k] == Message(codec, items);
  }

  // ---------- How often something is sent ----------

  function SentBy(log: seq<Event>, side: Side): nat {
    if log == [] then 0
    else
      var last := log[|log| - 1];
      SentBy(log[..|log| - 1], side) + if last.Sent? && last.side == side then 1 else 0
  }

  lemma SentBySnoc(log: seq<Event>, e: Event, side: Side)
    ensures SentBy(log + [e], side) == SentBy(log, side) + if e.Sent? && e.side == side then 1 else 0
  {
    assert (log + [e])[..|log|] == log;
  }

  /** How many messages the outstanding notifications can still cause. */
  function Budget(codec: Codec, m: Machine): nat {
    if Message(codec, m.board) == [] then 0 else m.pending
  }

  /** How much a copy adds to it: its own notifications, and those outstanding about content that was not to
      be sent. */
  function Allowance(codec: Codec, m: Machine, a: Action): nat
    requires a.Copy?
  {
    a.notifications + if Message(codec, m.board) == [] then m.pending else 0
  }

  /** What a side has sent and can still send without another copy. */
  function Due(codec: Codec, w: World, side: Side): nat {
    SentBy(w.log, side) + Budget(codec, At(w, side))
  }

  lemma StepBudget(codec: Codec, w: World, a: Action, side: Side)
    ensures Due(codec, Step(codec, w, a), side)
         <= Due(codec, w, side) + if a.Copy? && a.side == side then Allowance(codec, At(w, side), a) else 0
  {
    var m := At(w, a.side);
    StepSide(codec, w, a, side);
    EntriesSent(codec, w.log, m, a, side);
    if a.Deliver? && a.index < |m.inbox| {
      MarkedIsOwned(FromMulti(codec, m.inbox[a.index]), a.side);
    }
  }

  /** The allowance of all copies of one side in a run. */
  function Allowances(codec: Codec, w: World, actions: seq<Action>, side: Side): nat {
    if actions == [] then 0
    else
      var before, last := actions[..|actions| - 1], actions[|actions| - 1];
      Allowances(codec, w, before, side)
      + if last.Copy? && last.side == side then Allowance(codec, At(Run(codec, w, before), side), last) else 0
  }

  /** In every run a side sends at most what was outstanding and what its copies allow. */
  lemma {:induction false} SentWithinAllowance(codec: Codec, w: World, actions: seq<Action>, side: Side)
    ensures Due(codec, Run(codec, w, actions), side) <= Due(codec, w, side) + Allowances(codec, w, actions, side)
  {
    if actions != [] {
      var before, last := actions[..|actions| - 1], actions[|actions| - 1];
      SentWithinAllowance(codec, w, before, side);
      StepBudget(codec, Run(codec, w, before), last, side);
    }
  }

  /** The change notifications that the copies of one side cause. */
  function CopyNotifications(actions: seq<Action>, side: Side): nat {
    if actions == [] then 0
    else
      var last := actions[|actions| - 1];
      CopyNotifications(actions[..|actions| - 1], side)
      + if last.Copy? && last.side == side then last.notifications else 0
  }

  /** Every copy on that side finds no notification outstanding about content that is not to be sent. */
  ghost predicate CopiesFindNoneStale(codec: Codec, w: World, actions: seq<Action>, side: Side) {
    forall i | 0 <= i < |actions| && actions[i].Copy? && actions[i].side == side ::
      Message(codec, At(Run(codec, w, actions[..i]), side).board) != []
      || At(Run(codec, w, actions[..i]), side).pending == 0
  }

  lemma {:induction false} AllowancesWithoutStale(codec: Codec, w: World, actions: seq<Action>, side: Side)
    requires CopiesFindNoneStale(codec, w, actions, side)
    ensures Allowances(codec, w, actions, side) == CopyNotifications(actions, side)
  {
    if actions != [] {
      var before := actions[..|actions| - 1];
      forall i | 0 <= i < |before| && before[i].Copy? && before[i].side == side
        ensures Message(codec, At(Run(codec, w, before[..i]), side).board) != []
             || At(Run(codec, w, before[..i]), side).pending == 0
      {
        assert before[..i] == actions[..i] && before[i] == actions[i];
      }
      AllowancesWithoutStale(codec, w, before, side);
      assert actions[..|actions| - 1] == before;
    }
  }

  /** Then a side sends no more messages than its copies cause notifications, if none were outstanding. */
  lemma SentWithinCopyNotifications(codec: Codec, w: World, actions: seq<Action>, side: Side)
    requires Budget(codec, At(w, side)) == 0
    requires CopiesFindNoneStale(codec, w, actions, side)
    ensures SentBy(Run(codec, w, actions).log, side) <= SentBy(w.log, side) + CopyNotifications(actions, side)
  {
    SentWithinAllowance(codec, w, actions, side);
    AllowancesWithoutStale(codec, w, actions, side);
  }

  /** In no continuation without another copy does `side` send more than `n` messages. */
  ghost predicate SendsAtMost(codec: Codec, w: World, side: Side, n: nat) {
    forall actions | NoCopies(actions, side) :: SentBy(Run(codec, w, actions).log, side) <= SentBy(w.log, side) + n
  }

  ghost predicate NoCopies(actions: seq<Action>, side: Side) {
    forall i | 0 <= i < |actions| :: actions[i].Copy? ==> actions[i].side != side
  }

  lemma {:induction false} NoCopiesNoAllowances(codec: Codec, w: World, actions: seq<Action>, side: Side)
    requires NoCopies(actions, side)
    ensures Allowances(codec, w, actions, side) == 0
  {
    if actions != [] {
      NoCopiesNoAllowances(codec, w, actions[..|actions| - 1], side);
    }
  }

  /** Handling `n` notifications one after the other. */
  function Checks(side: Side, n: nat): (actions: seq<Action>)
    ensures NoCopies(actions, side)
  {
    if n == 0 then [] else Checks(side, n - 1) + [Check(side, true)]
  }

  /** From `w` to `end`, `n` notifications were handled and as many messages sent. */
  ghost predicate HandledAndSent(w: World, end: World, side: Side, n: nat) {
    && SentBy(end.log, side) == SentBy(w.log, side) + n
    && At(end, side).board == At(w, side).board
    && At(end, side).pending == At(w, side).pending - n
  }

  lemma CheckSends(codec: Codec, w: World, end: World, side: Side, n: nat)
    requires HandledAndSent(w, end, side, n) && n < Budget(codec, At(w, side))
    ensures HandledAndSent(w, Step(codec, end, Check(side, true)), side, n + 1)
  {
    StepSide(codec, end, Check(side, true), side);
    EntriesSent(codec, end.log, At(end, side), Check(side, true), side);
  }

  lemma {:induction false} ChecksSend(codec: Codec, w: World, side: Side, n: nat)
    requires n <= Budget(codec, At(w, side))
    ensures HandledAndSent(w, Run(codec, w, Checks(side, n)), side, n)
  {
    if n > 0 {
      ChecksSend(codec, w, side, n - 1);
      CheckSends(codec, w, Run(codec, w, Checks(side, n - 1)), side, n - 1);
      RunSnoc(codec, w, Checks(side, n - 1), Check(side, true));
    }
  }

  /** The budget is exact: a side may send that many messages without another copy, and no more. */
  lemma BudgetIsExact(codec: Codec, w: World, side: Side, n: nat)
    ensures SendsAtMost(codec, w, side, n) <==> Budget(codec, At(w, side)) <= n
  {
    var budget := Budget(codec, At(w, side));
    var checks := Checks(side, budget);
    ChecksSend(codec, w, side, budget);
    forall actions | NoCopies(actions, side)
      ensures SentBy(Run(codec, w, actions).log, side) <= SentBy(w.log, side) + budget
    {
      SentWithinAllowance(codec, w, actions, side);
      NoCopiesNoAllowances(codec, w, actions, side);
    }
  }

  /** A copy is sent at most once for each notification that it causes exactly when no other notification was
      outstanding at the time: those are answered with the new content too. */
  lemma CopySentOncePerNotificationIff(codec: Codec, w: World, copy: Action)
    requires copy.Copy? && Message(codec, copy.items) != []
    ensures SendsAtMost(codec, Step(codec, w, copy), copy.side, copy.notifications) <==> At(w, copy.side).pending == 0
  {
    BudgetIsExact(codec, Step(codec, w, copy), copy.side, copy.notifications);
  }

  lemma TextIsSent(codec: Codec, utf8: seq<byte>)
    requires utf8 != []
    ensures Message(codec, [Text(utf8)]) != []
  {
    assert Kept([Text(utf8)]) == [Text(utf8)];
    assert !Owned([Text(utf8)]) && !HasFiles([Text(utf8)]);
  }

  /** So the one copy that causes one notification can be sent twice, if it is made just after a delivery. */
  lemma CopySentTwice(codec: Codec, w: World, hello: seq<byte>)
    requires hello != [] && w.host.pending == 0 && |w.host.inbox| == 1 && FromMulti(codec, w.host.inbox[0]) != []
    ensures var copied := Step(codec, Step(codec, w, Deliver(Host, 0, true, 1)), Copy(Host, [Text(hello)], 1));
            !SendsAtMost(codec, copied, Host, 1) && SendsAtMost(codec, copied, Host, 2)
  {
    var delivered := Step(codec, w, Deliver(Host, 0, true, 1));
    var copy := Copy(Host, [Text(hello)], 1);
    TextIsSent(codec, hello);
    CopySentOncePerNotificationIff(codec, delivered, copy);
    BudgetIsExact(codec, Step(codec, delivered, copy), Host, 2);
  }

  // ---------- The imperative code ----------

  /** One machine's clipboard and the variables around it. */
  class Clipboard {
    const codec: Codec
    const side: Side
    var board: seq<Item>
    var hasCheckContext: bool
    var hasUpdateContext: bool
    var last: seq<Clip>

    constructor (codec: Codec, side: Side, board: seq<Item>)
      ensures this.codec == codec && this.side == side && this.board == board
      ensures !hasCheckContext && !hasUpdateContext && last == []
    {
      this.codec, this.side, this.board := codec, side, board;
      hasCheckContext, hasUpdateContext, last := false, false, [];
    }

    /** `available`: a clipboard context can be created; `readable`: the clipboard can be read. */
    method CheckClipboard(available: bool, readable: bool) returns (msg: Option<seq<Clip>>)
      modifies this`hasCheckContext, this`last
      ensures var ok := (old(hasCheckContext) || available) && readable;
              if ok && Message(codec, board) != []
              then msg == Some(Message(codec, board)) && last == msg.value
              else msg.None? && last == old(last)
      ensures hasCheckContext <==> old(hasCheckContext) || available
    {
      if !hasCheckContext {
        hasCheckContext := available;
      }
      if !hasCheckContext || !readable {
        return None;
      }
      var content := Get(board, false);
      if content != [] {
        last := CreateMulti(codec, content);
        return Some(last);
      }
      return None;
    }

    /** `writable`: the clipboard can be written. */
    method UpdateClipboard(clips: seq<Clip>, available: bool, writable: bool)
      modifies this`board, this`hasUpdateContext
      ensures var items := FromMulti(codec, clips);
              var ok := (old(hasUpdateContext) || available) && writable;
              board == if ok && items != []
                       then items + [Special(OWNER_FORMAT, if side.Host? then [1] else [2])] else old(board)
      ensures hasUpdateContext <==> old(hasUpdateContext) || (available && FromMulti(codec, clips) != [])
    {
      var items := FromMulti(codec, clips);
      if items == [] {
        return;
      }
      if !hasUpdateContext {
        hasUpdateContext := available;
        if !hasUpdateContext {
          return;
        }
      }
      if writable {
        board := items + [Special(OWNER_FORMAT, OwnerData(side))];
      }
    }

    /** The message a new connection starts with; `multi`: the peer accepts several formats at once. */
    method CurrentClipboardMsg(available: bool, readable: bool, multi: bool) returns (msg: Option<seq<Clip>>)
      modifies this`last
      ensures last == Current(codec, old(last), board, available && readable)
      ensures old(last) != [] || !(available && readable) ==> last == old(last)
      ensures old(last) == [] && available && readable ==> last == CreateMulti(codec, Get(board, true))
      ensures msg == Reply(last, multi)
      ensures multi ==> msg == if last == [] then None else Some(last)
      ensures !multi ==> msg == FirstText(last)
    {
      if last == [] {
        if !available || !readable {
          return None;
        }
        last := CreateMulti(codec, Get(board, true));
      }
      if last == [] {
        return None;
      }
      if multi {
        return Some(last);
      }
      return FirstText(last);
    }
  }

  /** The forced read ignores the marker: it fills an empty cache with what the other side wrote exactly when the
      clipboard can be read and holds no files but something other than owner data and empty text. */
  lemma ForcedReadFillsIff(codec: Codec, last: seq<Clip>, items: seq<Item>, side: Side, ok: bool)
    ensures Current(codec, last, Marked(items, side), ok) != last
       <==> last == [] && ok && !HasFiles(items) && exists i | 0 <= i < |items| :: Keeps(items[i])
  {
    KeptOfMarked(items, side);
    KeptEmptyIff(items);
    KeptFiles(items);
    if !HasFiles(items) {
      KeptConvert(codec, Kept(items));
    }
  }

  lemma {:induction false} KeptOfMarked(items: seq<Item>, side: Side)
    ensures Kept(Marked(items, side)) == Kept(items)
  {
    if items != [] {
      assert Marked(items, side)[1..] == Marked(items[1..], side);
      KeptOfMarked(items[1..], side);
    }
  }

  lemma {:induction false} KeptEmptyIff(items: seq<Item>)
    ensures Kept(items) != [] <==> exists i | 0 <= i < |items| :: Keeps(items[i])
  {
    if items != [] {
      KeptEmptyIff(items[1..]);
      if Kept(items[1..]) != [] {
        var i :| 0 <= i < |items| - 1 && Keeps(items[1..][i]);
        assert Keeps(items[i + 1]);
      }
      if i :| 0 < i < |items| && Keeps(items[i]) {
        assert Keeps(items[1..][i - 1]);
      }
    }
  }

  lemma {:induction false} KeptFiles(items: seq<Item>)
    ensures HasFiles(Kept(items)) <==> HasFiles(items)
  {
    if items != [] {
      TailHasFiles(items);
      KeptFiles(items[1..]);
      if Keeps(items[0]) {
        TailHasFiles(Kept(items));
        assert Kept(items)[1..] == Kept(items[1..]);
      } else {
        assert Kept(items) == Kept(items[1..]);
      }
    }
  }
}
