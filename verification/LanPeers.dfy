/** The LAN peer list after a discovery round.

    The loop of handle_received_peers moves each responding peer to the front of the stored list and
    merges the addresses of repeated answers.  It is proved to compute `Expected`, whose two halves,
    responders by most recent answer and the others in their old order, are then characterised
    without reference to the loop. */
module LanPeers {
  import opened Basics
  import opened Options

  /** IP address to MAC address. */
  type Macs = map<string, string>

  /** What is_same_peer compares. */
  datatype Key = Key(id: string, username: string)

  datatype Peer = Peer(key: Key, hostname: string, platform: string, online: bool, ipMac: Macs)

  /** A pong, as wait_response passes it on; it always arrives as online. */
  datatype Response = Response(key: Key, hostname: string, platform: string, ipMac: Macs)

  // ---------- The expected list ----------

  predicate Responded(rs: seq<Response>, k: Key) {
    exists i | 0 <= i < |rs| :: rs[i].key == k
  }

  /** `response_set` holds ids, not keys. */
  predicate IdSeen(rs: seq<Response>, id: string) {
    exists i | 0 <= i < |rs| :: rs[i].key.id == id
  }

  function Remove(keys: seq<Key>, k: Key): seq<Key> {
    if keys == [] then []
    else if keys[0] == k then Remove(keys[1..], k)
    else [keys[0]] + Remove(keys[1..], k)
  }

  /** The responders, latest answer first. */
  function Order(rs: seq<Response>): seq<Key> {
    if rs == [] then []
    else var k := rs[|rs| - 1].key; [k] + Remove(Order(rs[..|rs| - 1]), k)
  }

  function Offline(peers: seq<Peer>): seq<Peer> {
    seq(|peers|, i requires 0 <= i < |peers| => peers[i].(online := false))
  }

  function RemoveFirst(peers: seq<Peer>, k: Key): seq<Peer> {
    if peers == [] then []
    else if peers[0].key == k then peers[1..]
    else [peers[0]] + RemoveFirst(peers[1..], k)
  }

  /** The addresses stored for `k` before the round. */
  function StoredMacs(peers: seq<Peer>, k: Key): Macs {
    if peers == [] then map[]
    else if peers[0].key == k then peers[0].ipMac
    else StoredMacs(peers[1..], k)
  }

  /** The stored peers that have not answered. */
  function Silent(initial: seq<Peer>, rs: seq<Response>): seq<Peer> {
    if rs == [] then Offline(initial)
    else
      var before, k := rs[..|rs| - 1], rs[|rs| - 1].key;
      if Responded(before, k) then Silent(initial, before) else RemoveFirst(Silent(initial, before), k)
  }

  /** The answers of `k` merged; where several name the same address the earliest wins. */
  function OwnMacs(rs: seq<Response>, k: Key): Macs {
    if rs == [] then map[]
    else
      var before, r := rs[..|rs| - 1], rs[|rs| - 1];
      if r.key == k then r.ipMac + OwnMacs(before, k) else OwnMacs(before, k)
  }

  /** The stored addresses that survive: those of a peer whose id had already been answered for, under
      another user name, when it answered for the first time. */
  function StaleMacs(initial: seq<Peer>, rs: seq<Response>, k: Key): Macs {
    if rs == [] then map[]
    else
      var before, r := rs[..|rs| - 1], rs[|rs| - 1];
      if r.key == k && !Responded(before, k)
      then if IdSeen(before, k.id) then StoredMacs(initial, k) else map[]
      else StaleMacs(initial, before, k)
  }

  function MergedMacs(initial: seq<Peer>, rs: seq<Response>, k: Key): Macs {
    OwnMacs(rs, k) + StaleMacs(initial, rs, k)
  }

  function LastFrom(rs: seq<Response>, k: Key): (r: Response)
    requires Responded(rs, k)
    ensures r in rs && r.key == k
  {
    if rs[|rs| - 1].key == k then rs[|rs| - 1] else LastFrom(rs[..|rs| - 1], k)
  }

  /** A responder as it ends up in the list: the latest answer with the merged addresses. */
  function Entry(initial: seq<Peer>, rs: seq<Response>, k: Key): Peer {
    if Responded(rs, k) then
      var r := LastFrom(rs, k);
      Peer(k, r.hostname, r.platform, true, MergedMacs(initial, rs, k))
    else Peer(k, "", "", true, map[])
  }

  function Entries(initial: seq<Peer>, rs: seq<Response>, keys: seq<Key>): seq<Peer> {
    seq(|keys|, i requires 0 <= i < |keys| => Entry(initial, rs, keys[i]))
  }

  function Expected(initial: seq<Peer>, rs: seq<Response>): seq<Peer> {
    Entries(initial, rs, Order(rs)) + Silent(initial, rs)
  }

  // ---------- One answer ----------

  predicate Has(peers: seq<Peer>, k: Key) {
    exists i | 0 <= i < |peers| :: peers[i].key == k
  }

  /** The first entry for `k`. */
  function Lookup(peers: seq<Peer>, k: Key): (p: Peer)
    requires Has(peers, k)
    ensures p in peers && p.key == k
  {
    if peers[0].key == k then peers[0] else Lookup(peers[1..], k)
  }

  /** The list after one more answer, in terms of the list before. */
  function Answered(peers: seq<Peer>, seen: bool, r: Response): seq<Peer> {
    var macs := if Has(peers, r.key) && seen then r.ipMac + Lookup(peers, r.key).ipMac else r.ipMac;
    [Peer(r.key, r.hostname, r.platform, true, macs)] + RemoveFirst(peers, r.key)
  }

  lemma {:induction false} RemoveHas(keys: seq<Key>, k: Key, j: Key)
    ensures j in Remove(keys, k) <==> j in keys && j != k
  {
    if keys != [] {
      RemoveHas(keys[1..], k, j);
    }
  }

  lemma {:induction false} OrderHas(rs: seq<Response>, k: Key)
    ensures k in Order(rs) <==> Responded(rs, k)
  {
    if rs != [] {
      var before, last := rs[..|rs| - 1], rs[|rs| - 1].key;
      OrderHas(before, k);
      RemoveHas(Order(before), last, k);
      assert Responded(rs, k) <==> Responded(before, k) || last == k;
    }
  }

  predicate Distinct(keys: seq<Key>) {
    forall i, j | 0 <= i < j < |keys| :: keys[i] != keys[j]
  }

  lemma {:induction false} RemoveDistinct(keys: seq<Key>, k: Key)
    requires Distinct(keys)
    ensures Distinct(Remove(keys, k))
  {
    if keys != [] {
      RemoveDistinct(keys[1..], k);
      RemoveHas(keys[1..], k, keys[0]);
    }
  }

  lemma {:induction false} OrderDistinct(rs: seq<Response>)
    ensures Distinct(Order(rs))
  {
    if rs != [] {
      var before, last := rs[..|rs| - 1], rs[|rs| - 1].key;
      OrderDistinct(before);
      RemoveDistinct(Order(before), last);
      RemoveHas(Order(before), last, last);
    }
  }

  /** An answer of `r` changes no other responder's entry. */
  lemma EntryUnchanged(initial: seq<Peer>, rs: seq<Response>, r: Response, k: Key)
    requires k != r.key && Responded(rs, k)
    ensures Entry(initial, rs + [r], k) == Entry(initial, rs, k)
  {
    assert (rs + [r])[..|rs|] == rs;
    var i :| 0 <= i < |rs| && rs[i].key == k;
    assert (rs + [r])[i].key == k;
  }

  lemma {:induction false} EntriesUnchanged(initial: seq<Peer>, rs: seq<Response>, r: Response, keys: seq<Key>)
    requires forall k | k in keys :: Responded(rs, k)
    ensures Entries(initial, rs + [r], Remove(keys, r.key)) == Entries(initial, rs, Remove(keys, r.key))
  {
    forall i | 0 <= i < |Remove(keys, r.key)|
      ensures Entry(initial, rs + [r], Remove(keys, r.key)[i]) == Entry(initial, rs, Remove(keys, r.key)[i])
    {
      var k := Remove(keys, r.key)[i];
      RemoveHas(keys, r.key, k);
      EntryUnchanged(initial, rs, r, k);
    }
  }

  lemma EntriesCons(initial: seq<Peer>, rs: seq<Response>, k: Key, keys: seq<Key>)
    ensures Entries(initial, rs, [k] + keys) == [Entry(initial, rs, k)] + Entries(initial, rs, keys)
  {
    assert |Entries(initial, rs, [k] + keys)| == 1 + |keys|;
  }

  /** Removing the entry of a responder is removing its key. */
  lemma {:induction false} RemoveResponder(
    initial: seq<Peer>, rs: seq<Response>, keys: seq<Key>, k: Key, silent: seq<Peer>)
    requires Distinct(keys) && k in keys
    ensures var peers := Entries(initial, rs, keys) + silent;
            && Has(peers, k)
            && Lookup(peers, k) == Entry(initial, rs, k)
            && RemoveFirst(peers, k) == Entries(initial, rs, Remove(keys, k)) + silent
  {
    var head, rest := Entry(initial, rs, keys[0]), Entries(initial, rs, keys[1..]);
    assert [keys[0]] + keys[1..] == keys;
    EntriesCons(initial, rs, keys[0], keys[1..]);
    Regroup([head], rest, silent);
    HasCons(head, rest + silent, k);
    if keys[0] == k {
      RemoveAbsent(keys[1..], k);
    } else {
      RemoveResponder(initial, rs, keys[1..], k, silent);
      EntriesCons(initial, rs, keys[0], Remove(keys[1..], k));
      Regroup([head], Entries(initial, rs, Remove(keys[1..], k)), silent);
    }
  }

  /** Removing anyone else leaves the responders alone. */
  lemma {:induction false} RemoveSilent(
    initial: seq<Peer>, rs: seq<Response>, keys: seq<Key>, k: Key, silent: seq<Peer>)
    requires k !in keys
    ensures var peers := Entries(initial, rs, keys) + silent;
            && (Has(peers, k) <==> Has(silent, k))
            && (Has(silent, k) ==> Lookup(peers, k) == Lookup(silent, k))
            && RemoveFirst(peers, k) == Entries(initial, rs, keys) + RemoveFirst(silent, k)
  {
    if keys == [] {
      assert Entries(initial, rs, keys) + silent == silent;
      assert Entries(initial, rs, keys) + RemoveFirst(silent, k) == RemoveFirst(silent, k);
    } else {
      var head, rest := Entry(initial, rs, keys[0]), Entries(initial, rs, keys[1..]);
      assert [keys[0]] + keys[1..] == keys;
      EntriesCons(initial, rs, keys[0], keys[1..]);
      RemoveSilent(initial, rs, keys[1..], k, silent);
      Regroup([head], rest, silent);
      Regroup([head], rest, RemoveFirst(silent, k));
      HasCons(head, rest + silent, k);
    }
  }

  lemma HasCons(head: Peer, rest: seq<Peer>, k: Key)
    ensures Has([head] + rest, k) <==> head.key == k || Has(rest, k)
    ensures RemoveFirst([head] + rest, k) == if head.key == k then rest else [head] + RemoveFirst(rest, k)
    ensures Has([head] + rest, k) ==> Lookup([head] + rest, k) == if head.key == k then head else Lookup(rest, k)
  {
    var all := [head] + rest;
    assert all[1..] == rest && all[0] == head;
    if Has(rest, k) {
      var i :| 0 <= i < |rest| && rest[i].key == k;
      assert all[i + 1].key == k;
    }
    if Has(all, k) && head.key != k {
      var i :| 0 <= i < |all| && all[i].key == k;
      assert rest[i - 1].key == k;
    }
  }

  lemma {:induction false} RemoveAbsent(keys: seq<Key>, k: Key)
    requires k !in keys
    ensures Remove(keys, k) == keys
  {
    if keys != [] {
      RemoveAbsent(keys[1..], k);
    }
  }

  lemma {:induction false} StoredIsLookup(peers: seq<Peer>, k: Key)
    ensures StoredMacs(peers, k) == if Has(peers, k) then Lookup(peers, k).ipMac else map[]
  {
    if peers != [] {
      StoredIsLookup(peers[1..], k);
      HasCons(peers[0], peers[1..], k);
      assert [peers[0]] + peers[1..] == peers;
    }
  }

  lemma {:induction false} OfflineKeepsMacs(peers: seq<Peer>, k: Key)
    ensures StoredMacs(Offline(peers), k) == StoredMacs(peers, k)
  {
    if peers != [] {
      OfflineKeepsMacs(peers[1..], k);
      assert Offline(peers)[1..] == Offline(peers[1..]);
    }
  }

  lemma {:induction false} RemoveFirstOther(peers: seq<Peer>, k: Key, j: Key)
    requires j != k
    ensures StoredMacs(RemoveFirst(peers, k), j) == StoredMacs(peers, j)
  {
    if peers != [] && peers[0].key != k {
      RemoveFirstOther(peers[1..], k, j);
      assert ([peers[0]] + RemoveFirst(peers[1..], k))[1..] == RemoveFirst(peers[1..], k);
    }
  }

  /** Until `k` answers, its stored entry stays what it was. */
  lemma {:induction false} SilentKeepsMacs(initial: seq<Peer>, rs: seq<Response>, k: Key)
    requires !Responded(rs, k)
    ensures StoredMacs(Silent(initial, rs), k) == StoredMacs(initial, k)
  {
    if rs == [] {
      OfflineKeepsMacs(initial, k);
    } else {
      var before, last := rs[..|rs| - 1], rs[|rs| - 1].key;
      assert rs[|rs| - 1].key != k;
      SilentKeepsMacs(initial, before, k);
      RemoveFirstOther(Silent(initial, before), last, k);
    }
  }

  /** The loop body keeps the list as expected. */
  lemma AnswerStep(initial: seq<Peer>, rs: seq<Response>, r: Response)
    ensures Answered(Expected(initial, rs), IdSeen(rs, r.key.id), r) == Expected(initial, rs + [r])
  {
    var all, k := rs + [r], r.key;
    var keys, silent := Order(rs), Silent(initial, rs);
    assert all[..|rs|] == rs && all[|rs|] == r;
    OrderHas(rs, k);
    OrderDistinct(rs);
    if k in keys {
      RemoveResponder(initial, rs, keys, k, silent);
    } else {
      RemoveSilent(initial, rs, keys, k, silent);
      RemoveAbsent(keys, k);
    }
    AnswerMacs(initial, rs, r);
    RespondersUnchanged(initial, rs, r);
    EntriesCons(initial, all, k, Remove(keys, k));
    RespondedSnoc(rs, r, k);
    Regroup([Entry(initial, all, k)], Entries(initial, all, Remove(keys, k)), Silent(initial, all));
  }

  lemma RespondersUnchanged(initial: seq<Peer>, rs: seq<Response>, r: Response)
    ensures Entries(initial, rs + [r], Remove(Order(rs), r.key)) == Entries(initial, rs, Remove(Order(rs), r.key))
  {
    forall k | k in Order(rs) ensures Responded(rs, k) {
      OrderHas(rs, k);
    }
    EntriesUnchanged(initial, rs, r, Order(rs));
  }

  lemma AnswerMacs(initial: seq<Peer>, rs: seq<Response>, r: Response)
    ensures MergedMacs(initial, rs + [r], r.key)
         == if Responded(rs, r.key) then r.ipMac + MergedMacs(initial, rs, r.key)
            else if Has(Silent(initial, rs), r.key) && IdSeen(rs, r.key.id)
              then r.ipMac + Lookup(Silent(initial, rs), r.key).ipMac
            else r.ipMac
    ensures Responded(rs, r.key) ==> IdSeen(rs, r.key.id)
  {
    var all, k := rs + [r], r.key;
    assert all[..|rs|] == rs && all[|rs|] == r;
    if Responded(rs, k) {
      var i :| 0 <= i < |rs| && rs[i].key == k;
      assert rs[i].key.id == k.id;
    } else {
      NoOwnMacs(rs, k);
      SilentKeepsMacs(initial, rs, k);
      StoredIsLookup(Silent(initial, rs), k);
    }
  }

  lemma {:induction false} NoOwnMacs(rs: seq<Response>, k: Key)
    requires !Responded(rs, k)
    ensures OwnMacs(rs, k) == map[]
  {
    if rs != [] {
      assert rs[|rs| - 1].key != k;
      NoOwnMacs(rs[..|rs| - 1], k);
    }
  }

  // ---------- The imperative code ----------

  /** Vec::position followed by Vec::remove. */
  /** One entry of the search for `k`. */
  lemma TakeStep(peers: seq<Peer>, pos: nat, k: Key)
    requires pos < |peers|
    ensures peers[pos].key == k ==>
              && Has(peers[pos..], k)
              && Lookup(peers[pos..], k) == peers[pos]
              && RemoveFirst(peers[pos..], k) == peers[pos + 1..]
    ensures peers[pos].key != k ==>
              && (Has(peers[pos..], k) <==> Has(peers[pos + 1..], k))
              && (Has(peers[pos..], k) ==> Lookup(peers[pos..], k) == Lookup(peers[pos + 1..], k))
              && peers[..pos] + RemoveFirst(peers[pos..], k) == peers[..pos + 1] + RemoveFirst(peers[pos + 1..], k)
  {
    HasCons(peers[pos], peers[pos + 1..], k);
    assert peers[pos..] == [peers[pos]] + peers[pos + 1..];
    assert peers[..pos] + [peers[pos]] == peers[..pos + 1];
    Regroup(peers[..pos], [peers[pos]], RemoveFirst(peers[pos + 1..], k));
  }

  method TakeSame(peers: seq<Peer>, k: Key) returns (found: bool, taken: Peer, rest: seq<Peer>)
    ensures found == Has(peers, k)
    ensures found ==> taken == Lookup(peers, k)
    ensures rest == RemoveFirst(peers, k)
  {
    found, taken, rest := false, Peer(k, "", "", false, map[]), peers;
    var pos := 0;
    while pos < |peers|
      invariant pos <= |peers|
      invariant Has(peers, k) <==> Has(peers[pos..], k)
      invariant Has(peers, k) ==> Lookup(peers, k) == Lookup(peers[pos..], k)
      invariant RemoveFirst(peers, k) == peers[..pos] + RemoveFirst(peers[pos..], k)
    {
      TakeStep(peers, pos, k);
      if peers[pos].key == k {
        return true, peers[pos], peers[..pos] + peers[pos + 1..];
      }
      pos := pos + 1;
    }
    assert peers[..|peers|] + [] == peers;
  }

  // ---------- When the list is written ----------

  /** Never before, or more than 300 ms after the last time. */
  predicate Due(lastWriteTime: Option<int>, now: int) {
    lastWriteTime.None? || now - lastWriteTime.value > 300
  }

  /** The time of the last write among the first `n` answers. */
  function LastWriteTime(times: seq<int>, n: nat): Option<int>
    requires n <= |times|
  {
    if n == 0 then None
    else if Due(LastWriteTime(times, n - 1), times[n - 1]) then Some(times[n - 1])
    else LastWriteTime(times, n - 1)
  }

  predicate WritesAt(times: seq<int>, j: nat)
    requires j < |times|
  {
    Due(LastWriteTime(times, j), times[j])
  }

  /** There is a write after the first answer; and after a later one exactly if it comes more than 300 ms after the
      answer `p` of the write before. */
  lemma {:induction false} WritesMeaning(times: seq<int>, j: nat) returns (p: nat)
    requires j <= |times|
    ensures 0 < |times| ==> WritesAt(times, 0)
    ensures j > 0 ==>
              && p < j && WritesAt(times, p) && LastWriteTime(times, j) == Some(times[p])
              && (forall q: nat | p < q < j :: !WritesAt(times, q))
              && (j < |times| ==> (WritesAt(times, j) <==> times[j] - times[p] > 300))
  {
    p := 0;
    if j > 0 {
      if WritesAt(times, j - 1) {
        p := j - 1;
      } else {
        p := WritesMeaning(times, j - 1);
      }
    }
  }

  /** What has been written after the first `n` answers. */
  function Stored(initial: seq<Peer>, rs: seq<Response>, times: seq<int>, n: nat): seq<seq<Peer>>
    requires n <= |times| == |rs|
  {
    if n == 0 then []
    else
      Stored(initial, rs, times, n - 1)
      + if WritesAt(times, n - 1) then [Expected(initial, rs[..n])] else []
  }

  /** A write after answer `j` adds one list, the one expected of the answers up to then. */
  lemma {:induction false} StoredMeaning(initial: seq<Peer>, rs: seq<Response>, times: seq<int>, n: nat, j: nat)
    requires j < n <= |times| == |rs|
    ensures |Stored(initial, rs, times, j + 1)|
         == |Stored(initial, rs, times, j)| + if WritesAt(times, j) then 1 else 0
    ensures |Stored(initial, rs, times, j + 1)| <= |Stored(initial, rs, times, n)|
    ensures WritesAt(times, j) ==>
              Stored(initial, rs, times, n)[|Stored(initial, rs, times, j)|] == Expected(initial, rs[..j + 1])
  {
    if j < n - 1 {
      StoredMeaning(initial, rs, times, n - 1, j);
    }
  }

  /** The body of the loop, but for the write. */
  method MergeAnswer(before: seq<Peer>, seen: set<string>, r: Response)
    returns (peers: seq<Peer>, responseSet: set<string>)
    ensures peers == Answered(before, r.key.id in seen, r)
    ensures responseSet == seen + {r.key.id}
  {
    var inResponseSet := r.key.id in seen;
    responseSet := seen + {r.key.id};
    var peer := Peer(r.key, r.hostname, r.platform, true, r.ipMac);
    var found, peer1, rest := TakeSame(before, r.key);
    if found {
      if inResponseSet {
        peer := peer.(ipMac := peer.ipMac + peer1.ipMac, online := true);
      }
    }
    peers := [peer] + rest;
  }

  /** `times` are the milliseconds at which the answers arrive; `stored` collects what is written. */
  method HandleReceivedPeers(initial: seq<Peer>, responses: seq<Response>, times: seq<int>)
    returns (peers: seq<Peer>, stored: seq<seq<Peer>>)
    requires |times| == |responses|
    ensures peers == Expected(initial, responses)
    ensures stored == Stored(initial, responses, times, |times|) + [peers]
  {
    peers := Offline(initial);
    stored := [];
    var responseSet: set<string> := {};
    var lastWriteTime: Option<int> := None;
    assert Expected(initial, []) == Offline(initial);
    for n := 0 to |responses|
      invariant forall id :: id in responseSet <==> IdSeen(responses[..n], id)
      invariant peers == Expected(initial, responses[..n])
      invariant stored == Stored(initial, responses, times, n) && lastWriteTime == LastWriteTime(times, n)
    {
      var r := responses[n];
      AnswerStep(initial, responses[..n], r);
      assert responses[..n + 1] == responses[..n] + [r];
      IdSeenSnoc(responses[..n], r);
      peers, responseSet := MergeAnswer(peers, responseSet, r);
      if lastWriteTime.None? || times[n] - lastWriteTime.value > 300 {
        stored := stored + [peers];
        lastWriteTime := Some(times[n]);
      }
    }
    assert responses[..|responses|] == responses;
    stored := stored + [peers];
  }

  lemma IdSeenSnoc(rs: seq<Response>, r: Response)
    ensures forall id :: IdSeen(rs + [r], id) <==> IdSeen(rs, id) || id == r.key.id
  {
    forall id
      ensures IdSeen(rs + [r], id) <==> IdSeen(rs, id) || id == r.key.id
    {
      if IdSeen(rs, id) {
        var i :| 0 <= i < |rs| && rs[i].key.id == id;
        assert (rs + [r])[i].key.id == id;
      }
      assert (rs + [r])[|rs|] == r;
    }
  }

  // ---------- What the expected list is ----------

  /** The position of the last answer of `k`. */
  function LastIndex(rs: seq<Response>, k: Key): (i: int)
    ensures Responded(rs, k) ==>
              0 <= i < |rs| && rs[i].key == k && forall j | i < j < |rs| :: rs[j].key != k
    ensures !Responded(rs, k) ==> i == -1
  {
    if rs == [] then -1
    else if rs[|rs| - 1].key == k then |rs| - 1
    else
      assert Responded(rs, k) <==> Responded(rs[..|rs| - 1], k);
      LastIndex(rs[..|rs| - 1], k)
  }

  lemma {:induction false} RemoveKeepsOrder(keys: seq<Key>, k: Key, rs: seq<Response>)
    requires forall i, j | 0 <= i < j < |keys| :: LastIndex(rs, keys[i]) > LastIndex(rs, keys[j])
    ensures forall i, j | 0 <= i < j < |Remove(keys, k)| ::
              LastIndex(rs, Remove(keys, k)[i]) > LastIndex(rs, Remove(keys, k)[j])
  {
    if keys != [] {
      RemoveKeepsOrder(keys[1..], k, rs);
      if keys[0] != k {
        var rest := Remove(keys[1..], k);
        forall j | 0 <= j < |rest| ensures LastIndex(rs, keys[0]) > LastIndex(rs, rest[j]) {
          RemoveHas(keys[1..], k, rest[j]);
        }
      }
    }
  }

  /** Responders come in the order of their last answers, the most recent first. */
  lemma {:induction false} MostRecentFirst(rs: seq<Response>)
    ensures forall i, j | 0 <= i < j < |Order(rs)| :: LastIndex(rs, Order(rs)[i]) > LastIndex(rs, Order(rs)[j])
  {
    if rs != [] {
      var before, last := rs[..|rs| - 1], rs[|rs| - 1].key;
      MostRecentFirst(before);
      RemoveKeepsOrder(Order(before), last, before);
      var rest := Remove(Order(before), last);
      forall j | 0 <= j < |rest|
        ensures LastIndex(rs, rest[j]) == LastIndex(before, rest[j]) < LastIndex(rs, last)
      {
        RemoveHas(Order(before), last, rest[j]);
        OrderHas(before, rest[j]);
      }
      assert Order(rs) == [last] + rest;
    }
  }

  ghost predicate NoDuplicates(peers: seq<Peer>) {
    forall i, j | 0 <= i < j < |peers| :: peers[i].key != peers[j].key
  }

  /** The stored peers whose key is not among the responders, in stored order. */
  function Others(peers: seq<Peer>, rs: seq<Response>): seq<Peer> {
    if peers == [] then []
    else (if Responded(rs, peers[0].key) then [] else [peers[0]]) + Others(peers[1..], rs)
  }

  lemma OthersCons(peers: seq<Peer>, rs: seq<Response>)
    requires peers != []
    ensures Others(peers, rs)
         == if Responded(rs, peers[0].key) then Others(peers[1..], rs) else [peers[0]] + Others(peers[1..], rs)
  {
    assert [] + Others(peers[1..], rs) == Others(peers[1..], rs);
  }

  lemma {:induction false} OthersSnoc(peers: seq<Peer>, rs: seq<Response>, r: Response)
    requires NoDuplicates(peers)
    ensures Others(peers, rs + [r])
         == if Responded(rs, r.key) then Others(peers, rs) else RemoveFirst(Others(peers, rs), r.key)
  {
    if peers != [] {
      var head, rest := peers[0], peers[1..];
      OthersSnoc(rest, rs, r);
      if head.key == r.key {
        OthersAbsent(rest, rs, r.key);
        RemoveFirstAbsent(Others(rest, rs), r.key);
      }
      RespondedSnoc(rs, r, head.key);
      HasCons(head, Others(rest, rs), r.key);
      OthersCons(peers, rs);
      OthersCons(peers, rs + [r]);
    }
  }

  lemma RespondedSnoc(rs: seq<Response>, r: Response, k: Key)
    ensures Responded(rs + [r], k) <==> Responded(rs, k) || r.key == k
  {
    assert (rs + [r])[|rs|] == r;
    if Responded(rs, k) {
      var i :| 0 <= i < |rs| && rs[i].key == k;
      assert (rs + [r])[i].key == k;
    }
  }

  lemma {:induction false} OthersAbsent(peers: seq<Peer>, rs: seq<Response>, k: Key)
    requires !Has(peers, k)
    ensures !Has(Others(peers, rs), k)
  {
    if peers != [] {
      assert peers[0].key != k;
      assert [peers[0]] + peers[1..] == peers;
      HasCons(peers[0], peers[1..], k);
      OthersAbsent(peers[1..], rs, k);
      HasCons(peers[0], Others(peers[1..], rs), k);
    }
  }

  lemma {:induction false} RemoveFirstAbsent(peers: seq<Peer>, k: Key)
    requires !Has(peers, k)
    ensures RemoveFirst(peers, k) == peers
  {
    if peers != [] {
      assert peers[0].key != k;
      assert [peers[0]] + peers[1..] == peers;
      HasCons(peers[0], peers[1..], k);
      RemoveFirstAbsent(peers[1..], k);
    }
  }

  /** The second half of the list is the silent peers in their old order. */
  lemma {:induction false} SilentAreOthers(initial: seq<Peer>, rs: seq<Response>)
    requires NoDuplicates(initial)
    ensures Silent(initial, rs) == Others(Offline(initial), rs)
  {
    if rs == [] {
      OthersNobody(Offline(initial));
    } else {
      var before, r := rs[..|rs| - 1], rs[|rs| - 1];
      SilentAreOthers(initial, before);
      assert before + [r] == rs;
      OthersSnoc(Offline(initial), before, r);
    }
  }

  lemma {:induction false} OthersNobody(peers: seq<Peer>)
    ensures Others(peers, []) == peers
  {
    if peers != [] {
      OthersNobody(peers[1..]);
    }
  }

  lemma {:induction false} OthersElements(peers: seq<Peer>, rs: seq<Response>, p: Peer)
    ensures p in Others(peers, rs) <==> p in peers && !Responded(rs, p.key)
  {
    if peers != [] {
      OthersElements(peers[1..], rs, p);
    }
  }

  lemma {:induction false} OthersDistinct(peers: seq<Peer>, rs: seq<Response>)
    requires NoDuplicates(peers)
    ensures NoDuplicates(Others(peers, rs))
  {
    if peers != [] {
      OthersDistinct(peers[1..], rs);
      forall p | p in Others(peers[1..], rs) ensures p.key != peers[0].key {
        OthersElements(peers[1..], rs, p);
      }
    }
  }

  /** A duplicate-free list stays duplicate-free, and exactly the responders are online. */
  lemma DiscoveryResult(initial: seq<Peer>, rs: seq<Response>)
    requires NoDuplicates(initial)
    ensures NoDuplicates(Expected(initial, rs))
    ensures forall i | 0 <= i < |Expected(initial, rs)| ::
              Expected(initial, rs)[i].online <==> Responded(rs, Expected(initial, rs)[i].key)
  {
    var front, back := Entries(initial, rs, Order(rs)), Silent(initial, rs);
    SilentAreOthers(initial, rs);
    OthersDistinct(Offline(initial), rs);
    OrderDistinct(rs);
    forall i | 0 <= i < |front|
      ensures front[i].key == Order(rs)[i] && Responded(rs, front[i].key) && front[i].online
    {
      assert Order(rs)[i] in Order(rs);
      OrderHas(rs, Order(rs)[i]);
    }
    forall i | 0 <= i < |back|
      ensures !Responded(rs, back[i].key) && !back[i].online
    {
      OthersElements(Offline(initial), rs, back[i]);
    }
  }

  /** Each responder is shown as its latest answer described it. */
  lemma LatestAnswerShown(initial: seq<Peer>, rs: seq<Response>, i: nat)
    requires i < |Order(rs)|
    ensures var p, last := Expected(initial, rs)[i], LastIndex(rs, Order(rs)[i]);
            && 0 <= last < |rs| && p.key == rs[last].key == Order(rs)[i]
            && p.hostname == rs[last].hostname && p.platform == rs[last].platform && p.online
            && forall j | last < j < |rs| :: rs[j].key != p.key
  {
    assert Order(rs)[i] in Order(rs);
    OrderHas(rs, Order(rs)[i]);
    LastFromIs(rs, Order(rs)[i]);
  }

  lemma {:induction false} LastFromIs(rs: seq<Response>, k: Key)
    requires Responded(rs, k)
    ensures LastIndex(rs, k) >= 0 && LastFrom(rs, k) == rs[LastIndex(rs, k)]
  {
    if rs[|rs| - 1].key != k {
      assert Responded(rs[..|rs| - 1], k);
      LastFromIs(rs[..|rs| - 1], k);
    }
  }

  /** Each silent peer is kept as it was stored, but offline. */
  lemma SilentUnchanged(initial: seq<Peer>, rs: seq<Response>, i: nat) returns (j: nat)
    requires NoDuplicates(initial) && |Order(rs)| <= i < |Expected(initial, rs)|
    ensures j < |initial| && Expected(initial, rs)[i] == initial[j].(online := false)
  {
    var p := Expected(initial, rs)[i];
    SilentAreOthers(initial, rs);
    assert p in Silent(initial, rs);
    OthersElements(Offline(initial), rs, p);
    j :| 0 <= j < |initial| && Offline(initial)[j] == p;
  }

  /** Starting from an empty store, no number of rounds ever duplicates a peer. */
  function Rounds(rounds: seq<seq<Response>>): seq<Peer> {
    if rounds == [] then [] else Expected(Rounds(rounds[..|rounds| - 1]), rounds[|rounds| - 1])
  }

  lemma {:induction false} RoundsNeverDuplicate(rounds: seq<seq<Response>>)
    ensures NoDuplicates(Rounds(rounds))
  {
    if rounds != [] {
      RoundsNeverDuplicate(rounds[..|rounds| - 1]);
      DiscoveryResult(Rounds(rounds[..|rounds| - 1]), rounds[|rounds| - 1]);
    }
  }

  // ---------- Merged addresses ----------

  /** The first answer of `k` that names `address`, or -1. */
  function FirstNaming(rs: seq<Response>, k: Key, address: string): (i: int)
    ensures -1 <= i < |rs|
    ensures i >= 0 ==> rs[i].key == k && address in rs[i].ipMac
    ensures forall j | 0 <= j < |rs| && rs[j].key == k && address in rs[j].ipMac :: 0 <= i <= j
  {
    if rs == [] then -1
    else
      var before, r := rs[..|rs| - 1], rs[|rs| - 1];
      var i := FirstNaming(before, k, address);
      if i >= 0 then i else if r.key == k && address in r.ipMac then |rs| - 1 else -1
  }

  /** The merged answers hold each address with the value of the first answer that named it. */
  lemma {:induction false} EarliestWins(rs: seq<Response>, k: Key, address: string)
    ensures var i := FirstNaming(rs, k, address);
            && (address in OwnMacs(rs, k) <==> i >= 0)
            && (i >= 0 ==> OwnMacs(rs, k)[address] == rs[i].ipMac[address])
  {
    if rs != [] {
      EarliestWins(rs[..|rs| - 1], k, address);
    }
  }

  /** A responder's addresses are this round's answers alone if and only if the surviving stored
      addresses add nothing to them. */
  lemma ThisRoundOnlyIff(initial: seq<Peer>, rs: seq<Response>, k: Key)
    ensures MergedMacs(initial, rs, k) == OwnMacs(rs, k)
       <==> forall a | a in StaleMacs(initial, rs, k) ::
              a in OwnMacs(rs, k) && OwnMacs(rs, k)[a] == StaleMacs(initial, rs, k)[a]
  {
    var own, stale := OwnMacs(rs, k), StaleMacs(initial, rs, k);
    if own + stale == own {
      forall a | a in stale ensures a in own && own[a] == stale[a] {
        assert a in own + stale && (own + stale)[a] == stale[a];
      }
    }
  }

  /** No id answers under two user names in this round. */
  ghost predicate OneUserPerId(rs: seq<Response>) {
    forall i, j | 0 <= i < |rs| && 0 <= j < |rs| && rs[i].key.id == rs[j].key.id :: rs[i].key == rs[j].key
  }

  /** Then nothing stored survives and the merge is the declared one. */
  lemma {:induction false} OneUserPerIdMergesThisRound(initial: seq<Peer>, rs: seq<Response>, k: Key)
    requires OneUserPerId(rs)
    ensures StaleMacs(initial, rs, k) == map[]
    ensures MergedMacs(initial, rs, k) == OwnMacs(rs, k)
  {
    if rs != [] {
      var before, r := rs[..|rs| - 1], rs[|rs| - 1];
      OneUserPerIdMergesThisRound(initial, before, k);
      if r.key == k && IdSeen(before, k.id) {
        var i :| 0 <= i < |before| && before[i].key.id == k.id;
        assert rs[i].key == rs[|rs| - 1].key;
        assert Responded(before, k);
      }
    }
  }

  /** If some id answers under two user names, whatever was stored for one of them survives. */
  lemma {:induction false} ConflictKeepsStored(rs: seq<Response>) returns (k: Key)
    requires !OneUserPerId(rs)
    ensures Responded(rs, k)
    ensures forall initial :: StaleMacs(initial, rs, k) == StoredMacs(initial, k)
  {
    var before, r := rs[..|rs| - 1], rs[|rs| - 1];
    if OneUserPerId(before) {
      k := r.key;
      var i, j :| 0 <= i < |rs| && 0 <= j < |rs| && rs[i].key.id == rs[j].key.id && rs[i].key != rs[j].key;
      var m := if i == |before| then j else i;
      assert before[m].key.id == k.id && before[m].key != k;
      assert !Responded(before, k);
      assert IdSeen(before, k.id);
    } else {
      k := ConflictKeepsStored(before);
      assert before + [r] == rs;
      RespondedSnoc(before, r, k);
    }
  }

  /** Whatever was stored before, every responder ends up with the addresses of this round alone: this
      holds if and only if no id answers under two user names. */
  lemma ThisRoundOnlyIffOneUserPerId(rs: seq<Response>)
    ensures OneUserPerId(rs)
       <==> forall initial, k | NoDuplicates(initial) :: MergedMacs(initial, rs, k) == OwnMacs(rs, k)
  {
    if OneUserPerId(rs) {
      forall initial, k | NoDuplicates(initial) ensures MergedMacs(initial, rs, k) == OwnMacs(rs, k) {
        OneUserPerIdMergesThisRound(initial, rs, k);
      }
    } else {
      var k := ConflictKeepsStored(rs);
      var own := OwnMacs(rs, k);
      var other := if "" in own then own[""] + "x" else "";
      var initial := [Peer(k, "", "", false, map["" := other])];
      assert NoDuplicates(initial);
      assert StaleMacs(initial, rs, k) == map["" := other];
      assert MergedMacs(initial, rs, k)[""] == other;
      assert MergedMacs(initial, rs, k) != own;
    }
  }

  /** With two user names on one id, an address of an earlier round survives. */
  lemma StaleAddressSurvives() returns (initial: seq<Peer>, rs: seq<Response>, k: Key)
    ensures NoDuplicates(initial) && Responded(rs, k)
    ensures "old" in MergedMacs(initial, rs, k) && "old" !in OwnMacs(rs, k)
  {
    k := Key("A", "u1");
    initial := [Peer(k, "", "", false, map["old" := "m"])];
    var a, b := Response(Key("A", "u2"), "", "", map[]), Response(k, "", "", map[]);
    rs := [a, b];
    assert rs[..1] == [a] && rs[1] == b;
    assert a.key.username[1] != k.username[1];
    assert [a][0].key.id == "A";
    assert StaleMacs(initial, rs, k) == StoredMacs(initial, k);
    assert OwnMacs([a], k) == map[] by {
      assert [a][..0] == [];
    }
  }
}
