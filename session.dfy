/**
 The peer table of the relay server as values: the per-connection
 `PeerInfo` record, the change each transport event makes to the table and
 to the player-id counter, the set of peers a fan-out reaches, and what
 holds over any sequence of events.
 */
module Session {
  import opened Wire

  /**
   One table entry. The transport handle `Peer` is not kept: sends are
   addressed by connection id, the key the entry is stored under.
   */
  datatype PeerInfo = PeerInfo(
    active: bool,
    validPosition: bool,
    x: int16, y: int16,
    dx: int16, dy: int16,
    playerId: byte)

  type Table = map<uint32, PeerInfo>

  /** The entry `operator[]` inserts for a missing key: value-initialised, so all zero. */
  const Zeroed := PeerInfo(false, false, 0, 0, 0, 0, 0)

  /**
   The entry a connect stores. Only Active and ValidPosition are assigned;
   PlayerID keeps its default 0 and the position fields are written as 0
   (they are never read before an update overwrites them).
   */
  const Fresh := PeerInfo(true, false, 0, 0, 0, 0, 0)

  /** The player-id counter's post-increment on a uint8_t. */
  function NextId(c: byte): (r: byte)
    ensures r as int == (c as int + 1) % 0x100
  {
    if c == 0xFF then 0 else c + 1
  }

  /** The usual arithmetic conversion of an `int` to `uint32_t` (modulo 2^32). */
  function Unsigned(e: int32): (k: uint32)
    ensures (k as int - e as int) % 0x1_0000_0000 == 0
  {
    if e < 0 then (e as int + 0x1_0000_0000) as uint32 else e as uint32
  }

  /** The conversion of a `uint32_t` connection id to an `int` argument (two's complement). */
  function Signed(k: uint32): (e: int32)
    ensures Unsigned(e) == k
  {
    if k >= 0x8000_0000 then (k as int - 0x1_0000_0000) as int32 else k as int32
  }

  /** The keys a `SendToAllBut(packet, except)` sends to: active entries other than `except`. */
  function FanOutTargets(peers: Table, except: int32): set<uint32>
  {
    set k | k in peers && peers[k].active && k != Unsigned(except)
  }

  /**
   Fan-out filters on Active and the excluded key only, never on
   ValidPosition: two tables that agree on their keys and Active flags reach
   the same keys for every exclusion, whatever their positions.
   */
  lemma FanOutIgnoresPosition(peers: Table, other: Table, except: int32)
    requires peers.Keys == other.Keys
    requires forall k :: k in peers ==> peers[k].active == other[k].active
    ensures FanOutTargets(peers, except) == FanOutTargets(other, except)
  {
  }

  /**
   An update broadcast excludes its sender by passing the sender's own id
   through `int`: the sender is never reached, and every other active
   entry is, positioned or not.
   */
  lemma NoEcho(peers: Table, sender: uint32)
    ensures sender !in FanOutTargets(peers, Signed(sender))
    ensures forall k :: k in peers && peers[k].active && k != sender <==> k in FanOutTargets(peers, Signed(sender))
  {
  }

  /**
   The `-1` passed on disconnect converts to 0xFFFFFFFF, so it excludes only
   that key: every other active entry is reached.
   */
  lemma MinusOneExcludesOnlyMax(peers: Table)
    ensures Unsigned(-1) == 0xFFFF_FFFF
    ensures forall k :: k in peers && peers[k].active && k != 0xFFFF_FFFF <==> k in FanOutTargets(peers, -1)
  {
  }

  /** The keys whose entries a newcomer is told about on connect. */
  function PositionedKeys(peers: Table): set<uint32>
  {
    set k | k in peers && peers[k].validPosition
  }

  /** An entry described as a 10-byte AddPlayer / UpdatePlayer message. */
  function EntryMessage(tag: byte, p: PeerInfo): seq<byte>
  {
    PlayerMessage(tag, p.playerId, p.x, p.y, p.dx, p.dy)
  }

  /** `m_peers.insert_or_assign(connectID, newPeer)`. */
  function ConnectTable(peers: Table, id: uint32): (r: Table)
    ensures r.Keys == peers.Keys + {id}
    ensures r[id].active && !r[id].validPosition && r[id].playerId == 0
    ensures forall k :: k in peers && k != id ==> r[k] == peers[k]
  {
    peers[id := Fresh]
  }

  /** `m_peers[connectID]`: the stored entry, or the zeroed one it would insert. */
  function Lookup(peers: Table, id: uint32): (p: PeerInfo)
    ensures id in peers ==> p == peers[id]
    ensures id !in peers ==> !p.active && !p.validPosition && p.playerId == 0
  {
    if id in peers then peers[id] else Zeroed
  }

  /**
   The table after a receive. The key is always present afterwards (a
   missing one gains a zeroed, inactive entry), other entries are
   untouched, and on UpdateInput the entry takes the four decoded shorts and
   becomes positioned while keeping its Active flag and PlayerID.
   */
  function ReceiveTable(peers: Table, id: uint32, payload: seq<byte>): (r: Table)
    requires Readable(payload)
    ensures r.Keys == peers.Keys + {id}
    ensures forall k :: k in peers && k != id ==> r[k] == peers[k]
    ensures DecodeInput(payload).None? ==> r[id] == Lookup(peers, id)
    ensures DecodeInput(payload).Some? ==>
      var i := DecodeInput(payload).value;
      && r[id].x == i.x && r[id].y == i.y && r[id].dx == i.dx && r[id].dy == i.dy
      && r[id].validPosition
      && r[id].active == Lookup(peers, id).active
      && r[id].playerId == Lookup(peers, id).playerId
  {
    var p := Lookup(peers, id);
    match DecodeInput(payload)
    case None => peers[id := p]
    case Some(i) => peers[id := p.(x := i.x, y := i.y, dx := i.dx, dy := i.dy, validPosition := true)]
  }

  /**
   The message a receive broadcasts: none unless the tag is UpdateInput;
   otherwise the stored entry after the update, tagged AddPlayer exactly
   when the entry had no valid position before and UpdatePlayer otherwise.
   */
  function ReceiveBroadcast(peers: Table, id: uint32, payload: seq<byte>): (r: Option<seq<byte>>)
    requires Readable(payload)
    ensures r.Some? <==> payload[0] == UpdateInput
    ensures r.Some? ==> |r.value| == 10
    ensures r.Some? ==> (r.value[0] == AddPlayer <==> !Lookup(peers, id).validPosition)
    ensures r.Some? ==> (r.value[0] == UpdatePlayer <==> Lookup(peers, id).validPosition)
    ensures r.Some? ==> r.value == EntryMessage(r.value[0], ReceiveTable(peers, id, payload)[id])
  {
    match DecodeInput(payload)
    case None => None
    case Some(_) =>
      var tag := if Lookup(peers, id).validPosition then UpdatePlayer else AddPlayer;
      Some(EntryMessage(tag, ReceiveTable(peers, id, payload)[id]))
  }

  /** `m_peers.erase(peerItr)`: the key is gone and nothing else changes. */
  function DisconnectTable(peers: Table, id: uint32): (r: Table)
    ensures r.Keys == peers.Keys - {id}
    ensures forall k :: k in r ==> r[k] == peers[k]
  {
    peers - {id}
  }

  /**
   An UpdateInput from a key with no entry leaves behind an entry that is
   positioned but inactive: later newcomers are told about it, yet no
   fan-out ever reaches it.
   */
  lemma StrayUpdateEntry(peers: Table, id: uint32, payload: seq<byte>, except: int32)
    requires id !in peers && Readable(payload) && payload[0] == UpdateInput
    ensures id in PositionedKeys(ReceiveTable(peers, id, payload))
    ensures id !in FanOutTargets(ReceiveTable(peers, id, payload), except)
  {
  }

  /**
   A receive never changes who a fan-out reaches: it keeps every Active
   flag, and the entry it may insert for an unknown key is inactive.
   */
  lemma ReceiveKeepsFanOut(peers: Table, id: uint32, payload: seq<byte>, except: int32)
    requires Readable(payload)
    ensures FanOutTargets(ReceiveTable(peers, id, payload), except) == FanOutTargets(peers, except)
  {
  }

  /** Under the header defaults no code path assigns PlayerID. */
  ghost predicate PlayerIdsZero(peers: Table)
  {
    forall k :: k in peers ==> peers[k].playerId == 0
  }

  /** A transport event as `enet_host_service` reports it. */
  datatype Event =
    | Connect(id: uint32)
    | Receive(id: uint32, payload: seq<byte>)
    | Disconnect(id: uint32)
    | DisconnectTimeout(id: uint32)
    | NoEvent

  /**
   What handling `e` needs: a readable payload on receive, and on either
   disconnect kind an entry for the key (the handler dereferences `find`).
   */
  predicate Admissible(peers: Table, e: Event)
  {
    match e
    case Receive(_, payload) => Readable(payload)
    case Disconnect(id) => id in peers
    case DisconnectTimeout(id) => id in peers
    case _ => true
  }

  /** The table after handling one event. */
  function Apply(peers: Table, e: Event): Table
    requires Admissible(peers, e)
  {
    match e
    case Connect(id) => ConnectTable(peers, id)
    case Receive(id, payload) => ReceiveTable(peers, id, payload)
    case Disconnect(id) => DisconnectTable(peers, id)
    case DisconnectTimeout(id) => DisconnectTable(peers, id)
    case NoEvent => peers
  }

  /** The player-id counter after handling one event: only a connect advances it. */
  function CounterStep(c: byte, e: Event): byte
  {
    if e.Connect? then NextId(c) else c
  }

  /** Every event of `events` is admissible in the table it is handled in. */
  predicate Admits(peers: Table, events: seq<Event>)
    decreases |events|
  {
    |events| == 0 || (Admissible(peers, events[0]) && Admits(Apply(peers, events[0]), events[1..]))
  }

  /** The table after handling `events` in order. */
  function TableAfter(peers: Table, events: seq<Event>): Table
    requires Admits(peers, events)
    decreases |events|
  {
    if |events| == 0 then peers else TableAfter(Apply(peers, events[0]), events[1..])
  }

  /** The counter after handling `events` in order. */
  function CounterAfter(c: byte, events: seq<Event>): byte
    decreases |events|
  {
    if |events| == 0 then c else CounterAfter(CounterStep(c, events[0]), events[1..])
  }

  /** The ids sent in AcceptPlayer replies while handling `events`, in order. */
  function AcceptedIds(c: byte, events: seq<Event>): seq<byte>
    decreases |events|
  {
    if |events| == 0 then []
    else if events[0].Connect? then [c] + AcceptedIds(NextId(c), events[1..])
    else AcceptedIds(c, events[1..])
  }

  /** The number of connect events in `events`. */
  function Connects(events: seq<Event>): nat
    decreases |events|
  {
    if |events| == 0 then 0 else (if events[0].Connect? then 1 else 0) + Connects(events[1..])
  }

  /**
   Allocation counts up from the counter modulo 256: the i-th accepted id is
   `(c + i) mod 256`, and the counter ends `Connects(events)` steps further.
   */
  lemma {:induction false} AcceptedIdsCountUp(c: byte, events: seq<Event>)
    ensures |AcceptedIds(c, events)| == Connects(events)
    ensures forall i :: 0 <= i < Connects(events) ==>
      AcceptedIds(c, events)[i] as int == (c as int + i) % 0x100
    ensures CounterAfter(c, events) as int == (c as int + Connects(events)) % 0x100
    decreases |events|
  {
    if |events| > 0 {
      var rest := events[1..];
      if events[0].Connect? {
        var n := NextId(c);
        AcceptedIdsCountUp(n, rest);
        forall i | 0 <= i < Connects(events)
          ensures AcceptedIds(c, events)[i] as int == (c as int + i) % 0x100
        {
          if i > 0 {
            assert AcceptedIds(c, events)[i] == AcceptedIds(n, rest)[i - 1];
            assert (n as int + (i - 1)) % 0x100 == (c as int + i) % 0x100;
          }
        }
        assert (n as int + Connects(rest)) % 0x100 == (c as int + Connects(events)) % 0x100;
      } else {
        AcceptedIdsCountUp(c, rest);
      }
    }
  }

  /** Ids handed out by at most 256 connects are pairwise distinct. */
  lemma AcceptedIdsDistinct(c: byte, events: seq<Event>)
    requires Connects(events) <= 0x100
    ensures forall i, j :: 0 <= i < j < |AcceptedIds(c, events)| ==>
      AcceptedIds(c, events)[i] != AcceptedIds(c, events)[j]
  {
    AcceptedIdsCountUp(c, events);
    var ids := AcceptedIds(c, events);
    forall i, j | 0 <= i < j < |ids|
      ensures ids[i] != ids[j]
    {
      ModDistinct(c as int + i, c as int + j);
    }
  }

  /** Two integers less than 256 apart have different residues modulo 256. */
  lemma ModDistinct(a: int, b: int)
    requires a < b < a + 0x100
    ensures a % 0x100 != b % 0x100
  {
  }

  /** The 257th connect is handed the same id as the first: the counter wraps. */
  lemma AcceptedIdsWrap(c: byte, events: seq<Event>)
    requires Connects(events) > 0x100
    ensures |AcceptedIds(c, events)| == Connects(events)
    ensures AcceptedIds(c, events)[0x100] == AcceptedIds(c, events)[0] == c
  {
    AcceptedIdsCountUp(c, events);
  }

  /** Handling one event never gives an entry a non-zero PlayerID. */
  lemma ApplyKeepsPlayerIdsZero(peers: Table, e: Event)
    requires Admissible(peers, e) && PlayerIdsZero(peers)
    ensures PlayerIdsZero(Apply(peers, e))
  {
  }

  /** From an empty table (or any table of zero ids), every PlayerID stays 0. */
  lemma {:induction false} PlayerIdsStayZero(peers: Table, events: seq<Event>)
    requires Admits(peers, events) && PlayerIdsZero(peers)
    ensures PlayerIdsZero(TableAfter(peers, events))
    decreases |events|
  {
    if |events| > 0 {
      ApplyKeepsPlayerIdsZero(peers, events[0]);
      PlayerIdsStayZero(Apply(peers, events[0]), events[1..]);
    }
  }

  /** Whether `e` is a connect or a disconnect of key `id`. */
  predicate Rebinds(e: Event, id: uint32)
  {
    (e.Connect? || e.Disconnect? || e.DisconnectTimeout?) && e.id == id
  }

  /**
   Once positioned, an entry stays present and positioned through any events
   that neither reconnect nor disconnect its key.
   */
  lemma {:induction false} PositionPersists(peers: Table, id: uint32, events: seq<Event>)
    requires Admits(peers, events)
    requires id in peers && peers[id].validPosition
    requires forall j :: 0 <= j < |events| ==> !Rebinds(events[j], id)
    ensures id in TableAfter(peers, events) && TableAfter(peers, events)[id].validPosition
    decreases |events|
  {
    if |events| > 0 {
      assert !Rebinds(events[0], id);
      var next := Apply(peers, events[0]);
      assert id in next && next[id].validPosition;
      PositionPersists(next, id, events[1..]);
    }
  }

  /** Whether `e` is an UpdateInput received from key `id`. */
  predicate UpdatesFrom(e: Event, id: uint32)
  {
    e.Receive? && e.id == id && |e.payload| >= 1 && e.payload[0] == UpdateInput
  }

  /**
   An entry without a valid position stays present, unpositioned and as
   active as it was through any events that neither reconnect nor
   disconnect its key nor carry an UpdateInput from it.
   */
  lemma {:induction false} UnpositionedPersists(peers: Table, id: uint32, events: seq<Event>)
    requires Admits(peers, events)
    requires id in peers && !peers[id].validPosition
    requires forall j :: 0 <= j < |events| ==> !Rebinds(events[j], id) && !UpdatesFrom(events[j], id)
    ensures id in TableAfter(peers, events)
    ensures !TableAfter(peers, events)[id].validPosition
    ensures TableAfter(peers, events)[id].active == peers[id].active
    decreases |events|
  {
    if |events| > 0 {
      assert !Rebinds(events[0], id) && !UpdatesFrom(events[0], id);
      var next := Apply(peers, events[0]);
      assert id in next && !next[id].validPosition && next[id].active == peers[id].active;
      UnpositionedPersists(next, id, events[1..]);
    }
  }

  /**
   The first update after a connect is broadcast as AddPlayer, whatever
   other clients' events come in between; every later update from the same
   key, until it reconnects or disconnects, is broadcast as UpdatePlayer.
   */
  lemma FirstAddThenUpdate(peers: Table, id: uint32, gap: seq<Event>, first: seq<byte>, between: seq<Event>, later: seq<byte>)
    requires Admits(ConnectTable(peers, id), gap)
    requires forall j :: 0 <= j < |gap| ==> !Rebinds(gap[j], id) && !UpdatesFrom(gap[j], id)
    requires Readable(first) && first[0] == UpdateInput
    requires Readable(later) && later[0] == UpdateInput
    requires Admits(ReceiveTable(TableAfter(ConnectTable(peers, id), gap), id, first), between)
    requires forall j :: 0 <= j < |between| ==> !Rebinds(between[j], id)
    ensures ReceiveBroadcast(TableAfter(ConnectTable(peers, id), gap), id, first).value[0] == AddPlayer
    ensures ReceiveBroadcast(TableAfter(ReceiveTable(TableAfter(ConnectTable(peers, id), gap), id, first), between), id, later).value[0]
            == UpdatePlayer
  {
    var connected := TableAfter(ConnectTable(peers, id), gap);
    UnpositionedPersists(ConnectTable(peers, id), id, gap);
    PositionPersists(ReceiveTable(connected, id, first), id, between);
  }

  /**
   Two clients A and B connect to an empty server, then A and then B send
   their first update. A is accepted as player 0 and B as player 1, yet both
   first updates go out as AddPlayer naming player 0, because the allocated
   id is never stored in the entry; each reaches only the other client.
   */
  lemma TwoClientScenario(a: uint32, b: uint32)
    requires a != b
    ensures var connected := TableAfter(map[], [Connect(a), Connect(b)]);
            var updateA := EncodeInput(Input(10, 20, 1, 0));
            var afterA := ReceiveTable(connected, a, updateA);
            var updateB := EncodeInput(Input(5, 5, 0, 0));
            && AcceptedIds(0, [Connect(a), Connect(b)]) == [0, 1]
            && ReceiveBroadcast(connected, a, updateA) == Some(PlayerMessage(AddPlayer, 0, 10, 20, 1, 0))
            && FanOutTargets(afterA, Signed(a)) == {b}
            && ReceiveBroadcast(afterA, b, updateB) == Some(PlayerMessage(AddPlayer, 0, 5, 5, 0, 0))
            && FanOutTargets(ReceiveTable(afterA, b, updateB), Signed(b)) == {a}
            && ReceiveTable(afterA, b, updateB) == BothPositioned(a, b)
  {
    var events := [Connect(a), Connect(b)];
    assert events[1..] == [Connect(b)] && [Connect(b)][1..] == [];
    var one: Table := map[a := Fresh];
    assert Apply(map[], Connect(a)) == one;
    assert TableAfter(one, [Connect(b)]) == TableAfter(Apply(one, Connect(b)), []);
    assert TableAfter(map[], events) == map[a := Fresh, b := Fresh];
    assert AcceptedIds(1, [Connect(b)]) == [1] + AcceptedIds(2, []);
    assert AcceptedIds(0, events) == [0] + AcceptedIds(1, [Connect(b)]);
  }

  /** The table at the end of TwoClientScenario: both entries active, positioned, PlayerID 0. */
  function BothPositioned(a: uint32, b: uint32): Table
  {
    map[a := Fresh.(validPosition := true, x := 10, y := 20, dx := 1),
        b := Fresh.(validPosition := true, x := 5, y := 5)]
  }

  /**
   The scenario continued: A's second update goes out as UpdatePlayer, still
   naming player 0, to B alone; then B disconnects, and its
   `[RemovePlayer, 0]` goes to both A and B (B included, since the
   exclusion is -1), after which only A is left.
   */
  lemma TwoClientScenarioContinued(a: uint32, b: uint32)
    requires a != b
    ensures var updateA := EncodeInput(Input(11, 20, 1, 0));
            var afterA := ReceiveTable(BothPositioned(a, b), a, updateA);
            && ReceiveBroadcast(BothPositioned(a, b), a, updateA) == Some(PlayerMessage(UpdatePlayer, 0, 11, 20, 1, 0))
            && FanOutTargets(afterA, Signed(a)) == {b}
            && RemoveMessage(afterA[b].playerId) == [RemovePlayer, 0]
            && FanOutTargets(afterA, -1) == {a, b} - {0xFFFF_FFFF}
            && DisconnectTable(afterA, b).Keys == {a}
  {
  }
}
