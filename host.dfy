/**
 The relay server's event handler, `AsyncHost`, as a class over the state it
 mutates: the peer table `m_peers`, the player-id counter `m_lastPlayerId`,
 and an outbox standing for the transport's send queue. Each transport event
 is one method; `SendToAllBut` is a loop over the table's keys. The order in
 which a loop visits keys is left open, so contracts speak of recipient
 multisets, not sequences.
 */
module Host {
  import opened Wire
  import opened Session

  /** One `enet_peer_send`: a payload addressed to a connection id. */
  datatype Send = Send(to: uint32, payload: seq<byte>)

  /** The connection ids the sends go to, in order. */
  function Recipients(sent: seq<Send>): (r: seq<uint32>)
    ensures |r| == |sent|
    ensures forall i :: 0 <= i < |sent| ==> r[i] == sent[i].to
  {
    seq(|sent|, i requires 0 <= i < |sent| => sent[i].to)
  }

  /** `sent` delivers `payload` exactly once to each key of `targets` and to nobody else. */
  ghost predicate Broadcasts(sent: seq<Send>, payload: seq<byte>, targets: set<uint32>)
  {
    && (forall i :: 0 <= i < |sent| ==> sent[i].payload == payload)
    && multiset(Recipients(sent)) == multiset(targets)
  }

  /**
   The AddPlayer messages for the entries under `order`, in that order, all
   addressed to `to`.
   */
  function AddsFor(to: uint32, peers: Table, order: seq<uint32>): (r: seq<Send>)
    ensures |r| == |order|
  {
    seq(|order|, i requires 0 <= i < |order| => Send(to, EntryMessage(AddPlayer, Lookup(peers, order[i]))))
  }

  /** A message other than AcceptPlayer carries player byte 0. */
  ghost predicate NamesPlayerZero(m: seq<byte>)
  {
    |m| >= 2 && (m[0] != AcceptPlayer ==> m[1] == 0)
  }

  ghost predicate AllNamePlayerZero(sent: seq<Send>)
  {
    forall i :: 0 <= i < |sent| ==> NamesPlayerZero(sent[i].payload)
  }

  /**
   Writes `v` at `buf[off..off+2]` in the model's byte order and leaves the
   other slots alone.
   */
  method PackShort(buf: array<byte>, off: nat, v: int16)
    requires off + 2 <= buf.Length
    modifies buf
    ensures buf[off..off + 2] == EncodeShort(v)
    ensures forall j :: 0 <= j < buf.Length && (j < off || off + 2 <= j) ==> buf[j] == old(buf[j])
  {
    var bytes := EncodeShort(v);
    buf[off] := bytes[0];
    buf[off + 1] := bytes[1];
  }

  /** Fills a 10-byte buffer slot by slot with an entry's AddPlayer / UpdatePlayer message. */
  method PackPlayer(tag: byte, p: PeerInfo) returns (m: seq<byte>)
    ensures m == EntryMessage(tag, p)
  {
    var buf := new byte[10];
    buf[0] := tag;
    buf[1] := p.playerId;
    PackShort(buf, 2, p.x);
    PackShort(buf, 4, p.y);
    PackShort(buf, 6, p.dx);
    PackShort(buf, 8, p.dy);
    assert buf[..] == [buf[0], buf[1]] + buf[2..4] + buf[4..6] + buf[6..8] + buf[8..10];
    m := buf[..];
  }

  /** Fills a 2-byte buffer: a tag and a player byte. */
  method PackPair(tag: byte, player: byte) returns (m: seq<byte>)
    ensures m == [tag, player]
  {
    var buf := new byte[2];
    buf[0] := tag;
    buf[1] := player;
    m := buf[..];
  }

  /** The keys outside `pending` that a fan-out excluding `except` reaches. */
  function ReachedSoFar(peers: Table, pending: set<uint32>, except: int32): set<uint32>
  {
    set k | k in peers && k !in pending && peers[k].active && k != Unsigned(except)
  }

  /** The keys outside `pending` whose entries are positioned. */
  function AnnouncedSoFar(peers: Table, pending: set<uint32>): set<uint32>
  {
    set k | k in peers && k !in pending && peers[k].validPosition
  }

  lemma ReachedAll(peers: Table, except: int32)
    ensures ReachedSoFar(peers, {}, except) == FanOutTargets(peers, except)
  {
  }

  lemma AnnouncedAll(peers: Table)
    ensures AnnouncedSoFar(peers, {}) == PositionedKeys(peers)
  {
  }

  lemma MultisetAddNew<T>(s: set<T>, x: T)
    requires x !in s
    ensures multiset(s + {x}) == multiset(s) + multiset{x}
  {
  }

  lemma BroadcastsExtend(sent: seq<Send>, payload: seq<byte>, targets: set<uint32>, id: uint32)
    requires Broadcasts(sent, payload, targets) && id !in targets
    ensures Broadcasts(sent + [Send(id, payload)], payload, targets + {id})
  {
    assert Recipients(sent + [Send(id, payload)]) == Recipients(sent) + [id];
    MultisetAddNew(targets, id);
  }

  /** One key of the fan-out loop: it is sent the payload exactly when it is active and not excluded. */
  lemma FanOutStep(peers: Table, pending: set<uint32>, id: uint32, except: int32, payload: seq<byte>, sent: seq<Send>)
    requires id in pending && pending <= peers.Keys
    requires Broadcasts(sent, payload, ReachedSoFar(peers, pending, except))
    ensures Broadcasts(if peers[id].active && id != Unsigned(except) then sent + [Send(id, payload)] else sent,
                       payload, ReachedSoFar(peers, pending - {id}, except))
  {
    var before := ReachedSoFar(peers, pending, except);
    var after := ReachedSoFar(peers, pending - {id}, except);
    if peers[id].active && id != Unsigned(except) {
      assert after == before + {id};
      BroadcastsExtend(sent, payload, before, id);
    } else {
      assert after == before;
    }
  }

  /** One key of the connect loop: it joins the visiting order exactly when its entry is positioned. */
  lemma AnnounceStep(peers: Table, pending: set<uint32>, key: uint32, order: seq<uint32>)
    requires key in pending && pending <= peers.Keys
    requires multiset(order) == multiset(AnnouncedSoFar(peers, pending))
    ensures multiset(if peers[key].validPosition then order + [key] else order)
            == multiset(AnnouncedSoFar(peers, pending - {key}))
  {
    var before := AnnouncedSoFar(peers, pending);
    var after := AnnouncedSoFar(peers, pending - {key});
    if peers[key].validPosition {
      assert after == before + {key};
      MultisetAddNew(before, key);
    } else {
      assert after == before;
    }
  }

  lemma AddsForExtend(to: uint32, peers: Table, order: seq<uint32>, key: uint32)
    requires key in peers
    ensures AddsFor(to, peers, order + [key]) == AddsFor(to, peers, order) + [Send(to, EntryMessage(AddPlayer, peers[key]))]
  {
    assert AddsFor(to, peers, order + [key])[|order|] == Send(to, EntryMessage(AddPlayer, peers[key]));
  }

  /** With every PlayerID 0, each AddPlayer sent to a newcomer names player 0. */
  lemma AddsForNamePlayerZero(to: uint32, peers: Table, order: seq<uint32>)
    requires PlayerIdsZero(peers)
    ensures AllNamePlayerZero(AddsFor(to, peers, order))
  {
    forall i | 0 <= i < |order|
      ensures NamesPlayerZero(AddsFor(to, peers, order)[i].payload)
    {
      assert Lookup(peers, order[i]).playerId == 0;
    }
  }

  /** A broadcast of a message naming player 0 keeps every sent message naming player 0. */
  lemma BroadcastNamesPlayerZero(before: seq<Send>, after: seq<Send>, payload: seq<byte>, targets: set<uint32>)
    requires AllNamePlayerZero(before) && NamesPlayerZero(payload)
    requires |after| >= |before| && after[..|before|] == before
    requires Broadcasts(after[|before|..], payload, targets)
    ensures AllNamePlayerZero(after)
  {
    forall i | 0 <= i < |after|
      ensures NamesPlayerZero(after[i].payload)
    {
      if i >= |before| {
        assert after[i] == after[|before|..][i - |before|];
      } else {
        assert after[i] == before[i];
      }
    }
  }

  lemma AllNamePlayerZeroConcat(a: seq<Send>, b: seq<Send>)
    requires AllNamePlayerZero(a) && AllNamePlayerZero(b)
    ensures AllNamePlayerZero(a + b)
  {
    forall i | 0 <= i < |a + b|
      ensures NamesPlayerZero((a + b)[i].payload)
    {
      if i >= |a| {
        assert (a + b)[i] == b[i - |a|];
      }
    }
  }

  class AsyncHost {
    var peers: Table
    var lastPlayerId: byte
    var outbox: seq<Send>

    /**
     The invariant every handler keeps: no entry's PlayerID is ever
     assigned, so all are 0, and so every message sent other than
     AcceptPlayer names player 0.
     */
    ghost predicate Valid()
      reads this
    {
      PlayerIdsZero(peers) && AllNamePlayerZero(outbox)
    }

    /** A host with an empty table and the counter at its default 0. */
    constructor ()
      ensures Valid()
      ensures peers == map[] && lastPlayerId == 0 && outbox == []
    {
      peers := map[];
      lastPlayerId := 0;
      outbox := [];
    }

    /**
     Sends `payload` once to every key whose entry is Active, except the key
     that `except` converts to; ValidPosition is not consulted.
     */
    method SendToAllBut(payload: seq<byte>, except: int32)
      modifies this`outbox
      ensures |outbox| >= |old(outbox)| && outbox[..|old(outbox)|] == old(outbox)
      ensures Broadcasts(outbox[|old(outbox)|..], payload, FanOutTargets(peers, except))
    {
      var table := peers;
      var skip := Unsigned(except);
      var pending := table.Keys;
      ghost var sent: seq<Send> := [];
      while pending != {}
        invariant pending <= table.Keys
        invariant outbox == old(outbox) + sent
        invariant Broadcasts(sent, payload, ReachedSoFar(table, pending, except))
        decreases pending
      {
        var id :| id in pending;
        FanOutStep(table, pending, id, except, payload, sent);
        if table[id].active && id != skip {
          outbox := outbox + [Send(id, payload)];
          sent := sent + [Send(id, payload)];
        }
        pending := pending - {id};
      }
      ReachedAll(table, except);
      assert outbox[|old(outbox)|..] == sent;
    }

    /**
     ENET_EVENT_TYPE_CONNECT. Replies `[AcceptPlayer, c]` with the counter's
     old value `c` and advances the counter modulo 256; then sends the
     newcomer one AddPlayer per positioned entry (including a stale one under
     the same key), in the visiting order `order`; then stores a fresh
     active, unpositioned entry under the key, replacing any old one.
     */
    method OnConnect(id: uint32) returns (ghost order: seq<uint32>)
      requires Valid()
      modifies this
      ensures Valid()
      ensures peers == ConnectTable(old(peers), id)
      ensures lastPlayerId == NextId(old(lastPlayerId))
      ensures outbox == old(outbox) + [Send(id, AcceptMessage(old(lastPlayerId)))] + AddsFor(id, old(peers), order)
      ensures multiset(order) == multiset(PositionedKeys(old(peers)))
    {
      var newPeer := Fresh;
      var reply := PackPair(AcceptPlayer, lastPlayerId);
      lastPlayerId := NextId(lastPlayerId);
      outbox := outbox + [Send(id, reply)];
      AllNamePlayerZeroConcat(old(outbox), [Send(id, reply)]);
      order := AnnouncePositioned(id);
      AddsForNamePlayerZero(id, peers, order);
      AllNamePlayerZeroConcat(old(outbox) + [Send(id, reply)], AddsFor(id, peers, order));
      peers := peers[id := newPeer];
    }

    /**
     The connect handler's loop: tells `newcomer` about every entry with a
     valid position, one AddPlayer each, in the order `order` the keys are
     visited.
     */
    method AnnouncePositioned(newcomer: uint32) returns (ghost order: seq<uint32>)
      modifies this`outbox
      ensures outbox == old(outbox) + AddsFor(newcomer, peers, order)
      ensures multiset(order) == multiset(PositionedKeys(peers))
    {
      var table := peers;
      var pending := table.Keys;
      order := [];
      while pending != {}
        invariant pending <= table.Keys
        invariant outbox == old(outbox) + AddsFor(newcomer, table, order)
        invariant multiset(order) == multiset(AnnouncedSoFar(table, pending))
        decreases pending
      {
        var key :| key in pending;
        AnnounceStep(table, pending, key, order);
        var peer := table[key];
        if peer.validPosition {
          var addBuffer := PackPlayer(AddPlayer, peer);
          AddsForExtend(newcomer, table, order, key);
          outbox := outbox + [Send(newcomer, addBuffer)];
          order := order + [key];
        }
        pending := pending - {key};
      }
      AnnouncedAll(table);
    }

    /**
     ENET_EVENT_TYPE_RECEIVE. `operator[]` inserts a zeroed, inactive entry
     for an unknown key. Only an UpdateInput tag does more: the entry takes
     the four shorts and becomes positioned, and the ReceiveBroadcast
     message (AddPlayer on the first update, UpdatePlayer afterwards) goes
     to every active key but the sender's.
     */
    method OnReceive(id: uint32, payload: seq<byte>)
      requires Valid() && Readable(payload)
      modifies this
      ensures Valid()
      ensures peers == ReceiveTable(old(peers), id, payload)
      ensures lastPlayerId == old(lastPlayerId)
      ensures |outbox| >= |old(outbox)| && outbox[..|old(outbox)|] == old(outbox)
      ensures ReceiveBroadcast(old(peers), id, payload).None? ==> outbox == old(outbox)
      ensures ReceiveBroadcast(old(peers), id, payload).Some? ==>
        Broadcasts(outbox[|old(outbox)|..], ReceiveBroadcast(old(peers), id, payload).value,
                   FanOutTargets(peers, Signed(id)))
    {
      var offset := 0;
      var peer := Lookup(peers, id);
      peers := peers[id := peer];
      var command := payload[offset];
      offset := offset + 1;
      if command == UpdateInput {
        peer := peer.(x := ShortAt(payload, offset));
        offset := offset + 2;
        peer := peer.(y := ShortAt(payload, offset));
        offset := offset + 2;
        peer := peer.(dx := ShortAt(payload, offset));
        offset := offset + 2;
        peer := peer.(dy := ShortAt(payload, offset));
        offset := offset + 2;

        var outboundCommand := UpdatePlayer;
        if !peer.validPosition {
          outboundCommand := AddPlayer;
        }
        peer := peer.(validPosition := true);
        peers := peers[id := peer];

        assert peers == ReceiveTable(old(peers), id, payload);
        var buffer := PackPlayer(outboundCommand, peer);
        assert buffer == ReceiveBroadcast(old(peers), id, payload).value;
        ghost var before := outbox;
        SendToAllBut(buffer, Signed(id));
        BroadcastNamesPlayerZero(before, outbox, buffer, FanOutTargets(peers, Signed(id)));
      } else {
        assert peers == ReceiveTable(old(peers), id, payload);
      }
    }

    /**
     ENET_EVENT_TYPE_DISCONNECT and _TIMEOUT. The key must be present. The
     `[RemovePlayer, PlayerID]` message goes out with exclusion -1 while the
     departing entry is still in the table, so every active key but
     0xFFFFFFFF hears it, the departing one included; then the key is erased.
     */
    method OnDisconnect(id: uint32)
      requires Valid() && id in peers
      modifies this
      ensures Valid()
      ensures peers == DisconnectTable(old(peers), id)
      ensures lastPlayerId == old(lastPlayerId)
      ensures |outbox| >= |old(outbox)| && outbox[..|old(outbox)|] == old(outbox)
      ensures old(peers)[id].playerId == 0
      ensures Broadcasts(outbox[|old(outbox)|..], RemoveMessage(old(peers)[id].playerId), FanOutTargets(old(peers), -1))
      ensures old(peers)[id].active && id != 0xFFFF_FFFF ==> id in FanOutTargets(old(peers), -1)
    {
      var buffer := PackPair(RemovePlayer, peers[id].playerId);
      ghost var before := outbox;
      SendToAllBut(buffer, -1);
      BroadcastNamesPlayerZero(before, outbox, buffer, FanOutTargets(peers, -1));
      peers := peers - {id};
    }

    /**
     One pass of the `switch (event.type)` in the network loop: the table and
     counter take one step, and the outbox gains exactly what the handler for
     that event kind sends (for a connect, in the visiting order `order`).
     */
    method Dispatch(e: Event) returns (ghost order: seq<uint32>)
      requires Valid() && Admissible(peers, e)
      modifies this
      ensures Valid()
      ensures peers == Apply(old(peers), e)
      ensures lastPlayerId == CounterStep(old(lastPlayerId), e)
      ensures |outbox| >= |old(outbox)| && outbox[..|old(outbox)|] == old(outbox)
      ensures e.Connect? ==>
        && outbox == old(outbox) + [Send(e.id, AcceptMessage(old(lastPlayerId)))] + AddsFor(e.id, old(peers), order)
        && multiset(order) == multiset(PositionedKeys(old(peers)))
      ensures e.Receive? && ReceiveBroadcast(old(peers), e.id, e.payload).None? ==> outbox == old(outbox)
      ensures e.Receive? && ReceiveBroadcast(old(peers), e.id, e.payload).Some? ==>
        Broadcasts(outbox[|old(outbox)|..], ReceiveBroadcast(old(peers), e.id, e.payload).value,
                   FanOutTargets(peers, Signed(e.id)))
      ensures e.Disconnect? || e.DisconnectTimeout? ==>
        Broadcasts(outbox[|old(outbox)|..], RemoveMessage(old(peers)[e.id].playerId), FanOutTargets(old(peers), -1))
      ensures e.NoEvent? ==> outbox == old(outbox)
    {
      order := [];
      match e
      case Connect(id) =>
        order := OnConnect(id);
      case Receive(id, payload) =>
        OnReceive(id, payload);
      case Disconnect(id) =>
        OnDisconnect(id);
      case DisconnectTimeout(id) =>
        OnDisconnect(id);
      case NoEvent =>
    }

    /**
     The network loop over the events the transport yields, in order. The
     table and counter end as the fold of the events over them, and the
     class invariant holds throughout.
     */
    method NetworkLoop(events: seq<Event>)
      requires Valid() && Admits(peers, events)
      modifies this
      ensures Valid()
      ensures peers == TableAfter(old(peers), events)
      ensures lastPlayerId == CounterAfter(old(lastPlayerId), events)
      ensures |outbox| >= |old(outbox)| && outbox[..|old(outbox)|] == old(outbox)
    {
      var i := 0;
      while i < |events|
        invariant 0 <= i <= |events|
        invariant Valid()
        invariant Admits(peers, events[i..])
        invariant TableAfter(peers, events[i..]) == TableAfter(old(peers), events)
        invariant CounterAfter(lastPlayerId, events[i..]) == CounterAfter(old(lastPlayerId), events)
        invariant |outbox| >= |old(outbox)| && outbox[..|old(outbox)|] == old(outbox)
      {
        assert events[i..][1..] == events[i + 1..];
        ghost var _ := Dispatch(events[i]);
        i := i + 1;
      }
    }
  }
}
