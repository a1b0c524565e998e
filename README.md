# Relay server session logic, modelled in Dafny

This project models the event handler of a small relay server for a real-time
multiplayer game. The server accepts client connections over ENet (a
reliable-UDP library). It hands each client a player id and stores its
reported position and velocity. It then relays each update to the other
clients.

The model covers the per-event logic of `AsyncHost::NetworkLoop` and
`AsyncHost::SendToAllBut`, and the state they change:

- `m_peers`: a table from 32-bit connection id to `PeerInfo`. An entry holds
  `Active`, `ValidPosition`, the int16 fields `X`, `Y`, `DX`, `DY`, and a
  `PlayerID` byte.
- `m_lastPlayerId`: an 8-bit player-id counter.

Files:

- `wire.dfy` (module `Wire`): the fixed-width integer types and the command
  tags. It also holds the int16 packing, the 10-byte AddPlayer/UpdatePlayer
  shape, the 2-byte AcceptPlayer/RemovePlayer shapes, and the inbound
  UpdateInput decode.
- `session.dfy` (module `Session`): the `PeerInfo` record and each event's
  effect on the table and the counter, as pure functions. It also holds the
  set of keys a fan-out reaches, and lemmas over whole sequences of events.
- `host.dfy` (module `Host`): the class `AsyncHost`. Its fields are the
  table, the counter and an outbox of `(connection id, bytes)` sends. It has
  one method per event kind. `SendToAllBut` and the connect handler's
  announcement loop are `while` loops over the table's keys. Messages are
  filled into byte arrays slot by slot, as in the source. Every handler's
  `ensures` ties the new table and counter to the `Session` functions and
  says exactly what was sent to whom.

Assumptions:

- Byte order: the source stores int16 values with native-order memory
  casts. The model fixes that order to little-endian, as on x86. The inbound
  reader uses the same order: the tag is at offset 0 and the four int16
  values are at offsets 1, 3, 5 and 7.
- Command tags: their numeric values live in `net_common.h`, which is not
  part of this model. The model uses AcceptPlayer=1, AddPlayer=2,
  UpdatePlayer=3, RemovePlayer=4 and UpdateInput=5. Only their distinctness
  matters to any proof.
- Addressing: a send goes to the entry's transport handle `Peer`. The model
  addresses it by the entry's connection id instead. The only entries without
  a handle are the ones `operator[]` creates on receive. Those are inactive,
  so no send ever goes to them.
- Signed conversion: the update handler passes the `uint32_t` connection id
  as `SendToAllBut`'s `int` parameter (`server/async_host.cpp:156`). Before
  C++20 that conversion is implementation-defined for ids of 2^31 and above.
  The model fixes it to two's complement (`Signed`), so the id converts back
  to itself in the comparison at line 209.
- Integer types: the `int16`, `uint32` and `byte` newtypes carry the
  source's integer widths. So every stored position or velocity lies in
  [-32768, 32767], and the table, being a `map`, holds at most one entry per
  connection id.

## Where the code and its comments differ

The model follows the code in each case below:

- The allocated player id goes only into the AcceptPlayer reply, "so they
  know who they are" (`server/async_host.cpp:75`). The entry's `PlayerID`,
  which every AddPlayer, UpdatePlayer and RemovePlayer message carries
  (`server/async_host.cpp:93`, `147`, `177`), is never assigned. It keeps its
  default 0 (`server/include/async_host.h:36`), so all those messages name
  player 0.
- The comment on the connect loop says only players "who are valid and not
  the new player" are announced (`server/async_host.cpp:86`). The code tests
  `ValidPosition` only (line 87), so a stale positioned entry under the
  newcomer's own key is announced to it.
- The receive handler's comment says that once a player has sent a
  position "they can be part of future regular updates"
  (`server/async_host.cpp:141`), which suggests that unpositioned players are
  not. The comment at line 68 is ambiguous: it may only mean that a
  newcomer is not announced before it has a position, which the code does.
  Fan-out filters on `Active` and the excluded key only (line 209), so an
  unpositioned but active client does receive other clients' updates.
- The disconnect handler's comment says the RemovePlayer message goes to
  "everyone but the player who sent it" (`server/async_host.cpp:179`). The
  code passes `-1` (line 181), which converts to 0xFFFFFFFF, and erases the
  entry only afterwards (line 183). So the departing client is sent the
  message too, unless its id is 0xFFFFFFFF.

Two further behaviours of the code:

- A disconnect for a key with no entry dereferences `end()`
  (`server/async_host.cpp:172-177`). The model makes presence a
  precondition.
- A receive for an unknown key inserts a zeroed, inactive entry through
  `operator[]` (`server/async_host.cpp:120`).

## Model

| member | source | states |
|---|---|---|
| `Wire.EncodeShort` | server/async_host.cpp:94-97 | An int16 is written as two bytes, low byte first, and reads back as the same value. |
| `Wire.EncodeDecodeShort` | server/async_host.cpp:148-151 | Every pair of bytes is exactly the encoding of the int16 it decodes to, so the packing is a bijection. |
| `Wire.PlayerMessage` | server/async_host.cpp:91-97 | The AddPlayer/UpdatePlayer shape is exactly 10 bytes: the tag at 0, the player at 1, and X, Y, DX, DY readable unchanged at offsets 2, 4, 6 and 8. |
| `Wire.PlayerMessageDecodes` | server/async_host.cpp:145-151 | Any 10-byte buffer equals the message built from the fields read back from it. |
| `Wire.DecodeInput` | server/async_host.cpp:123-132 | The inbound decode yields an input exactly when the tag at offset 0 is UpdateInput; any other tag yields nothing. |
| `Wire.EncodeInput` | server/async_host.cpp:126-132 | A client's 9-byte UpdateInput message is readable and decodes to the input it was built from. |
| `Wire.DecodeInputEncodes` | server/async_host.cpp:129-132 | A decoded update re-encodes to the first nine bytes of its payload. |
| `Session.NextId` | server/async_host.cpp:75 | The uint8_t post-increment of the counter yields (c + 1) mod 256. |
| `Session.Unsigned` | server/async_host.cpp:209 | The `int` exclusion, compared with a uint32_t key, converts to a uint32 congruent to it modulo 2^32. |
| `Session.Signed` | server/async_host.cpp:156 | Passing a connection id as the `int` exclusion converts back to the same key. |
| `Session.FanOutIgnoresPosition` | server/async_host.cpp:205-213 | ValidPosition plays no part in fan-out: two tables with the same keys and the same Active flags reach the same keys for every exclusion. |
| `Session.ReceiveKeepsFanOut` | server/async_host.cpp:120-142 | A receive never changes which keys a fan-out reaches. It keeps every Active flag, and the entry it may insert for an unknown key is inactive. |
| `Session.NoEcho` | server/async_host.cpp:156 | An update broadcast never reaches its sender, and it reaches every other active key, positioned or not. |
| `Session.MinusOneExcludesOnlyMax` | server/async_host.cpp:181 | The `-1` exclusion converts to 0xFFFFFFFF, so every other active key is reached. |
| `Session.ConnectTable` | server/async_host.cpp:63-70 | After a connect the key holds an active, unpositioned entry with PlayerID 0, replacing any old entry (`insert_or_assign`, line 109); all other entries are unchanged. |
| `Session.Lookup` | server/async_host.cpp:120 | `operator[]` yields the stored entry, or for a missing key an inactive, unpositioned entry with PlayerID 0. |
| `Session.ReceiveTable` | server/async_host.cpp:120-142 | After a receive the key is present and other entries are unchanged. A non-UpdateInput tag leaves the entry as looked up. UpdateInput sets X/Y/DX/DY to the four decoded shorts and ValidPosition to true, and keeps Active and PlayerID. |
| `Session.ReceiveBroadcast` | server/async_host.cpp:135-151 | A message goes out exactly when the tag is UpdateInput. It is 10 bytes and describes the entry after the update. Its tag is AddPlayer exactly when the entry had no valid position before, and UpdatePlayer exactly when it had. |
| `Session.DisconnectTable` | server/async_host.cpp:183 | After the erase the key is absent and every remaining entry is unchanged. |
| `Session.StrayUpdateEntry` | server/async_host.cpp:120 | An update from a key with no entry leaves a positioned but inactive entry: newcomers are told about it, but no fan-out reaches it. |
| `Session.AcceptedIdsCountUp` | server/async_host.cpp:75 | Over any sequence of events, the i-th accepted id is (c + i) mod 256, and the counter ends advanced by the number of connects, modulo 256. |
| `Session.AcceptedIdsDistinct` | server/include/async_host.h:43 | Ids handed out by at most 256 connects are pairwise distinct. |
| `Session.AcceptedIdsWrap` | server/include/async_host.h:43 | The 257th connect gets the same id as the first: allocation is 0, 1, …, 255 and then repeats. |
| `Session.ApplyKeepsPlayerIdsZero` | server/async_host.cpp:59-189 | No event handler gives an entry a non-zero PlayerID. |
| `Session.PlayerIdsStayZero` | server/include/async_host.h:36 | Starting from a table whose PlayerIDs are all 0, every PlayerID is still 0 after any admissible sequence of events. |
| `Session.PositionPersists` | server/async_host.cpp:138-142 | A positioned entry stays present and positioned through any events that neither reconnect nor disconnect its key. |
| `Session.UnpositionedPersists` | server/async_host.cpp:66-69 | An unpositioned entry stays present, unpositioned and equally active through any events that neither reconnect nor disconnect its key nor carry an UpdateInput from it. |
| `Session.FirstAddThenUpdate` | server/async_host.cpp:135-142 | The first update after a connect is broadcast as AddPlayer, whatever other clients' events come in between. Every later update from that key, until it reconnects or disconnects, is broadcast as UpdatePlayer. |
| `Session.TwoClientScenario` | server/async_host.cpp:59-165 | Two clients connect and are accepted as 0 and 1. Each one's first update goes only to the other client, as AddPlayer naming player 0. |
| `Session.TwoClientScenarioContinued` | server/async_host.cpp:135-183 | Continuing that run: A's second update goes only to B, as UpdatePlayer naming player 0. When B then disconnects, `[RemovePlayer, 0]` goes to A and B, except to a key equal to 0xFFFFFFFF, and only A is left. |
| `Host.PackShort` | server/async_host.cpp:148-151 | Writing an int16 into a buffer puts its two-byte encoding at the offset and leaves every other slot unchanged. |
| `Host.PackPlayer` | server/async_host.cpp:145-151 | Filling the 10-byte buffer slot by slot produces exactly the entry's PlayerMessage. |
| `Host.PackPair` | server/async_host.cpp:175-177 | Filling the 2-byte buffer produces `[tag, player]`. |
| `Host.AsyncHost.constructor` | server/include/async_host.h:43-45 | A new host has an empty table, the counter at 0, and the class invariant. |
| `Host.AsyncHost.SendToAllBut` | server/async_host.cpp:205-213 | The outbox grows by sends of the payload only, one to each key whose entry is Active and which is not the excluded key, and to no other key. Earlier sends are unchanged. |
| `Host.AsyncHost.OnConnect` | server/async_host.cpp:59-112 | The client is sent `[AcceptPlayer, c]`, where c is the old counter. Then it gets one AddPlayer per positioned entry of the old table, including a stale entry under its own key, and nothing for unpositioned entries. The counter becomes (c + 1) mod 256 and the table becomes ConnectTable. PlayerIDs stay 0. |
| `Host.AsyncHost.AnnouncePositioned` | server/async_host.cpp:84-107 | The connect loop sends the newcomer, in visiting order, the AddPlayer message of each positioned entry, each key exactly once. |
| `Host.AsyncHost.OnReceive` | server/async_host.cpp:115-165 | The table becomes ReceiveTable and the counter is unchanged. A non-update sends nothing. An update sends the ReceiveBroadcast message once to every active key but the sender's. |
| `Host.AsyncHost.OnDisconnect` | server/async_host.cpp:166-189 | The key must be present. `[RemovePlayer, 0]` goes once to every active key of the table as it was before the erase, the departing key included unless it is 0xFFFFFFFF. Then the key is removed and the rest of the table is unchanged. |
| `Host.AsyncHost.Dispatch` | server/async_host.cpp:55-193 | Handling one event moves the table and the counter exactly as Apply and CounterStep say. The outbox gains exactly what that event's handler sends: the accept and one AddPlayer per positioned entry on connect, the ReceiveBroadcast message to every active key but the sender's on an update, nothing on any other receive, `[RemovePlayer, PlayerID]` to every active key but 0xFFFFFFFF on either disconnect, and nothing on NoEvent. |
| `Host.AsyncHost.NetworkLoop` | server/async_host.cpp:45-195 | Handling a sequence of polled events leaves the table and counter as TableAfter and CounterAfter say. Every PlayerID stays 0, and every message other than AcceptPlayer names player 0. |

## Left out

- Thread lifecycle: `AsyncHost::Run`, `Abort`, `IsRunning`, the
  `m_runWorker` atomic, and the worker `std::thread` with its join. These are
  cross-thread start/stop control with no per-event logic. `NetworkLoop`
  takes the polled events as input and ends when they run out.
- The ENet transport, treated as foreign calls: `enet_initialize`,
  `enet_host_create`, `enet_host_service` with its 1000 ms poll,
  `enet_packet_create`, `enet_peer_send`, `enet_packet_destroy`,
  `enet_host_destroy` and the `g_server` global. A send is an append to the
  outbox, and an event is an input.
- `ReadByte` and `ReadShort` live in `net_common.h`, which is not part of
  this model. Their decoding contract is assumed instead (see byte order
  above). Their behaviour on a payload too short for the update branch is
  unknown, so `Readable` is a precondition.
- `printf` logging.
- `unordered_map` iteration order. The loops pick keys in an unspecified
  order, and contracts state recipient multisets.
- `server/include/async_connection.h` holds only a pointer setter and an
  unused field, with no behaviour to model.
- Host.AsyncHost.OnConnect: the source's `PeerInfo newPeer;` leaves X, Y, DX
  and DY indeterminate. The model stores 0. Nothing reads these fields before
  an update overwrites them, because the connect loop only reads positioned
  entries.
- Host.AsyncHost.NetworkLoop: its contract does not list the messages of a
  whole run. Those are stated per event by `Dispatch`, which it calls once
  per event.
