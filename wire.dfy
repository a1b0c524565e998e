/**
 The byte-level protocol spoken between the relay server and its clients:
 fixed-width integer types, the command tags, the raw int16 packing the
 server uses for positions and velocities, and the shapes of the messages
 it sends and the one message it reads.

 Byte order: the server stores each int16 with a native-order memory cast.
 This model fixes that order to little-endian (as on x86) and uses the same
 order for the inbound reader.
 */
module Wire {

  newtype byte = x: int | 0 <= x < 0x100
  newtype int16 = x: int | -0x8000 <= x < 0x8000
  newtype uint32 = x: int | 0 <= x < 0x1_0000_0000
  newtype int32 = x: int | -0x8000_0000 <= x < 0x8000_0000

  datatype Option<T> = None | Some(value: T)

  // Command tags of the `NetworkCommands` enumeration. Its numeric values are
  // declared in net_common.h, which is not part of this model; the model only
  // relies on the five tags being distinct bytes.
  const AcceptPlayer: byte := 1
  const AddPlayer: byte := 2
  const UpdatePlayer: byte := 3
  const RemovePlayer: byte := 4
  const UpdateInput: byte := 5

  /** Reads a little-endian int16 from two bytes (two's complement). */
  function DecodeShort(lo: byte, hi: byte): int16
  {
    var u := lo as int + 0x100 * hi as int;
    if u >= 0x8000 then (u - 0x1_0000) as int16 else u as int16
  }

  /** `*(int16_t*)(buf + off) = v`: the two bytes of `v`, low byte first. */
  function EncodeShort(v: int16): (r: seq<byte>)
    ensures |r| == 2
    ensures DecodeShort(r[0], r[1]) == v
  {
    var u := if v < 0 then v as int + 0x1_0000 else v as int;
    [(u % 0x100) as byte, (u / 0x100) as byte]
  }

  /** Every pair of bytes is the encoding of the int16 it decodes to. */
  lemma EncodeDecodeShort(lo: byte, hi: byte)
    ensures EncodeShort(DecodeShort(lo, hi)) == [lo, hi]
  {
  }

  /** The int16 stored at byte offset `off` of `s`. */
  function ShortAt(s: seq<byte>, off: nat): int16
    requires off + 2 <= |s|
  {
    DecodeShort(s[off], s[off + 1])
  }

  /**
   The 10-byte AddPlayer / UpdatePlayer shape: tag, player id, then X, Y, DX
   and DY as int16 at offsets 2, 4, 6 and 8. Every field reads back unchanged
   from its offset.
   */
  function PlayerMessage(tag: byte, player: byte, x: int16, y: int16, dx: int16, dy: int16): (r: seq<byte>)
    ensures |r| == 10 && r[0] == tag && r[1] == player
    ensures ShortAt(r, 2) == x && ShortAt(r, 4) == y
    ensures ShortAt(r, 6) == dx && ShortAt(r, 8) == dy
  {
    [tag, player] + EncodeShort(x) + EncodeShort(y) + EncodeShort(dx) + EncodeShort(dy)
  }

  /** Any 10-byte buffer is the PlayerMessage of the fields read back from it. */
  lemma PlayerMessageDecodes(m: seq<byte>)
    requires |m| == 10
    ensures m == PlayerMessage(m[0], m[1], ShortAt(m, 2), ShortAt(m, 4), ShortAt(m, 6), ShortAt(m, 8))
  {
    EncodeDecodeShort(m[2], m[3]);
    EncodeDecodeShort(m[4], m[5]);
    EncodeDecodeShort(m[6], m[7]);
    EncodeDecodeShort(m[8], m[9]);
    assert m == [m[0], m[1]] + [m[2], m[3]] + [m[4], m[5]] + [m[6], m[7]] + [m[8], m[9]];
  }

  /** The 2-byte AcceptPlayer message carrying the allocated id. */
  function AcceptMessage(id: byte): seq<byte>
  {
    [AcceptPlayer, id]
  }

  /** The 2-byte RemovePlayer message. */
  function RemoveMessage(player: byte): seq<byte>
  {
    [RemovePlayer, player]
  }

  /** The four shorts of an inbound UpdateInput message. */
  datatype Input = Input(x: int16, y: int16, dx: int16, dy: int16)

  /**
   What the inbound reader needs: a tag byte, and when the tag is
   UpdateInput, four int16 after it.
   */
  predicate Readable(payload: seq<byte>)
  {
    |payload| >= 1 && (payload[0] == UpdateInput ==> |payload| >= 9)
  }

  /**
   The inbound decode: the tag at offset 0; only UpdateInput is understood,
   and then X, Y, DX and DY are the int16 at offsets 1, 3, 5 and 7. Every
   other tag yields nothing.
   */
  function DecodeInput(payload: seq<byte>): (r: Option<Input>)
    requires Readable(payload)
    ensures r.Some? <==> payload[0] == UpdateInput
  {
    if payload[0] != UpdateInput then None
    else Some(Input(ShortAt(payload, 1), ShortAt(payload, 3), ShortAt(payload, 5), ShortAt(payload, 7)))
  }

  /** The client's UpdateInput message, the inverse of DecodeInput. */
  function EncodeInput(i: Input): (r: seq<byte>)
    ensures |r| == 9 && Readable(r)
    ensures DecodeInput(r) == Some(i)
  {
    [UpdateInput] + EncodeShort(i.x) + EncodeShort(i.y) + EncodeShort(i.dx) + EncodeShort(i.dy)
  }

  /** A decoded update re-encodes to the first nine bytes of its payload. */
  lemma DecodeInputEncodes(payload: seq<byte>)
    requires Readable(payload) && payload[0] == UpdateInput
    ensures EncodeInput(DecodeInput(payload).value) == payload[..9]
  {
    EncodeDecodeShort(payload[1], payload[2]);
    EncodeDecodeShort(payload[3], payload[4]);
    EncodeDecodeShort(payload[5], payload[6]);
    EncodeDecodeShort(payload[7], payload[8]);
    assert payload[..9] == [payload[0]] + [payload[1], payload[2]] + [payload[3], payload[4]]
                           + [payload[5], payload[6]] + [payload[7], payload[8]];
  }
}
