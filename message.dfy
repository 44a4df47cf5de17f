/**
 The Open Pixel Control message: a four-byte header (channel, command,
 length high byte, length low byte) followed by a payload.
 */
module OpcMessage {

  /** Go's `byte` / `uint8`. */
  type Byte = x: int | 0 <= x < 256

  /** Go's `uint16`. */
  type U16 = x: int | 0 <= x < 0x1_0000

  const SetPixelColorsCmd: Byte := 0x00
  const SystemExclusiveCmd: Byte := 0xFF
  const HeaderBytes: nat := 4
  const BroadcastChannel: Byte := 0
  const MaxMessageSize: nat := 0xFFFF

  /** `n` zero bytes, the contents of a freshly made Go byte slice. */
  function Zeros(n: nat): (z: seq<Byte>)
    ensures |z| == n && forall i :: 0 <= i < n ==> z[i] == 0
  {
    seq(n, _ => 0)
  }

  /** The 16-bit length carried by the two header length bytes,
      `uint16(high) << 8 | uint16(low)`; since `low` is below 256 the
      shift-or is the sum written here. */
  function LengthOf(high: Byte, low: Byte): U16
  {
    high * 256 + low
  }

  /** The declared length determines both header bytes: two headers declare
      the same length exactly when their high and low bytes agree. */
  lemma LengthOfInjective(high: Byte, low: Byte, high': Byte, low': Byte)
    ensures LengthOf(high, low) == LengthOf(high', low') <==> high == high' && low == low'
  {
    if LengthOf(high, low) == LengthOf(high', low') {
      SplitLengthOf(high, low);
      SplitLengthOf(high', low');
    }
  }

  /** The two header bytes `SetLength` stores for `n`: `byte(n >> 8)` and
      the truncation `byte(n)`, i.e. the quotient and remainder by 256. */
  function SplitLength(n: U16): (hl: (Byte, Byte))
    ensures LengthOf(hl.0, hl.1) == n
  {
    (n / 256, n % 256)
  }

  /** Splitting a joined length gives back the two bytes: the high byte is the
      quotient and the low byte the remainder of the length by 256. */
  lemma SplitLengthOf(high: Byte, low: Byte)
    ensures LengthOf(high, low) / 256 == high && LengthOf(high, low) % 256 == low
    ensures SplitLength(LengthOf(high, low)) == (high, low)
  {
  }

  /** The value of a message at one moment: its four header fields and its payload. */
  datatype Frame = Frame(channel: Byte, command: Byte, highLen: Byte, lowLen: Byte, data: seq<Byte>)
  {
    /** The declared payload length. */
    function Length(): U16
    {
      LengthOf(highLen, lowLen)
    }

    /** Declared length equals payload size, the size taken as a `uint16`. */
    predicate IsValid()
      ensures |data| <= MaxMessageSize ==> (IsValid() <==> Length() == |data|)
    {
      Length() == |data| % 0x1_0000
    }

    /** Channel 0 addresses every device. */
    predicate IsBroadcast()
      ensures IsBroadcast() <==> channel == 0
    {
      channel == BroadcastChannel
    }
  }

  /** The message `NewMessage(channel)` builds: zero header except the channel,
      and a payload buffer of `MaxMessageSize` zero bytes. */
  function Fresh(channel: Byte): (f: Frame)
    ensures f.channel == channel && f.command == SetPixelColorsCmd
    ensures !f.IsValid()
  {
    Frame(channel, SetPixelColorsCmd, 0, 0, Zeros(MaxMessageSize))
  }

  /** The wire bytes of a message: the header, then as many payload bytes as
      the header declares. */
  function Serialize(f: Frame): (r: seq<Byte>)
    requires f.Length() <= |f.data|
    ensures |r| == HeaderBytes + f.Length()
    ensures r[0] == f.channel && r[1] == f.command
    ensures LengthOf(r[2], r[3]) == |r| - HeaderBytes
    ensures r[HeaderBytes..] == f.data[..f.Length()]
  {
    [f.channel, f.command, f.highLen, f.lowLen] + f.data[..f.Length()]
  }

  /** A Go `*Message`: header fields and payload, updated in place. */
  class Message {
    var Channel: Byte
    var Command: Byte
    var HighLen: Byte
    var LowLen: Byte
    var Data: seq<Byte>

    /** The current value of this message. */
    function Value(): Frame
      reads this
    {
      Frame(Channel, Command, HighLen, LowLen, Data)
    }

    /** `NewMessage(channel)`. */
    constructor (channel: Byte)
      ensures Channel == channel && Command == 0 && HighLen == 0 && LowLen == 0
      ensures Data == Zeros(MaxMessageSize)
      ensures Value() == Fresh(channel)
    {
      Channel, Command, HighLen, LowLen := channel, SetPixelColorsCmd, 0, 0;
      Data := Zeros(MaxMessageSize);
    }

    function Length(): U16
      reads this
    {
      Value().Length()
    }

    predicate IsValid()
      reads this
    {
      Value().IsValid()
    }

    predicate IsBroadcast()
      reads this
    {
      Value().IsBroadcast()
    }

    /** Writes the red, green and blue bytes of pixel `pixel`; Go panics on an
        index outside the payload, so the caller must keep it inside. */
    method SetPixelColor(pixel: int, r: Byte, g: Byte, b: Byte)
      requires 0 <= pixel && 3 * pixel + 2 < |Data|
      modifies this
      ensures Channel == old(Channel) && Command == old(Command)
      ensures HighLen == old(HighLen) && LowLen == old(LowLen)
      ensures |Data| == |old(Data)|
      ensures Data[3 * pixel] == r && Data[3 * pixel + 1] == g && Data[3 * pixel + 2] == b
      ensures forall i :: 0 <= i < |Data| && i / 3 != pixel ==> Data[i] == old(Data)[i]
    {
      var index := 3 * pixel;
      Data := Data[index := r];
      Data := Data[index + 1 := g];
      Data := Data[index + 2 := b];
    }

    /** Marks this message system-exclusive and makes its payload `systemID`
        followed by `data`; the length bytes are left as they were. */
    method SystemExclusive(systemID: seq<Byte>, data: seq<Byte>)
      modifies this
      ensures Command == SystemExclusiveCmd && Data == systemID + data
      ensures Channel == old(Channel) && HighLen == old(HighLen) && LowLen == old(LowLen)
    {
      Command := SystemExclusiveCmd;
      Data := systemID;
      var i := 0;
      while i < |data|
        invariant 0 <= i <= |data|
        invariant Data == systemID + data[..i]
        invariant Command == SystemExclusiveCmd
        invariant Channel == old(Channel) && HighLen == old(HighLen) && LowLen == old(LowLen)
      {
        Data := Data + [data[i]];
        i := i + 1;
      }
      assert data[..i] == data;
    }

    /** Stores `length` in the two header length bytes. */
    method SetLength(length: U16)
      modifies this
      ensures Length() == length
      ensures HighLen == length / 256 && LowLen == length % 256
      ensures Channel == old(Channel) && Command == old(Command) && Data == old(Data)
    {
      var hl := SplitLength(length);
      HighLen := hl.0;
      LowLen := hl.1;
    }

    /** The wire bytes of this message; Go indexes `Data` up to `Length()`, so
        the declared length must not exceed the payload. */
    method ByteArray() returns (bytes: seq<Byte>)
      requires Length() <= |Data|
      ensures bytes == Serialize(Value())
    {
      bytes := [Channel, Command, HighLen, LowLen];
      var i := 0;
      var n := Length();
      while i < n
        invariant 0 <= i <= n
        invariant bytes == [Channel, Command, HighLen, LowLen] + Data[..i]
      {
        bytes := bytes + [Data[i]];
        i := i + 1;
      }
    }
  }

  /** A message on channel 255 with pixel 0 set to (1, 2, 3) and length 3
      serialises to the header followed by those three bytes. */
  method ByteArrayExample() returns (bytes: seq<Byte>)
    ensures bytes == [255, 0, 0, 3, 1, 2, 3]
  {
    var m := new Message(255);
    m.SetPixelColor(0, 1, 2, 3);
    m.SetLength(3);
    bytes := m.ByteArray();
    assert m.Data[..3] == [1, 2, 3];
  }
}
