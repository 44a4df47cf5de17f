/**
 The Open Pixel Control server side: the byte-at-a-time stream decoder, the
 registry of devices keyed by channel, and the dispatcher that routes a
 decoded message to one device or, for a broadcast, to all of them.
 */
module OpcServer {
  import opened OpcMessage

  datatype Option<T> = None | Some(value: T)

  /** The error a connection reports once it has no more bytes. */
  datatype ReadError = EndOfStream

  /** The error a device may report from a write; the dispatcher ignores it. */
  datatype WriteError = DeviceFailure

  /** A connection: a finite byte stream and a cursor over it. */
  class Conn {
    var stream: seq<Byte>
    var cursor: nat

    ghost predicate Valid()
      reads this
    {
      cursor <= |stream|
    }

    /** The bytes not read yet. */
    function Remaining(): seq<Byte>
      reads this
      requires Valid()
    {
      stream[cursor..]
    }

    constructor (payload: seq<Byte>)
      ensures Valid() && stream == payload && cursor == 0
    {
      stream, cursor := payload, 0;
    }

    /** Reads one byte; running out of bytes is a read error. */
    method Read() returns (b: Byte, err: Option<ReadError>)
      requires Valid()
      modifies this`cursor
      ensures Valid()
      ensures old(cursor) < |stream| ==> err == None && b == stream[old(cursor)] && cursor == old(cursor) + 1
      ensures old(cursor) == |stream| ==> err == Some(EndOfStream) && cursor == old(cursor)
    {
      if cursor < |stream| {
        b, err := stream[cursor], None;
        cursor := cursor + 1;
      } else {
        b, err := 0, Some(EndOfStream);
      }
    }
  }

  // ---------------------------------------------------------------------
  // The decoder as a state machine on values
  // ---------------------------------------------------------------------

  /** The decoder's state between two bytes: the `uint16` byte counter and the
      message being filled. */
  datatype DecodeState = DecodeState(bytesRead: U16, msg: Frame)

  /** What one decoding call yields: a message and the number of bytes it
      consumed, or the read error that stopped it. */
  datatype Outcome = Decoded(msg: Frame, consumed: nat) | ReadFailed

  /** The largest declared length for which the wrapping `uint16` counter still
      routes every payload byte to its place (byte 65536 lands on counter 0,
      byte 65537 on counter 1, which is the channel field again). */
  const MaxDecodableLength: nat := 65532

  /** The state before the first byte: counter 0 and `NewMessage(0)`. */
  function Initial(): (st: DecodeState)
    ensures st.bytesRead == 0 && |st.msg.data| == MaxMessageSize && !st.msg.IsValid()
  {
    DecodeState(0, Fresh(0))
  }

  /** `uint16` increment: 65535 wraps around to 0. */
  function Inc16(a: U16): (r: U16)
    ensures r == (a + 1) % 0x1_0000
  {
    if a == 0xFFFF then 0 else a + 1
  }

  /** `uint16` subtraction of a small constant: below zero it wraps around. */
  function Sub16(a: U16, k: nat): (r: U16)
    requires k <= 0xFFFF
    ensures r == (a - k) % 0x1_0000
  {
    if a >= k then a - k else a + 0x1_0000 - k
  }

  /** Where byte `b` goes when the counter has reached `n`: counters 1 to 4
      fill the header, any other counter stores `b` at payload index `n - 5`
      (modulo 2^16) and, when `n - 4` (modulo 2^16) reaches the declared
      length, trims the payload to that length. */
  function Place(m: Frame, n: U16, b: Byte): (r: Frame)
    requires |m.data| == MaxMessageSize
    ensures |r.data| == MaxMessageSize || r.IsValid()
  {
    if n == 1 then m.(channel := b)
    else if n == 2 then m.(command := b)
    else if n == 3 then m.(highLen := b)
    else if n == 4 then m.(lowLen := b)
    else
      var d := m.data[Sub16(n, 5) := b];
      m.(data := if Sub16(n, 4) == m.Length() then d[..m.Length()] else d)
  }

  /** One iteration of the decoding loop on byte `b`: the counter is bumped
      modulo 2^16 and the byte is placed by the new counter. */
  function Step(st: DecodeState, b: Byte): (next: DecodeState)
    requires |st.msg.data| == MaxMessageSize
    ensures next.bytesRead == Inc16(st.bytesRead)
    ensures |next.msg.data| == MaxMessageSize || next.msg.IsValid()
  {
    var n := Inc16(st.bytesRead);
    DecodeState(n, Place(st.msg, n, b))
  }

  /** Runs the loop from `st` over the bytes `s`: it stops as soon as the
      message is valid and fails when the bytes run out first; `consumed`
      counts the bytes read from `s`. */
  function Run(st: DecodeState, s: seq<Byte>): (o: Outcome)
    requires |st.msg.data| == MaxMessageSize || st.msg.IsValid()
    ensures o.Decoded? ==> o.msg.IsValid() && o.consumed <= |s|
    decreases |s|
  {
    if st.msg.IsValid() then Decoded(st.msg, 0)
    else if |s| == 0 then ReadFailed
    else Later(Run(Step(st, s[0]), s[1..]), 1)
  }

  /** The outcome `o` seen from `k` bytes earlier in the stream. */
  function Later(o: Outcome, k: nat): (r: Outcome)
    ensures r.Decoded? <==> o.Decoded?
    ensures r.Decoded? ==> r.msg == o.msg && r.consumed == o.consumed + k
  {
    match o
    case Decoded(m, n) => Decoded(m, n + k)
    case ReadFailed => ReadFailed
  }

  /** One byte of the loop: reading the first byte of `s` moves the run one
      step on and one byte later. */
  lemma RunStep(st: DecodeState, s: seq<Byte>, k: nat, o: Outcome)
    requires |st.msg.data| == MaxMessageSize && !st.msg.IsValid() && |s| > 0
    requires Later(Run(st, s), k) == o
    ensures Later(Run(Step(st, s[0]), s[1..]), k + 1) == o
  {
  }

  /** What `ReadOpc` makes of a connection whose unread bytes are `s`. */
  function Decode(s: seq<Byte>): (o: Outcome)
    ensures o.Decoded? ==> o.msg.IsValid() && o.consumed <= |s|
  {
    Run(Initial(), s)
  }

  /** The body of the decoding loop once the counter has been bumped to `n`:
      the switch on the counter that stores byte `b` into `msg` in place. */
  method Store(msg: Message, n: U16, b: Byte)
    requires |msg.Data| == MaxMessageSize
    modifies msg
    ensures msg.Value() == Place(old(msg.Value()), n, b)
  {
    if n == 1 {
      msg.Channel := b;
    } else if n == 2 {
      msg.Command := b;
    } else if n == 3 {
      msg.HighLen := b;
    } else if n == 4 {
      msg.LowLen := b;
    } else {
      msg.Data := msg.Data[Sub16(n, 5) := b];
      if Sub16(n, 4) == msg.Length() {
        msg.Data := msg.Data[..msg.Length()];
      }
    }
  }

  /** Reads one message from `conn`, byte by byte, into a message made by
      `NewMessage(0)`; a read error before the message is valid yields no
      message and the error. */
  method ReadOpc(conn: Conn) returns (m: Message?, err: Option<ReadError>)
    requires conn.Valid()
    modifies conn
    ensures conn.Valid() && conn.stream == old(conn.stream)
    ensures Decode(old(conn.Remaining())).Decoded? ==>
      m != null && fresh(m) && err == None
      && m.Value() == Decode(old(conn.Remaining())).msg
      && conn.cursor == old(conn.cursor) + Decode(old(conn.Remaining())).consumed
    ensures Decode(old(conn.Remaining())).ReadFailed? ==>
      m == null && err == Some(EndOfStream) && conn.cursor == |conn.stream|
  {
    ghost var s0 := conn.Remaining();
    ghost var c0 := conn.cursor;
    var bytesRead: U16 := 0;
    var msg := new Message(0);
    ghost var st := Initial();
    while !msg.IsValid()
      invariant conn.Valid() && conn.stream == old(conn.stream)
      invariant c0 <= conn.cursor
      invariant fresh(msg)
      invariant st == DecodeState(bytesRead, msg.Value())
      invariant |st.msg.data| == MaxMessageSize || st.msg.IsValid()
      invariant Later(Run(st, conn.Remaining()), conn.cursor - c0) == Decode(s0)
      decreases |conn.stream| - conn.cursor
    {
      ghost var rest := conn.Remaining();
      var b, e := conn.Read();
      if e.Some? {
        assert rest == [];
        return null, e;
      }
      RunStep(st, rest, conn.cursor - 1 - c0, Decode(s0));
      assert rest[0] == b && rest[1..] == conn.Remaining();
      st := Step(st, b);
      bytesRead := Inc16(bytesRead);
      Store(msg, bytesRead, b);
    }
    m, err := msg, None;
  }

  // ---------------------------------------------------------------------
  // What the decoder does with a stream
  // ---------------------------------------------------------------------

  /** The first four bytes fill the header in order; a declared length of
      `MaxMessageSize` makes the message valid at once, with the zero bytes
      `NewMessage` allocated as its payload. */
  lemma DecodeHeader(s: seq<Byte>)
    requires |s| >= HeaderBytes
    ensures var h := Frame(s[0], s[1], s[2], s[3], Zeros(MaxMessageSize));
      Decode(s) == if h.Length() == MaxMessageSize then Decoded(h, HeaderBytes)
                   else Later(Run(DecodeState(4, h), s[4..]), HeaderBytes)
  {
    var z := Zeros(MaxMessageSize);
    var st1 := Step(Initial(), s[0]);
    assert st1 == DecodeState(1, Frame(s[0], 0, 0, 0, z));
    var st2 := Step(st1, s[1]);
    assert st2 == DecodeState(2, Frame(s[0], s[1], 0, 0, z));
    var st3 := Step(st2, s[2]);
    assert st3 == DecodeState(3, Frame(s[0], s[1], s[2], 0, z));
    assert !st3.msg.IsValid();
    var st4 := Step(st3, s[3]);
    assert st4 == DecodeState(4, Frame(s[0], s[1], s[2], s[3], z));
    assert s[1..][0] == s[1] && s[1..][1..] == s[2..];
    assert s[2..][0] == s[2] && s[2..][1..] == s[3..];
    assert s[3..][0] == s[3] && s[3..][1..] == s[4..];
    assert Decode(s) == Later(Run(st1, s[1..]), 1);
    assert Run(st1, s[1..]) == Later(Run(st2, s[2..]), 1);
    assert Run(st2, s[2..]) == Later(Run(st3, s[3..]), 1);
    assert Run(st3, s[3..]) == Later(Run(st4, s[4..]), 1);
  }

  /** Fewer than four bytes never make a message. */
  lemma DecodeShortHeader(s: seq<Byte>)
    requires |s| < HeaderBytes
    ensures Decode(s) == ReadFailed
  {
    var z := Zeros(MaxMessageSize);
    assert !Initial().msg.IsValid();
    if |s| > 0 {
      var st1 := Step(Initial(), s[0]);
      assert st1 == DecodeState(1, Frame(s[0], 0, 0, 0, z));
      assert !st1.msg.IsValid();
      assert Decode(s) == Later(Run(st1, s[1..]), 1);
      if |s| > 1 {
        assert s[1..][0] == s[1] && s[1..][1..] == s[2..];
        var st2 := Step(st1, s[1]);
        assert st2 == DecodeState(2, Frame(s[0], s[1], 0, 0, z));
        assert !st2.msg.IsValid();
        assert Run(st1, s[1..]) == Later(Run(st2, s[2..]), 1);
        if |s| > 2 {
          assert s[2..][0] == s[2] && s[2..][1..] == [];
          var st3 := Step(st2, s[2]);
          assert st3 == DecodeState(3, Frame(s[0], s[1], s[2], 0, z));
          assert !st3.msg.IsValid();
          assert Run(st2, s[2..]) == Later(Run(st3, []), 1);
        }
      }
    }
  }

  /** The payload phase: with the header read and `k` payload bytes stored,
      the decoder stores the next bytes at indices `k`, `k + 1`, ... and stops
      after exactly `Length() - k` more bytes, or fails if the stream is
      shorter. */
  lemma {:induction false} DecodePayload(h: Frame, k: nat, t: seq<Byte>)
    requires 1 <= h.Length() <= MaxDecodableLength
    requires k < h.Length() && |h.data| == MaxMessageSize
    ensures |t| >= h.Length() - k ==>
      Run(DecodeState(4 + k, h), t) == Decoded(h.(data := h.data[..k] + t[..h.Length() - k]), h.Length() - k)
    ensures |t| < h.Length() - k ==> Run(DecodeState(4 + k, h), t) == ReadFailed
    decreases h.Length() - k
  {
    var len := h.Length();
    PayloadPending(h);
    if |t| > 0 {
      var d := h.data[k := t[0]];
      PayloadRun(h, k, t);
      if k + 1 < len {
        DecodePayload(h.(data := d), k + 1, t[1..]);
        if |t| >= len - k {
          StoreThenCopy(h.data, k, t, len);
        }
      } else {
        StoreThenCopy(h.data, k, t, len);
      }
    }
  }

  /** Storing the first byte of `t` at index `k` of the buffer and taking the
      rest of the payload from the bytes after it is taking the first `k`
      buffer bytes and then the payload from `t`. */
  lemma StoreThenCopy(buf: seq<Byte>, k: nat, t: seq<Byte>, len: nat)
    requires k < len <= |buf| && len - k <= |t|
    ensures buf[k := t[0]][..k + 1] + t[1..][..len - (k + 1)] == buf[..k] + t[..len - k]
    ensures k + 1 == len ==> buf[k := t[0]][..len] == buf[..k] + t[..len - k]
  {
    assert buf[k := t[0]][..k + 1] == buf[..k] + t[..1];
  }

  /** While the payload buffer is the full `MaxMessageSize` bytes, a message
      declaring a length in the decodable range is not yet valid. */
  lemma PayloadPending(h: Frame)
    requires h.Length() <= MaxDecodableLength && |h.data| == MaxMessageSize
    ensures !h.IsValid()
  {
  }

  /** The run from payload index `k` reads one byte and either completes the
      message or goes on from index `k + 1`. */
  lemma PayloadRun(h: Frame, k: nat, t: seq<Byte>)
    requires 1 <= h.Length() <= MaxDecodableLength
    requires k < h.Length() && |h.data| == MaxMessageSize && |t| > 0
    ensures k + 1 == h.Length() ==>
      Run(DecodeState(4 + k, h), t) == Decoded(h.(data := h.data[k := t[0]][..h.Length()]), 1)
    ensures k + 1 < h.Length() ==>
      Run(DecodeState(4 + k, h), t) == Later(Run(DecodeState(4 + (k + 1), h.(data := h.data[k := t[0]])), t[1..]), 1)
  {
    PayloadPending(h);
    var next := PayloadStep(h, k, t[0]);
    assert Run(DecodeState(4 + k, h), t) == Later(Run(next, t[1..]), 1);
  }

  /** One payload byte: at payload index `k` the byte is stored there, and
      the payload is cut to the declared length once it is complete. */
  lemma PayloadStep(h: Frame, k: nat, b: Byte) returns (next: DecodeState)
    requires 1 <= h.Length() <= MaxDecodableLength
    requires k < h.Length() && |h.data| == MaxMessageSize
    ensures next == Step(DecodeState(4 + k, h), b)
    ensures k + 1 == h.Length() ==> next.msg == h.(data := h.data[k := b][..h.Length()]) && next.msg.IsValid()
    ensures k + 1 < h.Length() ==> next == DecodeState(4 + (k + 1), h.(data := h.data[k := b]))
  {
    next := Step(DecodeState(4 + k, h), b);
    var n := Inc16(4 + k);
    assert n == (5 + k) % 0x1_0000 && !(1 <= n <= 4);
    assert Sub16(n, 5) == k && Sub16(n, 4) == k + 1;
  }

  /** The main decoding theorem: for a declared length between 1 and
      `MaxDecodableLength`, the decoder consumes exactly the header and the
      declared number of payload bytes, copies the header bytes in order and
      takes the payload from the bytes that follow; a shorter stream is a read
      error. */
  lemma DecodeMessage(s: seq<Byte>)
    requires |s| >= HeaderBytes && 1 <= LengthOf(s[2], s[3]) <= MaxDecodableLength
    ensures var len := LengthOf(s[2], s[3]);
      Decode(s) == if |s| >= HeaderBytes + len
                   then Decoded(Frame(s[0], s[1], s[2], s[3], s[4..4 + len]), HeaderBytes + len)
                   else ReadFailed
  {
    var len := LengthOf(s[2], s[3]);
    var h := Frame(s[0], s[1], s[2], s[3], Zeros(MaxMessageSize));
    DecodeHeader(s);
    DecodePayload(h, 0, s[4..]);
    if |s| >= HeaderBytes + len {
      assert h.data[..0] + s[4..][..len] == s[4..4 + len];
    }
  }

  /** A declared length of `MaxMessageSize` ends the call right after the
      header: no payload byte is read and the payload is the zero buffer. */
  lemma DecodeMaxLength(s: seq<Byte>)
    requires |s| >= HeaderBytes && LengthOf(s[2], s[3]) == MaxMessageSize
    ensures Decode(s) == Decoded(Frame(s[0], s[1], s[2], s[3], Zeros(MaxMessageSize)), HeaderBytes)
  {
    DecodeHeader(s);
  }

  /** Round trip: decoding the wire bytes of a valid message whose length is
      between 1 and `MaxDecodableLength` consumes exactly those bytes and
      gives back a message with the same wire bytes (the same message when
      its payload holds no bytes beyond the declared length). */
  lemma DecodeRoundTrip(f: Frame, rest: seq<Byte>)
    requires f.IsValid() && 1 <= f.Length() <= MaxDecodableLength
    ensures f.Length() <= |f.data|
    ensures var g := f.(data := f.data[..f.Length()]);
      && Decode(Serialize(f) + rest) == Decoded(g, |Serialize(f)|)
      && Serialize(g) == Serialize(f)
      && (|f.data| <= MaxMessageSize ==> g == f)
  {
    var len := f.Length();
    var w := Serialize(f) + rest;
    assert w[..4] == [f.channel, f.command, f.highLen, f.lowLen];
    assert w[4..4 + len] == f.data[..len];
    DecodeMessage(w);
    if |f.data| <= MaxMessageSize {
      assert f.data[..len] == f.data;
    }
  }

  /** The seven wire bytes of a message on channel 255 holding one pixel
      (1, 2, 3) and declaring length 3 decode to that message. */
  lemma DecodeExample(s: seq<Byte>)
    requires s == [255, 0, 0, 3, 1, 2, 3]
    ensures Decode(s) == Decoded(Frame(255, 0, 0, 3, [1, 2, 3]), 7)
  {
    DecodeMessage(s);
    assert s[4..7] == [1, 2, 3];
  }

  /** A header that declares length 0 never completes a message: the counter
      value `n` at which the payload would be trimmed satisfies `n - 4 == 0`
      only in the header, so every following byte up to the 65535th is
      swallowed as payload and the decoder keeps reading until the stream
      ends. */
  lemma DecodeEmptyHeader(channel: Byte, command: Byte, t: seq<Byte>)
    requires |t| <= MaxMessageSize - HeaderBytes
    ensures Decode([channel, command, 0, 0] + t) == ReadFailed
  {
    var w := [channel, command, 0, 0] + t;
    var h := Frame(channel, command, 0, 0, Zeros(MaxMessageSize));
    assert w[..4] == [channel, command, 0, 0] && w[4..] == t;
    DecodeHeader(w);
    ZeroRun(h, 0, t);
  }

  /** From payload index `k` of a message declaring length 0, a stream that
      ends before the counter wraps is read to its end without the message
      ever becoming valid. */
  lemma {:induction false} ZeroRun(h: Frame, k: nat, t: seq<Byte>)
    requires h.Length() == 0 && |h.data| == MaxMessageSize
    requires 4 + k + |t| <= 0xFFFF
    ensures Run(DecodeState(4 + k, h), t) == ReadFailed
    decreases |t|
  {
    PayloadPending(h);
    if |t| > 0 {
      var next := ZeroStep(h, k, t[0]);
      RunStep(DecodeState(4 + k, h), t, 0, Run(DecodeState(4 + k, h), t));
      ZeroRun(next.msg, k + 1, t[1..]);
    }
  }

  /** One byte after a length-0 header: it is stored at payload index `k`
      and the buffer is never trimmed, since `n - 4` is `k + 1`, not 0. */
  lemma ZeroStep(h: Frame, k: nat, b: Byte) returns (next: DecodeState)
    requires h.Length() == 0 && |h.data| == MaxMessageSize && 4 + k < 0xFFFF
    ensures next == Step(DecodeState(4 + k, h), b)
    ensures next == DecodeState(4 + (k + 1), h.(data := h.data[k := b]))
  {
    next := Step(DecodeState(4 + k, h), b);
    var n := Inc16(4 + k);
    assert n == 5 + k;
    assert Sub16(n, 5) == k && Sub16(n, 4) == k + 1;
  }

  /** A valid message of length 0 does not survive the round trip: its wire
      bytes are a header alone, which the decoder does not accept. */
  lemma DecodeZeroLength(f: Frame)
    requires f.Length() == 0
    ensures Decode(Serialize(f)) == ReadFailed
  {
    assert f.highLen == 0 && f.lowLen == 0;
    DecodeZeroLengthBytes(f);
  }

  /** The same with the length given as its two header bytes; kept apart so
      that the arithmetic on `Length()` and the unfolding of `Serialize` are
      proved separately. */
  lemma DecodeZeroLengthBytes(f: Frame)
    requires f.highLen == 0 && f.lowLen == 0
    ensures Decode(Serialize(f)) == ReadFailed
  {
    assert Serialize(f) == [f.channel, f.command, 0, 0] + [];
    DecodeEmptyHeader(f.channel, f.command, []);
  }

  /** The decoder never reads ahead: bytes after the ones it consumed do not
      change what it returns. */
  lemma {:induction false} RunIgnoresRest(st: DecodeState, s: seq<Byte>, t: seq<Byte>)
    requires |st.msg.data| == MaxMessageSize || st.msg.IsValid()
    requires Run(st, s).Decoded?
    ensures Run(st, s[..Run(st, s).consumed] + t) == Run(st, s)
    decreases |s|
  {
    var k := Run(st, s).consumed;
    if !st.msg.IsValid() {
      var s' := s[..k] + t;
      assert s'[0] == s[0] && s'[1..] == s[1..][..k - 1] + t;
      RunIgnoresRest(Step(st, s[0]), s[1..], t);
    }
  }

  /** The stream-level form: once `Decode` has found a message in `s`, any
      stream that starts with the same consumed bytes yields the same result. */
  lemma DecodeIgnoresRest(s: seq<Byte>, t: seq<Byte>)
    requires Decode(s).Decoded?
    ensures Decode(s[..Decode(s).consumed] + t) == Decode(s)
  {
    RunIgnoresRest(Initial(), s, t);
  }

  /** A connection carrying those seven bytes: `ReadOpc` returns a message
      whose wire bytes are the bytes it read. */
  method ReadOpcExample(payload: seq<Byte>) returns (bytes: seq<Byte>)
    requires payload == [255, 0, 0, 3, 1, 2, 3]
    ensures bytes == payload
  {
    var conn := new Conn(payload);
    DecodeExample(payload);
    var m, err := ReadOpc(conn);
    bytes := m.ByteArray();
    assert m.Data == [1, 2, 3];
  }

  // ---------------------------------------------------------------------
  // Devices, the registry and the dispatcher
  // ---------------------------------------------------------------------

  /** A device, seen only through the channel it reports; `id` tells apart
      devices that report the same channel. */
  datatype Device = Device(id: nat, channel: Byte)

  /** One call of a device's `Write` with a message. */
  datatype Delivery = Delivery(device: Device, msg: Message)

  /** The channels a message is written to: every registered one for a
      broadcast, otherwise its own channel. */
  function Targets(devs: map<Byte, Device>, m: Frame): (ks: set<Byte>)
    ensures ks <= devs.Keys + {m.channel}
    ensures m.IsBroadcast() ==> ks == devs.Keys
    ensures !m.IsBroadcast() ==> ks == {m.channel}
  {
    if m.IsBroadcast() then devs.Keys else {m.channel}
  }

  /** The deliveries made by writing `m` to the device of each channel in
      `order`, one after the other. */
  ghost function Deliveries(devs: map<Byte, Device>, order: seq<Byte>, m: Message): (ws: seq<Delivery>)
    requires forall i :: 0 <= i < |order| ==> order[i] in devs
    ensures |ws| == |order|
    ensures forall i :: 0 <= i < |order| ==> ws[i] == Delivery(devs[order[i]], m)
  {
    if order == [] then [] else Deliveries(devs, order[..|order| - 1], m) + [Delivery(devs[order[|order| - 1]], m)]
  }

  /** Writing to one more channel appends one delivery. */
  lemma DeliveriesSnoc(devs: map<Byte, Device>, order: seq<Byte>, c: Byte, m: Message)
    requires forall i :: 0 <= i < |order| ==> order[i] in devs
    requires c in devs
    ensures Deliveries(devs, order + [c], m) == Deliveries(devs, order, m) + [Delivery(devs[c], m)]
  {
    assert (order + [c])[..|order|] == order;
  }

  /** A Go `*Server` with its device registry; `Writes` records every device
      write the server has made, in order. */
  class Server {
    var Devs: map<Byte, Device>
    ghost var Writes: seq<Delivery>

    /** Each device is registered under the channel it reports. */
    ghost predicate Valid()
      reads this
    {
      forall c :: c in Devs ==> Devs[c].channel == c
    }

    /** `NewServer()`: no devices. */
    constructor ()
      ensures Valid() && Devs == map[] && Writes == []
    {
      Devs := map[];
      Writes := [];
    }

    /** Registers `dev` under its channel, replacing a device registered there. */
    method RegisterDevice(dev: Device)
      modifies this`Devs
      ensures Devs == old(Devs)[dev.channel := dev]
      ensures dev.channel in Devs && Devs[dev.channel] == dev
      ensures forall c :: c != dev.channel ==> (c in Devs <==> c in old(Devs))
      ensures forall c :: c != dev.channel && c in Devs ==> Devs[c] == old(Devs)[c]
      ensures old(Valid()) ==> Valid()
    {
      Devs := Devs[dev.channel := dev];
    }

    /** Removes whatever device is registered under `dev`'s channel; nothing
        happens when that channel is free. */
    method UnregisterDevice(dev: Device)
      modifies this`Devs
      ensures Devs == old(Devs) - {dev.channel}
      ensures dev.channel !in Devs
      ensures forall c :: c != dev.channel ==> (c in Devs <==> c in old(Devs))
      ensures forall c :: c != dev.channel && c in Devs ==> Devs[c] == old(Devs)[c]
      ensures dev.channel !in old(Devs) ==> Devs == old(Devs)
      ensures old(Valid()) ==> Valid()
    {
      Devs := Devs - {dev.channel};
    }

    /** A device's `Write`: recorded in `Writes`; the device may report an
        error, which the caller is free to ignore. */
    method Write(dev: Device, m: Message) returns (err: Option<WriteError>)
      modifies this`Writes
      ensures Writes == old(Writes) + [Delivery(dev, m)]
    {
      Writes := Writes + [Delivery(dev, m)];
      err :| true;
    }

    /** Writes `m` to the device of every channel in `channels`, each channel
        once, in an unspecified order; write errors are dropped. */
    method WriteEach(channels: set<Byte>, m: Message) returns (ghost order: seq<Byte>)
      requires channels <= Devs.Keys
      modifies this`Writes
      ensures forall i, j :: 0 <= i < j < |order| ==> order[i] != order[j]
      ensures forall c :: c in order <==> c in channels
      ensures forall i :: 0 <= i < |order| ==> order[i] in Devs
      ensures Writes == old(Writes) + Deliveries(Devs, order, m)
    {
      order := [];
      ghost var done: set<Byte> := {};
      var pending := channels;
      while pending != {}
        invariant done !! pending && done + pending == channels
        invariant forall i :: 0 <= i < |order| ==> order[i] in done
        invariant forall c :: c in done ==> c in order
        invariant forall i, j :: 0 <= i < j < |order| ==> order[i] != order[j]
        invariant Writes == old(Writes) + Deliveries(Devs, order, m)
        decreases pending
      {
        var c :| c in pending;
        var _ := Write(Devs[c], m);
        DeliveriesSnoc(Devs, order, c, m);
        order := order + [c];
        done := done + {c};
        pending := pending - {c};
      }
    }

    /** Writes `m` to every registered device, in an unspecified order, when it
        is a broadcast, and otherwise to the device registered under its
        channel; Go's lookup of a missing channel yields a nil device whose
        `Write` panics, so that channel must be registered. Write errors are
        dropped and never stop the remaining writes. */
    method Dispatch(m: Message) returns (ghost order: seq<Byte>)
      requires !m.IsBroadcast() ==> m.Channel in Devs
      modifies this`Writes
      ensures forall i, j :: 0 <= i < j < |order| ==> order[i] != order[j]
      ensures forall c :: c in order <==> c in Targets(Devs, m.Value())
      ensures forall i :: 0 <= i < |order| ==> order[i] in Devs
      ensures Writes == old(Writes) + Deliveries(Devs, order, m)
      ensures Valid() ==> forall i :: |old(Writes)| <= i < |Writes| ==>
        Writes[i].device.channel in Targets(Devs, m.Value())
    {
      if m.IsBroadcast() {
        order := WriteEach(Devs.Keys, m);
      } else {
        var _ := Write(Devs[m.Channel], m);
        order := [m.Channel];
        assert Deliveries(Devs, order, m) == [Delivery(Devs[m.Channel], m)];
      }
    }
  }
}
